/** The refined reciprocal and reciprocal square root of the packed and scalar float
    classes, over exact reals: one Newton step from the hardware estimate. */
module NewtonStep {

  /** Four lanes, lowest first; the scalar class uses the same register. */
  datatype Vec = Vec(f0: real, f1: real, f2: real, f3: real)

  function Packed(f: (real, real) -> real, a: Vec, b: Vec): Vec {
    Vec(f(a.f0, b.f0), f(a.f1, b.f1), f(a.f2, b.f2), f(a.f3, b.f3))
  }

  /** A scalar instruction computes lane 0 and keeps the first operand's other lanes. */
  function Scalar(f: (real, real) -> real, a: Vec, b: Vec): Vec {
    a.(f0 := f(a.f0, b.f0))
  }

  const ADD := (x: real, y: real) => x + y
  const SUB := (x: real, y: real) => x - y
  const MUL := (x: real, y: real) => x * y

  function All(x: real): Vec {
    Vec(x, x, x, x)
  }

  /** rcp_nr of F32vec4, from the estimate `r` of the reciprocal. */
  function RcpNr4(a: Vec, r: Vec): Vec {
    Packed(SUB, Packed(ADD, r, r), Packed(MUL, Packed(MUL, r, a), r))
  }

  /** rsqrt_nr of F32vec4, from the estimate `r` of the reciprocal root. */
  function RsqrtNr4(a: Vec, r: Vec): Vec {
    Packed(MUL, Packed(MUL, All(0.5), r), Packed(SUB, All(3.0), Packed(MUL, Packed(MUL, a, r), r)))
  }

  /** rcp_nr of F32vec1. */
  function RcpNr1(a: Vec, r: Vec): Vec {
    Scalar(SUB, Scalar(ADD, r, r), Scalar(MUL, Scalar(MUL, r, a), r))
  }

  /** rsqrt_nr of F32vec1; its constants are set in lane 0 alone. */
  function RsqrtNr1(a: Vec, r: Vec): Vec {
    var half, three := Vec(0.5, 0.0, 0.0, 0.0), Vec(3.0, 0.0, 0.0, 0.0);
    Scalar(MUL, Scalar(MUL, half, r), Scalar(SUB, three, Scalar(MUL, Scalar(MUL, a, r), r)))
  }

  /** What is left of `a * r = 1` after a step. */
  ghost predicate ReciprocalRefined(a: real, r: real, out: real) {
    var e := 1.0 - a * r;
    1.0 - a * out == e * e
  }

  /** What is left of `a * r * r = 1` after a step. */
  ghost predicate RootRefined(a: real, r: real, out: real) {
    var e := 1.0 - a * r * r;
    1.0 - a * out * out == e * e * (3.0 + e) / 4.0
  }

  /** Every lane of the packed step squares the error of its estimate. */
  lemma PackedReciprocal(a: Vec, r: Vec)
    ensures var out := RcpNr4(a, r);
            && ReciprocalRefined(a.f0, r.f0, out.f0) && ReciprocalRefined(a.f1, r.f1, out.f1)
            && ReciprocalRefined(a.f2, r.f2, out.f2) && ReciprocalRefined(a.f3, r.f3, out.f3)
  {
  }

  lemma PackedRoot(a: Vec, r: Vec)
    ensures var out := RsqrtNr4(a, r);
            && RootRefined(a.f0, r.f0, out.f0) && RootRefined(a.f1, r.f1, out.f1)
            && RootRefined(a.f2, r.f2, out.f2) && RootRefined(a.f3, r.f3, out.f3)
  {
  }

  /** The scalar steps refine lane 0; the reciprocal keeps the estimate's other lanes,
      the root clears them. */
  lemma ScalarSteps(a: Vec, r: Vec)
    ensures ReciprocalRefined(a.f0, r.f0, RcpNr1(a, r).f0) && RcpNr1(a, r) == r.(f0 := RcpNr1(a, r).f0)
    ensures RootRefined(a.f0, r.f0, RsqrtNr1(a, r).f0) && RsqrtNr1(a, r) == Vec(RsqrtNr1(a, r).f0, 0.0, 0.0, 0.0)
  {
  }

  /** The step of a root keeps the sign of the estimate exactly while `a * r * r` is below
      three, and is zero exactly at three or from zero. */
  ghost predicate RootSigned(a: real, r: real, out: real) {
    && (out > 0.0 <==> (r > 0.0 && a * r * r < 3.0) || (r < 0.0 && a * r * r > 3.0))
    && (out == 0.0 <==> r == 0.0 || a * r * r == 3.0)
  }

  lemma HalfProduct(a: real, r: real, out: real)
    requires 2.0 * out == r * (3.0 - a * r * r)
    ensures RootSigned(a, r, out)
  {
    var d := 3.0 - a * r * r;
    ProductSign(r, d);
  }

  lemma ProductSign(x: real, y: real)
    ensures x * y > 0.0 <==> (x > 0.0 && y > 0.0) || (x < 0.0 && y < 0.0)
    ensures x * y == 0.0 <==> x == 0.0 || y == 0.0
  {
  }

  /** Together with its square this fixes the refined root, sign included. */
  lemma RootsAreSigned(a: Vec, r: Vec)
    ensures var out := RsqrtNr4(a, r);
            && RootSigned(a.f0, r.f0, out.f0) && RootSigned(a.f1, r.f1, out.f1)
            && RootSigned(a.f2, r.f2, out.f2) && RootSigned(a.f3, r.f3, out.f3)
  {
    var out := RsqrtNr4(a, r);
    HalfProduct(a.f0, r.f0, out.f0);
    HalfProduct(a.f1, r.f1, out.f1);
    HalfProduct(a.f2, r.f2, out.f2);
    HalfProduct(a.f3, r.f3, out.f3);
  }

  lemma ScalarRootIsSigned(a: Vec, r: Vec)
    ensures RootSigned(a.f0, r.f0, RsqrtNr1(a, r).f0)
    ensures a.f0 == 0.0 ==> RsqrtNr1(a, r).f0 == 1.5 * r.f0 && RcpNr1(a, r).f0 == 2.0 * r.f0
  {
    HalfProduct(a.f0, r.f0, RsqrtNr1(a, r).f0);
  }

  function Abs(x: real): real {
    if x < 0.0 then -x else x
  }

  /** A refined reciprocal of a positive number is never above the true one, and from
      any estimate with relative error at most `d` its relative error is at most `d * d`. */
  lemma ReciprocalBound(a: real, r: real, out: real, d: real)
    requires a > 0.0 && ReciprocalRefined(a, r, out) && Abs(1.0 - a * r) <= d
    ensures out <= 1.0 / a
    ensures 0.0 <= 1.0 - a * out <= d * d
  {
  }

  /** From any estimate with |e| < 1 the refined root is never above the true one, and
      its remaining error is between e^2 / 2 and e^2. */
  lemma RootBound(a: real, r: real, out: real)
    requires RootRefined(a, r, out) && Abs(1.0 - a * r * r) < 1.0
    ensures var e := 1.0 - a * r * r;
            e * e / 2.0 <= 1.0 - a * out * out <= e * e
  {
    var e := 1.0 - a * r * r;
    var s := e * e;
    assert s >= 0.0;
    NonNegative(s, 1.0 - e);
    NonNegative(s, 1.0 + e);
    assert s * (3.0 + e) == 2.0 * s + s * (1.0 + e) == 4.0 * s - s * (1.0 - e);
  }

  lemma NonNegative(x: real, y: real)
    requires x >= 0.0 && y >= 0.0
    ensures x * y >= 0.0
  {
  }
}
