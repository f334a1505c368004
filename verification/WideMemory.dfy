/** The wide-character memory routines: search, comparison and fill by count. */
module WideMemory {
  import opened Wrappers

  type Wide = w: nat | w < 0x1_0000

  /** wmemchr. */
  method WMemChr(s: array<Wide>, c: Wide, n: nat) returns (r: Option<nat>)
    requires n <= s.Length
    ensures r.None? <==> c !in s[..n]
    ensures r.Some? ==> r.value < n && s[r.value] == c && c !in s[..r.value]
  {
    var i := 0;
    while i < n
      invariant i <= n && c !in s[..i]
    {
      if s[i] == c { return Some(i); }
      assert s[..i + 1] == s[..i] + [s[i]];
      i := i + 1;
    }
    r := None;
  }

  /** The verdict of wmemcmp: the order of the first wide characters that differ. */
  function Compare(a: seq<Wide>, b: seq<Wide>, n: nat): (v: int)
    requires n <= |a| && n <= |b|
    ensures v in {-1, 0, 1}
  {
    if n == 0 then 0
    else if a[0] != b[0] then (if a[0] < b[0] then -1 else 1)
    else Compare(a[1..], b[1..], n - 1)
  }

  method WMemCmp(s1: array<Wide>, s2: array<Wide>, n: nat) returns (v: int)
    requires n <= s1.Length && n <= s2.Length
    ensures v == Compare(s1[..], s2[..], n)
  {
    var i := 0;
    while i < n
      invariant i <= n
      invariant Compare(s1[i..], s2[i..], n - i) == Compare(s1[..], s2[..], n)
    {
      if s1[i] != s2[i] { return if s1[i] < s2[i] then -1 else 1; }
      assert s1[i..][1..] == s1[i + 1..] && s2[i..][1..] == s2[i + 1..];
      i := i + 1;
    }
    v := 0;
  }

  /** wmemset changes exactly the first `n` cells. */
  method WMemSet(s: array<Wide>, c: Wide, n: nat)
    requires n <= s.Length
    modifies s
    ensures forall i :: 0 <= i < s.Length ==> s[i] == if i < n then c else old(s[i])
  {
    var i := 0;
    while i < n
      invariant i <= n
      invariant forall j :: 0 <= j < s.Length ==> s[j] == if j < i then c else old(s[j])
    {
      s[i] := c;
      i := i + 1;
    }
  }

  // ----- Comparison is a total order

  /** The first difference is at `k`, and the character of `a` is the smaller one there. */
  ghost predicate LessAt(a: seq<Wide>, b: seq<Wide>, n: nat, k: nat) {
    k < n <= |a| && n <= |b| && a[..k] == b[..k] && a[k] < b[k]
  }

  /** Negative exactly when the first character that differs is smaller in the first
      operand, positive exactly when it is smaller in the second. */
  lemma CompareLessIff(a: seq<Wide>, b: seq<Wide>, n: nat)
    requires n <= |a| && n <= |b|
    ensures Compare(a, b, n) == -1 <==> exists k: nat :: LessAt(a, b, n, k)
    ensures Compare(a, b, n) == 1 <==> exists k: nat :: LessAt(b, a, n, k)
  {
    NegativeIff(a, b, n);
    NegativeIff(b, a, n);
    CompareAntisymmetric(a, b, n);
  }

  lemma LessAtStep(a: seq<Wide>, b: seq<Wide>, n: nat, k: nat)
    requires 0 < n <= |a| && n <= |b|
    ensures LessAt(a, b, n, k)
       <==> if k == 0 then a[0] < b[0] else a[0] == b[0] && LessAt(a[1..], b[1..], n - 1, k - 1)
  {
    if 0 < k < n {
      var x, y := a[..k], b[..k];
      assert x[0] == a[0] && x[1..] == a[1..][..k - 1] && x == [x[0]] + x[1..];
      assert y[0] == b[0] && y[1..] == b[1..][..k - 1] && y == [y[0]] + y[1..];
    }
  }

  lemma {:induction false} NegativeIff(a: seq<Wide>, b: seq<Wide>, n: nat)
    requires n <= |a| && n <= |b|
    ensures Compare(a, b, n) == -1 <==> exists k: nat :: LessAt(a, b, n, k)
  {
    if n > 0 {
      LessAtStep(a, b, n, 0);
      if k: nat :| LessAt(a, b, n, k) { LessAtStep(a, b, n, k); }
      if a[0] == b[0] {
        var x, y, m := a[1..], b[1..], n - 1;
        NegativeIff(x, y, m);
        if k: nat :| LessAt(x, y, m, k) { LessAtStep(a, b, n, k + 1); }
      }
    }
  }

  /** Zero exactly on equal prefixes. */
  lemma {:induction false} CompareZeroIffEqual(a: seq<Wide>, b: seq<Wide>, n: nat)
    requires n <= |a| && n <= |b|
    ensures Compare(a, b, n) == 0 <==> a[..n] == b[..n]
  {
    if n > 0 {
      CompareZeroIffEqual(a[1..], b[1..], n - 1);
      assert a[..n] == [a[0]] + a[1..][..n - 1] && b[..n] == [b[0]] + b[1..][..n - 1];
    }
  }

  lemma {:induction false} CompareAntisymmetric(a: seq<Wide>, b: seq<Wide>, n: nat)
    requires n <= |a| && n <= |b|
    ensures Compare(a, b, n) == -Compare(b, a, n)
  {
    if n > 0 && a[0] == b[0] { CompareAntisymmetric(a[1..], b[1..], n - 1); }
  }

  /** Transitive, and strictly so when either step is strict. */
  lemma {:induction false} CompareTransitive(a: seq<Wide>, b: seq<Wide>, c: seq<Wide>, n: nat)
    requires n <= |a| && n <= |b| && n <= |c|
    requires Compare(a, b, n) <= 0 && Compare(b, c, n) <= 0
    ensures Compare(a, c, n) <= 0
    ensures Compare(a, b, n) < 0 || Compare(b, c, n) < 0 ==> Compare(a, c, n) < 0
  {
    if n > 0 && a[0] == b[0] == c[0] { CompareTransitive(a[1..], b[1..], c[1..], n - 1); }
  }

  /** A verdict other than equal is kept by every longer count. */
  lemma {:induction false} CompareExtends(a: seq<Wide>, b: seq<Wide>, n: nat, m: nat)
    requires n <= m <= |a| && m <= |b| && Compare(a, b, n) != 0
    ensures Compare(a, b, m) == Compare(a, b, n)
  {
    if a[0] == b[0] { CompareExtends(a[1..], b[1..], n - 1, m - 1); }
  }
}
