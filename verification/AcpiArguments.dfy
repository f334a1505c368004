/** Variable-length ACPI method arguments packed in a byte buffer: a 16-bit type, a
    16-bit data length, then the data in at least four bytes. */
module AcpiArguments {
  import opened Bytes

  const INTEGER := 0
  const STRING := 1
  const BUFFER := 2

  const HEADER := 4
  const MAX_LENGTH := 0xFFFF

  /** An argument as it travels: its type and the bytes of its data. */
  datatype Argument = Argument(code: Byte, data: seq<Byte>)

  function Integer(value: Word): Argument {
    Argument(INTEGER, LittleEndian32(value))
  }

  /** A string carries its NUL. */
  function Text(chars: seq<Byte>): Argument {
    Argument(STRING, chars + [0])
  }

  function Buffer(bytes: seq<Byte>): Argument {
    Argument(BUFFER, bytes)
  }

  /** The value of an argument can be read off its type and data. */
  lemma ArgumentsAreDistinct(v: Word, v': Word, s: seq<Byte>, s': seq<Byte>)
    ensures Integer(v) == Integer(v') ==> v == v'
    ensures Text(s) == Text(s') ==> s == s'
    ensures Buffer(s) == Buffer(s') ==> s == s'
    ensures Integer(v) != Text(s) && Integer(v) != Buffer(s) && Text(s) != Buffer(s')
  {
    ComposeLittleEndian(v);
    ComposeLittleEndian(v');
    assert (s + [0])[..|s|] == s && (s' + [0])[..|s'|] == s';
  }

  function Max(a: nat, b: nat): nat {
    if a >= b then a else b
  }

  // ----- Fields in memory

  function Half(b: seq<Byte>, p: nat): nat
    requires p + 2 <= |b|
  {
    Compose2(b[p], b[p + 1])
  }

  function WordAt(b: seq<Byte>, p: nat): Word
    requires p + 4 <= |b|
  {
    Compose4(b[p], b[p + 1], b[p + 2], b[p + 3])
  }

  /** Storing `bytes` at `p`. */
  function Write(b: seq<Byte>, p: nat, bytes: seq<Byte>): (r: seq<Byte>)
    requires p + |bytes| <= |b|
    ensures |r| == |b|
  {
    b[..p] + bytes + b[p + |bytes|..]
  }

  /** ACPI_METHOD_ARGUMENT_LENGTH. */
  function ArgumentLength(n: nat): nat {
    HEADER + Max(4, n)
  }

  predicate HasHeader(b: seq<Byte>, p: nat) {
    p + HEADER <= |b|
  }

  function DataLength(b: seq<Byte>, p: nat): nat
    requires HasHeader(b, p)
  {
    Half(b, p + 2)
  }

  /** ACPI_METHOD_NEXT_ARGUMENT. */
  function Next(b: seq<Byte>, p: nat): nat
    requires HasHeader(b, p)
  {
    p + ArgumentLength(DataLength(b, p))
  }

  /** A step is over the four bytes of the header and the data, but no fewer than four. */
  lemma NextExact(b: seq<Byte>, p: nat)
    requires p + 4 <= |b|
    ensures var n := Weigh(b[p + 2], b[p + 3], 0, 0);
            Next(b, p) == p + 4 + if n < 4 then 4 else n
  {
  }

  // ----- The setters, on values

  /** The bytes a setter stores; the length field keeps 16 bits, and the copy uses it. */
  function StoredBytes(code: Byte, data: seq<Byte>): (s: seq<Byte>)
    ensures |s| == HEADER + |data| % 0x1_0000
  {
    var n := |data| % 0x1_0000;
    [code, 0, n % 0x100, n / 0x100] + data[..n]
  }

  function Stored(a: Argument): (s: seq<Byte>) {
    StoredBytes(a.code, a.data)
  }

  function Set(b: seq<Byte>, p: nat, a: Argument): (r: seq<Byte>)
    requires p + |Stored(a)| <= |b|
    ensures |r| == |b|
  {
    Write(b, p, Stored(a))
  }

  /** The bytes of each kind of record. */
  lemma RecordBytes(v: Word, chars: seq<Byte>, bytes: seq<Byte>)
    requires |chars| < 0xFFFF && |bytes| <= 0xFFFF
    ensures Stored(Integer(v)) == [0, 0, 4, 0] + LittleEndian32(v)
    ensures Stored(Text(chars)) == [1, 0, (|chars| + 1) % 0x100, (|chars| + 1) / 0x100] + chars + [0]
    ensures Stored(Buffer(bytes)) == [2, 0, |bytes| % 0x100, |bytes| / 0x100] + bytes
  {
  }

  // ----- The setters, in place

  /** RtlCopyMemory. */
  method CopyMemory(buf: array<Byte>, p: nat, src: seq<Byte>, n: nat)
    requires n <= |src| && p + n <= buf.Length
    modifies buf
    ensures buf[..] == Write(old(buf[..]), p, src[..n])
  {
    ghost var was := buf[..];
    for i := 0 to n
      invariant buf[..p + i] == was[..p] + src[..i] && buf[p + i..] == was[p + i..]
    {
      buf[p + i] := src[i];
      assert buf[..p + (i + 1)] == buf[..p + i] + [src[i]];
      assert src[..i + 1] == src[..i] + [src[i]];
    }
    assert buf[..] == buf[..p + n] + buf[p + n..];
  }

  method PutHalf(buf: array<Byte>, p: nat, v: nat)
    requires p + 2 <= buf.Length && v <= MAX_LENGTH
    modifies buf
    ensures buf[..] == Write(old(buf[..]), p, [v % 0x100, v / 0x100])
    ensures Compose2(buf[p], buf[p + 1]) == v
  {
    buf[p], buf[p + 1] := v % 0x100, v / 0x100;
  }

  /** The fields in the order the macros assign them: type, length, then a copy of as
      many bytes as the length field now says. */
  method SetFields(buf: array<Byte>, p: nat, code: Byte, data: seq<Byte>)
    requires p + ArgumentLength(|data| % 0x1_0000) <= buf.Length
    modifies buf
    ensures buf[..] == Write(old(buf[..]), p, StoredBytes(code, data))
  {
    ghost var was := buf[..];
    PutHalf(buf, p, code);
    assert [code % 0x100, code / 0x100] == [code, 0];
    PutHalf(buf, p + 2, |data| % 0x1_0000);
    var n := Compose2(buf[p + 2], buf[p + 3]);
    CopyMemory(buf, p + HEADER, data, n);
    FieldsMakeRecord(was, p, code, data, n);
  }

  lemma FieldsMakeRecord(b: seq<Byte>, p: nat, code: Byte, data: seq<Byte>, n: nat)
    requires n == |data| % 0x1_0000 && p + HEADER + n <= |b|
    ensures Write(Write(Write(b, p, [code, 0]), p + 2, [n % 0x100, n / 0x100]), p + HEADER, data[..n])
         == Write(b, p, StoredBytes(code, data))
  {
    ThreeWrites(b, p, [code, 0], [n % 0x100, n / 0x100], data[..n]);
    assert [code, 0] + [n % 0x100, n / 0x100] + data[..n] == StoredBytes(code, data);
  }

  method SetInteger(buf: array<Byte>, p: nat, value: Word)
    requires p + ArgumentLength(4) <= buf.Length
    modifies buf
    ensures buf[..] == Set(old(buf[..]), p, Integer(value))
  {
    SetFields(buf, p, INTEGER, LittleEndian32(value));
  }

  /** `chars` is the string the macro measures with strlen; its NUL is stored too. */
  method SetString(buf: array<Byte>, p: nat, chars: seq<Byte>)
    requires p + ArgumentLength((|chars| + 1) % 0x1_0000) <= buf.Length
    modifies buf
    ensures buf[..] == Set(old(buf[..]), p, Text(chars))
  {
    SetFields(buf, p, STRING, chars + [0]);
  }

  method SetBuffer(buf: array<Byte>, p: nat, bytes: seq<Byte>)
    requires p + ArgumentLength(|bytes| % 0x1_0000) <= buf.Length
    modifies buf
    ensures buf[..] == Set(old(buf[..]), p, Buffer(bytes))
  {
    SetFields(buf, p, BUFFER, bytes);
  }

  lemma ThreeWrites(b: seq<Byte>, p: nat, x: seq<Byte>, y: seq<Byte>, z: seq<Byte>)
    requires p + |x| + |y| + |z| <= |b|
    ensures Write(Write(Write(b, p, x), p + |x|, y), p + |x| + |y|, z) == Write(b, p, x + y + z)
  {
  }

  // ----- Packing and walking

  /** One step of a packing run: set `a` at `p`, then step over it. */
  ghost predicate PackStep(b: seq<Byte>, p: nat, a: Argument, b': seq<Byte>, p': nat) {
    && |a.data| <= MAX_LENGTH && p + ArgumentLength(|a.data|) <= |b|
    && b' == Set(b, p, a) && HasHeader(b', p) && p' == Next(b', p)
  }

  ghost predicate SetsAt(bs: seq<seq<Byte>>, ps: seq<nat>, args: seq<Argument>, i: nat)
    requires |bs| == |ps| == |args| + 1 && i < |args|
  {
    PackStep(bs[i], ps[i], args[i], bs[i + 1], ps[i + 1])
  }

  /** A run that packs `args`: the buffers and the positions after each step. */
  ghost predicate PackRun(bs: seq<seq<Byte>>, ps: seq<nat>, args: seq<Argument>) {
    && |bs| == |ps| == |args| + 1
    && forall i :: 0 <= i < |args| ==> SetsAt(bs, ps, args, i)
  }

  /** The lengths of the first `n` arguments together. */
  ghost function Space(args: seq<Argument>, n: nat): nat
    requires n <= |args|
  {
    if n == 0 then 0 else Space(args, n - 1) + ArgumentLength(|args[n - 1].data|)
  }

  /** The record at `p` has the type and the data of `a`. */
  ghost predicate IsAt(b: seq<Byte>, p: nat, a: Argument) {
    && p + HEADER + |a.data| <= |b|
    && Half(b, p) == a.code && DataLength(b, p) == |a.data|
    && b[p + HEADER..p + HEADER + |a.data|] == a.data
  }

  /** What a setter stores is what the walker finds, and the step covers it. */
  lemma SetReadsBack(b: seq<Byte>, p: nat, a: Argument)
    requires |a.data| <= MAX_LENGTH && p + ArgumentLength(|a.data|) <= |b|
    ensures var r := Set(b, p, a);
            IsAt(r, p, a) && Next(r, p) == p + ArgumentLength(|a.data|)
  {
  }

  lemma ByteOfSlice(r: seq<Byte>, p: nat, s: seq<Byte>, i: nat)
    requires p + |s| <= |r| && r[p..p + |s|] == s && i < |s|
    ensures r[p + i] == s[i]
  {
  }

  /** What a step does: the argument is in place, and every byte before it and after it
      is as it was. */
  ghost predicate Placed(b: seq<Byte>, p: nat, a: Argument, b': seq<Byte>, p': nat) {
    && |b'| == |b| && p <= p' <= |b|
    && Finds(b', p, a, p')
    && b'[..p] == b[..p] && b'[p'..] == b[p'..]
  }

  /** The walker finds `a` at `p` and steps from it to `q`. */
  ghost predicate Finds(b: seq<Byte>, p: nat, a: Argument, q: nat) {
    IsAt(b, p, a) && Next(b, p) == q
  }

  lemma StepPlaces(b: seq<Byte>, p: nat, a: Argument, b': seq<Byte>, p': nat)
    requires PackStep(b, p, a, b', p')
    ensures Placed(b, p, a, b', p')
  {
  }

  ghost predicate PlacesAt(bs: seq<seq<Byte>>, ps: seq<nat>, args: seq<Argument>, i: nat)
    requires |bs| == |ps| == |args| + 1 && i < |args|
  {
    Placed(bs[i], ps[i], args[i], bs[i + 1], ps[i + 1])
  }

  ghost predicate PlacedRun(bs: seq<seq<Byte>>, ps: seq<nat>, args: seq<Argument>) {
    && |bs| == |ps| == |args| + 1
    && forall i :: 0 <= i < |args| ==> PlacesAt(bs, ps, args, i)
  }

  lemma RunPlaces(bs: seq<seq<Byte>>, ps: seq<nat>, args: seq<Argument>)
    requires PackRun(bs, ps, args)
    ensures PlacedRun(bs, ps, args)
  {
    forall i | 0 <= i < |args| ensures PlacesAt(bs, ps, args, i) {
      assert SetsAt(bs, ps, args, i);
      StepPlaces(bs[i], ps[i], args[i], bs[i + 1], ps[i + 1]);
    }
  }

  lemma {:induction false} PlacedRunAdvances(bs: seq<seq<Byte>>, ps: seq<nat>, args: seq<Argument>, j: nat, k: nat)
    requires PlacedRun(bs, ps, args) && j <= k <= |args|
    ensures |bs[k]| == |bs[j]| && ps[j] <= ps[k]
    decreases k
  {
    if j < k {
      assert PlacesAt(bs, ps, args, k - 1);
      PlacedRunAdvances(bs, ps, args, j, k - 1);
    }
  }

  /** One more step leaves an argument set before it where it was. */
  lemma StepKeepsEarlier(bs: seq<seq<Byte>>, ps: seq<nat>, args: seq<Argument>, j: nat, k: nat)
    requires |bs| == |ps| == |args| + 1 && j < k < |args| && PlacesAt(bs, ps, args, k)
    requires Finds(bs[k], ps[j], args[j], ps[j + 1]) && ps[j + 1] <= ps[k]
    ensures Finds(bs[k + 1], ps[j], args[j], ps[j + 1])
  {
  }

  lemma {:induction false} PlacedRunFinds(bs: seq<seq<Byte>>, ps: seq<nat>, args: seq<Argument>, j: nat, k: nat)
    requires PlacedRun(bs, ps, args) && j < k <= |args|
    ensures Finds(bs[k], ps[j], args[j], ps[j + 1])
    decreases k
  {
    if j < k - 1 {
      PlacedRunFinds(bs, ps, args, j, k - 1);
      PlacedRunAdvances(bs, ps, args, j + 1, k - 1);
      assert PlacesAt(bs, ps, args, k - 1);
      StepKeepsEarlier(bs, ps, args, j, k - 1);
    } else {
      assert PlacesAt(bs, ps, args, j);
    }
  }

  /** After `k` steps of any run, every argument already set reads back from its place,
      and the walker steps from it to the next. */
  lemma PackThenWalk(bs: seq<seq<Byte>>, ps: seq<nat>, args: seq<Argument>, j: nat, k: nat)
    requires PackRun(bs, ps, args) && j < k <= |args|
    ensures Finds(bs[k], ps[j], args[j], ps[j + 1])
  {
    RunPlaces(bs, ps, args);
    PlacedRunFinds(bs, ps, args, j, k);
  }

  lemma {:induction false} PlacedRunPosition(bs: seq<seq<Byte>>, ps: seq<nat>, args: seq<Argument>, k: nat)
    requires PlacedRun(bs, ps, args) && k <= |args|
    ensures ps[k] == ps[0] + Space(args, k)
    decreases k
  {
    if k > 0 {
      assert PlacesAt(bs, ps, args, k - 1);
      FindsLength(bs[k], ps[k - 1], args[k - 1], ps[k]);
      PlacedRunPosition(bs, ps, args, k - 1);
    }
  }

  lemma FindsLength(b: seq<Byte>, p: nat, a: Argument, q: nat)
    requires Finds(b, p, a, q)
    ensures q == p + ArgumentLength(|a.data|)
  {
  }

  /** A run stands at the sum of the lengths set, each at least four bytes of data. */
  lemma PackPosition(bs: seq<seq<Byte>>, ps: seq<nat>, args: seq<Argument>, k: nat)
    requires PackRun(bs, ps, args) && k <= |args|
    ensures ps[k] == ps[0] + Space(args, k)
  {
    RunPlaces(bs, ps, args);
    PlacedRunPosition(bs, ps, args, k);
  }

  /** Each step of a run is eight bytes for data of at most four, and four more than the
      data otherwise. */
  lemma {:induction false} PackSteps(bs: seq<seq<Byte>>, ps: seq<nat>, args: seq<Argument>, j: nat)
    requires PackRun(bs, ps, args) && j < |args|
    ensures ps[j + 1] == ps[j] + if |args[j].data| <= 4 then 8 else 4 + |args[j].data|
  {
    PackPosition(bs, ps, args, j);
    PackPosition(bs, ps, args, j + 1);
  }

  lemma {:induction false} PlacedRunFrame(bs: seq<seq<Byte>>, ps: seq<nat>, args: seq<Argument>, k: nat)
    requires PlacedRun(bs, ps, args) && k <= |args| && ps[0] <= |bs[0]|
    ensures |bs[k]| == |bs[0]| && ps[0] <= ps[k] <= |bs[0]|
    ensures bs[k][..ps[0]] == bs[0][..ps[0]] && bs[k][ps[k]..] == bs[0][ps[k]..]
    decreases k
  {
    if k > 0 {
      assert PlacesAt(bs, ps, args, k - 1);
      PlacedRunFrame(bs, ps, args, k - 1);
      PrefixOfPrefix(bs[k], bs[k - 1], ps[0], ps[k - 1]);
      SuffixOfSuffix(bs[k - 1], bs[0], ps[k - 1], ps[k]);
    }
  }

  /** A run changes nothing outside the bytes it steps over. */
  lemma PackFrame(bs: seq<seq<Byte>>, ps: seq<nat>, args: seq<Argument>, k: nat)
    requires PackRun(bs, ps, args) && k <= |args| && ps[0] <= |bs[0]|
    ensures |bs[k]| == |bs[0]| && ps[0] <= ps[k] <= |bs[0]|
    ensures bs[k][..ps[0]] == bs[0][..ps[0]] && bs[k][ps[k]..] == bs[0][ps[k]..]
  {
    RunPlaces(bs, ps, args);
    PlacedRunFrame(bs, ps, args, k);
  }

  // ----- Packing a list in place

  /** A run followed by one more step is a run. */
  lemma RunExtends(bs: seq<seq<Byte>>, ps: seq<nat>, args: seq<Argument>, a: Argument, b: seq<Byte>, p: nat)
    requires PackRun(bs, ps, args) && PackStep(bs[|args|], ps[|args|], a, b, p)
    ensures PackRun(bs + [b], ps + [p], args + [a])
  {
    var bs', ps', args' := bs + [b], ps + [p], args + [a];
    forall i | 0 <= i < |args'| ensures SetsAt(bs', ps', args', i) {
      if i < |args| { assert SetsAt(bs, ps, args, i); }
    }
  }

  lemma {:induction false} SpaceOfPrefix(args: seq<Argument>, i: nat, n: nat)
    requires i <= n <= |args|
    ensures Space(args[..n], i) == Space(args, i)
    decreases i
  {
    if i > 0 { SpaceOfPrefix(args, i - 1, n); }
  }

  lemma {:induction false} SpaceGrows(args: seq<Argument>, i: nat, n: nat)
    requires i <= n <= |args|
    ensures Space(args, i) <= Space(args, n)
    decreases n
  {
    if i < n { SpaceGrows(args, i, n - 1); }
  }

  /** One more argument of the list fits where the run stands. */
  lemma StepFits(bs: seq<seq<Byte>>, ps: seq<nat>, args: seq<Argument>, i: nat)
    requires i < |args| && PackRun(bs, ps, args[..i]) && ps[0] + Space(args, |args|) <= |bs[0]|
    ensures ps[i] == ps[0] + Space(args, i) && |bs[i]| == |bs[0]|
    ensures ps[i] + ArgumentLength(|args[i].data|) <= |bs[i]|
  {
    PackPosition(bs, ps, args[..i], i);
    PackFrame(bs, ps, args[..i], i);
    SpaceOfPrefix(args, i, i);
    SpaceGrows(args, i + 1, |args|);
  }

  /** Set each argument in turn and step over it. Every list that fits is packed: each
      argument is found in its place, and no byte outside the run changes. */
  method Pack(buf: array<Byte>, p: nat, args: seq<Argument>) returns (ps: seq<nat>)
    requires forall i :: 0 <= i < |args| ==> |args[i].data| <= MAX_LENGTH
    requires p + Space(args, |args|) <= buf.Length
    modifies buf
    ensures |ps| == |args| + 1 && ps[0] == p && ps[|args|] == p + Space(args, |args|)
    ensures forall j :: 0 <= j < |args| ==> Finds(buf[..], ps[j], args[j], ps[j + 1])
    ensures forall j :: 0 <= j < |args| ==> ps[j + 1] == ps[j] + if |args[j].data| <= 4 then 8 else 4 + |args[j].data|
    ensures buf[..p] == old(buf[..p]) && buf[ps[|args|]..] == old(buf[..])[ps[|args|]..]
  {
    ps := [p];
    ghost var bs := [buf[..]];
    for i := 0 to |args|
      invariant |ps| == |bs| == i + 1 && bs[0] == old(buf[..]) && bs[i] == buf[..] && ps[0] == p
      invariant PackRun(bs, ps, args[..i])
    {
      StepFits(bs, ps, args, i);
      ghost var was := buf[..];
      var q := ps[i];
      SetFields(buf, q, args[i].code, args[i].data);
      var next := q + ArgumentLength(Compose2(buf[q + 2], buf[q + 3]));
      assert PackStep(was, q, args[i], buf[..], next);
      RunExtends(bs, ps, args[..i], args[i], buf[..], next);
      assert args[..i + 1] == args[..i] + [args[i]];
      bs, ps := bs + [buf[..]], ps + [next];
    }
    assert args[..|args|] == args;
    PackPosition(bs, ps, args, |args|);
    PackFrame(bs, ps, args, |args|);
    forall j | 0 <= j < |args| ensures Finds(buf[..], ps[j], args[j], ps[j + 1]) {
      PackThenWalk(bs, ps, args, j, |args|);
    }
    forall j | 0 <= j < |args|
      ensures ps[j + 1] == ps[j] + if |args[j].data| <= 4 then 8 else 4 + |args[j].data|
    {
      PackSteps(bs, ps, args, j);
    }
  }

  /** So a run exists for every list that fits, from any buffer. */
  lemma {:induction false} RunExists(b: seq<Byte>, p: nat, args: seq<Argument>)
    returns (bs: seq<seq<Byte>>, ps: seq<nat>)
    requires forall i :: 0 <= i < |args| ==> |args[i].data| <= MAX_LENGTH
    requires p + Space(args, |args|) <= |b|
    ensures PackRun(bs, ps, args) && bs[0] == b && ps[0] == p
    decreases |args|
  {
    if args == [] {
      bs, ps := [b], [p];
    } else {
      var n := |args| - 1;
      var front, a := args[..n], args[n];
      SpaceOfPrefix(args, n, n);
      bs, ps := RunExists(b, p, front);
      StepFits(bs, ps, args, n);
      var b' := Set(bs[n], ps[n], a);
      RunExtends(bs, ps, front, a, b', Next(b', ps[n]));
      assert args == front + [a];
      bs, ps := bs + [b'], ps + [Next(b', ps[n])];
    }
  }

  lemma PrefixOfPrefix(r: seq<Byte>, b: seq<Byte>, p: nat, q: nat)
    requires p <= q <= |r| && |r| == |b| && r[..q] == b[..q]
    ensures r[..p] == b[..p]
  {
  }

  lemma SuffixOfSuffix(r: seq<Byte>, b: seq<Byte>, p: nat, q: nat)
    requires p <= q <= |r| && |r| == |b| && r[p..] == b[p..]
    ensures r[q..] == b[q..]
  {
  }

  /** The data of one argument survives exactly when its length has 16 bits; longer data
      is cut to its length modulo 2^16. */
  lemma LengthFieldLimit(b: seq<Byte>, p: nat, a: Argument)
    requires p + ArgumentLength(|a.data|) <= |b|
    ensures var r, n := Set(b, p, a), |a.data| % 0x1_0000;
            && DataLength(r, p) == n
            && r[p + HEADER..p + HEADER + n] == a.data[..n]
            && (r[p + HEADER..p + HEADER + DataLength(r, p)] == a.data <==> |a.data| <= MAX_LENGTH)
  {
  }

  // ----- Child records

  datatype Child = Child(flags: Word, name: seq<Byte>)

  ghost function ChildBytes(c: Child): seq<Byte>
    requires |c.name| < 0x1_0000_0000
  {
    LittleEndian32(c.flags) + LittleEndian32(|c.name|) + c.name
  }

  ghost function ChildrenBytes(cs: seq<Child>): seq<Byte>
    requires forall c <- cs :: |c.name| < 0x1_0000_0000
  {
    if cs == [] then [] else ChildBytes(cs[0]) + ChildrenBytes(cs[1..])
  }

  /** ACPI_ENUM_CHILD_NEXT. */
  function NextChild(b: seq<Byte>, p: nat): nat
    requires p + 8 <= |b|
  {
    p + (2 * 4 + WordAt(b, p + 4))
  }

  /** The flags come first, then the name's length, then the name. */
  lemma ChildFields(b: seq<Byte>, p: nat)
    requires p + 8 <= |b|
    ensures NextChild(b, p) == p + 8 + Weigh(b[p + 4], b[p + 5], b[p + 6], b[p + 7])
    ensures WordAt(b, p) == Weigh(b[p], b[p + 1], b[p + 2], b[p + 3])
  {
    ComposeWeights(b[p], b[p + 1], b[p + 2], b[p + 3]);
    ComposeWeights(b[p + 4], b[p + 5], b[p + 6], b[p + 7]);
  }

  /** The record at `p`. */
  ghost predicate ChildAt(b: seq<Byte>, p: nat, c: Child) {
    && p + 8 <= |b| && NextChild(b, p) <= |b|
    && WordAt(b, p) == c.flags && b[p + 8..NextChild(b, p)] == c.name
  }

  /** Walking from `p` with `NextChild` meets exactly `cs`, in order, and arrives at `e`. */
  ghost predicate MeetsChildren(b: seq<Byte>, p: nat, cs: seq<Child>, e: nat)
    decreases |cs|
  {
    if cs == [] then p == e
    else ChildAt(b, p, cs[0]) && MeetsChildren(b, NextChild(b, p), cs[1..], e)
  }

  lemma PackedChild(b: seq<Byte>, p: nat, c: Child)
    requires |c.name| < 0x1_0000_0000
    requires p + |ChildBytes(c)| <= |b| && b[p..p + |ChildBytes(c)|] == ChildBytes(c)
    ensures ChildAt(b, p, c) && NextChild(b, p) == p + |ChildBytes(c)|
  {
    var s := ChildBytes(c);
    WordInSlice(b, p, s, 0, c.flags);
    WordInSlice(b, p, s, 4, |c.name|);
    forall i | 0 <= i < |c.name| ensures b[p + 8 + i] == c.name[i] {
      ByteOfSlice(b, p, s, 8 + i);
    }
  }

  lemma WordInSlice(b: seq<Byte>, p: nat, s: seq<Byte>, i: nat, w: Word)
    requires p + |s| <= |b| && b[p..p + |s|] == s && i + 4 <= |s| && s[i..i + 4] == LittleEndian32(w)
    ensures WordAt(b, p + i) == w
  {
    ComposeLittleEndian(w);
    forall k | 0 <= k < 4 ensures b[p + i + k] == LittleEndian32(w)[k] {
      ByteOfSlice(b, p, s, i + k);
      assert s[i..i + 4][k] == s[i + k];
    }
  }

  lemma SplitSlice(b: seq<Byte>, p: nat, x: seq<Byte>, y: seq<Byte>)
    requires p + |x + y| <= |b| && b[p..p + |x + y|] == x + y
    ensures b[p..p + |x|] == x && b[p + |x|..p + |x| + |y|] == y
  {
    forall i | 0 <= i < |x| ensures b[p + i] == x[i] { ByteOfSlice(b, p, x + y, i); }
    forall i | 0 <= i < |y| ensures b[p + |x| + i] == y[i] { ByteOfSlice(b, p, x + y, |x| + i); }
  }

  /** The walk visits exactly the records packed, in order, and ends at the end of the
      packed area. */
  lemma {:induction false} ChildWalkVisitsAll(b: seq<Byte>, p: nat, cs: seq<Child>)
    requires forall c <- cs :: |c.name| < 0x1_0000_0000
    requires var s := ChildrenBytes(cs); p + |s| <= |b| && b[p..p + |s|] == s
    ensures MeetsChildren(b, p, cs, p + |ChildrenBytes(cs)|)
    decreases |cs|
  {
    if cs != [] {
      var head, more := ChildBytes(cs[0]), ChildrenBytes(cs[1..]);
      SplitSlice(b, p, head, more);
      PackedChild(b, p, cs[0]);
      ChildWalkVisitsAll(b, p + |head|, cs[1..]);
    }
  }
}
