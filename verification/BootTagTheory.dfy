/** The word-level walk refines a fold over the decoded records, and the algebra of
    that fold. */
module BootTagTheory {
  import opened Bits
  import opened Bytes
  import opened CStrings
  import opened Wrappers
  import opened BootTags

  // ----- Framing: decoding and encoding are inverse

  /** `m` holds the encoding of `rs` at `p`, followed by the terminator. */
  ghost predicate Holds(m: seq<Word>, p: nat, rs: seq<Record>)
    requires forall r <- rs :: Sized(r)
  {
    var code := EncodeAll(rs);
    p + |code| < |m| && m[p..p + |code|] == code && m[p + |code|] == 0
  }

  lemma {:induction false} DecodeOfEncoded(m: seq<Word>, p: nat, rs: seq<Record>)
    requires (forall r <- rs :: Sized(r)) && Holds(m, p, rs)
    ensures Framed(m, p) && Decode(m, p) == rs && End(m, p) == p + |EncodeAll(rs)|
    decreases |rs|
  {
    if rs != [] {
      var r := rs[0];
      HeadOfEncoded(m, p, rs);
      DecodeOfEncoded(m, p + 2 + |r.payload|, rs[1..]);
      assert rs == [r] + rs[1..];
    }
  }

  lemma HeadOfEncoded(m: seq<Word>, p: nat, rs: seq<Record>)
    requires (forall r <- rs :: Sized(r)) && rs != [] && Holds(m, p, rs)
    ensures var r := rs[0];
            && p + 2 + |r.payload| < |m|
            && m[p] == 2 + |r.payload| && m[p + 1] == r.tag
            && m[p + 2..p + 2 + |r.payload|] == r.payload
            && Holds(m, p + 2 + |r.payload|, rs[1..])
  {
    var r, head, tail := rs[0], Encode(rs[0]), EncodeAll(rs[1..]);
    var code, n := head + tail, |head|;
    assert EncodeAll(rs) == code;
    SliceOfSlice(m, p, code, 0, n);
    SliceOfSlice(m, p, code, n, |code|);
    assert code[0..n] == head && code[n..] == tail;
    assert m[p] == m[p..p + n][0] && m[p + 1] == m[p..p + n][1];
    SliceOfSlice(m, p, head, 2, n);
    assert head[2..n] == r.payload;
  }

  lemma SliceOfSlice(m: seq<Word>, p: nat, code: seq<Word>, i: nat, j: nat)
    requires p + |code| <= |m| && m[p..p + |code|] == code && i <= j <= |code|
    ensures m[p + i..p + j] == code[i..j]
  {
    assert forall k :: 0 <= k < |code| ==> m[p + k] == code[k];
  }

  lemma {:induction false} EncodeOfDecoded(m: seq<Word>, p: nat)
    requires Framed(m, p)
    ensures forall r <- Decode(m, p) :: Sized(r)
    ensures EncodeAll(Decode(m, p)) == m[p..End(m, p)]
    decreases |m| - p
  {
    if m[p] != 0 {
      var q := p + m[p];
      EncodeOfDecoded(m, q);
      var r := Record(m[p + 1], m[p + 2..q]);
      assert Decode(m, p) == [r] + Decode(m, q);
      assert Encode(r) == m[p..q];
      assert m[p..End(m, p)] == m[p..q] + m[q..End(m, q)];
      assert EncodeAll(Decode(m, p)) == Encode(r) + EncodeAll(Decode(m, q));
    }
  }

  // ----- Refinement

  /** In memory, a complete record's command line is the one in its payload. */
  lemma CommandLineInMemory(m: seq<Word>, p: nat, r: Record)
    requires p + 2 + |r.payload| <= |m| && m[p + 2..p + 2 + |r.payload|] == r.payload
    requires Terminated(InBytes(r.payload), 0)
    ensures Terminated(InBytes(m), 4 * (p + 2))
    ensures StringAt(InBytes(m), 4 * (p + 2)) == LineOf(r)
  {
    BytesOfSlice(m, p + 2, p + 2 + |r.payload|);
    StringInSlice(InBytes(m), 4 * (p + 2), InBytes(r.payload));
  }

  lemma StepIsApply(beagle: bool, m: seq<Word>, p: nat, r: Record, e: Env)
    requires |e.cmdLine| == CMDLINE_SIZE && Complete(r)
    requires p + 2 + |r.payload| < |m| && m[p] == 2 + |r.payload| && m[p + 1] == r.tag
    requires m[p + 2..p + 2 + |r.payload|] == r.payload
    ensures Readable(m, p) && Step(beagle, m, p, e) == Apply(beagle, r, e)
  {
    if r.tag == ATAG_CMDLINE {
      LineIsApply(beagle, m, p, r, e);
    } else {
      PayloadInMemory(m, p, r, 0);
      PayloadInMemory(m, p, r, 1);
    }
  }

  lemma LineIsApply(beagle: bool, m: seq<Word>, p: nat, r: Record, e: Env)
    requires |e.cmdLine| == CMDLINE_SIZE && Complete(r) && r.tag == ATAG_CMDLINE
    requires p + 2 + |r.payload| < |m| && m[p] == 2 + |r.payload| && m[p + 1] == r.tag
    requires m[p + 2..p + 2 + |r.payload|] == r.payload
    ensures Readable(m, p) && Step(beagle, m, p, e) == Apply(beagle, r, e)
  {
    var n := 4 * (2 + |r.payload|);
    CommandLineInMemory(m, p, r);
    ModSmall(m[p] * 4, 0x1_0000_0000);
    LineReadable(m, p, n);
    LineStep(beagle, m, p, n, e);
    ApplyLine(beagle, r, e);
  }

  lemma LineReadable(m: seq<Word>, p: nat, n: nat)
    requires p + 2 <= |m| && m[p + 1] == ATAG_CMDLINE && CopyCount(m[p]) == n <= CMDLINE_SIZE
    requires Terminated(InBytes(m), 4 * (p + 2))
    ensures Readable(m, p)
  {
  }

  lemma ApplyLine(beagle: bool, r: Record, e: Env)
    requires |e.cmdLine| == CMDLINE_SIZE && Complete(r) && r.tag == ATAG_CMDLINE
    ensures Apply(beagle, r, e) == e.(cmdLine := Store(e.cmdLine, LineOf(r), 4 * (2 + |r.payload|)))
  {
  }

  lemma PayloadInMemory(m: seq<Word>, p: nat, r: Record, i: nat)
    requires p + 2 + |r.payload| <= |m| && m[p + 2..p + 2 + |r.payload|] == r.payload
    ensures i < |r.payload| ==> m[p + 2 + i] == r.payload[i]
  {
  }

  /** For every framed memory whose records are complete, the walk is the fold. */
  lemma {:induction false} WalkIsFold(beagle: bool, m: seq<Word>, p: nat, e: Env)
    requires |e.cmdLine| == CMDLINE_SIZE && Framed(m, p)
    requires forall r <- Decode(m, p) :: Complete(r)
    ensures Walkable(m, p) && Walk(beagle, m, p, e) == Fold(beagle, Decode(m, p), e)
    decreases |m| - p
  {
    if m[p] != 0 {
      var q := p + m[p];
      var r := Record(m[p + 1], m[p + 2..q]);
      var rs := Decode(m, p);
      assert rs == [r] + Decode(m, q) && rs[0] == r && rs[1..] == Decode(m, q);
      assert r in rs;
      StepIsApply(beagle, m, p, r, e);
      WalkIsFold(beagle, m, q, Step(beagle, m, p, e));
    }
  }

  /** A walk over an encoded list folds the list, whatever follows its terminator. */
  lemma WalkOfEncoded(beagle: bool, rs: seq<Record>, rest: seq<Word>, e: Env)
    requires |e.cmdLine| == CMDLINE_SIZE
    requires forall r <- rs :: Sized(r) && Complete(r)
    ensures var m := EncodeAll(rs) + [0] + rest;
            Walkable(m, 0) && Walk(beagle, m, 0, e) == Fold(beagle, rs, e)
  {
    var m := EncodeAll(rs) + [0] + rest;
    assert m[0..|EncodeAll(rs)|] == EncodeAll(rs) && m[|EncodeAll(rs)|] == 0;
    DecodeOfEncoded(m, 0, rs);
    WalkIsFold(beagle, m, 0, e);
  }

  // ----- Which records a field depends on

  const KINDS := {ATAG_CORE, ATAG_REVISION, ATAG_MEM, ATAG_INITRD2, ATAG_CMDLINE}

  ghost function Only(rs: seq<Record>, tag: Word): (out: seq<Record>)
    ensures forall r <- out :: r in rs && r.tag == tag
  {
    if rs == [] then []
    else (if rs[0].tag == tag then [rs[0]] else []) + Only(rs[1..], tag)
  }

  /** Two environments agree on the globals that tags of this kind set. */
  ghost predicate SameFor(tag: Word, a: Env, b: Env) {
    && (tag == ATAG_CORE ==> a.pageSize == b.pageSize)
    && (tag == ATAG_REVISION ==> a.revision == b.revision)
    && (tag == ATAG_MEM ==> a.memStart == b.memStart && a.memSize == b.memSize)
    && (tag == ATAG_INITRD2 ==> a.ramDiskStart == b.ramDiskStart && a.ramDiskSize == b.ramDiskSize)
    && (tag == ATAG_CMDLINE ==> a.cmdLine == b.cmdLine)
  }

  /** The globals of one kind depend on the records of that kind alone. */
  lemma {:induction false} KindsAreIndependent(beagle: bool, rs: seq<Record>, tag: Word, a: Env, b: Env)
    requires forall r <- rs :: Complete(r)
    requires |a.cmdLine| == |b.cmdLine| == CMDLINE_SIZE && SameFor(tag, a, b)
    ensures SameFor(tag, Fold(beagle, rs, a), Fold(beagle, Only(rs, tag), b))
  {
    if rs != [] {
      var r, kept := rs[0], Only(rs[1..], tag);
      var a' := Apply(beagle, r, a);
      if r.tag == tag {
        assert Only(rs, tag) == [r] + kept && ([r] + kept)[1..] == kept;
        KindsAreIndependent(beagle, rs[1..], tag, a', Apply(beagle, r, b));
      } else {
        assert Only(rs, tag) == kept;
        KindsAreIndependent(beagle, rs[1..], tag, a', b);
      }
    }
  }

  /** Two lists that agree kind by kind leave the same environment: unrecognised tags
      are neutral, and tags of different kinds commute. */
  lemma InterleavingIrrelevant(beagle: bool, rs: seq<Record>, rs': seq<Record>, e: Env)
    requires forall r <- rs :: Complete(r)
    requires forall r <- rs' :: Complete(r)
    requires |e.cmdLine| == CMDLINE_SIZE
    requires forall tag <- KINDS :: Only(rs, tag) == Only(rs', tag)
    ensures Fold(beagle, rs, e) == Fold(beagle, rs', e)
  {
    var f, f' := Fold(beagle, rs, e), Fold(beagle, rs', e);
    forall tag | tag in KINDS ensures SameFor(tag, f, f') {
      KindsAreIndependent(beagle, rs, tag, e, e);
      KindsAreIndependent(beagle, rs', tag, e, e);
    }
    assert SameFor(ATAG_CORE, f, f') && SameFor(ATAG_REVISION, f, f') && SameFor(ATAG_MEM, f, f');
    assert SameFor(ATAG_INITRD2, f, f') && SameFor(ATAG_CMDLINE, f, f');
  }

  lemma {:induction false} FoldConcat(beagle: bool, rs: seq<Record>, rs': seq<Record>, e: Env)
    requires forall r <- rs + rs' :: Complete(r)
    requires |e.cmdLine| == CMDLINE_SIZE
    ensures forall r <- rs :: r in rs + rs'
    ensures forall r <- rs' :: r in rs + rs'
    ensures Fold(beagle, rs + rs', e) == Fold(beagle, rs', Fold(beagle, rs, e))
    decreases rs
  {
    if rs == [] {
      assert rs + rs' == rs';
    } else {
      assert (rs + rs')[1..] == rs[1..] + rs' && (rs + rs')[0] == rs[0];
      FoldConcat(beagle, rs[1..], rs', Apply(beagle, rs[0], e));
    }
  }

  // ----- Closed forms

  /** The last record of a kind. */
  ghost function Latest(rs: seq<Record>, tag: Word): (r: Option<Record>)
    ensures r.Some? ==> r.value in rs && r.value.tag == tag
  {
    if rs == [] then None
    else
      var later := Latest(rs[1..], tag);
      if later.Some? then later else if rs[0].tag == tag then Some(rs[0]) else None
  }

  ghost predicate IsMemory(r: Record) {
    r.tag == ATAG_MEM && |r.payload| >= 2
  }

  ghost function MemTotal(rs: seq<Record>): nat {
    if rs == [] then 0
    else (if IsMemory(rs[0]) then rs[0].payload[0] else 0) + MemTotal(rs[1..])
  }

  /** The first nonzero start among the memory records. */
  ghost function FirstStart(rs: seq<Record>): Word {
    if rs == [] then 0
    else if IsMemory(rs[0]) && rs[0].payload[1] != 0 then rs[0].payload[1]
    else FirstStart(rs[1..])
  }

  lemma {:induction false} MemorySizeAfter(beagle: bool, rs: seq<Record>, e: Env)
    requires (forall r <- rs :: Complete(r)) && |e.cmdLine| == CMDLINE_SIZE
    ensures Fold(beagle, rs, e).memSize == Wrap(e.memSize + MemTotal(rs))
  {
    if rs != [] {
      assert Complete(rs[0]);
      var e' := Apply(beagle, rs[0], e);
      MemorySizeAfter(beagle, rs[1..], e');
      WrapAgain(e.memSize + (if IsMemory(rs[0]) then rs[0].payload[0] else 0), MemTotal(rs[1..]));
    }
  }

  lemma WrapAgain(a: nat, b: nat)
    ensures Wrap(Wrap(a) + b) == Wrap(a + b)
  {
  }

  lemma {:induction false} MemoryStartAfter(beagle: bool, rs: seq<Record>, e: Env)
    requires (forall r <- rs :: Complete(r)) && |e.cmdLine| == CMDLINE_SIZE
    ensures Fold(beagle, rs, e).memStart == if e.memStart != 0 then e.memStart else FirstStart(rs)
  {
    if rs != [] {
      assert Complete(rs[0]);
      MemoryStartAfter(beagle, rs[1..], Apply(beagle, rs[0], e));
    }
  }

  /** Page size, revision and RAM disk come from the last tag of their kind. */
  lemma {:induction false} LatestWins(beagle: bool, rs: seq<Record>, e: Env)
    requires (forall r <- rs :: Complete(r)) && |e.cmdLine| == CMDLINE_SIZE
    ensures var f, core := Fold(beagle, rs, e), Latest(rs, ATAG_CORE);
            f.pageSize == if core.Some? then core.value.payload[1] else e.pageSize
    ensures var f, rev := Fold(beagle, rs, e), Latest(rs, ATAG_REVISION);
            f.revision == if rev.Some? then rev.value.payload[0] else e.revision
    ensures var f, disk := Fold(beagle, rs, e), Latest(rs, ATAG_INITRD2);
            && f.ramDiskStart == (if disk.Some? then RamDiskStart(beagle, disk.value.payload[0]) else e.ramDiskStart)
            && f.ramDiskSize == (if disk.Some? then RamDiskSize(beagle, disk.value.payload[1]) else e.ramDiskSize)
  {
    if rs != [] {
      LatestWins(beagle, rs[1..], Apply(beagle, rs[0], e));
    }
  }

  /** Storing a terminated line makes it the string of the buffer. */
  lemma StoredString(line: seq<Byte>, s: seq<Byte>, n: nat)
    requires n <= |line| && |s| < n && 0 !in s
    ensures Terminated(Store(line, s, n), 0) && StringAt(Store(line, s, n), 0) == s
  {
    var b := Store(line, s, n);
    assert b[..|s|] == s && b[|s|] == 0;
    StringEndsAt(b, 0, |s|);
  }

  /** The command line is, as a string, the one in the last tag, and it is padded with NULs
      to the length of that tag, header included. */
  lemma {:induction false} LatestCommandLine(beagle: bool, rs: seq<Record>, e: Env)
    requires (forall r <- rs :: Complete(r)) && |e.cmdLine| == CMDLINE_SIZE
    ensures var f, cmd := Fold(beagle, rs, e), Latest(rs, ATAG_CMDLINE);
            if cmd.Some? then HoldsLine(f.cmdLine, cmd.value) else f.cmdLine == e.cmdLine
  {
    if rs != [] {
      var r := rs[0];
      LatestCommandLine(beagle, rs[1..], Apply(beagle, r, e));
      if r.tag == ATAG_CMDLINE && Latest(rs[1..], ATAG_CMDLINE).None? {
        AppliedLine(beagle, r, e);
      }
    }
  }

  lemma AppliedLine(beagle: bool, r: Record, e: Env)
    requires Complete(r) && r.tag == ATAG_CMDLINE && |e.cmdLine| == CMDLINE_SIZE
    ensures HoldsLine(Apply(beagle, r, e).cmdLine, r)
  {
    StringIsSlice(InBytes(r.payload), 0);
    StoredString(e.cmdLine, LineOf(r), 4 * (2 + |r.payload|));
  }

  /** The buffer holds the line of `r` as a string, padded with NULs to the length of the
      tag, header included. */
  ghost predicate HoldsLine(line: seq<Byte>, r: Record) {
    && Terminated(line, 0) && StringAt(line, 0) == LineOf(r)
    && Padded(LineOf(r), 4 * (2 + |r.payload|)) <= line
  }

  // ----- Memory size does not depend on the order of the tags

  ghost function Without(rs: seq<Record>, i: nat): seq<Record>
    requires i < |rs|
  {
    rs[..i] + rs[i + 1..]
  }

  lemma {:induction false} MemTotalWithout(rs: seq<Record>, i: nat)
    requires i < |rs|
    ensures MemTotal(rs) == MemTotal([rs[i]]) + MemTotal(Without(rs, i))
  {
    if i == 0 {
      assert Without(rs, 0) == rs[1..];
    } else {
      var tail := rs[1..];
      MemTotalWithout(tail, i - 1);
      assert Without(rs, i) == [rs[0]] + Without(tail, i - 1);
    }
  }

  lemma MultisetWithout(rs: seq<Record>, i: nat)
    requires i < |rs|
    ensures multiset(Without(rs, i)) == multiset(rs) - multiset{rs[i]}
  {
    assert rs == rs[..i] + [rs[i]] + rs[i + 1..];
  }

  lemma {:induction false} MemTotalPermutes(rs: seq<Record>, rs': seq<Record>)
    requires multiset(rs) == multiset(rs')
    ensures MemTotal(rs) == MemTotal(rs')
    decreases |rs|
  {
    if rs == [] {
      assert |multiset(rs')| == 0;
    } else {
      assert rs[0] in multiset(rs');
      var i :| 0 <= i < |rs'| && rs'[i] == rs[0];
      MemTotalWithout(rs', i);
      MemTotalWithout(rs, 0);
      MultisetWithout(rs', i);
      MultisetWithout(rs, 0);
      MemTotalPermutes(Without(rs, 0), Without(rs', i));
    }
  }

  /** Any reordering of a complete list leaves the same memory size. */
  lemma MemorySizePermutes(beagle: bool, rs: seq<Record>, rs': seq<Record>, e: Env)
    requires (forall r <- rs :: Complete(r)) && |e.cmdLine| == CMDLINE_SIZE
    requires multiset(rs) == multiset(rs')
    ensures forall r <- rs' :: Complete(r)
    ensures Fold(beagle, rs, e).memSize == Fold(beagle, rs', e).memSize
  {
    forall r | r in rs' ensures Complete(r) { assert r in multiset(rs); }
    MemTotalPermutes(rs, rs');
    MemorySizeAfter(beagle, rs, e);
    MemorySizeAfter(beagle, rs', e);
  }

  // ----- Incomplete records

  /** The effect of a record at the start of memory, followed by `t`. */
  ghost function InContext(beagle: bool, r: Record, t: seq<Word>, e: Env): Env
    requires Sized(r) && Fits(r) && |t| >= 2 && |e.cmdLine| == CMDLINE_SIZE
  {
    Step(beagle, Encode(r) + t, 0, e)
  }

  /** The effect does not depend on what follows the record in memory. */
  ghost predicate Local(beagle: bool, r: Record)
    requires Sized(r) && Fits(r)
  {
    forall e: Env, t: seq<Word>, t': seq<Word> ::
      |t| >= 2 && |t'| >= 2 && |e.cmdLine| == CMDLINE_SIZE
      ==> InContext(beagle, r, t, e) == InContext(beagle, r, t', e)
  }

  const CLEAR := Env(0, 0, 0, 0, 0, 0, Zeros(CMDLINE_SIZE))
  const ONES: Word := 0x0101_0101

  /** A record's effect is its own, whatever follows it, exactly when it is complete. */
  lemma LocalIffComplete(beagle: bool, r: Record)
    requires Sized(r) && Fits(r)
    ensures Local(beagle, r) <==> Complete(r)
  {
    if Complete(r) {
      forall e: Env, t: seq<Word> | |t| >= 2 && |e.cmdLine| == CMDLINE_SIZE
        ensures InContext(beagle, r, t, e) == Apply(beagle, r, e)
      {
        var m := Encode(r) + t;
        assert m[2..2 + |r.payload|] == r.payload;
        StepIsApply(beagle, m, 0, r, e);
      }
    } else {
      var a, b := InContext(beagle, r, [0, 0], CLEAR), InContext(beagle, r, [ONES, ONES], CLEAR);
      if r.tag == ATAG_CMDLINE {
        OverlongLine(beagle, r);
      } else {
        MissingFields(beagle, r);
      }
      assert a != b;
    }
  }

  lemma MissingFields(beagle: bool, r: Record)
    requires Sized(r) && Fits(r) && !Complete(r) && r.tag != ATAG_CMDLINE
    ensures InContext(beagle, r, [0, 0], CLEAR) != InContext(beagle, r, [ONES, ONES], CLEAR)
  {
    var m, m' := Encode(r) + [0, 0], Encode(r) + [ONES, ONES];
    if |r.payload| == 0 {
      assert m == [2, r.tag, 0, 0] && m' == [2, r.tag, ONES, ONES];
    } else {
      assert m == [3, r.tag, r.payload[0], 0, 0] && m' == [3, r.tag, r.payload[0], ONES, ONES];
    }
    if beagle && r.tag == ATAG_INITRD2 {
      RoundsApart(0, ONES);
    }
  }

  lemma RoundsApart(none: Word, some: Word)
    requires none == 0 && 1 <= some <= 0x1_0000_0000 - MB16
    ensures RamDiskSize(true, none) != RamDiskSize(true, some)
  {
    RoundUpIsLeastMultiple16MB(none);
    RoundUpIsLeastMultiple16MB(some);
    var r, r' := RoundUp16MB(none), RoundUp16MB(some);
    assert 0 % MB16 == 0;
    WrapInjective(r, r');
  }

  lemma WrapInjective(a: Word, b: Word)
    requires a != b
    ensures Wrap(a - MB16) != Wrap(b - MB16)
  {
  }

  /** A line without its NUL runs on into the next tag. */
  lemma OverlongLine(beagle: bool, r: Record)
    requires Sized(r) && Fits(r) && !Complete(r) && r.tag == ATAG_CMDLINE
    ensures InContext(beagle, r, [0, 0], CLEAR) != InContext(beagle, r, [ONES, ONES], CLEAR)
  {
    var n := 4 * |r.payload|;
    FollowingBytes(r, 0);
    FollowingBytes(r, ONES);
    LineInContext(beagle, r, 0);
    LineInContext(beagle, r, ONES);
    StoreAt(CLEAR.cmdLine, Following(r, 0), n + 8, n);
    StoreAt(CLEAR.cmdLine, Following(r, ONES), n + 8, n);
  }

  lemma LineInContext(beagle: bool, r: Record, w: Word)
    requires Sized(r) && Fits(r) && r.tag == ATAG_CMDLINE
    ensures InContext(beagle, r, [w, w], CLEAR).cmdLine
         == Store(CLEAR.cmdLine, Following(r, w), 4 * |r.payload| + 8)
  {
    var m := Encode(r) + [w, w];
    assert m[0] == 2 + |r.payload| && m[1] == ATAG_CMDLINE;
    LineStep(beagle, m, 0, 4 * |r.payload| + 8, CLEAR);
  }

  lemma LineStep(beagle: bool, m: seq<Word>, p: nat, n: nat, e: Env)
    requires p + 1 < |m| && m[p + 1] == ATAG_CMDLINE && CopyCount(m[p]) == n && Readable(m, p)
    requires |e.cmdLine| == CMDLINE_SIZE
    ensures Step(beagle, m, p, e) == e.(cmdLine := Store(e.cmdLine, StringAt(InBytes(m), 4 * (p + 2)), n))
  {
  }

  lemma StoreAt(line: seq<Byte>, s: seq<Byte>, n: nat, i: nat)
    requires i < n <= |line|
    ensures Store(line, s, n)[i] == if i < |s| then s[i] else 0
  {
  }

  ghost function Following(r: Record, w: Word): seq<Byte>
    requires Sized(r)
  {
    StringAt(InBytes(Encode(r) + [w, w]), 8)
  }

  lemma FollowingBytes(r: Record, w: Word)
    requires Sized(r) && !Terminated(InBytes(r.payload), 0) && w in {0, ONES}
    ensures var s, n := Following(r, w), 4 * |r.payload|;
            if w == 0 then |s| == n else |s| > n && s[n] == 1
  {
    var m, c := Encode(r) + [w, w], InBytes(r.payload);
    assert m[2..2 + |r.payload|] == r.payload && m[2 + |r.payload|] == w;
    BytesOfSlice(m, 2, 2 + |r.payload|);
    NextByte(m, 2 + |r.payload|);
    UnterminatedIsWhole(c);
    StringPast(InBytes(m), 8, c);
  }

  /** The copy counts the header too: of a line without NUL it takes eight bytes that
      follow the tag. */
  lemma LineReadsPastTag(beagle: bool, r: Record, next: seq<Word>, e: Env)
    requires Sized(r) && Fits(r) && r.tag == ATAG_CMDLINE && |e.cmdLine| == CMDLINE_SIZE
    requires |next| == 2 && 0 !in InBytes(r.payload) && 0 !in InBytes(next)
    ensures InBytes(r.payload) + InBytes(next) <= InContext(beagle, r, next, e).cmdLine
  {
    var m, n := Encode(r) + next, 4 * |r.payload| + 8;
    assert m[0] == 2 + |r.payload| && m[1] == ATAG_CMDLINE;
    LineStep(beagle, m, 0, n, e);
    RunOnBytes(m, r.payload, next);
    StoredWhole(e.cmdLine, StringAt(InBytes(m), 8));
  }

  lemma RunOnBytes(m: seq<Word>, payload: seq<Word>, next: seq<Word>)
    requires |m| == 2 + |payload| + |next| && m[2..2 + |payload|] == payload && m[2 + |payload|..|m|] == next
    requires 0 !in InBytes(payload) && 0 !in InBytes(next)
    ensures StringAt(InBytes(m), 8) == InBytes(payload) + InBytes(next)
  {
    BytesOfSlice(m, 2, 2 + |payload|);
    BytesOfSlice(m, 2 + |payload|, |m|);
    WholeString(InBytes(m), 8, InBytes(payload), InBytes(next));
  }

  lemma WholeString(b: seq<Byte>, p: nat, x: seq<Byte>, y: seq<Byte>)
    requires |b| == p + |x| + |y| && b[p..p + |x|] == x && b[p + |x|..|b|] == y && 0 !in x && 0 !in y
    ensures StringAt(b, p) == x + y
  {
    assert b[p..|b|] == x + y;
    StringAtLeast(b, p, |x| + |y|);
  }

  lemma StoredWhole(line: seq<Byte>, s: seq<Byte>)
    requires |s| <= |line|
    ensures s <= Store(line, s, |s|)
  {
  }

  lemma UnterminatedIsWhole(c: seq<Byte>)
    requires !Terminated(c, 0)
    ensures 0 !in c
  {
    StringIsSlice(c, 0);
    assert StringAt(c, 0) == c;
  }

  lemma NextByte(m: seq<Word>, i: nat)
    requires i < |m|
    ensures InBytes(m)[4 * i] == m[i] % 0x100
  {
  }

  /** An empty core tag, which the format allows, takes its page size from the tag word
      of the header that follows it. */
  lemma EmptyCoreTakesNextTag(beagle: bool, memSize: Word, memStart: Word, e: Env)
    requires |e.cmdLine| == CMDLINE_SIZE
    ensures var m := [2, ATAG_CORE, 4, ATAG_MEM, memSize, memStart, 0];
            Walkable(m, 0) && Walk(beagle, m, 0, e).pageSize == ATAG_MEM
  {
    var m := [2, ATAG_CORE, 4, ATAG_MEM, memSize, memStart, 0];
    assert Walkable(m, 6);
    assert Walkable(m, 2);
    var e1 := Step(beagle, m, 0, e);
    assert Walk(beagle, m, 2, e1) == Walk(beagle, m, 6, Step(beagle, m, 2, e1));
  }

  /** A list with all five tags, in numbers: core, revision, memory, disk and the command
      line `a=1`. */
  function FiveTags(page: Word, rev: Word, size: Word, start: Word, disk: Word, bytes: Word): seq<Word> {
    [5, 0x5441_0001, 0, page, 0,
     3, 0x5441_0007, rev,
     4, 0x5441_0002, size, start,
     4, 0x5442_0005, disk, bytes,
     3, 0x5441_0009, 0x0031_3D61,
     0]
  }

  lemma FiveTagsWalkable(m: seq<Word>, page: Word, rev: Word, size: Word, start: Word, disk: Word, bytes: Word)
    requires m == FiveTags(page, rev, size, start, disk, bytes)
    ensures StringAt(InBytes(m), 72) == [0x61, 0x3D, 0x31] && Walkable(m, 0)
  {
    var b := InBytes(m);
    assert LittleEndian32(0x0031_3D61) == [0x61, 0x3D, 0x31, 0];
    ByteInWord(m, 72);
    ByteInWord(m, 73);
    ByteInWord(m, 74);
    ByteInWord(m, 75);
    assert b[72..75] == [0x61, 0x3D, 0x31];
    StringEndsAt(b, 72, 3);
    assert Walkable(m, 19);
    assert Walkable(m, 16);
    assert Walkable(m, 12);
    assert Walkable(m, 8);
    assert Walkable(m, 5);
  }

  lemma FiveTagsWalk(page: Word, rev: Word, size: Word, start: Word, disk: Word, bytes: Word)
    ensures var m := FiveTags(page, rev, size, start, disk, bytes);
            && Walkable(m, 0)
            && var e := Walk(false, m, 0, CLEAR);
               && e.pageSize == page && e.revision == rev && e.memSize == size && e.memStart == start
               && e.ramDiskStart == disk && e.ramDiskSize == bytes
               && StringAt(e.cmdLine, 0) == [0x61, 0x3D, 0x31]
  {
    var m := FiveTags(page, rev, size, start, disk, bytes);
    FiveTagsWalkable(m, page, rev, size, start, disk, bytes);
    var e := Env(page, rev, start, size, disk, bytes, CLEAR.cmdLine);
    FirstFourTags(m, page, rev, size, start, disk, bytes);
    LastLine(m, 16, e, [0x61, 0x3D, 0x31]);
    StoredString(e.cmdLine, [0x61, 0x3D, 0x31], 12);
  }

  lemma LastLine(m: seq<Word>, p: nat, e: Env, s: seq<Byte>)
    requires p + 3 < |m| && m[p] == 3 && m[p + 1] == ATAG_CMDLINE && m[p + 3] == 0
    requires Walkable(m, p) && StringAt(InBytes(m), 4 * (p + 2)) == s && |e.cmdLine| == CMDLINE_SIZE
    ensures Walk(false, m, p, e) == e.(cmdLine := Store(e.cmdLine, s, 12))
  {
    var f := WalkStep(m, p, e);
    assert CopyCount(m[p]) == 12;
    LineStep(false, m, p, 12, e);
    AtEnd(m, p + 3, f);
  }

  lemma AtEnd(m: seq<Word>, p: nat, e: Env)
    requires Walkable(m, p) && m[p] == 0 && |e.cmdLine| == CMDLINE_SIZE
    ensures Walk(false, m, p, e) == e
  {
  }

  lemma FirstFourTags(m: seq<Word>, page: Word, rev: Word, size: Word, start: Word, disk: Word, bytes: Word)
    requires m == FiveTags(page, rev, size, start, disk, bytes) && Walkable(m, 0)
    ensures Walkable(m, 16)
    ensures Walk(false, m, 0, CLEAR)
         == Walk(false, m, 16, Env(page, rev, start, size, disk, bytes, CLEAR.cmdLine))
  {
    WalkCore(m, 0, CLEAR);
    WalkRevision(m, 5, CLEAR.(pageSize := page));
    WalkMemory(m, 8, CLEAR.(pageSize := page, revision := rev));
    WalkDisk(m, 12, CLEAR.(pageSize := page, revision := rev, memStart := start, memSize := size));
  }

  lemma WalkCore(m: seq<Word>, p: nat, e: Env)
    requires Walkable(m, p) && m[p] != 0 && p + 3 < |m| && m[p + 1] == 0x5441_0001 && |e.cmdLine| == CMDLINE_SIZE
    ensures Walkable(m, p + m[p]) && Walk(false, m, p, e) == Walk(false, m, p + m[p], e.(pageSize := m[p + 3]))
  {
    var _ := WalkStep(m, p, e);
  }

  lemma WalkRevision(m: seq<Word>, p: nat, e: Env)
    requires Walkable(m, p) && m[p] != 0 && p + 2 < |m| && m[p + 1] == 0x5441_0007 && |e.cmdLine| == CMDLINE_SIZE
    ensures Walkable(m, p + m[p]) && Walk(false, m, p, e) == Walk(false, m, p + m[p], e.(revision := m[p + 2]))
  {
    var _ := WalkStep(m, p, e);
  }

  lemma WalkMemory(m: seq<Word>, p: nat, e: Env)
    requires Walkable(m, p) && m[p] != 0 && p + 3 < |m| && m[p + 1] == 0x5441_0002 && |e.cmdLine| == CMDLINE_SIZE
    requires e.memStart == 0 && e.memSize == 0
    ensures Walkable(m, p + m[p])
    ensures Walk(false, m, p, e) == Walk(false, m, p + m[p], e.(memStart := m[p + 3], memSize := m[p + 2]))
  {
    var _ := WalkStep(m, p, e);
  }

  lemma WalkDisk(m: seq<Word>, p: nat, e: Env)
    requires Walkable(m, p) && m[p] != 0 && p + 3 < |m| && m[p + 1] == 0x5442_0005 && |e.cmdLine| == CMDLINE_SIZE
    ensures Walkable(m, p + m[p])
    ensures Walk(false, m, p, e) == Walk(false, m, p + m[p], e.(ramDiskStart := m[p + 2], ramDiskSize := m[p + 3]))
  {
    var _ := WalkStep(m, p, e);
  }

  /** One step of the walk on a board without the adjustment. */
  lemma WalkStep(m: seq<Word>, p: nat, e: Env) returns (f: Env)
    requires Walkable(m, p) && m[p] != 0 && |e.cmdLine| == CMDLINE_SIZE
    ensures Readable(m, p) && Walkable(m, p + m[p]) && f == Step(false, m, p, e) && |f.cmdLine| == CMDLINE_SIZE
    ensures Walk(false, m, p, e) == Walk(false, m, p + m[p], f)
  {
    f := Step(false, m, p, e);
  }

  // ----- The RAM disk rounding, in all 32 bits

  /** The masked expression as arithmetic. */
  lemma RoundUpExact(size: Word)
    ensures var s := Wrap(size + MB16 - 1);
            RoundUp16MB(size) == s - s % MB16
  {
    Pow2Values();
    MaskAlignsDown(Wrap(size + MB16 - 1), 24, 32);
  }

  /** The rounding is the least multiple of 16MB not below the size, exactly when that
      multiple has 32 bits; past that it wraps to zero. */
  lemma RoundUpIsLeastMultiple16MB(size: Word)
    ensures RoundUp16MB(size) % MB16 == 0
    ensures RoundUp16MB(size) >= size <==> size <= 0x1_0000_0000 - MB16
    ensures size <= 0x1_0000_0000 - MB16 ==>
              forall m: nat :: m % MB16 == 0 && m >= size ==> m >= RoundUp16MB(size)
    ensures size > 0x1_0000_0000 - MB16 ==> RoundUp16MB(size) == 0
  {
    RoundUpExact(size);
    var s := Wrap(size + MB16 - 1);
    AlignedIsMultiple(s, MB16);
    if size <= 0x1_0000_0000 - MB16 {
      var r := RoundUp16MB(size);
      forall m: nat | m % MB16 == 0 && m >= size ensures m >= r {
        if m < r { MultiplesApart(MB16, m, r); }
      }
    }
  }

  /** On the Beagle board start plus size keeps the end of the rounded disk, and the disk
      is reported absent exactly for the sizes from 1 byte to 16MB; an empty one, and one
      that cannot be rounded up in 32 bits, is reported with 0xFF000000 bytes. */
  lemma BeagleRamDisk(start: Word, size: Word)
    ensures Wrap(RamDiskStart(true, start) + RamDiskSize(true, size)) == Wrap(start + RoundUp16MB(size))
    ensures RamDiskSize(true, size) == 0 <==> 1 <= size <= MB16
    ensures RamDiskSize(true, size) == 0xFF00_0000 <==> size == 0 || size > 0x1_0000_0000 - MB16
  {
    WrapShift(start, RoundUp16MB(size));
    RoundUpIsLeastMultiple16MB(size);
    var r := RoundUp16MB(size);
    assert Wrap(r - MB16) == 0 <==> r == MB16;
    assert 0 % MB16 == 0 && MB16 % MB16 == 0;
    if 1 <= size <= MB16 { MultiplesApart(MB16, 0, r); }
  }

  lemma WrapShift(a: Word, b: Word)
    ensures Wrap(Wrap(a + MB16) + Wrap(b - MB16)) == Wrap(a + b)
  {
  }
}
