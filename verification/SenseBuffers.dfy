/** Releasing the sense buffer a port driver allocated for a request block. */
module SenseBuffers {
  import opened Bits
  import opened Bytes
  import opened Wrappers

  const SRB_FLAGS_FREE_SENSE_BUFFER: Word := 0x0000_0400
  const SRB_FLAGS_PORT_DRIVER_ALLOCSENSE: Word := 0x0020_0000
  const SENSE_BUFFER_SIZE := 18

  predicate TestFlag(flags: Word, bit: Word) {
    And(flags, bit) != 0
  }

  function ClearFlag(flags: Word, bit: Word): Word {
    AndAtMost(flags, 0xFFFF_FFFF - bit);
    And(flags, 0xFFFF_FFFF - bit)
  }

  // ----- Flags bit by bit

  lemma {:induction false} BitOfPow2(k: nat, i: nat)
    ensures Bit(Pow2(k), i) == if i == k then 1 else 0
  {
    if i == 0 {
    } else if k == 0 {
      BitOfZero(i - 1);
    } else {
      BitOfPow2(k - 1, i - 1);
    }
  }

  lemma {:induction false} BitOfComplement(x: nat, w: nat, i: nat)
    requires x < Pow2(w) && i < w
    ensures Bit(Complement(x, w), i) == 1 - Bit(x, i)
  {
    var c := Complement(x, w);
    assert c % 2 == 1 - x % 2 && c / 2 == Complement(x / 2, w - 1);
    if i > 0 { BitOfComplement(x / 2, w - 1, i - 1); }
  }

  lemma {:induction false} BitBeyond(x: nat, w: nat, i: nat)
    requires x < Pow2(w) && w <= i
    ensures Bit(x, i) == 0
  {
    if w == 0 { BitOfZero(i); } else { BitBeyond(x / 2, w - 1, i - 1); }
  }

  /** Testing a single flag tests its bit. */
  lemma TestIsBit(flags: Word, k: nat)
    requires k < 32
    ensures Pow2(k) < 0x1_0000_0000 && (TestFlag(flags, Pow2(k)) <==> Bit(flags, k) == 1)
  {
    Pow2Below(k, 32);
    Pow2Values();
    var t := And(flags, Pow2(k));
    AndBit(flags, Pow2(k), k);
    BitOfPow2(k, k);
    if Bit(flags, k) != 1 {
      forall i: nat ensures Bit(t, i) == Bit(0, i) {
        AndBit(flags, Pow2(k), i);
        BitOfPow2(k, i);
        BitOfZero(i);
      }
      BitsDetermine(t, 0);
    } else {
      BitOfZero(k);
    }
  }

  lemma {:induction false} Pow2Below(k: nat, w: nat)
    requires k < w
    ensures Pow2(k) < Pow2(w)
  {
    if k < w - 1 { Pow2Below(k, w - 1); }
  }

  /** Clearing a flag clears its bit and keeps every other. */
  lemma ClearIsBit(flags: Word, k: nat, i: nat)
    requires k < 32
    ensures Pow2(k) < 0x1_0000_0000
    ensures Bit(ClearFlag(flags, Pow2(k)), i) == if i == k then 0 else Bit(flags, i)
  {
    Pow2Below(k, 32);
    Pow2Values();
    AndBit(flags, 0xFFFF_FFFF - Pow2(k), i);
    BitIsBinary(flags, i);
    if i < 32 { BitOfMask(k, i); } else { BitBeyond(flags, 32, i); }
  }

  lemma BitOfMask(k: nat, i: nat)
    requires k < 32 && i < 32
    ensures Pow2(k) < 0x1_0000_0000 && Bit(0xFFFF_FFFF - Pow2(k), i) == if i == k then 0 else 1
  {
    Pow2Below(k, 32);
    Pow2Values();
    BitOfPow2(k, i);
    BitOfComplement(Pow2(k), 32, i);
  }

  lemma FlagPositions()
    ensures Pow2(10) == SRB_FLAGS_FREE_SENSE_BUFFER && Pow2(21) == SRB_FLAGS_PORT_DRIVER_ALLOCSENSE
  {
  }

  // ----- Request blocks

  datatype Srb = Srb(flags: Word, sense: nat, length: nat)

  /** PORT_ALLOCATED_SENSE: the port driver allocated the buffer and it is to be freed;
      `own` is the device's own sense data. */
  predicate PortAllocated(own: nat, srb: Srb) {
    && TestFlag(srb.flags, SRB_FLAGS_PORT_DRIVER_ALLOCSENSE)
    && TestFlag(srb.flags, SRB_FLAGS_FREE_SENSE_BUFFER)
    && srb.sense != own
  }

  /** The block after FREE_PORT_ALLOCATED_SENSE_BUFFER. */
  function Released(own: nat, srb: Srb): Srb {
    Srb(ClearFlag(srb.flags, SRB_FLAGS_FREE_SENSE_BUFFER), own, SENSE_BUFFER_SIZE)
  }

  /** The guard: bits 10 and 21 are set and the buffer is not the device's own. */
  lemma GuardIsBits(own: nat, srb: Srb)
    ensures PortAllocated(own, srb) <==> Bit(srb.flags, 10) == 1 && Bit(srb.flags, 21) == 1 && srb.sense != own
  {
    FlagPositions();
    TestIsBit(srb.flags, 10);
    TestIsBit(srb.flags, 21);
  }

  /** The guard is false after a release, by the flag alone, and every other flag stays. */
  lemma ReleaseDisarms(own: nat, srb: Srb, i: nat)
    ensures !TestFlag(Released(own, srb).flags, SRB_FLAGS_FREE_SENSE_BUFFER)
    ensures !PortAllocated(own, Released(own, srb))
    ensures i != 10 ==> Bit(Released(own, srb).flags, i) == Bit(srb.flags, i)
  {
    FlagPositions();
    ClearIsBit(srb.flags, 10, 10);
    ClearIsBit(srb.flags, 10, i);
    TestIsBit(Released(own, srb).flags, 10);
  }

  lemma ReleasedFlags(flags: Word)
    ensures var after := ClearFlag(flags, SRB_FLAGS_FREE_SENSE_BUFFER);
            Bit(after, 10) == 0 && forall i: nat :: i != 10 ==> Bit(after, i) == Bit(flags, i)
  {
    FlagPositions();
    ClearIsBit(flags, 10, 10);
    forall i: nat | i != 10
      ensures Bit(ClearFlag(flags, SRB_FLAGS_FREE_SENSE_BUFFER), i) == Bit(flags, i)
    {
      ClearIsBit(flags, 10, i);
    }
  }

  /** A block as the class driver updates it, and the pool its buffer came from. */
  class RequestBlock {
    var flags: Word
    var sense: nat
    var length: nat

    function View(): Srb
      reads this
    {
      Srb(flags, sense, length)
    }

    constructor (flags: Word, sense: nat, length: nat)
      ensures View() == Srb(flags, sense, length)
    {
      this.flags, this.sense, this.length := flags, sense, length;
    }

    /** The assertions of the source are the precondition; `pool` is what is allocated. */
    method FreePortAllocatedSenseBuffer(own: nat, pool: set<nat>) returns (left: set<nat>)
      requires PortAllocated(own, View()) && sense in pool
      modifies this
      ensures View() == Released(own, old(View()))
      ensures sense == own && length == 18 && Bit(flags, 10) == 0
      ensures forall i: nat :: i != 10 ==> Bit(flags, i) == Bit(old(flags), i)
      ensures left == pool - {old(sense)} && !PortAllocated(own, View())
    {
      ReleaseDisarms(own, View(), 0);
      ReleasedFlags(flags);
      left := pool - {sense};
      sense := own;
      length := SENSE_BUFFER_SIZE;
      flags := ClearFlag(flags, SRB_FLAGS_FREE_SENSE_BUFFER);
    }
  }

  // ----- Runs over many blocks

  datatype State = State(srbs: seq<Srb>, pool: set<nat>)

  datatype Op =
    | Release(i: nat)                                // guarded by PORT_ALLOCATED_SENSE
    | Complete(j: nat, flags: Word, buffer: nat)    // the port driver attaches a buffer

  ghost predicate Allowed(own: nat, s: State, op: Op) {
    match op
    case Release(i) => i < |s.srbs|
    case Complete(j, flags, buffer) =>
      && j < |s.srbs| && !PortAllocated(own, s.srbs[j])
      && buffer !in s.pool && PortAllocated(own, Srb(flags, buffer, SENSE_BUFFER_SIZE))
  }

  /** The buffer an operation frees. */
  function Frees(own: nat, s: State, op: Op): Option<nat> {
    if op.Release? && op.i < |s.srbs| && PortAllocated(own, s.srbs[op.i]) then Some(s.srbs[op.i].sense) else None
  }

  ghost function Step(own: nat, s: State, op: Op): State
    requires Allowed(own, s, op)
  {
    match op
    case Release(i) =>
      if !PortAllocated(own, s.srbs[i]) then s
      else State(s.srbs[i := Released(own, s.srbs[i])], s.pool - {s.srbs[i].sense})
    case Complete(j, flags, buffer) =>
      State(s.srbs[j := Srb(flags, buffer, SENSE_BUFFER_SIZE)], s.pool + {buffer})
  }

  ghost predicate Armed(own: nat, s: State, i: int) {
    0 <= i < |s.srbs| && PortAllocated(own, s.srbs[i])
  }

  /** Armed blocks own the allocated buffers, one each. */
  ghost predicate Inv(own: nat, s: State) {
    && own !in s.pool
    && (forall i :: Armed(own, s, i) ==> s.srbs[i].sense in s.pool)
    && (forall i, j :: Armed(own, s, i) && Armed(own, s, j) && i != j ==> s.srbs[i].sense != s.srbs[j].sense)
    && (forall b :: b in s.pool ==> exists i :: Armed(own, s, i) && s.srbs[i].sense == b)
  }

  lemma ReleaseKeeps(own: nat, s: State, i: nat)
    requires Inv(own, s) && i < |s.srbs| && PortAllocated(own, s.srbs[i])
    ensures Inv(own, Step(own, s, Release(i)))
    ensures !Armed(own, Step(own, s, Release(i)), i)
  {
    var s' := Step(own, s, Release(i));
    ReleaseDisarms(own, s.srbs[i], 0);
    assert Armed(own, s, i);
    assert forall j :: Armed(own, s', j) ==> j != i && Armed(own, s, j) && s'.srbs[j] == s.srbs[j];
    forall b | b in s'.pool ensures exists j :: Armed(own, s', j) && s'.srbs[j].sense == b {
      var j :| Armed(own, s, j) && s.srbs[j].sense == b;
      assert Armed(own, s', j);
    }
  }

  lemma CompleteKeeps(own: nat, s: State, j: nat, flags: Word, buffer: nat)
    requires Inv(own, s) && Allowed(own, s, Complete(j, flags, buffer))
    ensures Inv(own, Step(own, s, Complete(j, flags, buffer)))
  {
    var s' := Step(own, s, Complete(j, flags, buffer));
    assert forall i :: i != j ==> (Armed(own, s', i) <==> Armed(own, s, i));
    forall b | b in s'.pool ensures exists i :: Armed(own, s', i) && s'.srbs[i].sense == b {
      if b == buffer {
        assert Armed(own, s', j);
      } else {
        var i :| Armed(own, s, i) && s.srbs[i].sense == b;
        assert Armed(own, s', i);
      }
    }
  }

  ghost predicate Run(own: nat, s: State, ops: seq<Op>)
    decreases |ops|
  {
    ops != [] ==> Allowed(own, s, ops[0]) && Run(own, Step(own, s, ops[0]), ops[1..])
  }

  ghost function After(own: nat, s: State, ops: seq<Op>, n: nat): State
    requires Run(own, s, ops) && n <= |ops|
    decreases n
  {
    if n == 0 then s else After(own, Step(own, s, ops[0]), ops[1..], n - 1)
  }

  lemma StepKeeps(own: nat, s: State, op: Op)
    requires Inv(own, s) && Allowed(own, s, op)
    ensures Inv(own, Step(own, s, op))
  {
    match op
    case Release(i) => if PortAllocated(own, s.srbs[i]) { ReleaseKeeps(own, s, i); }
    case Complete(j, flags, buffer) => CompleteKeeps(own, s, j, flags, buffer);
  }

  lemma {:induction false} RunKeeps(own: nat, s: State, ops: seq<Op>, n: nat)
    requires Inv(own, s) && Run(own, s, ops) && n <= |ops|
    ensures Inv(own, After(own, s, ops, n))
    ensures n < |ops| ==> Allowed(own, After(own, s, ops, n), ops[n])
    decreases n
  {
    if n > 0 {
      StepKeeps(own, s, ops[0]);
      RunKeeps(own, Step(own, s, ops[0]), ops[1..], n - 1);
    }
  }

  /** In every run a release frees a buffer that is allocated and is not the device's own,
      and it is no longer allocated afterwards: no buffer is freed twice. */
  lemma ReleaseIsSafe(own: nat, s: State, ops: seq<Op>, n: nat)
    requires Inv(own, s) && Run(own, s, ops) && n < |ops|
    ensures var t := After(own, s, ops, n);
            Allowed(own, t, ops[n]) &&
            var freed := Frees(own, t, ops[n]);
            freed.Some? ==> && freed.value in t.pool && freed.value != own
                            && freed.value !in Step(own, t, ops[n]).pool
                            && !Armed(own, Step(own, t, ops[n]), ops[n].i)
  {
    RunKeeps(own, s, ops, n);
    var t := After(own, s, ops, n);
    if Frees(own, t, ops[n]).Some? {
      assert Armed(own, t, ops[n].i);
      ReleaseKeeps(own, t, ops[n].i);
    }
  }

  ghost function FreesBy(own: nat, s: State, op: Op): nat {
    if Frees(own, s, op).Some? then 1 else 0
  }

  ghost function CompletesBy(op: Op): nat {
    if op.Complete? then 1 else 0
  }

  /** Every block refers to the device's own buffer or to an allocated one. */
  ghost predicate Refers(own: nat, s: State) {
    forall i :: 0 <= i < |s.srbs| ==> s.srbs[i].sense == own || Armed(own, s, i)
  }

  lemma StepRefers(own: nat, s: State, op: Op)
    requires Refers(own, s) && Allowed(own, s, op)
    ensures Refers(own, Step(own, s, op))
  {
    var s' := Step(own, s, op);
    forall i | 0 <= i < |s'.srbs| ensures s'.srbs[i].sense == own || Armed(own, s', i) {
      assert s.srbs[i].sense == own || Armed(own, s, i);
    }
  }

  lemma {:induction false} RunRefers(own: nat, s: State, ops: seq<Op>, n: nat)
    requires Refers(own, s) && Run(own, s, ops) && n <= |ops|
    ensures Refers(own, After(own, s, ops, n))
    decreases n
  {
    if n > 0 {
      RunRefers(own, s, ops, n - 1);
      AfterStep(own, s, ops, n - 1);
      StepRefers(own, After(own, s, ops, n - 1), ops[n - 1]);
    }
  }

  /** So no block ever refers to a freed buffer. */
  lemma NoBlockDangles(own: nat, s: State, ops: seq<Op>, n: nat, i: nat)
    requires Inv(own, s) && Refers(own, s) && Run(own, s, ops) && n <= |ops| && i < |After(own, s, ops, n).srbs|
    ensures var t := After(own, s, ops, n);
            t.srbs[i].sense == own || t.srbs[i].sense in t.pool
  {
    RunKeeps(own, s, ops, n);
    RunRefers(own, s, ops, n);
  }

  /** A released block keeps the device's own buffer, of 18 bytes, until a port driver
      attaches another. */
  lemma {:induction false} ReleasedStaysOwn(own: nat, s: State, ops: seq<Op>, n: nat, m: nat)
    requires Run(own, s, ops) && n < m <= |ops| && Frees(own, After(own, s, ops, n), ops[n]).Some?
    requires forall l :: n < l < m && ops[l].Complete? ==> ops[l].j != ops[n].i
    ensures var t, i := After(own, s, ops, m), ops[n].i;
            i < |t.srbs| && t.srbs[i].sense == own && t.srbs[i].length == 18
    decreases m
  {
    AfterStep(own, s, ops, m - 1);
    if n < m - 1 { ReleasedStaysOwn(own, s, ops, n, m - 1); }
  }

  /** The releases of a run that free a buffer. */
  ghost function Releases(own: nat, s: State, ops: seq<Op>): nat
    requires Run(own, s, ops)
    decreases |ops|
  {
    if ops == [] then 0 else FreesBy(own, s, ops[0]) + Releases(own, Step(own, s, ops[0]), ops[1..])
  }

  /** The buffers port drivers attach in a run. */
  ghost function Completions(ops: seq<Op>): nat {
    if ops == [] then 0 else CompletesBy(ops[0]) + Completions(ops[1..])
  }

  lemma StepBalance(own: nat, s: State, op: Op)
    requires Inv(own, s) && Allowed(own, s, op)
    ensures |Step(own, s, op).pool| + FreesBy(own, s, op) == |s.pool| + CompletesBy(op)
  {
    if op.Release? { assert PortAllocated(own, s.srbs[op.i]) ==> Armed(own, s, op.i); }
  }

  /** In every run the buffers there were and those attached are those freed and those
      still allocated. */
  lemma {:induction false} PoolBalance(own: nat, s: State, ops: seq<Op>)
    requires Inv(own, s) && Run(own, s, ops)
    ensures |After(own, s, ops, |ops|).pool| + Releases(own, s, ops) == |s.pool| + Completions(ops)
    decreases |ops|
  {
    if ops != [] {
      StepKeeps(own, s, ops[0]);
      StepBalance(own, s, ops[0]);
      PoolBalance(own, Step(own, s, ops[0]), ops[1..]);
      FirstOf(own, s, ops);
    }
  }

  lemma FirstOf(own: nat, s: State, ops: seq<Op>)
    requires Run(own, s, ops) && ops != []
    ensures var s', rest := Step(own, s, ops[0]), ops[1..];
            && After(own, s, ops, |ops|) == After(own, s', rest, |rest|)
            && Releases(own, s, ops) == FreesBy(own, s, ops[0]) + Releases(own, s', rest)
            && Completions(ops) == CompletesBy(ops[0]) + Completions(rest)
  {
  }

  lemma {:induction false} AfterStep(own: nat, s: State, ops: seq<Op>, n: nat)
    requires Run(own, s, ops) && n < |ops|
    ensures Allowed(own, After(own, s, ops, n), ops[n])
    ensures After(own, s, ops, n + 1) == Step(own, After(own, s, ops, n), ops[n])
    decreases n
  {
    if n > 0 { AfterStep(own, Step(own, s, ops[0]), ops[1..], n - 1); }
  }

  /** A buffer outside the pool stays outside until a port driver attaches it again. */
  lemma {:induction false} StaysFreed(own: nat, s: State, ops: seq<Op>, n: nat, m: nat, b: nat)
    requires Run(own, s, ops) && n <= m <= |ops| && b !in After(own, s, ops, n).pool
    requires forall l :: n <= l < m && ops[l].Complete? ==> ops[l].buffer != b
    ensures b !in After(own, s, ops, m).pool
    decreases m
  {
    if n < m {
      StaysFreed(own, s, ops, n, m - 1, b);
      AfterStep(own, s, ops, m - 1);
    }
  }

  /** In every run, between two releases of the same buffer a port driver attached it
      again: each attached buffer is freed at most once. */
  lemma {:induction false} FreedOnce(own: nat, s: State, ops: seq<Op>, n: nat, m: nat, b: nat)
    requires Inv(own, s) && Run(own, s, ops) && n < m < |ops|
    requires Frees(own, After(own, s, ops, n), ops[n]) == Some(b)
    requires Frees(own, After(own, s, ops, m), ops[m]) == Some(b)
    ensures exists l :: n < l < m && ops[l].Complete? && ops[l].buffer == b
  {
    ReleaseIsSafe(own, s, ops, n);
    ReleaseIsSafe(own, s, ops, m);
    AfterStep(own, s, ops, n);
    if forall l :: n < l < m && ops[l].Complete? ==> ops[l].buffer != b {
      StaysFreed(own, s, ops, n + 1, m, b);
      assert false;
    }
  }

  /** When no block is armed, every buffer has been freed. */
  lemma NothingLeaks(own: nat, s: State, ops: seq<Op>)
    requires Inv(own, s) && Run(own, s, ops)
    requires forall i :: !Armed(own, After(own, s, ops, |ops|), i)
    ensures After(own, s, ops, |ops|).pool == {}
  {
    RunKeeps(own, s, ops, |ops|);
  }
}
