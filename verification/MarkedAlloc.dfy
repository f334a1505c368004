/** `_malloca` and `_freea`: small blocks come from the stack, large ones from the heap,
    and a marker word stored before the user's bytes tells which. */
module MarkedAlloc {

  import opened Bytes
  import opened Wrappers

  const THRESHOLD := 1024
  const STACK_MARKER := 0xCCCC
  const HEAP_MARKER := 0xDDDD

  /** Marker size and the modulus of `size_t` on one architecture. */
  datatype Arch = X86 | X64 | Arm {
    function MarkerSize(): (n: nat)
      ensures n in {8, 16}
    {
      if this == X64 then 16 else 8
    }

    function SizeModulus(): nat {
      if this == X64 then 0x1_0000_0000_0000_0000 else 0x1_0000_0000
    }

    /** `size + _ALLOCA_S_MARKER_SIZE` as computed. */
    function BlockSize(size: nat): nat {
      (size + MarkerSize()) % SizeModulus()
    }
  }

  // ----- The marker word in memory

  function MarkerAt(mem: seq<Byte>, p: nat): nat
    requires p + 4 <= |mem|
  {
    Compose4(mem[p], mem[p + 1], mem[p + 2], mem[p + 3])
  }

  function Marked(mem: seq<Byte>, p: nat, marker: nat): (m: seq<Byte>)
    requires p + 4 <= |mem| && marker in {STACK_MARKER, HEAP_MARKER}
    ensures |m| == |mem| && MarkerAt(m, p) == marker
    ensures forall i :: 0 <= i < |mem| && !(p <= i < p + 4) ==> m[i] == mem[i]
  {
    mem[p := marker % 0x100][p + 1 := marker / 0x100][p + 2 := 0][p + 3 := 0]
  }

  // ----- The state machine

  /** What the client was given: its size, and whether it came from the heap. */
  datatype Grant = Grant(size: nat, heap: bool)

  /** Memory, the grants by user pointer, and the live blocks of malloc by base. */
  datatype State = State(mem: seq<Byte>, grants: map<nat, Grant>, heap: set<nat>)

  datatype Op =
    | Alloc(size: nat, address: nat)     // _malloca, and the address alloca or malloc gives
    | Write(p: nat, offset: nat, value: Byte)
    | Free(q: nat)                       // _freea
    | Leave(frame: set<nat>)             // a function returns and its stack blocks end

  predicate OnStack(arch: Arch, size: nat) {
    arch.BlockSize(size) <= THRESHOLD
  }

  /** Two grants, each with the `k` marker bytes in front of it, do not overlap. */
  predicate Apart(k: nat, p: nat, n: nat, q: nat, m: nat) {
    p + n + k <= q || q + m + k <= p
  }

  /** What C asks of the client and of the allocators. */
  ghost predicate Allowed(arch: Arch, s: State, op: Op) {
    match op
    case Alloc(size, address) =>
      && size + arch.MarkerSize() < arch.SizeModulus()
      && if address == 0 then !OnStack(arch, size)
         else
           && address + arch.BlockSize(size) <= |s.mem|
           && forall q :: q in s.grants ==>
                Apart(arch.MarkerSize(), address + arch.MarkerSize(), size, q, s.grants[q].size)
    case Write(p, offset, _) => p in s.grants && offset < s.grants[p].size
    case Free(q) => q == 0 || q in s.grants
    case Leave(frame) => forall q :: q in frame ==> q in s.grants && !s.grants[q].heap
  }

  /** The base that `_freea(q)` passes to free, if the marker says the block is malloc's. */
  function FreeCall(k: nat, mem: seq<Byte>, q: nat): Option<nat> {
    if k <= q && q - k + 4 <= |mem| && MarkerAt(mem, q - k) == HEAP_MARKER then Some(q - k) else None
  }

  ghost function Step(arch: Arch, s: State, op: Op): State
    requires Allowed(arch, s, op)
  {
    match op
    case Alloc(size, address) =>
      if address == 0 then s else Allocated(arch.MarkerSize(), s, size, address, !OnStack(arch, size))
    case Write(p, offset, value) =>
      if p + offset < |s.mem| then s.(mem := s.mem[p + offset := value]) else s
    case Free(q) =>
      if q == 0 then s else Freed(arch.MarkerSize(), s, q)
    case Leave(frame) => s.(grants := s.grants - frame)
  }

  ghost function Allocated(k: nat, s: State, size: nat, address: nat, heap: bool): State
    requires address + 4 <= |s.mem|
  {
    State(Marked(s.mem, address, if heap then HEAP_MARKER else STACK_MARKER),
          s.grants[address + k := Grant(size, heap)],
          if heap then s.heap + {address} else s.heap)
  }

  ghost function Freed(k: nat, s: State, q: nat): State {
    var call := FreeCall(k, s.mem, q);
    s.(grants := s.grants - {q}, heap := if call.Some? then s.heap - {call.value} else s.heap)
  }

  // ----- The invariant

  ghost predicate MarkerOf(k: nat, mem: seq<Byte>, q: nat, g: Grant) {
    && k < q && q + g.size <= |mem| && q - k + 4 <= |mem|
    && MarkerAt(mem, q - k) == if g.heap then HEAP_MARKER else STACK_MARKER
  }

  /** Every grant has its bytes in memory and its marker in front of them. */
  ghost predicate MarkersInPlace(k: nat, s: State) {
    forall q :: q in s.grants ==> MarkerOf(k, s.mem, q, s.grants[q])
  }

  ghost predicate GrantsApart(k: nat, s: State) {
    forall p, q :: p in s.grants && q in s.grants && p != q ==>
      Apart(k, p, s.grants[p].size, q, s.grants[q].size)
  }

  /** The live blocks of malloc are those of the heap grants. */
  ghost predicate HeapIsGranted(k: nat, s: State) {
    && (forall b :: b in s.heap ==> IsHeapGrant(s.grants, b + k))
    && (forall q: nat :: IsHeapGrant(s.grants, q) ==> k <= q && q - k in s.heap)
  }

  ghost predicate IsHeapGrant(grants: map<nat, Grant>, q: nat) {
    q in grants && grants[q].heap
  }

  ghost predicate Inv(k: nat, s: State) {
    MarkersInPlace(k, s) && GrantsApart(k, s) && HeapIsGranted(k, s)
  }

  // ----- Every step keeps it

  /** The allocator's block is clear of every grant. */
  ghost predicate Clear(k: nat, s: State, size: nat, address: nat) {
    && 0 < address && address + k + size <= |s.mem|
    && forall q :: q in s.grants ==> Apart(k, address + k, size, q, s.grants[q].size)
  }

  lemma AllocatedKeeps(k: nat, s: State, size: nat, address: nat, heap: bool)
    requires k >= 4 && Inv(k, s) && Clear(k, s, size, address)
    ensures Inv(k, Allocated(k, s, size, address, heap))
  {
    AllocatedMarkers(k, s, size, address, heap);
    AllocatedApart(k, s, size, address, heap);
    NotYetGranted(k, s, size, address);
    AllocatedHeap(k, s, size, address, heap);
  }

  lemma NotYetGranted(k: nat, s: State, size: nat, address: nat)
    requires k >= 4 && Clear(k, s, size, address)
    ensures address + k !in s.grants
    ensures HeapIsGranted(k, s) ==> address !in s.heap
  {
  }

  lemma AllocatedMarkers(k: nat, s: State, size: nat, address: nat, heap: bool)
    requires k >= 4 && MarkersInPlace(k, s) && Clear(k, s, size, address)
    ensures MarkersInPlace(k, Allocated(k, s, size, address, heap))
  {
  }

  lemma AllocatedApart(k: nat, s: State, size: nat, address: nat, heap: bool)
    requires k >= 4 && GrantsApart(k, s) && Clear(k, s, size, address)
    ensures GrantsApart(k, Allocated(k, s, size, address, heap))
  {
  }

  lemma AllocatedHeap(k: nat, s: State, size: nat, address: nat, heap: bool)
    requires address + 4 <= |s.mem| && HeapIsGranted(k, s) && address + k !in s.grants
    ensures HeapIsGranted(k, Allocated(k, s, size, address, heap))
  {
    var s' := Allocated(k, s, size, address, heap);
    forall b | b in s'.heap ensures IsHeapGrant(s'.grants, b + k) {
      if b != address { assert IsHeapGrant(s.grants, b + k); }
    }
    forall q: nat | IsHeapGrant(s'.grants, q) ensures k <= q && q - k in s'.heap {
      if q != address + k { assert IsHeapGrant(s.grants, q); }
    }
  }

  lemma WriteKeeps(k: nat, s: State, p: nat, offset: nat, value: Byte)
    requires k >= 4 && Inv(k, s) && p in s.grants && offset < s.grants[p].size
    requires p + offset < |s.mem|
    ensures Inv(k, s.(mem := s.mem[p + offset := value]))
  {
  }

  /** Dropping grants keeps what is said of the others. */
  lemma FewerGrants(k: nat, s: State, gone: set<nat>, heap: set<nat>)
    requires MarkersInPlace(k, s) && GrantsApart(k, s)
    ensures var s' := State(s.mem, s.grants - gone, heap);
            MarkersInPlace(k, s') && GrantsApart(k, s')
  {
  }

  lemma FreedKeeps(k: nat, s: State, q: nat)
    requires Inv(k, s) && q in s.grants
    ensures Inv(k, Freed(k, s, q))
  {
    var s' := Freed(k, s, q);
    FreeCallIs(k, s, q);
    FewerGrants(k, s, {q}, s'.heap);
    assert s' == State(s.mem, s.grants - {q}, s'.heap);
    FreedHeap(k, s, q);
  }

  /** The marker in front of a grant decides the call. */
  lemma FreeCallIs(k: nat, s: State, q: nat)
    requires MarkersInPlace(k, s) && q in s.grants
    ensures k < q && FreeCall(k, s.mem, q) == if s.grants[q].heap then Some(q - k) else None
    ensures HeapIsGranted(k, s) && s.grants[q].heap ==> q - k in s.heap
  {
    assert MarkerOf(k, s.mem, q, s.grants[q]);
    assert s.grants[q].heap ==> IsHeapGrant(s.grants, q);
  }

  lemma FreedHeap(k: nat, s: State, q: nat)
    requires HeapIsGranted(k, s) && q in s.grants && k <= q
    ensures HeapIsGranted(k, State(s.mem, s.grants - {q}, if s.grants[q].heap then s.heap - {q - k} else s.heap))
  {
    var s' := State(s.mem, s.grants - {q}, if s.grants[q].heap then s.heap - {q - k} else s.heap);
    forall b | b in s'.heap ensures IsHeapGrant(s'.grants, b + k) {
      assert IsHeapGrant(s.grants, b + k);
    }
    forall p: nat | IsHeapGrant(s'.grants, p) ensures k <= p && p - k in s'.heap {
      assert IsHeapGrant(s.grants, p);
    }
  }

  lemma LeaveHeap(k: nat, s: State, frame: set<nat>)
    requires HeapIsGranted(k, s) && forall q :: q in frame ==> q in s.grants && !s.grants[q].heap
    ensures HeapIsGranted(k, State(s.mem, s.grants - frame, s.heap))
  {
    var s' := State(s.mem, s.grants - frame, s.heap);
    forall b | b in s'.heap ensures IsHeapGrant(s'.grants, b + k) {
      assert IsHeapGrant(s.grants, b + k);
    }
    forall p: nat | IsHeapGrant(s'.grants, p) ensures k <= p && p - k in s'.heap {
      assert IsHeapGrant(s.grants, p);
    }
  }

  lemma LeaveKeeps(k: nat, s: State, frame: set<nat>)
    requires Inv(k, s) && forall q :: q in frame ==> q in s.grants && !s.grants[q].heap
    ensures Inv(k, s.(grants := s.grants - frame))
  {
    FewerGrants(k, s, frame, s.heap);
    LeaveHeap(k, s, frame);
    assert s.(grants := s.grants - frame) == State(s.mem, s.grants - frame, s.heap);
  }

  lemma AllocStepKeeps(arch: Arch, s: State, size: nat, address: nat)
    requires Inv(arch.MarkerSize(), s) && Allowed(arch, s, Alloc(size, address))
    ensures Inv(arch.MarkerSize(), Step(arch, s, Alloc(size, address)))
  {
    if address != 0 {
      AllocIsClear(arch, s, size, address);
      AllocatedKeeps(arch.MarkerSize(), s, size, address, !OnStack(arch, size));
    }
  }

  lemma WriteStepKeeps(arch: Arch, s: State, p: nat, offset: nat, value: Byte)
    requires Inv(arch.MarkerSize(), s) && Allowed(arch, s, Write(p, offset, value))
    ensures Inv(arch.MarkerSize(), Step(arch, s, Write(p, offset, value)))
  {
    assert MarkerOf(arch.MarkerSize(), s.mem, p, s.grants[p]);
    WriteKeeps(arch.MarkerSize(), s, p, offset, value);
    WriteStep(arch, s, p, offset, value);
  }

  lemma WriteStep(arch: Arch, s: State, p: nat, offset: nat, value: Byte)
    requires Allowed(arch, s, Write(p, offset, value)) && p + offset < |s.mem|
    ensures Step(arch, s, Write(p, offset, value)) == s.(mem := s.mem[p + offset := value])
  {
  }

  lemma StepKeeps(arch: Arch, s: State, op: Op)
    requires Inv(arch.MarkerSize(), s) && Allowed(arch, s, op)
    ensures Inv(arch.MarkerSize(), Step(arch, s, op))
  {
    match op
    case Alloc(size, address) => AllocStepKeeps(arch, s, size, address);
    case Write(p, offset, value) => WriteStepKeeps(arch, s, p, offset, value);
    case Free(q) => if q != 0 { FreedKeeps(arch.MarkerSize(), s, q); }
    case Leave(frame) => LeaveKeeps(arch.MarkerSize(), s, frame);
  }

  lemma AllocIsClear(arch: Arch, s: State, size: nat, address: nat)
    requires Allowed(arch, s, Alloc(size, address)) && address != 0
    ensures Clear(arch.MarkerSize(), s, size, address)
  {
  }

  lemma NoWrap(arch: Arch, size: nat)
    requires size + arch.MarkerSize() < arch.SizeModulus()
    ensures arch.BlockSize(size) == size + arch.MarkerSize()
  {
  }

  /** The blocks asked for: 16 bytes more than the request on X64, 8 elsewhere, in the
      width of `size_t`; those of at most 1024 bytes come from the stack. */
  lemma BlockSizes(size: nat)
    ensures X64.BlockSize(size) == (size + 16) % 0x1_0000_0000_0000_0000
    ensures X86.BlockSize(size) == Arm.BlockSize(size) == (size + 8) % 0x1_0000_0000
    ensures size < 0xFFFF_FFF0 ==> (OnStack(X64, size) <==> size <= 1008)
    ensures size < 0xFFFF_FFF0 ==> (OnStack(X86, size) <==> size <= 1016)
    ensures size < 0xFFFF_FFF0 ==> (OnStack(Arm, size) <==> size <= 1016)
  {
  }

  /** What an allocation leaves, in numbers: the new pointer, its grant, and the four bytes
      of its marker. */
  lemma AllocationLayout(arch: Arch, s: State, size: nat, address: nat)
    requires Allowed(arch, s, Alloc(size, address)) && address != 0
    ensures var t, k := Step(arch, s, Alloc(size, address)), if arch == X64 then 16 else 8;
            && t.grants == s.grants[address + k := Grant(size, size + k > 1024)]
            && t.heap == (if size + k > 1024 then s.heap + {address} else s.heap)
            && address + k + size <= |t.mem| == |s.mem|
            && t.mem[address..address + 4] == if size + k > 1024 then [0xDD, 0xDD, 0, 0] else [0xCC, 0xCC, 0, 0]
  {
    NoWrap(arch, size);
    AllocatedMarkerBytes(s.mem, address);
  }

  lemma AllocatedMarkerBytes(mem: seq<Byte>, p: nat)
    requires p + 4 <= |mem|
    ensures Marked(mem, p, HEAP_MARKER)[p..p + 4] == [0xDD, 0xDD, 0, 0]
    ensures Marked(mem, p, STACK_MARKER)[p..p + 4] == [0xCC, 0xCC, 0, 0]
  {
  }

  /** On X64 an aligned block gives an aligned pointer. */
  lemma AlignedOnX64(s: State, size: nat, address: nat, q: nat)
    requires Allowed(X64, s, Alloc(size, address)) && address % 16 == 0
    requires q in Step(X64, s, Alloc(size, address)).grants && q !in s.grants
    ensures q % 16 == 0
  {
    AllocationLayout(X64, s, size, address);
  }

  /** For example four bytes for a request of 2^32 - 4. */
  lemma WrappedBlockIsTiny()
    ensures X86.BlockSize(0xFFFF_FFFC) == 4 && OnStack(X86, 0xFFFF_FFFC)
  {
  }

  /** The user's bytes lie inside the block exactly when the size does not wrap. */
  lemma UserBytesInsideIff(arch: Arch, size: nat)
    requires size < arch.SizeModulus()
    ensures arch.MarkerSize() + size <= arch.BlockSize(size)
       <==> size + arch.MarkerSize() < arch.SizeModulus()
  {
  }

  // ----- Runs

  ghost predicate Run(arch: Arch, s: State, ops: seq<Op>)
    decreases |ops|
  {
    ops != [] ==> Allowed(arch, s, ops[0]) && Run(arch, Step(arch, s, ops[0]), ops[1..])
  }

  /** The state after the first `i` operations. */
  ghost function After(arch: Arch, s: State, ops: seq<Op>, i: nat): State
    requires Run(arch, s, ops) && i <= |ops|
    decreases i
  {
    if i == 0 then s else After(arch, Step(arch, s, ops[0]), ops[1..], i - 1)
  }

  /** Memory before the first allocation. */
  ghost predicate Initial(s: State) {
    s.grants == map[] && s.heap == {}
  }

  lemma {:induction false} RunKeeps(arch: Arch, s: State, ops: seq<Op>, i: nat)
    requires Inv(arch.MarkerSize(), s) && Run(arch, s, ops) && i <= |ops|
    ensures Inv(arch.MarkerSize(), After(arch, s, ops, i))
    ensures i < |ops| ==> Allowed(arch, After(arch, s, ops, i), ops[i])
    decreases i
  {
    if i > 0 {
      StepKeeps(arch, s, ops[0]);
      RunKeeps(arch, Step(arch, s, ops[0]), ops[1..], i - 1);
    }
  }

  /** In every run from fresh memory, `_freea` finds one of the two markers, and calls free
      exactly for the pointers that came from malloc, with the live base malloc gave. */
  lemma FreeIsSafe(arch: Arch, s: State, ops: seq<Op>, i: nat)
    requires Initial(s) && Run(arch, s, ops) && i < |ops| && ops[i].Free? && ops[i].q != 0
    ensures var k, t, q := arch.MarkerSize(), After(arch, s, ops, i), ops[i].q;
            && q in t.grants && k < q && q - k + 4 <= |t.mem|
            && MarkerAt(t.mem, q - k) in {HEAP_MARKER, STACK_MARKER}
            && FreeCall(k, t.mem, q) == (if t.grants[q].heap then Some(q - k) else None)
            && (FreeCall(k, t.mem, q).Some? ==> q - k in t.heap)
  {
    RunKeeps(arch, s, ops, i);
    FreeFindsMarker(arch.MarkerSize(), After(arch, s, ops, i), ops[i].q);
  }

  lemma FreeFindsMarker(k: nat, t: State, q: nat)
    requires Inv(k, t) && q in t.grants
    ensures && k < q && q - k + 4 <= |t.mem|
            && MarkerAt(t.mem, q - k) in {HEAP_MARKER, STACK_MARKER}
            && FreeCall(k, t.mem, q) == (if t.grants[q].heap then Some(q - k) else None)
            && (FreeCall(k, t.mem, q).Some? ==> q - k in t.heap)
  {
    assert MarkerOf(k, t.mem, q, t.grants[q]);
    FreeCallIs(k, t, q);
  }

  /** When no pointer is left, no heap block is left. */
  lemma NothingLeaks(arch: Arch, s: State, ops: seq<Op>)
    requires Initial(s) && Run(arch, s, ops)
    requires After(arch, s, ops, |ops|).grants == map[]
    ensures After(arch, s, ops, |ops|).heap == {}
  {
    RunKeeps(arch, s, ops, |ops|);
  }

  ghost function MallocsBy(arch: Arch, op: Op): nat {
    if op.Alloc? && op.address != 0 && !OnStack(arch, op.size) then 1 else 0
  }

  ghost function FreesBy(arch: Arch, s: State, op: Op): nat {
    if op.Free? && op.q != 0 && FreeCall(arch.MarkerSize(), s.mem, op.q).Some? then 1 else 0
  }

  /** Blocks malloc handed out in a run. */
  ghost function Mallocs(arch: Arch, ops: seq<Op>): nat {
    if ops == [] then 0 else MallocsBy(arch, ops[0]) + Mallocs(arch, ops[1..])
  }

  /** Calls of free in a run. */
  ghost function Frees(arch: Arch, s: State, ops: seq<Op>): nat
    requires Run(arch, s, ops)
    decreases |ops|
  {
    if ops == [] then 0 else FreesBy(arch, s, ops[0]) + Frees(arch, Step(arch, s, ops[0]), ops[1..])
  }

  lemma AllocatedBalance(k: nat, s: State, size: nat, address: nat, heap: bool)
    requires k >= 4 && HeapIsGranted(k, s) && Clear(k, s, size, address)
    ensures |Allocated(k, s, size, address, heap).heap| == |s.heap| + if heap then 1 else 0
  {
  }

  lemma FreedBalance(k: nat, s: State, q: nat)
    requires MarkersInPlace(k, s) && HeapIsGranted(k, s) && q in s.grants
    ensures |Freed(k, s, q).heap| + (if FreeCall(k, s.mem, q).Some? then 1 else 0) == |s.heap|
  {
    FreeCallIs(k, s, q);
  }

  lemma StepBalance(arch: Arch, s: State, op: Op)
    requires Inv(arch.MarkerSize(), s) && Allowed(arch, s, op)
    ensures |Step(arch, s, op).heap| + FreesBy(arch, s, op) == |s.heap| + MallocsBy(arch, op)
  {
    var k := arch.MarkerSize();
    match op
    case Alloc(size, address) =>
      if address != 0 {
        AllocIsClear(arch, s, size, address);
        AllocatedBalance(k, s, size, address, !OnStack(arch, size));
      }
    case Free(q) => if q != 0 { FreedBalance(k, s, q); }
    case _ =>
  }

  /** In every run the blocks malloc handed out are those freed and those still live. */
  lemma {:induction false} HeapBalance(arch: Arch, s: State, ops: seq<Op>)
    requires Inv(arch.MarkerSize(), s) && Run(arch, s, ops)
    ensures |After(arch, s, ops, |ops|).heap| + Frees(arch, s, ops) == |s.heap| + Mallocs(arch, ops)
    decreases |ops|
  {
    if ops != [] {
      StepKeeps(arch, s, ops[0]);
      StepBalance(arch, s, ops[0]);
      HeapBalance(arch, Step(arch, s, ops[0]), ops[1..]);
      FirstOf(arch, s, ops);
    }
  }

  lemma FirstOf(arch: Arch, s: State, ops: seq<Op>)
    requires Run(arch, s, ops) && ops != []
    ensures var s', rest := Step(arch, s, ops[0]), ops[1..];
            && After(arch, s, ops, |ops|) == After(arch, s', rest, |rest|)
            && Frees(arch, s, ops) == FreesBy(arch, s, ops[0]) + Frees(arch, s', rest)
            && Mallocs(arch, ops) == MallocsBy(arch, ops[0]) + Mallocs(arch, rest)
  {
  }

  /** No step changes a byte of a grant except a write to that byte. */
  lemma BytesAreKept(arch: Arch, s: State, op: Op, q: nat, i: nat)
    requires MarkersInPlace(arch.MarkerSize(), s) && GrantsApart(arch.MarkerSize(), s)
    requires Allowed(arch, s, op)
    requires q in s.grants && i < s.grants[q].size && !(op.Write? && op.p == q && op.offset == i)
    ensures q + i < |s.mem| == |Step(arch, s, op).mem|
    ensures Step(arch, s, op).mem[q + i] == s.mem[q + i]
  {
  }

  lemma {:induction false} AfterStep(arch: Arch, s: State, ops: seq<Op>, n: nat)
    requires Run(arch, s, ops) && n < |ops|
    ensures Allowed(arch, After(arch, s, ops, n), ops[n])
    ensures After(arch, s, ops, n + 1) == Step(arch, After(arch, s, ops, n), ops[n])
    decreases n
  {
    if n > 0 { AfterStep(arch, Step(arch, s, ops[0]), ops[1..], n - 1); }
  }

  ghost predicate WritesTo(op: Op, q: nat, i: nat) {
    op.Write? && op.p == q && op.offset == i
  }

  /** The last value written to byte `i` of `q` from operation `a` to before `n`. */
  ghost function LastWritten(ops: seq<Op>, a: nat, n: nat, q: nat, i: nat, first: Byte): Byte
    requires a <= n <= |ops|
    decreases n
  {
    if n == a then first
    else if WritesTo(ops[n - 1], q, i) then ops[n - 1].value
    else LastWritten(ops, a, n - 1, q, i, first)
  }

  /** A pointer granted before and after a step has the same grant. */
  lemma GrantStays(arch: Arch, s: State, op: Op, q: nat)
    requires Allowed(arch, s, op) && q in s.grants && q in Step(arch, s, op).grants
    ensures Step(arch, s, op).grants[q] == s.grants[q]
  {
    if op.Alloc? && op.address != 0 {
      AllocIsClear(arch, s, op.size, op.address);
      NotYetGranted(arch.MarkerSize(), s, op.size, op.address);
    }
  }

  /** A byte of a grant after a step: the value written to it, or what it was. */
  lemma ByteAfterStep(arch: Arch, s: State, op: Op, q: nat, i: nat)
    requires MarkersInPlace(arch.MarkerSize(), s) && GrantsApart(arch.MarkerSize(), s)
    requires Allowed(arch, s, op) && q in s.grants && i < s.grants[q].size
    ensures q + i < |s.mem| == |Step(arch, s, op).mem|
    ensures Step(arch, s, op).mem[q + i] == if WritesTo(op, q, i) then op.value else s.mem[q + i]
  {
    if WritesTo(op, q, i) {
      assert MarkerOf(arch.MarkerSize(), s.mem, q, s.grants[q]);
      WriteStep(arch, s, q, i, op.value);
    } else {
      BytesAreKept(arch, s, op, q, i);
    }
  }

  /** The pointer is granted at every moment from `a` to `n`. */
  ghost predicate LiveThrough(arch: Arch, s: State, ops: seq<Op>, a: nat, n: nat, q: nat)
    requires Run(arch, s, ops) && a <= n <= |ops|
  {
    forall j :: a <= j <= n ==> q in After(arch, s, ops, j).grants
  }

  /** In every run, while a pointer is granted each of its bytes holds the last value
      written to it through that pointer, or what it held when it was granted. */
  lemma {:induction false} BytesHoldLastWrite(arch: Arch, s: State, ops: seq<Op>, a: nat, n: nat, q: nat, i: nat)
    requires Inv(arch.MarkerSize(), s) && Run(arch, s, ops) && a <= n <= |ops|
    requires LiveThrough(arch, s, ops, a, n, q) && i < After(arch, s, ops, a).grants[q].size
    ensures var t, u := After(arch, s, ops, a), After(arch, s, ops, n);
            && u.grants[q] == t.grants[q] && q + i < |t.mem| == |u.mem|
            && u.mem[q + i] == LastWritten(ops, a, n, q, i, t.mem[q + i])
    decreases n
  {
    var k, u := arch.MarkerSize(), After(arch, s, ops, n);
    RunKeeps(arch, s, ops, n);
    assert q in u.grants && MarkerOf(k, u.mem, q, u.grants[q]);
    if a < n {
      var t := After(arch, s, ops, n - 1);
      BytesHoldLastWrite(arch, s, ops, a, n - 1, q, i);
      RunKeeps(arch, s, ops, n - 1);
      AfterStep(arch, s, ops, n - 1);
      GrantStays(arch, t, ops[n - 1], q);
      ByteAfterStep(arch, t, ops[n - 1], q, i);
    }
  }

  // ----- The routines on the memory they change

  class Runtime {
    const arch: Arch
    const mem: array<Byte>
    var heap: set<nat>
    ghost var grants: map<nat, Grant>

    ghost function View(): State
      reads this, mem
    {
      State(mem[..], grants, heap)
    }

    ghost predicate Valid()
      reads this, mem
    {
      Inv(arch.MarkerSize(), View())
    }

    constructor (arch: Arch, mem: array<Byte>)
      ensures Valid() && Initial(View()) && this.arch == arch && this.mem == mem
    {
      this.arch, this.mem := arch, mem;
      heap, grants := {}, map[];
    }

    /** Store the marker through a non-null pointer and step over it. */
    method MarkAllocaS(ptr: nat, marker: nat) returns (user: nat)
      requires ptr == 0 || ptr + 4 <= mem.Length
      requires marker in {STACK_MARKER, HEAP_MARKER}
      modifies mem
      ensures ptr == 0 ==> user == 0 && mem[..] == old(mem[..])
      ensures ptr != 0 ==> user == ptr + if arch == X64 then 16 else 8
      ensures ptr != 0 ==> user == ptr + arch.MarkerSize() && mem[..] == Marked(old(mem[..]), ptr, marker)
    {
      user := ptr;
      if ptr != 0 {
        mem[ptr], mem[ptr + 1], mem[ptr + 2], mem[ptr + 3] := marker % 0x100, marker / 0x100, 0, 0;
        user := ptr + arch.MarkerSize();
      }
    }

    /** The macro: `address` is what alloca or malloc returns for the block. */
    method Choose(size: nat, address: nat) returns (user: nat, asked: nat)
      requires size + arch.MarkerSize() < arch.SizeModulus()
      requires address == 0 ==> !OnStack(arch, size)
      requires address != 0 ==> address + arch.BlockSize(size) <= mem.Length
      modifies this`heap, this`grants, mem
      ensures asked == size + if arch == X64 then 16 else 8
      ensures user == if address == 0 then 0 else address + if arch == X64 then 16 else 8
      ensures grants == if address == 0 then old(grants) else old(grants)[user := Grant(size, asked > 1024)]
      ensures heap == if address != 0 && asked > 1024 then old(heap) + {address} else old(heap)
      ensures View() == if address == 0 then old(View())
                        else Allocated(arch.MarkerSize(), old(View()), size, address, !OnStack(arch, size))
    {
      NoWrap(arch, size);
      asked := (size + arch.MarkerSize()) % arch.SizeModulus();
      if asked <= THRESHOLD {
        user := MarkAllocaS(address, STACK_MARKER);
      } else {
        if address != 0 { heap := heap + {address}; }
        user := MarkAllocaS(address, HEAP_MARKER);
      }
      if address != 0 { grants := grants[user := Grant(size, !OnStack(arch, size))]; }
    }

    /** `asked` is the size of the block requested from alloca or malloc. */
    method Malloca(size: nat, address: nat) returns (user: nat, asked: nat)
      requires Valid() && Allowed(arch, View(), Alloc(size, address))
      modifies this`heap, this`grants, mem
      ensures Valid() && View() == Step(arch, old(View()), Alloc(size, address))
      ensures asked == size + if arch == X64 then 16 else 8
      ensures user == if address == 0 then 0 else address + if arch == X64 then 16 else 8
    {
      StepKeeps(arch, View(), Alloc(size, address));
      user, asked := Choose(size, address);
    }

    /** Read the marker back; hand malloc's blocks, and only those, to free. */
    method FreeByMarker(q: nat) returns (freed: Option<nat>)
      requires q != 0 ==> arch.MarkerSize() <= q && q - arch.MarkerSize() + 4 <= mem.Length
      modifies this`heap, this`grants
      ensures freed == if q == 0 then None else FreeCall(arch.MarkerSize(), mem[..], q)
      ensures View() == if q == 0 then old(View()) else Freed(arch.MarkerSize(), old(View()), q)
    {
      freed := None;
      if q != 0 {
        var base := q - arch.MarkerSize();
        var marker := Compose4(mem[base], mem[base + 1], mem[base + 2], mem[base + 3]);
        if marker == HEAP_MARKER {
          freed := Some(base);
          heap := heap - {base};
        }
        grants := grants - {q};
      }
    }

    method Freea(q: nat) returns (freed: Option<nat>)
      requires Valid() && Allowed(arch, View(), Free(q))
      modifies this`heap, this`grants
      ensures Valid() && View() == Step(arch, old(View()), Free(q))
      ensures freed == if q != 0 && old(grants)[q].heap then Some(q - arch.MarkerSize()) else None
      ensures freed.Some? ==> freed.value in old(heap)
    {
      StepKeeps(arch, View(), Free(q));
      if q != 0 {
        assert MarkerOf(arch.MarkerSize(), mem[..], q, grants[q]);
        FreeCallIs(arch.MarkerSize(), View(), q);
      }
      freed := FreeByMarker(q);
    }
  }
}
