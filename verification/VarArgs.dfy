/** The va_list cursors of the IX86 and AMD64 targets: arguments laid out by the caller
    in slots, read back one after another. */
module VarArgs {
  import opened Bits
  import opened Bytes

  // ----- The size macros

  /** `_INTSIZEOF`, for a type of `n` bytes, in 32 bits. */
  function IntSizeOf(n: nat): nat {
    And((n + 3) % 0x1_0000_0000, 0xFFFF_FFFC)
  }

  /** `_PTRSIZEOF`, in 64 bits. */
  function PtrSizeOf(n: nat): nat {
    And((n + 7) % 0x1_0000_0000_0000_0000, 0xFFFF_FFFF_FFFF_FFF8)
  }

  /** `_ISSTRUCT`: larger than a pointer, or not a power of two. */
  predicate IsStruct(n: nat)
    requires n > 0
  {
    n > 8 || And(n, n - 1) != 0
  }

  lemma MaskedRoundUp(n: nat, k: nat, w: nat)
    requires k <= w && n + Pow2(k) - 1 < Pow2(w)
    ensures Pow2(k) <= Pow2(w)
    ensures var s := n + Pow2(k) - 1;
            And(s % Pow2(w), Pow2(w) - Pow2(k)) == s - s % Pow2(k)
  {
    Pow2Monotone(k, w);
    ModSmall(n + Pow2(k) - 1, Pow2(w));
    MaskAlignsDown(n + Pow2(k) - 1, k, w);
  }

  /** The stack room of an IX86 argument: whole 4-byte units. */
  function Units(n: nat, unit: nat): nat
    requires unit > 0
  {
    unit * ((n + unit - 1) / unit)
  }

  lemma IntSizeIsWholeInts(n: nat)
    requires n + 3 < 0x1_0000_0000
    ensures IntSizeOf(n) == Units(n, 4) && n <= IntSizeOf(n) < n + 4 && IntSizeOf(n) % 4 == 0
  {
    Pow2Values();
    MaskedRoundUp(n, 2, 32);
    WholeUnits(n + 3, 4);
    AlignedIsMultiple(n + 3, 4);
  }

  lemma PtrSizeIsWholePointers(n: nat)
    requires n + 7 < 0x1_0000_0000_0000_0000
    ensures PtrSizeOf(n) == Units(n, 8) && n <= PtrSizeOf(n) < n + 8 && PtrSizeOf(n) % 8 == 0
  {
    Pow2Values();
    MaskedRoundUp(n, 3, 64);
    WholeUnits(n + 7, 8);
    AlignedIsMultiple(n + 7, 8);
  }

  lemma WholeUnits(s: nat, unit: nat)
    requires unit > 0
    ensures unit * (s / unit) == s - s % unit && s % unit < unit
  {
  }

  /** `_ISSTRUCT` is false exactly on the sizes a register can carry. */
  lemma IsStructExact(n: nat)
    requires n > 0
    ensures !IsStruct(n) <==> n in {1, 2, 4, 8}
  {
    SingleBit(n);
    if n <= 8 {
      assert LowestSet(1) == 0 && LowestSet(2) == 1 && LowestSet(3) == 0 && LowestSet(4) == 2;
      assert LowestSet(5) == 0 && LowestSet(6) == 1 && LowestSet(7) == 0 && LowestSet(8) == 3;
      assert Pow2(0) == 1 && Pow2(1) == 2 && Pow2(2) == 4 && Pow2(3) == 8;
    }
  }

  // ----- Little-endian pointers

  function Digits(x: nat, k: nat): (s: seq<Byte>)
    ensures |s| == k
  {
    if k == 0 then [] else [x % 256] + Digits(x / 256, k - 1)
  }

  function Number(s: seq<Byte>): nat {
    if s == [] then 0 else s[0] + 256 * Number(s[1..])
  }

  /** 256 to the power `k`. */
  function BytePow(k: nat): nat {
    if k == 0 then 1 else 256 * BytePow(k - 1)
  }

  lemma {:induction false} NumberOfDigits(x: nat, k: nat)
    requires x < BytePow(k)
    ensures Number(Digits(x, k)) == x
  {
    if k > 0 {
      NumberOfDigits(x / 256, k - 1);
      var s := Digits(x, k);
      assert s[1..] == Digits(x / 256, k - 1);
    }
  }

  function PointerAt(mem: seq<Byte>, v: nat): nat
    requires v + 8 <= |mem|
  {
    Number(mem[v..v + 8])
  }

  /** Lowest byte first. */
  lemma PointerWeights(mem: seq<Byte>, v: nat)
    requires v + 8 <= |mem|
    ensures PointerAt(mem, v)
         == Weigh(mem[v], mem[v + 1], mem[v + 2], mem[v + 3])
          + 0x1_0000_0000 * Weigh(mem[v + 4], mem[v + 5], mem[v + 6], mem[v + 7])
  {
    NumberFrom(mem, v, v + 8);
    NumberFrom(mem, v + 1, v + 8);
    NumberFrom(mem, v + 2, v + 8);
    NumberFrom(mem, v + 3, v + 8);
    NumberFrom(mem, v + 4, v + 8);
    NumberFrom(mem, v + 5, v + 8);
    NumberFrom(mem, v + 6, v + 8);
    NumberFrom(mem, v + 7, v + 8);
    assert Number(mem[v + 8..v + 8]) == 0;
  }

  lemma NumberFrom(mem: seq<Byte>, p: nat, q: nat)
    requires p < q <= |mem|
    ensures Number(mem[p..q]) == mem[p] + 256 * Number(mem[p + 1..q])
  {
    assert mem[p..q][1..] == mem[p + 1..q];
  }

  // ----- Reading one argument

  /** The `n` bytes at `p`. */
  ghost predicate Holds(mem: seq<Byte>, p: nat, a: seq<Byte>) {
    p + |a| <= |mem| && mem[p..p + |a|] == a
  }

  /** Where `_crt_va_arg` reads an AMD64 argument of `n` bytes. */
  function Source64(mem: seq<Byte>, v: nat, n: nat): nat
    requires n > 0 && v + 8 <= |mem|
  {
    if IsStruct(n) then PointerAt(mem, v) else v
  }

  /** The cursor: the macros assign to it and read memory through it. */
  class VaList {
    var v: nat

    constructor (v: nat)
      ensures this.v == v
    {
      this.v := v;
    }

    method Start32(address: nat, n: nat)
      modifies this
      ensures v == address + IntSizeOf(n)
    {
      v := address + IntSizeOf(n);
    }

    method Arg32(mem: seq<Byte>, n: nat) returns (a: seq<Byte>)
      requires v + n <= |mem|
      modifies this
      ensures v == old(v) + IntSizeOf(n) && |a| == n && Holds(mem, old(v), a)
    {
      v := v + IntSizeOf(n);
      var p := v - IntSizeOf(n);
      a := mem[p..p + n];
    }

    method Start64(address: nat, n: nat)
      modifies this
      ensures v == address + PtrSizeOf(n)
    {
      v := address + PtrSizeOf(n);
    }

    method Arg64(mem: seq<Byte>, n: nat) returns (a: seq<Byte>)
      requires n > 0 && v + 8 <= |mem| && Source64(mem, v, n) + n <= |mem|
      modifies this
      ensures v == old(v) + 8 && |a| == n && Holds(mem, Source64(mem, old(v), n), a)
    {
      v := v + 8;
      if IsStruct(n) {
        var p := PointerAt(mem, v - 8);
        a := mem[p..p + n];
      } else {
        a := mem[v - 8..v - 8 + n];
      }
    }
  }

  // ----- The caller's side: arguments in consecutive slots

  function Flat(slots: seq<seq<Byte>>): seq<Byte> {
    if slots == [] then [] else slots[0] + Flat(slots[1..])
  }

  /** The length of the first `i` slots. */
  function Room(slots: seq<seq<Byte>>, i: nat): nat
    requires i <= |slots|
  {
    if i == 0 then 0 else |slots[0]| + Room(slots[1..], i - 1)
  }

  lemma {:induction false} RoomStep(slots: seq<seq<Byte>>, i: nat)
    requires i < |slots|
    ensures Room(slots, i + 1) == Room(slots, i) + |slots[i]|
  {
    if i > 0 { RoomStep(slots[1..], i - 1); }
  }

  lemma HoldsSplit(mem: seq<Byte>, p: nat, x: seq<Byte>, y: seq<Byte>)
    requires Holds(mem, p, x + y)
    ensures Holds(mem, p, x) && Holds(mem, p + |x|, y)
  {
    var s := x + y;
    var t := mem[p..p + |s|];
    assert forall i :: 0 <= i < |s| ==> t[i] == mem[p + i];
    assert forall i :: 0 <= i < |x| ==> s[i] == x[i];
    assert forall i :: 0 <= i < |y| ==> s[|x| + i] == y[i];
    assert mem[p..p + |x|] == x;
    assert mem[p + |x|..p + |x| + |y|] == y;
  }

  /** Each slot is found after the slots before it. */
  lemma {:induction false} SlotAt(mem: seq<Byte>, v: nat, slots: seq<seq<Byte>>, i: nat)
    requires i < |slots| && Holds(mem, v, Flat(slots))
    ensures Holds(mem, v + Room(slots, i), slots[i])
    decreases i
  {
    HoldsSplit(mem, v, slots[0], Flat(slots[1..]));
    if i > 0 { SlotAt(mem, v + |slots[0]|, slots[1..], i - 1); }
  }

  lemma PrefixOfSlot(mem: seq<Byte>, p: nat, slot: seq<Byte>, a: seq<Byte>)
    requires Holds(mem, p, slot) && a <= slot
    ensures Holds(mem, p, a)
  {
  }

  // ----- IX86

  /** Every argument at the start of a slot of whole 4-byte units, the rest anything. */
  ghost predicate Pushed32(args: seq<seq<Byte>>, slots: seq<seq<Byte>>) {
    && |slots| == |args|
    && forall i :: 0 <= i < |args| ==>
         |args[i]| + 3 < 0x1_0000_0000 && |slots[i]| == Units(|args[i]|, 4) && args[i] <= slots[i]
  }

  /** The cursor after reading the first `i` arguments. */
  ghost function Cursor32(v: nat, args: seq<seq<Byte>>, i: nat): nat
    requires i <= |args|
  {
    if i == 0 then v else Cursor32(v, args, i - 1) + IntSizeOf(|args[i - 1]|)
  }

  lemma {:induction false} CursorInStep(v: nat, args: seq<seq<Byte>>, slots: seq<seq<Byte>>, i: nat)
    requires Pushed32(args, slots) && i <= |args|
    ensures Cursor32(v, args, i) == v + Room(slots, i)
  {
    if i > 0 {
      CursorInStep(v, args, slots, i - 1);
      RoomStep(slots, i - 1);
      IntSizeIsWholeInts(|args[i - 1]|);
    }
  }

  /** The IX86 walk reads back every argument, whatever their sizes. */
  lemma Walk32ReadsBack(mem: seq<Byte>, v: nat, args: seq<seq<Byte>>, slots: seq<seq<Byte>>, i: nat)
    requires Pushed32(args, slots) && Holds(mem, v, Flat(slots)) && i < |args|
    ensures Holds(mem, Cursor32(v, args, i), args[i])
  {
    CursorInStep(v, args, slots, i);
    SlotAt(mem, v, slots, i);
    PrefixOfSlot(mem, v + Room(slots, i), slots[i], args[i]);
  }

  /** Started from the last named parameter, the cursor stands at the first variable one. */
  lemma Start32IsNext(address: nat, named: seq<Byte>, args: seq<seq<Byte>>, i: nat)
    requires i <= |args|
    ensures Cursor32(address, [named] + args, i + 1) == Cursor32(address + IntSizeOf(|named|), args, i)
    decreases i
  {
    if i == 0 {
      assert Cursor32(address, [named] + args, 0) == address;
    } else {
      Start32IsNext(address, named, args, i - 1);
      assert ([named] + args)[i] == args[i - 1];
    }
  }

  /** So start and walk read back every variable argument. */
  lemma {:induction false} StartThenWalk32(mem: seq<Byte>, v: nat, named: seq<Byte>, args: seq<seq<Byte>>,
                                           slots: seq<seq<Byte>>, i: nat)
    requires Pushed32([named] + args, slots) && Holds(mem, v, Flat(slots)) && i < |args|
    ensures Holds(mem, Cursor32(v + IntSizeOf(|named|), args, i), args[i])
  {
    Start32IsNext(v, named, args, i);
    assert ([named] + args)[i + 1] == args[i];
    Walk32ReadsBack(mem, v, [named] + args, slots, i + 1);
  }

  // ----- AMD64

  predicate InRegister(n: nat) {
    n in {1, 2, 4, 8}
  }

  /** The calling convention: sizes 1, 2, 4 and 8 sit in their 8-byte slot, every other
      argument at its home, whose address is in the slot. */
  ghost predicate Placed64(mem: seq<Byte>, a: seq<Byte>, slot: seq<Byte>, home: nat) {
    && a != [] && |slot| == 8
    && if InRegister(|a|) then a <= slot
       else home < 0x1_0000_0000_0000_0000 && slot == Digits(home, 8) && Holds(mem, home, a)
  }

  ghost predicate Pushed64(mem: seq<Byte>, args: seq<seq<Byte>>, slots: seq<seq<Byte>>, homes: seq<nat>) {
    && |slots| == |homes| == |args|
    && forall i :: 0 <= i < |args| ==> Placed64(mem, args[i], slots[i], homes[i])
  }

  lemma {:induction false} RoomOfSlots64(mem: seq<Byte>, args: seq<seq<Byte>>, slots: seq<seq<Byte>>,
                                         homes: seq<nat>, i: nat)
    requires Pushed64(mem, args, slots, homes) && i <= |args|
    ensures Room(slots, i) == 8 * i
  {
    if i > 0 {
      RoomOfSlots64(mem, args, slots, homes, i - 1);
      RoomStep(slots, i - 1);
      assert Placed64(mem, args[i - 1], slots[i - 1], homes[i - 1]);
    }
  }

  lemma ReadPlaced64(mem: seq<Byte>, v: nat, a: seq<Byte>, slot: seq<Byte>, home: nat)
    requires Placed64(mem, a, slot, home) && Holds(mem, v, slot)
    ensures Holds(mem, Source64(mem, v, |a|), a)
  {
    IsStructExact(|a|);
    if InRegister(|a|) {
      PrefixOfSlot(mem, v, slot, a);
    } else {
      assert BytePow(4) == 0x1_0000_0000 && BytePow(8) == 0x1_0000_0000_0000_0000;
      NumberOfDigits(home, 8);
    }
  }

  /** The AMD64 walk, one slot per argument, reads back every argument: those that fit a
      register from the slot, all others through it. */
  lemma Walk64ReadsBack(mem: seq<Byte>, v: nat, args: seq<seq<Byte>>, slots: seq<seq<Byte>>, homes: seq<nat>, i: nat)
    requires Pushed64(mem, args, slots, homes) && Holds(mem, v, Flat(slots)) && i < |args|
    ensures args[i] != [] && v + 8 * i + 8 <= |mem|
    ensures Holds(mem, Source64(mem, v + 8 * i, |args[i]|), args[i])
  {
    assert Placed64(mem, args[i], slots[i], homes[i]);
    RoomOfSlots64(mem, args, slots, homes, i);
    SlotAt(mem, v, slots, i);
    ReadPlaced64(mem, v + 8 * i, args[i], slots[i], homes[i]);
  }

  /** The address of a parameter: its slot, or its home when it is passed by reference. */
  ghost function AddressOf64(n: nat, slotAt: nat, home: nat): nat {
    if InRegister(n) then slotAt else home
  }

  /** Started from the last named parameter, in the slot at `slotAt` or at a home apart
      from that slot, the cursor stands at the next slot exactly when the parameter is of
      a register size. */
  lemma Start64IsNextIff(mem: seq<Byte>, named: seq<Byte>, slot: seq<Byte>, slotAt: nat, home: nat)
    requires Placed64(mem, named, slot, home) && Holds(mem, slotAt, slot)
    requires |named| + 7 < 0x1_0000_0000_0000_0000
    requires InRegister(|named|) || home + |named| <= slotAt || slotAt + 8 <= home
    ensures AddressOf64(|named|, slotAt, home) + PtrSizeOf(|named|) == slotAt + 8 <==> InRegister(|named|)
  {
    PtrSizeIsWholePointers(|named|);
  }

  /** A structure of three bytes, though it is rounded to one pointer, is passed by
      reference: the start lands eight bytes after its home, not on the next slot. */
  lemma ThreeBytesMissNextSlot(mem: seq<Byte>, named: seq<Byte>, slot: seq<Byte>, slotAt: nat, home: nat)
    requires |named| == 3 && Placed64(mem, named, slot, home) && Holds(mem, slotAt, slot)
    requires home + 3 <= slotAt || slotAt + 8 <= home
    ensures var start := AddressOf64(3, slotAt, home) + PtrSizeOf(3);
            start == home + 8 && start != slotAt + 8
  {
    PtrSizeIsWholePointers(3);
    Start64IsNextIff(mem, named, slot, slotAt, home);
  }

  /** So after a named parameter of a register size, start and walk read back every
      variable argument. */
  lemma {:induction false} StartThenWalk64(mem: seq<Byte>, v: nat, named: seq<Byte>, args: seq<seq<Byte>>,
                                           slots: seq<seq<Byte>>, homes: seq<nat>, i: nat)
    requires Pushed64(mem, [named] + args, slots, homes) && Holds(mem, v, Flat(slots))
    requires InRegister(|named|) && i < |args|
    ensures var start := AddressOf64(|named|, v, homes[0]) + PtrSizeOf(|named|);
            && args[i] != [] && start + 8 * i + 8 <= |mem|
            && Holds(mem, Source64(mem, start + 8 * i, |args[i]|), args[i])
  {
    PtrSizeIsWholePointers(|named|);
    assert ([named] + args)[i + 1] == args[i];
    Walk64ReadsBack(mem, v, [named] + args, slots, homes, i + 1);
  }

  // ----- A variable function's use of the macros

  ghost predicate SizesOf(sizes: seq<nat>, args: seq<seq<Byte>>) {
    |sizes| == |args| && forall i :: 0 <= i < |args| ==> sizes[i] == |args[i]|
  }

  lemma HoldsUnique(mem: seq<Byte>, p: nat, a: seq<Byte>, b: seq<Byte>)
    requires Holds(mem, p, a) && Holds(mem, p, b) && |a| == |b|
    ensures a == b
  {
  }

  /** Start after the named parameter and read arguments of the given sizes (IX86). */
  method ReadAll32(mem: seq<Byte>, address: nat, named: nat, sizes: seq<nat>,
                   ghost first: seq<Byte>, ghost args: seq<seq<Byte>>, ghost slots: seq<seq<Byte>>)
    returns (read: seq<seq<Byte>>)
    requires Pushed32([first] + args, slots) && Holds(mem, address, Flat(slots))
    requires named == |first| && SizesOf(sizes, args)
    ensures read == args
  {
    var list := new VaList(0);
    list.Start32(address, named);
    ghost var start := address + IntSizeOf(named);
    read := [];
    for i := 0 to |sizes|
      invariant fresh(list) && list.v == Cursor32(start, args, i) && read == args[..i]
    {
      StartThenWalk32(mem, address, first, args, slots, i);
      assert args[..i + 1] == args[..i] + [args[i]];
      ghost var p := list.v;
      var a := list.Arg32(mem, sizes[i]);
      HoldsUnique(mem, p, a, args[i]);
      read := read + [a];
    }
  }

  /** The same on AMD64, for a named parameter of a register size. */
  method ReadAll64(mem: seq<Byte>, address: nat, named: nat, sizes: seq<nat>,
                   ghost first: seq<Byte>, ghost args: seq<seq<Byte>>, ghost slots: seq<seq<Byte>>,
                   ghost homes: seq<nat>)
    returns (read: seq<seq<Byte>>)
    requires Pushed64(mem, [first] + args, slots, homes) && Holds(mem, address, Flat(slots))
    requires InRegister(|first|) && named == |first| && SizesOf(sizes, args)
    ensures read == args
  {
    var list := new VaList(0);
    list.Start64(address, named);
    ghost var start := list.v;
    read := [];
    for i := 0 to |sizes|
      invariant fresh(list) && list.v == start + 8 * i && read == args[..i]
    {
      StartThenWalk64(mem, address, first, args, slots, homes, i);
      assert args[..i + 1] == args[..i] + [args[i]];
      ghost var p := Source64(mem, list.v, sizes[i]);
      var a := list.Arg64(mem, sizes[i]);
      HoldsUnique(mem, p, a, args[i]);
      read := read + [a];
    }
  }
}
