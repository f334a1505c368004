/** The CountOfSetBits* family of the SCSI class library: one loop at five widths. */
module SetBitCounters {
  import opened Bits

  /** The set bits of `x`, in the order in which `x &= x - 1` clears them. */
  ghost function ClearingOrder(x: nat): seq<nat> {
    if x == 0 then []
    else AndPredecessor(x); [LowestSet(x)] + ClearingOrder(And(x, x - 1))
  }

  /** Kernighan's loop on a `w`-bit word: `while (x) { x &= x - 1; i++; }`.
      The subtraction wraps in the word. */
  method CountOfSetBits(x: nat, w: nat) returns (count: nat, ghost cleared: seq<nat>)
    requires x < Pow2(w)
    ensures count == BitCount(x) == |cleared|
    ensures count <= w
    ensures cleared == ClearingOrder(x)
  {
    var rest: nat := x;
    count, cleared := 0, [];
    while rest != 0
      invariant rest < Pow2(w)
      invariant count + BitCount(rest) == BitCount(x) && |cleared| == count
      invariant cleared + ClearingOrder(rest) == ClearingOrder(x)
      decreases rest
    {
      AndPredecessor(rest);
      ModSmall(rest - 1, Pow2(w));
      cleared := cleared + [LowestSet(rest)];
      rest := And(rest, (rest - 1) % Pow2(w));
      count := count + 1;
    }
    BitCountBound(x, w);
  }

  /** The loop clears exactly the set bits, each once, lowest first. */
  lemma {:induction false} ClearingOrderSound(x: nat, b: nat, i: nat, j: nat)
    ensures b in ClearingOrder(x) <==> Bit(x, b) == 1
    ensures i < j < |ClearingOrder(x)| ==> ClearingOrder(x)[i] < ClearingOrder(x)[j]
    decreases x
  {
    if x == 0 {
      BitOfZero(b);
    } else {
      AndPredecessor(x);
      var rest, low := And(x, x - 1), LowestSet(x);
      var tail := ClearingOrder(rest);
      assert ClearingOrder(x) == [low] + tail;
      ClearedBit(x, b);
      LowestSetBit(x, if b <= low then b else low);
      ClearingOrderSound(rest, b, if i == 0 then 0 else i - 1, if j == 0 then 0 else j - 1);
      if i == 0 && 0 < j < |ClearingOrder(x)| {
        var c := tail[j - 1];
        assert c in tail;
        ClearingOrderSound(rest, c, 0, 0);
        ClearedBit(x, c);
      }
    }
  }

  /** Clearing the lowest set bit leaves every other bit. */
  lemma {:induction false} ClearedBit(x: nat, b: nat)
    requires x > 0
    ensures Bit(And(x, x - 1), b) == if b <= LowestSet(x) then 0 else Bit(x, b)
  {
    AndBit(x, x - 1, b);
    if x % 2 == 1 {
      assert (x - 1) / 2 == x / 2;
      if b > 0 {
        AndBit(x / 2, x / 2, b - 1);
        BitIsBinary(x / 2, b - 1);
      }
    } else if b > 0 {
      assert (x - 1) / 2 == x / 2 - 1;
      ClearedBit(x / 2, b - 1);
      AndBit(x / 2, x / 2 - 1, b - 1);
    }
  }
}
