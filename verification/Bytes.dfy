/** Bytes and 32-bit words in little-endian memory. */
module Bytes {

  type Byte = b: nat | b < 256

  type Word = w: nat | w < 0x1_0000_0000

  function LittleEndian32(w: Word): (s: seq<Byte>)
    ensures |s| == 4
  {
    var x := w / 0x100;
    var y := x / 0x100;
    [w % 0x100, x % 0x100, y % 0x100, y / 0x100]
  }

  function Compose2(a: nat, b: nat): nat {
    a + 0x100 * b
  }

  function Compose4(a: nat, b: nat, c: nat, d: nat): nat {
    Compose2(a, Compose2(b, Compose2(c, d)))
  }

  /** Four bytes by weight, the lowest first. */
  function Weigh(a: nat, b: nat, c: nat, d: nat): nat {
    a + 0x100 * b + 0x1_0000 * c + 0x100_0000 * d
  }

  lemma LittleEndianWeights(w: Word)
    ensures var s := LittleEndian32(w);
            w == Weigh(s[0], s[1], s[2], s[3])
  {
  }

  lemma ComposeWeights(a: Byte, b: Byte, c: Byte, d: Byte)
    ensures Compose2(a, b) == Weigh(a, b, 0, 0) && Compose4(a, b, c, d) == Weigh(a, b, c, d)
  {
  }

  lemma ComposeLittleEndian(w: Word)
    ensures var s := LittleEndian32(w);
            Compose4(s[0], s[1], s[2], s[3]) == w
  {
  }

  lemma LittleEndianCompose(a: Byte, b: Byte, c: Byte, d: Byte)
    ensures Compose4(a, b, c, d) < 0x1_0000_0000
    ensures LittleEndian32(Compose4(a, b, c, d)) == [a, b, c, d]
  {
    var z := Compose2(c, d);
    var y := Compose2(b, z);
    LowByte(a, y);
    LowByte(b, z);
    LowByte(c, d);
  }

  lemma LowByte(a: Byte, x: nat)
    ensures Compose2(a, x) % 0x100 == a && Compose2(a, x) / 0x100 == x
  {
  }
}
