/** The tag list a boot loader hands to the ARM kernel (a size word counting the
    header, a tag word, then the payload; a zero size ends the list), and what the
    walk of LlbEnvParseArguments does to the boot environment. */
module BootTags {
  import opened Bits
  import opened Bytes
  import opened CStrings

  const ATAG_CORE: Word     := 0x5441_0001
  const ATAG_MEM: Word      := 0x5441_0002
  const ATAG_INITRD2: Word  := 0x5442_0005
  const ATAG_REVISION: Word := 0x5441_0007
  const ATAG_CMDLINE: Word  := 0x5441_0009

  const CMDLINE_SIZE := 256
  const MB16: Word := 16 * 1024 * 1024

  /** The globals of the environment. */
  datatype Env = Env(
    pageSize: Word, revision: Word,
    memStart: Word, memSize: Word,
    ramDiskStart: Word, ramDiskSize: Word,
    cmdLine: seq<Byte>)

  /** 32-bit wrap-around. */
  function Wrap(x: int): Word {
    x % 0x1_0000_0000
  }

  // ----- Words as little-endian bytes

  function InBytes(m: seq<Word>): (b: seq<Byte>)
    ensures |b| == 4 * |m|
  {
    seq(4 * |m|, i requires 0 <= i < 4 * |m| => LittleEndian32(m[i / 4])[i % 4])
  }

  lemma ByteInWord(m: seq<Word>, j: nat)
    requires j < 4 * |m|
    ensures InBytes(m)[j] == LittleEndian32(m[j / 4])[j % 4]
  {
  }

  lemma BytesOfSlice(m: seq<Word>, p: nat, q: nat)
    requires p <= q <= |m|
    ensures InBytes(m[p..q]) == InBytes(m)[4 * p..4 * q]
  {
  }

  // ----- The RAM disk adjustment

  /** `(size + 16MB - 1) & ~(16MB - 1)` in 32 bits. */
  function RoundUp16MB(size: Word): Word {
    AndAtMost(Wrap(size + MB16 - 1), 0xFFFF_FFFF - (MB16 - 1));
    And(Wrap(size + MB16 - 1), 0xFFFF_FFFF - (MB16 - 1))
  }

  function RamDiskStart(beagle: bool, start: Word): Word {
    if beagle then Wrap(start + MB16) else start
  }

  function RamDiskSize(beagle: bool, size: Word): Word {
    if beagle then Wrap(RoundUp16MB(size) - MB16) else size
  }

  // ----- One tag in memory

  /** strncpy of `n` bytes into the command line. */
  function Store(line: seq<Byte>, s: seq<Byte>, n: nat): (r: seq<Byte>)
    requires n <= |line|
    ensures |r| == |line|
  {
    Padded(s, n) + line[n..]
  }

  function CopyCount(size: Word): Word {
    Wrap(size * 4)
  }

  /** The memory the walk touches for the tag at `p` is there. */
  predicate Readable(m: seq<Word>, p: nat) {
    && p + 1 < |m|
    && var tag := m[p + 1];
       if tag == ATAG_CORE || tag == ATAG_MEM || tag == ATAG_INITRD2 then p + 3 < |m|
       else if tag == ATAG_REVISION then p + 2 < |m|
       else if tag == ATAG_CMDLINE then
         var n := CopyCount(m[p]);
         && n <= CMDLINE_SIZE && p + 2 <= |m|
         && (Terminated(InBytes(m), 4 * (p + 2)) || 4 * (p + 2) + n <= 4 * |m|)
       else true
  }

  /** The effect of the tag at `p`: the fields are read from fixed offsets after the
      header, whatever the size word says. */
  function Step(beagle: bool, m: seq<Word>, p: nat, e: Env): (r: Env)
    requires Readable(m, p) && |e.cmdLine| == CMDLINE_SIZE
    ensures |r.cmdLine| == CMDLINE_SIZE
  {
    var tag := m[p + 1];
    if tag == ATAG_CORE then e.(pageSize := m[p + 3])
    else if tag == ATAG_REVISION then e.(revision := m[p + 2])
    else if tag == ATAG_MEM then
      e.(memStart := if e.memStart == 0 then m[p + 3] else e.memStart,
         memSize := Wrap(e.memSize + m[p + 2]))
    else if tag == ATAG_INITRD2 then
      e.(ramDiskStart := RamDiskStart(beagle, m[p + 2]),
         ramDiskSize := RamDiskSize(beagle, m[p + 3]))
    else if tag == ATAG_CMDLINE then
      e.(cmdLine := Store(e.cmdLine, StringAt(InBytes(m), 4 * (p + 2)), CopyCount(m[p])))
    else e
  }

  /** The walk from `p` ends inside `m` and touches nothing outside it. */
  ghost predicate Walkable(m: seq<Word>, p: nat)
    decreases |m| - p
  {
    && p < |m|
    && (m[p] != 0 ==> Readable(m, p) && Walkable(m, p + m[p]))
  }

  /** The whole walk. */
  ghost function Walk(beagle: bool, m: seq<Word>, p: nat, e: Env): (r: Env)
    requires Walkable(m, p) && |e.cmdLine| == CMDLINE_SIZE
    ensures |r.cmdLine| == CMDLINE_SIZE
    decreases |m| - p
  {
    if m[p] == 0 then e else Walk(beagle, m, p + m[p], Step(beagle, m, p, e))
  }

  // ----- Tags as records

  datatype Record = Record(tag: Word, payload: seq<Word>)

  /** The size word of a record; in 32 bits, as everything here. */
  ghost predicate Sized(r: Record) {
    2 + |r.payload| < 0x1_0000_0000
  }

  ghost function Encode(r: Record): seq<Word>
    requires Sized(r)
  {
    [2 + |r.payload|, r.tag] + r.payload
  }

  ghost function EncodeAll(rs: seq<Record>): seq<Word>
    requires forall r <- rs :: Sized(r)
  {
    if rs == [] then [] else Encode(rs[0]) + EncodeAll(rs[1..])
  }

  /** Every header counts itself, and the list ends inside memory. */
  ghost predicate Framed(m: seq<Word>, p: nat)
    decreases |m| - p
  {
    && p < |m|
    && (m[p] != 0 ==> m[p] >= 2 && p + m[p] < |m| && Framed(m, p + m[p]))
  }

  ghost function Decode(m: seq<Word>, p: nat): seq<Record>
    requires Framed(m, p)
    decreases |m| - p
  {
    if m[p] == 0 then []
    else [Record(m[p + 1], m[p + 2..p + m[p]])] + Decode(m, p + m[p])
  }

  /** Where the list ends: the position of its zero size word. */
  ghost function End(m: seq<Word>, p: nat): (q: nat)
    requires Framed(m, p)
    ensures p <= q < |m| && m[q] == 0
    decreases |m| - p
  {
    if m[p] == 0 then p else End(m, p + m[p])
  }

  /** The copy of a command line stays inside its destination. */
  ghost predicate Fits(r: Record) {
    r.tag == ATAG_CMDLINE ==> 4 * (2 + |r.payload|) <= CMDLINE_SIZE
  }

  /** The payload holds every field the walk reads; a command line holds its NUL. */
  ghost predicate Complete(r: Record) {
    && Fits(r)
    && (r.tag == ATAG_CORE || r.tag == ATAG_MEM || r.tag == ATAG_INITRD2 ==> |r.payload| >= 2)
    && (r.tag == ATAG_REVISION ==> |r.payload| >= 1)
    && (r.tag == ATAG_CMDLINE ==> Terminated(InBytes(r.payload), 0))
  }

  ghost function LineOf(r: Record): seq<Byte> {
    StringAt(InBytes(r.payload), 0)
  }

  /** What a record means for the environment. */
  ghost function Apply(beagle: bool, r: Record, e: Env): (e': Env)
    requires Complete(r) && |e.cmdLine| == CMDLINE_SIZE
    ensures |e'.cmdLine| == CMDLINE_SIZE
  {
    if r.tag == ATAG_CORE then e.(pageSize := r.payload[1])
    else if r.tag == ATAG_REVISION then e.(revision := r.payload[0])
    else if r.tag == ATAG_MEM then
      e.(memStart := if e.memStart == 0 then r.payload[1] else e.memStart,
         memSize := Wrap(e.memSize + r.payload[0]))
    else if r.tag == ATAG_INITRD2 then
      e.(ramDiskStart := RamDiskStart(beagle, r.payload[0]),
         ramDiskSize := RamDiskSize(beagle, r.payload[1]))
    else if r.tag == ATAG_CMDLINE then
      e.(cmdLine := Store(e.cmdLine, LineOf(r), 4 * (2 + |r.payload|)))
    else e
  }

  ghost function Fold(beagle: bool, rs: seq<Record>, e: Env): (e': Env)
    requires (forall r <- rs :: Complete(r)) && |e.cmdLine| == CMDLINE_SIZE
    ensures |e'.cmdLine| == CMDLINE_SIZE
  {
    if rs == [] then e else Fold(beagle, rs[1..], Apply(beagle, rs[0], e))
  }
}
