/** A boot from end to end: a printed command line goes into a tag, the tag list is
    walked, and settings are read back; the memory map gets the memory above the disk. */
module BootPipeline {
  import opened Bytes
  import opened CStrings
  import opened Wrappers
  import opened BootTags
  import opened BootTagTheory
  import opened CommandLine
  import opened BootEnvironment
  import opened MemoryMap

  /** Byte `j` of a line padded with NULs. */
  ghost function LineByte(s: seq<Byte>, j: nat): Byte {
    if j < |s| then s[j] else 0
  }

  ghost function LineWord(s: seq<Byte>, i: nat): Word {
    LittleEndianCompose(LineByte(s, 4 * i), LineByte(s, 4 * i + 1), LineByte(s, 4 * i + 2), LineByte(s, 4 * i + 3));
    Compose4(LineByte(s, 4 * i), LineByte(s, 4 * i + 1), LineByte(s, 4 * i + 2), LineByte(s, 4 * i + 3))
  }

  /** The line as words, with room for at least one NUL. */
  ghost function PackLine(s: seq<Byte>): (ws: seq<Word>)
    ensures |ws| == |s| / 4 + 1
  {
    seq(|s| / 4 + 1, i requires i >= 0 =>
      LineWord(s, i))
  }

  ghost function LineRecord(s: seq<Byte>): Record {
    Record(ATAG_CMDLINE, PackLine(s))
  }

  lemma PackedLineByte(s: seq<Byte>, j: nat)
    requires j < 4 * (|s| / 4 + 1)
    ensures InBytes(PackLine(s))[j] == LineByte(s, j)
  {
    var i, r := j / 4, j % 4;
    ByteInWord(PackLine(s), j);
    LineWordByte(s, i, r);
    assert j == 4 * i + r;
  }

  lemma LineWordByte(s: seq<Byte>, i: nat, r: nat)
    requires r < 4
    ensures LittleEndian32(LineWord(s, i))[r] == LineByte(s, 4 * i + r)
  {
    LittleEndianCompose(LineByte(s, 4 * i), LineByte(s, 4 * i + 1), LineByte(s, 4 * i + 2), LineByte(s, 4 * i + 3));
  }

  /** A line of at most 247 bytes makes a complete command-line tag that holds it. */
  lemma LineRecordHolds(s: seq<Byte>)
    requires 0 !in s && |s| <= 247
    ensures Sized(LineRecord(s)) && Complete(LineRecord(s)) && LineOf(LineRecord(s)) == s
  {
    PackedPrefix(s);
    HoldingRecord(PackLine(s), s);
  }

  /** And no longer line does. */
  lemma LineRecordFitsIff(s: seq<Byte>)
    requires 0 !in s
    ensures Fits(LineRecord(s)) <==> |s| <= 247
  {
  }

  lemma HoldingRecord(ws: seq<Word>, s: seq<Byte>)
    requires |ws| <= 62 && |s| < |InBytes(ws)| && InBytes(ws)[0..|s|] == s && InBytes(ws)[|s|] == 0 && 0 !in s
    ensures var r := Record(ATAG_CMDLINE, ws);
            Sized(r) && Complete(r) && LineOf(r) == s
  {
    StringIs(InBytes(ws), s);
  }

  lemma PackedPrefix(s: seq<Byte>)
    ensures var b := InBytes(PackLine(s));
            |s| < |b| && b[0..|s|] == s && b[|s|] == 0
  {
    var b := InBytes(PackLine(s));
    forall j | 0 <= j < |s| ensures b[j] == s[j] {
      PackedLineByte(s, j);
    }
    PackedLineByte(s, |s|);
  }

  /** The environment after a boot from `rs`, the words after the list being anything. */
  ghost function Booted(beagle: bool, rs: seq<Record>, rest: seq<Word>, e: Env): (f: Env)
    requires |e.cmdLine| == CMDLINE_SIZE && forall r <- rs :: Sized(r) && Complete(r)
    ensures |f.cmdLine| == CMDLINE_SIZE
  {
    WalkOfEncoded(beagle, rs, rest, e);
    Walk(beagle, EncodeAll(rs) + [0] + rest, 0, e)
  }

  /** The command line a boot leaves, as a string: that of the last tag, or else `earlier`,
      the one there was. */
  ghost function BootLine(rs: seq<Record>, earlier: seq<Byte>): seq<Byte> {
    var cmd := Latest(rs, ATAG_CMDLINE);
    if cmd.Some? then LineOf(cmd.value) else earlier
  }

  /** Some tag holds a line, or the buffer holds `earlier` with a NUL to spare. */
  ghost predicate HasLine(rs: seq<Record>, e: Env, earlier: seq<Byte>) {
    Latest(rs, ATAG_CMDLINE).Some? || Spared(e.cmdLine, earlier)
  }

  /** A clear buffer holds the empty line so. */
  lemma ClearIsSpared()
    ensures Spared(Zeros(CMDLINE_SIZE), [])
  {
    assert Padded([], CMDLINE_SIZE) == Zeros(CMDLINE_SIZE);
  }

  /** And every boot leaves its line so, ready for the next one. */
  lemma BootedSpared(beagle: bool, rs: seq<Record>, rest: seq<Word>, e: Env, earlier: seq<Byte>)
    requires |e.cmdLine| == CMDLINE_SIZE && forall r <- rs :: Sized(r) && Complete(r)
    requires HasLine(rs, e, earlier)
    ensures Spared(Booted(beagle, rs, rest, e).cmdLine, BootLine(rs, earlier))
  {
    WalkOfEncoded(beagle, rs, rest, e);
    LatestCommandLine(beagle, rs, e);
    var cmd := Latest(rs, ATAG_CMDLINE);
    if cmd.Some? {
      StringIsSlice(InBytes(cmd.value.payload), 0);
    }
  }

  /** After any boot, for any line and any name: the read is safe exactly when the value
      fits its buffer, and it returns what the string of the line says, whatever bytes
      older lines or the tag itself hold after its NUL. */
  lemma BootedRead(beagle: bool, rs: seq<Record>, rest: seq<Word>, e: Env, earlier: seq<Byte>, name: seq<Byte>)
    requires |e.cmdLine| == CMDLINE_SIZE && forall r <- rs :: Sized(r) && Complete(r)
    requires HasLine(rs, e, earlier)
    ensures var line, s := Booted(beagle, rs, rest, e).cmdLine, BootLine(rs, earlier);
            && (ReadSafe(line, name) <==> |Lookup(s, name)| <= 31)
            && (ReadSafe(line, name) ==> Value(line, name) == Lookup(s, name))
  {
    BootedSpared(beagle, rs, rest, e, earlier);
    var line, s := Booted(beagle, rs, rest, e).cmdLine, BootLine(rs, earlier);
    var n: nat :| |s| + 1 < n && Padded(s, n) <= line;
    PaddedReads(line, s, n, name);
  }

  /** And after any run of reads the value buffer holds what the string says of the last
      name: neither the history of reads nor the bytes around the string matter. */
  lemma ReadsAfterBoot(beagle: bool, rs: seq<Record>, rest: seq<Word>, e: Env, earlier: seq<Byte>,
                       data: seq<Byte>, names: seq<seq<Byte>>, name: seq<Byte>)
    requires |e.cmdLine| == CMDLINE_SIZE && forall r <- rs :: Sized(r) && Complete(r)
    requires HasLine(rs, e, earlier)
    requires |data| == VALUE_SIZE
    requires forall n <- names + [name] :: |Lookup(BootLine(rs, earlier), n)| < VALUE_SIZE
    ensures var line := Booted(beagle, rs, rest, e).cmdLine;
            && (forall n <- names + [name] :: ReadSafe(line, n))
            && var r := AfterReads(data, line, names + [name]);
               Terminated(r, 0) && StringAt(r, 0) == Lookup(BootLine(rs, earlier), name)
  {
    var line := Booted(beagle, rs, rest, e).cmdLine;
    forall n | n in names + [name] ensures ReadSafe(line, n) {
      BootedRead(beagle, rs, rest, e, earlier, n);
    }
    assert name in names + [name] && forall n <- names :: n in names + [name];
    BootedRead(beagle, rs, rest, e, earlier, name);
    HistoryIndependent(data, line, names, name);
  }

  /** Settings survive the boot: print, pack into a tag among any others, encode, walk
      the words from any earlier environment, read by name. */
  lemma SettingsSurviveBoot(beagle: bool, rs: seq<Record>, rest: seq<Word>, e: Env,
                            ps: seq<Setting>, letters: set<Byte>, k: nat)
    requires |e.cmdLine| == CMDLINE_SIZE && forall r <- rs :: Sized(r) && Complete(r)
    requires Latest(rs, ATAG_CMDLINE).Some? && LineOf(Latest(rs, ATAG_CMDLINE).value) == Print(ps)
    requires WellSpelled(ps, letters) && k < |ps| && |ps[k].value| < VALUE_SIZE
    requires forall j :: 0 <= j < k ==> !Substring(ps[k].name, ps[j].name)
    ensures var line := Booted(beagle, rs, rest, e).cmdLine;
            ReadSafe(line, ps[k].name) && Value(line, ps[k].name) == ps[k].value
  {
    LookupOwn(ps, letters, k);
    BootedRead(beagle, rs, rest, e, [], ps[k].name);
  }

  /** Every printed line of at most 247 bytes has such a tag. */
  lemma PrintedRecord(ps: seq<Setting>, letters: set<Byte>)
    requires WellSpelled(ps, letters) && |Print(ps)| <= 247
    ensures var r := LineRecord(Print(ps));
            Sized(r) && Complete(r) && LineOf(r) == Print(ps)
  {
    PrintHasNoNul(ps, letters);
    LineRecordHolds(Print(ps));
  }

  lemma {:induction false} PrintHasNoNul(ps: seq<Setting>, letters: set<Byte>)
    requires WellSpelled(ps, letters)
    ensures 0 !in Print(ps)
  {
    if ps != [] {
      var p := ps[0];
      assert 0 !in p.name by { assert forall i :: 0 <= i < |p.name| ==> p.name[i] in letters; }
      assert 0 !in p.value;
      PrintHasNoNul(ps[1..], letters);
    }
  }

  // ----- The usable memory of a boot

  /** Memory start of a boot. */
  ghost function BootStart(rs: seq<Record>, e: Env): Word {
    if e.memStart != 0 then e.memStart else FirstStart(rs)
  }

  ghost function BootSize(rs: seq<Record>, e: Env): Word {
    Wrap(e.memSize + MemTotal(rs))
  }

  /** The memory and the RAM disk of a boot. */
  lemma BootedMemory(beagle: bool, rs: seq<Record>, rest: seq<Word>, e: Env)
    requires |e.cmdLine| == CMDLINE_SIZE && forall r <- rs :: Sized(r) && Complete(r)
    ensures var f, disk := Booted(beagle, rs, rest, e), Latest(rs, ATAG_INITRD2);
            && f.memStart == BootStart(rs, e) && f.memSize == BootSize(rs, e)
            && (disk.Some? ==> |disk.value.payload| >= 2
                               && f == WithDisk(beagle, f, disk.value.payload[0], disk.value.payload[1]))
            && (disk.None? ==> f.ramDiskSize == e.ramDiskSize && f.ramDiskStart == e.ramDiskStart)
  {
    WalkOfEncoded(beagle, rs, rest, e);
    MemoryStartAfter(beagle, rs, e);
    MemorySizeAfter(beagle, rs, e);
    LatestWins(beagle, rs, e);
  }

  /** Booting from any complete list that names a RAM disk, from any environment: whether
      the usable region is memory, below 2^32 and clear of the disk is decided by board,
      memory start, total memory and the last disk named. */
  lemma BootedRegion(beagle: bool, rs: seq<Record>, rest: seq<Word>, e: Env, disk: Record)
    requires |e.cmdLine| == CMDLINE_SIZE && forall r <- rs :: Sized(r) && Complete(r)
    requires Latest(rs, ATAG_INITRD2) == Some(disk)
    ensures |disk.payload| >= 2
    ensures Sound(Booted(beagle, rs, rest, e), disk.payload[0], disk.payload[1])
       <==> SoundPlacement(beagle, BootStart(rs, e), BootSize(rs, e), disk.payload[0], disk.payload[1])
  {
    BootedMemory(beagle, rs, rest, e);
    RegionSoundIff(beagle, Booted(beagle, rs, rest, e), disk.payload[0], disk.payload[1]);
  }

  /** Without a disk the region is the memory size from zero, which is memory exactly when
      there is none or it starts at zero. */
  lemma BootedRegionWithoutDisk(beagle: bool, rs: seq<Record>, rest: seq<Word>, e: Env)
    requires |e.cmdLine| == CMDLINE_SIZE && forall r <- rs :: Sized(r) && Complete(r)
    requires Latest(rs, ATAG_INITRD2).None? && e.ramDiskSize == 0
    ensures var f := Booted(beagle, rs, rest, e);
            && UsableEntry(f) == Entry(0, BootSize(rs, e), Usable)
            && (Sound(f, 0, 0) <==> BootSize(rs, e) == 0 || BootStart(rs, e) == 0)
  {
    BootedMemory(beagle, rs, rest, e);
  }

  /** The versatile map of a boot is free of overlaps exactly when the last disk ends, and
      memory ends, as `VersatilePlacement` says. */
  lemma BootedVersatileMap(rs: seq<Record>, rest: seq<Word>, e: Env, disk: Record)
    requires |e.cmdLine| == CMDLINE_SIZE && forall r <- rs :: Sized(r) && Complete(r)
    requires Latest(rs, ATAG_INITRD2) == Some(disk)
    ensures |disk.payload| >= 2
    ensures Clean(BuiltMap(VERSATILE, Booted(false, rs, rest, e)))
       <==> VersatilePlacement(DiskEnd(false, disk.payload[0], disk.payload[1]), BootSize(rs, e))
  {
    var f := Booted(false, rs, rest, e);
    BootedMemory(false, rs, rest, e);
    RegionStart(false, f, disk.payload[0], disk.payload[1]);
    VersatileMapCleanIff(f);
  }
}
