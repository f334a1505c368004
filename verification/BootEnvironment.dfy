/** The boot environment: globals filled from the tag list and read back by name. */
module BootEnvironment {
  import opened Bytes
  import opened CStrings
  import opened Wrappers
  import opened BootTags
  import opened CommandLine

  const VALUE_SIZE := 32

  /** The source's demands on a read: the line is terminated, so is the text after the
      name, and the value fits its buffer with its NUL. */
  predicate ReadSafe(line: seq<Byte>, name: seq<Byte>) {
    && Terminated(line, 0)
    && var f := Find(StringAt(line, 0), name);
       f.Some? ==> ValueFits(line, f.value + |name| + 1)
  }

  predicate ValueFits(line: seq<Byte>, v: nat) {
    Terminated(line, v) && |Before(StringAt(line, v), COMMA)| < VALUE_SIZE
  }

  function Value(line: seq<Byte>, name: seq<Byte>): (v: seq<Byte>)
    requires ReadSafe(line, name)
    ensures |v| < VALUE_SIZE
  {
    match Find(StringAt(line, 0), name)
    case None => []
    case Some(i) => Before(StringAt(line, i + |name| + 1), COMMA)
  }

  /** The value buffer after a read: the value, a NUL, and what was there before. */
  function AfterRead(data: seq<Byte>, value: seq<Byte>): (r: seq<Byte>)
    requires |value| < |data|
    ensures |r| == |data|
  {
    value + [0] + data[|value| + 1..]
  }

  class Environment {
    const beagle: bool
    var hwPageSize: Word
    var hwMemStart: Word
    var hwMemSize: Word
    var ramDiskStart: Word
    var ramDiskSize: Word
    var hwRevision: Word
    const cmdLine: array<Byte>
    const valueData: array<Byte>

    ghost predicate Valid() {
      cmdLine.Length == CMDLINE_SIZE && valueData.Length == VALUE_SIZE && cmdLine != valueData
    }

    ghost function View(): Env
      reads this, cmdLine
    {
      Env(hwPageSize, hwRevision, hwMemStart, hwMemSize, ramDiskStart, ramDiskSize, cmdLine[..])
    }

    /** Static storage starts out zero. */
    constructor (beagle: bool)
      ensures Valid() && fresh(cmdLine) && fresh(valueData) && this.beagle == beagle
      ensures View() == Env(0, 0, 0, 0, 0, 0, Zeros(CMDLINE_SIZE))
      ensures valueData[..] == Zeros(VALUE_SIZE)
    {
      this.beagle := beagle;
      hwPageSize, hwRevision, hwMemStart, hwMemSize, ramDiskStart, ramDiskSize := 0, 0, 0, 0, 0, 0;
      cmdLine := new Byte[CMDLINE_SIZE](_ => 0);
      valueData := new Byte[VALUE_SIZE](_ => 0);
    }

    /** One pass of the switch. */
    method HandleTag(m: seq<Word>, p: nat)
      requires Valid() && Readable(m, p)
      modifies this, cmdLine
      ensures View() == Step(beagle, m, p, old(View()))
    {
      match m[p + 1] {
        case 0x5441_0001 => hwPageSize := m[p + 3];
        case 0x5441_0007 => hwRevision := m[p + 2];
        case 0x5441_0002 =>
          if hwMemStart == 0 { hwMemStart := m[p + 3]; }
          hwMemSize := Wrap(hwMemSize + m[p + 2]);
        case 0x5442_0005 =>
          ramDiskStart := m[p + 2];
          ramDiskSize := m[p + 3];
          if beagle {
            ramDiskSize := RoundUp16MB(ramDiskSize);
            ramDiskStart := Wrap(ramDiskStart + MB16);
            ramDiskSize := Wrap(ramDiskSize - MB16);
          }
        case 0x5441_0009 =>
          StrNCpy(cmdLine, InBytes(m), 4 * (p + 2), CopyCount(m[p]));
        case _ =>
      }
    }

    /** The walk; it ends because every size it adds is nonzero. */
    method ParseArguments(m: seq<Word>)
      requires Valid() && Walkable(m, 0)
      modifies this, cmdLine
      ensures View() == Walk(beagle, m, 0, old(View()))
    {
      var p: nat := 0;
      while m[p] != 0
        invariant Walkable(m, p)
        invariant Walk(beagle, m, p, View()) == Walk(beagle, m, 0, old(View()))
        decreases |m| - p
      {
        HandleTag(m, p);
        p := p + m[p];
      }
    }

    method GetMemoryInformation() returns (base: Word, size: Word)
      ensures base == View().memStart && size == View().memSize
    {
      base, size := hwMemStart, hwMemSize;
    }

    method GetRamDiskInformation() returns (present: bool, base: Word, size: Word)
      ensures present <==> View().ramDiskSize != 0
      ensures size == View().ramDiskSize
      ensures base == if present then View().ramDiskStart else 0
    {
      if ramDiskSize == 0 { return false, 0, 0; }
      return true, ramDiskStart, ramDiskSize;
    }

    /** The result is left in `valueData`, which the caller sees as a string. */
    method Read(name: seq<Byte>)
      requires Valid() && 0 !in name && ReadSafe(cmdLine[..], name)
      modifies valueData
      ensures valueData[..] == AfterRead(old(valueData[..]), Value(cmdLine[..], name))
      ensures Terminated(valueData[..], 0) && StringAt(valueData[..], 0) == Value(cmdLine[..], name)
    {
      ghost var value := Value(cmdLine[..], name);
      var found, length := Locate(name);
      CopyValue(found, length, value);
      ReadString(old(valueData[..]), value, cmdLine[..], name);
    }

    /** Copy the value text, if there is any, and terminate it. */
    method CopyValue(found: Option<nat>, length: nat, ghost value: seq<Byte>)
      requires Valid() && length == |value| < VALUE_SIZE && (found.None? ==> length == 0)
      requires found.Some? ==> Terminated(cmdLine[..], found.value)
                               && value <= StringAt(cmdLine[..], found.value)
      modifies valueData
      ensures valueData[..] == AfterRead(old(valueData[..]), value)
    {
      ghost var was := valueData[..];
      if found.Some? {
        CopyOfPrefix(cmdLine[..], found.value, value);
        StrNCpy(valueData, cmdLine[..], found.value, length);
      }
      assert valueData[..] == value + was[|value|..];
      valueData[length] := 0;
      TerminatedCopy(was, value);
    }

    /** Where the value text starts and how long it is. */
    method Locate(name: seq<Byte>) returns (found: Option<nat>, length: nat)
      requires Valid() && 0 !in name && ReadSafe(cmdLine[..], name)
      ensures var f := Find(StringAt(cmdLine[..], 0), name);
              found == if f.Some? then Some(f.value + |name| + 1) else None
      ensures length == |Value(cmdLine[..], name)|
      ensures found.None? ==> length == 0
      ensures found.Some? ==> Terminated(cmdLine[..], found.value)
      ensures found.Some? ==> Value(cmdLine[..], name) <= StringAt(cmdLine[..], found.value)
    {
      length := 0;
      found := StrStr(cmdLine, 0, name);
      if found.Some? {
        found := Some(found.value + |name| + 1);
        length := ValueLength(found.value);
        BeforeIsPrefix(StringAt(cmdLine[..], found.value), COMMA);
      }
    }

    /** Stop before the next setting, or where the string ends. */
    method ValueLength(v: nat) returns (length: nat)
      requires Terminated(cmdLine[..], v)
      ensures length == |Before(StringAt(cmdLine[..], v), COMMA)|
    {
      var comma := StrChr(cmdLine, v, COMMA);
      if comma.Some? {
        length := comma.value;
      } else {
        length := StrLen(cmdLine, v);
        WithoutComma(StringAt(cmdLine[..], v));
      }
    }
  }

  lemma TerminatedCopy(data: seq<Byte>, value: seq<Byte>)
    requires |value| < |data|
    ensures (value + data[|value|..])[|value| := 0] == AfterRead(data, value)
  {
  }

  lemma WithoutComma(s: seq<Byte>)
    requires COMMA !in s
    ensures Before(s, COMMA) == s
  {
  }

  lemma CopyOfPrefix(line: seq<Byte>, v: nat, value: seq<Byte>)
    requires v <= |line| && value <= StringAt(line, v)
    ensures Padded(StringAt(line, v), |value|) == value
  {
  }

  lemma ReadString(data: seq<Byte>, value: seq<Byte>, line: seq<Byte>, name: seq<Byte>)
    requires |value| < |data| && ReadSafe(line, name) && value == Value(line, name)
    ensures Terminated(AfterRead(data, value), 0) && StringAt(AfterRead(data, value), 0) == value
  {
    var r := AfterRead(data, value);
    ValueHasNoNul(line, name);
    assert r[..|value|] == value && r[|value|] == 0;
    StringEndsAt(r, 0, |value|);
  }

  lemma ValueHasNoNul(line: seq<Byte>, name: seq<Byte>)
    requires ReadSafe(line, name)
    ensures 0 !in Value(line, name)
  {
    var f := Find(StringAt(line, 0), name);
    if f.Some? {
      StringIsSlice(line, f.value + |name| + 1);
      BeforeIsPrefix(StringAt(line, f.value + |name| + 1), COMMA);
    }
  }

  // ----- Reads share one buffer

  /** The buffer after a run of reads. */
  ghost function AfterReads(data: seq<Byte>, line: seq<Byte>, names: seq<seq<Byte>>): (r: seq<Byte>)
    requires |data| == VALUE_SIZE && forall n <- names :: ReadSafe(line, n)
    ensures |r| == VALUE_SIZE
    decreases |names|
  {
    if names == [] then data
    else
      var last := names[|names| - 1];
      AfterRead(AfterReads(data, line, names[..|names| - 1]), Value(line, last))
  }

  /** After any run of reads from any value buffer, that buffer holds the value of the last
      name in the line buffer and depends on nothing else. */
  lemma HistoryIndependent(data: seq<Byte>, line: seq<Byte>, names: seq<seq<Byte>>, name: seq<Byte>)
    requires |data| == VALUE_SIZE && ReadSafe(line, name) && forall n <- names :: ReadSafe(line, n)
    ensures forall n <- names + [name] :: ReadSafe(line, n)
    ensures var r := AfterReads(data, line, names + [name]);
            Terminated(r, 0) && StringAt(r, 0) == Value(line, name)
  {
    var all := names + [name];
    assert all[..|all| - 1] == names;
    ReadString(AfterReads(data, line, names), Value(line, name), line, name);
  }

  // ----- When the string alone decides

  /** A buffer of `n` bytes that holds the string `s`. */
  ghost predicate Shows(line: seq<Byte>, s: seq<Byte>, n: nat) {
    |line| == n && Terminated(line, 0) && StringAt(line, 0) == s
  }

  /** Every buffer of `n` bytes holding `s` gives the same value, where it can be read. */
  ghost predicate StringDecides(s: seq<Byte>, name: seq<Byte>, n: nat) {
    forall line: seq<Byte>, line': seq<Byte> ::
      Shows(line, s, n) && Shows(line', s, n) && ReadSafe(line, name) && ReadSafe(line', name)
      ==> Value(line, name) == Value(line', name)
  }

  lemma TextInside(line: seq<Byte>, s: seq<Byte>, v: nat)
    requires Terminated(line, 0) && StringAt(line, 0) == s && v <= |s|
    ensures Terminated(line, v) && Before(StringAt(line, v), COMMA) == TextFrom(s, v)
  {
    SuffixString(line, 0, v);
  }

  /** Where the name is not at the very end of the string, the buffer-level read is the
      string-level lookup. */
  lemma ReadInside(line: seq<Byte>, s: seq<Byte>, name: seq<Byte>)
    requires Terminated(line, 0) && StringAt(line, 0) == s
    requires Find(s, name).Some? ==> Find(s, name).value + |name| < |s|
    ensures ReadSafe(line, name) <==> |Lookup(s, name)| < VALUE_SIZE
    ensures ReadSafe(line, name) ==> Value(line, name) == Lookup(s, name)
  {
    if Find(s, name).Some? {
      TextInside(line, s, Find(s, name).value + |name| + 1);
    }
  }

  /** A name at the very end reads the string after it, which the lookup takes for empty. */
  lemma ReadAtEnd(line: seq<Byte>, s: seq<Byte>, name: seq<Byte>)
    requires Terminated(line, 0) && StringAt(line, 0) == s
    requires Find(s, name).Some? && Find(s, name).value + |name| == |s|
    ensures ReadSafe(line, name) <==> ValueFits(line, |s| + 1)
    ensures ReadSafe(line, name) ==> Value(line, name) == Before(StringAt(line, |s| + 1), COMMA)
    ensures Lookup(s, name) == []
  {
  }

  /** A read takes bytes from after the string exactly when the name is first found at its
      very end and the buffer has room for a byte and a NUL there. */
  lemma StringDecidesIff(s: seq<Byte>, name: seq<Byte>, n: nat)
    requires 0 !in s && |s| < n
    ensures var f := Find(s, name);
            StringDecides(s, name, n) <==> f.None? || f.value + |name| < |s| || n <= |s| + 2
  {
    var f := Find(s, name);
    FindSound(s, name, 0);
    if f.Some? && f.value + |name| == |s| && n > |s| + 2 {
      EndReadsDiffer(s, name, n);
    } else {
      forall line: seq<Byte> | Shows(line, s, n) && ReadSafe(line, name)
        ensures Value(line, name) == Lookup(s, name)
      {
        ValueInString(line, s, name);
      }
    }
  }

  lemma ValueInString(line: seq<Byte>, s: seq<Byte>, name: seq<Byte>)
    requires Shows(line, s, |line|) && ReadSafe(line, name)
    requires var f := Find(s, name);
             f.Some? ==> f.value + |name| <= |s| && (f.value + |name| < |s| || |line| <= |s| + 2)
    ensures Value(line, name) == Lookup(s, name)
  {
    var f := Find(s, name);
    if f.Some? && f.value + |name| == |s| {
      ReadAtEnd(line, s, name);
    } else {
      ReadInside(line, s, name);
    }
  }

  /** A buffer of `n` bytes that holds `s`, one more byte, and NULs. */
  ghost function Followed(s: seq<Byte>, b: Byte, n: nat): seq<Byte>
    requires |s| + 2 < n
  {
    s + [0, b] + Zeros(n - |s| - 2)
  }

  lemma EndReadsDiffer(s: seq<Byte>, name: seq<Byte>, n: nat)
    requires 0 !in s && |s| + 2 < n
    requires Find(s, name).Some? && Find(s, name).value + |name| == |s|
    ensures !StringDecides(s, name, n)
  {
    var line, line' := Followed(s, 0, n), Followed(s, 1, n);
    FollowedReads(line, s, 0, name);
    FollowedReads(line', s, 1, name);
    assert Shows(line, s, n) && Shows(line', s, n);
    assert Value(line, name) != Value(line', name);
  }

  /** A name at the end of the string reads the byte after the NUL. */
  lemma FollowedReads(line: seq<Byte>, s: seq<Byte>, b: Byte, name: seq<Byte>)
    requires 0 !in s && b != COMMA && |s| + 2 < |line|
    requires line[0..|s|] == s && line[|s|] == 0 && line[|s| + 1] == b && line[|s| + 2] == 0
    requires Find(s, name).Some? && Find(s, name).value + |name| == |s|
    ensures Shows(line, s, |line|) && ReadSafe(line, name)
    ensures Value(line, name) == if b == 0 then [] else [b]
  {
    StringEndsAt(line, 0, |s|);
    ByteThenNul(line, |s| + 1);
    ReadAtEnd(line, s, name);
  }

  lemma ByteThenNul(line: seq<Byte>, p: nat)
    requires p + 1 < |line| && line[p + 1] == 0 && line[p] != COMMA
    ensures ValueFits(line, p)
    ensures Before(StringAt(line, p), COMMA) == if line[p] == 0 then [] else [line[p]]
  {
    assert StringAt(line, p + 1) == [];
  }

  /** For example with the string `a` in the line buffer and one more byte after its NUL,
      reading `a` returns that byte. */
  lemma NameAtEndReadsPastString(b: Byte)
    requires b != 0 && b != COMMA
    ensures var name := [0x61];
            var line := Followed(name, b, CMDLINE_SIZE);
            && Shows(line, name, CMDLINE_SIZE) && ReadSafe(line, name)
            && Value(line, name) == [b] != Lookup(name, name)
  {
    var name: seq<Byte> := [0x61];
    var line := Followed(name, b, CMDLINE_SIZE);
    assert OccursAt(name, name, 0) by { assert name[0..1] == name; }
    FollowedReads(line, name, b, name);
  }

  /** In a line stored with a NUL to spare, every read is safe exactly when its value fits,
      and returns what the string says. */
  lemma PaddedReads(line: seq<Byte>, s: seq<Byte>, n: nat, name: seq<Byte>)
    requires 0 !in s && |s| + 1 < n && Padded(s, n) <= line
    ensures ReadSafe(line, name) <==> |Lookup(s, name)| < VALUE_SIZE
    ensures ReadSafe(line, name) ==> Value(line, name) == Lookup(s, name)
  {
    PaddedString(line, s, n);
    FindSound(s, name, 0);
    var f := Find(s, name);
    if f.Some? && f.value + |name| == |s| {
      ReadAtEnd(line, s, name);
    } else {
      ReadInside(line, s, name);
    }
  }

  /** The line buffer holds the string with a NUL to spare. */
  ghost predicate Spared(line: seq<Byte>, s: seq<Byte>) {
    0 !in s && exists n: nat :: |s| + 1 < n && Padded(s, n) <= line
  }

  lemma PaddedString(line: seq<Byte>, s: seq<Byte>, n: nat)
    requires 0 !in s && |s| + 1 < n && Padded(s, n) <= line
    ensures Terminated(line, 0) && StringAt(line, 0) == s
    ensures Terminated(line, |s| + 1) && StringAt(line, |s| + 1) == []
  {
    var p := Padded(s, n);
    assert forall i :: 0 <= i < n ==> line[i] == p[i];
    assert line[0..|s|] == s && p[|s|] == 0 && p[|s| + 1] == 0;
    StringEndsAt(line, 0, |s|);
    StringEndsAt(line, |s| + 1, 0);
  }

  // ----- From the printed line to the value

  /** In a buffer holding a printed line, every name that no earlier name contains reads
      back its value. */
  lemma ReadUndoesPrint(line: seq<Byte>, ps: seq<Setting>, letters: set<Byte>, k: nat)
    requires WellSpelled(ps, letters) && k < |ps| && |ps[k].value| < VALUE_SIZE
    requires Terminated(line, 0) && StringAt(line, 0) == Print(ps)
    requires forall j :: 0 <= j < k ==> !Substring(ps[k].name, ps[j].name)
    ensures ReadSafe(line, ps[k].name) && Value(line, ps[k].name) == ps[k].value
  {
    LookupOwn(ps, letters, k);
    FoundInPlace(ps, letters, k);
    var _ := SettingInLine(ps, k);
    ReadInside(line, Print(ps), ps[k].name);
  }

  /** And a name that no name contains reads as the empty string. */
  lemma ReadAbsent(line: seq<Byte>, ps: seq<Setting>, letters: set<Byte>, name: seq<Byte>)
    requires WellSpelled(ps, letters) && IsName(name, letters)
    requires Terminated(line, 0) && StringAt(line, 0) == Print(ps)
    requires forall j :: 0 <= j < |ps| ==> !Substring(name, ps[j].name)
    ensures ReadSafe(line, name) && Value(line, name) == []
  {
    LookupAbsent(ps, letters, name);
    ReadInside(line, Print(ps), name);
  }
}
