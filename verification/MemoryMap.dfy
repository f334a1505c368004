/** The firmware memory map: the board's fixed entries, then one usable entry computed
    from what the boot environment reports. */
module MemoryMap {
  import opened Bytes
  import opened BootTags
  import opened BootTagTheory
  import opened BootEnvironment

  const MAP_SIZE := 32

  datatype MemoryType = Usable | BootLoader | BootStrap | Reserved

  datatype Entry = Entry(base: Word, length: Word, kind: MemoryType)

  /** The entries in use: those before the first of length zero. */
  function Live(es: seq<Entry>): (r: seq<Entry>)
    ensures |r| <= |es|
  {
    if es == [] || es[0].length == 0 then [] else [es[0]] + Live(es[1..])
  }

  lemma {:induction false} LiveIs(es: seq<Entry>, n: nat)
    requires n <= |es| && (forall i :: 0 <= i < n ==> es[i].length != 0) && (n < |es| ==> es[n].length == 0)
    ensures Live(es) == es[..n]
  {
    if n > 0 { LiveIs(es[1..], n - 1); }
  }

  lemma {:induction false} LiveAt(es: seq<Entry>, i: nat)
    requires i <= |Live(es)| && i < |es|
    ensures es[i].length == 0 <==> i == |Live(es)|
    ensures i < |Live(es)| ==> Live(es)[i] == es[i]
  {
    if i > 0 { LiveAt(es[1..], i - 1); }
  }

  ghost predicate Packed(es: seq<Entry>) {
    forall i :: |Live(es)| <= i < |es| ==> es[i].length == 0
  }

  ghost function Appended(live: seq<Entry>, e: Entry): seq<Entry> {
    if e.length == 0 then live else live + [e]
  }

  /** The entries in use after a run of allocations: a region of length zero is filled in
      but stays free. */
  ghost function InUse(es: seq<Entry>): seq<Entry>
    decreases |es|
  {
    if es == [] then [] else Appended(InUse(es[..|es| - 1]), es[|es| - 1])
  }

  ghost function Empties(es: seq<Entry>): nat
    decreases |es|
  {
    if es == [] then 0 else Empties(es[..|es| - 1]) + if es[|es| - 1].length == 0 then 1 else 0
  }

  /** The count of a run exceeds the entries in use by the zero-length regions in it. */
  lemma {:induction false} CountAgreesIff(es: seq<Entry>)
    ensures |InUse(es)| + Empties(es) == |es|
    ensures |InUse(es)| == |es| <==> forall e <- es :: e.length != 0
    decreases |es|
  {
    if es != [] {
      var n := |es| - 1;
      CountAgreesIff(es[..n]);
      assert es == es[..n] + [es[n]];
    }
  }

  class Map {
    const entries: array<Entry>
    var count: nat
    /** Every region ever added, in order. */
    ghost var history: seq<Entry>

    ghost predicate Valid()
      reads this, entries
    {
      && entries.Length == MAP_SIZE && Packed(entries[..])
      && count == |history| && Live(entries[..]) == InUse(history)
    }

    constructor ()
      ensures entries.Length == 32
      ensures Valid() && fresh(entries) && Live(entries[..]) == [] && count == 0 && history == []
    {
      entries := new Entry[MAP_SIZE](_ => Entry(0, 0, Usable));
      count := 0;
      history := [];
      new;
      LiveIs(entries[..], 0);
    }

    /** Scan for the first entry of length zero, fill it, and count it. */
    method Allocate(kind: MemoryType, base: Word, length: Word)
      requires Valid() && |Live(entries[..])| < MAP_SIZE
      modifies this`count, this`history, entries
      ensures Valid() && count == old(count) + 1
      ensures history == old(history) + [Entry(base, length, kind)]
      ensures Live(entries[..]) == Appended(old(Live(entries[..])), Entry(base, length, kind))
    {
      ghost var was, live := entries[..], Live(entries[..]);
      var i := 0;
      LiveAt(was, 0);
      while entries[i].length != 0
        invariant i <= |live| && (entries[i].length == 0 <==> i == |live|)
        invariant entries[..] == was && count == old(count) && history == old(history)
        decreases |live| - i
      {
        i := i + 1;
        LiveAt(was, i);
      }
      entries[i] := Entry(base, length, kind);
      count := count + 1;
      history := history + [Entry(base, length, kind)];
      FilledFirstFree(was, Entry(base, length, kind));
    }

    /** The board's table, up to its entry of length zero. */
    method AddTable(table: seq<Entry>)
      requires Valid() && |Live(entries[..])| + |Live(table)| <= MAP_SIZE && |Live(table)| < |table|
      modifies this`count, this`history, entries
      ensures Valid() && count == old(count) + |Live(table)|
      ensures history == old(history) + Live(table)
      ensures Live(entries[..]) == old(Live(entries[..])) + Live(table)
    {
      ghost var first, fixed, before := Live(entries[..]), Live(table), history;
      var i := 0;
      LiveAt(table, 0);
      while table[i].length != 0
        invariant i <= |fixed| && (table[i].length == 0 <==> i == |fixed|)
        invariant i < |fixed| ==> fixed[i] == table[i]
        invariant Valid() && count == old(count) + i
        invariant Live(entries[..]) == first + fixed[..i] && history == before + fixed[..i]
        decreases |fixed| - i
      {
        Allocate(table[i].kind, table[i].base, table[i].length);
        assert fixed[..i + 1] == fixed[..i] + [fixed[i]];
        i := i + 1;
        LiveAt(table, i);
      }
    }

    /** LlbHwBuildMemoryMap: the board's table, then the region above the RAM disk. */
    method Build(table: seq<Entry>, env: Environment)
      requires Valid() && |Live(entries[..])| + |Live(table)| < MAP_SIZE && |Live(table)| < |table|
      modifies this`count, this`history, entries
      ensures Valid() && count == old(count) + |Live(table)| + 1
      ensures history == old(history) + Live(table) + [UsableEntry(old(env.View()))]
      ensures Live(entries[..]) == Appended(old(Live(entries[..])) + Live(table), UsableEntry(old(env.View())))
      ensures old(Live(entries[..])) == [] ==> Live(entries[..]) == BuiltMap(table, old(env.View()))
    {
      var base, size := env.GetMemoryInformation();
      var _, fsBase, fsSize := env.GetRamDiskInformation();
      base := Wrap(fsBase as int + fsSize as int);
      size := Wrap(size as int - base as int);
      AddTable(table);
      Allocate(Usable, base, size);
    }

    /** After any run the count is the number of entries in use exactly when no region of
        length zero was ever added. */
    lemma CountAgrees()
      requires Valid()
      ensures count == |Live(entries[..])| + Empties(history)
      ensures count == |Live(entries[..])| <==> forall e <- history :: e.length != 0
    {
      CountAgreesIff(history);
    }
  }

  /** Filling the first free entry of a packed map. */
  lemma FilledFirstFree(es: seq<Entry>, e: Entry)
    requires Packed(es) && |Live(es)| < |es|
    ensures var es' := es[|Live(es)| := e];
            Packed(es') && Live(es') == Appended(Live(es), e)
  {
    var n := |Live(es)|;
    var es' := es[n := e];
    forall i | 0 <= i < n ensures es[i].length != 0 && Live(es)[i] == es[i] { LiveAt(es, i); }
    LiveIs(es', if e.length == 0 then n else n + 1);
  }

  // ----- The usable region

  const SPACE := 0x1_0000_0000

  function ReportedDiskEnd(e: Env): Word {
    if e.ramDiskSize == 0 then 0 else Wrap(e.ramDiskStart + e.ramDiskSize)
  }

  function UsableEntry(e: Env): Entry {
    Entry(ReportedDiskEnd(e), Wrap(e.memSize - ReportedDiskEnd(e)), Usable)
  }

  /** The region ends at the memory size, or 2^32 past it when the disk ends above it; so
      it ends at the top of memory exactly when memory starts at zero and the disk ends
      inside it. */
  lemma RegionReachesTop(e: Env)
    ensures var u, d := UsableEntry(e), ReportedDiskEnd(e);
            && u.base + u.length == e.memSize + (if d <= e.memSize then 0 else SPACE)
            && (u.base + u.length == e.memStart + e.memSize <==> e.memStart == 0 && d <= e.memSize)
  {
  }

  predicate Disjoint(a: nat, n: nat, b: nat, m: nat) {
    a + n <= b || b + m <= a || n == 0 || m == 0
  }

  /** The `n` bytes at `a` lie among the `m` bytes at `b`. */
  predicate Within(a: nat, n: nat, b: nat, m: nat) {
    n == 0 || (b <= a && a + n <= b + m)
  }

  /** What the region is for: addresses of memory, none past 2^32, clear of the disk of
      `size` bytes at `start`. */
  predicate Sound(e: Env, start: Word, size: Word) {
    var u := UsableEntry(e);
    && u.base + u.length <= SPACE
    && Within(u.base, u.length, e.memStart, e.memSize)
    && Disjoint(u.base, u.length, start, size)
  }

  /** The environment after a RAM disk tag. */
  function WithDisk(beagle: bool, e: Env, start: Word, size: Word): Env {
    e.(ramDiskStart := RamDiskStart(beagle, start), ramDiskSize := RamDiskSize(beagle, size))
  }

  /** Where the region starts, from the numbers in the tag: at zero for a disk reported
      absent, else at the end of the disk or, on the Beagle, of its 16MB blocks. */
  function DiskEnd(beagle: bool, start: Word, size: Word): Word {
    if beagle then (if 1 <= size <= MB16 then 0 else Wrap(start + RoundUp16MB(size)))
    else (if size == 0 then 0 else Wrap(start + size))
  }

  lemma RegionStart(beagle: bool, e: Env, start: Word, size: Word)
    ensures ReportedDiskEnd(WithDisk(beagle, e, start, size)) == DiskEnd(beagle, start, size)
  {
    if beagle { BeagleRamDisk(start, size); }
  }

  /** Soundness from the end of the disk as reported. */
  lemma SoundFrom(e: Env, start: Word, size: Word)
    ensures var d := ReportedDiskEnd(e);
            Sound(e, start, size)
            <==> (|| d == e.memSize
                  || (e.memStart <= d < e.memSize && (size == 0 || e.memSize <= start || start + size <= d)))
  {
    RegionReachesTop(e);
  }

  /** Without the Beagle adjustment, over all words: the region is sound exactly when it is
      empty, or it starts in memory and below the memory size and the disk is empty, lies
      above the region, or does not run past 2^32. */
  lemma RegionAvoidsDisk(e: Env, start: Word, size: Word)
    ensures var f, d := WithDisk(false, e, start, size), DiskEnd(false, start, size);
            Sound(f, start, size)
            <==> (|| d == e.memSize
                  || (e.memStart <= d < e.memSize && (size == 0 || e.memSize <= start || start + size < SPACE)))
  {
    SoundFrom(WithDisk(false, e, start, size), start, size);
    WrapSum(start, size);
  }

  /** With the adjustment the disk must moreover be larger than 16MB, or it is reported
      absent, and at most 2^32 - 16MB, or its rounded size is zero. */
  lemma BeagleRegionAvoidsDisk(e: Env, start: Word, size: Word)
    ensures var f, d := WithDisk(true, e, start, size), DiskEnd(true, start, size);
            Sound(f, start, size)
            <==> (|| d == e.memSize
                  || (e.memStart <= d < e.memSize
                      && (|| size == 0
                          || e.memSize <= start
                          || (MB16 < size <= SPACE - MB16 && start + RoundUp16MB(size) < SPACE))))
  {
    RegionStart(true, e, start, size);
    SoundFrom(WithDisk(true, e, start, size), start, size);
    RoundUpBound(size);
    WrapSum(start, RoundUp16MB(size));
  }

  lemma RoundUpBound(size: Word)
    ensures if size <= SPACE - MB16 then RoundUp16MB(size) >= size else RoundUp16MB(size) == 0
  {
    RoundUpIsLeastMultiple16MB(size);
  }

  lemma WrapSum(a: Word, b: Word)
    ensures Wrap(a + b) == if a + b < SPACE then a + b else a + b - SPACE
  {
  }

  /** The region starts at the end of the disk or above. */
  predicate StartsAbove(beagle: bool, start: Word, size: Word) {
    if beagle then MB16 < size <= SPACE - MB16 && start + RoundUp16MB(size) < SPACE
    else start + size < SPACE
  }

  /** The condition on both boards, in the numbers of the tags. */
  predicate SoundPlacement(beagle: bool, memStart: Word, memSize: Word, start: Word, size: Word) {
    var d := DiskEnd(beagle, start, size);
    || d == memSize
    || (memStart <= d < memSize && (size == 0 || memSize <= start || StartsAbove(beagle, start, size)))
  }

  lemma RegionSoundIff(beagle: bool, e: Env, start: Word, size: Word)
    ensures Sound(WithDisk(beagle, e, start, size), start, size)
       <==> SoundPlacement(beagle, e.memStart, e.memSize, start, size)
  {
    if beagle {
      BeagleRegionAvoidsDisk(e, start, size);
    } else {
      RegionAvoidsDisk(e, start, size);
    }
  }

  /** Where memory starts at zero and holds the disk, with its 16MB blocks on the Beagle,
      the region is sound exactly when there is no adjustment or the disk exceeds 16MB. */
  lemma LowMemoryRegion(beagle: bool, e: Env, start: Word, size: Word)
    requires e.memStart == 0 && 1 <= size && start + size <= e.memSize
    requires beagle ==> size <= SPACE - MB16 && start + RoundUp16MB(size) <= e.memSize
    ensures Sound(WithDisk(beagle, e, start, size), start, size) <==> !beagle || size > MB16
  {
    RegionSoundIff(beagle, e, start, size);
  }

  /** Where memory starts at or above its size, as on the OMAP3 boards, no region is sound
      but the empty one. */
  lemma HighMemoryHasNoRegion(beagle: bool, e: Env, start: Word, size: Word)
    requires e.memStart >= e.memSize
    ensures var f := WithDisk(beagle, e, start, size);
            Sound(f, start, size) <==> UsableEntry(f).length == 0
  {
    RegionSoundIff(beagle, e, start, size);
    RegionStart(beagle, e, start, size);
  }

  /** For example a 32MB disk at 0x82000000 in 128MB of memory at 0x80000000, on either
      board: the region runs past 2^32. */
  lemma HighDiskWraps(beagle: bool, e: Env, start: Word, size: Word)
    requires e.memStart == 0x8000_0000 && e.memSize == 0x0800_0000
    requires start == 0x8200_0000 && size == 0x0200_0000
    ensures var f := WithDisk(beagle, e, start, size);
            UsableEntry(f) == Entry(0x8400_0000, 0x8400_0000, Usable) && !Sound(f, start, size)
  {
    RegionStart(beagle, e, start, size);
    TwoBlocks(size);
    HighMemoryHasNoRegion(beagle, e, start, size);
  }

  lemma TwoBlocks(size: Word)
    requires size == 2 * MB16
    ensures RoundUp16MB(size) == size
  {
    RoundUpExact(size);
  }

  /** And a 16MB disk at 24MB of a 128MB Beagle lies inside the region. */
  lemma SmallDiskOverlaps(e: Env, start: Word, size: Word)
    requires e.memSize == 0x0800_0000 && start == 0x0180_0000 && size == MB16
    ensures var u := UsableEntry(WithDisk(true, e, start, size));
            u.base == 0 && u.length == e.memSize && !Disjoint(u.base, u.length, start, size)
  {
    RegionStart(true, e, start, size);
  }

  // ----- The whole map

  /** No entry runs past 2^32 and no two share an address. */
  ghost predicate Clean(es: seq<Entry>) {
    && (forall i :: 0 <= i < |es| ==> es[i].base + es[i].length <= SPACE)
    && (forall i, j :: 0 <= i < j < |es| ==> Apart(es[i], es[j]))
  }

  predicate Apart(a: Entry, b: Entry) {
    Disjoint(a.base, a.length, b.base, b.length)
  }

  const VERSATILE: seq<Entry> := [
    Entry(0x0000_0000, 0x0000_0100, Reserved),
    Entry(0x0000_0100, 0x0000_0100, BootStrap),
    Entry(0x0000_0200, 0x0000_FE00, BootStrap),
    Entry(0x0001_0000, 0x0001_0000, BootStrap),
    Entry(0x0002_0000, 0x0008_0000, BootLoader),
    Entry(0x000A_0000, 0x000A_0000, BootLoader),
    Entry(0x0014_0000, 0x016C_0000, Usable),
    Entry(0x0180_0000, 0x0200_0000, Reserved),
    Entry(0x1000_0000, 0x1000_0000, Reserved),
    Entry(0, 0, Usable)]

  /** What `Build` leaves of a fresh map. */
  ghost function BuiltMap(table: seq<Entry>, e: Env): seq<Entry> {
    Appended(Live(table), UsableEntry(e))
  }

  lemma {:induction false} AppendedClean(es: seq<Entry>, u: Entry)
    requires Clean(es)
    ensures Clean(Appended(es, u))
       <==> u.length == 0 || (u.base + u.length <= SPACE && forall i :: 0 <= i < |es| ==> Apart(es[i], u))
  {
    if u.length != 0 {
      var r := es + [u];
      assert r[|es|] == u && r[..|es|] == es;
      if Clean(r) {
        forall i | 0 <= i < |es| ensures Apart(es[i], u) { assert Apart(r[i], r[|es|]); }
      }
    }
  }

  lemma VersatileLive()
    ensures Live(VERSATILE) == VERSATILE[..9] && Clean(Live(VERSATILE))
  {
    LiveIs(VERSATILE, 9);
    TableIsClean(VERSATILE[..9]);
  }

  predicate Covers(e: Entry, x: nat) {
    e.base <= x < e.base + e.length
  }

  /** The table accounts for 0 to 56MB and 256 to 512MB; of these 1.25MB to 24MB is usable. */
  lemma TableCovers(x: Word)
    ensures (exists i :: 0 <= i < 9 && Covers(VERSATILE[i], x)) <==> x < 0x0380_0000 || 0x1000_0000 <= x < 0x2000_0000
    ensures (exists i :: 0 <= i < 9 && Covers(VERSATILE[i], x) && VERSATILE[i].kind == Usable)
       <==> 0x0014_0000 <= x < 0x0180_0000
  {
    assert (exists i :: 0 <= i < 9 && Covers(VERSATILE[i], x))
      <==> (|| Covers(VERSATILE[0], x) || Covers(VERSATILE[1], x) || Covers(VERSATILE[2], x)
            || Covers(VERSATILE[3], x) || Covers(VERSATILE[4], x) || Covers(VERSATILE[5], x)
            || Covers(VERSATILE[6], x) || Covers(VERSATILE[7], x) || Covers(VERSATILE[8], x));
    assert Covers(VERSATILE[6], x) <==> 0x0014_0000 <= x < 0x0180_0000;
  }

  lemma TableIsClean(es: seq<Entry>)
    requires es == VERSATILE[..9]
    ensures Clean(es)
  {
    forall i, j | 0 <= i < j < 9 ensures Apart(es[i], es[j]) {
      TableAscends(i, j);
    }
  }

  lemma {:induction false} TableAscends(i: nat, j: nat)
    requires i < j < 9
    ensures VERSATILE[i].base + VERSATILE[i].length <= VERSATILE[j].base
    decreases j
  {
    if i < j - 1 { TableAscends(i, j - 1); }
  }

  /** The region stays clear of the versatile table, which covers 0 to 56MB and 256 to
      512MB. */
  lemma ApartFromTable(u: Entry)
    requires u.length > 0
    ensures (forall i :: 0 <= i < |Live(VERSATILE)| ==> Apart(Live(VERSATILE)[i], u))
       <==> ClearOfTable(u)
  {
    VersatileLive();
    if ClearOfTable(u) {
      forall i | 0 <= i < 9 ensures Apart(Live(VERSATILE)[i], u) { ClearOfEntry(u, i); }
    } else if forall i :: 0 <= i < 9 ==> Apart(Live(VERSATILE)[i], u) {
      forall i | 0 <= i < 9 ensures Apart(VERSATILE[i], u) { assert Live(VERSATILE)[i] == VERSATILE[i]; }
      ApartFromAll(u);
    }
  }

  lemma ClearOfEntry(u: Entry, i: nat)
    requires u.length > 0 && ClearOfTable(u) && i < 9
    ensures Apart(VERSATILE[i], u)
  {
  }

  lemma ApartFromAll(u: Entry)
    requires u.length > 0 && forall i :: 0 <= i < 9 ==> Apart(VERSATILE[i], u)
    ensures ClearOfTable(u)
  {
    assert Apart(VERSATILE[0], u) && Apart(VERSATILE[1], u) && Apart(VERSATILE[2], u);
    assert Apart(VERSATILE[3], u) && Apart(VERSATILE[4], u) && Apart(VERSATILE[5], u);
    assert Apart(VERSATILE[6], u) && Apart(VERSATILE[7], u) && Apart(VERSATILE[8], u);
  }

  lemma CleanWithTable(u: Entry)
    ensures Clean(Appended(Live(VERSATILE), u))
       <==> u.length == 0 || (u.base + u.length <= SPACE && ClearOfTable(u))
  {
    VersatileLive();
    AppendedClean(Live(VERSATILE), u);
    if u.length > 0 {
      ApartFromTable(u);
    }
  }

  predicate ClearOfTable(u: Entry) {
    u.base >= 0x2000_0000 || (0x0380_0000 <= u.base && u.base + u.length <= 0x1000_0000)
  }

  /** The region from `d` to `m` is empty, or lies between the table's two areas, or above
      both without passing 2^32. */
  predicate VersatilePlacement(d: Word, m: Word) {
    || d == m
    || (0x0380_0000 <= d < m <= 0x1000_0000)
    || (d >= 0x2000_0000 && (d < m || m == 0))
  }

  /** The entries of the versatile map share no address, and none passes 2^32, exactly for
      these ends of disk and memory. */
  lemma VersatileMapCleanIff(e: Env)
    ensures Clean(BuiltMap(VERSATILE, e)) <==> VersatilePlacement(ReportedDiskEnd(e), e.memSize)
  {
    CleanWithTable(UsableEntry(e));
    RegionReachesTop(e);
  }

  /** With no disk the region starts at zero, on top of the table's first entry. */
  lemma NoDiskOverlapsTable(e: Env)
    requires e.ramDiskSize == 0 && e.memSize > 0
    ensures UsableEntry(e) == Entry(0, e.memSize, Usable) && !Apart(VERSATILE[0], UsableEntry(e))
  {
  }
}
