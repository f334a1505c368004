/** Reading `name=value` settings from a comma-separated command line, and the printer
    such a line comes from. */
module CommandLine {
  import opened Bytes
  import opened CStrings
  import opened Wrappers

  const COMMA: Byte := 0x2C
  const EQUALS: Byte := 0x3D

  // ----- What LlbEnvRead looks up

  /** The value text of `name` in the string `s`: after the first occurrence of the name
      and one more byte, up to the next comma. */
  function Lookup(s: seq<Byte>, name: seq<Byte>): seq<Byte> {
    match Find(s, name)
    case None => []
    case Some(i) => TextFrom(s, i + |name| + 1)
  }

  function TextFrom(s: seq<Byte>, v: nat): seq<Byte> {
    if v <= |s| then Before(s[v..], COMMA) else []
  }

  // ----- The printer

  datatype Setting = Setting(name: seq<Byte>, value: seq<Byte>)

  function PrintOne(p: Setting): seq<Byte> {
    p.name + [EQUALS] + p.value
  }

  function Print(ps: seq<Setting>): seq<Byte> {
    if ps == [] then []
    else PrintOne(ps[0]) + if |ps| == 1 then [] else [COMMA] + Print(ps[1..])
  }

  /** Where setting `k` starts in the line. */
  function Offset(ps: seq<Setting>, k: nat): nat
    requires k < |ps|
  {
    if k == 0 then 0 else |PrintOne(ps[0])| + 1 + Offset(ps[1..], k - 1)
  }

  ghost predicate IsName(w: seq<Byte>, letters: set<Byte>) {
    w != [] && forall i :: 0 <= i < |w| ==> w[i] in letters
  }

  ghost predicate IsValue(v: seq<Byte>, letters: set<Byte>) {
    forall i :: 0 <= i < |v| ==> v[i] !in letters && v[i] != COMMA && v[i] != 0
  }

  /** Names are spelled with `letters`; values and separators are not. */
  ghost predicate WellSpelled(ps: seq<Setting>, letters: set<Byte>) {
    && letters !! {EQUALS, COMMA, 0}
    && forall k :: 0 <= k < |ps| ==> IsName(ps[k].name, letters) && IsValue(ps[k].value, letters)
  }

  ghost predicate Substring(w: seq<Byte>, s: seq<Byte>) {
    exists i: nat :: OccursAt(s, w, i)
  }

  // ----- Where names occur in a printed line

  lemma {:induction false} SuffixFromSetting(ps: seq<Setting>, k: nat)
    requires k < |ps|
    ensures Offset(ps, k) + |PrintOne(ps[k])| <= |Print(ps)|
    ensures Print(ps)[Offset(ps, k)..] == Print(ps[k..])
    decreases k
  {
    if k == 0 {
      assert ps[0..] == ps;
    } else {
      var tail := ps[1..];
      SuffixFromSetting(tail, k - 1);
      var head := PrintOne(ps[0]) + [COMMA];
      assert Print(ps) == head + Print(tail);
      assert tail[k - 1..] == ps[k..];
      assert (head + Print(tail))[|head| + Offset(tail, k - 1)..] == Print(tail)[Offset(tail, k - 1)..];
    }
  }

  lemma {:induction false} OffsetsIncrease(ps: seq<Setting>, j: nat, k: nat)
    requires j < k < |ps|
    ensures Offset(ps, j) + |PrintOne(ps[j])| < Offset(ps, k)
    decreases k
  {
    if j > 0 { OffsetsIncrease(ps[1..], j - 1, k - 1); }
  }

  /** A word that avoids the byte `c` does not straddle it. */
  lemma OccursBesides(a: seq<Byte>, c: Byte, b: seq<Byte>, w: seq<Byte>, q: nat)
    requires OccursAt(a + [c] + b, w, q) && c !in w && w != []
    ensures (q + |w| <= |a| && OccursAt(a, w, q)) || (q > |a| && OccursAt(b, w, q - |a| - 1))
  {
    var s := a + [c] + b;
    OccursBytes(s, w, q);
    assert forall k :: 0 <= k < |w| ==> w[k] in w;
    if q + |w| <= |a| {
      OccursBytes(a, w, q);
    } else {
      assert s[|a|] == c && q > |a|;
      OccursBytes(b, w, q - |a| - 1);
    }
  }

  lemma OccursInSetting(p: Setting, w: seq<Byte>, letters: set<Byte>, q: nat)
    requires letters !! {EQUALS, COMMA, 0} && IsName(w, letters) && IsValue(p.value, letters)
    requires OccursAt(PrintOne(p), w, q)
    ensures OccursAt(p.name, w, q)
  {
    assert EQUALS !in w;
    OccursBesides(p.name, EQUALS, p.value, w, q);
    if q > |p.name| {
      OccursBytes(p.value, w, q - |p.name| - 1);
    }
  }

  /** Every occurrence of a name in a printed line lies inside one of its names. */
  lemma {:induction false} OccursInNames(ps: seq<Setting>, letters: set<Byte>, w: seq<Byte>, q: nat)
    returns (j: nat)
    requires WellSpelled(ps, letters) && IsName(w, letters) && OccursAt(Print(ps), w, q)
    ensures j < |ps| && Offset(ps, j) <= q && OccursAt(ps[j].name, w, q - Offset(ps, j))
    decreases |ps|
  {
    var n := |PrintOne(ps[0])|;
    OccursInFirstOrRest(ps, letters, w, q);
    if OccursAt(PrintOne(ps[0]), w, q) {
      OccursInSetting(ps[0], w, letters, q);
      j := 0;
    } else {
      var j' := OccursInNames(ps[1..], letters, w, q - n - 1);
      j := j' + 1;
    }
  }

  lemma OccursInFirstOrRest(ps: seq<Setting>, letters: set<Byte>, w: seq<Byte>, q: nat)
    requires letters !! {EQUALS, COMMA, 0} && IsName(w, letters) && OccursAt(Print(ps), w, q)
    ensures ps != []
    ensures OccursAt(PrintOne(ps[0]), w, q)
         || (|ps| > 1 && q > |PrintOne(ps[0])| && OccursAt(Print(ps[1..]), w, q - |PrintOne(ps[0])| - 1))
  {
    if |ps| == 1 {
      assert Print(ps) == PrintOne(ps[0]);
    } else {
      assert Print(ps) == PrintOne(ps[0]) + [COMMA] + Print(ps[1..]);
      assert COMMA !in w;
      OccursBesides(PrintOne(ps[0]), COMMA, Print(ps[1..]), w, q);
    }
  }

  /** And every occurrence inside a name is one in the line. */
  lemma OccursInLine(ps: seq<Setting>, w: seq<Byte>, j: nat, i: nat)
    requires j < |ps| && OccursAt(ps[j].name, w, i)
    ensures OccursAt(Print(ps), w, Offset(ps, j) + i)
  {
    var _ := SettingInLine(ps, j);
    OccursInSlice(Print(ps), Offset(ps, j), ps[j].name, w, i);
  }

  /** The bytes of setting `k` in the line, and what follows them. */
  lemma SettingInLine(ps: seq<Setting>, k: nat) returns (rest: seq<Byte>)
    requires k < |ps|
    ensures var line, o, n := Print(ps), Offset(ps, k), |ps[k].name|;
            && o + n < |line| && line[o..o + n] == ps[k].name && line[o + n] == EQUALS
            && line[o + n + 1..] == ps[k].value + rest
    ensures rest == [] || rest[0] == COMMA
  {
    SuffixFromSetting(ps, k);
    rest := FirstSetting(ps[k..]);
    SplitAt(Print(ps), Offset(ps, k), ps[k].name, ps[k].value + rest);
  }

  lemma FirstSetting(ps: seq<Setting>) returns (rest: seq<Byte>)
    requires ps != []
    ensures Print(ps) == ps[0].name + ([EQUALS] + (ps[0].value + rest))
    ensures rest == [] || rest[0] == COMMA
  {
    rest := if |ps| == 1 then [] else [COMMA] + Print(ps[1..]);
  }

  lemma SplitAt(line: seq<Byte>, o: nat, name: seq<Byte>, tail: seq<Byte>)
    requires o <= |line| && line[o..] == name + ([EQUALS] + tail)
    ensures o + |name| < |line| && line[o..o + |name|] == name && line[o + |name|] == EQUALS
    ensures line[o + |name| + 1..] == tail
  {
  }

  // ----- The reader against the printer

  /** The first occurrence of a printed name is its own setting exactly when no earlier
      name contains it. */
  lemma FoundAtOwnSetting(ps: seq<Setting>, letters: set<Byte>, k: nat)
    requires WellSpelled(ps, letters) && k < |ps|
    ensures Find(Print(ps), ps[k].name) == Some(Offset(ps, k))
       <==> forall j :: 0 <= j < k ==> !Substring(ps[k].name, ps[j].name)
  {
    if j :| 0 <= j < k && Substring(ps[k].name, ps[j].name) {
      FoundEarlier(ps, k, j);
    } else {
      FoundInPlace(ps, letters, k);
    }
  }

  lemma FoundEarlier(ps: seq<Setting>, k: nat, j: nat)
    requires j < k < |ps| && Substring(ps[k].name, ps[j].name)
    ensures Find(Print(ps), ps[k].name).Some? && Find(Print(ps), ps[k].name).value < Offset(ps, k)
  {
    var i: nat :| OccursAt(ps[j].name, ps[k].name, i);
    OccursInLine(ps, ps[k].name, j, i);
    OffsetsIncrease(ps, j, k);
    FindSound(Print(ps), ps[k].name, 0);
  }

  lemma FoundInPlace(ps: seq<Setting>, letters: set<Byte>, k: nat)
    requires WellSpelled(ps, letters) && k < |ps|
    requires forall j :: 0 <= j < k ==> !Substring(ps[k].name, ps[j].name)
    ensures Find(Print(ps), ps[k].name) == Some(Offset(ps, k))
  {
    var line, name, o := Print(ps), ps[k].name, Offset(ps, k);
    assert OccursAt(name, name, 0) by { assert name[0..|name|] == name; }
    OccursInLine(ps, name, k, 0);
    forall q: nat | q < o && OccursAt(line, name, q) ensures false {
      var _ := EarlierOccurrence(ps, letters, k, q);
    }
    FindIs(line, name, o);
  }

  /** An occurrence before the setting itself lies in an earlier name. */
  lemma EarlierOccurrence(ps: seq<Setting>, letters: set<Byte>, k: nat, q: nat) returns (j: nat)
    requires WellSpelled(ps, letters) && k < |ps|
    requires q < Offset(ps, k) && OccursAt(Print(ps), ps[k].name, q)
    ensures j < k && Offset(ps, j) <= q && OccursAt(ps[j].name, ps[k].name, q - Offset(ps, j))
    ensures Substring(ps[k].name, ps[j].name)
  {
    j := OccursInNames(ps, letters, ps[k].name, q);
    if k < j { OffsetsIncrease(ps, k, j); }
  }

  lemma BeforeComma(v: seq<Byte>, rest: seq<Byte>)
    requires COMMA !in v && (rest == [] || rest[0] == COMMA)
    ensures Before(v + rest, COMMA) == v
  {
    var s := v + rest;
    assert s[..|v|] == v;
    BeforeIs(s, COMMA, |v|);
  }

  /** A name that no earlier name contains reads back its own value. */
  lemma LookupOwn(ps: seq<Setting>, letters: set<Byte>, k: nat)
    requires WellSpelled(ps, letters) && k < |ps|
    requires forall j :: 0 <= j < k ==> !Substring(ps[k].name, ps[j].name)
    ensures Lookup(Print(ps), ps[k].name) == ps[k].value
  {
    FoundInPlace(ps, letters, k);
    NoCommas(ps, letters, k);
    LookupInPlace(ps, k);
  }

  lemma LookupInPlace(ps: seq<Setting>, k: nat)
    requires k < |ps| && COMMA !in ps[k].value
    requires Find(Print(ps), ps[k].name) == Some(Offset(ps, k))
    ensures Lookup(Print(ps), ps[k].name) == ps[k].value
  {
    var rest := SettingInLine(ps, k);
    LookupAt(Print(ps), ps[k].name, Offset(ps, k), ps[k].value, rest);
  }

  lemma LookupAt(line: seq<Byte>, name: seq<Byte>, o: nat, v: seq<Byte>, rest: seq<Byte>)
    requires Find(line, name) == Some(o) && o + |name| + 1 <= |line|
    requires line[o + |name| + 1..] == v + rest
    requires COMMA !in v && (rest == [] || rest[0] == COMMA)
    ensures Lookup(line, name) == v
  {
    BeforeComma(v, rest);
  }

  lemma NoCommas(ps: seq<Setting>, letters: set<Byte>, k: nat)
    requires WellSpelled(ps, letters) && k < |ps|
    ensures COMMA !in ps[k].name && COMMA !in ps[k].value
  {
  }

  /** A name that no name contains is absent. */
  lemma LookupAbsent(ps: seq<Setting>, letters: set<Byte>, w: seq<Byte>)
    requires WellSpelled(ps, letters) && IsName(w, letters)
    requires forall j :: 0 <= j < |ps| ==> !Substring(w, ps[j].name)
    ensures Find(Print(ps), w) == None && Lookup(Print(ps), w) == []
  {
    FindSound(Print(ps), w, 0);
    if Find(Print(ps), w).Some? {
      var j := OccursInNames(ps, letters, w, Find(Print(ps), w).value);
    }
  }

  ghost predicate Named(ps: seq<Setting>, names: seq<seq<Byte>>) {
    |ps| == |names| && forall i :: 0 <= i < |ps| ==> ps[i].name == names[i]
  }

  /** Name `k` reads back its value, whatever the values are. */
  ghost predicate ReadsBack(names: seq<seq<Byte>>, letters: set<Byte>, k: nat)
    requires k < |names|
  {
    forall ps: seq<Setting> :: Named(ps, names) && WellSpelled(ps, letters)
                               ==> Lookup(Print(ps), names[k]) == ps[k].value
  }

  /** The reader undoes the printer for a name exactly when no earlier name contains it. */
  lemma ReadsBackIff(names: seq<seq<Byte>>, letters: set<Byte>, k: nat)
    requires letters !! {EQUALS, COMMA, 0} && k < |names|
    requires forall i :: 0 <= i < |names| ==> IsName(names[i], letters)
    ensures ReadsBack(names, letters, k) <==> forall j :: 0 <= j < k ==> !Substring(names[k], names[j])
  {
    if j :| 0 <= j < k && Substring(names[k], names[j]) {
      var ps := seq(|names|, i requires 0 <= i < |names| => Setting(names[i], if i == k then [] else [EQUALS]));
      assert WellSpelled(ps, letters) && Named(ps, names);
      ReadsWrongValue(ps, letters, k, j);
    } else {
      forall ps: seq<Setting> | Named(ps, names) && WellSpelled(ps, letters)
        ensures Lookup(Print(ps), names[k]) == ps[k].value
      {
        LookupOwn(ps, letters, k);
      }
    }
  }

  /** A name found inside an earlier name reads text of that earlier setting. */
  lemma ReadsWrongValue(ps: seq<Setting>, letters: set<Byte>, k: nat, j: nat)
    requires WellSpelled(ps, letters) && j < k < |ps| && Substring(ps[k].name, ps[j].name)
    requires forall i :: 0 <= i < k ==> ps[i].value != []
    ensures Lookup(Print(ps), ps[k].name) != []
  {
    var line, name := Print(ps), ps[k].name;
    FoundEarlier(ps, k, j);
    FindSound(line, name, 0);
    var q := Find(line, name).value;
    var j' := EarlierOccurrence(ps, letters, k, q);
    var a := q + |name| + 1;
    NoCommas(ps, letters, j');
    NotAComma(ps, j', a);
    assert line[a..][0] == line[a];
  }

  /** No comma between the start of a setting and the first byte of its value. */
  lemma NotAComma(ps: seq<Setting>, j: nat, a: nat)
    requires j < |ps| && ps[j].value != [] && COMMA !in ps[j].name && COMMA !in ps[j].value
    requires Offset(ps, j) <= a <= Offset(ps, j) + |ps[j].name| + 1
    ensures a < |Print(ps)| && Print(ps)[a] != COMMA
  {
    var rest := SettingInLine(ps, j);
    CommaFree(Print(ps), Offset(ps, j), ps[j].name, ps[j].value, rest, a);
  }

  lemma CommaFree(line: seq<Byte>, o: nat, name: seq<Byte>, value: seq<Byte>, rest: seq<Byte>, a: nat)
    requires o + |name| < |line| && line[o..o + |name|] == name && line[o + |name|] == EQUALS
    requires line[o + |name| + 1..] == value + rest
    requires value != [] && COMMA !in name && COMMA !in value && o <= a <= o + |name| + 1
    ensures a < |line| && line[a] != COMMA
  {
  }

  /** For example `a` in the line `xa=1,a=2` reads the value of `xa`. */
  lemma ContainedNameReadsEarlierValue()
    ensures var ps := [Setting([0x78, 0x61], [0x31]), Setting([0x61], [0x32])];
            && Print(ps) == [0x78, 0x61, 0x3D, 0x31, 0x2C, 0x61, 0x3D, 0x32]
            && Lookup(Print(ps), ps[1].name) == ps[0].value != ps[1].value
  {
    var ps := [Setting([0x78, 0x61], [0x31]), Setting([0x61], [0x32])];
    var line, name := [0x78, 0x61, EQUALS, 0x31, COMMA, 0x61, EQUALS, 0x32], ps[1].name;
    assert Print(ps[1..]) == [0x61, EQUALS, 0x32];
    assert Print(ps) == line;
    assert !OccursAt(line, name, 0) by { OccursBytes(line, name, 0); }
    assert OccursAt(line, name, 1) by { assert line[1..2] == [0x61]; }
    FindIs(line, name, 1);
    BeforeComma([0x31], line[4..]);
    assert line[3..] == [0x31] + line[4..];
    LookupAt(line, name, 1, [0x31], line[4..]);
  }
}
