/** NUL-terminated strings in byte memory, and the C library routines the boot
    environment is built from. */
module CStrings {
  import opened Bytes
  import opened Wrappers

  // ----- The string at an address

  /** The bytes from `p` up to the first NUL (or the end of memory). */
  function StringAt(m: seq<Byte>, p: nat): (s: seq<Byte>)
    requires p <= |m|
    ensures p + |s| <= |m|
    decreases |m| - p
  {
    if p == |m| || m[p] == 0 then [] else [m[p]] + StringAt(m, p + 1)
  }

  predicate Terminated(m: seq<Byte>, p: nat) {
    p <= |m| && p + |StringAt(m, p)| < |m|
  }

  lemma {:induction false} StringIsSlice(m: seq<Byte>, p: nat)
    requires p <= |m|
    ensures var s := StringAt(m, p);
            && s == m[p..p + |s|] && 0 !in s
            && (p + |s| == |m| || m[p + |s|] == 0)
    decreases |m| - p
  {
    if p < |m| && m[p] != 0 { StringIsSlice(m, p + 1); }
  }

  /** The first NUL fixes the string. */
  lemma {:induction false} StringEndsAt(m: seq<Byte>, p: nat, n: nat)
    requires p + n < |m| && m[p + n] == 0 && 0 !in m[p..p + n]
    ensures StringAt(m, p) == m[p..p + n] && Terminated(m, p)
    decreases n
  {
    if n > 0 {
      assert m[p] == m[p..p + n][0] && m[p + 1..p + n] == m[p..p + n][1..];
      StringEndsAt(m, p + 1, n - 1);
    }
  }

  lemma StringIs(m: seq<Byte>, s: seq<Byte>)
    requires |s| < |m| && m[0..|s|] == s && m[|s|] == 0 && 0 !in s
    ensures StringAt(m, 0) == s && Terminated(m, 0)
  {
    StringEndsAt(m, 0, |s|);
  }

  /** Reading inside the string, or its terminator. */
  lemma {:induction false} CharAt(m: seq<Byte>, p: nat, i: nat)
    requires Terminated(m, p) && i <= |StringAt(m, p)|
    ensures p + i < |m|
    ensures m[p + i] == 0 <==> i == |StringAt(m, p)|
    ensures i < |StringAt(m, p)| ==> m[p + i] == StringAt(m, p)[i]
    decreases i
  {
    if i > 0 { CharAt(m, p + 1, i - 1); }
  }

  lemma {:induction false} StringAtLeast(m: seq<Byte>, p: nat, k: nat)
    requires p + k <= |m| && 0 !in m[p..p + k]
    ensures m[p..p + k] <= StringAt(m, p)
    decreases k
  {
    if k > 0 {
      assert m[p] == m[p..p + k][0] && m[p + 1..p + k] == m[p..p + k][1..];
      StringAtLeast(m, p + 1, k - 1);
    }
  }

  /** A string that fills `c` ends there if a NUL follows, and runs on if not. */
  lemma StringPast(m: seq<Byte>, p: nat, c: seq<Byte>)
    requires p + |c| < |m| && m[p..p + |c|] == c && 0 !in c
    ensures if m[p + |c|] == 0 then StringAt(m, p) == c else c + [m[p + |c|]] <= StringAt(m, p)
  {
    if m[p + |c|] == 0 {
      StringEndsAt(m, p, |c|);
    } else {
      assert m[p..p + |c| + 1] == c + [m[p + |c|]];
      StringAtLeast(m, p, |c| + 1);
    }
  }

  /** A terminated string reads the same inside a larger memory. */
  lemma StringInSlice(m: seq<Byte>, p: nat, c: seq<Byte>)
    requires p + |c| <= |m| && m[p..p + |c|] == c && Terminated(c, 0)
    ensures Terminated(m, p) && StringAt(m, p) == StringAt(c, 0)
  {
    StringIsSlice(c, 0);
    var n := |StringAt(c, 0)|;
    assert m[p + n] == c[n] && m[p..p + n] == c[..n];
    StringEndsAt(m, p, n);
  }

  // ----- Occurrences

  predicate OccursAt(s: seq<Byte>, w: seq<Byte>, i: nat) {
    i + |w| <= |s| && s[i..i + |w|] == w
  }

  lemma OccursBytes(s: seq<Byte>, w: seq<Byte>, i: nat)
    ensures OccursAt(s, w, i) <==> i + |w| <= |s| && forall k :: 0 <= k < |w| ==> s[i + k] == w[k]
    ensures OccursAt(s, w, i) && w != [] ==> s[i] == w[0]
  {
  }

  lemma OccursInSlice(s: seq<Byte>, a: nat, c: seq<Byte>, w: seq<Byte>, i: nat)
    requires a + |c| <= |s| && s[a..a + |c|] == c && OccursAt(c, w, i)
    ensures OccursAt(s, w, a + i)
  {
    OccursBytes(c, w, i);
    forall k | 0 <= k < |w| ensures s[(a + i) + k] == w[k] {
      assert c[i + k] == s[a + (i + k)];
    }
    OccursBytes(s, w, a + i);
  }

  /** The first occurrence of `w` in `s` at or after `k`, if any. */
  function Find(s: seq<Byte>, w: seq<Byte>, k: nat := 0): Option<nat>
    decreases |s| + 1 - k
  {
    if k + |w| > |s| then None
    else if OccursAt(s, w, k) then Some(k)
    else Find(s, w, k + 1)
  }

  lemma {:induction false} FindSound(s: seq<Byte>, w: seq<Byte>, k: nat)
    ensures match Find(s, w, k)
            case None => forall j: nat :: j >= k ==> !OccursAt(s, w, j)
            case Some(i) => i >= k && OccursAt(s, w, i) && forall j: nat :: k <= j < i ==> !OccursAt(s, w, j)
    decreases |s| + 1 - k
  {
    if k + |w| <= |s| && !OccursAt(s, w, k) {
      FindSound(s, w, k + 1);
    }
  }

  /** `Find` is determined by being the first occurrence. */
  lemma FindIs(s: seq<Byte>, w: seq<Byte>, i: nat)
    requires OccursAt(s, w, i) && forall j: nat :: j < i ==> !OccursAt(s, w, j)
    ensures Find(s, w) == Some(i)
  {
    FindSound(s, w, 0);
  }

  /** The part of `s` before the first `c`, or all of it. */
  function Before(s: seq<Byte>, c: Byte): (r: seq<Byte>)
    ensures |r| <= |s|
  {
    if s == [] || s[0] == c then [] else [s[0]] + Before(s[1..], c)
  }

  lemma {:induction false} BeforeIsPrefix(s: seq<Byte>, c: Byte)
    ensures Before(s, c) <= s && c !in Before(s, c)
  {
    if s != [] && s[0] != c { BeforeIsPrefix(s[1..], c); }
  }

  // ----- Bounded copies

  function Zeros(n: nat): (z: seq<Byte>)
    ensures |z| == n && forall i :: 0 <= i < n ==> z[i] == 0
  {
    seq(n, _ => 0)
  }

  /** The `n` bytes strncpy stores for the source string `s`. */
  function Padded(s: seq<Byte>, n: nat): (r: seq<Byte>)
    ensures |r| == n
    ensures |s| < n ==> 0 in r
  {
    if |s| >= n then s[..n] else
      var r := s + Zeros(n - |s|);
      assert r[|s|] == 0;
      r
  }

  // ----- The routines

  method StrLen(m: array<Byte>, p: nat) returns (n: nat)
    requires Terminated(m[..], p)
    ensures n == |StringAt(m[..], p)|
  {
    n := 0;
    CharAt(m[..], p, 0);
    while m[p + n] != 0
      invariant n <= |StringAt(m[..], p)|
      invariant p + n < m.Length && (m[p + n] == 0 <==> n == |StringAt(m[..], p)|)
      decreases |StringAt(m[..], p)| - n
    {
      n := n + 1;
      CharAt(m[..], p, n);
    }
  }

  /** The byte of a string at `i`, its NUL included. */
  function ByteAt(s: seq<Byte>, i: nat): Byte
    requires i <= |s|
  {
    if i < |s| then s[i] else 0
  }

  /** A byte as a `char`, which a compiler may take as signed. */
  function CharOf(signed: bool, b: Byte): int {
    if signed && b >= 0x80 then b as int - 0x100 else b
  }

  /** The difference of the first characters that differ, or zero. */
  function Verdict(signed: bool, a: seq<Byte>, b: seq<Byte>): int
    requires |a| == |b|
    decreases |a|
  {
    if a == [] then 0
    else if a[0] != b[0] then CharOf(signed, a[0]) - CharOf(signed, b[0])
    else Verdict(signed, a[1..], b[1..])
  }

  lemma {:induction false} VerdictAt(signed: bool, a: seq<Byte>, b: seq<Byte>, i: nat)
    requires |a| == |b| && i <= |a| && a[..i] == b[..i]
    ensures i < |a| && a[i] != b[i] ==> Verdict(signed, a, b) == CharOf(signed, a[i]) - CharOf(signed, b[i])
    ensures a == b ==> Verdict(signed, a, b) == 0
    decreases |a|
  {
    if a != [] {
      assert a[0] == b[0] || i == 0 by { if i > 0 { assert a[..i][0] == b[..i][0]; } }
      if i > 0 {
        assert a[1..][..i - 1] == a[..i][1..] && b[1..][..i - 1] == b[..i][1..];
        VerdictAt(signed, a[1..], b[1..], i - 1);
      } else if a == b {
        VerdictAt(signed, a[1..], b[1..], 0);
      }
    }
  }

  /** The verdict is zero exactly on equal sequences, and changes sign with their order. */
  lemma {:induction false} VerdictZeroIff(signed: bool, a: seq<Byte>, b: seq<Byte>)
    requires |a| == |b|
    ensures Verdict(signed, a, b) == 0 <==> a == b
    ensures Verdict(signed, b, a) == -Verdict(signed, a, b)
  {
    if a != [] {
      VerdictZeroIff(signed, a[1..], b[1..]);
      assert a == [a[0]] + a[1..] && b == [b[0]] + b[1..];
    }
  }

  /** The first difference is at `k`, and the byte of `a` is the smaller one there. */
  ghost predicate LessAt(a: seq<Byte>, b: seq<Byte>, k: nat) {
    k < |a| == |b| && a[..k] == b[..k] && a[k] < b[k]
  }

  lemma LessAtStep(a: seq<Byte>, b: seq<Byte>, k: nat)
    requires 0 < |a| == |b|
    ensures LessAt(a, b, k) <==> if k == 0 then a[0] < b[0] else a[0] == b[0] && LessAt(a[1..], b[1..], k - 1)
  {
    if 0 < k < |a| {
      var x, y := a[..k], b[..k];
      assert x[0] == a[0] && x[1..] == a[1..][..k - 1] && x == [x[0]] + x[1..];
      assert y[0] == b[0] && y[1..] == b[1..][..k - 1] && y == [y[0]] + y[1..];
    }
  }

  /** With unsigned `char` the verdict is negative exactly when the first byte that differs
      is smaller in the first string; with signed `char` bytes from 0x80 come before the
      others. */
  lemma {:induction false} VerdictNegativeIff(a: seq<Byte>, b: seq<Byte>)
    requires |a| == |b|
    ensures Verdict(false, a, b) < 0 <==> exists k: nat :: LessAt(a, b, k)
    ensures |a| > 0 && a[0] >= 0x80 > b[0] ==> Verdict(true, a, b) == a[0] as int - b[0] as int - 0x100 < 0
  {
    if a != [] {
      LessAtStep(a, b, 0);
      if k: nat :| LessAt(a, b, k) { LessAtStep(a, b, k); }
      if a[0] == b[0] {
        VerdictNegativeIff(a[1..], b[1..]);
        if k: nat :| LessAt(a[1..], b[1..], k) { LessAtStep(a, b, k + 1); }
      }
    }
  }

  /** Byte by byte, what strncpy stores. */
  lemma PaddedBytes(s: seq<Byte>, n: nat, i: nat)
    requires i < n
    ensures Padded(s, n)[i] == if i < |s| then s[i] else 0
  {
  }

  lemma PaddedAt(s: seq<Byte>, n: nat, i: nat)
    requires i < n && i <= |s|
    ensures Padded(s, n)[i] == ByteAt(s, i) && Padded(s, n)[..i] == s[..i]
  {
  }

  /** The verdict on two strings that agree before `i`, from their bytes there. */
  lemma CompareStep(signed: bool, s: seq<Byte>, w: seq<Byte>, n: nat, i: nat)
    requires i < n && i <= |s| && i <= |w| && s[..i] == w[..i] && 0 !in s && 0 !in w
    ensures var x, y, v := ByteAt(s, i), ByteAt(w, i), Verdict(signed, Padded(s, n), Padded(w, n));
            && (x != y ==> v == CharOf(signed, x) - CharOf(signed, y))
            && (x == y == 0 ==> v == 0)
            && (x == y != 0 ==> i < |s| && i < |w| && s[..i + 1] == w[..i + 1])
  {
    PaddedAt(s, n, i);
    PaddedAt(w, n, i);
    VerdictAt(signed, Padded(s, n), Padded(w, n), i);
    assert i < |s| ==> s[i] in s;
    assert i < |w| ==> w[i] in w;
    if ByteAt(s, i) == ByteAt(w, i) == 0 {
      assert s == s[..i] && w == w[..i];
    }
  }

  lemma CompareAll(signed: bool, s: seq<Byte>, w: seq<Byte>, n: nat)
    requires n <= |s| && n <= |w| && s[..n] == w[..n]
    ensures Verdict(signed, Padded(s, n), Padded(w, n)) == 0
  {
    VerdictAt(signed, s[..n], w[..n], 0);
  }

  /** strncmp of the string at `p` and the string `w`, over at most `n` bytes: the verdict
      on the two strings, each cut or NUL-padded to `n`. */
  method StrNCmp(signed: bool, m: array<Byte>, p: nat, w: seq<Byte>, n: nat) returns (r: int)
    requires p <= m.Length && (Terminated(m[..], p) || p + n <= m.Length) && 0 !in w
    ensures r == Verdict(signed, Padded(StringAt(m[..], p), n), Padded(w, n))
  {
    ghost var s := StringAt(m[..], p);
    StringIsSlice(m[..], p);
    var i := 0;
    while i < n
      invariant i <= n && i <= |s| && i <= |w| && s[..i] == w[..i]
    {
      CompareStep(signed, s, w, n, i);
      assert m[p + i] == ByteAt(s, i);
      if m[p + i] != ByteAt(w, i) { return CharOf(signed, m[p + i]) - CharOf(signed, ByteAt(w, i)); }
      if m[p + i] == 0 { return 0; }
      i := i + 1;
    }
    CompareAll(signed, s, w, n);
    r := 0;
  }

  /** Against a string of exactly `n` bytes the verdict tests for a prefix. */
  lemma VerdictOfPrefix(signed: bool, s: seq<Byte>, w: seq<Byte>)
    requires 0 !in w
    ensures Verdict(signed, Padded(s, |w|), Padded(w, |w|)) == 0 <==> w <= s
  {
    VerdictZeroIff(signed, Padded(s, |w|), Padded(w, |w|));
    assert Padded(w, |w|) == w;
    if |s| < |w| {
      assert 0 in Padded(s, |w|);
    }
  }

  /** The comparison strstr makes: is the string `w` a prefix of the one at `p`? A zero
      verdict does not depend on the sign of `char`. */
  method StrNEqual(m: array<Byte>, p: nat, w: seq<Byte>) returns (equal: bool)
    requires Terminated(m[..], p) && forall k :: 0 <= k < |w| ==> w[k] != 0
    ensures equal <==> w <= StringAt(m[..], p)
  {
    var r := StrNCmp(false, m, p, w, |w|);
    VerdictOfPrefix(false, StringAt(m[..], p), w);
    return r == 0;
  }

  /** The test strstr makes at one place: the first byte, then strncmp on the rest. */
  method MatchesAt(m: array<Byte>, p: nat, i: nat, w: seq<Byte>) returns (b: bool)
    requires Terminated(m[..], p) && i < |StringAt(m[..], p)| && p + i < m.Length
    requires m[p + i] == StringAt(m[..], p)[i]
    requires w != [] && forall k :: 0 <= k < |w| ==> w[k] != 0
    ensures b <==> OccursAt(StringAt(m[..], p), w, i)
  {
    SplitOccurrence(StringAt(m[..], p), w, i);
    if m[p + i] != w[0] { return false; }
    SuffixString(m[..], p, i + 1);
    b := StrNEqual(m, p + i + 1, w[1..]);
  }

  /** strstr: try every place in turn. */
  method StrStr(m: array<Byte>, p: nat, w: seq<Byte>) returns (r: Option<nat>)
    requires Terminated(m[..], p) && 0 !in w
    ensures var f := Find(StringAt(m[..], p), w);
            r == if f.Some? then Some(p + f.value) else None
  {
    ghost var s := StringAt(m[..], p);
    if w == [] {
      assert OccursAt(s, w, 0);
      return Some(p);
    }
    forall k | 0 <= k < |w| ensures w[k] != 0 { assert w[k] in w; }
    var i: nat := 0;
    CharAt(m[..], p, 0);
    while m[p + i] != 0
      invariant i <= |s| && p + i < m.Length && (m[p + i] == 0 <==> i == |s|)
      invariant i < |s| ==> m[p + i] == s[i]
      invariant Find(s, w, i) == Find(s, w)
      decreases |s| - i
    {
      var here := MatchesAt(m, p, i, w);
      if here {
        return Some(p + i);
      }
      i := i + 1;
      CharAt(m[..], p, i);
    }
    r := None;
  }

  lemma {:induction false} SuffixString(m: seq<Byte>, p: nat, i: nat)
    requires Terminated(m, p) && i <= |StringAt(m, p)|
    ensures Terminated(m, p + i) && StringAt(m, p + i) == StringAt(m, p)[i..]
    decreases i
  {
    if i > 0 { SuffixString(m, p + 1, i - 1); }
  }

  lemma SplitOccurrence(s: seq<Byte>, w: seq<Byte>, i: nat)
    requires w != [] && i < |s|
    ensures OccursAt(s, w, i) <==> s[i] == w[0] && w[1..] <= s[i + 1..]
  {
  }

  /** strchr, as an offset from `p`; the NUL itself can be searched for. */
  method StrChr(m: array<Byte>, p: nat, c: Byte) returns (r: Option<nat>)
    requires Terminated(m[..], p)
    ensures var s := StringAt(m[..], p);
            r == if c in s || c == 0 then Some(|Before(s, c)|) else None
  {
    ghost var s := StringAt(m[..], p);
    var i: nat := 0;
    CharAt(m[..], p, 0);
    while m[p + i] != 0
      invariant i <= |s| && p + i < m.Length && (m[p + i] == 0 <==> i == |s|)
      invariant i < |s| ==> m[p + i] == s[i]
      invariant c !in s[..i]
      decreases |s| - i
    {
      if m[p + i] == c {
        BeforeIs(s, c, i);
        return Some(i);
      }
      assert s[..i + 1] == s[..i] + [s[i]];
      i := i + 1;
      CharAt(m[..], p, i);
    }
    assert s[..i] == s;
    BeforeIs(s, c, i);
    r := if c == 0 then Some(i) else None;
  }

  lemma {:induction false} BeforeIs(s: seq<Byte>, c: Byte, i: nat)
    requires i <= |s| && c !in s[..i] && (i < |s| ==> s[i] == c)
    ensures Before(s, c) == s[..i]
  {
    if i > 0 {
      assert s[0] == s[..i][0] && s[1..][..i - 1] == s[..i][1..];
      BeforeIs(s[1..], c, i - 1);
    }
  }

  /** strncpy: copy until a NUL, then pad with NULs to `n` bytes. */
  method StrNCpy(dst: array<Byte>, src: seq<Byte>, p: nat, n: nat)
    requires n <= dst.Length
    requires p <= |src| && (Terminated(src, p) || p + n <= |src|)
    modifies dst
    ensures dst[..] == Padded(StringAt(src, p), n) + old(dst[..])[n..]
  {
    ghost var s := StringAt(src, p);
    StringIsSlice(src, p);
    ghost var was := dst[..];
    var i := 0;
    while i < n
      invariant i <= n && i <= |s|
      invariant dst[..i] == s[..i]
      invariant forall j :: i <= j < dst.Length ==> dst[j] == was[j]
    {
      assert i < |s| ==> s[i] == src[p + i] && s[i] in s;
      dst[i] := src[p + i];
      if src[p + i] == 0 {
        break;
      }
      assert dst[..i + 1] == dst[..i] + [dst[i]] && s[..i + 1] == s[..i] + [s[i]];
      i := i + 1;
    }
    ghost var k := i;
    while i < n
      invariant k <= i <= n
      invariant dst[..k] == s[..k]
      invariant forall j :: n <= j < dst.Length ==> dst[j] == was[j]
      invariant forall j :: k <= j < i ==> dst[j] == 0
    {
      dst[i] := 0;
      i := i + 1;
    }
    CopiedIsPadded(dst[..], was, s, k, n);
  }

  lemma CopiedIsPadded(d: seq<Byte>, was: seq<Byte>, s: seq<Byte>, k: nat, n: nat)
    requires k <= n <= |d| == |was| && k <= |s| && (k < n ==> k == |s|)
    requires d[..k] == s[..k] && forall j :: n <= j < |d| ==> d[j] == was[j]
    requires forall j :: k <= j < n ==> d[j] == 0
    ensures d == Padded(s, n) + was[n..]
  {
    assert d == d[..n] + d[n..];
    assert d[..n] == Padded(s, n);
  }
}
