/**
 Knuth-Morris-Pratt substring search with the strong failure table, in both directions
 (soaagent/utstring.h).

 A table entry for position i is the longest proper border k of the needle's first i
 characters whose next character differs from the one that just failed, or -1.  The
 right-to-left routines run the same automaton on the mirrored strings; `Mirror` makes
 that precise, so every fact about borders is proved once.
 */
module Kmp {

  /** The first k characters of p are also the last k of its first i, with k < i. */
  ghost predicate Border(p: string, i: int, k: int)
    requires 0 <= i <= |p|
  {
    0 <= k < i && p[..k] == p[i - k..i]
  }

  /** k is a position worth falling back to after a mismatch at position i. */
  ghost predicate Fallback(p: string, i: int, k: int)
    requires 0 <= i <= |p|
  {
    k == -1 || (Border(p, i, k) && (i == |p| || p[k] != p[i]))
  }

  /** t is the best fallback of position i. */
  ghost predicate IsStrong(p: string, i: int, t: int)
    requires 0 <= i <= |p|
  {
    -1 <= t < i && Fallback(p, i, t) && forall k :: t < k < i ==> !Fallback(p, i, k)
  }

  /** j is the longest border of position i (-1 for the empty prefix). */
  ghost predicate IsWeak(p: string, i: int, j: int)
    requires 0 <= i <= |p|
  {
    -1 <= j < i && (j == -1 || Border(p, i, j)) && forall k :: j < k < i ==> !Border(p, i, k)
  }

  lemma BorderOfBorder(p: string, i: int, j: int, k: int)
    requires 0 <= i <= |p| && Border(p, i, j) && k < j
    ensures Border(p, i, k) <==> Border(p, j, k)
  {
    if 0 <= k {
      assert p[i - k..i] == p[i - j..i][j - k..] == p[..j][j - k..] == p[j - k..j];
    }
  }

  lemma BorderExtends(p: string, i: int, k: int)
    requires 0 <= k < i < |p|
    ensures Border(p, i + 1, k + 1) <==> Border(p, i, k) && p[k] == p[i]
  {
    assert p[..k + 1] == p[..k] + [p[k]];
    assert p[i - k..i + 1] == p[i - k..i] + [p[i]];
    if Border(p, i + 1, k + 1) {
      assert p[..k] == p[..k + 1][..k];
      assert p[k] == p[..k + 1][k];
    }
  }

  /** What holds while the builder looks for a border of i that the character p[i] extends. */
  ghost predicate Extending(p: string, i: int, j: int)
    requires 0 <= i < |p|
  {
    && -1 <= j < i
    && (j == -1 || Border(p, i, j))
    && forall k :: j < k < i && Border(p, i, k) ==> p[k] != p[i]
  }

  /** Following the strong table skips no border that could still be extended. */
  lemma ExtendingFallsBack(p: string, i: int, j: int, t: int)
    requires 0 <= i < |p| && Extending(p, i, j) && j >= 0 && p[i] != p[j]
    requires IsStrong(p, j, t)
    ensures Extending(p, i, t)
  {
    if t >= 0 {
      BorderOfBorder(p, i, j, t);
    }
    forall k | t < k < i && Border(p, i, k)
      ensures p[k] != p[i]
    {
      if k < j {
        BorderOfBorder(p, i, j, k);
        assert !Fallback(p, j, k);
      }
    }
  }

  /** Once the search for an extendable border ends, the next longest border is known. */
  lemma ExtendingDone(p: string, i: int, j: int)
    requires 0 <= i < |p| && Extending(p, i, j)
    requires j == -1 || p[i] == p[j]
    ensures IsWeak(p, i + 1, j + 1)
  {
    if j >= 0 {
      BorderExtends(p, i, j);
    }
    var next := i + 1;
    forall k | j + 1 < k < next
      ensures !Border(p, next, k)
    {
      BorderExtends(p, i, k - 1);
    }
  }

  /** The entry written for i: the longest border if it helps, else that border's own entry. */
  lemma StrongFromWeak(p: string, i: int, j: int, t: int)
    requires 0 < i < |p| && IsWeak(p, i, j) && 0 <= j
    requires IsStrong(p, j, t)
    ensures IsStrong(p, i, if p[i] == p[j] then t else j)
  {
    if p[i] == p[j] {
      if t >= 0 {
        BorderOfBorder(p, i, j, t);
      }
      forall k | t < k < i
        ensures !Fallback(p, i, k)
      {
        if k < j {
          BorderOfBorder(p, i, j, k);
          assert !Fallback(p, j, k);
        }
      }
    }
  }

  /** The inner loop of the table builders, seen on the needle: the longest border of i + 1. */
  method ExtendBorder(needle: string, table: array<int>, i: int, start: int) returns (j: int)
    requires table.Length == |needle| + 1
    requires 0 <= i < |needle| && IsWeak(needle, i, start)
    requires forall x :: 0 <= x <= i ==> IsStrong(needle, x, table[x])
    ensures -1 <= j && IsWeak(needle, i + 1, j + 1)
  {
    j := start;
    while j > -1 && needle[i] != needle[j]
      invariant Extending(needle, i, j)
      decreases j
    {
      ExtendingFallsBack(needle, i, j, table[j]);
      j := table[j];
    }
    ExtendingDone(needle, i, j);
  }

  /** _utstring_BuildTable */
  method BuildTable(needle: string, table: array<int>)
    requires table.Length == |needle| + 1
    modifies table
    ensures forall i :: 0 <= i <= |needle| ==> IsStrong(needle, i, table[i])
  {
    hide Border;
    var n := |needle|;
    var i, j := 0, -1;
    table[i] := j;
    while i < n
      invariant 0 <= i <= n && IsWeak(needle, i, j)
      invariant forall x :: 0 <= x <= i ==> IsStrong(needle, x, table[x])
    {
      j := ExtendBorder(needle, table, i, j);
      i := i + 1;
      j := j + 1;
      if i < n {
        StrongFromWeak(needle, i, j, table[j]);
        if needle[i] == needle[j] {
          table[i] := table[j];
        } else {
          table[i] := j;
        }
      } else {
        table[i] := j;
      }
    }
  }

  ghost predicate Occurs(h: string, p: string, at: int)
  {
    0 <= at <= |h| - |p| && h[at..at + |p|] == p
  }

  /** The needle's first i characters end at position j of h and no match starts earlier. */
  ghost predicate Searching(h: string, p: string, i: int, j: int)
  {
    && -1 <= i <= |p| && 0 <= j <= |h| && i <= j
    && (i == -1 || p[..i] == h[j - i..j])
    && (forall a :: 0 <= a < j - i ==> !Occurs(h, p, a))
  }

  /** A match that starts inside the matched prefix is a fallback of the mismatch position. */
  lemma MatchIsFallback(h: string, p: string, i: int, j: int, a: int)
    requires 0 <= i < |p| && i <= j < |h| && p[..i] == h[j - i..j] && p[i] != h[j]
    requires j - i <= a <= j
    ensures Occurs(h, p, a) ==> j - a < i && Fallback(p, i, j - a)
  {
    if Occurs(h, p, a) {
      var k := j - a;
      assert p[k] == h[a..a + |p|][k] == h[j];
      assert p[..k] == h[a..a + |p|][..k] == h[j - i..j][i - k..] == p[i - k..i];
    }
  }

  /** After a mismatch, the strong table moves past no match. */
  lemma SearchingFallsBack(h: string, p: string, i: int, j: int, t: int)
    requires Searching(h, p, i, j) && 0 <= i < |p| && j < |h| && p[i] != h[j]
    requires IsStrong(p, i, t)
    ensures Searching(h, p, t, j)
  {
    if t >= 0 {
      assert h[j - t..j] == h[j - i..j][i - t..] == p[i - t..i];
    }
    forall a | 0 <= a < j - t
      ensures !Occurs(h, p, a)
    {
      if j - i <= a <= j {
        MatchIsFallback(h, p, i, j, a);
      }
    }
  }

  lemma SearchingAdvances(h: string, p: string, i: int, j: int)
    requires Searching(h, p, i, j) && i < |p| && j < |h|
    requires i == -1 || p[i] == h[j]
    ensures Searching(h, p, i + 1, j + 1)
    ensures i + 1 == |p| ==> Occurs(h, p, j + 1 - (i + 1))
  {
    if i >= 0 {
      assert p[..i + 1] == p[..i] + [p[i]];
      assert h[j - i..j + 1] == h[j - i..j] + [h[j]];
    }
  }

  /** `at` is the first match of p in h, or -1 when there is none. */
  ghost predicate IsFirst(h: string, p: string, at: int)
  {
    && -1 <= at
    && (at >= 0 ==> Occurs(h, p, at))
    && forall a :: 0 <= a && (at == -1 || a < at) ==> !Occurs(h, p, a)
  }

  /** The whole needle ends at position j: its match is the first. */
  lemma FoundFirst(h: string, p: string, j: int)
    requires Searching(h, p, |p|, j) && Occurs(h, p, j - |p|)
    ensures |p| <= j && IsFirst(h, p, j - |p|)
  {
  }

  /** Too little text is left to complete the needle. */
  lemma FoundNone(h: string, p: string, i: int, j: int)
    requires Searching(h, p, i, j) && 0 <= i && (|h| - j) + i < |p|
    ensures IsFirst(h, p, -1)
  {
  }

  /** `at` is the last match of p in h, or -1 when there is none. */
  ghost predicate IsLast(h: string, p: string, at: int)
  {
    && -1 <= at
    && (at >= 0 ==> Occurs(h, p, at))
    && forall a :: at < a ==> !Occurs(h, p, a)
  }

  /** The inner loop of _utstring_find: follow the table until h[j] can be consumed. */
  method FallBack(h: string, needle: string, table: array<int>, start: int, j: int) returns (i: int)
    requires table.Length == |needle| + 1
    requires forall x :: 0 <= x <= |needle| ==> IsStrong(needle, x, table[x])
    requires Searching(h, needle, start, j) && start < |needle| && j < |h|
    ensures Searching(h, needle, i + 1, j + 1) && -1 <= i < |needle|
    ensures i + 1 == |needle| ==> Occurs(h, needle, j + 1 - (i + 1))
  {
    i := start;
    while i > -1 && needle[i] != h[j]
      invariant i < |needle| && Searching(h, needle, i, j)
      decreases i
    {
      SearchingFallsBack(h, needle, i, j, table[i]);
      i := table[i];
    }
    SearchingAdvances(h, needle, i, j);
  }

  /** _utstring_find */
  method FindForward(h: string, needle: string, table: array<int>) returns (at: int)
    requires 0 < |needle| && table.Length == |needle| + 1
    requires forall i :: 0 <= i <= |needle| ==> IsStrong(needle, i, table[i])
    ensures IsFirst(h, needle, at)
  {
    at := -1;
    var i, j := 0, 0;
    while j < |h| && (|h| - j) + i >= |needle|
      invariant 0 <= i < |needle| && Searching(h, needle, i, j)
      decreases |h| - j
    {
      i := FallBack(h, needle, table, i, j);
      i := i + 1;
      j := j + 1;
      if i >= |needle| {
        return j - i;
      }
    }
  }

  ghost function Mirror(s: string): (r: string)
    ensures |r| == |s|
  {
    seq(|s|, x requires 0 <= x < |s| => s[|s| - 1 - x])
  }

  lemma MirrorAt(s: string, x: int)
    ensures 0 <= x < |s| ==> Mirror(s)[|s| - 1 - x] == s[x]
  {
  }

  /** A right-to-left table as the left-to-right table of the mirrored needle. */
  ghost function Flip(t: seq<int>): (r: seq<int>)
    ensures |r| == |t|
  {
    seq(|t|, x requires 0 <= x < |t| => |t| - 2 - t[|t| - 1 - x])
  }

  lemma FlipAt(t: seq<int>, y: int)
    requires 0 <= y < |t|
    ensures Flip(t)[|t| - 1 - y] == |t| - 2 - t[y]
  {
  }

  lemma FlipUpdate(t: seq<int>, y: int, v: int)
    requires 0 <= y < |t|
    ensures Flip(t[y := v]) == Flip(t)[|t| - 1 - y := |t| - 2 - v]
  {
  }

  /** f holds the strong failure values of p up to position hi. */
  ghost predicate StrongUpTo(p: string, f: seq<int>, hi: int)
    requires hi <= |p| < |f|
  {
    forall x :: 0 <= x <= hi ==> IsStrong(p, x, f[x])
  }

  /** The inner loop of _utstring_BuildTableR. */
  method ExtendBorderReverse(needle: string, table: array<int>, i: int, start: int) returns (j: int)
    requires table.Length == |needle| + 1
    requires 0 <= i < |needle| && IsWeak(Mirror(needle), |needle| - 1 - i, |needle| - 1 - start)
    requires StrongUpTo(Mirror(needle), Flip(table[..]), |needle| - 1 - i)
    ensures j <= |needle| && IsWeak(Mirror(needle), |needle| - i, |needle| - j)
  {
    var n := |needle|;
    hide Border;
    ghost var m, f := Mirror(needle), Flip(table[..]);
    j := start;
    ghost var fi, fj := n - 1 - i, n - 1 - j;
    MirrorAt(needle, i);
    MirrorAt(needle, j);
    while j < n && needle[i] != needle[j]
      invariant fj == n - 1 - j && Extending(m, fi, fj)
      invariant m[fi] == needle[i] && (j < n ==> m[fj] == needle[j])
      decreases n - j
    {
      FlipAt(table[..], j + 1);
      ExtendingFallsBack(m, fi, fj, f[fj]);
      fj := f[fj];
      j := table[j + 1];
      MirrorAt(needle, j);
    }
    ExtendingDone(m, fi, fj);
  }

  /** _utstring_BuildTableR */
  method BuildTableReverse(needle: string, table: array<int>)
    requires table.Length == |needle| + 1
    modifies table
    ensures StrongUpTo(Mirror(needle), Flip(table[..]), |needle|)
  {
    var n := |needle|;
    hide Border;
    ghost var m := Mirror(needle);
    var i := n - 1;
    var j := i + 1;
    table[i + 1] := j;
    FlipAt(table[..], n);
    ghost var fi, fj := 0, -1;
    while i >= 0
      invariant -1 <= i < n && fi == n - 1 - i && fj == n - 1 - j && IsWeak(m, fi, fj)
      invariant StrongUpTo(m, Flip(table[..]), fi)
    {
      j := ExtendBorderReverse(needle, table, i, j);
      i := i - 1;
      j := j - 1;
      fi, fj := fi + 1, n - 1 - j;
      ghost var before := table[..];
      if i >= 0 && needle[i] == needle[j] {
        table[i + 1] := table[j + 1];
      } else {
        table[i + 1] := j;
      }
      assert table[..] == before[i + 1 := table[i + 1]];
      ReverseEntry(needle, before, i, j);
    }
  }

  /** The entry that the builder writes for position i extends the mirrored table by one. */
  lemma ReverseEntry(needle: string, before: seq<int>, i: int, j: int)
    requires |before| == |needle| + 1 && -1 <= i < j < |needle|
    requires StrongUpTo(Mirror(needle), Flip(before), |needle| - 2 - i)
    requires IsWeak(Mirror(needle), |needle| - 1 - i, |needle| - 1 - j)
    ensures var entry := if i >= 0 && needle[i] == needle[j] then before[j + 1] else j;
            StrongUpTo(Mirror(needle), Flip(before[i + 1 := entry]), |needle| - 1 - i)
  {
    hide Border;
    var n, m := |needle|, Mirror(needle);
    var fi, fj := n - 1 - i, n - 1 - j;
    var entry := if i >= 0 && needle[i] == needle[j] then before[j + 1] else j;
    FlipAt(before, j + 1);
    FlipUpdate(before, i + 1, entry);
    if i >= 0 {
      StrongFromWeak(m, fi, fj, Flip(before)[fj]);
      MirrorAt(needle, i);
      MirrorAt(needle, j);
    }
    assert IsStrong(m, fi, n - 1 - entry);
  }

  lemma MirrorSlice(s: string, lo: int, hi: int)
    requires 0 <= lo <= hi <= |s|
    ensures Mirror(s)[lo..hi] == Mirror(s[|s| - hi..|s| - lo])
  {
    var part := s[|s| - hi..|s| - lo];
    forall x | 0 <= x < hi - lo
      ensures Mirror(s)[lo..hi][x] == Mirror(part)[x]
    {
      assert Mirror(s)[lo + x] == s[|s| - 1 - lo - x] == part[hi - lo - 1 - x];
    }
  }

  lemma MirrorTwice(s: string)
    ensures Mirror(Mirror(s)) == s
  {
    forall x | 0 <= x < |s|
      ensures Mirror(Mirror(s))[x] == s[x]
    {
      assert Mirror(s)[|s| - 1 - x] == s[x];
    }
  }

  lemma MirrorOccurs(h: string, p: string, a: int)
    ensures Occurs(Mirror(h), Mirror(p), |h| - |p| - a) <==> Occurs(h, p, a)
  {
    if 0 <= a <= |h| - |p| {
      MirrorSlice(h, |h| - |p| - a, |h| - a);
      MirrorTwice(p);
      MirrorTwice(h[a..a + |p|]);
    }
  }

  /** The first match in the mirrored text is the last match in the text. */
  lemma MirrorFirstIsLast(h: string, p: string, at: int)
    requires IsFirst(Mirror(h), Mirror(p), at)
    ensures IsLast(h, p, if at == -1 then -1 else |h| - |p| - at)
  {
    var last := if at == -1 then -1 else |h| - |p| - at;
    if at >= 0 {
      MirrorOccurs(h, p, last);
    }
    forall a | last < a
      ensures !Occurs(h, p, a)
    {
      MirrorOccurs(h, p, a);
    }
  }

  /** The inner loop of _utstring_findR. */
  method FallBackReverse(h: string, needle: string, table: array<int>, start: int, j: int) returns (i: int)
    requires table.Length == |needle| + 1
    requires StrongUpTo(Mirror(needle), Flip(table[..]), |needle|)
    requires Searching(Mirror(h), Mirror(needle), |needle| - 1 - start, |h| - 1 - j)
    requires 0 <= start && 0 <= j
    ensures Searching(Mirror(h), Mirror(needle), |needle| - i, |h| - j) && 0 <= i <= |needle|
    ensures i == 0 ==> Occurs(Mirror(h), Mirror(needle), |h| - j - |needle|)
  {
    var n := |needle|;
    hide Border;
    ghost var mh, mp, f := Mirror(h), Mirror(needle), Flip(table[..]);
    i := start;
    ghost var fi, fj := n - 1 - i, |h| - 1 - j;
    MirrorAt(h, j);
    MirrorAt(needle, i);
    while i < n && needle[i] != h[j]
      invariant fi == n - 1 - i && fi < n && Searching(mh, mp, fi, fj)
      invariant mh[fj] == h[j] && (i < n ==> mp[fi] == needle[i])
      decreases n - i
    {
      FlipAt(table[..], i + 1);
      SearchingFallsBack(mh, mp, fi, fj, f[fi]);
      fi := f[fi];
      i := table[i + 1];
      MirrorAt(needle, i);
    }
    SearchingAdvances(mh, mp, fi, fj);
  }

  /** _utstring_findR */
  method FindReverse(h: string, needle: string, table: array<int>) returns (at: int)
    requires 0 < |needle| && table.Length == |needle| + 1
    requires StrongUpTo(Mirror(needle), Flip(table[..]), |needle|)
    ensures IsLast(h, needle, at)
  {
    var n := |needle|;
    hide Border, Occurs, IsFirst, IsLast, StrongUpTo;
    ghost var mh, mp := Mirror(h), Mirror(needle);
    at := -1;
    var j := |h| - 1;
    var i := n - 1;
    SearchingStarts(mh, mp);
    hide Searching, Mirror, Flip;
    while j >= 0 && j >= i
      invariant 0 <= i < n && -1 <= j < |h|
      invariant Searching(mh, mp, n - 1 - i, |h| - 1 - j)
      decreases j
    {
      i := FallBackReverse(h, needle, table, i, j);
      i := i - 1;
      j := j - 1;
      if i < 0 {
        FoundFirst(mh, mp, |h| - 1 - j);
        MirrorFirstIsLast(h, needle, |h| - 1 - j - n);
        return j + 1;
      }
    }
    FoundNone(mh, mp, n - 1 - i, |h| - 1 - j);
    MirrorFirstIsLast(h, needle, -1);
  }

  lemma SearchingStarts(h: string, p: string)
    ensures Searching(h, p, 0, 0)
  {
  }

  /** The start position a caller means: negative counts back from the end. */
  function StartPosition(len: nat, start: int): int
  {
    if start < 0 then len + start else start
  }

  /** utstring_find: the first match at or after the start position, -1 when there is none. */
  method Find(s: string, start: int, needle: string) returns (at: int)
    requires 0 <= StartPosition(|s|, start)
    ensures needle == [] ==> at == -1
    ensures needle != [] ==>
              && -1 <= at
              && var from := if start >= 0 then start else |s| + start;
                 && (at >= 0 ==> Occurs(s, needle, at) && from <= at)
                 && (forall a :: from <= a && (at == -1 || a < at) ==> !Occurs(s, needle, a))
  {
    at := -1;
    var from := StartPosition(|s|, start);
    var len := |s| - from;
    if len >= |needle| && |needle| > 0 {
      var table := new int[|needle| + 1];
      BuildTable(needle, table);
      at := FindForward(s[from..], needle, table);
      forall a | from <= a
        ensures Occurs(s, needle, a) <==> Occurs(s[from..], needle, a - from)
      {
        OccursInSuffix(s, needle, from, a);
      }
      if at >= 0 {
        at := at + from;
        assert Occurs(s, needle, at);
      }
    }
  }

  lemma OccursInSuffix(s: string, p: string, from: int, a: int)
    requires 0 <= from <= |s| && from <= a
    ensures Occurs(s, p, a) <==> Occurs(s[from..], p, a - from)
  {
    if a <= |s| - |p| {
      assert s[from..][a - from..a - from + |p|] == s[a..a + |p|];
    }
  }

  lemma OccursInPrefix(s: string, p: string, end: int, a: int)
    requires 0 <= end <= |s|
    ensures Occurs(s[..end], p, a) <==> Occurs(s, p, a) && a + |p| <= end
  {
    if 0 <= a <= end - |p| {
      assert s[..end][a..a + |p|] == s[a..a + |p|];
    }
  }

  /** utstring_findR: the last match that ends at or before the start position, -1 when there is none. */
  method FindLast(s: string, start: int, needle: string) returns (at: int)
    requires StartPosition(|s|, start) < |s|
    ensures needle == [] ==> at == -1
    ensures needle != [] ==>
              && -1 <= at
              && var last := if start >= 0 then start else |s| + start;
                 && (at >= 0 ==> Occurs(s, needle, at) && at + |needle| <= last + 1)
                 && (forall a :: at < a && a + |needle| <= last + 1 ==> !Occurs(s, needle, a))
  {
    at := -1;
    var len := StartPosition(|s|, start) + 1;
    if len >= |needle| && |needle| > 0 {
      var table := new int[|needle| + 1];
      BuildTableReverse(needle, table);
      at := FindReverse(s[..len], needle, table);
      forall a | 0 <= a
        ensures Occurs(s[..len], needle, a) <==> Occurs(s, needle, a) && a + |needle| <= len
      {
        OccursInPrefix(s, needle, len, a);
      }
    }
  }
}
