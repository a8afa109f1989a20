/** The string array behind a service's node list and its round-robin cursor (soaagent/str_array.c). */
module StrArray {
  import opened Bits
  import opened CString

  /** The position of the first occurrence of v, or -1. */
  function IndexOf(s: seq<string>, v: string): (i: int)
    ensures -1 <= i < |s|
    ensures i == -1 <==> v !in s
    ensures i >= 0 ==> s[i] == v && v !in s[..i]
  {
    if s == [] then -1
    else if s[0] == v then 0
    else
      var i := IndexOf(s[1..], v);
      assert s == [s[0]] + s[1..];
      assert i >= 0 ==> s[..i + 1] == [s[0]] + s[1..][..i];
      if i == -1 then -1 else i + 1
  }

  function Added(s: seq<string>, v: string): seq<string>
  {
    if v in s then s else s + [v]
  }

  /** Adding and deleting keep the entries distinct and act on the set of entries as expected. */
  lemma AddedEntries(s: seq<string>, v: string)
    requires Distinct(s)
    ensures Distinct(Added(s, v)) && forall x :: x in Added(s, v) <==> x in s || x == v
  {
  }

  lemma DeletedEntries(s: seq<string>, v: string)
    requires Distinct(s)
    ensures Distinct(Without(s, v)) && forall x :: x in Without(s, v) <==> x in s && x != v
  {
    WithoutEntries(s, v);
    assert forall x :: x in Without(s, v) ==> exists k :: 0 <= k < |Without(s, v)| && Without(s, v)[k] == x;
  }

  /** a % n, under a name so that proofs can keep nonlinear arithmetic out of sight. */
  function Mod(a: nat, n: nat): (r: nat)
    requires n > 0
    ensures r < n
  {
    a % n
  }

  /** The entry that the k-th of a run of picks returns, the 32-bit counter starting at c. */
  function PickIndex(c: nat, k: nat, n: nat): (i: nat)
    requires n > 0
    ensures i < n
  {
    Mod((c + k) % UINT32, n)
  }

  lemma FirstPick(c: nat, n: nat)
    requires c < UINT32 && n > 0
    ensures PickIndex(c, 0, n) == Mod(c, n)
  {
    hide Mod;
  }

  function Picks(s: seq<string>, c: nat): (r: seq<string>)
    requires s != []
    ensures |r| == |s|
  {
    seq(|s|, k requires 0 <= k < |s| => s[PickIndex(c, k, |s|)])
  }

  class StringArray {
    var strs: seq<string>
    var counter: nat

    ghost predicate Valid()
      reads this
    {
      counter < UINT32 && Distinct(strs)
    }

    /** string_array_init */
    constructor ()
      ensures Valid() && strs == [] && counter == 0
    {
      strs, counter := [], 0;
    }

    /** string_array_find */
    method Find(value: string) returns (i: int)
      ensures i == IndexOf(strs, value)
    {
      i := 0;
      while i < |strs|
        invariant 0 <= i <= |strs| && value !in strs[..i]
      {
        if strs[i] == value {
          return;
        }
        i := i + 1;
      }
      i := -1;
    }

    /** string_array_add */
    method Add(value: string)
      requires Valid()
      modifies this`strs
      ensures Valid() && strs == Added(old(strs), value)
      ensures strs == if value in old(strs) then old(strs) else old(strs) + [value]
    {
      var i := Find(value);
      if i != -1 {
        return;
      }
      AddedEntries(strs, value);
      strs := strs + [value];
    }

    /** string_array_delete */
    method Delete(value: string) returns (found: bool)
      requires Valid()
      modifies this`strs
      ensures Valid() && strs == Without(old(strs), value)
      ensures found == (value in old(strs))
    {
      var i := Find(value);
      if i == -1 {
        WithoutAbsent(strs, value);
        return false;
      }
      DeletedEntries(strs, value);
      WithoutAt(strs, i);
      strs := strs[..i] + strs[i + 1..];
      return true;
    }

    /** string_array_next */
    method Next() returns (r: Option<string>)
      requires Valid()
      modifies this`counter
      ensures Valid()
      ensures strs == [] ==> r == None && counter == old(counter)
      ensures strs != [] ==> r == Some(strs[PickIndex(old(counter), 0, |strs|)])
                             && counter == (old(counter) + 1) % UINT32
    {
      var count := |strs|;
      if count == 0 {
        return None;
      }
      hide Mod;
      FirstPick(counter, count);
      var i := Mod(counter, count);
      counter := (counter + 1) % UINT32;
      return Some(strs[i]);
    }
  }

  lemma NextCounter(c: nat, k: nat)
    requires c < UINT32
    ensures ((c + k) % UINT32 + 1) % UINT32 == (c + k + 1) % UINT32
  {
  }

  lemma NextRemainder(a: nat, n: nat)
    requires n > 0
    ensures Mod(a + 1, n) == if Mod(a, n) + 1 == n then 0 else Mod(a, n) + 1
  {
    var q, r := a / n, Mod(a, n);
    QuotientRemainder(a, n);
    TimesSteps(q + 1, n);
    hide Times;
    if r + 1 == n {
      DivMod(a + 1, n, q + 1, 0);
    } else {
      DivMod(a + 1, n, q, r + 1);
    }
  }

  lemma SmallRemainder(r: nat, n: nat)
    requires r < n
    ensures Mod(r, n) == r
  {
  }

  lemma {:induction false} EarlierRemainder(a: nat, n: nat, i: nat)
    requires n > 0 && i <= Mod(a, n) && i <= a
    ensures Mod(a - i, n) == Mod(a, n) - i
    decreases i
  {
    hide Mod;
    if i == 0 {
    } else {
      EarlierRemainder(a, n, i - 1);
      NextRemainder(a - i, n);
    }
  }

  /** While the counter does not wrap, or wraps evenly, picks walk the array cyclically. */
  lemma {:induction false} PickIndexCycles(c: nat, k: nat, n: nat)
    requires 0 < n && k < n && c < UINT32
    requires c + n <= UINT32 || Mod(UINT32, n) == 0
    ensures PickIndex(c, k, n) == if Mod(c, n) + k < n then Mod(c, n) + k else Mod(c, n) + k - n
  {
    hide Mod;
    if k == 0 {
    } else {
      PickIndexCycles(c, k - 1, n);
      var before := c + k - 1;
      if before + 1 == UINT32 {
        NextRemainder(before, n);
        SmallRemainder(0, n);
      } else if before < UINT32 {
        NextRemainder(before, n);
      } else {
        if n > UINT32 {
          SmallRemainder(UINT32, n);
        }
        assert (c + k) % UINT32 == before - UINT32 + 1;
        NextRemainder(before - UINT32, n);
      }
    }
  }

  /** An uneven wrap picks some position twice. */
  lemma PickIndexRepeats(c: nat, n: nat) returns (k: nat, l: nat)
    requires 0 < n && c < UINT32 && c + n > UINT32 && Mod(UINT32, n) != 0
    ensures k < l < n && PickIndex(c, k, n) == PickIndex(c, l, n)
  {
    hide Mod;
    var j, q := UINT32 - c, Mod(UINT32, n);
    if n > UINT32 {
      SmallRemainder(UINT32, n);
    }
    if q <= j {
      k, l := j - q, j;
      assert (c + l) % UINT32 == 0;
      EarlierRemainder(UINT32, n, q);
      SmallRemainder(0, n);
    } else {
      k, l := 0, q;
      assert (c + l) % UINT32 == q - j;
      EarlierRemainder(UINT32, n, j);
      SmallRemainder(q - j, n);
    }
  }

  /**
   Fairness: as many picks as there are entries return every entry exactly once, precisely
   when the 32-bit counter does not wrap meanwhile or the number of entries divides 2^32.
   */
  lemma RoundRobinIsFair(s: seq<string>, c: nat)
    requires s != [] && Distinct(s) && c < UINT32
    ensures multiset(Picks(s, c)) == multiset(s) <==> c + |s| <= UINT32 || Mod(UINT32, |s|) == 0
  {
    var n := |s|;
    hide Mod;
    if c + n <= UINT32 || Mod(UINT32, n) == 0 {
      var r := Mod(c, n);
      forall k | 0 <= k < n
        ensures Picks(s, c)[k] == (s[r..] + s[..r])[k]
      {
        PickIndexCycles(c, k, n);
      }
      assert Picks(s, c) == s[r..] + s[..r];
      assert s == s[..r] + s[r..];
    } else {
      var k, l := PickIndexRepeats(c, n);
      var p := Picks(s, c);
      assert p[k] == p[l];
      TwiceInMultiset(p, k, l);
      DistinctOnce(s, p[k]);
    }
  }

  /** Three entries and a counter about to wrap: the first entry is picked twice, the last one never. */
  lemma UnevenWrapIsUnfair()
    ensures Picks(["a", "b", "c"], UINT32 - 1) == ["a", "a", "b"]
  {
  }

  lemma TwiceInMultiset(p: seq<string>, k: nat, l: nat)
    requires k < l < |p| && p[k] == p[l]
    ensures multiset(p)[p[k]] >= 2
  {
    assert p == p[..k] + [p[k]] + p[k + 1..l] + [p[l]] + p[l + 1..];
  }

  lemma DistinctOnce(s: seq<string>, v: string)
    requires Distinct(s)
    ensures multiset(s)[v] <= 1
  {
    if v in s {
      var i := IndexOf(s, v);
      assert s == s[..i] + [v] + s[i + 1..];
      assert v !in s[..i] && v !in s[i + 1..];
    }
  }

  // ----- server.c: the worker that takes the next accepted connection -----

  class WorkerCycle {
    var counter: nat

    constructor ()
      ensures counter == 0
    {
      counter := 0;
    }

    /** get_next_worker_index */
    method NextWorker(workers: nat) returns (i: nat)
      requires workers > 0 && counter <= 0xFFFF
      modifies this
      ensures counter <= 0xFFFF
      ensures counter == (old(counter) + 1) % 0x1_0000
      ensures i == Mod(old(counter), workers) < workers
    {
      i := Mod(counter, workers);
      counter := counter + 1;
      if counter > 0xFFFF {
        counter := 0;
      }
    }

    /** The workers chosen for the first n accepted connections. */
    method Accept(n: nat, workers: nat) returns (chosen: seq<nat>)
      requires workers > 0 && counter == 0
      modifies this
      ensures |chosen| == n && forall k | 0 <= k < n :: chosen[k] == WorkerOf(k, workers)
    {
      hide Mod;
      chosen := [];
      while |chosen| < n
        invariant |chosen| <= n && counter == |chosen| % 0x1_0000
        invariant forall k | 0 <= k < |chosen| :: chosen[k] == WorkerOf(k, workers)
      {
        var i := NextWorker(workers);
        chosen := chosen + [i];
      }
    }
  }

  /** The worker of the k-th accepted connection. */
  function WorkerOf(k: nat, workers: nat): (i: nat)
    requires workers > 0
    ensures i < workers
  {
    Mod(k % 0x1_0000, workers)
  }

  /** How many of the first n connections go to worker w. */
  function Load(w: nat, n: nat, workers: nat): nat
    requires workers > 0
  {
    if n == 0 then 0 else Load(w, n - 1, workers) + (if WorkerOf(n - 1, workers) == w then 1 else 0)
  }

  /** The same count for a counter that never starts over. */
  function PlainLoad(w: nat, n: nat, workers: nat): nat
    requires workers > 0
  {
    if n == 0 then 0 else PlainLoad(w, n - 1, workers) + (if Mod(n - 1, workers) == w then 1 else 0)
  }

  /** Without a reset, two workers are never more than one connection apart, the earlier one ahead. */
  lemma {:induction false} PlainLoadsAreClose(v: nat, w: nat, n: nat, workers: nat)
    requires v < w < workers
    ensures PlainLoad(v, n, workers) == PlainLoad(w, n, workers) + (if v < Mod(n, workers) <= w then 1 else 0)
    decreases n
  {
    hide Mod;
    if n == 0 {
      SmallRemainder(0, workers);
    } else {
      PlainLoadsAreClose(v, w, n - 1, workers);
      NextRemainder(n - 1, workers);
    }
  }

  /** The load is what full counter periods contributed plus the current one. */
  lemma {:induction false} LoadByPeriods(w: nat, periods: nat, n: nat, workers: nat)
    requires workers > 0 && n <= 0x1_0000
    ensures Load(w, periods * 0x1_0000 + n, workers)
         == Times(periods, PlainLoad(w, 0x1_0000, workers)) + PlainLoad(w, n, workers)
    decreases periods, n
  {
    hide Mod, Times;
    TimesSteps(periods, PlainLoad(w, 0x1_0000, workers));
    if n > 0 {
      LoadByPeriods(w, periods, n - 1, workers);
      assert (periods * 0x1_0000 + n - 1) % 0x1_0000 == n - 1;
    } else if periods > 0 {
      LoadByPeriods(w, periods - 1, 0x1_0000, workers);
    }
  }

  /**
   Worker fairness: after n accepted connections two workers differ by at most n / 65536 + 1,
   although the counter starts over every 65536 connections.
   */
  lemma LoadsAreClose(v: nat, w: nat, n: nat, workers: nat)
    requires v < w < workers
    ensures 0 <= Load(v, n, workers) - Load(w, n, workers) <= n / 0x1_0000 + 1
  {
    hide Mod, PlainLoad, Load, Times;
    var periods, r := n / 0x1_0000, n % 0x1_0000;
    LoadByPeriods(v, periods, r, workers);
    LoadByPeriods(w, periods, r, workers);
    PlainLoadsAreClose(v, w, 0x1_0000, workers);
    PlainLoadsAreClose(v, w, r, workers);
    TimesClose(periods, PlainLoad(v, 0x1_0000, workers), PlainLoad(w, 0x1_0000, workers));
  }
}
