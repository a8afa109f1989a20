/**
 Lookups of services in any order (soaagent/resource_mgt.c, soaagent/str_array.c): every service has a cursor of
 its own, so the picks of one service walk its nodes whatever is looked up between them.
 */
module Lookups {
  import opened CString
  import opened StrArray

  /** The node that a lookup of the service returns. */
  function PickOf(lists: map<string, seq<string>>, counters: map<string, nat>, key: string): Option<string>
    requires lists.Keys == counters.Keys
  {
    if key in lists && lists[key] != [] then Some(lists[key][PickIndex(counters[key], 0, |lists[key]|)]) else None
  }

  /** The counters after it. */
  function CountersAfter(lists: map<string, seq<string>>, counters: map<string, nat>, key: string)
    : (c: map<string, nat>)
    requires lists.Keys == counters.Keys
    ensures c.Keys == counters.Keys
  {
    if key in lists && lists[key] != [] then counters[key := (counters[key] + 1) % UINT32] else counters
  }

  function CountersAfterAll(lists: map<string, seq<string>>, counters: map<string, nat>, keys: seq<string>)
    : (c: map<string, nat>)
    requires lists.Keys == counters.Keys
    ensures c.Keys == counters.Keys
  {
    if keys == [] then counters
    else CountersAfter(lists, CountersAfterAll(lists, counters, keys[..|keys| - 1]), keys[|keys| - 1])
  }

  /** What lookups of these services return, one after the other. */
  function PickRun(lists: map<string, seq<string>>, counters: map<string, nat>, keys: seq<string>)
    : (r: seq<Option<string>>)
    requires lists.Keys == counters.Keys
    ensures |r| == |keys|
  {
    if keys == [] then []
    else
      var before := keys[..|keys| - 1];
      PickRun(lists, counters, before)
      + [PickOf(lists, CountersAfterAll(lists, counters, before), keys[|keys| - 1])]
  }

  /** How often the service is looked up. */
  function Count(keys: seq<string>, key: string): nat
  {
    if keys == [] then 0 else Count(keys[..|keys| - 1], key) + if keys[|keys| - 1] == key then 1 else 0
  }

  /** What the lookups of one service return. */
  function PicksFor(keys: seq<string>, results: seq<Option<string>>, key: string): seq<Option<string>>
    requires |keys| == |results|
  {
    if keys == [] then []
    else
      var n := |keys| - 1;
      PicksFor(keys[..n], results[..n], key) + if keys[n] == key then [results[n]] else []
  }

  ghost predicate InRange(counters: map<string, nat>)
  {
    forall key | key in counters :: counters[key] < UINT32
  }

  /** Lookups of a service move its counter, and those of others do not. */
  lemma {:induction false} CounterOf(lists: map<string, seq<string>>, counters: map<string, nat>, keys: seq<string>,
                                     key: string)
    requires lists.Keys == counters.Keys && InRange(counters) && key in lists && lists[key] != []
    ensures CountersAfterAll(lists, counters, keys)[key] == (counters[key] + Count(keys, key)) % UINT32
  {
    if keys != [] {
      CounterOf(lists, counters, keys[..|keys| - 1], key);
      NextCounter(counters[key], Count(keys[..|keys| - 1], key));
    }
  }

  /**
   The k-th lookup of a service returns its k-th pick from where its counter stood, however lookups of other
   services come between.
   */
  lemma {:induction false} PicksAreSeparate(lists: map<string, seq<string>>, counters: map<string, nat>,
                                            keys: seq<string>, key: string)
    requires lists.Keys == counters.Keys && InRange(counters) && key in lists && lists[key] != []
    ensures var picks := PicksFor(keys, PickRun(lists, counters, keys), key);
            && |picks| == Count(keys, key)
            && forall k | 0 <= k < |picks| ::
                 picks[k] == Some(lists[key][PickIndex(counters[key], k, |lists[key]|)])
  {
    if keys != [] {
      var before := keys[..|keys| - 1];
      PicksAreSeparate(lists, counters, before, key);
      assert PickRun(lists, counters, keys)[..|keys| - 1] == PickRun(lists, counters, before);
      CounterOf(lists, counters, before, key);
      PickShift(counters[key], Count(before, key), |lists[key]|);
    }
  }

  lemma PickShift(c: nat, k: nat, n: nat)
    requires n > 0
    ensures PickIndex((c + k) % UINT32, 0, n) == PickIndex(c, k, n)
  {
    hide Mod;
    assert (c + k) % UINT32 % UINT32 == (c + k) % UINT32;
  }

  function Somes(s: seq<string>): (r: seq<Option<string>>)
    ensures |r| == |s| && forall i | 0 <= i < |s| :: r[i] == Some(s[i])
  {
    seq(|s|, i requires 0 <= i < |s| => Some(s[i]))
  }

  /**
   As many lookups of a service as it has nodes return each node once, precisely when its counter does not
   wrap meanwhile or the number of nodes divides 2^32.
   */
  lemma {:induction false} LookupsAreFair(lists: map<string, seq<string>>, counters: map<string, nat>,
                                          keys: seq<string>, key: string)
    requires lists.Keys == counters.Keys && InRange(counters) && key in lists
    requires lists[key] != [] && Distinct(lists[key]) && Count(keys, key) == |lists[key]|
    ensures multiset(PicksFor(keys, PickRun(lists, counters, keys), key)) == multiset(Somes(lists[key]))
       <==> counters[key] + |lists[key]| <= 0x1_0000_0000 || 0x1_0000_0000 % |lists[key]| == 0
  {
    var s, c := lists[key], counters[key];
    var picks := PicksFor(keys, PickRun(lists, counters, keys), key);
    PicksAreSeparate(lists, counters, keys, key);
    assert picks == Somes(Picks(s, c));
    RoundRobinIsFair(s, c);
    SameMultisets(Picks(s, c), s);
  }

  lemma {:induction false} SomesCount(s: seq<string>, v: string)
    ensures multiset(Somes(s))[Some(v)] == multiset(s)[v]
  {
    if s == [] {
      assert Somes(s) == [];
    } else {
      SomesCount(s[1..], v);
      assert s == [s[0]] + s[1..] && Somes(s) == [Some(s[0])] + Somes(s[1..]);
    }
  }

  lemma SameMultisets(a: seq<string>, b: seq<string>)
    ensures multiset(Somes(a)) == multiset(Somes(b)) <==> multiset(a) == multiset(b)
  {
    forall v
      ensures multiset(Somes(a))[Some(v)] == multiset(a)[v] && multiset(Somes(b))[Some(v)] == multiset(b)[v]
    {
      SomesCount(a, v);
      SomesCount(b, v);
    }
    if multiset(a) == multiset(b) {
      assert forall o :: multiset(Somes(a))[o] == multiset(Somes(b))[o] by {
        forall o
          ensures multiset(Somes(a))[o] == multiset(Somes(b))[o]
        {
          if o == None {
            assert None !in Somes(a) && None !in Somes(b);
          }
        }
      }
    }
    if multiset(Somes(a)) == multiset(Somes(b)) {
      assert forall v :: multiset(a)[v] == multiset(b)[v];
    }
  }
}
