/**
 Chained hash tables: items on a list in the order they were added, and each on the chain of the
 bucket that its hash selects (soaagent/uthash.h).  The hash is any fixed function of the key.
 */
module HashTable {
  import opened Bits
  import opened CString

  const HASH_INITIAL_NUM_BUCKETS := 32
  const HASH_INITIAL_NUM_BUCKETS_LOG2 := 5
  const HASH_BKT_CAPACITY_THRESH := 10

  /** An element with its hash handle: next and prev link the list, hhNext and hhPrev the chain. */
  class Item<V> {
    const key: string
    const value: V
    const hashv: nat
    var next: Item?<V>
    var prev: Item?<V>
    var hhNext: Item?<V>
    var hhPrev: Item?<V>

    constructor (key: string, value: V, hashv: nat)
      ensures this.key == key && this.value == value && this.hashv == hashv
    {
      this.key, this.value, this.hashv := key, value, hashv;
      next, prev, hhNext, hhPrev := null, null, null, null;
    }
  }

  /** HASH_TO_BKT */
  function Slot(hashv: nat, n: nat): (b: nat)
    requires n > 0
    ensures b < n
  {
    And(hashv, n - 1)
  }

  /** With a power of two of buckets, an item's bucket is its hash modulo their number. */
  lemma SlotIsRemainder(hashv: nat, k: nat)
    ensures Slot(hashv, Pow2(k)) == hashv % Pow2(k)
  {
    MaskIsRemainder(hashv, k);
  }

  // ----- chains as sequences -----

  function Flat<E>(cs: seq<seq<E>>): seq<E>
  {
    if cs == [] then [] else Flat(cs[..|cs| - 1]) + cs[|cs| - 1]
  }

  /** Every chain holds exactly the items of s whose hash selects its bucket, each once. */
  ghost predicate Placed<V>(cs: seq<seq<Item<V>>>, s: seq<Item<V>>)
  {
    && |cs| > 0
    && (forall b | 0 <= b < |cs| :: Distinct(cs[b]))
    && (forall b, i | 0 <= b < |cs| && 0 <= i < |cs[b]| :: cs[b][i] in s && Slot(cs[b][i].hashv, |cs|) == b)
    && (forall i | 0 <= i < |s| :: s[i] in cs[Slot(s[i].hashv, |cs|)])
  }

  /** The item in front of its bucket's chain. */
  function Push<V>(cs: seq<seq<Item<V>>>, x: Item<V>): (r: seq<seq<Item<V>>>)
    requires |cs| > 0
    ensures |r| == |cs|
  {
    var b := Slot(x.hashv, |cs|);
    cs[b := [x] + cs[b]]
  }

  /** The items of s pushed one after the other onto m empty chains. */
  function Distribute<V>(s: seq<Item<V>>, m: nat): (cs: seq<seq<Item<V>>>)
    requires m > 0
    ensures |cs| == m
  {
    if s == [] then seq(m, i => []) else Push(Distribute(s[..|s| - 1], m), s[|s| - 1])
  }

  /** The items beyond the ideal length, over all chains. */
  function Excess<E>(cs: seq<seq<E>>, ideal: nat): nat
  {
    if cs == [] then 0
    else
      var n := |cs[|cs| - 1]|;
      Excess(cs[..|cs| - 1], ideal) + if n > ideal then n - ideal else 0
  }

  lemma PushPlaces<V>(cs: seq<seq<Item<V>>>, s: seq<Item<V>>, x: Item<V>)
    requires Placed(cs, s) && x !in s
    ensures Placed(Push(cs, x), s + [x])
  {
    var b, r := Slot(x.hashv, |cs|), Push(cs, x);
    assert Distinct(r[b]) by {
      assert x !in cs[b];
    }
    forall i | 0 <= i < |s + [x]|
      ensures (s + [x])[i] in r[Slot((s + [x])[i].hashv, |r|)]
    {
      if i == |s| {
        assert r[b][0] == x;
      } else {
        assert s[i] in cs[Slot(s[i].hashv, |cs|)];
      }
    }
  }

  /** Distributing distinct items places them. */
  lemma {:induction false} DistributePlaces<V>(s: seq<Item<V>>, m: nat)
    requires m > 0 && Distinct(s)
    ensures Placed(Distribute(s, m), s)
  {
    if s == [] {
    } else {
      var t := s[..|s| - 1];
      DistributePlaces(t, m);
      PushPlaces(Distribute(t, m), t, s[|s| - 1]);
      assert t + [s[|s| - 1]] == s;
    }
  }

  /** Placing does not depend on the order of the items. */
  lemma PlacedSame<V>(cs: seq<seq<Item<V>>>, s: seq<Item<V>>, t: seq<Item<V>>)
    requires Placed(cs, s)
    requires (forall i | 0 <= i < |s| :: s[i] in t) && (forall i | 0 <= i < |t| :: t[i] in s)
    ensures Placed(cs, t)
  {
    forall i | 0 <= i < |t|
      ensures t[i] in cs[Slot(t[i].hashv, |cs|)]
    {
      var j :| 0 <= j < |s| && s[j] == t[i];
    }
  }

  lemma {:induction false} FlatEntry<E>(cs: seq<seq<E>>, b: nat, i: nat)
    requires b < |cs| && i < |cs[b]|
    ensures cs[b][i] in Flat(cs)
  {
    if b < |cs| - 1 {
      FlatEntry(cs[..|cs| - 1], b, i);
    }
  }

  lemma {:induction false} FlatFrom<E>(cs: seq<seq<E>>, k: nat) returns (b: nat, i: nat)
    requires k < |Flat(cs)|
    ensures b < |cs| && i < |cs[b]| && cs[b][i] == Flat(cs)[k]
  {
    var front := cs[..|cs| - 1];
    if k < |Flat(front)| {
      b, i := FlatFrom(front, k);
    } else {
      b, i := |cs| - 1, k - |Flat(front)|;
    }
  }

  /** Chains in which items are placed have no item twice, on one chain or on two. */
  lemma {:induction false} FlatDistinct<V>(cs: seq<seq<Item<V>>>, n: nat)
    requires forall b | 0 <= b < |cs| :: Distinct(cs[b])
    requires n > 0 && forall b, i | 0 <= b < |cs| && 0 <= i < |cs[b]| :: Slot(cs[b][i].hashv, n) == b
    ensures Distinct(Flat(cs))
  {
    if cs != [] {
      var front, last := cs[..|cs| - 1], cs[|cs| - 1];
      FlatDistinct(front, n);
      forall k, i | 0 <= k < |Flat(front)| && 0 <= i < |last|
        ensures Flat(front)[k] != last[i]
      {
        var b, j := FlatFrom(front, k);
        assert front[b][j] == cs[b][j];
      }
    }
  }

  lemma {:induction false} ExcessUpdate<E>(cs: seq<seq<E>>, b: nat, c: seq<E>, ideal: nat)
    requires b < |cs|
    ensures Excess(cs[b := c], ideal) - (if |c| > ideal then |c| - ideal else 0)
         == Excess(cs, ideal) - (if |cs[b]| > ideal then |cs[b]| - ideal else 0)
  {
    var n := |cs| - 1;
    if b == n {
      assert cs[b := c][..n] == cs[..n];
    } else {
      assert cs[b := c][..n] == cs[..n][b := c];
      ExcessUpdate(cs[..n], b, c, ideal);
    }
  }

  // ----- links -----

  function At<E>(s: seq<E>, i: int): Option<E>
  {
    if 0 <= i < |s| then Some(s[i]) else None
  }

  function Ref<V>(o: Option<Item<V>>): Item?<V>
  {
    if o.Some? then o.value else null
  }

  /** The items follow each other in the order they were added, in both directions. */
  ghost predicate Ordered<V>(s: seq<Item<V>>)
    reads s`next, s`prev
  {
    forall i | 0 <= i < |s| :: s[i].next == Ref(At(s, i + 1)) && s[i].prev == Ref(At(s, i - 1))
  }

  /** The items follow each other on a bucket's chain, in both directions. */
  ghost predicate Chained<V>(c: seq<Item<V>>)
    reads c`hhNext, c`hhPrev
  {
    forall i | 0 <= i < |c| :: c[i].hhNext == Ref(At(c, i + 1)) && c[i].hhPrev == Ref(At(c, i - 1))
  }

  /** The list changes of HASH_ADD_KEYPTR. */
  method AppendItem<V>(tail: Item<V>, add: Item<V>, ghost s: seq<Item<V>>)
    requires Ordered(s) && Distinct(s) && s != [] && tail == s[|s| - 1] && add !in s
    modifies tail`next, add`next, add`prev
    ensures Ordered(s + [add])
  {
    Links(s);
    hide At, Ref;
    add.next := null;
    tail.next := add;
    add.prev := tail;
    OrderedMore(s, add);
  }

  lemma Links<V>(s: seq<Item<V>>)
    requires Ordered(s)
    ensures forall i | 0 <= i < |s| - 1 :: s[i].next == s[i + 1]
    ensures forall i | 0 < i < |s| :: s[i].prev == s[i - 1]
    ensures s != [] ==> s[0].prev == null
  {
  }

  lemma OrderedMore<V>(s: seq<Item<V>>, x: Item<V>)
    requires s != [] && s[|s| - 1].next == x && x.prev == s[|s| - 1] && x.next == null && s[0].prev == null
    requires forall i | 0 <= i < |s| - 1 :: s[i].next == s[i + 1]
    requires forall i | 0 < i < |s| :: s[i].prev == s[i - 1]
    ensures Ordered(s + [x])
  {
    var r := s + [x];
    forall i | 0 <= i < |r|
      ensures r[i].next == Ref(At(r, i + 1)) && r[i].prev == Ref(At(r, i - 1))
    {
      assert i < |s| ==> r[i] == s[i];
    }
  }

  /** The links around position i bypass it; all others are as they were. */
  lemma CutOrdered<V>(s: seq<Item<V>>, i: nat)
    requires i < |s|
    requires forall k | 0 <= k < |s| && k != i :: s[k].next == Ref(At(s, if k == i - 1 then i + 1 else k + 1))
    requires forall k | 0 <= k < |s| && k != i :: s[k].prev == Ref(At(s, if k == i + 1 then i - 1 else k - 1))
    ensures Ordered(Cut(s, i))
  {
    hide At, Ref;
    var r := Cut(s, i);
    forall k | 0 <= k < |r|
      ensures r[k].next == Ref(At(r, k + 1)) && r[k].prev == Ref(At(r, k - 1))
    {
      CutAt(s, i, k);
      CutAt(s, i, k + 1);
      CutAt(s, i, k - 1);
    }
  }

  lemma CutChained<V>(s: seq<Item<V>>, i: nat)
    requires i < |s|
    requires forall k | 0 <= k < |s| && k != i :: s[k].hhNext == Ref(At(s, if k == i - 1 then i + 1 else k + 1))
    requires forall k | 0 <= k < |s| && k != i :: s[k].hhPrev == Ref(At(s, if k == i + 1 then i - 1 else k - 1))
    ensures Chained(Cut(s, i))
  {
    hide At, Ref;
    var r := Cut(s, i);
    forall k | 0 <= k < |r|
      ensures r[k].hhNext == Ref(At(r, k + 1)) && r[k].hhPrev == Ref(At(r, k - 1))
    {
      CutAt(s, i, k);
      CutAt(s, i, k + 1);
      CutAt(s, i, k - 1);
    }
  }

  lemma CutAt<E>(s: seq<E>, i: nat, k: int)
    requires i < |s|
    ensures At(Cut(s, i), k) == At(s, if k < i then k else k + 1)
    ensures 0 <= k < |s| - 1 ==> Cut(s, i)[k] == s[if k < i then k else k + 1]
  {
  }

  lemma Neighbours<V>(s: seq<Item<V>>, i: nat)
    requires Ordered(s) && i < |s|
    ensures s[i].next == if i + 1 < |s| then s[i + 1] else null
    ensures s[i].prev == if i > 0 then s[i - 1] else null
  {
  }

  lemma ChainNeighbours<V>(c: seq<Item<V>>, i: nat)
    requires Chained(c) && i < |c|
    ensures c[i].hhNext == if i + 1 < |c| then c[i + 1] else null
    ensures c[i].hhPrev == if i > 0 then c[i - 1] else null
    ensures Ref(At(c, i)) == c[i]
  {
  }

  /** The list changes of HASH_DELETE. */
  method UnlinkItem<V>(head: Item<V>, tail: Item<V>, del: Item<V>, ghost s: seq<Item<V>>, ghost i: nat)
    returns (head': Item?<V>, tail': Item?<V>)
    requires Ordered(s) && Distinct(s) && i < |s| && |s| > 1 && del == s[i] && head == s[0] && tail == s[|s| - 1]
    modifies s`next, s`prev
    ensures Ordered(Cut(s, i)) && head' == Cut(s, i)[0] && tail' == Cut(s, i)[|s| - 2]
  {
    hide At, Ref, Cut;
    Neighbours(s, i);
    CutAt(s, i, 0);
    CutAt(s, i, |s| - 2);
    head', tail' := head, tail;
    if del == tail {
      tail' := del.prev;
    }
    if del.prev != null {
      del.prev.next := del.next;
    } else {
      head' := del.next;
    }
    if del.next != null {
      del.next.prev := del.prev;
    }
    CutOrdered(s, i);
  }

  /** The chain changes of HASH_ADD_TO_BKT. */
  method PushItem<V>(hhHead: Item?<V>, add: Item<V>, ghost c: seq<Item<V>>)
    requires Chained(c) && Distinct(c) && hhHead == Ref(At(c, 0)) && add !in c
    modifies c`hhPrev, add`hhNext, add`hhPrev
    ensures Chained([add] + c)
  {
    add.hhNext := hhHead;
    add.hhPrev := null;
    if hhHead != null {
      hhHead.hhPrev := add;
    }
  }

  /** HASH_DEL_IN_BKT, but for the count. */
  method UnchainItem<V>(hhHead: Item<V>, del: Item<V>, ghost c: seq<Item<V>>, ghost i: nat) returns (hhHead': Item?<V>)
    requires Chained(c) && Distinct(c) && i < |c| && del == c[i] && hhHead == c[0]
    modifies c`hhNext, c`hhPrev
    ensures Chained(Cut(c, i)) && hhHead' == Ref(At(Cut(c, i), 0))
  {
    hide At, Ref, Cut;
    ChainNeighbours(c, i);
    ChainNeighbours(c, 0);
    CutAt(c, i, 0);
    hhHead' := hhHead;
    if hhHead == del {
      hhHead' := del.hhNext;
    }
    if del.hhPrev != null {
      del.hhPrev.hhNext := del.hhNext;
    }
    if del.hhNext != null {
      del.hhNext.hhPrev := del.hhPrev;
    }
    CutChained(c, i);
  }

  /** The item with the key in a sequence of items. */
  function Lookup<V>(s: seq<Item<V>>, key: string): Option<Item<V>>
  {
    if s == [] then None else if s[0].key == key then Some(s[0]) else Lookup(s[1..], key)
  }

  /** HASH_FIND_IN_BKT */
  method FindInBucket<V>(hhHead: Item?<V>, key: string, ghost c: seq<Item<V>>) returns (out: Item?<V>)
    requires Chained(c) && hhHead == Ref(At(c, 0))
    ensures out == Ref(Lookup(c, key))
  {
    out := hhHead;
    ghost var i := 0;
    while out != null
      invariant 0 <= i <= |c| && out == Ref(At(c, i)) && Lookup(c, key) == Lookup(c[i..], key)
      decreases |c| - i
    {
      assert c[i..][1..] == c[i + 1..];
      if out.key == key {
        break;
      }
      out := out.hhNext;
      i := i + 1;
    }
  }

  // ----- buckets -----

  datatype Bucket<V> = Bucket(hhHead: Item?<V>, count: nat, expandMult: nat)

  /** The buckets hold these chains, which are made of items of s. */
  ghost predicate Linked<V>(bs: seq<Bucket<V>>, cs: seq<seq<Item<V>>>, s: seq<Item<V>>)
    reads s`hhNext, s`hhPrev
  {
    && |bs| == |cs|
    && (forall b, i | 0 <= b < |cs| && 0 <= i < |cs[b]| :: cs[b][i] in s)
    && (forall b | 0 <= b < |cs| :: Chained(cs[b]) && bs[b].hhHead == Ref(At(cs[b], 0)) && bs[b].count == |cs[b]|)
  }

  /** HASH_ADD_TO_BKT, up to the expansion: the item goes in front of its bucket's chain. */
  method PushBucket<V>(buckets: array<Bucket<V>>, bkt: nat, add: Item<V>, ghost cs: seq<seq<Item<V>>>,
                       ghost s: seq<Item<V>>)
    requires Linked(buckets[..], cs, s) && Placed(cs, s) && add !in s && bkt == Slot(add.hashv, |cs|)
    modifies buckets, s`hhPrev, add`hhNext, add`hhPrev
    ensures Linked(buckets[..], Push(cs, add), s + [add])
    ensures buckets[..] == old(buckets[..])[
                             bkt := Bucket(add, old(buckets[bkt].count) + 1, old(buckets[bkt].expandMult))]
  {
    ghost var c, bs := cs[bkt], buckets[..];
    hide At, Ref, Chained, Distinct, Linked, Placed, Slot;
    LinkedHeads(bs, cs, s);
    LinkedSize(bs, cs, s);
    ChainsApart(cs, s, bkt);
    var head := buckets[bkt];
    PushItem(head.hhHead, add, c);
    buckets[bkt] := Bucket(add, head.count + 1, head.expandMult);
    assert buckets[..] == bs[bkt := Bucket(add, head.count + 1, head.expandMult)];
    FirstOf(add, c);
    LinkedChanged(bs, cs, s + [add], bkt, buckets[bkt], [add] + c);
  }

  lemma FirstOf<V>(x: Item<V>, c: seq<Item<V>>)
    ensures Ref(At([x] + c, 0)) == x
  {
  }

  // ----- expansion -----

  /** The chain's forward links. */
  ghost predicate Forward<V>(c: seq<Item<V>>)
    reads c`hhNext
  {
    forall i | 0 <= i < |c| :: c[i].hhNext == Ref(At(c, i + 1))
  }

  /** How often a bucket's chain is longer than ideal, if it is. */
  function Multiple(count: nat, ideal: nat): nat
  {
    if ideal > 0 && count > ideal then count / ideal else 0
  }

  /** A bucket within the ideal length has no multiple; another holds at least that many ideal lengths, and no more. */
  lemma MultipleBounds(count: nat, ideal: nat)
    requires ideal > 0
    ensures count <= ideal ==> Multiple(count, ideal) == 0
    ensures count > ideal ==> Multiple(count, ideal) * ideal <= count < (Multiple(count, ideal) + 1) * ideal
  {
  }

  /** The places on chains beyond the ideal length. */
  ghost function Beyond<E>(cs: seq<seq<E>>, ideal: nat): set<(int, int)>
  {
    set b, i | 0 <= b < |cs| && ideal <= i < |cs[b]| :: (b, i)
  }

  /** The items beyond the ideal length are counted once each. */
  lemma {:induction false} ExcessCounts<E>(cs: seq<seq<E>>, ideal: nat)
    ensures |Beyond(cs, ideal)| == Excess(cs, ideal)
  {
    if cs == [] {
      assert Beyond(cs, ideal) == {};
    } else {
      var n, init := |cs| - 1, cs[..|cs| - 1];
      ExcessCounts(init, ideal);
      var last := set i | ideal <= i < |cs[n]| :: (n, i);
      assert Beyond(cs, ideal) == Beyond(init, ideal) + last;
      assert Beyond(init, ideal) !! last;
      CountFrom(n, ideal, |cs[n]|);
    }
  }

  lemma {:induction false} CountFrom(n: int, low: nat, high: nat)
    ensures |set i | low <= i < high :: (n, i)| == if high > low then high - low else 0
    decreases high
  {
    var s := set i | low <= i < high :: (n, i);
    if high <= low {
      assert s == {};
    } else {
      CountFrom(n, low, high - 1);
      assert s == (set i | low <= i < high - 1 :: (n, i)) + {(n, high - 1)};
    }
  }

  /** The new buckets of an expansion, after the items of done were moved to them. */
  ghost predicate Moved<V>(bs: seq<Bucket<V>>, done: seq<Item<V>>, m: nat, ideal: nat, nonideal: nat)
    requires m > 0
    reads done`hhNext, done`hhPrev
  {
    && Linked(bs, Distribute(done, m), done)
    && nonideal == Excess(Distribute(done, m), ideal)
    && forall b | 0 <= b < |bs| :: bs[b].expandMult == Multiple(bs[b].count, ideal)
  }

  lemma DistributeNext<V>(done: seq<Item<V>>, x: Item<V>, m: nat, ideal: nat)
    requires m > 0
    ensures Distribute(done + [x], m) == Push(Distribute(done, m), x)
    ensures var cs := Distribute(done, m);
            Excess(Push(cs, x), ideal) == Excess(cs, ideal) + if |cs[Slot(x.hashv, m)]| >= ideal then 1 else 0
  {
    assert (done + [x])[..|done|] == done;
    var cs, b := Distribute(done, m), Slot(x.hashv, m);
    ExcessUpdate(cs, b, [x] + cs[b], ideal);
  }

  /** The multiplier takes no part in the linking. */
  lemma LinkedAnyMultiplier<V>(bs: seq<Bucket<V>>, cs: seq<seq<Item<V>>>, s: seq<Item<V>>, b: nat, mult: nat)
    requires Linked(bs, cs, s) && b < |bs|
    ensures bs[b].count == |cs[b]| && Linked(bs[b := bs[b].(expandMult := mult)], cs, s)
  {
  }

  /** One turn of the inner loop of HASH_EXPAND_BUCKETS. */
  method MoveItem<V>(newBuckets: array<Bucket<V>>, thh: Item<V>, ideal: nat, nonideal: nat, ghost done: seq<Item<V>>)
    returns (nonideal': nat)
    requires newBuckets.Length > 0 && ideal > 0 && Distinct(done) && thh !in done
    requires Moved(newBuckets[..], done, newBuckets.Length, ideal, nonideal)
    modifies newBuckets, done`hhPrev, thh`hhNext, thh`hhPrev
    ensures Moved(newBuckets[..], done + [thh], newBuckets.Length, ideal, nonideal')
  {
    hide Linked, Placed, Distribute, Push, Excess, Distinct, Slot, Chained;
    ghost var m := newBuckets.Length;
    ghost var cs := Distribute(done, m);
    DistributePlaces(done, m);
    DistributeNext(done, thh, m, ideal);
    var bkt := Slot(thh.hashv, newBuckets.Length);
    LinkedAnyMultiplier(newBuckets[..], cs, done, bkt, 0);
    PushBucket(newBuckets, bkt, thh, cs, done);
    nonideal' := nonideal;
    if newBuckets[bkt].count > ideal {
      nonideal' := nonideal + 1;
      var mult := newBuckets[bkt].count / ideal;
      LinkedAnyMultiplier(newBuckets[..], Push(cs, thh), done + [thh], bkt, mult);
      ghost var bs := newBuckets[..];
      newBuckets[bkt] := newBuckets[bkt].(expandMult := mult);
      assert newBuckets[..] == bs[bkt := bs[bkt].(expandMult := mult)];
    }
  }

  /** The inner loop of HASH_EXPAND_BUCKETS: an old chain is moved, item by item. */
  method MoveChain<V>(newBuckets: array<Bucket<V>>, hhHead: Item?<V>, ideal: nat, nonideal0: nat,
                      ghost c: seq<Item<V>>, ghost done: seq<Item<V>>)
    returns (nonideal: nat)
    requires newBuckets.Length > 0 && ideal > 0 && Distinct(done + c)
    requires Forward(c) && hhHead == Ref(At(c, 0))
    requires Moved(newBuckets[..], done, newBuckets.Length, ideal, nonideal0)
    modifies newBuckets, done`hhPrev, c`hhNext, c`hhPrev
    ensures Moved(newBuckets[..], done + c, newBuckets.Length, ideal, nonideal)
  {
    hide Moved, Ref, At, Distinct, Forward;
    nonideal := nonideal0;
    var thh := hhHead;
    ghost var moved, left := done, c;
    while thh != null
      invariant Moved(newBuckets[..], moved, newBuckets.Length, ideal, nonideal)
      invariant Forward(left) && thh == Ref(At(left, 0))
      invariant moved + left == done + c
      invariant forall i | 0 <= i < |moved| :: moved[i] in done || moved[i] in c
      invariant forall i | 0 <= i < |left| :: left[i] in c
      decreases |left|
    {
      ForwardSplits(left);
      DistinctSplits(moved, left);
      var nxt := thh.hhNext;
      nonideal := MoveItem(newBuckets, thh, ideal, nonideal, moved);
      thh := nxt;
      moved, left := moved + [left[0]], left[1..];
    }
    ForwardSplits(left);
    assert done + c == moved + [] == moved;
  }

  lemma ForwardSplits<V>(c: seq<Item<V>>)
    requires Forward(c)
    ensures Ref(At(c, 0)) == null <==> c == []
    ensures c != [] ==> Ref(At(c, 0)) == c[0] && Forward(c[1..]) && c[0].hhNext == Ref(At(c[1..], 0))
  {
  }

  lemma DistinctSplits<E>(a: seq<E>, b: seq<E>)
    requires Distinct(a + b) && b != []
    ensures Distinct(a) && b[0] !in a && b[0] !in b[1..] && (a + [b[0]]) + b[1..] == a + b
  {
    var s := a + b;
    assert forall i | 0 <= i < |a| :: a[i] == s[i];
    assert forall i | 0 <= i < |b| :: b[i] == s[|a| + i];
  }

  lemma RefOf<V>(c: seq<Item<V>>, k: nat)
    requires k <= |c|
    ensures (Ref(At(c, k)) == null <==> k == |c|) && (k < |c| ==> Ref(At(c, k)) == c[k])
  {
  }

  lemma {:induction false} NoExcess<E>(m: nat, ideal: nat)
    ensures Excess<E>(seq(m, i => []), ideal) == 0
  {
    var cs: seq<seq<E>> := seq(m, i => []);
    if m > 0 {
      NoExcess<E>(m - 1, ideal);
      assert cs[..m - 1] == seq(m - 1, i => []);
    }
  }

  lemma NothingMoved<V>(bs: seq<Bucket<V>>, ideal: nat)
    requires |bs| > 0 && forall b | 0 <= b < |bs| :: bs[b] == Bucket(null, 0, 0)
    ensures Moved(bs, [], |bs|, ideal, 0)
  {
    NoExcess<Item<V>>(|bs|, ideal);
  }

  lemma DistinctParts<E>(a: seq<E>, b: seq<E>)
    requires Distinct(a + b)
    ensures Distinct(a) && forall k | 0 <= k < |b| :: b[k] !in a
  {
    var s := a + b;
    assert forall i | 0 <= i < |a| :: a[i] == s[i];
    assert forall k | 0 <= k < |b| :: b[k] == s[|a| + k];
  }

  /** The first chains, one more chain, and the later ones have no item in common. */
  lemma {:induction false} FlatParts<E>(cs: seq<seq<E>>, i: nat)
    requires Distinct(Flat(cs)) && i < |cs|
    ensures Distinct(Flat(cs[..i]) + cs[i]) && Flat(cs[..i + 1]) == Flat(cs[..i]) + cs[i]
    ensures forall j, k | i < j < |cs| && 0 <= k < |cs[j]| :: cs[j][k] !in cs[i]
    decreases |cs|
  {
    var n := |cs| - 1;
    assert cs[..i + 1][..i] == cs[..i];
    if i == n {
      assert cs[..i + 1] == cs;
    } else {
      assert cs[..n][..i] == cs[..i] && cs[..n][..i + 1] == cs[..i + 1];
      DistinctParts(Flat(cs[..n]), cs[n]);
      FlatParts(cs[..n], i);
      forall k, l | 0 <= k < |cs[n]| && 0 <= l < |cs[i]|
        ensures cs[n][k] != cs[i][l]
      {
        FlatEntry(cs[..n], i, l);
      }
    }
  }

  /** The loops of HASH_EXPAND_BUCKETS: all old chains are moved to twice as many new buckets. */
  method Redistribute<V>(oldBuckets: array<Bucket<V>>, ideal: nat, ghost cs: seq<seq<Item<V>>>, ghost s: seq<Item<V>>)
    returns (newBuckets: array<Bucket<V>>, nonideal: nat)
    requires |cs| > 0 && ideal > 0 && Linked(oldBuckets[..], cs, s) && Distinct(Flat(cs))
    modifies s`hhNext, s`hhPrev
    ensures fresh(newBuckets) && newBuckets.Length == 2 * |cs|
    ensures Moved(newBuckets[..], Flat(cs), 2 * |cs|, ideal, nonideal)
  {
    HeadsOf(oldBuckets[..], cs, s);
    hide Moved, Linked, Chained, Forward, Ref, At, Distinct, Flat;
    newBuckets := new Bucket<V>[2 * oldBuckets.Length](b => Bucket(null, 0, 0));
    nonideal := 0;
    NothingMoved(newBuckets[..], ideal);
    var i := 0;
    FlatNothing<Item<V>>();
    assert cs[..0] == [];
    while i < oldBuckets.Length
      invariant 0 <= i <= |cs| && fresh(newBuckets) && oldBuckets[..] == old(oldBuckets[..])
      invariant Moved(newBuckets[..], Flat(cs[..i]), 2 * |cs|, ideal, nonideal)
      invariant forall j | i <= j < |cs| :: Forward(cs[j])
    {
      FlatParts(cs, i);
      FlatWithin(cs, i, s);
      nonideal := MoveChain(newBuckets, oldBuckets[i].hhHead, ideal, nonideal, cs[i], Flat(cs[..i]));
      i := i + 1;
    }
    assert cs[..i] == cs;
  }

  lemma FlatNothing<E>()
    ensures Flat<E>([]) == []
  {
  }

  lemma HeadsOf<V>(bs: seq<Bucket<V>>, cs: seq<seq<Item<V>>>, s: seq<Item<V>>)
    requires Linked(bs, cs, s)
    ensures |bs| == |cs| && forall b | 0 <= b < |cs| :: bs[b].hhHead == Ref(At(cs[b], 0)) && Forward(cs[b])
    ensures forall b, i | 0 <= b < |cs| && 0 <= i < |cs[b]| :: cs[b][i] in s
  {
  }

  lemma FlatWithin<E>(cs: seq<seq<E>>, i: nat, s: seq<E>)
    requires i < |cs| && forall b, j | 0 <= b < |cs| && 0 <= j < |cs[b]| :: cs[b][j] in s
    ensures forall k | 0 <= k < |Flat(cs[..i])| :: Flat(cs[..i])[k] in s
  {
    forall k | 0 <= k < |Flat(cs[..i])|
      ensures Flat(cs[..i])[k] in s
    {
      var b, j := FlatFrom(cs[..i], k);
      assert cs[b][j] == Flat(cs[..i])[k];
    }
  }

  // ----- tables -----

  /** Every item carries its key's hash, and no key occurs twice. */
  ghost predicate Keyed<V>(s: seq<Item<V>>, hash: string -> nat)
  {
    && (forall i | 0 <= i < |s| :: s[i].hashv == hash(s[i].key))
    && (forall i, j | 0 <= i < j < |s| :: s[i].key != s[j].key)
  }

  /** The list part of a table. */
  ghost predicate Listed<V>(head: Item?<V>, tail: Item?<V>, numItems: nat, s: seq<Item<V>>)
    reads s`next, s`prev
  {
    s != [] && head == s[0] && tail == s[|s| - 1] && Ordered(s) && Distinct(s) && numItems == |s|
  }

  /** The bucket part of a table: a power of two of buckets that hold the items' chains. */
  ghost predicate Hashed<V>(bs: seq<Bucket<V>>, cs: seq<seq<Item<V>>>, s: seq<Item<V>>, log2NumBuckets: nat)
    reads s`hhNext, s`hhPrev
  {
    |bs| == Pow2(log2NumBuckets) && Placed(cs, s) && Linked(bs, cs, s)
  }

  /** Placed chains together hold exactly the items, each once. */
  lemma PlacedFlat<V>(cs: seq<seq<Item<V>>>, s: seq<Item<V>>)
    requires Placed(cs, s)
    ensures Distinct(Flat(cs))
    ensures (forall k | 0 <= k < |Flat(cs)| :: Flat(cs)[k] in s) && (forall k | 0 <= k < |s| :: s[k] in Flat(cs))
  {
    FlatDistinct(cs, |cs|);
    forall k | 0 <= k < |Flat(cs)|
      ensures Flat(cs)[k] in s
    {
      var b, i := FlatFrom(cs, k);
    }
    forall k | 0 <= k < |s|
      ensures s[k] in Flat(cs)
    {
      var b := Slot(s[k].hashv, |cs|);
      var i :| 0 <= i < |cs[b]| && cs[b][i] == s[k];
      FlatEntry(cs, b, i);
    }
  }

  /** The moved chains hold the items that the old ones held. */
  lemma MovedPlaced<V>(cs: seq<seq<Item<V>>>, s: seq<Item<V>>, m: nat)
    requires Placed(cs, s) && m > 0
    ensures Distinct(Flat(cs)) && Placed(Distribute(Flat(cs), m), s)
  {
    PlacedFlat(cs, s);
    DistributePlaces(Flat(cs), m);
    PlacedSame(Distribute(Flat(cs), m), Flat(cs), s);
  }

  lemma CeilingPositive(a: nat, m: nat, c: nat)
    requires IsCeiling(a, m, c) && a > 0
    ensures c > 0
  {
  }

  lemma Pow2Next(k: nat)
    ensures Pow2(k + 1) == 2 * Pow2(k)
  {
  }

  /**
   The measures of an expansion: the ideal chain length is the number of items over the number of buckets,
   rounded up; the items beyond it are counted; and each bucket has its multiple of it.
   */
  ghost predicate Measured<V>(bs: seq<Bucket<V>>, cs: seq<seq<Item<V>>>, numItems: nat, ideal: nat, nonideal: nat)
  {
    && |bs| == |cs| > 0 && IsCeiling(numItems, |bs|, ideal)
    && nonideal == Excess(cs, ideal)
    && forall b | 0 <= b < |bs| :: bs[b].expandMult == Multiple(|cs[b]|, ideal)
  }

  /** The new buckets of HASH_EXPAND_BUCKETS, the ideal chain length, and how many items exceed it. */
  method DoubleBuckets<V>(buckets: array<Bucket<V>>, log2NumBuckets: nat, numItems: nat, ghost cs: seq<seq<Item<V>>>,
                          ghost s: seq<Item<V>>)
    returns (newBuckets: array<Bucket<V>>, ideal: nat, nonideal: nat)
    requires Placed(cs, s) && Linked(buckets[..], cs, s) && buckets.Length == Pow2(log2NumBuckets) && numItems > 0
    modifies s`hhNext, s`hhPrev
    ensures fresh(newBuckets) && newBuckets.Length == 2 * buckets.Length
    ensures var cs' := Distribute(Flat(cs), newBuckets.Length);
            Placed(cs', s) && Linked(newBuckets[..], cs', s) && Measured(newBuckets[..], cs', numItems, ideal, nonideal)
  {
    hide Linked, Placed, Distribute, Flat, Excess, IsCeiling, Distinct, Chained, And, Shr, Pow2;
    CeilingByShift(numItems, log2NumBuckets + 1);
    Pow2Next(log2NumBuckets);
    LinkedSize(buckets[..], cs, s);
    MovedPlaced(cs, s, 2 * buckets.Length);
    ideal := Shr(numItems, log2NumBuckets + 1) + if And(numItems, buckets.Length * 2 - 1) != 0 then 1 else 0;
    CeilingPositive(numItems, 2 * buckets.Length, ideal);
    newBuckets, nonideal := Redistribute(buckets, ideal, cs, s);
    LinkedSame(newBuckets[..], Distribute(Flat(cs), newBuckets.Length), Flat(cs), s);
  }

  /** What a table notes about its expansions. */
  datatype Growth = Growth(idealChainMaxlen: nat, nonidealItems: nat, ineffExpands: nat, noexpand: bool)

  const NEW_TABLE := Growth(0, 0, 0, false)

  class Table<V> {
    const hash: string -> nat
    var head: Item?<V>
    var tail: Item?<V>
    var buckets: array<Bucket<V>>
    var log2NumBuckets: nat
    var numItems: nat
    var growth: Growth
    ghost var order: seq<Item<V>>
    ghost var chains: seq<seq<Item<V>>>

    /** A table without items has no head; the other fields are of a table that was freed. */
    ghost predicate Valid()
      reads this, buckets, order
    {
      if head == null then order == []
      else
        Listed(head, tail, numItems, order) && Keyed(order, hash) && Hashed(buckets[..], chains, order, log2NumBuckets)
    }

    constructor (hash: string -> nat)
      ensures Valid() && order == [] && this.hash == hash && fresh(buckets)
    {
      this.hash := hash;
      head, tail, order, chains := null, null, [], [];
      buckets := new Bucket<V>[0];
      log2NumBuckets, numItems, growth := 0, 0, NEW_TABLE;
    }

    /** HASH_EXPAND_BUCKETS */
    method Expand()
      requires Valid() && head != null
      modifies this, order`hhNext, order`hhPrev
      ensures Valid() && order == old(order) && head == old(head) && tail == old(tail) && numItems == old(numItems)
      ensures fresh(buckets) && buckets.Length == 2 * old(buckets.Length) && log2NumBuckets == old(log2NumBuckets) + 1
      ensures chains == Distribute(Flat(old(chains)), buckets.Length)
      ensures Measured(buckets[..], chains, numItems, growth.idealChainMaxlen, growth.nonidealItems)
      ensures growth.ineffExpands == if growth.nonidealItems > numItems / 2 then old(growth.ineffExpands) + 1 else 0
      ensures growth.noexpand <==> old(growth.noexpand) || growth.ineffExpands > 1
    {
      hide Linked, Placed, Distribute, Flat, Excess, Listed, Keyed, Measured, Distinct, Chained, Pow2;
      ListedSome(head, tail, numItems, order);
      Pow2Next(log2NumBuckets);
      var newBuckets, ideal, nonideal := DoubleBuckets(buckets, log2NumBuckets, numItems, chains, order);
      ghost var newChains := Distribute(Flat(chains), newBuckets.Length);
      assert Listed(head, tail, numItems, order) && Linked(newBuckets[..], newChains, order);
      var ineff := if nonideal > numItems / 2 then growth.ineffExpands + 1 else 0;
      growth := Growth(ideal, nonideal, ineff, growth.noexpand || ineff > 1);
      buckets, chains, log2NumBuckets := newBuckets, newChains, log2NumBuckets + 1;
    }

    /** HASH_MAKE_TABLE */
    method MakeTable()
      modifies this`buckets, this`log2NumBuckets, this`numItems, this`growth, this`chains
      ensures fresh(buckets) && numItems == 0 && growth == NEW_TABLE && log2NumBuckets == HASH_INITIAL_NUM_BUCKETS_LOG2
      ensures forall b | 0 <= b < buckets.Length :: buckets[b] == Bucket(null, 0, 0)
      ensures buckets.Length == 32 && Hashed(buckets[..], chains, [], log2NumBuckets)
    {
      buckets := new Bucket<V>[HASH_INITIAL_NUM_BUCKETS](b => Bucket(null, 0, 0));
      log2NumBuckets, numItems, growth := HASH_INITIAL_NUM_BUCKETS_LOG2, 0, NEW_TABLE;
      chains := Distribute([], HASH_INITIAL_NUM_BUCKETS);
      Pow2Initial();
    }

    /** The new item's place at the end of the list. */
    method Enlist(add: Item<V>)
      requires Valid() && add !in order
      modifies this, order`next, add`next, add`prev
      ensures Listed(head, tail, numItems, order + [add]) && order == old(order) && head != null
      ensures Hashed(buckets[..], chains, order, log2NumBuckets)
      ensures old(head) == null ==>
                fresh(buckets) && log2NumBuckets == HASH_INITIAL_NUM_BUCKETS_LOG2 && growth == NEW_TABLE
      ensures old(head) == null ==> forall b | 0 <= b < buckets.Length :: buckets[b] == Bucket(null, 0, 0)
      ensures old(head) != null ==> buckets == old(buckets) && buckets[..] == old(buckets[..])
      ensures old(head) != null ==> log2NumBuckets == old(log2NumBuckets) && growth == old(growth)
    {
      hide Hashed, Listed, Ordered, Placed, Linked, Distinct, Keyed;
      if head == null {
        add.next, add.prev := null, null;
        head, tail := add, add;
        MakeTable();
        OneItem(add);
      } else {
        ListedSome(head, tail, numItems, order);
        ListEnds(head, tail, numItems, order, |order| - 1);
        AppendItem(tail, add, order);
        ListedMore(head, order, add);
        tail := add;
      }
      numItems := numItems + 1;
    }

    /** HASH_ADD_KEYPTR up to the expansion: the item is on the list and on its chain. */
    method Insert(add: Item<V>) returns (bkt: nat)
      requires Valid() && add !in order && add.hashv == hash(add.key) && Lookup(order, add.key) == None
      modifies this, buckets, order, add
      ensures Valid() && order == old(order) + [add] && bkt < buckets.Length
      ensures buckets == old(buckets) || fresh(buckets)
      ensures old(head) == null ==>
                log2NumBuckets == HASH_INITIAL_NUM_BUCKETS_LOG2 && buckets[bkt].count == 1 && growth == NEW_TABLE
      ensures old(head) == null ==> buckets[bkt].expandMult == 0
      ensures old(head) != null ==> log2NumBuckets == old(log2NumBuckets) && growth == old(growth)
      ensures old(head) != null ==> bkt < old(buckets.Length) && bkt == Slot(add.hashv, old(buckets.Length))
      ensures old(head) != null ==>
                buckets[bkt] == Bucket(add, old(buckets[bkt].count) + 1, old(buckets[bkt].expandMult))
    {
      hide Listed, Hashed, Distinct, Keyed, Chained, Slot, Push, Lookup, Pow2;
      KeyedMore(order, add, hash);
      Enlist(add);
      bkt := AddToBucket(buckets, add, chains, order, log2NumBuckets);
      order, chains := order + [add], Push(chains, add);
    }

    /** HASH_ADD_KEYPTR of an item whose key is not in the table yet. */
    method Add(add: Item<V>)
      requires Valid() && add !in order && add.hashv == hash(add.key) && Lookup(order, add.key) == None
      modifies this, buckets, order, add
      ensures Valid() && order == old(order) + [add]
      ensures buckets == old(buckets) || fresh(buckets)
      ensures old(head) == null ==> log2NumBuckets == 5
      ensures old(head) != null ==> old(buckets.Length) > 0
      ensures old(head) != null ==>
                var b := old(buckets[..])[Slot(add.hashv, old(buckets.Length))];
                log2NumBuckets == old(log2NumBuckets)
                  + if b.count + 1 >= (b.expandMult + 1) * 10 && !old(growth.noexpand) then 1 else 0
    {
      hide Listed, Hashed, Keyed, Lookup;
      var bkt := Insert(add);
      if buckets[bkt].count >= (buckets[bkt].expandMult + 1) * HASH_BKT_CAPACITY_THRESH && !growth.noexpand {
        Expand();
      }
    }

    /** HASH_FIND */
    method Find(key: string) returns (out: Item?<V>)
      requires Valid()
      ensures out == Ref(Lookup(order, key))
    {
      hide Listed, Linked, Placed, Keyed, Chained, Slot;
      out := null;
      if head != null {
        LookupInChain(chains, order, hash, key);
        LinkedHeads(buckets[..], chains, order);
        var bkt := Slot(hash(key), buckets.Length);
        out := FindInBucket(buckets[bkt].hhHead, key, chains[bkt]);
      }
    }

    /** HASH_DELETE: the table is freed with its last item. */
    method Delete(del: Item<V>, ghost i: nat)
      requires Valid() && i < |order| && order[i] == del
      modifies this, buckets, order
      ensures Valid() && order == Cut(old(order), i) && buckets == old(buckets)
      ensures head == null <==> |old(order)| == 1
    {
      hide Listed, Linked, Placed, Keyed, Chained, Ordered, Distinct, Slot;
      ListEnds(head, tail, numItems, order, i);
      if del.prev == null && del.next == null {
        head, order, chains := null, [], [];
      } else {
        DeleteOne(del, i);
      }
    }

    /** The branch of HASH_DELETE for a table that keeps other items. */
    method DeleteOne(del: Item<V>, ghost i: nat)
      requires Valid() && i < |order| && order[i] == del && |order| > 1
      modifies this, buckets, order
      ensures Valid() && order == Cut(old(order), i) && buckets == old(buckets) && head != null
    {
      hide Listed, Hashed, Linked, Placed, Keyed, Chained, Ordered, Distinct, Slot, Cut;
      CutWithin(order, i, order);
      var h, t := TakeOffList(head, tail, del, numItems, order, i);
      ghost var cs := RemoveFromBucket(buckets, del, chains, order, i, log2NumBuckets);
      KeyedCut(order, i, hash);
      assert Listed(h, t, numItems - 1, Cut(order, i));
      head, tail, numItems, order, chains := h, t, numItems - 1, Cut(order, i), cs;
    }

    /** HASH_ITER */
    method ToSeq() returns (items: seq<Item<V>>)
      requires Valid()
      ensures items == order
    {
      hide Hashed, Keyed, Listed, Ordered, At, Ref;
      items := [];
      var el := head;
      if head != null {
        ListedSome(head, tail, numItems, order);
        ListEnds(head, tail, numItems, order, 0);
      }
      while el != null
        invariant |items| <= |order| && items == order[..|items|]
        invariant el == if |items| < |order| then order[|items|] else null
        decreases |order| - |items|
      {
        Neighbours(order, |items|);
        items, el := items + [el], el.next;
      }
    }

    /** One use of the table as the agent makes it: HASH_FIND first, then HASH_ADD or HASH_DELETE. */
    method Perform(op: Op<V>) returns (result: Option<V>)
      requires Valid()
      modifies this, buckets, order
      ensures Valid() && (Entries(order), result) == Applied(Entries(old(order)), op)
      ensures buckets == old(buckets) || fresh(buckets)
      ensures forall i | 0 <= i < |order| :: order[i] in old(order) || fresh(order[i])
    {
      hide Listed, Hashed, Keyed, Lookup, EntryGet, Entries;
      EntriesLookup(order, op.key);
      var found := Find(op.key);
      result := if found == null then None else Some(found.value);
      match op
      case Get(_) =>
      case Put(key, value) =>
        if found == null {
          var add := new Item(key, value, hash(key));
          EntriesMore(order, add);
          Add(add);
        }
      case Remove(key) =>
        if found != null {
          LookupFinds(order, key);
          ghost var i :| 0 <= i < |order| && order[i] == found;
          KeyedSome(order, hash, i);
          EntriesCut(order, i);
          CutWithin(order, i, order);
          Delete(found, i);
        }
    }

    /** Any sequence of uses agrees with the map that remembers the order of insertion. */
    method Run(ops: seq<Op<V>>) returns (results: seq<Option<V>>)
      requires Valid()
      modifies this, buckets, order
      ensures Valid() && (Entries(order), results) == AppliedAll(Entries(old(order)), ops)
    {
      hide Applied, AppliedAll, Entries, Listed, Hashed, Keyed;
      results := [];
      var i := 0;
      assert ops[..0] == [];
      NothingApplied(Entries(order));
      while i < |ops|
        invariant 0 <= i <= |ops| && Valid()
        invariant (Entries(order), results) == AppliedAll(Entries(old(order)), ops[..i])
        invariant buckets == old(buckets) || fresh(buckets)
        invariant forall k | 0 <= k < |order| :: order[k] in old(order) || fresh(order[k])
      {
        AppliedNext(Entries(old(order)), ops, i);
        var result := Perform(ops[i]);
        results := results + [result];
        i := i + 1;
      }
      assert ops[..i] == ops;
    }
  }

  // ----- the table as a map that remembers the order of insertion -----

  datatype Op<V> = Put(key: string, value: V) | Get(key: string) | Remove(key: string)

  function Entries<V>(s: seq<Item<V>>): (m: seq<(string, V)>)
    ensures |m| == |s|
    ensures forall i | 0 <= i < |s| :: m[i] == (s[i].key, s[i].value)
  {
    if s == [] then [] else Entries(s[..|s| - 1]) + [(s[|s| - 1].key, s[|s| - 1].value)]
  }

  function EntryGet<V>(m: seq<(string, V)>, key: string): Option<V>
  {
    if m == [] then None else if m[0].0 == key then Some(m[0].1) else EntryGet(m[1..], key)
  }

  function EntryRemove<V>(m: seq<(string, V)>, key: string): seq<(string, V)>
  {
    if m == [] then [] else if m[0].0 == key then m[1..] else [m[0]] + EntryRemove(m[1..], key)
  }

  /** What an operation does to the map, and the value it finds. */
  function Applied<V>(m: seq<(string, V)>, op: Op<V>): (seq<(string, V)>, Option<V>)
  {
    var found := EntryGet(m, op.key);
    match op
    case Get(_) => (m, found)
    case Put(key, value) => (if found.Some? then m else m + [(key, value)], found)
    case Remove(key) => (EntryRemove(m, key), found)
  }

  function AppliedAll<V>(m: seq<(string, V)>, ops: seq<Op<V>>): (seq<(string, V)>, seq<Option<V>>)
  {
    if ops == [] then (m, [])
    else
      var (before, results) := AppliedAll(m, ops[..|ops| - 1]);
      var (after, result) := Applied(before, ops[|ops| - 1]);
      (after, results + [result])
  }

  /** The operation after which the entry of a key was last added. */
  function AddedAt<V>(ops: seq<Op<V>>, key: string): int
  {
    if ops == [] then 0
    else
      var before, op := ops[..|ops| - 1], ops[|ops| - 1];
      if op.Put? && op.key == key && EntryGet(AppliedAll([], before).0, key).None? then |ops| else AddedAt(before, key)
  }

  lemma {:induction false} AddedBefore<V>(ops: seq<Op<V>>, key: string)
    ensures AddedAt(ops, key) <= |ops|
  {
    if ops != [] {
      AddedBefore(ops[..|ops| - 1], key);
    }
  }

  lemma {:induction false} RemoveIsCut<V>(m: seq<(string, V)>, key: string) returns (i: nat)
    requires EntryGet(m, key).Some?
    ensures i < |m| && m[i].0 == key && EntryRemove(m, key) == m[..i] + m[i + 1..]
  {
    if m[0].0 == key {
      i := 0;
    } else {
      var k := RemoveIsCut(m[1..], key);
      i := k + 1;
      assert [m[0]] + (m[1..][..k] + m[1..][k + 1..]) == m[..i] + m[i + 1..];
    }
  }

  lemma {:induction false} RemoveAbsent<V>(m: seq<(string, V)>, key: string)
    requires EntryGet(m, key).None?
    ensures EntryRemove(m, key) == m
  {
    if m != [] {
      RemoveAbsent(m[1..], key);
    }
  }

  ghost predicate InOrder<V>(m: seq<(string, V)>, ops: seq<Op<V>>)
  {
    forall i, j | 0 <= i < j < |m| :: AddedAt(ops, m[i].0) < AddedAt(ops, m[j].0)
  }

  /** In every sequence of operations on an empty map the entries stand in the order in which they were added. */
  lemma {:induction false} EntriesInOrder<V>(ops: seq<Op<V>>)
    ensures InOrder(AppliedAll([], ops).0, ops)
    decreases |ops|
  {
    if ops != [] {
      var before, op := ops[..|ops| - 1], ops[|ops| - 1];
      var m := AppliedAll([], before).0;
      EntriesInOrder(before);
      hide AppliedAll;
      forall key
        ensures AddedAt(before, key) <= |before|
      {
        AddedBefore(before, key);
      }
      GetFinds(m, op.key);
      match op
      case Get(_) =>
      case Put(_, _) =>
      case Remove(key) =>
        if EntryGet(m, key).Some? {
          var i := RemoveIsCut(m, key);
        } else {
          RemoveAbsent(m, key);
        }
    }
  }

  lemma NothingApplied<V>(m: seq<(string, V)>)
    ensures AppliedAll(m, []) == (m, [])
  {
  }

  lemma AppliedNext<V>(m: seq<(string, V)>, ops: seq<Op<V>>, i: nat)
    requires i < |ops|
    ensures var (before, results) := AppliedAll(m, ops[..i]);
            var (after, result) := Applied(before, ops[i]);
            AppliedAll(m, ops[..i + 1]) == (after, results + [result])
  {
    assert ops[..i + 1][..i] == ops[..i];
  }

  /** No key has two entries. */
  ghost predicate OneEach<V>(m: seq<(string, V)>)
  {
    forall i, j | 0 <= i < j < |m| :: m[i].0 != m[j].0
  }

  lemma {:induction false} GetFinds<V>(m: seq<(string, V)>, key: string)
    ensures EntryGet(m, key) == None <==> forall i | 0 <= i < |m| :: m[i].0 != key
  {
    if m != [] {
      GetFinds(m[1..], key);
      assert forall i | 0 < i < |m| :: m[i] == m[1..][i - 1];
    }
  }

  lemma {:induction false} GetAfterPut<V>(m: seq<(string, V)>, key: string, value: V, k: string)
    ensures EntryGet(m + [(key, value)], k)
         == if EntryGet(m, k).Some? then EntryGet(m, k) else if k == key then Some(value) else None
  {
    if m != [] {
      assert (m + [(key, value)])[1..] == m[1..] + [(key, value)];
      GetAfterPut(m[1..], key, value, k);
    }
  }

  lemma {:induction false} GetAfterRemove<V>(m: seq<(string, V)>, key: string, k: string)
    requires OneEach(m)
    ensures EntryGet(EntryRemove(m, key), k) == if k == key then None else EntryGet(m, k)
  {
    if m != [] {
      RestOneEach(m);
      GetAfterRemove(m[1..], key, k);
      GetFinds(m[1..], m[0].0);
    }
  }

  lemma RestOneEach<V>(m: seq<(string, V)>)
    requires OneEach(m) && m != []
    ensures OneEach(m[1..]) && forall i | 0 <= i < |m| - 1 :: m[1..][i].0 != m[0].0
  {
    assert forall i | 0 <= i < |m| - 1 :: m[1..][i] == m[i + 1];
  }

  lemma {:induction false} RemoveKeys<V>(m: seq<(string, V)>, key: string, k: string)
    requires forall i | 0 <= i < |m| :: m[i].0 != k
    ensures forall i | 0 <= i < |EntryRemove(m, key)| :: EntryRemove(m, key)[i].0 != k
  {
    if m != [] {
      assert forall i | 0 <= i < |m| - 1 :: m[1..][i] == m[i + 1];
      RemoveKeys(m[1..], key, k);
    }
  }

  lemma {:induction false} RemoveOneEach<V>(m: seq<(string, V)>, key: string)
    requires OneEach(m)
    ensures OneEach(EntryRemove(m, key))
  {
    if m != [] {
      RestOneEach(m);
      RemoveOneEach(m[1..], key);
      RemoveKeys(m[1..], key, m[0].0);
    }
  }

  /** The specification is a map: an operation changes what it should for its key and nothing for another. */
  lemma {:induction false} AppliedIsMap<V>(m: seq<(string, V)>, op: Op<V>, k: string)
    requires OneEach(m)
    ensures var m' := Applied(m, op).0;
            && OneEach(m')
            && EntryGet(m', k) == if k != op.key || op.Get? || (op.Put? && EntryGet(m, k).Some?) then EntryGet(m, k)
                                  else if op.Put? then Some(op.value)
                                  else None
  {
    match op
    case Get(_) =>
    case Put(key, value) =>
      GetFinds(m, key);
      GetAfterPut(m, key, value, k);
    case Remove(key) =>
      GetAfterRemove(m, key, k);
      RemoveOneEach(m, key);
  }

  lemma {:induction false} EntriesLookup<V>(s: seq<Item<V>>, key: string)
    ensures EntryGet(Entries(s), key) == if Lookup(s, key).Some? then Some(Lookup(s, key).value.value) else None
    ensures Lookup(s, key) == None ==> EntryRemove(Entries(s), key) == Entries(s)
  {
    if s != [] {
      EntriesLookup(s[1..], key);
      assert Entries(s)[1..] == Entries(s[1..]);
      assert Entries(s) == [Entries(s)[0]] + Entries(s)[1..];
    }
  }

  lemma EntriesMore<V>(s: seq<Item<V>>, x: Item<V>)
    ensures Entries(s + [x]) == Entries(s) + [(x.key, x.value)]
  {
    assert (s + [x])[..|s|] == s;
  }

  lemma {:induction false} EntriesCut<V>(s: seq<Item<V>>, i: nat)
    requires i < |s| && forall j | 0 <= j < i :: s[j].key != s[i].key
    ensures Entries(Cut(s, i)) == EntryRemove(Entries(s), s[i].key)
  {
    hide Entries, Cut;
    EntriesFront(s);
    CutFront(s, i);
    if i > 0 {
      EntriesCut(s[1..], i - 1);
      EntriesFront(Cut(s, i));
    }
  }

  lemma CutFront<E>(s: seq<E>, i: nat)
    requires i < |s|
    ensures if i == 0 then Cut(s, i) == s[1..]
            else Cut(s, i) != [] && Cut(s, i)[0] == s[0] && Cut(s, i)[1..] == Cut(s[1..], i - 1)
  {
  }

  lemma EntriesFront<V>(s: seq<Item<V>>)
    requires s != []
    ensures Entries(s)[1..] == Entries(s[1..]) && Entries(s) == [(s[0].key, s[0].value)] + Entries(s[1..])
  {
    hide Entries;
  }

  lemma KeyedSome<V>(s: seq<Item<V>>, hash: string -> nat, i: nat)
    requires Keyed(s, hash) && i < |s|
    ensures forall j | 0 <= j < i :: s[j].key != s[i].key
  {
  }

  lemma {:induction false} NoMoreThan<E>(a: seq<E>, b: seq<E>)
    requires Distinct(a) && Distinct(b) && forall i | 0 <= i < |a| :: a[i] in b
    ensures |a| <= |b|
  {
    if a != [] {
      var n := |a| - 1;
      var j :| 0 <= j < |b| && b[j] == a[n];
      CutEntries(b, j);
      NoMoreThan(a[..n], Cut(b, j));
    }
  }

  /** The chains' counts add up to the number of items. */
  lemma CountsAddUp<V>(cs: seq<seq<Item<V>>>, s: seq<Item<V>>)
    requires Placed(cs, s) && Distinct(s)
    ensures |Flat(cs)| == |s|
  {
    PlacedFlat(cs, s);
    NoMoreThan(Flat(cs), s);
    NoMoreThan(s, Flat(cs));
  }

  /** A key is found on the chain that its hash selects exactly when it is in the table. */
  lemma LookupInChain<V>(cs: seq<seq<Item<V>>>, s: seq<Item<V>>, hash: string -> nat, key: string)
    requires Placed(cs, s) && Keyed(s, hash)
    ensures Lookup(cs[Slot(hash(key), |cs|)], key) == Lookup(s, key)
  {
    hide Slot;
    var c := cs[Slot(hash(key), |cs|)];
    LookupFinds(c, key);
    LookupFinds(s, key);
    if Lookup(s, key).Some? {
      var j :| 0 <= j < |s| && s[j] == Lookup(s, key).value;
      assert s[j] in c;
    }
  }

  lemma LinkedHeads<V>(bs: seq<Bucket<V>>, cs: seq<seq<Item<V>>>, s: seq<Item<V>>)
    requires Linked(bs, cs, s)
    ensures |bs| == |cs| && forall b | 0 <= b < |cs| :: Chained(cs[b]) && bs[b].hhHead == Ref(At(cs[b], 0))
  {
  }

  lemma ListEnds<V>(head: Item?<V>, tail: Item?<V>, numItems: nat, s: seq<Item<V>>, i: nat)
    requires Listed(head, tail, numItems, s) && i < |s|
    ensures s != [] && Ordered(s) && Distinct(s) && head == s[0] && tail == s[|s| - 1] && numItems == |s|
    ensures s[i].prev == null && s[i].next == null <==> |s| == 1
  {
    Neighbours(s, i);
  }

  lemma ListedCut<V>(head: Item?<V>, tail: Item?<V>, s: seq<Item<V>>, i: nat)
    requires Distinct(s) && i < |s| && |s| > 1
    requires Ordered(Cut(s, i)) && head == Cut(s, i)[0] && tail == Cut(s, i)[|s| - 2]
    ensures Listed(head, tail, |s| - 1, Cut(s, i))
  {
    hide Ordered;
  }

  /** The item joins the chain of its bucket. */
  method AddToBucket<V>(buckets: array<Bucket<V>>, add: Item<V>, ghost cs: seq<seq<Item<V>>>, ghost s: seq<Item<V>>,
                        ghost log2NumBuckets: nat)
    returns (bkt: nat)
    requires Hashed(buckets[..], cs, s, log2NumBuckets) && add !in s
    modifies buckets, s`hhPrev, add`hhNext, add`hhPrev
    ensures |cs| > 0 && bkt < buckets.Length && bkt == Slot(add.hashv, buckets.Length)
    ensures buckets[bkt] == Bucket(add, old(buckets[bkt].count) + 1, old(buckets[bkt].expandMult))
    ensures Hashed(buckets[..], Push(cs, add), s + [add], log2NumBuckets)
  {
    hide Linked, Placed, Chained, Slot, Push;
    LinkedSize(buckets[..], cs, s);
    PushPlaces(cs, s, add);
    bkt := Slot(add.hashv, buckets.Length);
    PushBucket(buckets, bkt, add, cs, s);
  }

  /** The item leaves the list of a table that keeps other items. */
  method TakeOffList<V>(head: Item?<V>, tail: Item?<V>, del: Item<V>, numItems: nat, ghost s: seq<Item<V>>,
                        ghost i: nat)
    returns (head': Item?<V>, tail': Item?<V>)
    requires Listed(head, tail, numItems, s) && i < |s| && s[i] == del && |s| > 1
    modifies s`next, s`prev
    ensures numItems == |s| && Distinct(s) && head' != null && Listed(head', tail', numItems - 1, Cut(s, i))
  {
    hide Listed, Ordered, Distinct, Cut;
    ListEnds(head, tail, numItems, s, i);
    CutSize(s, i);
    head', tail' := UnlinkItem(head, tail, del, s, i);
    ListedCut(head', tail', s, i);
  }

  lemma KeyedCut<V>(s: seq<Item<V>>, i: nat, hash: string -> nat)
    requires Keyed(s, hash) && i < |s|
    ensures Keyed(Cut(s, i), hash)
  {
    var r := Cut(s, i);
    assert forall k | 0 <= k < |r| :: r[k] == s[if k < i then k else k + 1];
  }

  /** Where an item is on its chain, and that cutting it from list and chain keeps the rest placed. */
  lemma CutPlaces<V>(cs: seq<seq<Item<V>>>, s: seq<Item<V>>, i: nat) returns (k: nat)
    requires Placed(cs, s) && Distinct(s) && i < |s|
    ensures var b := Slot(s[i].hashv, |cs|);
            k < |cs[b]| && cs[b][k] == s[i] && Placed(cs[b := Cut(cs[b], k)], Cut(s, i))
  {
    hide Slot, Cut;
    var b := Slot(s[i].hashv, |cs|);
    k :| 0 <= k < |cs[b]| && cs[b][k] == s[i];
    CutEntries(s, i);
    CutEntries(cs[b], k);
    var r: seq<seq<Item<V>>>, t := cs[b := Cut(cs[b], k)], Cut(s, i);
    CutSize(s, i);
    CutSize(cs[b], k);
    forall a, j | 0 <= a < |r| && 0 <= j < |r[a]|
      ensures r[a][j] in t && Slot(r[a][j].hashv, |r|) == a
    {
      assert r[a][j] in cs[a];
      var l :| 0 <= l < |s| && s[l] == r[a][j];
    }
    forall j | 0 <= j < |t|
      ensures t[j] in r[Slot(t[j].hashv, |r|)]
    {
      var l :| 0 <= l < |s| && s[l] == t[j];
    }
  }

  lemma CutSize<E>(s: seq<E>, i: nat)
    requires i < |s|
    ensures |Cut(s, i)| == |s| - 1
  {
  }

  lemma CutWithin<E>(c: seq<E>, k: nat, s: seq<E>)
    requires k < |c| && forall i | 0 <= i < |c| :: c[i] in s
    ensures |Cut(c, k)| == |c| - 1 && forall i | 0 <= i < |Cut(c, k)| :: Cut(c, k)[i] in s
  {
    assert forall i | 0 <= i < |Cut(c, k)| :: Cut(c, k)[i] == c[if i < k then i else i + 1];
  }

  /** One bucket and its chain changed, and every other chain is still chained. */
  lemma LinkedChanged<V>(bs: seq<Bucket<V>>, cs: seq<seq<Item<V>>>, s: seq<Item<V>>, bkt: nat, bucket: Bucket<V>,
                         c: seq<Item<V>>)
    requires |bs| == |cs| && bkt < |cs|
    requires forall b, i | 0 <= b < |cs| && 0 <= i < |cs[b]| :: cs[b][i] in s
    requires forall b | 0 <= b < |cs| && b != bkt :: Chained(cs[b]) && bs[b].hhHead == Ref(At(cs[b], 0))
               && bs[b].count == |cs[b]|
    requires Chained(c) && bucket.hhHead == Ref(At(c, 0)) && bucket.count == |c| && forall i | 0 <= i < |c| :: c[i] in s
    ensures Linked(bs[bkt := bucket], cs[bkt := c], s)
  {
    hide Chained, At, Ref;
  }

  lemma ChainsApart<V>(cs: seq<seq<Item<V>>>, s: seq<Item<V>>, a: nat)
    requires Placed(cs, s) && a < |cs|
    ensures Distinct(cs[a])
    ensures forall b, i | 0 <= b < |cs| && b != a && 0 <= i < |cs[b]| :: cs[b][i] !in cs[a]
    ensures forall b, i | 0 <= b < |cs| && 0 <= i < |cs[b]| :: cs[b][i] in s
  {
    hide Slot;
  }

  /** HASH_DEL_IN_BKT */
  method DropBucket<V>(buckets: array<Bucket<V>>, bkt: nat, del: Item<V>, ghost cs: seq<seq<Item<V>>>,
                       ghost s: seq<Item<V>>, ghost k: nat)
    requires Linked(buckets[..], cs, s) && Placed(cs, s) && bkt < |cs| && k < |cs[bkt]| && cs[bkt][k] == del
    modifies buckets, s`hhNext, s`hhPrev
    ensures Linked(buckets[..], cs[bkt := Cut(cs[bkt], k)], s)
  {
    ghost var c, bs := cs[bkt], buckets[..];
    hide At, Ref, Cut, Chained, Distinct, Linked, Placed;
    LinkedHeads(bs, cs, s);
    LinkedSize(bs, cs, s);
    ChainsApart(cs, s, bkt);
    CutWithin(c, k, s);
    RefOf(c, 0);
    var bucket := buckets[bkt];
    var hhHead := UnchainItem(bucket.hhHead, del, c, k);
    var bucket' := Bucket(hhHead, bucket.count - 1, bucket.expandMult);
    buckets[bkt] := bucket';
    assert buckets[..] == bs[bkt := bucket'];
    LinkedChanged(bs, cs, s, bkt, bucket', Cut(c, k));
  }

  /** The item leaves the chain of its bucket. */
  method RemoveFromBucket<V>(buckets: array<Bucket<V>>, del: Item<V>, ghost cs: seq<seq<Item<V>>>,
                             ghost s: seq<Item<V>>, ghost i: nat, ghost log2NumBuckets: nat)
    returns (ghost cs': seq<seq<Item<V>>>)
    requires Hashed(buckets[..], cs, s, log2NumBuckets) && Distinct(s) && i < |s| && s[i] == del
    modifies buckets, s`hhNext, s`hhPrev
    ensures Hashed(buckets[..], cs', Cut(s, i), log2NumBuckets)
  {
    hide Linked, Placed, Chained, Distinct, Slot, Cut;
    LinkedSize(buckets[..], cs, s);
    ghost var k := CutPlaces(cs, s, i);
    var bkt := Slot(del.hashv, buckets.Length);
    DropBucket(buckets, bkt, del, cs, s, k);
    cs' := cs[bkt := Cut(cs[bkt], k)];
    LinkedSame(buckets[..], cs', s, Cut(s, i));
  }

  lemma Pow2Initial()
    ensures Pow2(HASH_INITIAL_NUM_BUCKETS_LOG2) == HASH_INITIAL_NUM_BUCKETS
  {
    assert Pow2(3) == 8;
  }

  lemma OneItem<V>(add: Item<V>)
    requires add.next == null && add.prev == null
    ensures Listed(add, add, 1, [] + [add])
  {
    assert [] + [add] == [add];
  }

  lemma ListedMore<V>(head: Item?<V>, s: seq<Item<V>>, x: Item<V>)
    requires s != [] && head == s[0] && Distinct(s) && x !in s && Ordered(s + [x])
    ensures Listed(head, x, |s| + 1, s + [x])
  {
    hide Ordered;
  }

  lemma {:induction false} LookupFinds<V>(s: seq<Item<V>>, key: string)
    ensures Lookup(s, key).Some? ==> Lookup(s, key).value in s && Lookup(s, key).value.key == key
    ensures Lookup(s, key) == None ==> forall i | 0 <= i < |s| :: s[i].key != key
  {
    if s != [] {
      LookupFinds(s[1..], key);
      assert s == [s[0]] + s[1..];
    }
  }

  lemma KeyedMore<V>(s: seq<Item<V>>, x: Item<V>, hash: string -> nat)
    requires (s == [] || Keyed(s, hash)) && x.hashv == hash(x.key) && Lookup(s, x.key) == None
    ensures Keyed(s + [x], hash)
  {
    LookupFinds(s, x.key);
  }

  lemma ListedSome<V>(head: Item?<V>, tail: Item?<V>, numItems: nat, s: seq<Item<V>>)
    requires Listed(head, tail, numItems, s)
    ensures numItems == |s| > 0 && Distinct(s)
  {
  }

  lemma LinkedSame<V>(bs: seq<Bucket<V>>, cs: seq<seq<Item<V>>>, s: seq<Item<V>>, t: seq<Item<V>>)
    requires Linked(bs, cs, s) && Placed(cs, t)
    ensures Linked(bs, cs, t) && |bs| == |cs| && forall b | 0 <= b < |cs| :: bs[b].count == |cs[b]|
  {
  }

  lemma LinkedSize<V>(bs: seq<Bucket<V>>, cs: seq<seq<Item<V>>>, s: seq<Item<V>>)
    requires Linked(bs, cs, s)
    ensures |bs| == |cs| && forall b | 0 <= b < |cs| :: bs[b].count == |cs[b]|
  {
  }
}
