/**
 The routing tables in place (soaagent/resource_mgt.c): a hash table from service keys to string arrays of
 node keys, and a hash table from node keys to connection pools.  Each operation is proved to do to the two
 tables what the functions of ResourceMgt do to maps.
 */
module RoutingTables {
  import opened CString
  import opened ServiceConf
  import opened ResourceMgt
  import opened HashTable
  import opened Lookups
  import StrArray
  import ConnPool

  // ----- tables as maps -----

  /** No two items share a key or a value. */
  ghost predicate Own<V>(s: seq<Item<V>>)
  {
    forall i, j | 0 <= i < j < |s| :: s[i].key != s[j].key && s[i].value != s[j].value
  }

  /** Every item's array holds what m has under its key. */
  ghost predicate Filled(s: seq<Item<StrArray.StringArray>>, m: map<string, seq<string>>)
    reads set i | 0 <= i < |s| :: s[i].value
  {
    forall i | 0 <= i < |s| :: s[i].value.Valid() && s[i].key in m && m[s[i].key] == s[i].value.strs
  }

  /** The items stand for m: one item a key, with an array of its own that holds the key's nodes. */
  ghost predicate Holds(s: seq<Item<StrArray.StringArray>>, m: map<string, seq<string>>)
    reads set i | 0 <= i < |s| :: s[i].value
  {
    Own(s) && Filled(s, m) && HasKeys(s, m.Keys)
  }

  /** The items' arrays have these counters. */
  ghost predicate Counted(s: seq<Item<StrArray.StringArray>>, counters: map<string, nat>)
    reads set i | 0 <= i < |s| :: s[i].value
  {
    forall i | 0 <= i < |s| :: s[i].key in counters && counters[s[i].key] == s[i].value.counter
  }

  lemma CountedMore(s: seq<Item<StrArray.StringArray>>, x: Item<StrArray.StringArray>, counters: map<string, nat>)
    requires Counted(s, counters) && Lookup(s, x.key) == None
    ensures Counted(s + [x], counters[x.key := x.value.counter])
  {
    LookupFinds(s, x.key);
    hide Lookup;
  }

  lemma CountedLess(s: seq<Item<StrArray.StringArray>>, i: nat, counters: map<string, nat>)
    requires Counted(s, counters) && Own(s) && i < |s|
    ensures Counted(Cut(s, i), counters - {s[i].key})
  {
    OwnLess(s, i);
    assert forall j | 0 <= j < |s| - 1 :: Cut(s, i)[j] == s[if j < i then j else j + 1];
    hide Own, Cut;
  }

  /** The items have exactly these keys. */
  ghost predicate HasKeys<V>(s: seq<Item<V>>, keys: set<string>)
  {
    && (forall i | 0 <= i < |s| :: s[i].key in keys)
    && (forall key | key in keys :: Lookup(s, key).Some?)
  }

  lemma {:induction false} LookupMore<V>(s: seq<Item<V>>, x: Item<V>, key: string)
    ensures Lookup(s + [x], key)
         == if Lookup(s, key).Some? then Lookup(s, key) else if x.key == key then Some(x) else None
  {
    if s != [] {
      assert (s + [x])[1..] == s[1..] + [x];
      LookupMore(s[1..], x, key);
    } else {
      assert [x][1..] == [] && s + [x] == [x];
    }
  }

  lemma {:induction false} LookupCut<V>(s: seq<Item<V>>, i: nat, key: string)
    requires i < |s| && s[i].key != key
    ensures Lookup(Cut(s, i), key) == Lookup(s, key)
  {
    CutFront(s, i);
    hide Cut;
    if i > 0 {
      LookupCut(s[1..], i - 1, key);
    }
  }

  lemma KeysMore<V>(s: seq<Item<V>>, x: Item<V>, keys: set<string>)
    requires HasKeys(s, keys) && Lookup(s, x.key) == None
    ensures HasKeys(s + [x], keys + {x.key}) && Lookup(s + [x], x.key) == Some(x)
    ensures forall key | key != x.key :: Lookup(s + [x], key) == Lookup(s, key)
  {
    forall key
      ensures Lookup(s + [x], key) == if key == x.key then Some(x) else Lookup(s, key)
    {
      LookupMore(s, x, key);
    }
  }

  lemma KeysLess<V>(s: seq<Item<V>>, i: nat, keys: set<string>)
    requires HasKeys(s, keys) && i < |s| && forall j | 0 <= j < |s| && j != i :: s[j].key != s[i].key
    ensures HasKeys(Cut(s, i), keys - {s[i].key})
    ensures forall key | key != s[i].key :: Lookup(Cut(s, i), key) == Lookup(s, key)
  {
    forall key | key != s[i].key
      ensures Lookup(Cut(s, i), key) == Lookup(s, key)
    {
      LookupCut(s, i, key);
    }
    hide Lookup;
    CutKeys(s, i);
  }

  lemma CutKeys<V>(s: seq<Item<V>>, i: nat)
    requires i < |s| && forall j | 0 <= j < |s| && j != i :: s[j].key != s[i].key
    ensures forall j | 0 <= j < |Cut(s, i)| ::
              Cut(s, i)[j].key != s[i].key && Cut(s, i)[j] == s[if j < i then j else j + 1]
  {
  }

  lemma OwnMore<V>(s: seq<Item<V>>, x: Item<V>)
    requires Own(s) && Lookup(s, x.key) == None && forall i | 0 <= i < |s| :: s[i].value != x.value
    ensures Own(s + [x])
  {
    LookupFinds(s, x.key);
  }

  lemma OwnLess<V>(s: seq<Item<V>>, i: nat)
    requires Own(s) && i < |s|
    ensures Own(Cut(s, i)) && forall j | 0 <= j < |s| && j != i :: s[j].key != s[i].key
  {
    assert forall j | 0 <= j < |s| - 1 :: Cut(s, i)[j] == s[if j < i then j else j + 1];
  }

  lemma HoldsMore(s: seq<Item<StrArray.StringArray>>, x: Item<StrArray.StringArray>, m: map<string, seq<string>>)
    requires Holds(s, m) && Lookup(s, x.key) == None && x.value.Valid()
    requires forall i | 0 <= i < |s| :: s[i].value != x.value
    ensures Holds(s + [x], m[x.key := x.value.strs])
  {
    OwnMore(s, x);
    LookupFinds(s, x.key);
    KeysMore(s, x, m.Keys);
    assert m[x.key := x.value.strs].Keys == m.Keys + {x.key};
    hide Own, HasKeys, Lookup;
  }

  lemma HoldsLess(s: seq<Item<StrArray.StringArray>>, i: nat, m: map<string, seq<string>>)
    requires Holds(s, m) && i < |s|
    ensures Holds(Cut(s, i), m - {s[i].key})
  {
    OwnLess(s, i);
    KeysLess(s, i, m.Keys);
    assert (m - {s[i].key}).Keys == m.Keys - {s[i].key};
    assert forall j | 0 <= j < |s| - 1 :: Cut(s, i)[j] == s[if j < i then j else j + 1];
    hide Own, HasKeys, Lookup, Cut;
  }

  /** The key that Lookup finds is that of one of the items. */
  lemma Found<V>(s: seq<Item<V>>, key: string) returns (i: nat)
    requires Lookup(s, key).Some?
    ensures i < |s| && s[i] == Lookup(s, key).value && s[i].key == key
  {
    LookupFinds(s, key);
    i :| 0 <= i < |s| && s[i] == Lookup(s, key).value;
  }

  // ----- services -----

  method NewService(key: string, node: string, hashv: nat) returns (add: Item<StrArray.StringArray>)
    ensures fresh(add) && fresh(add.value) && add.key == key && add.hashv == hashv
    ensures add.value.Valid() && add.value.strs == StrArray.Added([], node) && add.value.counter == 0
  {
    var nodes := new StrArray.StringArray();
    nodes.Add(node);
    add := new Item(key, nodes, hashv);
  }

  class ServiceTable {
    const items: Table<StrArray.StringArray>
    ghost var lists: map<string, seq<string>>
    ghost var counters: map<string, nat>
    ghost var Repr: set<object>

    ghost predicate Valid()
      reads this, Repr
      ensures Valid() ==> this in Repr && items in Repr
    {
      && this in Repr && items in Repr && items.buckets in Repr
      && (forall i | 0 <= i < |items.order| :: items.order[i] in Repr && items.order[i].value in Repr)
      && items.Valid() && Holds(items.order, lists)
      && lists.Keys == counters.Keys && Counted(items.order, counters)
    }

    constructor (hash: string -> nat)
      ensures Valid() && lists == map[] && counters == map[] && fresh(Repr)
    {
      items := new Table(hash);
      lists, counters := map[], map[];
      new;
      Repr := {this, items, items.buckets};
    }

    /** service_resource_add */
    method Add(key: string, node: string)
      requires Valid()
      modifies Repr
      ensures Valid() && fresh(Repr - old(Repr))
      ensures lists == old(lists)[key := StrArray.Added(if key in old(lists) then old(lists)[key] else [], node)]
      ensures counters == if key in old(lists) then old(counters) else old(counters)[key := 0]
    {
      hide Table.Valid, Holds, Counted;
      var item := items.Find(key);
      ListedKeys(items.order, lists, key);
      if item != null {
        AddToList(item, node);
      } else {
        AddList(key, node);
      }
    }

    /** A service that is known: its array gains the node. */
    method AddToList(item: Item<StrArray.StringArray>, node: string)
      requires Valid() && item in items.order
      modifies this`lists, item.value`strs
      ensures Valid() && item.key in old(lists)
      ensures lists == old(lists)[item.key := StrArray.Added(old(lists)[item.key], node)]
    {
      hide Table.Valid, HasKeys, Own;
      OwnValues(items.order, item);
      item.value.Add(node);
      lists := lists[item.key := item.value.strs];
      assert lists.Keys == old(lists.Keys);
    }

    /** A new service: an item of its own. */
    method AddList(key: string, node: string)
      requires Valid() && Lookup(items.order, key) == None
      modifies this`lists, this`counters, this`Repr, items, items.buckets, items.order
      ensures Valid() && fresh(Repr - old(Repr))
      ensures lists == old(lists)[key := StrArray.Added([], node)] && counters == old(counters)[key := 0]
    {
      hide ServiceTable.Valid;
      var add := NewService(key, node, items.hash(key));
      Insert(add);
    }

    /** HASH_ADD_STR of a new service's item. */
    method Insert(add: Item<StrArray.StringArray>)
      requires Valid() && Lookup(items.order, add.key) == None && add !in Repr && add.value !in Repr
      requires add.hashv == items.hash(add.key) && add.value.Valid()
      modifies this`lists, this`counters, this`Repr, items, items.buckets, items.order, add
      ensures Valid() && Repr == old(Repr) + {items.buckets, add, add.value}
      ensures items.buckets in old(Repr) || fresh(items.buckets)
      ensures lists == old(lists)[add.key := add.value.strs]
      ensures counters == old(counters)[add.key := add.value.counter]
    {
      hide Table.Valid, Holds, Counted;
      HoldsMore(items.order, add, lists);
      CountedMore(items.order, add, counters);
      assert lists[add.key := add.value.strs].Keys == counters[add.key := add.value.counter].Keys;
      items.Add(add);
      lists, counters := lists[add.key := add.value.strs], counters[add.key := add.value.counter];
      Repr := Repr + {items.buckets, add, add.value};
    }

    /** service_resource_delete */
    method Delete(key: string, node: string)
      requires Valid()
      modifies Repr
      ensures Valid() && fresh(Repr - old(Repr))
      ensures lists == ServiceDelete(old(lists), key, node)
      ensures counters == if key in lists then old(counters) else old(counters) - {key}
    {
      hide Table.Valid, Holds, Counted;
      var item := items.Find(key);
      ListedKeys(items.order, lists, key);
      if item != null {
        DeleteFromList(item, node);
        ListedKeys(items.order, lists, key);
        if |item.value.strs| == 0 {
          DropList(item);
        }
      }
    }

    method DeleteFromList(item: Item<StrArray.StringArray>, node: string)
      requires Valid() && item in items.order
      modifies this`lists, item.value`strs
      ensures Valid() && item.key in old(lists)
      ensures item.value.strs == Without(old(lists)[item.key], node)
      ensures lists == old(lists)[item.key := item.value.strs]
    {
      hide Table.Valid, HasKeys, Own;
      OwnValues(items.order, item);
      var found := item.value.Delete(node);
      lists := lists[item.key := item.value.strs];
      assert lists.Keys == old(lists.Keys);
    }

    /** A service without nodes leaves the table. */
    method DropList(item: Item<StrArray.StringArray>)
      requires Valid() && item in items.order
      modifies this`lists, this`counters, items, items.buckets, items.order
      ensures Valid()
      ensures lists == old(lists) - {item.key} && counters == old(counters) - {item.key}
    {
      hide Table.Valid, Holds, Counted, Own, Cut;
      ghost var i :| 0 <= i < |items.order| && items.order[i] == item;
      OwnItems(items.order, lists);
      HoldsLess(items.order, i, lists);
      CountedLess(items.order, i, counters);
      CutIndex(items.order, i);
      assert (lists - {item.key}).Keys == (counters - {item.key}).Keys;
      items.Delete(item, i);
      lists, counters := lists - {item.key}, counters - {item.key};
    }

    /** service_resource_pool_is_used */
    method IsUsed(node: string) returns (used: bool)
      requires Valid()
      ensures used == PoolIsUsed(lists, node)
    {
      hide Table.Valid;
      var current := items.ToSeq();
      used := false;
      var i := 0;
      while i < |current|
        invariant 0 <= i <= |current|
        invariant forall j | 0 <= j < i :: node !in current[j].value.strs
      {
        var idx := current[i].value.Find(node);
        if idx != -1 {
          return true;
        }
        i := i + 1;
      }
      forall key | key in lists
        ensures node !in lists[key]
      {
        var j := Found(items.order, key);
      }
    }

    /** service_resource_require_node_key */
    method RequireNodeKey(key: string) returns (node: Option<string>)
      requires Valid()
      modifies Repr
      ensures Valid() && lists == old(lists) && Repr == old(Repr)
      ensures node == PickOf(lists, old(counters), key)
      ensures counters == CountersAfter(lists, old(counters), key)
    {
      hide Table.Valid;
      var item := items.Find(key);
      ListedKeys(items.order, lists, key);
      if item == null {
        return None;
      }
      node := NextOf(item);
    }

    /** The pick from one service's array. */
    method NextOf(item: Item<StrArray.StringArray>) returns (node: Option<string>)
      requires Valid() && item in items.order
      modifies this`counters, item.value`counter
      ensures Valid() && item.key in lists && lists == old(lists)
      ensures node == PickOf(lists, old(counters), item.key)
      ensures counters == CountersAfter(lists, old(counters), item.key)
    {
      hide Table.Valid, HasKeys, Own, StrArray.PickIndex;
      OwnValues(items.order, item);
      node := item.value.Next();
      assert Filled(items.order, lists);
      counters := counters[item.key := item.value.counter];
    }

    /** Lookups of these services, one after the other. */
    method RequireNodeKeys(keys: seq<string>) returns (nodes: seq<Option<string>>)
      requires Valid()
      modifies Repr
      ensures Valid() && lists == old(lists) && Repr == old(Repr)
      ensures nodes == PickRun(lists, old(counters), keys)
      ensures counters == CountersAfterAll(lists, old(counters), keys)
    {
      hide PickOf, CountersAfter;
      nodes := [];
      var i := 0;
      while i < |keys|
        invariant 0 <= i <= |keys| && Valid() && lists == old(lists) && Repr == old(Repr)
        invariant nodes == PickRun(lists, old(counters), keys[..i])
        invariant counters == CountersAfterAll(lists, old(counters), keys[..i])
      {
        assert keys[..i + 1][..i] == keys[..i];
        var node := RequireNodeKey(keys[i]);
        nodes := nodes + [node];
        i := i + 1;
      }
      assert keys[..i] == keys;
    }
  }

  lemma OwnValues<V>(s: seq<Item<V>>, item: Item<V>)
    requires Own(s) && item in s
    ensures forall i | 0 <= i < |s| :: s[i] == item || (s[i].key != item.key && s[i].value != item.value)
  {
  }

  lemma OwnItems(s: seq<Item<StrArray.StringArray>>, m: map<string, seq<string>>)
    requires Holds(s, m)
    ensures Own(s)
  {
  }

  lemma ListedKeys(s: seq<Item<StrArray.StringArray>>, m: map<string, seq<string>>, key: string)
    requires Holds(s, m)
    ensures key in m <==> Lookup(s, key).Some?
    ensures Lookup(s, key).Some? ==> Lookup(s, key).value in s && Lookup(s, key).value.key == key
  {
    LookupFinds(s, key);
  }

  // ----- nodes -----

  lemma KeyIsHeld<V>(s: seq<Item<V>>, keys: set<string>, key: string)
    requires HasKeys(s, keys)
    ensures key in keys <==> Lookup(s, key).Some?
    ensures Lookup(s, key).Some? ==> Lookup(s, key).value in s && Lookup(s, key).value.key == key
  {
    LookupFinds(s, key);
  }

  /** What the configuration says of pools. */
  datatype PoolConfig = PoolConfig(initConnNum: int, minConnNum: int, maxConnNum: int)

  /** A pool as pool_init leaves it, when connects(n) tells whether connection n connects. */
  ghost predicate Opened(pool: ConnPool.Pool, config: PoolConfig, connects: nat -> bool)
    reads pool, pool.idle, pool.used
  {
    && pool.Valid() && pool.View() == ConnPool.Started(pool.idle)
    && |pool.idle| == ConnPool.Successes(seq(ConnPool.Max(0, config.initConnNum), n requires n >= 0 => connects(n)))
    && pool.minConnNum == config.minConnNum && pool.maxConnNum == config.maxConnNum
  }

  class NodeTable {
    const items: Table<ConnPool.Pool>
    const config: PoolConfig
    ghost var keys: set<string>
    ghost var Repr: set<object>

    ghost predicate Valid()
      reads this, Repr
      ensures Valid() ==> this in Repr && items in Repr
    {
      && this in Repr && items in Repr && items.buckets in Repr
      && (forall i | 0 <= i < |items.order| :: items.order[i] in Repr)
      && items.Valid() && HasKeys(items.order, keys)
    }

    /** The pool of a node. */
    ghost function PoolOf(node: string): Option<ConnPool.Pool>
      reads this, items
    {
      if Lookup(items.order, node).Some? then Some(Lookup(items.order, node).value.value) else None
    }

    constructor (hash: string -> nat, config: PoolConfig)
      ensures Valid() && keys == {} && fresh(Repr) && this.config == config
    {
      hide Table.Valid, Lookup;
      items := new Table(hash);
      this.config := config;
      keys := {};
      new;
      Repr := {this, items, items.buckets};
    }

    lemma PoolKeys(node: string)
      requires Valid()
      ensures node in keys <==> PoolOf(node).Some?
    {
      KeyIsHeld(items.order, keys, node);
    }

    /** node_resource_get_by_key */
    method Get(node: string) returns (pool: Option<ConnPool.Pool>)
      requires Valid()
      ensures pool == PoolOf(node) && (pool.Some? <==> node in keys)
    {
      hide Table.Valid, HasKeys, Lookup;
      PoolKeys(node);
      var item := items.Find(node);
      pool := if item == null then None else Some(item.value);
    }

    /** node_resource_add: connects(n) tells whether connection n of a new pool connects. */
    method Add(node: string, connects: nat -> bool, now: int)
      requires Valid()
      modifies Repr
      ensures Valid() && fresh(Repr - old(Repr))
      ensures keys == old(keys) + {node} && PoolOf(node).Some?
      ensures forall key | key in old(keys) :: PoolOf(key) == old(PoolOf(key))
      ensures node !in old(keys) ==> fresh(PoolOf(node).value) && Opened(PoolOf(node).value, config, connects)
    {
      hide Table.Valid, HasKeys, Lookup;
      var item := items.Find(node);
      KeyIsHeld(items.order, keys, node);
      if item == null {
        AddPool(node, connects, now);
      }
    }

    /** A new node: a pool of its own. */
    method AddPool(node: string, connects: nat -> bool, now: int)
      requires Valid() && node !in keys
      modifies this`keys, this`Repr, items, items.buckets, items.order
      ensures Valid() && fresh(Repr - old(Repr))
      ensures keys == old(keys) + {node} && PoolOf(node).Some?
      ensures forall key | key in old(keys) :: PoolOf(key) == old(PoolOf(key))
      ensures fresh(PoolOf(node).value) && Opened(PoolOf(node).value, config, connects)
    {
      hide Table.Valid, HasKeys, Lookup, ConnPool.Pool.Valid, ConnPool.Successes;
      KeyIsHeld(items.order, keys, node);
      var n := ConnPool.Max(0, config.initConnNum);
      var outcomes := seq(n, n requires n >= 0 => connects(n));
      var pool := new ConnPool.Pool(config.initConnNum, config.minConnNum, config.maxConnNum, outcomes, now);
      var add := new Item(node, pool, items.hash(node));
      KeysMore(items.order, add, keys);
      items.Add(add);
      keys := keys + {node};
      Repr := Repr + {items.buckets, add};
    }

    /** node_resource_delete: the pool is left to the thread that destroys it. */
    method Delete(node: string) returns (gone: Option<ConnPool.Pool>)
      requires Valid()
      modifies Repr
      ensures Valid() && Repr == old(Repr)
      ensures keys == old(keys) - {node} && gone == old(PoolOf(node))
      ensures forall key | key in keys :: PoolOf(key) == old(PoolOf(key))
    {
      hide Table.Valid, HasKeys, Lookup;
      var item := items.Find(node);
      KeyIsHeld(items.order, keys, node);
      if item == null {
        return None;
      }
      DropPool(item);
      gone := Some(item.value);
    }

    method DropPool(item: Item<ConnPool.Pool>)
      requires Valid() && item in items.order
      modifies this`keys, items, items.buckets, items.order
      ensures Valid() && Repr == old(Repr)
      ensures keys == old(keys) - {item.key}
      ensures forall key | key in keys :: PoolOf(key) == old(PoolOf(key))
    {
      hide Table.Valid, HasKeys, Lookup, Cut;
      ghost var i :| 0 <= i < |items.order| && items.order[i] == item;
      KeysApart(items, i);
      KeysLess(items.order, i, keys);
      CutWithin(items.order, i, items.order);
      items.Delete(item, i);
      keys := keys - {item.key};
    }
  }

  lemma KeysApart<V>(t: Table<V>, i: nat)
    requires t.Valid() && i < |t.order|
    ensures forall j | 0 <= j < |t.order| && j != i :: t.order[j].key != t.order[i].key
  {
  }

  // ----- both -----

  const INVOKE_KEY_LEN := 30

  class Resources {
    const services: ServiceTable
    const nodes: NodeTable

    /** The two tables as maps. */
    ghost function View(): Tables
      reads services, nodes
    {
      Tables(services.lists, nodes.keys)
    }

    ghost predicate Valid()
      reads services, services.Repr, nodes, nodes.Repr
    {
      services.Valid() && nodes.Valid() && services.Repr !! nodes.Repr
    }

    /** The objects of both tables. */
    ghost function Repr(): set<object>
      reads services, nodes
    {
      services.Repr + nodes.Repr
    }

    constructor (hash: string -> nat, config: PoolConfig)
      ensures Valid() && View() == Tables(map[], {}) && fresh(Repr())
    {
      hide ServiceTable.Valid, NodeTable.Valid;
      services := new ServiceTable(hash);
      nodes := new NodeTable(hash, config);
    }

    /** resource_add */
    method Add(r: RegisterInfo, connects: nat -> bool, now: int)
      requires Valid()
      modifies Repr()
      ensures Valid() && fresh(Repr() - old(Repr()))
      ensures View() == ResourceAdd(old(View()), r)
    {
      hide ServiceTable.Valid, NodeTable.Valid, ServiceKey, NodeKey;
      nodes.Add(NodeKey(r), connects, now);
      services.Add(ServiceKey(r.srv), NodeKey(r));
    }

    /** resource_delete: the pool that goes, if one does, is left to the thread that destroys it. */
    method Delete(r: RegisterInfo) returns (gone: Option<ConnPool.Pool>)
      requires Valid()
      modifies Repr()
      ensures Valid() && fresh(Repr() - old(Repr()))
      ensures View() == ResourceDelete(old(View()), r)
      ensures gone == if NodeKey(r) in nodes.keys then None else old(nodes.PoolOf(NodeKey(r)))
    {
      hide ServiceTable.Valid, NodeTable.Valid, ServiceKey, NodeKey;
      nodes.PoolKeys(NodeKey(r));
      services.Delete(ServiceKey(r.srv), NodeKey(r));
      var used := services.IsUsed(NodeKey(r));
      gone := None;
      if !used {
        gone := nodes.Delete(NodeKey(r));
      }
    }

    /** service_resource_require_node_key */
    method RequireNodeKey(key: string) returns (node: Option<string>)
      requires Valid()
      modifies services.Repr
      ensures Valid() && Repr() == old(Repr()) && View() == old(View())
      ensures node == PickOf(View().services, old(services.counters), key)
      ensures services.counters == CountersAfter(View().services, old(services.counters), key)
    {
      hide ServiceTable.Valid, NodeTable.Valid, PickOf, CountersAfter;
      SameKeys();
      node := services.RequireNodeKey(key);
    }

    lemma SameKeys()
      requires Valid()
      ensures services.lists.Keys == services.counters.Keys
    {
    }

    /** The pool that invoke_service uses for a node: its key is copied into a buffer of 30 bytes first. */
    ghost function PoolFor(node: Option<string>): Option<ConnPool.Pool>
      reads nodes, nodes.items
    {
      if node.Some? then nodes.PoolOf(Truncate(node.value, INVOKE_KEY_LEN)) else None
    }

    /** The lookups of invoke_service: the service's next node, and its pool. */
    method FindPool(key: string) returns (pool: Option<ConnPool.Pool>)
      requires Valid()
      modifies services.Repr
      ensures Valid() && Repr() == old(Repr()) && View() == old(View())
      ensures pool == PoolFor(PickOf(View().services, old(services.counters), key))
      ensures var node := PickOf(View().services, old(services.counters), key);
              pool.Some? <==> node.Some? && Truncate(node.value, INVOKE_KEY_LEN) in View().pools
      ensures services.counters == CountersAfter(View().services, old(services.counters), key)
    {
      hide ServiceTable.Valid, NodeTable.Valid, Truncate, PickOf, CountersAfter;
      var node := RequireNodeKey(key);
      if node == None {
        return None;
      }
      pool := nodes.Get(Truncate(node.value, INVOKE_KEY_LEN));
    }

    /** The lookups of several calls: the pools of the nodes that the services' cursors come to. */
    method FindPools(keys: seq<string>) returns (pools: seq<Option<ConnPool.Pool>>)
      requires Valid()
      modifies services.Repr
      ensures Valid() && Repr() == old(Repr()) && View() == old(View()) && |pools| == |keys|
      ensures forall i | 0 <= i < |keys| ::
                pools[i] == PoolFor(PickRun(View().services, old(services.counters), keys)[i])
      ensures services.counters == CountersAfterAll(View().services, old(services.counters), keys)
    {
      hide ServiceTable.Valid, NodeTable.Valid, PickOf, CountersAfter, PoolFor;
      pools := [];
      var i := 0;
      SameKeys();
      while i < |keys|
        invariant 0 <= i <= |keys| && Valid() && Repr() == old(Repr()) && View() == old(View()) && |pools| == i
        invariant forall k | 0 <= k < i ::
                    pools[k] == PoolFor(PickRun(View().services, old(services.counters), keys[..i])[k])
        invariant services.counters == CountersAfterAll(View().services, old(services.counters), keys[..i])
      {
        assert keys[..i + 1][..i] == keys[..i];
        var pool := FindPool(keys[i]);
        pools := pools + [pool];
        i := i + 1;
      }
      assert keys[..i] == keys;
    }

    /** notify_change */
    method NotifyChange(c: Change, connects: nat -> bool, now: int)
      requires Valid()
      modifies Repr()
      ensures Valid() && fresh(Repr() - old(Repr()))
      ensures View() == Notify(old(View()), c)
    {
      hide ServiceTable.Valid, NodeTable.Valid;
      if c.status == -1 {
        var gone := Delete(c.info);
      } else if c.status == 1 {
        Add(c.info, connects, now);
      }
    }

    /** The loop of children_change_func_impl over a difference; connects tells what connecting does to each node. */
    method NotifyChanges(cs: seq<Change>, connects: (nat, nat) -> bool, now: int)
      requires Valid()
      modifies Repr()
      ensures Valid() && fresh(Repr() - old(Repr()))
      ensures View() == NotifyAll(old(View()), cs)
    {
      hide Notify, Valid;
      var p := 0;
      assert cs[0..] == cs;
      while p < |cs|
        invariant 0 <= p <= |cs| && Valid() && fresh(Repr() - old(Repr()))
        invariant NotifyAll(View(), cs[p..]) == NotifyAll(old(View()), cs)
      {
        assert cs[p..][1..] == cs[p + 1..];
        var q: nat := p;
        NotifyChange(cs[p], (n: nat) => connects(q, n), now);
        p := p + 1;
      }
    }
  }
}
