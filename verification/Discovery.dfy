/**
 Discovery: every child-change notification is turned into a snapshot, compared with the
 remembered one and applied to the routing tables (soaagent/invoke_stub.c).  Notifications are
 atomic, as they are under modify_resource_lock.
 */
module Discovery {
  import opened CString
  import opened ServiceConf
  import opened ResourceMgt
  import opened Lookups
  import RoutingTables
  import ConnPool

  /** service_filters, register_mapping (by provider key) and the routing tables. */
  datatype State = State(filters: seq<ServiceInfo>, mapping: map<string, Snapshot>, tables: Tables)

  const INITIAL := State([], map[], Tables(map[], {}))

  /** register_mapping_find */
  function MappingFind(mapping: map<string, Snapshot>, key: string): Snapshot
  {
    if key in mapping then mapping[key] else None
  }

  /** register_mapping_put: a new item's key is cut to its field. */
  function MappingPut(mapping: map<string, Snapshot>, key: string, s: Snapshot): map<string, Snapshot>
  {
    if key in mapping then mapping[key := s] else mapping[Truncate(key, PROVIDER_KEY_LEN) := s]
  }

  /** A snapshot that is put is found again, unless its key is new and did not fit the key field. */
  lemma FindAfterPut(mapping: map<string, Snapshot>, key: string, s: Snapshot)
    ensures (MappingFind(MappingPut(mapping, key, s), key) == s)
       <==> key in mapping || |key| < PROVIDER_KEY_LEN || s == None
  {
  }

  function Children(names: seq<seq<byte>>): (cs: seq<Child>)
    ensures |cs| == |names|
  {
    if names == [] then [] else Children(names[..|names| - 1]) + [ReadChild(names[|names| - 1])]
  }

  /** service_filter_add */
  function AddFilter(s: State, info: ServiceInfo): State
  {
    if info in s.filters then s else s.(filters := s.filters + [info])
  }

  /** children_change_func_impl */
  function ChildrenChanged(s: State, key: string, names: seq<seq<byte>>): State
  {
    var remote := SnapshotOf(s.filters, Children(names));
    var diff := Diff(MappingFind(s.mapping, key), remote);
    s.(mapping := MappingPut(s.mapping, key, remote),
       tables := if diff.Some? then NotifyAll(s.tables, diff.value) else s.tables)
  }

  /** What happens to an agent: a service is declared, or a group's provider list arrives. */
  datatype Event =
    | Declare(group: string, service: string, version: string)
    | Providers(watched: string, names: seq<seq<byte>>)

  function After(s: State, e: Event): State
  {
    match e
    case Declare(g, x, v) => AddFilter(s, PadService(g, x, v))
    case Providers(g, names) => ChildrenChanged(s, ProviderKey(g), names)
  }

  /** The agent after a history of events. */
  function Run(es: seq<Event>): State
  {
    if es == [] then INITIAL else After(Run(es[..|es| - 1]), es[|es| - 1])
  }

  // ----- the assumptions on providers -----

  /** A text the parser may read; if it is a description, one of this group with keys that stay apart. */
  predicate GoodChild(c: Child, group: string)
  {
    match c
    case NotJson => true
    case CutOff => false
    case Incomplete => false
    case Described(d) =>
      && d.group == group && '#' !in d.group && -9999 <= d.port <= 99999
      && forall i | 0 <= i < |d.services| :: '#' !in d.services[i].0
  }

  /** The group fits the provider key and every child is a good one of that group. */
  predicate GoodEvent(e: Event)
  {
    e.Providers? ==>
      && |e.watched| <= 48
      && forall i | 0 <= i < |e.names| :: GoodChild(ReadChild(e.names[i]), e.watched)
  }

  // ----- what the tables should say -----

  /** The filters declared so far. */
  function FiltersAfter(es: seq<Event>): seq<ServiceInfo>
  {
    if es == [] then []
    else
      var before, e := FiltersAfter(es[..|es| - 1]), es[|es| - 1];
      if e.Declare? then
        var info := PadService(e.group, e.service, e.version);
        if info in before then before else before + [info]
      else before
  }

  /** The latest filtered snapshot of a group: none before its first list, or if that list held no JSON. */
  function Latest(es: seq<Event>, group: string): Snapshot
  {
    if es == [] then None
    else
      var before, e := es[..|es| - 1], es[|es| - 1];
      if e.Providers? && e.watched == group then SnapshotOf(FiltersAfter(before), Children(e.names))
      else Latest(before, group)
  }

  /** Some group's latest snapshot holds r. */
  ghost predicate Known(es: seq<Event>, r: RegisterInfo)
  {
    exists group :: r in Elements(Latest(es, group))
  }

  /** The filters of an agent are the services it declared, with their fields cut to 49, 29 and 19 characters. */
  lemma {:induction false} FiltersAreDeclared(es: seq<Event>, info: ServiceInfo)
    ensures info in FiltersAfter(es) <==>
              exists i :: 0 <= i < |es| && es[i].Declare?
                          && info == PadService(es[i].group, es[i].service, es[i].version)
  {
    hide PadService;
    if es != [] {
      var n, before := |es| - 1, es[..|es| - 1];
      FiltersAreDeclared(before, info);
      assert forall i | 0 <= i < n :: before[i] == es[i];
    }
  }

  // ----- snapshots of good events -----

  /** The registrations of a snapshot are clean and of its group. */
  ghost predicate OfGroup(s: Snapshot, group: string)
  {
    forall r | r in Elements(s) :: Clean(r) && r.srv.group == group
  }

  lemma GoodOffer(filters: seq<ServiceInfo>, d: Description, group: string, r: RegisterInfo)
    requires GoodChild(Described(d), group) && |group| <= 48 && Offers(filters, d, 0, r)
    ensures Clean(r) && r.srv.group == group
  {
    var k :| 0 <= k < |d.services| && r == PadIn(d, k);
    var name := d.services[k].0;
    assert forall i | 0 <= i < |r.srv.service| :: r.srv.service[i] == name[i];
  }

  lemma ChildrenAt(names: seq<seq<byte>>, i: nat)
    requires i < |names|
    ensures Children(names)[i] == ReadChild(names[i])
  {
    hide ReadChild;
    if i < |names| - 1 {
      ChildrenAt(names[..|names| - 1], i);
    }
  }

  lemma {:induction false} GoodSnapshot(filters: seq<ServiceInfo>, e: Event)
    requires e.Providers? && GoodEvent(e)
    ensures var s := SnapshotOf(filters, Children(e.names)); OfGroup(s, e.watched) && Distinct(Elements(s))
  {
    hide ReadChild, GoodChild, Offers, Clean;
    var children := Children(e.names);
    SnapshotElements(filters, children);
    forall r | r in Elements(SnapshotOf(filters, children))
      ensures Clean(r) && r.srv.group == e.watched
    {
      assert RegisteredBy(filters, children, r);
      var c :| c in children && c.Described? && Offers(filters, c.d, 0, r);
      var i :| 0 <= i < |children| && children[i] == c;
      ChildrenAt(e.names, i);
      GoodOffer(filters, c.d, e.watched, r);
    }
  }

  // ----- the invariant -----

  /** All registrations that the mapping remembers. */
  ghost function Remembered(mapping: map<string, Snapshot>): set<RegisterInfo>
  {
    set key, r | key in mapping && r in Elements(mapping[key]) :: r
  }

  /** Every remembered snapshot lies under the key of the one group it belongs to. */
  ghost predicate WellKept(mapping: map<string, Snapshot>)
  {
    forall key | key in mapping ::
      && Distinct(Elements(mapping[key]))
      && forall r | r in Elements(mapping[key]) :: Clean(r) && ProviderKey(r.srv.group) == key
  }

  ghost predicate Inv(s: State)
  {
    WellKept(s.mapping) && Agrees(s.tables, Remembered(s.mapping))
  }

  lemma RememberedIsClean(mapping: map<string, Snapshot>)
    requires WellKept(mapping)
    ensures AllClean(Remembered(mapping))
  {
  }

  /** What the mapping remembers beside one key. */
  lemma RememberedSplits(mapping: map<string, Snapshot>, key: string, remote: Snapshot, group: string)
    requires WellKept(mapping) && key == ProviderKey(group) && OfGroup(remote, group)
    ensures var others := Remembered(mapping - {key});
            && Remembered(mapping) == others + ToSet(Elements(MappingFind(mapping, key)))
            && Remembered(mapping[key := remote]) == others + ToSet(Elements(remote))
            && others !! ToSet(Elements(MappingFind(mapping, key)))
            && others !! ToSet(Elements(remote))
  {
    hide ProviderKey, Distinct, Clean;
    var rest := mapping - {key};
    var others, here := Remembered(rest), ToSet(Elements(MappingFind(mapping, key)));
    forall r
      ensures r in Remembered(mapping) <==> r in others || r in here
      ensures r in Remembered(mapping[key := remote]) <==> r in others || r in Elements(remote)
    {
      assert forall k :: k in rest <==> k in mapping && k != key;
      assert forall k :: k in mapping[key := remote] <==> k in rest || k == key;
      assert r in here <==> key in mapping && r in Elements(mapping[key]);
    }
    forall r | r in others
      ensures r !in here && r !in ToSet(Elements(remote))
    {
      var k :| k in mapping - {key} && r in Elements((mapping - {key})[k]);
      assert ProviderKey(r.srv.group) == k;
    }
  }

  /** A good notification keeps the tables in agreement with the snapshots. */
  lemma {:induction false} ProvidersKeepInv(s: State, e: Event)
    requires Inv(s) && e.Providers? && GoodEvent(e)
    ensures Inv(After(s, e))
    ensures After(s, e).mapping == s.mapping[ProviderKey(e.watched) := SnapshotOf(s.filters, Children(e.names))]
  {
    hide Agrees, AllClean, ReadChild, Clean, NotifyAll, Remembered, Diff, Children, SnapshotOf, GoodEvent, Distinct;
    var key := ProviderKey(e.watched);
    var local, remote := MappingFind(s.mapping, key), SnapshotOf(s.filters, Children(e.names));
    ShortKey(e);
    GoodSnapshot(s.filters, e);
    RememberedSplits(s.mapping, key, remote, e.watched);
    RememberedIsClean(s.mapping);
    PutKeepsWellKept(s.mapping, e.watched, remote);
    var others := Remembered(s.mapping - {key});
    NothingRepeats();
    if local.None? && remote.None? {
      NoDiff();
    } else {
      SomeDiff(local, remote);
      DiffApplies(others, local, remote);
      LocalIsClean(s.mapping, e.watched);
      DiffIsClean(local, remote, e.watched);
      NotifyAllAgrees(s.tables, Remembered(s.mapping), Diff(local, remote).value);
    }
  }

  lemma NothingRepeats()
    ensures Distinct<RegisterInfo>([])
  {
  }

  lemma NoDiff()
    ensures Diff(None, None) == None
  {
  }

  lemma SomeDiff(left: Snapshot, right: Snapshot)
    requires left.Some? || right.Some?
    ensures Diff(left, right).Some?
  {
  }

  lemma ShortKey(e: Event)
    requires e.Providers? && GoodEvent(e)
    ensures |ProviderKey(e.watched)| < PROVIDER_KEY_LEN
  {
  }

  lemma LocalIsClean(mapping: map<string, Snapshot>, group: string)
    requires WellKept(mapping)
    ensures OfGroup(MappingFind(mapping, ProviderKey(group)), group)
  {
    hide Distinct;
    var s := MappingFind(mapping, ProviderKey(group));
    forall r | r in Elements(s)
      ensures Clean(r) && r.srv.group == group
    {
      ProviderKeyInjective(r.srv.group, group);
    }
  }

  lemma DiffIsClean(left: Snapshot, right: Snapshot, group: string)
    requires OfGroup(left, group) && OfGroup(right, group) && Diff(left, right).Some?
    requires Distinct(Elements(left)) && Distinct(Elements(right))
    ensures forall c | c in Diff(left, right).value :: Clean(c.info)
  {
    hide Clean, Diff, Distinct;
    DiffEntries(left, right);
  }

  lemma PutKeepsWellKept(mapping: map<string, Snapshot>, group: string, s: Snapshot)
    requires WellKept(mapping) && OfGroup(s, group) && Distinct(Elements(s))
    ensures WellKept(mapping[ProviderKey(group) := s])
  {
    hide Clean, Distinct, ProviderKey;
  }

  /** The invariant holds after every history of good events. */
  lemma {:induction false} RunKeepsInv(es: seq<Event>)
    requires forall i | 0 <= i < |es| :: GoodEvent(es[i])
    ensures Inv(Run(es))
    ensures Run(es).filters == FiltersAfter(es)
    ensures forall group :: MappingFind(Run(es).mapping, ProviderKey(group)) == Latest(es, group)
    decreases |es|
  {
    hide Agrees, ProviderKey, GoodEvent, SnapshotOf, Children, WellKept, NotifyAll, PadService, Diff;
    if es == [] {
      InitialInv();
    } else {
      var before, e := es[..|es| - 1], es[|es| - 1];
      RunKeepsInv(before);
      if e.Providers? {
        ProvidersKeepInv(Run(before), e);
        ShortKey(e);
        forall group
          ensures MappingFind(Run(es).mapping, ProviderKey(group)) == Latest(es, group)
        {
          if ProviderKey(group) == ProviderKey(e.watched) {
            ProviderKeyInjective(e.watched, group);
          }
        }
      }
    }
  }

  lemma InitialInv()
    ensures Inv(INITIAL)
  {
    hide ServiceKey, NodeKey;
  }

  lemma RememberedIsKnown(es: seq<Event>, r: RegisterInfo)
    requires WellKept(Run(es).mapping)
    requires forall group :: MappingFind(Run(es).mapping, ProviderKey(group)) == Latest(es, group)
    ensures r in Remembered(Run(es).mapping) <==> Known(es, r)
  {
    hide Run, Latest, Distinct, Clean, ProviderKey;
    var mapping := Run(es).mapping;
    if r in Remembered(mapping) {
      var key :| key in mapping && r in Elements(mapping[key]);
      assert MappingFind(mapping, ProviderKey(r.srv.group)) == Latest(es, r.srv.group);
    }
    if Known(es, r) {
      var group :| r in Elements(Latest(es, group));
      assert MappingFind(mapping, ProviderKey(group)) == Latest(es, group);
    }
  }

  /**
   After every history of good events: a service routes to a node exactly when some group's
   latest filtered snapshot registers it there; a node has a pool exactly when some service
   routes to it; no service has an empty node list, and no list holds a node twice.
   */
  lemma {:induction false} RoutesAreRegistrations(es: seq<Event>)
    requires forall i | 0 <= i < |es| :: GoodEvent(es[i])
    ensures var t := Run(es).tables;
            && (forall key, node :: Routes(t, key, node)
                  <==> exists r :: Known(es, r) && ServiceKey(r.srv) == key && NodeKey(r) == node)
            && (forall node :: node in t.pools <==> exists key :: Routes(t, key, node))
            && (forall key | key in t.services :: t.services[key] != [] && Distinct(t.services[key]))
  {
    hide Run, GoodEvent, ServiceKey, NodeKey, Known, Latest, Routes, WellKept, ProviderKey;
    RunKeepsInv(es);
    var t, rs := Run(es).tables, Remembered(Run(es).mapping);
    forall r
      ensures r in rs <==> Known(es, r)
    {
      RememberedIsKnown(es, r);
    }
    forall node
      ensures node in t.pools <==> exists key :: Routes(t, key, node)
    {
      HasNodeIsRegistered(rs, node);
      assert forall key :: Routes(t, key, node) <==> Registered(rs, key, node);
    }
  }

  lemma {:induction false} KnownIsRouted(es: seq<Event>, r: RegisterInfo)
    requires (forall i | 0 <= i < |es| :: GoodEvent(es[i])) && Known(es, r)
    ensures Routes(Run(es).tables, ServiceKey(r.srv), NodeKey(r))
  {
    hide Run, GoodEvent, Known, Latest, ServiceKey, NodeKey, Routes;
    RoutesAreRegistrations(es);
  }

  lemma {:induction false} RoutedIsKnown(es: seq<Event>, key: string, node: string) returns (r: RegisterInfo)
    requires (forall i | 0 <= i < |es| :: GoodEvent(es[i])) && Routes(Run(es).tables, key, node)
    ensures Known(es, r) && ServiceKey(r.srv) == key && NodeKey(r) == node
  {
    hide Run, GoodEvent, Known, Latest, ServiceKey, NodeKey, Routes;
    RoutesAreRegistrations(es);
    r :| Known(es, r) && ServiceKey(r.srv) == key && NodeKey(r) == node;
  }

  lemma {:induction false} OffersAreRoutes(es: seq<Event>, key: string)
    requires forall i | 0 <= i < |es| :: GoodEvent(es[i])
    ensures (exists r :: Known(es, r) && ServiceKey(r.srv) == key) <==>
              exists node :: Routes(Run(es).tables, key, node)
  {
    hide Run, GoodEvent, Known, Latest, ServiceKey, NodeKey, Routes;
    if r :| Known(es, r) && ServiceKey(r.srv) == key {
      KnownIsRouted(es, r);
    }
    if node :| Routes(Run(es).tables, key, node) {
      var r := RoutedIsKnown(es, key, node);
    }
  }

  lemma SomeRoute(t: Tables, key: string)
    ensures NodesOf(t, key) != [] <==> exists node :: Routes(t, key, node)
  {
    if NodesOf(t, key) != [] {
      assert Routes(t, key, t.services[key][0]);
    }
  }

  lemma PickIsRouted(t: Tables, counters: map<string, nat>, key: string)
    requires t.services.Keys == counters.Keys
    ensures PickOf(t.services, counters, key).Some? <==> NodesOf(t, key) != []
    ensures PickOf(t.services, counters, key).Some? ==> Routes(t, key, PickOf(t.services, counters, key).value)
  {
  }

  // ----- the agent in place -----

  class Agent {
    var filters: seq<ServiceInfo>
    var mapping: map<string, Snapshot>
    const resources: RoutingTables.Resources

    ghost function View(): State
      reads this, resources.services, resources.nodes
    {
      State(filters, mapping, resources.View())
    }

    ghost predicate Valid()
      reads this, resources.services, resources.services.Repr, resources.nodes, resources.nodes.Repr
    {
      resources.Valid() && this !in resources.Repr()
    }

    constructor (hash: string -> nat, config: RoutingTables.PoolConfig)
      ensures Valid() && View() == INITIAL && fresh(resources.Repr())
    {
      hide RoutingTables.Resources.Valid;
      filters, mapping := [], map[];
      resources := new RoutingTables.Resources(hash, config);
    }

    /** service_filter_add */
    method ServiceFilterAdd(info: ServiceInfo)
      requires Valid()
      modifies this
      ensures Valid() && View() == AddFilter(old(View()), info)
    {
      hide RoutingTables.Resources.Valid;
      var found := ServiceFilterFind(filters, info);
      if found {
        return;
      }
      filters := filters + [info];
    }

    /** The decoding loop of children_change_func_impl. */
    method ReadChildren(names: seq<seq<byte>>) returns (remote: Snapshot)
      ensures remote == SnapshotOf(filters, Children(names))
    {
      hide ReadChild;
      remote := None;
      var i := 0;
      while i < |names|
        invariant 0 <= i <= |names| && remote == SnapshotOf(filters, Children(names[..i]))
      {
        var child := ReadChild(names[i]);
        ChildrenNext(names, i);
        if child.Described? {
          var result := ParseNode(filters, remote, child.d);
          remote := Some(result);
        }
        i := i + 1;
      }
      assert names[..i] == names;
    }

    /**
     The lookups of invoke_service by an agent that has seen a good history: they find a pool exactly when some
     provider that is known offers the service, and then the pool of such a provider's node.
     */
    method FindPool(srv: ServiceInfo, ghost es: seq<Event>) returns (pool: Option<ConnPool.Pool>)
      requires Valid() && View() == Run(es) && forall i | 0 <= i < |es| :: GoodEvent(es[i])
      modifies resources.services.Repr
      ensures Valid() && View() == Run(es) && resources.Repr() == old(resources.Repr())
      ensures pool.Some? <==> exists r :: Known(es, r) && ServiceKey(r.srv) == ServiceKey(srv)
      ensures pool.Some? ==>
                exists r :: Known(es, r) && ServiceKey(r.srv) == ServiceKey(srv)
                            && resources.nodes.PoolOf(NodeKey(r)) == pool
      ensures var lists, counters := Run(es).tables.services, old(resources.services.counters);
              && lists.Keys == counters.Keys
              && pool == resources.PoolFor(PickOf(lists, counters, ServiceKey(srv)))
              && resources.services.counters == CountersAfter(lists, counters, ServiceKey(srv))
    {
      hide Run, GoodEvent, Known, Latest, ServiceKey, NodeKey, Routes, RoutingTables.Resources.Valid, Truncate;
      var key := ServiceKey(srv);
      RoutesAreRegistrations(es);
      forall node | Routes(Run(es).tables, key, node)
        ensures Truncate(node, RoutingTables.INVOKE_KEY_LEN) == node && node in Run(es).tables.pools
      {
        RoutedNodesHavePools(es, key, node);
      }
      SomeRoute(Run(es).tables, key);
      OffersAreRoutes(es, key);
      resources.SameKeys();
      PickIsRouted(Run(es).tables, resources.services.counters, key);
      hide PickOf, CountersAfter;
      pool := resources.FindPool(key);
    }

    /** children_change_func_impl */
    method ChildrenChange(key: string, names: seq<seq<byte>>, connects: (nat, nat) -> bool, now: int)
      requires Valid()
      modifies this, resources.Repr()
      ensures Valid() && fresh(resources.Repr() - old(resources.Repr()))
      ensures View() == ChildrenChanged(old(View()), key, names)
    {
      hide Diff, SnapshotOf, NotifyAll, Children, RoutingTables.Resources.Valid;
      var remote := ReadChildren(names);
      var local := MappingFind(mapping, key);
      var diff := DiffRegisterInfo(local, remote);
      if diff.Some? {
        resources.NotifyChanges(diff.value, connects, now);
      }
      mapping := MappingPut(mapping, key, remote);
    }
  }

  /** In every good history a node that a service routes to has a pool, and its key fits invoke_service's buffer. */
  lemma {:induction false} RoutedNodesHavePools(es: seq<Event>, key: string, node: string)
    requires forall i | 0 <= i < |es| :: GoodEvent(es[i])
    requires Routes(Run(es).tables, key, node)
    ensures Truncate(node, RoutingTables.INVOKE_KEY_LEN) == node && node in Run(es).tables.pools
  {
    hide Run, GoodEvent, Known, Latest, Routes, ServiceKey;
    RoutesAreRegistrations(es);
    var r := RoutedIsKnown(es, key, node);
  }

  lemma ChildrenNext(names: seq<seq<byte>>, i: nat)
    requires i < |names|
    ensures Children(names[..i + 1]) == Children(names[..i]) + [ReadChild(names[i])]
  {
    hide ReadChild;
    assert names[..i + 1][..i] == names[..i];
  }
}
