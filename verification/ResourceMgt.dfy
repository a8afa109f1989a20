/** The routing tables: services to nodes, and the nodes that have a pool (soaagent/resource_mgt.c). */
module ResourceMgt {
  import opened CString
  import opened ServiceConf
  import StrArray

  /** The two derived indexes: node lists under service keys, and the keys of nodes that have a pool. */
  datatype Tables = Tables(services: map<string, seq<string>>, pools: set<string>)

  function NodesOf(t: Tables, key: string): seq<string>
  {
    if key in t.services then t.services[key] else []
  }

  ghost predicate Routes(t: Tables, key: string, node: string)
  {
    key in t.services && node in t.services[key]
  }

  /** resource_add */
  function ResourceAdd(t: Tables, r: RegisterInfo): Tables
  {
    var key := ServiceKey(r.srv);
    Tables(t.services[key := StrArray.Added(NodesOf(t, key), NodeKey(r))], t.pools + {NodeKey(r)})
  }

  /** service_resource_delete */
  function ServiceDelete(services: map<string, seq<string>>, key: string, node: string): map<string, seq<string>>
  {
    if key !in services then services
    else
      var left := Without(services[key], node);
      if left == [] then services - {key} else services[key := left]
  }

  /** service_resource_pool_is_used */
  predicate PoolIsUsed(services: map<string, seq<string>>, node: string)
  {
    exists key | key in services :: node in services[key]
  }

  /** resource_delete */
  function ResourceDelete(t: Tables, r: RegisterInfo): Tables
  {
    var services := ServiceDelete(t.services, ServiceKey(r.srv), NodeKey(r));
    Tables(services, if PoolIsUsed(services, NodeKey(r)) then t.pools else t.pools - {NodeKey(r)})
  }

  /** notify_change */
  function Notify(t: Tables, c: Change): Tables
  {
    if c.status == -1 then ResourceDelete(t, c.info) else if c.status == 1 then ResourceAdd(t, c.info) else t
  }

  /** notify_change of every entry of a difference. */
  function NotifyAll(t: Tables, cs: seq<Change>): Tables
    decreases |cs|
  {
    if cs == [] then t else NotifyAll(Notify(t, cs[0]), cs[1..])
  }

  // ----- the tables agree with a set of registrations -----

  /** Some registration of the set is stored under this service key and node key. */
  ghost predicate Registered(rs: set<RegisterInfo>, key: string, node: string)
  {
    exists r :: r in rs && ServiceKey(r.srv) == key && NodeKey(r) == node
  }

  ghost predicate HasNode(rs: set<RegisterInfo>, node: string)
  {
    exists r :: r in rs && NodeKey(r) == node
  }

  /** The routing tables stand for the registrations rs: no more, no less, nothing twice. */
  ghost predicate Agrees(t: Tables, rs: set<RegisterInfo>)
  {
    && (forall key | key in t.services :: t.services[key] != [] && Distinct(t.services[key]))
    && (forall key, node :: Routes(t, key, node) <==> Registered(rs, key, node))
    && (forall node :: node in t.pools <==> HasNode(rs, node))
  }

  ghost predicate AllClean(rs: set<RegisterInfo>)
  {
    forall r | r in rs :: Clean(r)
  }

  lemma AddRoutes(t: Tables, r: RegisterInfo, key: string, node: string)
    requires Distinct(NodesOf(t, ServiceKey(r.srv)))
    ensures Routes(ResourceAdd(t, r), key, node)
       <==> Routes(t, key, node) || (key == ServiceKey(r.srv) && node == NodeKey(r))
  {
    hide ServiceKey, NodeKey;
  }

  lemma RegisteredAdd(rs: set<RegisterInfo>, r: RegisterInfo, key: string, node: string)
    ensures Registered(rs + {r}, key, node) <==>
               Registered(rs, key, node) || (key == ServiceKey(r.srv) && node == NodeKey(r))
    ensures HasNode(rs + {r}, node) <==> HasNode(rs, node) || node == NodeKey(r)
  {
    hide ServiceKey, NodeKey;
    assert r in rs + {r};
  }

  /** resource_add of a registration adds it and nothing else. */
  lemma {:induction false} AddAgrees(t: Tables, rs: set<RegisterInfo>, r: RegisterInfo)
    requires Agrees(t, rs)
    ensures Agrees(ResourceAdd(t, r), rs + {r})
  {
    hide ServiceKey, NodeKey, Registered, HasNode, Routes, ResourceAdd;
    var t' := ResourceAdd(t, r);
    AddShape(t, r);
    forall key, node
      ensures Routes(t', key, node) <==> Registered(rs + {r}, key, node)
    {
      AddRoutes(t, r, key, node);
      RegisteredAdd(rs, r, key, node);
    }
    forall node
      ensures node in t'.pools <==> HasNode(rs + {r}, node)
    {
      RegisteredAdd(rs, r, "", node);
    }
  }

  lemma AddShape(t: Tables, r: RegisterInfo)
    requires forall key | key in t.services :: t.services[key] != [] && Distinct(t.services[key])
    ensures var t' := ResourceAdd(t, r);
            && (forall key | key in t'.services :: t'.services[key] != [] && Distinct(t'.services[key]))
            && t'.pools == t.pools + {NodeKey(r)}
            && Distinct(NodesOf(t, ServiceKey(r.srv)))
  {
    hide ServiceKey, NodeKey;
    StrArray.AddedEntries(NodesOf(t, ServiceKey(r.srv)), NodeKey(r));
  }

  lemma DeleteRoutes(services: map<string, seq<string>>, pools: set<string>, key: string, node: string,
                     key': string, node': string)
    requires forall k | k in services :: Distinct(services[k])
    ensures Routes(Tables(ServiceDelete(services, key, node), pools), key', node')
       <==> Routes(Tables(services, pools), key', node') && !(key' == key && node' == node)
  {
    if key in services {
      StrArray.DeletedEntries(services[key], node);
    }
  }

  lemma DeleteShape(services: map<string, seq<string>>, key: string, node: string)
    requires forall k | k in services :: services[k] != [] && Distinct(services[k])
    ensures var services' := ServiceDelete(services, key, node);
            forall k | k in services' :: services'[k] != [] && Distinct(services'[k])
  {
    if key in services {
      StrArray.DeletedEntries(services[key], node);
    }
  }

  /** Taking a clean registration out of clean ones frees exactly its own keys. */
  lemma RegisteredDelete(rs: set<RegisterInfo>, r: RegisterInfo, key: string, node: string)
    requires AllClean(rs) && r in rs
    ensures Registered(rs - {r}, key, node) <==>
               Registered(rs, key, node) && !(key == ServiceKey(r.srv) && node == NodeKey(r))
  {
    hide ServiceKey, NodeKey;
    if Registered(rs, key, node) {
      var q :| q in rs && ServiceKey(q.srv) == key && NodeKey(q) == node;
      if q == r {
        forall p | p in rs && ServiceKey(p.srv) == key && NodeKey(p) == node
          ensures p == r
        {
          KeysDetermine(p, r);
        }
      } else {
        assert q in rs - {r};
        if key == ServiceKey(r.srv) && node == NodeKey(r) {
          KeysDetermine(q, r);
        }
      }
    }
  }

  /** A node is still registered exactly when a service still routes to it. */
  lemma HasNodeIsRegistered(rs: set<RegisterInfo>, node: string)
    ensures HasNode(rs, node) <==> exists key :: Registered(rs, key, node)
  {
    hide ServiceKey, NodeKey;
    if HasNode(rs, node) {
      var r :| r in rs && NodeKey(r) == node;
      assert Registered(rs, ServiceKey(r.srv), node);
    }
  }

  lemma PoolIsUsedIsRoutes(services: map<string, seq<string>>, pools: set<string>, node: string)
    ensures PoolIsUsed(services, node) <==> exists key :: Routes(Tables(services, pools), key, node)
  {
    if PoolIsUsed(services, node) {
      var key :| key in services && node in services[key];
      assert Routes(Tables(services, pools), key, node);
    }
    if exists key :: Routes(Tables(services, pools), key, node) {
      var key :| Routes(Tables(services, pools), key, node);
      assert key in services;
    }
  }

  lemma OtherNodesStay(rs: set<RegisterInfo>, r: RegisterInfo, node: string)
    requires node != NodeKey(r)
    ensures HasNode(rs - {r}, node) <==> HasNode(rs, node)
  {
    hide NodeKey;
    if HasNode(rs, node) {
      var q :| q in rs && NodeKey(q) == node;
      assert q in rs - {r};
    }
  }

  /** resource_delete of a registration removes it and nothing else, and its pool with its last service. */
  lemma {:induction false} DeleteAgrees(t: Tables, rs: set<RegisterInfo>, r: RegisterInfo)
    requires Agrees(t, rs) && AllClean(rs) && r in rs
    ensures Agrees(ResourceDelete(t, r), rs - {r})
  {
    hide ServiceKey, NodeKey, Registered, HasNode, Routes, PoolIsUsed, ServiceDelete;
    var key, node, left := ServiceKey(r.srv), NodeKey(r), rs - {r};
    var t' := ResourceDelete(t, r);
    DeleteShape(t.services, key, node);
    forall key', node'
      ensures Routes(t', key', node') <==> Registered(left, key', node')
    {
      DeleteRoutes(t.services, t'.pools, key, node, key', node');
      SameRoutes(t, t'.pools, key', node');
      RegisteredDelete(rs, r, key', node');
    }
    forall node'
      ensures node' in t'.pools <==> HasNode(left, node')
    {
      if node' == node {
        HasNodeIsRegistered(left, node);
        PoolIsUsedIsRoutes(t'.services, t'.pools, node);
        assert HasNode(rs, node) by {
          NodeOf(rs, r);
        }
      } else {
        OtherNodesStay(rs, r, node');
      }
    }
  }

  lemma NodeOf(rs: set<RegisterInfo>, r: RegisterInfo)
    requires r in rs
    ensures HasNode(rs, NodeKey(r))
  {
  }

  lemma SameRoutes(t: Tables, pools: set<string>, key: string, node: string)
    ensures Routes(Tables(t.services, pools), key, node) <==> Routes(t, key, node)
  {
  }

  /** Effective changes keep the tables in agreement with the registrations they describe. */
  lemma {:induction false} NotifyAllAgrees(t: Tables, rs: set<RegisterInfo>, cs: seq<Change>)
    requires Agrees(t, rs) && AllClean(rs) && Effective(rs, cs)
    requires forall c | c in cs :: Clean(c.info)
    ensures Agrees(NotifyAll(t, cs), Changed(rs, cs)) && AllClean(Changed(rs, cs))
    decreases |cs|
  {
    hide Agrees, Clean, ResourceAdd, ResourceDelete;
    if cs == [] {
    } else {
      var c := cs[0];
      if c.status == -1 {
        DeleteAgrees(t, rs, c.info);
      } else {
        AddAgrees(t, rs, c.info);
      }
      NotifyAllAgrees(Notify(t, c), ChangedBy(rs, c), cs[1..]);
    }
  }
}
