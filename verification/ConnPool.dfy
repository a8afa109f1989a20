/** Connection pools: idle and used connections on two linked lists (soaagent/conn_pool.c). */
module ConnPool {
  import opened CString
  import opened UtList

  // ----- what the operations do to the two lists -----

  /** The idle and used connections of a pool, with how many were ever opened and closed. */
  datatype State<C> = State(idle: seq<C>, used: seq<C>, created: nat, closed: nat)

  /** The pool after pool_init opened these connections. */
  function Started<C>(first: seq<C>): State<C>
  {
    State(first, [], |first|, 0)
  }

  /**
   pool_require_connection: the connection idle for longest, else a new one below the limit.
   made is the new connection, if one is attempted and connects.
   */
  function Required<C>(s: State<C>, max: int, made: Option<C>): (State<C>, Option<C>)
  {
    if s.idle != [] then (s.(idle := s.idle[1..], used := s.used + [s.idle[0]]), Some(s.idle[0]))
    else if |s.used| < max && made.Some? then (s.(used := s.used + [made.value], created := s.created + 1), made)
    else (s, None)
  }

  /** pool_release_connection */
  function Released<C(==)>(s: State<C>, conn: C): State<C>
  {
    s.(idle := s.idle + [conn], used := Without(s.used, conn))
  }

  /** The first connection that has been idle for too long. */
  function FirstStale<C(==)>(idle: seq<C>, stale: set<C>): (r: Option<C>)
    ensures r.Some? <==> exists c :: c in idle && c in stale
    ensures r.Some? ==> r.value in idle && r.value in stale
  {
    if idle == [] then None else if idle[0] in stale then Some(idle[0]) else FirstStale(idle[1..], stale)
  }

  /** pool_check: stale is the set of connections whose idle time is over. */
  function Checked<C(==)>(s: State<C>, min: int, stale: set<C>): State<C>
  {
    if s.used == [] && |s.idle| > min && FirstStale(s.idle, stale).Some? then
      s.(idle := Without(s.idle, FirstStale(s.idle, stale).value), closed := s.closed + 1)
    else s
  }

  /** pool_destroy: refused while a connection is out. */
  function Destroyed<C>(s: State<C>): (State<C>, int)
  {
    if s.used != [] then (s, -1) else (State([], [], s.created, s.closed + |s.idle|), 0)
  }

  // ----- runs -----

  datatype Event<C> = Require(made: Option<C>) | Release(conn: C) | Check(stale: set<C>) | Destroy

  /** min_conn_num and max_conn_num */
  datatype Limits = Limits(min: int, max: int)

  function After<C(==)>(s: State<C>, l: Limits, e: Event<C>): State<C>
  {
    match e
    case Require(made) => Required(s, l.max, made).0
    case Release(conn) => Released(s, conn)
    case Check(stale) => Checked(s, l.min, stale)
    case Destroy => Destroyed(s).0
  }

  function Run<C(==)>(first: seq<C>, l: Limits, es: seq<Event<C>>): State<C>
  {
    if es == [] then Started(first) else After(Run(first, l, es[..|es| - 1]), l, es[|es| - 1])
  }

  /** The connections that the pool made before some point of a run. */
  function Made<C(==)>(first: seq<C>, es: seq<Event<C>>): set<C>
  {
    if es == [] then set i | 0 <= i < |first| :: first[i]
    else
      var before, e := Made(first, es[..|es| - 1]), es[|es| - 1];
      if e.Require? && e.made.Some? then before + {e.made.value} else before
  }

  /** A new connection is new, and only a connection that is out is given back. */
  ghost predicate Proper<C>(first: seq<C>, l: Limits, es: seq<Event<C>>)
  {
    if es == [] then Distinct(first)
    else
      var before, e := es[..|es| - 1], es[|es| - 1];
      && Proper(first, l, before)
      && (e.Require? && e.made.Some? ==> e.made.value !in Made(first, before))
      && (e.Release? ==> e.conn in Run(first, l, before).used)
  }

  /** How often a connection was handed out and not given back yet. */
  function Holders<C(==)>(first: seq<C>, l: Limits, es: seq<Event<C>>, c: C): int
  {
    if es == [] then 0
    else
      var before, e := es[..|es| - 1], es[|es| - 1];
      Holders(first, l, before, c)
        + (if e.Require? && Required(Run(first, l, before), l.max, e.made).1 == Some(c) then 1 else 0)
        - (if e == Release(c) then 1 else 0)
  }

  function Max(a: int, b: int): int
  {
    if a < b then b else a
  }

  /** Moving an idle connection to the used list, and back, keeps the lists apart. */
  lemma MoveKeepsApart<C>(a: seq<C>, b: seq<C>, c: C)
    requires Apart(a, b) && Distinct(a) && Distinct(b)
    ensures a != [] ==> Apart(a[1..], b + [a[0]]) && a[0] !in b
    ensures c in b ==> Apart(a + [c], Without(b, c)) && c !in a
    ensures Apart(b, a)
  {
    WithoutEntries(b, c);
  }

  lemma ApartWithout<C>(a: seq<C>, b: seq<C>, c: C)
    requires Apart(a, b) && Distinct(a)
    ensures Apart(Without(a, c), b)
  {
    WithoutEntries(a, c);
  }

  lemma ApartNothing<C>(a: seq<C>)
    ensures Apart(a, []) && Apart([], a)
  {
  }

  /** What every operation keeps. */
  ghost predicate Inv<C>(s: State<C>, made: set<C>, bound: int)
  {
    && Distinct(s.idle) && Distinct(s.used)
    && Apart(s.idle, s.used)
    && (forall i | 0 <= i < |s.idle| :: s.idle[i] in made)
    && (forall i | 0 <= i < |s.used| :: s.used[i] in made)
    && s.created == |s.idle| + |s.used| + s.closed
    && |s.idle| + |s.used| <= bound
  }

  lemma {:induction false} AfterKeepsInv<C>(s: State<C>, l: Limits, e: Event<C>, made: set<C>, bound: int)
    requires Inv(s, made, bound) && l.max <= bound
    requires e.Require? && e.made.Some? ==> e.made.value !in made
    requires e.Release? ==> e.conn in s.used
    ensures Inv(After(s, l, e), if e.Require? && e.made.Some? then made + {e.made.value} else made, bound)
  {
    match e
    case Require(_) =>
    case Release(conn) =>
      WithoutEntries(s.used, conn);
    case Check(stale) =>
      if FirstStale(s.idle, stale).Some? {
        WithoutEntries(s.idle, FirstStale(s.idle, stale).value);
      }
    case Destroy =>
  }

  /**
   In every run: no connection is on a list twice or on both, the total stays within the larger
   of init_conn_num and max_conn_num, and every connection made is idle, used or closed.
   */
  lemma {:induction false} RunKeepsInv<C>(first: seq<C>, l: Limits, es: seq<Event<C>>)
    requires Proper(first, l, es)
    ensures Inv(Run(first, l, es), Made(first, es), Max(|first|, l.max))
    decreases |es|
  {
    if es == [] {
    } else {
      var before, e := es[..|es| - 1], es[|es| - 1];
      RunKeepsInv(first, l, before);
      AfterKeepsInv(Run(first, l, before), l, e, Made(first, before), Max(|first|, l.max));
    }
  }

  /** In every run a connection has one holder while it is on the used list, and none otherwise. */
  lemma {:induction false} OneHolder<C>(first: seq<C>, l: Limits, es: seq<Event<C>>, c: C)
    requires Proper(first, l, es)
    ensures Holders(first, l, es, c) == if c in Run(first, l, es).used then 1 else 0
    decreases |es|
  {
    if es == [] {
    } else {
      var before, e := es[..|es| - 1], es[|es| - 1];
      OneHolder(first, l, before, c);
      RunKeepsInv(first, l, before);
      var s := Run(first, l, before);
      if e.Release? {
        WithoutEntries(s.used, e.conn);
      }
    }
  }

  /**
   In every run a request fails exactly when every open connection is out and the limit is reached or
   the new connection fails; otherwise it gets a connection that nobody holds.
   */
  lemma {:induction false} RequireFails<C>(first: seq<C>, l: Limits, es: seq<Event<C>>, made: Option<C>)
    requires Proper(first, l, es + [Require(made)])
    ensures var s := Run(first, l, es);
            var (_, conn) := Required(s, l.max, made);
            && (conn == None <==> |s.used| == s.created - s.closed && (|s.used| >= l.max || made == None))
            && (conn.Some? ==> Holders(first, l, es, conn.value) == 0
                               && Holders(first, l, es + [Require(made)], conn.value) == 1)
  {
    assert (es + [Require(made)])[..|es|] == es;
    RunKeepsInv(first, l, es);
    var conn := Required(Run(first, l, es), l.max, made).1;
    if conn.Some? {
      OneHolder(first, l, es, conn.value);
      OneHolder(first, l, es + [Require(made)], conn.value);
    }
  }

  lemma {:induction false} ProperPrefix<C>(first: seq<C>, l: Limits, es: seq<Event<C>>, more: seq<Event<C>>)
    requires Proper(first, l, es + more)
    ensures Proper(first, l, es)
    decreases |more|
  {
    if more == [] {
      assert es + more == es;
    } else {
      assert (es + more)[..|es + more| - 1] == es + more[..|more| - 1];
      ProperPrefix(first, l, es, more[..|more| - 1]);
    }
  }

  /** In every run a connection that was made and is on neither list any more never comes back. */
  lemma {:induction false} GoneForGood<C>(first: seq<C>, l: Limits, es: seq<Event<C>>, more: seq<Event<C>>, c: C)
    requires Proper(first, l, es + more) && c in Made(first, es)
    requires c !in Run(first, l, es).idle && c !in Run(first, l, es).used
    ensures c in Made(first, es + more)
    ensures c !in Run(first, l, es + more).idle && c !in Run(first, l, es + more).used
    decreases |more|
  {
    if more == [] {
      assert es + more == es;
    } else {
      var before, e := es + more[..|more| - 1], more[|more| - 1];
      assert (es + more)[..|es + more| - 1] == before;
      GoneForGood(first, l, es, more[..|more| - 1], c);
      RunKeepsInv(first, l, before);
      StaysGone(Run(first, l, before), l, e, c);
    }
  }

  lemma StaysGone<C>(s: State<C>, l: Limits, e: Event<C>, c: C)
    requires Distinct(s.idle) && Distinct(s.used) && c !in s.idle && c !in s.used
    requires e.Release? ==> e.conn in s.used
    requires e.Require? && e.made.Some? ==> e.made.value != c
    ensures c !in After(s, l, e).idle && c !in After(s, l, e).used
  {
    match e
    case Require(_) =>
    case Release(conn) => WithoutEntries(s.used, conn);
    case Check(stale) =>
      if FirstStale(s.idle, stale).Some? {
        WithoutEntries(s.idle, FirstStale(s.idle, stale).value);
      }
    case Destroy =>
  }

  /**
   In every run, what a check takes off the lists is one stale idle connection of a pool that lent none,
   at least min_conn_num are left, and the connection is never handed out again.
   */
  lemma {:induction false} CheckClosesOne<C>(first: seq<C>, l: Limits, es: seq<Event<C>>, stale: set<C>,
                                             more: seq<Event<C>>, c: C)
    requires Proper(first, l, es + [Check(stale)] + more)
    requires c in Run(first, l, es).idle || c in Run(first, l, es).used
    requires var s' := Run(first, l, es + [Check(stale)]); c !in s'.idle && c !in s'.used
    ensures var s, s' := Run(first, l, es), Run(first, l, es + [Check(stale)]);
            && s.used == [] && c in stale && s'.idle == Without(s.idle, c) && |s'.idle| >= l.min
            && s'.closed == s.closed + 1
    ensures Holders(first, l, es + [Check(stale)] + more, c) == 0
  {
    var es' := es + [Check(stale)];
    assert es'[..|es|] == es;
    ProperPrefix(first, l, es', more);
    RunKeepsInv(first, l, es);
    var s := Run(first, l, es);
    if c !in s.used {
      var d := FirstStale(s.idle, stale).value;
      WithoutEntries(s.idle, d);
      assert c in s.idle && c == d;
    }
    assert c in Made(first, es);
    GoneForGood(first, l, es', more, c);
    OneHolder(first, l, es' + more, c);
  }

  /** No pool_destroy of the run succeeds. */
  ghost predicate Alive<C>(first: seq<C>, l: Limits, es: seq<Event<C>>)
  {
    es == [] ||
      var before := es[..|es| - 1];
      Alive(first, l, before) && (es[|es| - 1].Destroy? ==> Run(first, l, before).used != [])
  }

  function Checks<C>(es: seq<Event<C>>): nat
  {
    if es == [] then 0 else Checks(es[..|es| - 1]) + if es[|es| - 1].Check? then 1 else 0
  }

  /**
   In every run of a pool that is not destroyed, the total never sinks below min_conn_num, or below the
   connections that pool_init made if those were fewer, and there were at least as many checks as closings.
   */
  lemma {:induction false} NeverBelowMin<C>(first: seq<C>, l: Limits, es: seq<Event<C>>)
    requires Proper(first, l, es) && Alive(first, l, es)
    ensures var s := Run(first, l, es);
            (|s.idle| + |s.used| >= |first| || |s.idle| + |s.used| >= l.min) && s.closed <= Checks(es)
    decreases |es|
  {
    if es == [] {
    } else {
      NeverBelowMin(first, l, es[..|es| - 1]);
    }
  }

  /** In every run destroying succeeds exactly when no connection is out; then everything made is closed. */
  lemma {:induction false} DestroyedWhenNoneIsOut<C>(first: seq<C>, l: Limits, es: seq<Event<C>>)
    requires Proper(first, l, es)
    ensures var s := Run(first, l, es);
            && (Destroyed(s).1 == 0 <==> forall c :: Holders(first, l, es, c) == 0)
            && (Destroyed(s).1 == 0 ==>
                  Destroyed(s).0.idle == [] && Destroyed(s).0.used == [] && Destroyed(s).0.closed == s.created)
            && (Destroyed(s).1 != 0 ==> Destroyed(s).0 == s)
  {
    var s := Run(first, l, es);
    RunKeepsInv(first, l, es);
    forall c
      ensures Holders(first, l, es, c) == if c in s.used then 1 else 0
    {
      OneHolder(first, l, es, c);
    }
    if s.used != [] {
      assert Holders(first, l, es, s.used[0]) == 1;
    }
  }

  lemma {:induction false} FirstStaleAt<C>(idle: seq<C>, stale: set<C>) returns (i: nat)
    requires FirstStale(idle, stale).Some?
    ensures i < |idle| && idle[i] == FirstStale(idle, stale).value
    ensures idle[i] in stale && forall j | 0 <= j < i :: idle[j] !in stale
  {
    if idle[0] in stale {
      i := 0;
    } else {
      var k := FirstStaleAt(idle[1..], stale);
      i := k + 1;
      assert forall j | 0 < j < i :: idle[j] == idle[1..][j - 1];
    }
  }

  lemma EarliestStale<C>(idle: seq<C>, stale: set<C>) returns (i: nat)
    requires Distinct(idle) && FirstStale(idle, stale).Some?
    ensures i < |idle| && idle[i] in stale && forall j | 0 <= j < i :: idle[j] !in stale
    ensures Without(idle, FirstStale(idle, stale).value) == idle[..i] + idle[i + 1..]
  {
    i := FirstStaleAt(idle, stale);
    hide FirstStale;
    WithoutAt(idle, i);
  }

  /** The state is another with the idle connection at position i closed, the first there that is stale. */
  ghost predicate ClosedAt<C>(s: State<C>, stale: set<C>, s': State<C>, i: int)
  {
    && 0 <= i < |s.idle| && s.idle[i] in stale && (forall j | 0 <= j < i :: s.idle[j] !in stale)
    && s' == State(s.idle[..i] + s.idle[i + 1..], s.used, s.created, s.closed + 1)
  }

  /**
   In every run a check leaves one idle connection fewer exactly when nobody holds a connection, more than
   min_conn_num are idle and one of them is stale.  The one that goes is the earliest stale one on the
   idle list; otherwise the check changes nothing.
   */
  lemma {:induction false} CheckOutcome<C>(first: seq<C>, l: Limits, es: seq<Event<C>>, stale: set<C>)
    requires Proper(first, l, es + [Check(stale)])
    ensures var s, s' := Run(first, l, es), Run(first, l, es + [Check(stale)]);
            var due := (forall c :: Holders(first, l, es, c) == 0) && |s.idle| > l.min
                       && exists i :: 0 <= i < |s.idle| && s.idle[i] in stale;
            && (|s'.idle| == |s.idle| - 1 <==> due)
            && (if due then exists i :: ClosedAt(s, stale, s', i) else s' == s)
  {
    var s, s' := Run(first, l, es), Run(first, l, es + [Check(stale)]);
    assert (es + [Check(stale)])[..|es|] == es;
    RunKeepsInv(first, l, es);
    forall c
      ensures Holders(first, l, es, c) == if c in s.used then 1 else 0
    {
      OneHolder(first, l, es, c);
    }
    if s.used != [] {
      assert Holders(first, l, es, s.used[0]) == 1;
    } else if |s.idle| > l.min && FirstStale(s.idle, stale).Some? {
      var i := EarliestStale(s.idle, stale);
      assert ClosedAt(s, stale, s', i);
    }
  }

  // ----- the order of the idle list -----

  function Position<C(==)>(s: seq<C>, c: C): (i: nat)
    ensures i <= |s| && (i < |s| <==> c in s)
    ensures i < |s| ==> s[i] == c
  {
    if s == [] then 0 else if s[0] == c then 0 else 1 + Position(s[1..], c)
  }

  /** When a connection last became idle: the number of events up to its return, less than 0 if pool_init made it. */
  function FreedAt<C(==)>(first: seq<C>, es: seq<Event<C>>, c: C): int
  {
    if es == [] then Position(first, c) - |first|
    else if es[|es| - 1] == Release(c) then |es|
    else FreedAt(first, es[..|es| - 1], c)
  }

  lemma {:induction false} FreedBefore<C>(first: seq<C>, es: seq<Event<C>>, c: C)
    ensures FreedAt(first, es, c) <= |es|
  {
    if es != [] {
      FreedBefore(first, es[..|es| - 1], c);
    }
  }

  lemma {:induction false} PositionAt<C>(s: seq<C>, i: nat)
    requires Distinct(s) && i < |s|
    ensures Position(s, s[i]) == i
  {
  }

  ghost predicate InOrder<C>(first: seq<C>, es: seq<Event<C>>, idle: seq<C>)
  {
    forall i, j | 0 <= i < j < |idle| :: FreedAt(first, es, idle[i]) < FreedAt(first, es, idle[j])
  }

  lemma OrderWithout<C>(first: seq<C>, es: seq<Event<C>>, idle: seq<C>, k: nat)
    requires InOrder(first, es, idle) && k < |idle|
    ensures InOrder(first, es, idle[..k] + idle[k + 1..]) && InOrder(first, es, idle[1..])
  {
    hide FreedAt;
    var r := idle[..k] + idle[k + 1..];
    assert forall i | 0 <= i < |r| :: r[i] == idle[if i < k then i else i + 1];
  }

  lemma OrderAfter<C>(first: seq<C>, es: seq<Event<C>>, e: Event<C>, idle: seq<C>)
    requires InOrder(first, es, idle) && (e.Release? ==> e.conn !in idle)
    ensures InOrder(first, es + [e], idle)
    ensures e.Release? ==> InOrder(first, es + [e], idle + [e.conn])
  {
    assert (es + [e])[..|es|] == es;
    forall i | 0 <= i < |idle|
      ensures FreedAt(first, es + [e], idle[i]) == FreedAt(first, es, idle[i]) <= |es|
    {
      FreedBefore(first, es, idle[i]);
    }
    if e.Release? {
      assert FreedAt(first, es + [e], e.conn) == |es| + 1;
    }
    hide FreedAt;
  }

  /** In every run the idle connections stand in the order in which they became idle. */
  lemma {:induction false} IdleInOrder<C>(first: seq<C>, l: Limits, es: seq<Event<C>>)
    requires Proper(first, l, es)
    ensures InOrder(first, es, Run(first, l, es).idle)
    decreases |es|
  {
    if es == [] {
      forall i | 0 <= i < |first|
        ensures Position(first, first[i]) == i
      {
        PositionAt(first, i);
      }
    } else {
      var before, e := es[..|es| - 1], es[|es| - 1];
      var s := Run(first, l, before);
      IdleInOrder(first, l, before);
      RunKeepsInv(first, l, before);
      hide InOrder;
      assert before + [e] == es;
      match e
      case Require(_) =>
        if s.idle != [] {
          OrderWithout(first, before, s.idle, 0);
          OrderAfter(first, before, e, s.idle[1..]);
        } else {
          OrderAfter(first, before, e, s.idle);
        }
      case Release(conn) =>
        OrderAfter(first, before, e, s.idle);
      case Check(stale) =>
        if FirstStale(s.idle, stale).Some? {
          var i := EarliestStale(s.idle, stale);
          OrderWithout(first, before, s.idle, i);
          OrderAfter(first, before, e, s.idle[..i] + s.idle[i + 1..]);
        }
        OrderAfter(first, before, e, s.idle);
      case Destroy =>
        OrderAfter(first, before, e, s.idle);
        OrderAfter(first, before, e, []);
    }
  }

  /** In every run a request is given the connection that has been idle for longest, if any is idle. */
  lemma {:induction false} LongestIdleFirst<C>(first: seq<C>, l: Limits, es: seq<Event<C>>, made: Option<C>)
    requires Proper(first, l, es + [Require(made)])
    ensures var s := Run(first, l, es);
            s.idle != [] ==>
              && Required(s, l.max, made).1.Some?
              && var c := Required(s, l.max, made).1.value;
                 c in s.idle && forall d | d in s.idle :: FreedAt(first, es, c) <= FreedAt(first, es, d)
  {
    assert (es + [Require(made)])[..|es|] == es;
    IdleInOrder(first, l, es);
  }

  // ----- the pool in place -----

  /** A connection, apart from its next pointer. */
  class Conn {
    var connected: bool
    var errorOccurred: bool
    var lastUsedTime: int

    /** conn_init */
    constructor ()
      ensures !connected && !errorOccurred
    {
      connected, errorOccurred := false, false;
    }

    /** conn_connect: the outcome of connecting is an input. */
    method Connect(connects: bool, now: int) returns (ok: bool)
      modifies this
      ensures ok == connects
      ensures ok ==> connected && !errorOccurred && lastUsedTime == now
      ensures !ok ==> unchanged(this)
    {
      if !connects {
        return false;
      }
      connected, errorOccurred, lastUsedTime := true, false, now;
      ok := true;
    }

    /** conn_disconnect */
    method Disconnect()
      modifies this
      ensures !connected && !errorOccurred && lastUsedTime == old(lastUsedTime)
    {
      connected, errorOccurred := false, false;
    }

    /** conn_reconnect */
    method Reconnect(connects: bool, now: int) returns (ok: bool)
      modifies this
      ensures ok == connects == connected && !errorOccurred
    {
      Disconnect();
      ok := Connect(connects, now);
    }
  }

  type Link = Node<Conn>

  /** LL_DELETE from one list and LL_APPEND to the other. */
  method MoveConn(from: Link, to: Node?<Conn>, conn: Link, ghost a: seq<Link>, ghost b: seq<Link>)
    returns (from': Node?<Conn>, to': Node?<Conn>)
    requires List(from, a) && List(to, b) && conn in a
    requires Apart(a, b)
    modifies a`next, b`next
    ensures List(from', Without(a, conn)) && List(to', b + [conn])
  {
    hide List, Chained, Distinct, Without;
    HeadOf(from, a);
    WithoutEntries(a, conn);
    from' := Delete(from, conn, a);
    to' := Append(to, conn, b);
  }

  lemma InitialLists()
    ensures List<Conn>(null, []) && Apart<Link>([], [])
  {
  }

  lemma HeadOf(head: Node?<Conn>, nodes: seq<Link>)
    requires List(head, nodes)
    ensures Distinct(nodes) && (head == null <==> nodes == [])
    ensures nodes != [] ==> head == nodes[0] && Without(nodes, nodes[0]) == nodes[1..]
  {
  }

  class Pool {
    const minConnNum: int
    const maxConnNum: int
    var unusedConnList: Node?<Conn>
    var usedConnList: Node?<Conn>
    ghost var idle: seq<Link>
    ghost var used: seq<Link>
    ghost var created: nat
    ghost var closed: nat

    ghost predicate Valid()
      reads this, idle, used
    {
      && List(unusedConnList, idle) && List(usedConnList, used)
      && Apart(idle, used) && created == |idle| + |used| + closed
    }

    ghost function View(): State<Link>
      reads this
    {
      State(idle, used, created, closed)
    }

    /** pool_init: connects[n] tells whether connection n connects; one that does not is dropped. */
    constructor (initConnNum: int, minConnNum: int, maxConnNum: int, connects: seq<bool>, now: int)
      requires |connects| == Max(0, initConnNum)
      ensures Valid() && View() == Started(idle) && fresh(idle)
      ensures |idle| == Successes(connects) && this.minConnNum == minConnNum && this.maxConnNum == maxConnNum
    {
      this.minConnNum, this.maxConnNum := minConnNum, maxConnNum;
      unusedConnList, usedConnList := null, null;
      idle, used, created, closed := [], [], 0, 0;
      new;
      hide List, Chained, Distinct, Apart;
      InitialLists();
      var n := 0;
      while n < initConnNum
        invariant 0 <= n <= |connects| && Valid() && View() == Started(idle) && fresh(idle)
        invariant |idle| == Successes(connects[..n])
      {
        OpenIdle(connects[n], now);
        assert connects[..n + 1][..n] == connects[..n];
        n := n + 1;
      }
      assert connects[..n] == connects;
    }

    /** One turn of the loop of pool_init. */
    method OpenIdle(connects: bool, now: int)
      requires Valid() && View() == Started(idle)
      modifies this, idle
      ensures Valid() && View() == Started(idle)
      ensures forall i | 0 <= i < |idle| :: idle[i] in old(idle) || fresh(idle[i])
      ensures |idle| == |old(idle)| + if connects then 1 else 0
    {
      hide List, Chained, Distinct, Apart;
      var conn := NewConn();
      var ok := conn.value.Connect(connects, now);
      if ok {
        unusedConnList := Append(unusedConnList, conn, idle);
        ApartNothing(idle + [conn]);
        idle, created := idle + [conn], created + 1;
      }
    }

    /** pool_require_connection */
    method RequireConnection(connects: bool, now: int) returns (conn: Node?<Conn>, ghost made: Option<Link>)
      requires Valid()
      modifies this, idle, used
      ensures Valid()
      ensures made.Some? <==> old(idle) == [] && |old(used)| < maxConnNum && connects
      ensures made.Some? ==> fresh(made.value) && fresh(made.value.value) && made.value.value.connected
      ensures Required(old(View()), maxConnNum, made) == (View(), if conn == null then None else Some(conn))
    {
      hide List, Chained, Distinct, Without, Apart;
      HeadOf(unusedConnList, idle);
      made := None;
      conn := null;
      var count := Count(unusedConnList, idle);
      if count > 0 {
        conn := UseFirstIdle();
      } else {
        var usedCount := Count(usedConnList, used);
        if usedCount + count < maxConnNum {
          var added := NewConn();
          var ok := added.value.Connect(connects, now);
          if ok {
            UseNew(added);
            conn, made := added, Some(added);
          }
        }
      }
    }

    /** The new connection joins the used list. */
    method UseNew(added: Link)
      requires Valid() && idle == [] && added !in used
      modifies this, used, added
      ensures Valid() && View() == old(View()).(used := old(used) + [added], created := old(created) + 1)
    {
      hide List, Chained, Distinct, Without, Apart;
      HeadOf(unusedConnList, idle);
      ApartNothing(used + [added]);
      usedConnList := Append(usedConnList, added, used);
      used, created := used + [added], created + 1;
    }

    /** The branch of pool_require_connection that hands out the first idle connection. */
    method UseFirstIdle() returns (conn: Link)
      requires Valid() && idle != []
      modifies this, idle, used
      ensures Valid() && Required(old(View()), maxConnNum, None) == (View(), Some(conn))
    {
      hide List, Chained, Distinct, Without, Apart;
      HeadOf(unusedConnList, idle);
      HeadOf(usedConnList, used);
      MoveKeepsApart(idle, used, idle[0]);
      conn := unusedConnList;
      unusedConnList, usedConnList := MoveConn(conn, usedConnList, conn, idle, used);
      idle, used := idle[1..], used + [conn];
    }

    /** The list changes of pool_release_connection. */
    method UnuseConnection(conn: Link)
      requires Valid() && conn in used
      modifies this, idle, used
      ensures Valid() && View() == Released(old(View()), conn)
    {
      hide List, Chained, Distinct, Without, Apart;
      HeadOf(usedConnList, used);
      HeadOf(unusedConnList, idle);
      MoveKeepsApart(idle, used, conn);
      usedConnList, unusedConnList := MoveConn(usedConnList, unusedConnList, conn, used, idle);
      idle, used := idle + [conn], Without(used, conn);
    }

    /** pool_release_connection: nothing happens without a connection. */
    method ReleaseConnection(conn: Node?<Conn>, asNormal: bool, now: int)
      requires Valid() && (conn != null ==> conn in used)
      modifies this, idle, used, if conn == null then {} else {conn.value}
      ensures Valid() && View() == if conn == null then old(View()) else Released(old(View()), conn)
      ensures conn == null ==> unchanged(this)
      ensures conn != null && asNormal ==>
                conn.value.lastUsedTime == now && conn.value.errorOccurred == old(conn.value.errorOccurred)
      ensures conn != null && !asNormal ==>
                conn.value.errorOccurred && conn.value.lastUsedTime == old(conn.value.lastUsedTime)
      ensures conn != null ==> conn.value.connected == old(conn.value.connected)
    {
      if conn == null {
        return;
      }
      hide List, Distinct, Without, Apart;
      UnuseConnection(conn);
      if asNormal {
        conn.value.lastUsedTime := now;
      } else {
        conn.value.errorOccurred := true;
      }
    }

    /** pool_check */
    method CheckIdle(stale: set<Link>) returns (ghost gone: Option<Link>)
      requires Valid()
      modifies this, idle, set c | c in idle :: c.value
      ensures Valid() && View() == Checked(old(View()), minConnNum, stale)
      ensures gone.Some? ==> gone.value in old(idle) && gone.value in stale && !gone.value.value.connected
      ensures gone.Some? ==> idle == Without(old(idle), gone.value) && closed == old(closed) + 1
      ensures gone == None ==> View() == old(View())
      ensures forall c | c in old(idle) && (gone.Some? ==> c.value != gone.value.value) :: unchanged(c.value)
    {
      gone := None;
      hide List, Chained, Distinct, Without, Apart, FirstStale;
      HeadOf(unusedConnList, idle);
      var usedConnNum := Count(usedConnList, used);
      if usedConnNum == 0 {
        var idleConnNum := Count(unusedConnList, idle);
        if idleConnNum - minConnNum > 0 {
          var elt := FindStale(stale);
          if elt != null {
            CloseIdle(elt);
            gone := Some(elt);
          }
        }
      }
    }

    /** The closing branch of pool_check. */
    method CloseIdle(conn: Link)
      requires Valid() && conn in idle
      modifies this, idle, conn.value
      ensures Valid() && View() == old(View()).(idle := Without(old(idle), conn), closed := old(closed) + 1)
      ensures !conn.value.connected
    {
      hide List, Chained, Distinct, Without;
      HeadOf(unusedConnList, idle);
      ApartWithout(idle, used, conn);
      unusedConnList := Delete(unusedConnList, conn, idle);
      idle, closed := Without(idle, conn), closed + 1;
      conn.value.Disconnect();
    }

    /** The search loop of pool_check. */
    method FindStale(stale: set<Link>) returns (elt: Node?<Conn>)
      requires Valid()
      ensures FirstStale(idle, stale) == if elt == null then None else Some(elt)
    {
      elt := unusedConnList;
      ghost var i := 0;
      while elt != null
        invariant 0 <= i <= |idle| && elt == (if i < |idle| then idle[i] else null)
        invariant FirstStale(idle, stale) == FirstStale(idle[i..], stale)
        decreases |idle| - i
      {
        assert idle[i..][1..] == idle[i + 1..];
        if elt in stale {
          return;
        }
        NextOf(unusedConnList, idle, i);
        elt := elt.next;
        i := i + 1;
      }
    }

    /** pool_destroy */
    method Destroy() returns (ret: int)
      requires Valid()
      modifies this, idle, set c | c in idle :: c.value
      ensures Valid() && Destroyed(old(View())) == (View(), ret)
    {
      hide List, Chained, Distinct, Without, Apart;
      HeadOf(unusedConnList, idle);
      var count := Count(usedConnList, used);
      if count > 0 {
        return -1;
      }
      var elt := unusedConnList;
      while elt != null
        invariant Valid() && used == [] && elt == unusedConnList && created == old(created)
                    && (elt == null <==> idle == [])
        invariant closed + |idle| == old(closed + |idle|) && forall i | 0 <= i < |idle| :: idle[i] in old(idle)
        decreases |idle|
      {
        assert idle[0] in old(idle);
        elt := CloseFirst();
      }
      ret := 0;
    }

    /** One turn of the loop of pool_destroy. */
    method CloseFirst() returns (elt: Node?<Conn>)
      requires Valid() && used == [] && idle != []
      modifies this, idle, idle[0].value
      ensures Valid() && used == [] && idle == old(idle)[1..] && elt == unusedConnList
      ensures closed == old(closed) + 1 && created == old(created) && (elt == null <==> idle == [])
    {
      hide List, Chained, Distinct, Without, Apart;
      HeadOf(unusedConnList, idle);
      NextOf(unusedConnList, idle, 0);
      ApartNothing(idle[1..]);
      var del: Link := unusedConnList;
      elt := del.next;
      unusedConnList := Delete(del, del, idle);
      idle, closed := idle[1..], closed + 1;
      HeadOf(unusedConnList, idle);
      del.value.Disconnect();
    }
  }

  method NewConn() returns (conn: Link)
    ensures fresh(conn) && fresh(conn.value) && conn.next == null
  {
    var c := new Conn();
    conn := new Node(c);
  }

  /** How many of the connections connect. */
  function Successes(connects: seq<bool>): nat
  {
    if connects == [] then 0
    else Successes(connects[..|connects| - 1]) + if connects[|connects| - 1] then 1 else 0
  }
}
