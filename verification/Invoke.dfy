/**
 Calls over pooled connections: invoke_service and its retry loop (soaagent/invoke_stub.c),
 for any number of concurrent calls that share one node's pool.  The server answers a request
 with its identifier, any number of times and as late as it likes; replies arrive whole.
 */
module Invoke {
  import opened CString
  import P = ConnPool
  import Protocol
  import UtList

  const BIZ_REQ_MSG_TYPE: bv8 := 0x10
  const BIZ_RES_MSG_TYPE := 0x90
  const RETRY_TIMES := 1

  /** A message sent for a call, and an answer of the server to it. */
  datatype Request = Request(call: nat, identifier: nat, body: string)
  datatype Reply = Reply(to: Request, kind: int, body: string)

  /** A connection's socket: what the server got on it, and the replies not yet received. */
  datatype Wire = Wire(connected: bool, pending: seq<Request>, inbox: seq<Reply>)

  /** Where a call is in invoke_service: in its retry loop, about to release, or returned. */
  datatype Phase =
    | Sending
    | Receiving
    | Retrying
    | Leaving(code: int, reply: Option<Reply>)
    | Left(code: int, reply: Option<Reply>)

  /** serial counts the identifiers drawn; retry is the loop's counter after its test. */
  datatype Call = Call(conn: nat, serial: nat, body: string, retry: nat, phase: Phase)

  datatype System = System(pool: P.State<nat>, wires: map<nat, Wire>, calls: map<nat, Call>, serial: nat)

  /** next_identifier: a 32-bit counter. */
  function Identifier(serial: nat): nat
  {
    serial % UINT32
  }

  function RequestOf(k: nat, c: Call): Request
  {
    Request(k, Identifier(c.serial), c.body)
  }

  // ----- steps -----

  datatype Step =
    | Begin(call: nat, body: string, made: Option<nat>)
    | Refuse
    | Send(call: nat, delivered: bool, ok: bool)
    | Answer(conn: nat, request: Request, kind: int, body: string)
    | Receive(call: nat, ok: bool)
    | Reconnect(call: nat, connects: bool)
    | Release(call: nat)
    | Check(stale: set<nat>)

  predicate InPhase(s: System, k: nat, p: Phase)
  {
    k in s.calls && s.calls[k].phase == p && s.calls[k].conn in s.wires
  }

  predicate Enabled(s: System, l: P.Limits, step: Step)
  {
    match step
    case Begin(k, _, made) =>
      && k !in s.calls
      && (made.Some? ==> s.pool.idle == [] && |s.pool.used| < l.max && made.value !in s.wires)
      && P.Required(s.pool, l.max, made).1.Some?
    case Refuse => P.Required(s.pool, l.max, None).1.None?
    case Send(k, delivered, ok) =>
      && InPhase(s, k, Sending)
      && (delivered ==> s.wires[s.calls[k].conn].connected) && (ok ==> delivered)
    case Answer(conn, request, _, _) => conn in s.wires && request in s.wires[conn].pending
    case Receive(k, ok) => InPhase(s, k, Receiving) && (ok ==> s.wires[s.calls[k].conn].inbox != [])
    case Reconnect(k, _) => InPhase(s, k, Retrying)
    case Release(k) => k in s.calls && s.calls[k].phase.Leaving?
    case Check(_) => true
  }

  /** A failed attempt: the loop reconnects if a retry is left, and gives up otherwise. */
  function Failed(c: Call): Call
  {
    c.(phase := if c.retry > 0 then Retrying else Leaving(-1, None))
  }

  /** What the loop makes of a reply. */
  function Received(c: Call, reply: Reply): Call
  {
    if reply.to.identifier == Identifier(c.serial) && reply.kind == BIZ_RES_MSG_TYPE
    then c.(phase := Leaving(0, Some(reply)))
    else Failed(c)
  }

  function Next(s: System, l: P.Limits, step: Step): System
    requires Enabled(s, l, step)
  {
    match step
    case Begin(k, body, made) =>
      var (pool, conn) := P.Required(s.pool, l.max, made);
      System(pool,
             if made.Some? then s.wires[made.value := Wire(true, [], [])] else s.wires,
             s.calls[k := Call(conn.value, s.serial + 1, body, RETRY_TIMES, Sending)],
             s.serial + 1)
    case Refuse => s
    case Send(k, delivered, ok) =>
      var c := s.calls[k];
      var w := s.wires[c.conn];
      s.(wires := if delivered then s.wires[c.conn := w.(pending := w.pending + [RequestOf(k, c)])] else s.wires,
         calls := s.calls[k := if ok then c.(phase := Receiving) else Failed(c)])
    case Answer(conn, request, kind, body) =>
      var w := s.wires[conn];
      s.(wires := s.wires[conn := w.(inbox := w.inbox + [Reply(request, kind, body)])])
    case Receive(k, ok) =>
      var c := s.calls[k];
      var w := s.wires[c.conn];
      if ok then
        s.(wires := s.wires[c.conn := w.(inbox := w.inbox[1..])], calls := s.calls[k := Received(c, w.inbox[0])])
      else s.(calls := s.calls[k := Failed(c)])
    case Reconnect(k, connects) =>
      var c := s.calls[k];
      s.(wires := s.wires[c.conn := Wire(connects, [], [])],
         calls := s.calls[k := c.(retry := if c.retry > 0 then c.retry - 1 else 0, phase := Sending)])
    case Release(k) =>
      var c := s.calls[k];
      s.(pool := P.Released(s.pool, c.conn), calls := s.calls[k := c.(phase := Left(c.phase.code, c.phase.reply))])
    case Check(stale) => s.(pool := P.Checked(s.pool, l.min, stale))
  }

  function Initial(first: seq<nat>): System
  {
    System(P.Started(first), map c | c in first :: Wire(true, [], []), map[], 0)
  }

  /** The system after the steps; None if one of them is not possible when its turn comes. */
  function Run(first: seq<nat>, l: P.Limits, steps: seq<Step>): Option<System>
  {
    if steps == [] then Some(Initial(first))
    else
      var before, step := Run(first, l, steps[..|steps| - 1]), steps[|steps| - 1];
      if before.Some? && Enabled(before.value, l, step) then Some(Next(before.value, l, step)) else None
  }

  // ----- the invariant -----

  predicate Holding(c: Call)
  {
    !c.phase.Left?
  }

  /** The pool is in order, and its used connections are exactly those that calls hold, one each. */
  ghost predicate Ownership(s: System, bound: int)
  {
    && P.Inv(s.pool, s.wires.Keys, bound)
    && (forall k | k in s.calls ::
          s.calls[k].conn in s.wires && (Holding(s.calls[k]) ==> s.calls[k].conn in s.pool.used))
    && (forall j, k | j in s.calls && k in s.calls && j != k && Holding(s.calls[j]) && Holding(s.calls[k])
          :: s.calls[j].conn != s.calls[k].conn)
    && (forall c | c in s.pool.used :: exists k :: k in s.calls && Holding(s.calls[k]) && s.calls[k].conn == c)
  }

  /** Every call drew an identifier of its own. */
  ghost predicate OwnSerials(s: System)
  {
    && (forall k | k in s.calls :: 1 <= s.calls[k].serial <= s.serial && s.calls[k].retry <= RETRY_TIMES)
    && (forall j, k | j in s.calls && k in s.calls && j != k :: s.calls[j].serial != s.calls[k].serial)
  }

  predicate Genuine(calls: map<nat, Call>, r: Request)
  {
    r.call in calls && r == RequestOf(r.call, calls[r.call])
  }

  /** The wires carry only requests that calls made, and replies to such requests. */
  ghost predicate GenuineWires(s: System)
  {
    forall c | c in s.wires :: GenuineWire(s.calls, s.wires[c])
  }

  ghost predicate GenuineWire(calls: map<nat, Call>, w: Wire)
  {
    && (forall i | 0 <= i < |w.pending| :: Genuine(calls, w.pending[i]))
    && (forall i | 0 <= i < |w.inbox| :: Genuine(calls, w.inbox[i].to))
  }

  /** A call that ends well has a reply to its own request; one that ends badly has none. */
  predicate GoodEnd(k: nat, c: Call)
  {
    (c.phase.Leaving? || c.phase.Left?) ==>
      || (c.phase.code == 0 && c.phase.reply.Some? && c.phase.reply.value.to == RequestOf(k, c)
            && c.phase.reply.value.kind == BIZ_RES_MSG_TYPE)
      || (c.phase.code == -1 && c.phase.reply == None && c.retry == 0)
  }

  ghost predicate GoodEnds(s: System)
  {
    forall k | k in s.calls :: GoodEnd(k, s.calls[k])
  }

  ghost predicate Inv(s: System, bound: int)
  {
    Ownership(s, bound) && OwnSerials(s) && GenuineWires(s) && GoodEnds(s)
  }

  // ----- every step keeps the invariant -----

  /** Serials tell calls apart, and identifiers do while fewer than 2^32 were drawn. */
  lemma SameIdentifier(i: nat, j: nat, serial: nat)
    requires 1 <= i <= serial && 1 <= j <= serial && serial <= UINT32
    ensures Identifier(i) == Identifier(j) <==> i == j
  {
  }

  /** A request that carries a call's identifier is that call's request. */
  lemma OwnRequest(s: System, k: nat, r: Request)
    requires OwnSerials(s) && s.serial <= UINT32 && k in s.calls && Genuine(s.calls, r)
    requires r.identifier == Identifier(s.calls[k].serial)
    ensures r == RequestOf(k, s.calls[k])
  {
    SameIdentifier(s.calls[r.call].serial, s.calls[k].serial, s.serial);
  }

  /** A step inside the retry loop: no connection changes hands. */
  lemma LoopKeepsOwnership(s: System, s': System, k: nat, bound: int)
    requires Ownership(s, bound) && s'.pool == s.pool && s'.wires.Keys == s.wires.Keys && k in s.calls
    requires k in s'.calls && s'.calls == s.calls[k := s'.calls[k]] && s'.calls[k].conn == s.calls[k].conn
    requires Holding(s'.calls[k]) <==> Holding(s.calls[k])
    ensures Ownership(s', bound)
  {
    hide P.Inv, Holding;
    forall c | c in s'.pool.used
      ensures exists j :: j in s'.calls && Holding(s'.calls[j]) && s'.calls[j].conn == c
    {
      var j :| j in s.calls && Holding(s.calls[j]) && s.calls[j].conn == c;
      assert j in s'.calls && Holding(s'.calls[j]);
    }
  }

  lemma BeginKeepsOwnership(s: System, l: P.Limits, step: Step, bound: int)
    requires Ownership(s, bound) && step.Begin? && Enabled(s, l, step) && l.max <= bound
    ensures Ownership(Next(s, l, step), bound)
  {
    hide P.Inv;
    var s' := Next(s, l, step);
    P.AfterKeepsInv(s.pool, l, P.Require(step.made), s.wires.Keys, bound);
    var conn := s'.calls[step.call].conn;
    NewlyUsed(s.pool, l, step.made, s.wires.Keys, bound);
    assert s'.wires.Keys == if step.made.Some? then s.wires.Keys + {step.made.value} else s.wires.Keys;
    forall c | c in s'.pool.used
      ensures exists j :: j in s'.calls && Holding(s'.calls[j]) && s'.calls[j].conn == c
    {
      if c != conn {
        var j :| j in s.calls && Holding(s.calls[j]) && s.calls[j].conn == c;
        assert s'.calls[j] == s.calls[j];
      }
    }
  }

  /** The connection that is handed out was nobody's. */
  lemma NewlyUsed(pool: P.State<nat>, l: P.Limits, made: Option<nat>, known: set<nat>, bound: int)
    requires P.Inv(pool, known, bound) && P.Required(pool, l.max, made).1.Some?
    requires made.Some? ==> made.value !in known && pool.idle == []
    ensures var (pool', conn) := P.Required(pool, l.max, made);
            && pool'.used == pool.used + [conn.value] && conn.value !in pool.used
            && conn.value in (if made.Some? then known + {made.value} else known)
  {
  }

  lemma ReleaseKeepsOwnership(s: System, l: P.Limits, step: Step, bound: int)
    requires Ownership(s, bound) && step.Release? && Enabled(s, l, step) && l.max <= bound
    ensures Ownership(Next(s, l, step), bound)
  {
    hide P.Inv;
    var s', conn := Next(s, l, step), s.calls[step.call].conn;
    P.AfterKeepsInv(s.pool, l, P.Release(conn), s.wires.Keys, bound);
    LeftUsed(s.pool, s.wires.Keys, bound, conn);
    forall c | c in s'.pool.used
      ensures exists j :: j in s'.calls && Holding(s'.calls[j]) && s'.calls[j].conn == c
    {
      var j :| j in s.calls && Holding(s.calls[j]) && s.calls[j].conn == c;
      assert s'.calls[j] == s.calls[j];
    }
  }

  lemma LeftUsed(pool: P.State<nat>, known: set<nat>, bound: int, conn: nat)
    requires P.Inv(pool, known, bound)
    ensures forall c :: c in P.Released(pool, conn).used <==> c in pool.used && c != conn
  {
    WithoutEntries(pool.used, conn);
  }

  lemma {:induction false} NextKeepsOwnership(s: System, l: P.Limits, step: Step, bound: int)
    requires Ownership(s, bound) && Enabled(s, l, step) && l.max <= bound
    ensures Ownership(Next(s, l, step), bound)
  {
    hide Ownership, P.Inv, P.Required, P.Released;
    var s' := Next(s, l, step);
    match step
    case Begin(_, _, _) => BeginKeepsOwnership(s, l, step, bound);
    case Refuse =>
    case Send(k, _, _) => LoopKeepsOwnership(s, s', k, bound);
    case Answer(_, _, _, _) => SameHolders(s, s', bound);
    case Receive(k, _) => LoopKeepsOwnership(s, s', k, bound);
    case Reconnect(k, _) => LoopKeepsOwnership(s, s', k, bound);
    case Release(_) => ReleaseKeepsOwnership(s, l, step, bound);
    case Check(_) => CheckKeepsOwnership(s, l, step, bound);
  }

  lemma SameHolders(s: System, s': System, bound: int)
    requires Ownership(s, bound) && s'.pool == s.pool && s'.wires.Keys == s.wires.Keys && s'.calls == s.calls
    ensures Ownership(s', bound)
  {
  }

  lemma CheckKeepsOwnership(s: System, l: P.Limits, step: Step, bound: int)
    requires Ownership(s, bound) && step.Check? && l.max <= bound
    ensures Ownership(Next(s, l, step), bound)
  {
    hide P.Inv;
    P.AfterKeepsInv(s.pool, l, P.Check(step.stale), s.wires.Keys, bound);
  }

  /** A call that changes but keeps its serial. */
  lemma CallKeepsSerials(s: System, k: nat, c: Call, next: System)
    requires OwnSerials(s) && k in s.calls && c.serial == s.calls[k].serial && c.retry <= RETRY_TIMES
    requires next.calls == s.calls[k := c] && next.serial == s.serial
    ensures OwnSerials(next)
  {
  }

  lemma BeginKeepsSerials(s: System, l: P.Limits, step: Step)
    requires OwnSerials(s) && Enabled(s, l, step) && step.Begin?
    ensures OwnSerials(Next(s, l, step))
  {
    hide P.Required;
  }

  lemma {:induction false} NextKeepsSerials(s: System, l: P.Limits, step: Step)
    requires OwnSerials(s) && Enabled(s, l, step)
    ensures OwnSerials(Next(s, l, step))
  {
    hide P.Required, P.Released, P.Checked;
    if step.Begin? {
      BeginKeepsSerials(s, l, step);
    } else if step.Send? || step.Receive? || step.Reconnect? || step.Release? {
      var k, next := step.call, Next(s, l, step);
      assert s.calls[k].retry <= RETRY_TIMES;
      hide OwnSerials;
      CallKeepsSerials(s, k, next.calls[k], next);
    }
  }

  /** A request stays a call's request. */
  lemma NextKeepsGenuine(s: System, l: P.Limits, step: Step, r: Request)
    requires Enabled(s, l, step) && Genuine(s.calls, r)
    ensures Genuine(Next(s, l, step).calls, r)
  {
    hide P.Required, P.Released, P.Checked;
  }

  lemma {:induction false} NextKeepsWires(s: System, l: P.Limits, step: Step)
    requires GenuineWires(s) && Enabled(s, l, step)
    ensures GenuineWires(Next(s, l, step))
  {
    hide Enabled, Next, GenuineWire;
    var s' := Next(s, l, step);
    forall c | c in s'.wires
      ensures GenuineWire(s'.calls, s'.wires[c])
    {
      NextKeepsWire(s, l, step, c);
    }
  }

  lemma NextKeepsWire(s: System, l: P.Limits, step: Step, c: nat)
    requires GenuineWires(s) && Enabled(s, l, step) && c in Next(s, l, step).wires
    ensures GenuineWire(Next(s, l, step).calls, Next(s, l, step).wires[c])
  {
    hide P.Required, P.Released, P.Checked, Genuine;
    var s' := Next(s, l, step);
    forall r | Genuine(s.calls, r)
      ensures Genuine(s'.calls, r)
    {
      NextKeepsGenuine(s, l, step, r);
    }
    if step.Send? {
      OwnRequestIsGenuine(s'.calls, step.call);
    }
  }

  lemma OwnRequestIsGenuine(calls: map<nat, Call>, k: nat)
    requires k in calls
    ensures Genuine(calls, RequestOf(k, calls[k]))
  {
  }

  lemma {:induction false} NextKeepsEnds(s: System, l: P.Limits, step: Step)
    requires OwnSerials(s) && GenuineWires(s) && GoodEnds(s) && Enabled(s, l, step) && s.serial <= UINT32
    ensures GoodEnds(Next(s, l, step))
  {
    hide P.Required, P.Released, P.Checked;
    if step.Receive? && step.ok {
      var c := s.calls[step.call];
      var reply := s.wires[c.conn].inbox[0];
      if reply.to.identifier == Identifier(c.serial) {
        OwnRequest(s, step.call, reply.to);
      }
    }
  }

  // ----- runs -----

  lemma {:induction false} RunKeepsInv(first: seq<nat>, l: P.Limits, steps: seq<Step>)
    requires Distinct(first) && Run(first, l, steps).Some? && Run(first, l, steps).value.serial <= UINT32
    ensures Inv(Run(first, l, steps).value, P.Max(|first|, l.max))
    decreases |steps|
  {
    hide Ownership, OwnSerials, GenuineWires, GoodEnds, Next, Enabled;
    if steps == [] {
      InitialInv(first, l);
    } else {
      var before, step := steps[..|steps| - 1], steps[|steps| - 1];
      var s, bound := Run(first, l, before).value, P.Max(|first|, l.max);
      SerialGrows(s, l, step);
      RunKeepsInv(first, l, before);
      NextKeepsOwnership(s, l, step, bound);
      NextKeepsSerials(s, l, step);
      NextKeepsWires(s, l, step);
      NextKeepsEnds(s, l, step);
    }
  }

  lemma SerialGrows(s: System, l: P.Limits, step: Step)
    requires Enabled(s, l, step)
    ensures s.serial <= Next(s, l, step).serial
  {
  }

  lemma InitialInv(first: seq<nat>, l: P.Limits)
    requires Distinct(first)
    ensures Inv(Initial(first), P.Max(|first|, l.max))
  {
  }

  /**
   In every run in which fewer than 2^32 calls drew identifiers, a call that succeeds returns a
   reply of the right type to its own request, whatever late replies its connection carries.
   */
  lemma {:induction false} SuccessIsOwnReply(first: seq<nat>, l: P.Limits, steps: seq<Step>, k: nat)
    requires Distinct(first) && Run(first, l, steps).Some? && Run(first, l, steps).value.serial <= UINT32
    requires k in Run(first, l, steps).value.calls && Run(first, l, steps).value.calls[k].phase.Left?
    ensures var c := Run(first, l, steps).value.calls[k];
            && (c.phase.code == 0 <==> c.phase.reply.Some?)
            && (c.phase.reply.Some? ==>
                  c.phase.reply.value.to == RequestOf(k, c)
                  && c.phase.reply.value.kind == Protocol.ResponseType(BIZ_REQ_MSG_TYPE) as int)
  {
    hide Run, Ownership, OwnSerials, GenuineWires, Protocol.ResponseType;
    ResponseTypeOfRequest();
    RunKeepsInv(first, l, steps);
    assert GoodEnd(k, Run(first, l, steps).value.calls[k]);
  }

  /** In every run a call accepts the reply it receives exactly when it answers its own request with the right type. */
  lemma {:induction false} LateReplyIsRefused(first: seq<nat>, l: P.Limits, steps: seq<Step>, k: nat)
    requires Distinct(first) && Run(first, l, steps).Some? && Run(first, l, steps).value.serial <= UINT32
    requires Enabled(Run(first, l, steps).value, l, Receive(k, true))
    ensures var s := Run(first, l, steps).value;
            var c, reply := s.calls[k], s.wires[s.calls[k].conn].inbox[0];
            Next(s, l, Receive(k, true)).calls[k].phase
              == if reply.to == RequestOf(k, c) && reply.kind == Protocol.ResponseType(BIZ_REQ_MSG_TYPE) as int
                 then Leaving(0, Some(reply))
                 else if c.retry > 0 then Retrying else Leaving(-1, None)
  {
    hide Run, Ownership, GoodEnds, OwnSerials, Genuine, Protocol.ResponseType;
    ResponseTypeOfRequest();
    RunKeepsInv(first, l, steps);
    var s := Run(first, l, steps).value;
    var c, reply := s.calls[k], s.wires[s.calls[k].conn].inbox[0];
    if reply.to.identifier == Identifier(c.serial) {
      OwnRequest(s, k, reply.to);
    }
  }

  /** The type that invoke_service waits for is the one a server answers its requests with. */
  lemma ResponseTypeOfRequest()
    ensures BIZ_RES_MSG_TYPE == Protocol.ResponseType(BIZ_REQ_MSG_TYPE) as int == Protocol.ResponseType(0x10) as int
  {
  }

  /**
   A waiting call whose next reply answers its own request leaves with that reply when the reply has the type
   that answers type 0x10, and with none otherwise, unless it tries again.
   */
  lemma AnswerIsAccepted(s: System, l: P.Limits, k: nat)
    requires Enabled(s, l, Receive(k, true))
    requires s.wires[s.calls[k].conn].inbox[0].to == RequestOf(k, s.calls[k])
    ensures var c, reply := s.calls[k], s.wires[s.calls[k].conn].inbox[0];
            var phase := Next(s, l, Receive(k, true)).calls[k].phase;
            if reply.kind == Protocol.ResponseType(0x10) as int then phase == Leaving(0, Some(reply))
            else phase == if c.retry > 0 then Retrying else Leaving(-1, None)
  {
    hide Protocol.ResponseType;
    ResponseTypeOfRequest();
  }

  lemma {:induction false} RunKeepsOwnership(first: seq<nat>, l: P.Limits, steps: seq<Step>)
    requires Distinct(first) && Run(first, l, steps).Some?
    ensures Ownership(Run(first, l, steps).value, P.Max(|first|, l.max))
    decreases |steps|
  {
    hide Ownership, Next, Enabled;
    if steps == [] {
      InitialInv(first, l);
    } else {
      var before := steps[..|steps| - 1];
      RunKeepsOwnership(first, l, before);
      NextKeepsOwnership(Run(first, l, before).value, l, steps[|steps| - 1], P.Max(|first|, l.max));
    }
  }

  /** In every run no two calls hold one connection, and the used connections are the held ones. */
  lemma {:induction false} HeldByOneCall(first: seq<nat>, l: P.Limits, steps: seq<Step>, conn: nat)
    requires Distinct(first) && Run(first, l, steps).Some?
    ensures var s := Run(first, l, steps).value;
            && (conn in s.pool.used <==> exists k :: k in s.calls && Holding(s.calls[k]) && s.calls[k].conn == conn)
            && (forall j, k | j in s.calls && k in s.calls && Holding(s.calls[j]) && Holding(s.calls[k])
                  && s.calls[j].conn == s.calls[k].conn == conn :: j == k)
  {
    hide Run, P.Inv;
    RunKeepsOwnership(first, l, steps);
  }

  // ----- the pool of the system -----

  /** What a step is for the pool, if anything. */
  function PoolEvent(s: System, step: Step): seq<P.Event<nat>>
  {
    match step
    case Begin(_, _, made) => [P.Require(made)]
    case Refuse => [P.Require(None)]
    case Release(k) => if k in s.calls then [P.Release(s.calls[k].conn)] else []
    case Check(stale) => [P.Check(stale)]
    case _ => []
  }

  function PoolEvents(first: seq<nat>, l: P.Limits, steps: seq<Step>): seq<P.Event<nat>>
    requires Run(first, l, steps).Some?
  {
    if steps == [] then []
    else
      var before := steps[..|steps| - 1];
      PoolEvents(first, l, before) + PoolEvent(Run(first, l, before).value, steps[|steps| - 1])
  }

  /** One step does to the pool what its event does. */
  lemma StepIsPoolEvent(s: System, l: P.Limits, step: Step)
    requires Enabled(s, l, step)
    ensures var e := PoolEvent(s, step);
            |e| <= 1 && Next(s, l, step).pool == if e == [] then s.pool else P.After(s.pool, l, e[0])
    ensures step.Begin? && step.made.Some? ==> step.made.value !in s.wires
    ensures step.Begin? && step.made.Some? ==> step.made.value in Next(s, l, step).wires
    ensures s.wires.Keys <= Next(s, l, step).wires.Keys
    ensures step.Release? ==> step.call in s.calls && s.calls[step.call].phase.Leaving?
  {
    hide P.Released, P.Checked;
  }

  lemma {:induction false} OneMore<C>(first: seq<C>, l: P.Limits, es: seq<P.Event<C>>, e: P.Event<C>)
    ensures P.Run(first, l, es + [e]) == P.After(P.Run(first, l, es), l, e)
    ensures P.Made(first, es + [e]) == P.Made(first, es) + if e.Require? && e.made.Some? then {e.made.value} else {}
    ensures P.Proper(first, l, es + [e]) <==>
              && P.Proper(first, l, es)
              && (e.Require? && e.made.Some? ==> e.made.value !in P.Made(first, es))
              && (e.Release? ==> e.conn in P.Run(first, l, es).used)
  {
    hide P.After;
    assert (es + [e])[..|es|] == es;
  }

  /**
   The pool in every run of the system is that of a proper run of the pool, so that all that holds of those
   holds of it: calls take and give back connections, and checks close them, as a pool does.
   */
  lemma {:induction false} RunIsPoolRun(first: seq<nat>, l: P.Limits, steps: seq<Step>)
    requires Distinct(first) && Run(first, l, steps).Some?
    ensures var s, es := Run(first, l, steps).value, PoolEvents(first, l, steps);
            s.pool == P.Run(first, l, es) && P.Proper(first, l, es) && P.Made(first, es) <= s.wires.Keys
    decreases |steps|
  {
    hide Enabled, Next, P.After, P.Proper, P.Run, PoolEvent, Ownership;
    if steps == [] {
      NoPoolEvents(first, l);
    } else {
      var before, step := steps[..|steps| - 1], steps[|steps| - 1];
      var s, es := Run(first, l, before).value, PoolEvents(first, l, before);
      RunIsPoolRun(first, l, before);
      RunKeepsOwnership(first, l, before);
      StepIsPoolEvent(s, l, step);
      var e := PoolEvent(s, step);
      EventOf(s, step);
      if step.Release? {
        HeldIsUsed(s, P.Max(|first|, l.max), step.call);
      }
      if e == [] {
        assert es + e == es;
      } else {
        OneMore(first, l, es, e[0]);
        assert es + e == es + [e[0]];
      }
    }
  }

  lemma EventOf(s: System, step: Step)
    ensures var e := PoolEvent(s, step);
            && (e != [] && e[0].Require? && e[0].made.Some? ==> step.Begin? && step.made == e[0].made)
            && (e != [] && e[0].Release? ==>
                  step.Release? && step.call in s.calls && e[0].conn == s.calls[step.call].conn)
  {
  }

  lemma HeldIsUsed(s: System, bound: int, k: nat)
    requires Ownership(s, bound) && k in s.calls && s.calls[k].phase.Leaving?
    ensures s.calls[k].conn in s.pool.used
  {
  }

  lemma NoPoolEvents(first: seq<nat>, l: P.Limits)
    requires Distinct(first)
    ensures Initial(first).pool == P.Run(first, l, []) && P.Proper(first, l, [])
    ensures P.Made(first, []) <= Initial(first).wires.Keys
  {
  }

  // ----- what one call does over a run -----

  datatype Action = Begins | Sends | Reconnects | Releases

  predicate Does(step: Step, a: Action, k: nat)
  {
    match a
    case Begins => step.Begin? && step.call == k
    case Sends => step.Send? && step.call == k
    case Reconnects => step.Reconnect? && step.call == k
    case Releases => step.Release? && step.call == k
  }

  /** How often the call does something in a run. */
  function Count(steps: seq<Step>, a: Action, k: nat): nat
  {
    if steps == [] then 0
    else Count(steps[..|steps| - 1], a, k) + Once(steps[|steps| - 1], a, k)
  }

  function Once(step: Step, a: Action, k: nat): nat
  {
    if Does(step, a, k) then 1 else 0
  }

  /** How often a call has begun, sent, reconnected and released, by the place it is at. */
  predicate Tally(s: System, k: nat, begins: nat, sends: nat, reconnects: nat, releases: nat)
  {
    if k in s.calls then
      var c := s.calls[k];
      && begins == 1
      && releases == (if c.phase.Left? then 1 else 0)
      && reconnects + c.retry == 1
      && sends == reconnects + (if c.phase.Sending? then 0 else 1)
      && (c.phase.Retrying? ==> c.retry > 0)
    else begins == sends == reconnects == releases == 0
  }

  lemma NextTallies(s: System, l: P.Limits, step: Step, k: nat, b: nat, m: nat, r: nat, z: nat)
    requires Enabled(s, l, step) && Tally(s, k, b, m, r, z)
    ensures Tally(Next(s, l, step), k, b + Once(step, Begins, k), m + Once(step, Sends, k),
                  r + Once(step, Reconnects, k), z + Once(step, Releases, k))
  {
    hide P.Required, P.Released, P.Checked;
  }

  /**
   In every run a call that got a connection acquires it once and releases it once, when it returns;
   it reconnects at most once, and sends once more than that.
   */
  lemma {:induction false} AcquiredOnceReleasedOnce(first: seq<nat>, l: P.Limits, steps: seq<Step>, k: nat)
    requires Run(first, l, steps).Some?
    ensures Tally(Run(first, l, steps).value, k, Count(steps, Begins, k), Count(steps, Sends, k),
                  Count(steps, Reconnects, k), Count(steps, Releases, k))
    decreases |steps|
  {
    hide Next, Enabled, Tally, Does;
    if steps == [] {
      NoTally(first, k);
    } else {
      var before, step := steps[..|steps| - 1], steps[|steps| - 1];
      AcquiredOnceReleasedOnce(first, l, before, k);
      NextTallies(Run(first, l, before).value, l, step, k, Count(before, Begins, k), Count(before, Sends, k),
                  Count(before, Reconnects, k), Count(before, Releases, k));
    }
  }

  lemma NoTally(first: seq<nat>, k: nat)
    ensures Tally(Initial(first), k, 0, 0, 0, 0)
  {
  }

  // ----- one call, in place -----

  /** What the network does in one turn of the retry loop. */
  datatype Attempt = Attempt(sent: bool, got: Option<Reply>, reconnects: bool)

  /** The call after one turn of the loop. */
  function Tried(c: Call, a: Attempt): Call
  {
    var c' := if a.sent && a.got.Some? then Received(c, a.got.value) else Failed(c);
    if c'.phase.Retrying? && c'.retry > 0 then c'.(retry := c'.retry - 1, phase := Sending) else c'
  }

  /** The call after the loop. */
  function Looped(c: Call, env: seq<Attempt>): Call
    requires c.phase.Sending? ==> |env| > c.retry
    decreases |env|
  {
    if c.phase.Sending? then Looped(Tried(c, env[0]), env[1..]) else c
  }

  predicate Succeeds(a: Attempt, identifier: nat)
  {
    a.sent && a.got.Some? && a.got.value.to.identifier == identifier && a.got.value.kind == BIZ_RES_MSG_TYPE
  }

  /** The loop returns the first attempt that succeeds, and fails when both attempts do. */
  lemma LoopedResult(c: Call, env: seq<Attempt>)
    requires c.phase == Sending && c.retry == RETRY_TIMES && |env| > RETRY_TIMES
    ensures var id := Identifier(c.serial);
            Looped(c, env).phase == if Succeeds(env[0], id) then Leaving(0, env[0].got)
                                    else if Succeeds(env[1], id) then Leaving(0, env[1].got)
                                    else Leaving(-1, None)
  {
    var d := Tried(c, env[0]);
    if !Succeeds(env[0], Identifier(c.serial)) {
      assert d == c.(retry := 0);
      assert Looped(d, env[1..]) == Tried(d, env[1]);
    }
  }

  // ----- the loop and the steps of the system -----

  /** The call after some turns of the loop, which stops when it leaves. */
  function Folded(c: Call, env: seq<Attempt>): Call
    decreases |env|
  {
    if env == [] || !c.phase.Sending? then c else Folded(Tried(c, env[0]), env[1..])
  }

  lemma {:induction false} FoldedNext(c: Call, env: seq<Attempt>, a: Attempt)
    requires Folded(c, env).phase.Sending?
    ensures Folded(c, env + [a]) == Tried(Folded(c, env), a)
    decreases |env|
  {
    if env == [] {
      assert Folded(c, [a]) == Folded(Tried(c, a), []);
    } else {
      FoldedNext(Tried(c, env[0]), env[1..], a);
      assert (env + [a])[1..] == env[1..] + [a];
    }
  }

  lemma {:induction false} FoldedIsLooped(c: Call, env: seq<Attempt>, rest: seq<Attempt>)
    requires !Folded(c, env).phase.Sending? && (c.phase.Sending? ==> |env + rest| > c.retry)
    ensures Looped(c, env + rest) == Folded(c, env)
    decreases |env|
  {
    if c.phase.Sending? {
      assert (env + rest)[1..] == env[1..] + rest;
      FoldedIsLooped(Tried(c, env[0]), env[1..], rest);
    }
  }

  /** What a run has shown to a call: its finished attempts, and the one under way. */
  datatype Log = Log(done: seq<Attempt>, sent: bool, got: Option<Reply>)

  function Logged(log: Log, s: System, l: P.Limits, step: Step, k: nat): Log
    requires Enabled(s, l, step)
  {
    match step
    case Begin(j, _, _) => if j == k then Log([], false, None) else log
    case Send(j, _, ok) =>
      if j != k then log
      else if ok || s.calls[k].retry > 0 then log.(sent := ok, got := None)
      else log.(done := log.done + [Attempt(false, None, false)])
    case Receive(j, ok) =>
      if j != k then log
      else
        var got := if ok then Some(s.wires[s.calls[k].conn].inbox[0]) else None;
        if Next(s, l, step).calls[k].phase.Retrying? then log.(got := got)
        else log.(done := log.done + [Attempt(true, got, false)])
    case Reconnect(j, connects) =>
      if j == k then log.(done := log.done + [Attempt(log.sent, log.got, connects)]) else log
    case _ => log
  }

  function Observed(first: seq<nat>, l: P.Limits, steps: seq<Step>, k: nat): Log
    requires Run(first, l, steps).Some?
  {
    if steps == [] then Log([], false, None)
    else
      var before := steps[..|steps| - 1];
      Logged(Observed(first, l, before, k), Run(first, l, before).value, l, steps[|steps| - 1], k)
  }

  /** The call when it enters the loop. */
  function Start(c: Call): Call
  {
    c.(retry := RETRY_TIMES, phase := Sending)
  }

  /** The loop on the finished attempts has come where the call is. */
  predicate Fits(c: Call, log: Log)
  {
    var f := Folded(Start(c), log.done);
    match c.phase
    case Sending => f == c
    case Receiving => f == c.(phase := Sending) && log.sent && log.got == None
    case Retrying =>
      f == c.(phase := Sending) && c.retry > 0 && !Succeeds(Attempt(log.sent, log.got, false), Identifier(c.serial))
    case Leaving(_, _) => f == c
    case Left(code, reply) => f == c.(phase := Leaving(code, reply))
  }

  /** The call that takes the step. */
  function Actor(step: Step): Option<nat>
  {
    if step.Begin? || step.Send? || step.Receive? || step.Reconnect? || step.Release? then Some(step.call) else None
  }

  lemma {:induction false} NextFits(s: System, l: P.Limits, step: Step, k: nat, log: Log)
    requires Enabled(s, l, step) && (k in s.calls ==> Fits(s.calls[k], log)) && k in Next(s, l, step).calls
    ensures Fits(Next(s, l, step).calls[k], Logged(log, s, l, step, k))
  {
    if Actor(step) == Some(k) {
      OwnStepFits(s, l, step, k, log);
    } else {
      hide P.Required, P.Released, P.Checked, Fits;
    }
  }

  lemma {:induction false} OwnStepFits(s: System, l: P.Limits, step: Step, k: nat, log: Log)
    requires Enabled(s, l, step) && (k in s.calls ==> Fits(s.calls[k], log)) && k in Next(s, l, step).calls
    requires Actor(step) == Some(k)
    ensures Fits(Next(s, l, step).calls[k], Logged(log, s, l, step, k))
  {
    hide P.Required, P.Released, P.Checked, Identifier;
    if k in s.calls {
      var log' := Logged(log, s, l, step, k);
      if |log'.done| > |log.done| {
        FoldedNext(Start(s.calls[k]), log.done, log'.done[|log.done|]);
      }
    }
  }

  /** In every run, whatever other calls do, a call is where the retry loop is after what it observed. */
  lemma {:induction false} RunFits(first: seq<nat>, l: P.Limits, steps: seq<Step>, k: nat)
    requires Run(first, l, steps).Some? && k in Run(first, l, steps).value.calls
    ensures Fits(Run(first, l, steps).value.calls[k], Observed(first, l, steps, k))
    decreases |steps|
  {
    hide Enabled, Next, Logged, Fits;
    if steps == [] {
    } else {
      var before := steps[..|steps| - 1];
      var s := Run(first, l, before).value;
      if k in s.calls {
        RunFits(first, l, before, k);
      }
      NextFits(s, l, steps[|steps| - 1], k, Observed(first, l, before, k));
    }
  }

  /** In every run a call that returns does so with what the retry loop makes of the attempts it observed. */
  lemma {:induction false} CallIsLoop(first: seq<nat>, l: P.Limits, steps: seq<Step>, k: nat, rest: seq<Attempt>)
    requires Run(first, l, steps).Some? && k in Run(first, l, steps).value.calls && |rest| > RETRY_TIMES
    requires Run(first, l, steps).value.calls[k].phase.Left?
    ensures var c := Run(first, l, steps).value.calls[k];
            Looped(Start(c), Observed(first, l, steps, k).done + rest).phase == Leaving(c.phase.code, c.phase.reply)
  {
    hide Run, Observed, Looped, Folded;
    RunFits(first, l, steps, k);
    FoldedIsLooped(Start(Run(first, l, steps).value.calls[k]), Observed(first, l, steps, k).done, rest);
  }

  /** The steps of one attempt, by a call that nobody interrupts. */
  function AttemptSteps(k: nat, c: Call, a: Attempt): seq<Step>
  {
    [Send(k, a.sent, a.sent)] + (if a.sent then [Receive(k, a.got.Some?)] else [])
      + if !Succeeds(a, Identifier(c.serial)) && c.retry > 0 then [Reconnect(k, a.reconnects)] else []
  }

  function RunFrom(s: System, l: P.Limits, steps: seq<Step>): Option<System>
    decreases |steps|
  {
    if steps == [] then Some(s)
    else if Enabled(s, l, steps[0]) then RunFrom(Next(s, l, steps[0]), l, steps[1..])
    else None
  }

  lemma RunFromConcat(s: System, l: P.Limits, a: seq<Step>, b: seq<Step>)
    ensures RunFrom(s, l, a + b) == match RunFrom(s, l, a) case Some(t) => RunFrom(t, l, b) case None => None
    decreases |a|
  {
    hide Enabled, Next;
    if a == [] {
      assert a + b == b;
    } else {
      assert (a + b)[1..] == a[1..] + b;
      if Enabled(s, l, a[0]) {
        RunFromConcat(Next(s, l, a[0]), l, a[1..], b);
      }
    }
  }

  /** What a connection carried before a reconnect is never received after it, and the call tries once more. */
  lemma ReconnectStartsAfresh(s: System, l: P.Limits, k: nat, connects: bool)
    requires Enabled(s, l, Reconnect(k, connects)) && s.calls[k].retry > 0
    ensures var c, s' := s.calls[k], Next(s, l, Reconnect(k, connects));
            && s'.wires[c.conn] == Wire(connects, [], [])
            && s'.calls[k].phase == Sending && s'.calls[k].retry == c.retry - 1 && s'.calls[k].serial == c.serial
            && !Enabled(s', l, Receive(k, true)) && (Enabled(s', l, Send(k, true, true)) <==> connects)
  {
  }

  /** The connection that a new call gets. */
  function Taken(s: System, made: Option<nat>): nat
    requires s.pool.idle == [] ==> made.Some?
  {
    if s.pool.idle != [] then s.pool.idle[0] else made.value
  }

  /** The pool can serve a new call, over a connection that is open and carries nothing. */
  predicate CanBegin(s: System, l: P.Limits, k: nat, made: Option<nat>)
  {
    && k !in s.calls
    && (if s.pool.idle != [] then made == None
        else made.Some? && |s.pool.used| < l.max && made.value !in s.wires)
    && Taken(s, made) !in s.pool.used
    && (s.pool.idle != [] ==> Taken(s, made) in s.wires && s.wires[Taken(s, made)] == Wire(true, [], []))
  }

  /** A call from its beginning to its return when the server answers its request. */
  function AnsweredSteps(k: nat, body: string, made: Option<nat>, conn: nat, reply: Reply): seq<Step>
  {
    [Begin(k, body, made), Send(k, true, true), Answer(conn, reply.to, reply.kind, reply.body),
     Receive(k, true), Release(k)]
  }

  /** A call that is answered with type 0x90 returns 0 and the answer, and its connection is idle again. */
  lemma {:induction false} AnsweredCallReturns(s: System, l: P.Limits, k: nat, body: string, made: Option<nat>,
                                               answer: string)
    requires CanBegin(s, l, k, made)
    ensures var conn := Taken(s, made);
            var reply := Reply(Request(k, (s.serial + 1) % 0x1_0000_0000, body), 0x90, answer);
            var r := RunFrom(s, l, AnsweredSteps(k, body, made, conn, reply));
            && r.Some? && k in r.value.calls && r.value.calls[k].phase == Left(0, Some(reply))
            && r.value.pool.idle == (if s.pool.idle != [] then s.pool.idle[1..] else []) + [conn]
            && r.value.pool.used == s.pool.used && r.value.serial == s.serial + 1
            && forall j | j in s.calls :: j in r.value.calls && r.value.calls[j] == s.calls[j]
  {
    var conn := Taken(s, made);
    var request := Request(k, (s.serial + 1) % 0x1_0000_0000, body);
    var reply := Reply(request, 0x90, answer);
    var c := Call(conn, s.serial + 1, body, RETRY_TIMES, Sending);
    var lent := P.Required(s.pool, l.max, made).0;
    hide Enabled, Next, Stage, P.Required, P.Released;
    var begin, answers := Begin(k, body, made), Answer(conn, request, reply.kind, answer);
    StageBegin(s, l, k, body, made);
    var s1 := Next(s, l, begin);
    StageSend(s, s1, l, k, c, lent);
    var s2 := Next(s1, l, Send(k, true, true));
    StageAnswer(s, s2, l, k, c.(phase := Receiving), reply, lent);
    var s3 := Next(s2, l, answers);
    StageReceive(s, s3, l, k, c.(phase := Receiving), reply, lent);
    var s4 := Next(s3, l, Receive(k, true));
    StageRelease(s, s4, l, k, c.(phase := Leaving(0, Some(reply))), lent);
    FiveSteps(s, l, begin, Send(k, true, true), answers, Receive(k, true), Release(k), s1, s2, s3, s4);
    LentAndBack(s.pool, l.max, made, conn);
  }

  /** The new call of a system that was s, and what its connection carries. */
  predicate Stage(s: System, t: System, k: nat, c: Call, wire: Wire, pool: P.State<nat>)
  {
    && t.calls == s.calls[k := c] && c.conn in t.wires && t.wires[c.conn] == wire
    && t.pool == pool && t.serial == s.serial + 1
  }

  lemma StageBegin(s: System, l: P.Limits, k: nat, body: string, made: Option<nat>)
    requires CanBegin(s, l, k, made)
    ensures Enabled(s, l, Begin(k, body, made))
    ensures var c := Call(Taken(s, made), s.serial + 1, body, RETRY_TIMES, Sending);
            Stage(s, Next(s, l, Begin(k, body, made)), k, c, Wire(true, [], []), P.Required(s.pool, l.max, made).0)
  {
  }

  lemma StageSend(s: System, t: System, l: P.Limits, k: nat, c: Call, pool: P.State<nat>)
    requires Stage(s, t, k, c, Wire(true, [], []), pool) && c.phase == Sending
    ensures Enabled(t, l, Send(k, true, true))
    ensures Stage(s, Next(t, l, Send(k, true, true)), k, c.(phase := Receiving),
                  Wire(true, [RequestOf(k, c)], []), pool)
  {
    assert [] + [RequestOf(k, c)] == [RequestOf(k, c)];
  }

  lemma StageAnswer(s: System, t: System, l: P.Limits, k: nat, c: Call, reply: Reply, pool: P.State<nat>)
    requires Stage(s, t, k, c, Wire(true, [reply.to], []), pool)
    ensures var step := Answer(c.conn, reply.to, reply.kind, reply.body);
            Enabled(t, l, step) && Stage(s, Next(t, l, step), k, c, Wire(true, [reply.to], [reply]), pool)
  {
    assert [] + [reply] == [reply];
  }

  lemma StageReceive(s: System, t: System, l: P.Limits, k: nat, c: Call, reply: Reply, pool: P.State<nat>)
    requires Stage(s, t, k, c, Wire(true, [reply.to], [reply]), pool) && c.phase == Receiving
    requires reply.to == RequestOf(k, c) && reply.kind == 0x90
    ensures Enabled(t, l, Receive(k, true))
    ensures Stage(s, Next(t, l, Receive(k, true)), k, c.(phase := Leaving(0, Some(reply))),
                  Wire(true, [reply.to], []), pool)
  {
    assert [reply][1..] == [];
  }

  lemma StageRelease(s: System, t: System, l: P.Limits, k: nat, c: Call, pool: P.State<nat>)
    requires c.conn in t.wires && Stage(s, t, k, c, t.wires[c.conn], pool) && c.phase.Leaving?
    ensures Enabled(t, l, Release(k))
    ensures var t' := Next(t, l, Release(k));
            && t'.calls == s.calls[k := c.(phase := Left(c.phase.code, c.phase.reply))]
            && t'.pool == P.Released(pool, c.conn) && t'.serial == s.serial + 1
  {
    hide P.Released;
  }

  lemma FiveSteps(s: System, l: P.Limits, a: Step, b: Step, c: Step, d: Step, e: Step,
                  s1: System, s2: System, s3: System, s4: System)
    requires Enabled(s, l, a) && Next(s, l, a) == s1
    requires Enabled(s1, l, b) && Next(s1, l, b) == s2
    requires Enabled(s2, l, c) && Next(s2, l, c) == s3
    requires Enabled(s3, l, d) && Next(s3, l, d) == s4
    requires Enabled(s4, l, e)
    ensures RunFrom(s, l, [a, b, c, d, e]) == Some(Next(s4, l, e))
  {
    hide Enabled, Next;
    OneStep(s4, l, e);
    assert [d, e][1..] == [e] && [c, d, e][1..] == [d, e];
    assert [b, c, d, e][1..] == [c, d, e] && [a, b, c, d, e][1..] == [b, c, d, e];
    assert RunFrom(s3, l, [d, e]) == RunFrom(s4, l, [e]);
    assert RunFrom(s2, l, [c, d, e]) == RunFrom(s3, l, [d, e]);
    assert RunFrom(s1, l, [b, c, d, e]) == RunFrom(s2, l, [c, d, e]);
  }

  /** A connection that is lent and given back is the last idle one. */
  lemma LentAndBack(pool: P.State<nat>, max: int, made: Option<nat>, conn: nat)
    requires conn !in pool.used
    requires if pool.idle != [] then conn == pool.idle[0] else made == Some(conn) && |pool.used| < max
    ensures var p := P.Released(P.Required(pool, max, made).0, conn);
            p.idle == (if pool.idle != [] then pool.idle[1..] else []) + [conn] && p.used == pool.used
  {
    WithoutLast(pool.used, conn);
  }

  lemma {:induction false} WithoutLast<E>(s: seq<E>, x: E)
    requires x !in s
    ensures Without(s + [x], x) == s
  {
    if s != [] {
      assert (s + [x])[1..] == s[1..] + [x];
      WithoutLast(s[1..], x);
    } else {
      assert s + [x] == [x];
    }
  }

  /** One attempt is possible for the call in s: the wire takes the request, and holds the reply that is got. */
  predicate Possible(s: System, k: nat, a: Attempt)
  {
    && InPhase(s, k, Sending)
    && (a.sent ==> s.wires[s.calls[k].conn].connected)
    && (a.sent && a.got.Some? ==>
          var inbox := s.wires[s.calls[k].conn].inbox;
          inbox != [] && inbox[0] == a.got.value)
  }

  lemma OneStep(s: System, l: P.Limits, step: Step)
    ensures RunFrom(s, l, [step]) == if Enabled(s, l, step) then Some(Next(s, l, step)) else None
  {
    assert [step][1..] == [];
    hide Enabled, Next;
  }

  /** A turn of the retry loop is a run of the system, and takes the call to where the loop's turn takes it. */
  lemma {:induction false} AttemptIsSteps(s: System, l: P.Limits, k: nat, a: Attempt)
    requires Possible(s, k, a)
    ensures var s' := RunFrom(s, l, AttemptSteps(k, s.calls[k], a));
            s'.Some? && s'.value.calls == s.calls[k := Tried(s.calls[k], a)] && s'.value.pool == s.pool
  {
    var c := s.calls[k];
    var send, receive := Send(k, a.sent, a.sent), Receive(k, a.got.Some?);
    var steps := if a.sent then [send, receive] else [send];
    SendAndReceive(s, l, k, a);
    var t := RunFrom(s, l, steps).value;
    if !Succeeds(a, Identifier(c.serial)) && c.retry > 0 {
      var reconnect := Reconnect(k, a.reconnects);
      RunFromConcat(s, l, steps, [reconnect]);
      OneStep(t, l, reconnect);
      assert AttemptSteps(k, c, a) == steps + [reconnect];
    } else {
      assert AttemptSteps(k, c, a) == steps;
    }
  }

  lemma SendAndReceive(s: System, l: P.Limits, k: nat, a: Attempt)
    requires Possible(s, k, a)
    ensures var steps := if a.sent then [Send(k, true, true), Receive(k, a.got.Some?)] else [Send(k, false, false)];
            var c := s.calls[k];
            var t := RunFrom(s, l, steps);
            && t.Some? && t.value.pool == s.pool && c.conn in t.value.wires
            && t.value.calls == s.calls[k := if a.sent && a.got.Some? then Received(c, a.got.value) else Failed(c)]
  {
    hide P.Required, P.Released, P.Checked;
    var send, receive := Send(k, a.sent, a.sent), Receive(k, a.got.Some?);
    OneStep(s, l, send);
    if a.sent {
      OneStep(Next(s, l, send), l, receive);
      RunFromConcat(s, l, [send], [receive]);
      assert [send] + [receive] == [send, receive];
    }
  }

  /** The retry loop of invoke_service: a failed last attempt is not followed by a reconnect. */
  method RetryLoop(conn: P.Conn, serial: nat, body: string, env: seq<Attempt>, now: int)
    returns (code: int, reply: Option<Reply>)
    requires |env| > RETRY_TIMES
    modifies conn
    ensures Looped(Call(0, serial, body, RETRY_TIMES, Sending), env).phase == Leaving(code, reply)
    ensures code == -1 ==> conn.connected == env[0].reconnects
    ensures Succeeds(env[0], Identifier(serial)) ==> unchanged(conn)
  {
    hide Identifier;
    code, reply := 0, None;
    var identifier := Identifier(serial);
    var retry := RETRY_TIMES + 1;
    var i := 0;
    ghost var c := Call(0, serial, body, RETRY_TIMES, Sending);
    ghost var start := c;
    assert env[0..] == env;
    while retry > 0
      invariant retry >= 1 && i >= 0 && i + retry == RETRY_TIMES + 1 && code == 0 && reply == None
      invariant c.serial == serial && c.phase == Sending && c.retry == retry - 1
      invariant Looped(start, env) == Looped(c, env[i..])
      invariant if i == 0 then unchanged(conn) else conn.connected == env[0].reconnects && !Succeeds(env[0], identifier)
    {
      assert env[i..][1..] == env[i + 1..];
      retry := retry - 1;
      var a := env[i];
      var success := false;
      if a.sent && a.got.Some? {
        if a.got.value.to.identifier == identifier {
          if a.got.value.kind == BIZ_RES_MSG_TYPE {
            success := true;
            reply := a.got;
          }
        }
      }
      if success {
        break;
      } else {
        if retry > 0 {
          var ok := conn.Reconnect(a.reconnects, now);
        } else {
          code := -1;
          break;
        }
      }
      c := Tried(c, a);
      i := i + 1;
    }
  }

  /**
   invoke_service once the node is found: without a connection it fails and leaves the pool alone;
   a connection that is acquired is released, whatever the retry loop comes to.
   */
  method InvokeService(pool: P.Pool, serial: nat, body: string, env: seq<Attempt>, connects: bool, now: int)
    returns (code: int, reply: Option<Reply>, ghost conn: Option<P.Link>, ghost made: Option<P.Link>)
    requires pool.Valid() && |env| > RETRY_TIMES
    modifies pool, pool.idle, pool.used, set n | n in pool.idle :: n.value
    ensures pool.Valid()
    ensures P.Required(old(pool.View()), pool.maxConnNum, made).1 == conn
    ensures made.Some? <==> old(pool.idle) == [] && |old(pool.used)| < pool.maxConnNum && connects
    ensures made.Some? ==> fresh(made.value) && fresh(made.value.value)
    ensures conn == None ==> code == -1 && pool.View() == old(pool.View())
    ensures conn.Some? ==> Looped(Call(0, serial, body, RETRY_TIMES, Sending), env).phase == Leaving(code, reply)
    ensures forall n | n in old(pool.idle) && (conn.Some? ==> n.value != conn.value.value) :: unchanged(n.value)
    ensures conn.Some? ==> pool.View() == P.Released(P.Required(old(pool.View()), pool.maxConnNum, made).0, conn.value)
  {
    hide Looped, UtList.List, Distinct, Apart;
    ghost var before := pool.View();
    var taken;
    taken, made := pool.RequireConnection(connects, now);
    if taken == null {
      return -1, None, None, made;
    }
    conn := Some(taken);
    assert taken in pool.used;
    code, reply := RetryLoop(taken.value, serial, body, env, now);
    assert forall i | 0 <= i < |pool.idle| :: pool.idle[i] in before.idle;
    pool.ReleaseConnection(taken, true, now);
  }
}
