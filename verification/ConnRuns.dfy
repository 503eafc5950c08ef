/** Whole runs of a multi handle: connections are made when the limits allow one more, or without asking,
    and are used, released and closed in any order. */
module ConnRuns {
  import opened ConnList
  import opened ConnPool

  /** What happens to a connection, named by its destination and its place in the bundle. */
  datatype Event =
    | Use
    | Release(now: int, maxConnects: nat, running: nat)
    | MarkClose
    | Terminate(aborted: bool)

  /** `Open` is for a transfer of its own or, as a `subRequest`, for one like a DoH lookup that another
      transfer needs; `OpenFile` is for a `file:` transfer. */
  datatype Op =
    | Open(dest: string, connectOnly: bool, now: int, subRequest: bool)
    | OpenFile(dest: string, connectOnly: bool)
    | On(dest: string, k: nat, event: Event)
    | NetworkChanged
    | Perform

  /** A call adds a connection to a destination without asking for the host limit. */
  predicate Unasked(op: Op, dest: string) {
    op.OpenFile? && op.dest == dest
  }

  /** A call adds a connection whatever the total limit says: a `file:` transfer does not ask, and a
      sub-request goes ahead when the answer is that the limit is reached. */
  predicate Overrides(op: Op, res: Limit) {
    op.OpenFile? || (op.Open? && op.subRequest && res == LimitTotal)
  }

  function UnaskedIn(ops: seq<Op>, dest: string): nat {
    if ops == [] then 0
    else UnaskedIn(ops[..|ops| - 1], dest) + if Unasked(ops[|ops| - 1], dest) then 1 else 0
  }

  function OverridesIn(ops: seq<Op>, answers: seq<Limit>): nat
    requires |answers| == |ops|
  {
    if ops == [] then 0
    else
      var n := |ops| - 1;
      OverridesIn(ops[..n], answers[..n]) + if Overrides(ops[n], answers[n]) then 1 else 0
  }

  lemma CountSnoc(ops: seq<Op>, answers: seq<Limit>, k: nat, answer: Limit)
    requires k < |ops| && |answers| == k
    ensures OverridesIn(ops[..k + 1], answers + [answer]) ==
            OverridesIn(ops[..k], answers) + if Overrides(ops[k], answer) then 1 else 0
    ensures forall d :: UnaskedIn(ops[..k + 1], d) == UnaskedIn(ops[..k], d) + if Unasked(ops[k], d) then 1 else 0
  {
    assert ops[..k + 1][..k] == ops[..k] && (answers + [answer])[..k] == answers;
  }

  /** Both limits, but for the connections that were added whatever the limits said. */
  ghost predicate Within(m: Multi, ops: seq<Op>, answers: seq<Limit>)
    requires |answers| == |ops|
    reads m`bundles, m`shutdowns, m`numConn
  {
    && (m.maxTotal > 0 ==> m.InTotal() <= m.maxTotal + OverridesIn(ops, answers))
    && (m.maxHost > 0 ==> forall d :: m.AtHost(d) <= m.maxHost + UnaskedIn(ops, d))
  }

  function Max(a: nat, b: nat): nat {
    if a < b then b else a
  }

  /** A new connection joins the pool. */
  method Join(m: Multi, dest: string, connectOnly: bool) returns (ghost joined: Conn)
    requires m.Valid()
    modifies m, m.live
    ensures m.Valid() && m.InTotal() == old(m.InTotal()) + 1
    ensures forall d :: m.AtHost(d) == old(m.AtHost(d)) + if d == dest then 1 else 0
    ensures fresh(joined) && m.Known() == old(m.Known()) + {joined} && m.live == old(m.live) + {joined}
    ensures joined !in old(m.Known()) && joined.connectOnly == connectOnly
  {
    hide Multi.Valid, Multi.Known, Multi.Bundle, CountTo;
    var conn := new Conn(dest, connectOnly);
    KnownAreAllocated(m, conn);
    m.Add(conn);
    joined := conn;
  }

  lemma KnownAreAllocated(m: Multi, conn: Conn)
    requires conn !in m.live && conn !in m.shutdowns && conn !in m.freed
    ensures conn !in m.Known()
  {
  }

  /** A new connection joins the pool after a check that said OK, and then both limits hold for it, even if
      they did not before; or, for a sub-request, after one that said that the total limit is reached. */
  method Connect(m: Multi, dest: string, connectOnly: bool, now: int, subRequest: bool) returns (res: Limit)
    requires m.Valid()
    modifies m, m.live
    ensures m.Valid()
    ensures old(m.Known()) <= m.Known() && fresh(m.Known() - old(m.Known())) && fresh(m.live - old(m.live))
    ensures res == LimitOk || (res == LimitTotal && subRequest) <==> m.Known() != old(m.Known())
    ensures res == LimitOk && m.maxTotal > 0 ==> m.InTotal() <= m.maxTotal
    ensures res == LimitTotal && subRequest ==> m.InTotal() > m.maxTotal
    ensures res == LimitTotal <==> !(m.maxHost > 0 && old(Busy(m.Bundle(dest), now)) >= m.maxHost)
                                   && 0 < m.maxTotal <= |old(m.Stuck(dest, now))|
    ensures res != LimitDest && m.maxHost > 0 && m.Known() != old(m.Known()) ==> m.AtHost(dest) <= m.maxHost
    ensures m.InTotal() <= old(m.InTotal()) + if m.Known() != old(m.Known()) then 1 else 0
    ensures forall d :: d != dest || m.Known() == old(m.Known()) ==> m.AtHost(d) <= old(m.AtHost(d))
  {
    hide Multi.Valid, Multi.Known, Multi.Bundle, CountTo, Multi.Stuck, Multi.AtHost, Multi.InTotal, Busy;
    ghost var known := m.Known();
    res := m.CheckLimits(dest, now);
    if res == LimitOk || (res == LimitTotal && subRequest) {
      ghost var joined := Join(m, dest, connectOnly);
      assert m.Known() - known == {joined};
    }
  }

  method Happen(m: Multi, conn: Conn, event: Event)
    requires m.Valid() && conn in m.live && conn.inPool && conn in m.Known()
    modifies m, m.live
    ensures m.Valid() && m.Known() == old(m.Known()) && m.live <= old(m.live)
    ensures m.InTotal() <= old(m.InTotal()) && forall d :: m.AtHost(d) <= old(m.AtHost(d))
    ensures conn.attached == match event
                             case Use => old(conn.attached) + 1
                             case Release(_, _, _) => if old(conn.attached) > 0 then old(conn.attached) - 1 else 0
                             case _ => old(conn.attached)
    ensures conn.close == (old(conn.close) || event.MarkClose?)
    ensures event.Use? || event.MarkClose? ==> m.live == old(m.live) && m.shutdowns == old(m.shutdowns)
    ensures event.Terminate? ==>
              m.live == if old(conn.InUse()) && !event.aborted then old(m.live) else old(m.live) - {conn}
  {
    hide Multi.Valid, Multi.Known, Multi.Bundle, Multi.AtHost, Multi.InTotal;
    match event
    case Use =>
      conn.attached := conn.attached + 1;
    case MarkClose =>
      conn.close := true;
    case Terminate(aborted) =>
      var _ := m.Terminate(conn, aborted);
    case Release(now, maxConnects, running) =>
      if conn.attached > 0 {
        conn.attached := conn.attached - 1;
        if conn.attached == 0 {
          var _, _ := m.NowIdle(conn, now, maxConnects, running);
        }
      }
  }

  /** One call, with the answer of the limits, OK where they are not asked. */
  method Step(m: Multi, op: Op) returns (res: Limit)
    requires m.Valid()
    modifies m, m.live
    ensures m.Valid()
    ensures m.maxTotal > 0 ==>
              m.InTotal() <= if Overrides(op, res) then old(m.InTotal()) + 1 else Max(old(m.InTotal()), m.maxTotal)
    ensures m.maxHost > 0 ==> forall d ::
              m.AtHost(d) <= if Unasked(op, d) then old(m.AtHost(d)) + 1 else Max(old(m.AtHost(d)), m.maxHost)
    ensures old(m.Known()) <= m.Known() && fresh(m.Known() - old(m.Known())) && fresh(m.live - old(m.live))
    ensures op.Open? && res == LimitOk && m.maxTotal > 0 ==> m.InTotal() <= m.maxTotal
    ensures op.OpenFile? ==> m.InTotal() == old(m.InTotal()) + 1
    ensures op.NetworkChanged? ==> m.live == set c | c in old(m.live) && c.InUse()
    ensures op.Perform? ==> m.live == old(m.live) && m.shutdowns == Undone(old(m.shutdowns), m.outcomes, old(m.steps))
  {
    hide Multi.Valid, Multi.Known, Multi.Bundle, Multi.AtHost, Multi.InTotal;
    res := LimitOk;
    match op
    case Open(dest, connectOnly, now, subRequest) =>
      res := Connect(m, dest, connectOnly, now, subRequest);
    case OpenFile(dest, connectOnly) =>
      ghost var known := m.Known();
      ghost var joined := Join(m, dest, connectOnly);
      assert m.Known() - known == {joined};
    case NetworkChanged =>
      ghost var order := m.NetworkChanged();
    case Perform =>
      m.Perform();
    case On(dest, k, event) =>
      if k < |m.Bundle(dest)| {
        m.InBundle(dest, m.Bundle(dest)[k]);
        Happen(m, m.Bundle(dest)[k], event);
      }
  }

  /** Over every run, the pool and the list of shutdowns together go over the total limit by no more than
      the `file:` transfers and the sub-requests that override it, and over a host limit by no more than
      the `file:` transfers to the host; so both limits hold over every run without any. Every connection
      ever added is in the pool, in shutdown or freed. */
  method Run(m: Multi, ops: seq<Op>) returns (answers: seq<Limit>)
    requires m.Valid() && m.WithinLimits()
    modifies m, m.live
    ensures m.Valid() && |answers| == |ops| && old(m.Known()) <= m.Known()
    ensures Within(m, ops, answers)
    ensures (forall k :: 0 <= k < |ops| ==> !Overrides(ops[k], answers[k])) ==> m.WithinLimits()
    ensures ops != [] && ops[|ops| - 1].Open? && answers[|ops| - 1] == LimitOk && m.maxTotal > 0 ==>
              m.InTotal() <= m.maxTotal
  {
    hide Multi.Valid, Multi.Known, Multi.AtHost, Multi.InTotal, Within, OverridesIn, UnaskedIn, Overrides, Unasked;
    answers := [];
    NoCalls(m);
    assert ops[..0] == [];
    for i := 0 to |ops|
      invariant m.Valid() && |answers| == i
      invariant Within(m, ops[..i], answers)
      invariant old(m.Known()) <= m.Known() && fresh(m.live - old(m.live))
      invariant i > 0 && ops[i - 1].Open? && answers[i - 1] == LimitOk && m.maxTotal > 0 ==> m.InTotal() <= m.maxTotal
    {
      WithinIs(m, ops[..i], answers);
      var res := Step(m, ops[i]);
      CountSnoc(ops, answers, i, res);
      answers := answers + [res];
      WithinIs(m, ops[..i + 1], answers);
    }
    assert ops[..|ops|] == ops;
    if forall k :: 0 <= k < |ops| ==> !Overrides(ops[k], answers[k]) {
      NoOverrides(ops, answers);
      WithinIs(m, ops, answers);
    }
  }

  lemma NoCalls(m: Multi)
    requires m.WithinLimits()
    ensures Within(m, [], [])
  {
  }

  lemma WithinIs(m: Multi, ops: seq<Op>, answers: seq<Limit>)
    requires |answers| == |ops|
    ensures Within(m, ops, answers) <==>
            && (m.maxTotal > 0 ==> m.InTotal() <= m.maxTotal + OverridesIn(ops, answers))
            && (m.maxHost > 0 ==> forall d :: m.AtHost(d) <= m.maxHost + UnaskedIn(ops, d))
  {
  }

  lemma {:induction false} NoOverrides(ops: seq<Op>, answers: seq<Limit>)
    requires |answers| == |ops| && forall k :: 0 <= k < |ops| ==> !Overrides(ops[k], answers[k])
    ensures OverridesIn(ops, answers) == 0 && forall d :: UnaskedIn(ops, d) == 0
  {
    if ops != [] {
      var n := |ops| - 1;
      NoOverrides(ops[..n], answers[..n]);
    }
  }

  /** So a `file:` transfer takes a pool over its total limit. */
  method FileGoesOver() returns (m: Multi)
    ensures m.Valid() && m.maxTotal == 1 && m.InTotal() == 2
  {
    hide Multi.Valid, Multi.AtHost;
    m := new Multi(0, 1, _ => Outcome(true, false));
    ghost var first := Join(m, "file", false);
    ghost var second := Join(m, "file", false);
  }

  /** And so does a sub-request, when what is in the pool must stay. */
  method SubRequestGoesOver() returns (m: Multi)
    ensures m.Valid() && m.maxTotal == 1 && m.InTotal() == 2
  {
    hide Multi.Valid, Multi.AtHost;
    m := new Multi(0, 1, _ => Outcome(true, false));
    ghost var first := Join(m, "host", true);
    assert m.Stuck("resolver", 0) == {first};
    var res := Connect(m, "resolver", false, 0, true);
  }
}
