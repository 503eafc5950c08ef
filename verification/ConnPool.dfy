/** The connection pool and the list of connections in shutdown of one multi handle, and the limits on
    both together. */
module ConnPool {
  import opened Common
  import opened ConnList

  datatype Limit = LimitOk | LimitDest | LimitTotal

  /** What the environment decides when a connection is shut down: whether the shutdown is done at once,
      and whether the event loop of the application refuses to watch the connection. */
  datatype Outcome = Outcome(done: bool, eventFailed: bool)

  /** The number of connections the pool may keep after a transfer; four times the transfers running
      if the application did not say. */
  function Cap(maxConnects: nat, running: nat): nat {
    if maxConnects != 0 then maxConnects else if running <= UINT_MAX / 4 then running * 4 else UINT_MAX
  }

  const UINT_MAX: nat := 0xFFFF_FFFF

  /** The product does not wrap around: it is four times the transfers, or the largest number there is. */
  lemma CapDoesNotWrap(running: nat)
    ensures Cap(0, running) == Min(4 * running, UINT_MAX)
    ensures forall maxConnects: nat :: maxConnects > 0 ==> Cap(maxConnects, running) == maxConnects
  {
  }

  /** The connections whose shutdown is not done, when the outcome of the first of them is number `step`. */
  function Undone(cs: seq<Conn>, outcomes: nat -> Outcome, step: nat): seq<Conn> {
    if cs == [] then []
    else (if outcomes(step).done then [] else [cs[0]]) + Undone(cs[1..], outcomes, step + 1)
  }

  lemma NoneUndone(outcomes: nat -> Outcome, step: nat)
    ensures Undone([], outcomes, step) == []
  {
  }

  lemma UndoneStep(kept: seq<Conn>, rest: seq<Conn>, outcomes: nat -> Outcome, step: nat)
    requires rest != []
    ensures kept + Undone(rest, outcomes, step) ==
            (if outcomes(step).done then kept else kept + [rest[0]]) + Undone(rest[1..], outcomes, step + 1)
  {
    var tail := Undone(rest[1..], outcomes, step + 1);
    if outcomes(step).done {
      assert [] + tail == tail;
    } else {
      Assoc(kept, [rest[0]], tail);
    }
  }

  class Multi {
    const maxHost: nat
    const maxTotal: nat
    const outcomes: nat -> Outcome
    var steps: nat

    /** `dest2bundle`, and all connections in it */
    var bundles: map<string, seq<Conn>>
    ghost var live: set<Conn>
    var numConn: nat
    var nextId: nat

    /** The list of `struct cshutdn`, oldest first. */
    var shutdowns: seq<Conn>

    /** The connections that were closed and freed. */
    ghost var freed: set<Conn>

    /** Every connection is in one place: in the pool, in shutdown, or freed. */
    ghost predicate Valid()
      reads this`bundles, this`live, this`numConn, this`shutdowns, this`freed, live`inPool
    {
      && Indexed(bundles, live) && numConn == |live|
      && (forall c :: c in live ==> c.inPool)
      && Apart(live, shutdowns, freed)
    }

    ghost function Known(): set<Conn>
      reads this`live, this`shutdowns, this`freed
    {
      All(live, shutdowns, freed)
    }

    function Bundle(dest: string): seq<Conn>
      reads this`bundles
    {
      Lookup(bundles, dest)
    }

    /** Connections to a destination that count against the host limit. */
    function AtHost(dest: string): nat
      reads this`bundles, this`shutdowns
    {
      |Bundle(dest)| + CountTo(shutdowns, dest)
    }

    /** Connections that count against the total limit. */
    function InTotal(): nat
      reads this`numConn, this`shutdowns
    {
      numConn + |shutdowns|
    }

    ghost predicate WithinLimits()
      reads this`bundles, this`shutdowns, this`numConn
    {
      && (maxTotal > 0 ==> InTotal() <= maxTotal)
      && (maxHost > 0 ==> forall d :: AtHost(d) <= maxHost)
    }

    constructor (maxHost: nat, maxTotal: nat, outcomes: nat -> Outcome)
      ensures Valid() && WithinLimits() && Known() == {} && InTotal() == 0
      ensures this.maxHost == maxHost && this.maxTotal == maxTotal && this.outcomes == outcomes
    {
      this.maxHost, this.maxTotal, this.outcomes := maxHost, maxTotal, outcomes;
      bundles, live, numConn, nextId, shutdowns, freed, steps := map[], {}, 0, 0, [], {}, 0;
    }

    /** `Curl_cpool_add` */
    method Add(conn: Conn)
      requires Valid() && conn !in Known()
      modifies this`bundles, this`live, this`numConn, this`nextId, conn`inPool, conn`id
      ensures Valid() && live == old(live) + {conn} && numConn == old(numConn) + 1
      ensures Known() == old(Known()) + {conn}
      ensures conn.id == old(nextId) && nextId == old(nextId) + 1
      ensures forall d :: Bundle(d) == old(Bundle(d)) + if d == conn.destination then [conn] else []
    {
      hide Indexed, Apart, All, Joined, Lookup;
      PutInPool(live, shutdowns, freed, conn);
      IndexedJoined(bundles, live, conn);
      forall d {
        LookupJoined(bundles, conn, d);
      }
      bundles := Joined(bundles, conn);
      conn.inPool := true;
      conn.id := nextId;
      nextId := nextId + 1;
      numConn := numConn + 1;
      live := live + {conn};
    }

    /** `cpool_remove_conn`: the bundle goes with its last connection. `k` is where it was. */
    method RemoveConn(conn: Conn) returns (ghost k: nat)
      requires Valid() && conn in live
      modifies this`bundles, this`live, this`numConn, conn`inPool
      ensures Valid() && live == old(live) - {conn} && numConn == old(numConn) - 1 && !conn.inPool
      ensures Known() == old(Known()) - {conn}
      ensures k < |old(Bundle(conn.destination))| && old(Bundle(conn.destination))[k] == conn
      ensures Bundle(conn.destination) == Remove(old(Bundle(conn.destination)), k)
      ensures forall d :: d != conn.destination ==> Bundle(d) == old(Bundle(d))
    {
      hide Indexed, Without, Remove, Apart, All;
      TakeFromPool(live, shutdowns, freed, conn);
      var i := Find(bundles, live, conn);
      k := i;
      IndexedWithout(bundles, live, conn.destination, i);
      forall d {
        LookupWithout(bundles, conn.destination, i, d);
      }
      bundles := Without(bundles, conn.destination, i);
      conn.inPool := false;
      numConn := numConn - 1;
      live := live - {conn};
    }

    /** `Curl_cshutdn_terminate` of a connection on the list. */
    method CloseAt(k: nat)
      requires Valid() && k < |shutdowns|
      modifies this`shutdowns, this`freed
      ensures Valid() && Known() == old(Known()) && shutdowns == Remove(old(shutdowns), k)
      ensures forall d :: CountTo(shutdowns, d) ==
                          old(CountTo(shutdowns, d)) - if old(shutdowns)[k].destination == d then 1 else 0
    {
      hide Indexed, Apart, All, Remove;
      CloseShutdown(live, shutdowns, freed, k);
      forall d {
        CountRemove(shutdowns, k, d);
      }
      freed := freed + {shutdowns[k]};
      shutdowns := Remove(shutdowns, k);
    }

    /** `cshutdn_destroy_oldest`: closes the first connection in shutdown, of a destination if one is
        given. */
    method DestroyOldest(dest: Option<string>) returns (found: bool)
      requires Valid()
      modifies this`shutdowns, this`freed
      ensures Valid() && Known() == old(Known()) && shutdowns == WithoutOldest(old(shutdowns), dest)
      ensures found <==> if dest.None? then old(shutdowns) != [] else CountTo(old(shutdowns), dest.value) > 0
      ensures |shutdowns| == |old(shutdowns)| - if found then 1 else 0
      ensures forall d :: CountTo(shutdowns, d) <= CountTo(old(shutdowns), d)
      ensures found && dest.Some? ==> CountTo(shutdowns, dest.value) == CountTo(old(shutdowns), dest.value) - 1
    {
      hide Indexed, Apart, All, Remove;
      var k := 0;
      while k < |shutdowns| && !For(shutdowns[k], dest)
        invariant 0 <= k <= |shutdowns|
        invariant forall i :: 0 <= i < k ==> !For(shutdowns[i], dest)
      {
        k := k + 1;
      }
      OldestIs(shutdowns, dest, k);
      found := k < |shutdowns|;
      if found {
        CloseAt(k);
      }
    }

    /** The list of shutdowns, less its oldest if another one would go over the total limit. */
    ghost function Trimmed(cs: seq<Conn>, pooled: nat): seq<Conn> {
      if maxTotal > 0 && maxTotal <= pooled + |cs| then WithoutOldest(cs, None) else cs
    }

    /** Closes the oldest connection in shutdown if another one would go over the total limit. */
    method Trim()
      requires Valid()
      modifies this`shutdowns, this`freed
      ensures Valid() && Known() == old(Known()) && shutdowns == Trimmed(old(shutdowns), numConn)
      ensures forall d :: CountTo(shutdowns, d) <= old(CountTo(shutdowns, d))
      ensures |shutdowns| <= |old(shutdowns)|
      ensures 0 < maxTotal && old(InTotal()) <= maxTotal && numConn < maxTotal ==> InTotal() < maxTotal
    {
      hide Indexed, WithoutOldest, For, Apart, All;
      if maxTotal > 0 && maxTotal <= numConn + |shutdowns| {
        var found := DestroyOldest(None);
      }
    }

    /** `Curl_cshutdn_add` */
    method AddShutdown(conn: Conn, eventFailed: bool)
      requires Valid() && conn !in Known()
      modifies this`shutdowns, this`freed
      ensures Valid() && Known() == old(Known()) + {conn}
      ensures shutdowns == Trimmed(old(shutdowns), numConn) + if eventFailed then [] else [conn]
      ensures forall d :: CountTo(shutdowns, d) <= old(CountTo(shutdowns, d)) + if conn.destination == d then 1 else 0
      ensures |shutdowns| <= |old(shutdowns)| + 1
      ensures 0 < maxTotal && old(InTotal()) <= maxTotal ==>
                (InTotal() <= maxTotal <==> eventFailed || numConn < maxTotal)
      ensures (conn in freed <==> eventFailed) && (conn in shutdowns <==> !eventFailed)
    {
      hide Indexed, Apart, All, Trimmed;
      Trim();
      NotThere(live, shutdowns, freed, conn);
      if eventFailed {
        Free(live, shutdowns, freed, conn);
        freed := freed + {conn};
        assert shutdowns == shutdowns + [];
      } else {
        forall d {
          CountAppend(shutdowns, [conn], d);
        }
        StartShutdown(live, shutdowns, freed, conn);
        shutdowns := shutdowns + [conn];
        assert shutdowns[|shutdowns| - 1] == conn;
      }
    }

    /** A connection is cut off, without a shutdown, if it is aborted, or if nobody knows what the
        application did with it. */
    ghost predicate CutOff(conn: Conn, aborted: bool) {
      aborted || conn.connectOnly
    }

    /** The connection left the pool by a shutdown, as far as one makes sense for it. */
    predicate ShutDown(conn: Conn)
      reads conn`aborted
    {
      conn.aborted <==> conn.connectOnly
    }

    /** A connection that is closed now stays for a while, to be shut down; `step` is the number of the
        attempt to do so at once. */
    ghost predicate Lingers(conn: Conn, aborted: bool, step: nat) {
      !CutOff(conn, aborted) && !outcomes(step).done && !outcomes(step).eventFailed
    }

    /** The list of shutdowns after a connection was closed, with `pooled` connections left in the pool. */
    ghost function ListAfter(cs: seq<Conn>, pooled: nat, conn: Conn, aborted: bool, step: nat): seq<Conn> {
      if CutOff(conn, aborted) || outcomes(step).done then cs
      else Trimmed(cs, pooled) + if outcomes(step).eventFailed then [] else [conn]
    }

    ghost function StepsAfter(conn: Conn, aborted: bool, step: nat): nat {
      if CutOff(conn, aborted) then step else step + 1
    }

    lemma SameCut(conn: Conn, aborted: bool)
      ensures var cut := aborted || conn.connectOnly;
        && CutOff(conn, cut) == CutOff(conn, aborted)
        && (forall step :: Lingers(conn, cut, step) == Lingers(conn, aborted, step)
                           && StepsAfter(conn, cut, step) == StepsAfter(conn, aborted, step))
        && (forall cs, pooled, step ::
              ListAfter(cs, pooled, conn, cut, step) == ListAfter(cs, pooled, conn, aborted, step))
    {
    }

    /** The same after all of `order` were closed one after the other, not aborted, out of a pool of
        `pooled`. */
    ghost function ListAfterAll(cs: seq<Conn>, pooled: nat, order: seq<Conn>, step: nat): seq<Conn> {
      if order == [] then cs
      else
        var n := |order| - 1;
        ListAfter(ListAfterAll(cs, pooled, order[..n], step), if pooled > n then pooled - n - 1 else 0, order[n],
                  false, StepsAfterAll(order[..n], step))
    }

    ghost function StepsAfterAll(order: seq<Conn>, step: nat): nat {
      if order == [] then step
      else
        var n := |order| - 1;
        StepsAfter(order[n], false, StepsAfterAll(order[..n], step))
    }

    lemma NoneAfter(cs: seq<Conn>, pooled: nat, step: nat)
      ensures ListAfterAll(cs, pooled, [], step) == cs && StepsAfterAll([], step) == step
    {
    }

    lemma AllAfterSnoc(cs: seq<Conn>, pooled: nat, order: seq<Conn>, conn: Conn, step: nat)
      requires |order| < pooled
      ensures ListAfterAll(cs, pooled, order + [conn], step) ==
              ListAfter(ListAfterAll(cs, pooled, order, step), pooled - |order| - 1, conn, false,
                        StepsAfterAll(order, step))
      ensures StepsAfterAll(order + [conn], step) == StepsAfter(conn, false, StepsAfterAll(order, step))
    {
      assert (order + [conn])[..|order|] == order;
    }

    /** `cpool_discard_conn`: a connection that left the pool is freed, or goes on the list of
        shutdowns if it is not done at once. */
    method Discard(conn: Conn, aborted: bool)
      requires Valid() && conn !in Known()
      modifies this`shutdowns, this`freed, this`steps, conn`aborted
      ensures Valid()
      ensures conn.InUse() && !aborted ==>
                && shutdowns == old(shutdowns) && freed == old(freed)
                && steps == old(steps) && conn.aborted == old(conn.aborted)
      ensures !conn.InUse() || aborted ==>
                && Known() == old(Known()) + {conn} && conn.aborted == CutOff(conn, aborted)
                && shutdowns == ListAfter(old(shutdowns), numConn, conn, aborted, old(steps))
                && steps == StepsAfter(conn, aborted, old(steps))
                && (conn in shutdowns <==> Lingers(conn, aborted, old(steps)))
                && (conn in freed <==> !Lingers(conn, aborted, old(steps)))
      ensures forall d :: CountTo(shutdowns, d) <= old(CountTo(shutdowns, d)) + if conn.destination == d then 1 else 0
      ensures |shutdowns| <= |old(shutdowns)| + 1
    {
      hide Indexed, Trimmed, Apart, All;
      NotThere(live, shutdowns, freed, conn);
      if conn.InUse() && !aborted {
        return;
      }
      conn.aborted := aborted || conn.connectOnly;
      var o := outcomes(steps);
      var done := conn.aborted;
      if !done {
        done := o.done;
        steps := steps + 1;
      }
      if done {
        Free(live, shutdowns, freed, conn);
        freed := freed + {conn};
      } else {
        AddShutdown(conn, o.eventFailed);
      }
    }

    /** Takes a connection that may be closed out of the pool and discards it. `k` is where a pooled
        connection was in its bundle. */
    method Close(conn: Conn, aborted: bool) returns (ghost k: nat)
      requires Valid() && (conn.inPool <==> conn in live) && (conn in Known() ==> conn in live)
      requires !conn.InUse() || aborted
      modifies this`bundles, this`live, this`numConn, this`shutdowns, this`freed, this`steps, conn`inPool, conn`aborted
      ensures Valid() && live == old(live) - {conn} && Known() == old(Known()) + {conn}
      ensures conn.aborted == CutOff(conn, aborted)
      ensures shutdowns == ListAfter(old(shutdowns), numConn, conn, aborted, old(steps))
      ensures steps == StepsAfter(conn, aborted, old(steps))
      ensures (conn in shutdowns <==> Lingers(conn, aborted, old(steps)))
              && (conn in freed <==> !Lingers(conn, aborted, old(steps)))
      ensures conn in old(live) ==>
                numConn == old(numConn) - 1 && k < |old(Bundle(conn.destination))|
                && old(Bundle(conn.destination))[k] == conn
                && Bundle(conn.destination) == Remove(old(Bundle(conn.destination)), k)
      ensures forall d :: d != conn.destination ==> Bundle(d) == old(Bundle(d))
      ensures conn in old(live) ==> InTotal() <= old(InTotal())
      ensures conn in old(live) ==> forall d :: AtHost(d) <= old(AtHost(d))
    {
      hide Indexed, Apart, All, Trimmed, ListAfter, StepsAfter, Lingers, CutOff;
      SameCut(conn, aborted);
      k := 0;
      if conn.inPool {
        k := RemoveConn(conn);
      }
      Discard(conn, aborted || conn.connectOnly);
    }

    /** `Curl_conn_terminate`: a connection in use stays, unless it is aborted. */
    method Terminate(conn: Conn, aborted: bool) returns (ghost k: nat)
      requires Valid() && (conn.inPool <==> conn in live) && (conn in Known() ==> conn in live)
      modifies this`bundles, this`live, this`numConn, this`shutdowns, this`freed, this`steps, conn`inPool, conn`aborted
      ensures Valid()
      ensures live == if conn.InUse() && !aborted then old(live) else old(live) - {conn}
      ensures Known() == if conn.InUse() && !aborted then old(Known()) else old(Known()) + {conn}
      ensures conn in old(live) ==> Known() == old(Known())
      ensures conn.InUse() && !aborted ==>
                && shutdowns == old(shutdowns) && freed == old(freed)
                && steps == old(steps) && conn.aborted == old(conn.aborted)
      ensures !conn.InUse() || aborted ==>
                && conn.aborted == CutOff(conn, aborted)
                && shutdowns == ListAfter(old(shutdowns), numConn, conn, aborted, old(steps))
                && steps == StepsAfter(conn, aborted, old(steps))
                && (conn in shutdowns <==> Lingers(conn, aborted, old(steps)))
                && (conn in freed <==> !Lingers(conn, aborted, old(steps)))
      ensures conn in old(live) && conn !in live ==>
                numConn == old(numConn) - 1 && k < |old(Bundle(conn.destination))|
                && old(Bundle(conn.destination))[k] == conn
                && Bundle(conn.destination) == Remove(old(Bundle(conn.destination)), k)
      ensures forall d :: d != conn.destination ==> Bundle(d) == old(Bundle(d))
      ensures conn in old(live) ==> InTotal() <= old(InTotal())
      ensures conn in old(live) ==> forall d :: AtHost(d) <= old(AtHost(d))
    {
      hide Valid, Bundle, AtHost;
      k := 0;
      if conn.InUse() && !aborted {
        return;
      }
      k := Close(conn, aborted);
    }

    /** `cpool_bundle_get_oldest_idle`: the first of the connections idle for longest. */
    method OldestIdle(dest: string, now: int) returns (r: Option<Conn>, ghost at: nat)
      ensures r.None? ==> forall c :: c in Bundle(dest) ==> !c.Idle(now)
      ensures r.Some? ==> at < |Bundle(dest)| && Bundle(dest)[at] == r.value && r.value.Idle(now)
      ensures r.Some? ==> forall c :: c in Bundle(dest) && c.Idle(now) ==> r.value.lastUsed <= c.lastUsed
      ensures r.Some? ==> forall c :: c in Bundle(dest)[..at] && c.Idle(now) ==> r.value.lastUsed < c.lastUsed
    {
      var cs := Bundle(dest);
      r, at := None, 0;
      var highscore := -1;
      for i := 0 to |cs|
        invariant highscore == (if r.Some? then now - r.value.lastUsed else -1)
        invariant r.Some? ==> at < i && r.value == cs[at] && r.value.Idle(now)
        invariant r.Some? ==> forall j :: 0 <= j < at && cs[j].Idle(now) ==> r.value.lastUsed < cs[j].lastUsed
        invariant forall j :: 0 <= j < i && cs[j].Idle(now) ==> r.Some? && r.value.lastUsed <= cs[j].lastUsed
      {
        if !cs[i].InUse() {
          var score := now - cs[i].lastUsed;
          if score > highscore {
            highscore, r, at := score, Some(cs[i]), i;
          }
        }
      }
    }

    lemma BundleOnce(dest: string)
      requires Valid()
      ensures NoRepeats(Bundle(dest))
    {
    }

    lemma InBundle(dest: string, c: Conn)
      requires Valid() && c in Bundle(dest)
      ensures c in live && c.inPool && c.destination == dest && c in Known()
    {
    }

    /** One list of the walk of `cpool_get_oldest_idle`, with the best of the lists before. */
    method OlderIn(cs: seq<Conn>, now: int, best: Option<Conn>) returns (r: Option<Conn>)
      requires best.Some? ==> best.value.Evictable(now)
      ensures r.Some? ==> r.value.Evictable(now) && (r == best || r.value in cs)
      ensures best.Some? ==> r.Some? && r.value.lastUsed <= best.value.lastUsed
      ensures forall c :: c in cs && c.Evictable(now) ==> r.Some? && r.value.lastUsed <= c.lastUsed
    {
      r := best;
      var highscore := if best.Some? then now - best.value.lastUsed else -1;
      for i := 0 to |cs|
        invariant highscore == (if r.Some? then now - r.value.lastUsed else -1)
        invariant r.Some? ==> r.value.Evictable(now) && (r == best || r.value in cs)
        invariant best.Some? ==> r.Some? && r.value.lastUsed <= best.value.lastUsed
        invariant forall j :: 0 <= j < i && cs[j].Evictable(now) ==> r.Some? && r.value.lastUsed <= cs[j].lastUsed
      {
        if !(cs[i].InUse() || cs[i].close || cs[i].connectOnly) {
          var score := now - cs[i].lastUsed;
          if score > highscore {
            highscore, r := score, Some(cs[i]);
          }
        }
      }
    }

    /** `cpool_get_oldest_idle`: of the whole pool, in whatever order the hash walks its bundles. */
    method OldestEvictable(now: int) returns (r: Option<Conn>)
      requires Valid()
      ensures r.None? <==> forall c :: c in live ==> !c.Evictable(now)
      ensures r.Some? ==> r.value in live && r.value.Evictable(now)
      ensures r.Some? ==> forall c :: c in live && c.Evictable(now) ==> r.value.lastUsed <= c.lastUsed
    {
      hide Indexed, Apart, Conn.Evictable;
      IndexedMembers(bundles, live);
      r := None;
      var todo := bundles.Keys;
      while todo != {}
        invariant todo <= bundles.Keys
        invariant r.Some? ==> r.value in live && r.value.Evictable(now)
        invariant forall d, c :: d in bundles && d !in todo && c in bundles[d] && c.Evictable(now) ==>
                    r.Some? && r.value.lastUsed <= c.lastUsed
        decreases todo
      {
        var dest :| dest in todo;
        r := OlderIn(bundles[dest], now, r);
        todo := todo - {dest};
      }
      forall c | c in live && c.Evictable(now)
        ensures r.Some? && r.value.lastUsed <= c.lastUsed
      {
        assert c in bundles[c.destination];
      }
    }

    /** Terminates the connection of a bundle that is idle for longest, if one is. */
    method EvictIdle(dest: string, now: int, ghost idle: map<Conn, int>) returns (gone: Option<Conn>)
      requires Valid() && AgesAre(Bundle(dest), now, idle)
      modifies this`bundles, this`live, this`numConn, this`shutdowns, this`freed, this`steps, live`inPool, live`aborted
      ensures Valid() && Known() == old(Known()) && AgesAre(Bundle(dest), now, idle)
      ensures gone.None? ==> live == old(live) && numConn == old(numConn) && shutdowns == old(shutdowns)
                             && bundles == old(bundles) && forall c :: c in Bundle(dest) ==> !c.Idle(now)
      ensures gone.Some? ==> gone.value in old(live) && live == old(live) - {gone.value} && numConn == old(numConn) - 1
      ensures gone.Some? ==> gone.value.destination == dest && gone.value.Idle(now)
      ensures gone.Some? ==> ShutDown(gone.value)
      ensures gone.Some? ==> shutdowns == ListAfter(old(shutdowns), numConn, gone.value, false, old(steps))
      ensures gone.Some? ==> forall c :: c in Bundle(dest) && c.Idle(now) ==> gone.value.lastUsed <= c.lastUsed
      ensures gone.Some? ==> var k := OldestAt(old(Bundle(dest)), idle);
                             k < |old(Bundle(dest))| && Bundle(dest) == Remove(old(Bundle(dest)), k)
      ensures forall d :: d != dest ==> Bundle(d) == old(Bundle(d))
      ensures Busy(Bundle(dest), now) == old(Busy(Bundle(dest), now))
      ensures InTotal() <= old(InTotal()) && forall d :: AtHost(d) <= old(AtHost(d))
    {
      hide Valid, ListAfter, StepsAfter, Lingers, Known, Busy, CountTo, OldestAt, AgesAre, Remove;
      BundleOnce(dest);
      ghost var at;
      gone, at := OldestIdle(dest, now);
      if gone.Some? {
        InBundle(dest, gone.value);
        ghost var bundle := Bundle(dest);
        AgesOldest(bundle, now, idle, at);
        var k := Terminate(gone.value, false);
        OncePlaced(bundle, at, k);
        BusyRemove(bundle, k, now);
        RemoveKeeps(bundle, k);
        AgesShrink(bundle, Bundle(dest), now, idle);
      }
    }

    /** One turn of the destination half of `Curl_cpool_check_limits`: the oldest connection in shutdown is
        closed, or, if there is none, the longest idle one is evicted; `stuck` if there is none either. */
    method CloseOne(dest: string, now: int, ghost idle: map<Conn, int>) returns (stuck: bool, ghost evicted: bool)
      requires Valid() && AgesAre(Bundle(dest), now, idle) && AtHost(dest) >= maxHost > 0
      modifies this`bundles, this`live, this`numConn, this`shutdowns, this`freed, this`steps, live`inPool, live`aborted
      ensures Valid() && Known() == old(Known()) && live <= old(live) && AgesAre(Bundle(dest), now, idle)
      ensures forall e :: e in old(live) && e !in live ==> ShutDown(e)
      ensures Busy(Bundle(dest), now) == old(Busy(Bundle(dest), now))
      ensures !evicted ==> Bundle(dest) == old(Bundle(dest))
      ensures evicted ==> var k := OldestAt(old(Bundle(dest)), idle);
                          && k < |old(Bundle(dest))| && Bundle(dest) == Remove(old(Bundle(dest)), k)
                          && |Bundle(dest)| >= maxHost - 1
      ensures forall d :: d != dest ==> Bundle(d) == old(Bundle(d))
      ensures stuck ==> CountTo(shutdowns, dest) == 0 && forall c :: c in Bundle(dest) ==> !c.Idle(now)
      ensures InTotal() <= old(InTotal()) && forall d :: AtHost(d) <= old(AtHost(d))
      ensures !stuck ==> 2 * numConn + |shutdowns| < old(2 * numConn + |shutdowns|)
    {
      hide Valid, ShutDown, ListAfter, Known, Busy, CountTo, OldestAt, AgesAre, For, WithoutOldest, Remove;
      hide Conn.Idle;
      stuck, evicted := false, false;
      if CountTo(shutdowns, dest) > 0 {
        var found := DestroyOldest(Some(dest));
      } else {
        var gone := EvictIdle(dest, now, idle);
        stuck, evicted := gone.None?, gone.Some?;
      }
    }

    /** The loop of the destination half of `Curl_cpool_check_limits`: closes connections in shutdown, then
        evicts idle ones, oldest first, until the destination is below its limit or nothing is left to
        close. `n` connections were evicted. */
    method CloseAtHost(dest: string, now: int, ghost idle: map<Conn, int>) returns (ghost n: nat)
      requires Valid() && maxHost > 0 && AgesAre(Bundle(dest), now, idle)
      modifies this`bundles, this`live, this`numConn, this`shutdowns, this`freed, this`steps, live`inPool, live`aborted
      ensures Valid() && Known() == old(Known()) && live <= old(live)
      ensures forall e :: e in old(live) && e !in live ==> ShutDown(e)
      ensures Busy(Bundle(dest), now) == old(Busy(Bundle(dest), now))
      ensures Bundle(dest) == Survivors(old(Bundle(dest)), idle, n) && n + |Bundle(dest)| == |old(Bundle(dest))|
      ensures n > 0 ==> |Bundle(dest)| >= maxHost - 1
      ensures forall d :: d != dest ==> Bundle(d) == old(Bundle(d))
      ensures AtHost(dest) >= maxHost ==>
                CountTo(shutdowns, dest) == 0 && forall c :: c in Bundle(dest) ==> !c.Idle(now)
      ensures InTotal() <= old(InTotal()) && forall d :: AtHost(d) <= old(AtHost(d))
    {
      hide Valid, ShutDown, ListAfter, Known, Busy, CountTo, OldestAt, Survivors, AgesAre, For, WithoutOldest, Remove;
      hide Conn.Idle;
      var stuck := false;
      n := 0;
      NoneEvicted(Bundle(dest), idle);
      while AtHost(dest) >= maxHost && !stuck
        invariant Valid() && Known() == old(Known()) && live <= old(live) && AgesAre(Bundle(dest), now, idle)
        invariant forall e :: e in old(live) && e !in live ==> ShutDown(e)
        invariant Busy(Bundle(dest), now) == old(Busy(Bundle(dest), now))
        invariant Bundle(dest) == Survivors(old(Bundle(dest)), idle, n) && n + |Bundle(dest)| == |old(Bundle(dest))|
        invariant n > 0 ==> |Bundle(dest)| >= maxHost - 1
        invariant forall d :: d != dest ==> Bundle(d) == old(Bundle(d))
        invariant stuck ==> CountTo(shutdowns, dest) == 0 && forall c :: c in Bundle(dest) ==> !c.Idle(now)
        invariant InTotal() <= old(InTotal()) && forall d :: AtHost(d) <= old(AtHost(d))
        decreases if stuck then 0 else 1, 2 * numConn + |shutdowns|
      {
        ghost var evicted;
        OneMore(old(Bundle(dest)), idle, n);
        stuck, evicted := CloseOne(dest, now, idle);
        n := n + if evicted then 1 else 0;
      }
    }

    /** The destination half of `Curl_cpool_check_limits`. What is left of the bundle are the survivors of
        as many evictions, oldest first, as the limit asks for. */
    method CheckDest(dest: string, now: int) returns (ok: bool)
      requires Valid() && maxHost > 0
      modifies this`bundles, this`live, this`numConn, this`shutdowns, this`freed, this`steps, live`inPool, live`aborted
      ensures Valid() && Known() == old(Known()) && live <= old(live)
      ensures forall e :: e in old(live) && e !in live ==> ShutDown(e)
      ensures forall c :: c in old(live) && c.InUse() ==> c in live
      ensures forall e :: e in old(live) && e !in live ==> e.destination == dest && e.Idle(now)
      ensures forall e, c :: e in old(live) && e !in live && c in Bundle(dest) && c.Idle(now) ==>
                e.lastUsed <= c.lastUsed
      ensures ok <==> AtHost(dest) < maxHost
      ensures ok <==> old(Busy(Bundle(dest), now)) < maxHost
      ensures forall d :: d != dest ==> Bundle(d) == old(Bundle(d))
      ensures ok ==> Bundle(dest) == old(Spared(dest, now))
      ensures ok ==>
                forall c :: c in live <==> c in old(live) && (c.destination == dest ==> c in old(Spared(dest, now)))
      ensures !ok ==> CountTo(shutdowns, dest) == 0 && forall c :: c in Bundle(dest) ==> !c.Idle(now)
      ensures InTotal() <= old(InTotal()) && forall d :: AtHost(d) <= old(AtHost(d))
    {
      hide Valid, Known, Busy, CountTo, OldestAt, Survivors, IdleSince, AgesAre;
      ghost var idle, before, was := IdleSince(Bundle(dest), now), bundles, live;
      AgesAtStart(Bundle(dest), now);
      ValidIndex();
      ghost var n := CloseAtHost(dest, now, idle);
      ok := AtHost(dest) < maxHost;
      ValidIndex();
      forall d | d != dest
        ensures Lookup(bundles, d) == Lookup(before, d)
      {
        assert Bundle(d) == old(Bundle(d));
      }
      Evicted(before, was, bundles, live, dest, now, idle, n);
    }

    lemma ValidIndex()
      requires Valid()
      ensures Indexed(bundles, live)
    {
    }

    /** What the destination half leaves in the bundle. */
    ghost function Spared(dest: string, now: int): seq<Conn>
      requires maxHost > 0
      reads this`bundles, Bundle(dest)`attached, Bundle(dest)`lastUsed
    {
      var bundle := Bundle(dest);
      Survivors(bundle, IdleSince(bundle, now), if |bundle| >= maxHost then |bundle| - maxHost + 1 else 0)
    }

    /** The connections of the pool that the total limit cannot evict. */
    ghost function Pinned(now: int): set<Conn>
      reads this`live, live`attached, live`lastUsed, live`close
    {
      set c | c in live && !c.Evictable(now)
    }

    lemma PinnedAreLive(now: int)
      requires Valid()
      ensures |Pinned(now)| <= |live| == numConn
      ensures (forall c :: c in live ==> !c.Evictable(now)) ==> |Pinned(now)| == numConn
    {
      FewerMembers(Pinned(now), live);
      if forall c :: c in live ==> !c.Evictable(now) {
        assert Pinned(now) == live;
      }
    }

    /** The connections of the pool that neither limit can evict, when the limits are checked for a new
        connection to a destination. */
    ghost function Stuck(dest: string, now: int): set<Conn>
      reads this`live, this`bundles, live`attached, live`lastUsed, live`close
      reads Bundle(dest)`attached, Bundle(dest)`lastUsed
    {
      set c | c in live && !c.Evictable(now) && (maxHost > 0 && c.destination == dest ==> c in Spared(dest, now))
    }

    /** Terminates the connection of the pool that was unused for longest, of those that may go. */
    method EvictOldest(now: int) returns (gone: Option<Conn>)
      requires Valid()
      modifies this`bundles, this`live, this`numConn, this`shutdowns, this`freed, this`steps, live`inPool, live`aborted
      ensures Valid() && Known() == old(Known())
      ensures gone.None? ==> live == old(live) && numConn == old(numConn) && shutdowns == old(shutdowns)
                             && forall c :: c in live ==> !c.Evictable(now)
      ensures gone.Some? ==> gone.value in old(live) && live == old(live) - {gone.value} && numConn == old(numConn) - 1
      ensures gone.Some? ==> gone.value.Evictable(now)
      ensures gone.Some? ==> ShutDown(gone.value)
      ensures gone.Some? ==> shutdowns == ListAfter(old(shutdowns), numConn, gone.value, false, old(steps))
      ensures gone.Some? ==> forall c :: c in live && c.Evictable(now) ==> gone.value.lastUsed <= c.lastUsed
      ensures InTotal() <= old(InTotal()) && forall d :: AtHost(d) <= old(AtHost(d))
    {
      hide Valid, ListAfter, StepsAfter, Lingers, Known, Bundle, CountTo;
      gone := OldestEvictable(now);
      if gone.Some? {
        Pooled(gone.value);
        var k := Terminate(gone.value, false);
      }
    }

    /** The total half of `Curl_cpool_check_limits`. */
    method CheckTotal(now: int) returns (ok: bool)
      requires Valid() && maxTotal > 0
      modifies this`bundles, this`live, this`numConn, this`shutdowns, this`freed, this`steps, live`inPool, live`aborted
      ensures Valid() && Known() == old(Known()) && live <= old(live)
      ensures forall e :: e in old(live) && e !in live ==> ShutDown(e)
      ensures forall c :: c in old(live) && c.InUse() ==> c in live
      ensures forall e :: e in old(live) && e !in live ==> e.Evictable(now)
      ensures forall e, c :: e in old(live) && e !in live && c in live && c.Evictable(now) ==> e.lastUsed <= c.lastUsed
      ensures ok <==> InTotal() < maxTotal
      ensures ok <==> |old(Pinned(now))| < maxTotal
      ensures !ok ==> shutdowns == [] && forall c :: c in live ==> !c.Evictable(now)
      ensures InTotal() <= old(InTotal()) && forall d :: AtHost(d) <= old(AtHost(d))
    {
      hide Valid, ListAfter, StepsAfter, Lingers, Known, Bundle, CountTo, For, WithoutOldest;
      var stuck := false;
      while InTotal() >= maxTotal && !stuck
        invariant Valid() && Known() == old(Known()) && live <= old(live)
        invariant forall e :: e in old(live) && e !in live ==> ShutDown(e)
        invariant forall c :: c in old(live) && c.InUse() ==> c in live
        invariant forall e :: e in old(live) && e !in live ==> e.Evictable(now)
        invariant forall e, c :: e in old(live) && e !in live && c in live && c.Evictable(now) ==>
                    e.lastUsed <= c.lastUsed
        invariant Pinned(now) == old(Pinned(now))
        invariant stuck ==> shutdowns == [] && forall c :: c in live ==> !c.Evictable(now)
        invariant InTotal() <= old(InTotal()) && forall d :: AtHost(d) <= old(AtHost(d))
        decreases if stuck then 0 else 1, 2 * numConn + |shutdowns|
      {
        if |shutdowns| > 0 {
          var found := DestroyOldest(None);
        } else {
          var gone := EvictOldest(now);
          stuck := gone.None?;
        }
      }
      PinnedAreLive(now);
      ok := InTotal() < maxTotal;
    }

    lemma Pooled(c: Conn)
      requires Valid() && c in live
      ensures c.inPool && numConn > 0
    {
    }

    /** `Curl_cpool_check_limits` */
    method CheckLimits(dest: string, now: int) returns (res: Limit)
      requires Valid()
      modifies this`bundles, this`live, this`numConn, this`shutdowns, this`freed, this`steps, live`inPool, live`aborted
      ensures Valid() && Known() == old(Known()) && live <= old(live)
      ensures forall e :: e in old(live) && e !in live ==> ShutDown(e)
      ensures forall c :: c in old(live) && c.InUse() ==> c in live
      ensures res == LimitOk ==> (maxHost > 0 ==> AtHost(dest) < maxHost) && (maxTotal > 0 ==> InTotal() < maxTotal)
      ensures res == LimitDest <==> maxHost > 0 && old(Busy(Bundle(dest), now)) >= maxHost
      ensures res == LimitDest ==> CountTo(shutdowns, dest) == 0 && forall c :: c in Bundle(dest) ==> !c.Idle(now)
      ensures res == LimitTotal && maxHost > 0 ==> AtHost(dest) < maxHost
      ensures res == LimitTotal ==> 0 < maxTotal <= InTotal() && shutdowns == [] && forall c :: c in live ==>
                !c.Evictable(now)
      ensures res == LimitTotal <==> !(maxHost > 0 && old(Busy(Bundle(dest), now)) >= maxHost)
                                     && 0 < maxTotal <= |old(Stuck(dest, now))|
      ensures InTotal() <= old(InTotal()) && forall d :: AtHost(d) <= old(AtHost(d))
    {
      hide Valid, Known, Bundle, Busy, CountTo, Spared;
      res := LimitOk;
      ghost var stuck := Stuck(dest, now);
      if maxHost > 0 {
        var ok := CheckDest(dest, now);
        if !ok {
          return LimitDest;
        }
      }
      assert Pinned(now) == stuck;
      if maxTotal > 0 {
        var ok := CheckTotal(now);
        if !ok {
          return LimitTotal;
        }
      }
    }

    /** `Curl_cpool_conn_now_idle`: `kept` is right about the connection, and what goes is the longest
        unused of those that may go. */
    method NowIdle(conn: Conn, now: int, maxConnects: nat, running: nat) returns (kept: bool, ghost gone: Option<Conn>)
      requires Valid() && conn in live
      modifies this`bundles, this`live, this`numConn, this`shutdowns, this`freed, this`steps
      modifies live`inPool, live`aborted, conn`lastUsed
      ensures Valid() && Known() == old(Known()) && conn.lastUsed == now
      ensures kept <==> conn in live
      ensures live == if gone.Some? then old(live) - {gone.value} else old(live)
      ensures gone.Some? ==> gone.value in old(live) && gone.value.Evictable(now)
      ensures gone.Some? ==> 0 < Cap(maxConnects, running) < old(numConn)
      ensures gone.Some? ==> ShutDown(gone.value)
      ensures gone.Some? ==> shutdowns == ListAfter(old(shutdowns), numConn, gone.value, false, old(steps))
      ensures gone.None? ==> shutdowns == old(shutdowns) && steps == old(steps)
      ensures gone.Some? ==> forall c :: c in live && c.Evictable(now) ==> gone.value.lastUsed <= c.lastUsed
      ensures gone.None? && 0 < Cap(maxConnects, running) < numConn ==> forall c :: c in live ==> !c.Evictable(now)
      ensures InTotal() <= old(InTotal()) && forall d :: AtHost(d) <= old(AtHost(d))
    {
      hide Indexed, Apart, All, Bundle, CountTo, Cap;
      var cap := Cap(maxConnects, running);
      kept, gone := true, None;
      conn.lastUsed := now;
      if cap > 0 && numConn > cap {
        var idle := OldestEvictable(now);
        kept := idle != Some(conn);
        if idle.Some? {
          gone := idle;
          Pooled(idle.value);
          var k := Terminate(idle.value, false);
        }
      }
    }

    /** `cpool_mark_stale` for every connection of the pool. */
    method MarkStale()
      requires Valid()
      modifies live`noReuse
      ensures forall c :: c in live ==> c.noReuse
    {
      var todo := bundles.Keys;
      while todo != {}
        invariant todo <= bundles.Keys
        invariant forall d, c :: d in bundles && d !in todo && c in bundles[d] ==> c.noReuse
        decreases todo
      {
        var dest :| dest in todo;
        var cs := bundles[dest];
        for i := 0 to |cs|
          invariant forall d, c :: d in bundles && d !in todo && c in bundles[d] ==> c.noReuse
          invariant forall j :: 0 <= j < i ==> cs[j].noReuse
        {
          cs[i].noReuse := true;
        }
        todo := todo - {dest};
      }
      forall c | c in live
        ensures c.noReuse
      {
        assert c in Lookup(bundles, c.destination);
      }
    }

    /** The first idle connection of a bundle that must not be reused. */
    method StaleIn(cs: seq<Conn>) returns (r: Option<Conn>)
      ensures r.Some? ==> r.value in cs && !r.value.InUse() && r.value.noReuse
      ensures r.None? ==> forall c :: c in cs ==> c.InUse() || !c.noReuse
    {
      var i := 0;
      while i < |cs| && (cs[i].InUse() || !cs[i].noReuse)
        invariant i <= |cs| && forall j :: 0 <= j < i ==> cs[j].InUse() || !cs[j].noReuse
      {
        i := i + 1;
      }
      r := if i < |cs| then Some(cs[i]) else None;
    }

    /** The first idle connection of the walk that must not be reused. */
    method FindStale() returns (r: Option<Conn>)
      requires Valid()
      ensures r.Some? ==> r.value in live && !r.value.InUse() && r.value.noReuse
      ensures r.None? ==> forall c :: c in live ==> c.InUse() || !c.noReuse
    {
      hide Indexed, Apart, Conn.InUse;
      IndexedMembers(bundles, live);
      r := None;
      var todo := bundles.Keys;
      while todo != {} && r.None?
        invariant todo <= bundles.Keys
        invariant r.Some? ==> r.value in live && !r.value.InUse() && r.value.noReuse
        invariant r.None? ==> forall d, c :: d in bundles && d !in todo && c in bundles[d] ==> c.InUse() || !c.noReuse
        decreases todo
      {
        var dest :| dest in todo;
        r := StaleIn(bundles[dest]);
        todo := todo - {dest};
      }
      if r.None? {
        forall c | c in live
          ensures c.InUse() || !c.noReuse
        {
          assert c in bundles[c.destination];
        }
      }
    }

    /** `Curl_cpool_nw_changed`: exactly the connections in use survive, and none of them is reused. */
    method NetworkChanged() returns (ghost order: seq<Conn>)
      requires Valid()
      modifies this`bundles, this`live, this`numConn, this`shutdowns, this`freed, this`steps
      modifies live`inPool, live`aborted, live`noReuse
      ensures Valid() && Known() == old(Known())
      ensures forall e :: e in old(live) && e !in live ==> ShutDown(e)
      ensures live == set c | c in old(live) && c.InUse()
      ensures NoRepeats(order) && (forall c :: c in order <==> c in old(live) && !c.InUse())
      ensures shutdowns == ListAfterAll(old(shutdowns), old(numConn), order, old(steps))
      ensures forall c :: c in live ==> c.noReuse
      ensures InTotal() <= old(InTotal()) && forall d :: AtHost(d) <= old(AtHost(d))
    {
      hide Valid, ListAfterAll, StepsAfterAll, ListAfter, StepsAfter, Lingers, Known, Bundle, CountTo;
      MarkStale();
      var more := true;
      order := [];
      NoneAfter(shutdowns, numConn, steps);
      while more
        invariant Valid() && Known() == old(Known()) && live <= old(live)
        invariant forall e :: e in old(live) && e !in live ==> ShutDown(e)
        invariant NoRepeats(order) && (forall c :: c in order <==> c in old(live) && c !in live)
        invariant forall c :: c in order ==> !c.InUse()
        invariant numConn + |order| == old(numConn)
        invariant shutdowns == ListAfterAll(old(shutdowns), old(numConn), order, old(steps))
        invariant steps == StepsAfterAll(order, old(steps))
        invariant forall c :: c in live ==> c.noReuse
        invariant forall c :: c in old(live) && c.InUse() ==> c in live
        invariant !more ==> forall c :: c in live ==> c.InUse()
        invariant InTotal() <= old(InTotal()) && forall d :: AtHost(d) <= old(AtHost(d))
        decreases if more then 1 else 0, numConn
      {
        var stale := FindStale();
        if stale.Some? {
          Pooled(stale.value);
          AllAfterSnoc(old(shutdowns), old(numConn), order, stale.value, old(steps));
          var k := Terminate(stale.value, false);
          order := order + [stale.value];
        } else {
          more := false;
        }
      }
    }

    /** `cshutdn_perform`: one attempt for each connection in shutdown; those that are done are freed,
        the others stay in order. */
    method Perform()
      requires Valid()
      modifies this`shutdowns, this`freed, this`steps
      ensures Valid() && Known() == old(Known())
      ensures shutdowns == Undone(old(shutdowns), outcomes, old(steps))
      ensures InTotal() <= old(InTotal()) && forall d :: AtHost(d) <= old(AtHost(d))
    {
      hide Valid, Known, Bundle, CountTo, Remove, Undone;
      var i := 0;
      ghost var kept, rest: seq<Conn> := [], shutdowns;
      assert [] + shutdowns == shutdowns;
      assert [] + Undone(rest, outcomes, steps) == Undone(rest, outcomes, steps);
      while i < |shutdowns|
        invariant shutdowns == kept + rest && i == |kept|
        invariant kept + Undone(rest, outcomes, steps) == old(Undone(shutdowns, outcomes, steps))
        invariant Valid() && Known() == old(Known())
        invariant InTotal() <= old(InTotal()) && forall d :: AtHost(d) <= old(AtHost(d))
        decreases |shutdowns| - i
      {
        UndoneStep(kept, rest, outcomes, steps);
        HeadOfRest(kept, rest);
        if outcomes(steps).done {
          CloseAt(i);
        } else {
          i, kept := i + 1, kept + [rest[0]];
        }
        rest := rest[1..];
        steps := steps + 1;
      }
      NoneUndone(outcomes, steps);
      assert rest == [] && kept + [] == kept;
    }
  }
}
