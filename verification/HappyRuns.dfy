/** Whole races: any number of passes, with DNS results coming in between. */
module HappyRuns {
  import opened Common
  import opened HappyOrder
  import opened HappyAttempts
  import opened HappyEyeballs

  /** DNS results that came in before a pass. */
  datatype Event = Event(more6: nat, more4: nat, done: bool)

  /** What `Ordered` means for the addresses tried: each is from the lists and is tried once, in the
      order of the lists; and together they are a beginning of the interleaved lists, unless an attempt
      was started before DNS was complete. */
  lemma TriedInOrder(bs: Ballers, i: nat, j: nat)
    requires bs.Ordered() && i < j < |bs.tried|
    ensures bs.tried[i].family != bs.tried[j].family || bs.tried[i].index < bs.tried[j].index
    ensures Listed(bs.tried[i], bs.v6, bs.v4) && |bs.tried| <= |bs.v6| + |bs.v4|
    ensures !bs.early ==> Addresses(bs.tried) == Interleave(bs.v6, bs.v4)[..|bs.tried|]
  {
    hide InListOrder, Interleave, Addresses, Alternating;
    TriedOnce(bs.tried, i, j);
  }

  /** DNS was done before the first pass. */
  predicate ResolvedFirst(resolved: bool, events: seq<Event>) {
    resolved || (events != [] && events[0].done)
  }

  /** What a pass starts from and leaves: the attempts, whether there are more addresses, when the last
      attempt was started, and how many addresses were tried. */
  datatype Look = Look(running: seq<Attempt>, more: bool, lastStarted: int, step: nat, dnsResolved: bool, tried: nat)

  ghost function LookOf(bs: Ballers): Look
    reads bs
  {
    Look(bs.running, bs.HasMore(), bs.lastStarted, bs.step, bs.dnsResolved, |bs.tried|)
  }

  /** A pass and what it leaves. */
  datatype Trip = Trip(before: Look, verdict: Verdict, after: Look)

  /** When a pass wins, starts or restarts an attempt, or gives up: exactly when it is time to. */
  ghost predicate IsTrip(bs: Ballers, trip: Trip) {
    var a, v, b := trip.before, trip.verdict, trip.after;
    var polled := Polled(a.running, bs.env, a.step);
    var elapsed := bs.env(a.step + |a.running|).now - a.lastStarted;
    && (v.Won? <==> AnyConnected(polled))
    && (!v.Won? ==>
          && (v.Started? || v.Restarted? || NotCreated(v) <==>
                TimeToStart(polled, a.more, elapsed, bs.delay) || TimeToRestart(polled, a.more, elapsed, bs.delay))
          && (v.Started? ==> TimeToStart(polled, a.more, elapsed, bs.delay) && b.tried == a.tried + 1)
          && (v.Restarted? ==> TimeToRestart(polled, a.more, elapsed, bs.delay))
          && (v.Failed? && v.cause.Exhausted? <==> NothingLeft(polled, a.more, a.dnsResolved))
          && (v.Wait? || v.Due? ==> b.running == polled && b.lastStarted == a.lastStarted && b.tried == a.tried))
  }

  /** What DNS does between two passes leaves the attempts alone. */
  predicate Follows(first: Look, second: Look) {
    && second.running == first.running && second.lastStarted == first.lastStarted
    && second.step == first.step && second.tried == first.tried
  }

  /** The passes of a race, one after the other; only the last one may end it. */
  ghost predicate IsTravel(bs: Ballers, trips: seq<Trip>) {
    trips == [] ||
    (var n := |trips| - 1;
     && IsTravel(bs, trips[..n]) && IsTrip(bs, trips[n])
     && (n > 0 ==> Follows(trips[n - 1].after, trips[n].before) && !Ends(trips[n - 1].verdict)))
  }

  predicate Ends(v: Verdict) {
    v.Won? || v.Failed?
  }

  lemma NoTrips(bs: Ballers)
    ensures IsTravel(bs, [])
  {
  }

  lemma TravelSnoc(bs: Ballers, trips: seq<Trip>, trip: Trip)
    requires IsTravel(bs, trips) && IsTrip(bs, trip)
    requires trips != [] ==> Follows(trips[|trips| - 1].after, trip.before) && !Ends(trips[|trips| - 1].verdict)
    ensures IsTravel(bs, trips + [trip])
  {
    assert (trips + [trip])[..|trips|] == trips;
  }

  /** As long as there are addresses, no attempt connects or fails to be created, and the delay is over at
      each pass, each pass tries one more address. */
  lemma {:induction false} EachPassTriesOne(bs: Ballers, trips: seq<Trip>)
    requires IsTravel(bs, trips) && trips != []
    requires forall k :: 0 <= k < |trips| ==>
               && !Ends(trips[k].verdict) && trips[k].before.more
               && bs.env(trips[k].before.step + |trips[k].before.running|).now - trips[k].before.lastStarted >= bs.delay
    ensures trips[|trips| - 1].after.tried == trips[0].before.tried + |trips|
  {
    hide Polled, AnyConnected, Tally;
    var n := |trips| - 1;
    assert IsTrip(bs, trips[n]);
    if n > 0 {
      EachPassTriesOne(bs, trips[..n]);
      assert Follows(trips[n - 1].after, trips[n].before);
    }
  }

  /** DNS results, and then one pass. */
  method OnePass(bs: Ballers, event: Event) returns (v: Verdict, ghost trip: Trip)
    requires bs.Valid() && bs.installed.None? && bs.winner.None?
    modifies bs
    ensures bs.Accounted() && bs.Ordered() && bs.Limited() && Paced(bs.starts, bs.delay) && bs.installed.None?
    ensures (!v.Failed? ==> bs.Valid()) && (v.Won? <==> bs.winner.Some?)
    ensures (old(bs.dnsResolved) || event.done ==> bs.dnsResolved) && (bs.dnsResolved ==> bs.early == old(bs.early))
    ensures v.Failed? && v.cause.Exhausted? ==>
              && bs.dnsResolved && |bs.tried| == |bs.v6| + |bs.v4| && v.error == LastError(bs.running)
              && Tally(bs.running, IsOngoing) == 0 && Tally(bs.running, IsInconclusive) == 0
    ensures trip.verdict == v && trip.after == LookOf(bs) && Follows(old(LookOf(bs)), trip.before) && IsTrip(bs, trip)
  {
    hide Ballers.Accounted, Ballers.Limited, Ballers.Clean, Ballers.Ordered, Ballers.Timed, Ballers.Monotone;
    hide Tally, LastError, Polled, Paced, TimeToStart, TimeToRestart, NothingLeft, AnyConnected;
    bs.Resolve(event.more6, event.more4, event.done);
    ghost var before := LookOf(bs);
    v := bs.Pass();
    trip := Trip(before, v, LookOf(bs));
  }

  /** The passes up to the first that ends the race. However it ends or goes on, no more than the limit of
      attempts are ongoing, and they were started at the pace of section 5 of RFC 8305; when the host is
      given up, all addresses were tried, and no attempt is ongoing or inconclusive. */
  method Passes(bs: Ballers, events: seq<Event>) returns (end: Verdict, ghost trips: seq<Trip>)
    requires bs.Valid() && bs.winner.None? && bs.installed.None?
    modifies bs
    ensures bs.Accounted() && bs.Ordered() && bs.Limited() && Paced(bs.starts, bs.delay) && bs.installed.None?
    ensures (!end.Failed? ==> bs.Valid()) && (end.Won? <==> bs.winner.Some?)
    ensures end.Failed? && end.cause.Exhausted? ==>
              && bs.dnsResolved && |bs.tried| == |bs.v6| + |bs.v4| && end.error == LastError(bs.running)
              && Tally(bs.running, IsOngoing) == 0 && Tally(bs.running, IsInconclusive) == 0
    ensures old(!bs.early && ResolvedFirst(bs.dnsResolved, events)) ==> !bs.early
    ensures |trips| <= |events| && (|trips| < |events| ==> end.Won? || end.Failed?)
    ensures IsTravel(bs, trips) && end == if trips == [] then Wait else trips[|trips| - 1].verdict
    ensures trips != [] ==> trips[|trips| - 1].after == LookOf(bs)
  {
    hide Ballers.Accounted, Ballers.Limited, Ballers.Clean, Ballers.Ordered, Ballers.Timed, Ballers.Monotone;
    hide Tally, LastError, Polled, Paced, IsTrip, IsTravel, LookOf, Follows;
    bs.TimedIsPaced();
    end, trips := Wait, [];
    assert IsTravel(bs, []) by {
      NoTrips(bs);
    }
    var i := 0;
    while i < |events| && !end.Won? && !end.Failed?
      invariant 0 <= i <= |events| && bs.installed.None? && bs.Ordered() && bs.Accounted() && bs.Limited()
      invariant Paced(bs.starts, bs.delay) && (end.Won? <==> bs.winner.Some?)
      invariant |trips| == i && IsTravel(bs, trips) && end == if i == 0 then Wait else trips[i - 1].verdict
      invariant i > 0 ==> trips[i - 1].after == LookOf(bs)
      invariant !end.Failed? ==> bs.Valid()
      invariant end.Failed? && end.cause.Exhausted? ==>
                  && bs.dnsResolved && |bs.tried| == |bs.v6| + |bs.v4| && end.error == LastError(bs.running)
                  && Tally(bs.running, IsOngoing) == 0 && Tally(bs.running, IsInconclusive) == 0
      invariant old(ResolvedFirst(bs.dnsResolved, events)) ==>
                  bs.early == old(bs.early) && (i > 0 || old(bs.dnsResolved) ==> bs.dnsResolved)
    {
      ghost var trip;
      end, trip := OnePass(bs, events[i]);
      TravelSnoc(bs, trips, trip);
      trips, i := trips + [trip], i + 1;
    }
  }

  /** A whole race: after the passes the winner is installed, or, after a failure, all is cleared. Either
      way every filter but an installed one was freed exactly once. */
  method Race(bs: Ballers, events: seq<Event>) returns (end: Verdict, ghost trips: seq<Trip>)
    requires bs.Valid() && bs.winner.None? && bs.installed.None?
    modifies bs
    ensures end.Won? ==> bs.installed.Some? && bs.installed.value < bs.created
    ensures end.Won? ==> forall id: nat :: bs.freed[id] == if id < bs.created && id != bs.installed.value then 1 else 0
    ensures end.Failed? ==> bs.installed.None? && forall id: nat :: bs.freed[id] == if id < bs.created then 1 else 0
    ensures end.Failed? && end.cause.Exhausted? ==> bs.dnsResolved && |bs.tried| == |bs.v6| + |bs.v4|
    ensures !end.Failed? ==> bs.Valid()
    ensures bs.Ordered() && Paced(bs.starts, bs.delay)
    ensures old(!bs.early && ResolvedFirst(bs.dnsResolved, events)) ==> !bs.early
    ensures |trips| <= |events| && (|trips| < |events| ==> end.Won? || end.Failed?)
    ensures IsTravel(bs, trips) && end == if trips == [] then Wait else trips[|trips| - 1].verdict
  {
    hide Ballers.Accounted, Ballers.Limited, Ballers.Clean, Ballers.Ordered, Ballers.Timed, Ballers.Monotone;
    hide Tally, LastError, Polled, Paced, IsTrip, IsTravel;
    end, trips := Passes(bs, events);
    if end.Won? {
      bs.Install();
    } else if end.Failed? {
      bs.Clear();
    }
  }
}
