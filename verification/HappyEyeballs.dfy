/** The Happy Eyeballs connect filter: attempts raced against each other until one connects. */
module HappyEyeballs {
  import opened Common
  import opened HappyOrder
  import opened HappyAttempts

  class Ballers {
    /** The addresses of the host; DNS may make them known little by little. */
    const v6: seq<string>
    const v4: seq<string>
    const delay: int
    const maxConcurrent: nat
    const env: nat -> Answer
    var step: nat

    var shown6: nat
    var shown4: nat
    var dnsResolved: bool

    var running: seq<Attempt>
    var winner: Option<Attempt>
    var installed: Option<nat>
    var n6: nat
    var n4: nat
    var lastFamily: Family
    var lastStarted: int

    /** Filters created, filters freed, the addresses tried with the family of the last one, when the
        attempts started, and whether one was started before DNS was complete. */
    var created: nat
    ghost var freed: multiset<nat>
    ghost var tried: seq<Try>
    ghost var turn: Family
    ghost var starts: seq<Start>
    ghost var early: bool

    ghost predicate Accounted()
      reads this`running, this`winner, this`installed, this`freed, this`created
    {
      Accounts(running, winner, installed, freed, created)
    }

    /** At most `maxConcurrent` attempts are ongoing, if there is a limit. */
    ghost predicate Limited()
      reads this`running
    {
      maxConcurrent > 0 ==> Tally(running, IsOngoing) <= maxConcurrent
    }

    ghost predicate Clean()
      reads this`running, this`winner, this`installed
    {
      && AllSane(running)
      && (winner.Some? ==> running == [] && winner.value.connected && winner.value.cf.Some? && installed.None?)
      && (installed.Some? ==> running == [])
    }

    ghost predicate Ordered()
      reads this`shown6, this`shown4, this`dnsResolved, this`n6, this`n4, this`turn, this`tried, this`early
    {
      && n6 <= shown6 <= |v6| && n4 <= shown4 <= |v4|
      && (dnsResolved ==> shown6 == |v6| && shown4 == |v4|)
      && InOrder(v6, v4, n6, n4, turn, tried, early)
    }

    ghost predicate Timed()
      reads this`step, this`lastStarted, this`starts
    {
      && Paced(starts, delay)
      && (starts != [] ==> starts[|starts| - 1].at <= lastStarted)
      && (starts != [] ==> forall j: nat :: step <= j ==> lastStarted <= env(j).now)
    }

    /** The clock does not go backwards. */
    ghost predicate Monotone() {
      forall i: nat, j: nat :: i <= j ==> env(i).now <= env(j).now
    }

    ghost predicate Valid()
      reads this
    {
      && Accounted() && Limited() && Clean() && Ordered() && Timed() && Monotone()
      && |starts| == |tried| && lastFamily == turn
    }

    constructor (v6: seq<string>, v4: seq<string>, delay: int, maxConcurrent: nat, env: nat -> Answer)
      requires forall i: nat, j: nat :: i <= j ==> env(i).now <= env(j).now
      ensures Valid() && running == [] && winner.None? && installed.None? && tried == [] && created == 0
      ensures this.v6 == v6 && this.v4 == v4 && this.delay == delay && this.maxConcurrent == maxConcurrent
    {
      this.v6, this.v4, this.delay, this.maxConcurrent, this.env := v6, v4, delay, maxConcurrent, env;
      step, shown6, shown4, dnsResolved := 0, 0, 0, false;
      running, winner, installed, n6, n4, lastFamily, lastStarted := [], None, None, 0, 0, V4, 0;
      created, freed, tried, turn, starts, early := 0, multiset{}, [], V4, [], false;
    }

    method DropAt(i: nat)
      requires Accounted() && i < |running|
      modifies this`running, this`freed
      ensures Accounted() && running == old(running[..i] + running[i + 1..])
    {
      hide Accounts;
      AccountsDrop(running, i, winner, installed, freed, created);
      freed := freed + Filters(running[i]);
      running := running[..i] + running[i + 1..];
    }

    /** Frees every running attempt, as `cf_ip_ballers_clear` and the loop for a winner do. */
    method FreeRunning()
      requires Accounted()
      modifies this`running, this`freed
      ensures Accounted() && running == []
    {
      hide Accounted;
      while running != []
        invariant Accounted()
      {
        DropAt(0);
      }
    }

    /** `cf_ip_attempt_connect` of one attempt of the list. */
    method ConnectAttempt(i: nat)
      requires Accounted() && i < |running| && Sane(running[i])
      modifies this`running, this`freed, this`step
      ensures Accounted() && step == old(step) + 1
      ensures running == old(running)[i := Advance(old(running)[i], env(old(step)).connect)]
    {
      hide Accounts;
      var a := running[i];
      if a.result.None? && !a.connected {
        match env(step).connect
        case Pending =>
        case Connected =>
          a := a.(connected := true);
        case Broken(e) =>
          a := a.(result := Some(e), inconclusive := e == WeirdServerReply, cf := None);
          freed := freed + Filters(running[i]);
      }
      AccountsUpdate(running, i, a, winner, installed, old(freed), created);
      step := step + 1;
      running := running[i := a];
    }

    /** The first attempt found connected wins; all others are freed. */
    method Win(i: nat)
      requires Accounted() && winner.None? && i < |running|
      modifies this`running, this`freed, this`winner
      ensures Accounted() && running == [] && winner == Some(old(running)[i])
    {
      hide Accounts;
      AccountsDrop(running, i, winner, installed, freed, created);
      winner := Some(running[i]);
      running := running[..i] + running[i + 1..];
      FreeRunning();
    }

    /** Advances attempt `i`, the ones before it being advanced already. */
    method PollOne(i: nat, ghost start: seq<Attempt>, ghost first: nat) returns (a: Attempt)
      requires Accounted() && AllSane(running)
      requires i < |start| && running == PolledUpTo(start, env, first, i) && step == first + i
      modifies this`running, this`freed, this`step
      ensures Accounted() && AllSane(running)
      ensures running == PolledUpTo(start, env, first, i + 1) && step == first + i + 1
      ensures a == Polled(start, env, first)[i] && Sane(a)
    {
      hide Accounted, AllSane, Advance, Polled, PolledUpTo;
      Progress(start, env, first, i);
      PolledAt(start, env, first, i);
      SaneAt(running, i);
      SaneUpdate(running, i, Advance(running[i], env(step).connect));
      ConnectAttempt(i);
      a := running[i];
    }

    /** The loop at `evaluate:`, up to the first attempt that is connected, which is number `at`. */
    method Poll() returns (at: nat, ongoing: nat, inconclusive: nat)
      requires Accounted() && AllSane(running)
      modifies this`running, this`freed, this`step
      ensures Accounted() && AllSane(running) && step >= old(step) && at <= |running| == |old(running)|
      ensures forall j :: 0 <= j < at ==> !Polled(old(running), env, old(step))[j].connected
      ensures at < |running| ==> running[at].connected && running[at] == Polled(old(running), env, old(step))[at]
      ensures at == |running| ==> running == Polled(old(running), env, old(step)) && step == old(step) + at
      ensures at == |running| ==> ongoing == Tally(running, IsOngoing) && inconclusive == Tally(running, IsInconclusive)
    {
      hide Accounted, AllSane, Tally, Polled, PolledUpTo;
      ghost var start, polled := running, Polled(running, env, step);
      var won := false;
      ongoing, inconclusive, at := 0, 0, 0;
      TallyNext(polled, 0, IsOngoing);
      TallyNext(polled, 0, IsInconclusive);
      Progress(start, env, step, 0);
      while at < |running| && !won
        invariant Accounted() && AllSane(running) && at <= |running| == |polled|
        invariant step >= old(step) && (!won ==> step == old(step) + at)
        invariant won ==> at < |running| && running[at] == polled[at] && polled[at].connected
        invariant !won ==> running == PolledUpTo(start, env, old(step), at)
        invariant forall j :: 0 <= j < at ==> !polled[j].connected
        invariant ongoing == Tally(polled[..at], IsOngoing) && inconclusive == Tally(polled[..at], IsInconclusive)
        decreases !won, |running| - at
      {
        TallyNext(polled, at, IsOngoing);
        TallyNext(polled, at, IsInconclusive);
        Progress(start, env, old(step), at);
        var a := PollOne(at, start, old(step));
        if a.connected {
          won := true;
        } else {
          if a.result.None? {
            ongoing := ongoing + 1;
          } else if a.inconclusive {
            inconclusive := inconclusive + 1;
          }
          at := at + 1;
        }
      }
      if at == |running| {
        Progress(start, env, old(step), at);
        assert polled[..at] == polled;
      }
    }

    /** Polls the running attempts and lets the first connected one win. */
    method CheckRunning() returns (won: bool, ongoing: nat, inconclusive: nat)
      requires Accounted() && Limited() && Clean() && winner.None? && installed.None? && Timed() && Monotone()
      modifies this`running, this`freed, this`step, this`winner
      ensures Accounted() && Limited() && Clean() && Timed() && step >= old(step)
      ensures won <==> AnyConnected(Polled(old(running), env, old(step)))
      ensures won ==>
                running == [] && winner.Some? && FirstConnected(Polled(old(running), env, old(step)), winner.value)
      ensures !won ==> running == Polled(old(running), env, old(step)) && winner.None?
      ensures !won ==> step == old(step) + |old(running)|
      ensures !won ==> ongoing == Tally(running, IsOngoing) && inconclusive == Tally(running, IsInconclusive)
    {
      hide Accounted, Tally, Polled, IsOngoing, IsInconclusive;
      PolledOngoing(running, env, step);
      ghost var polled := Polled(running, env, step);
      var at: nat;
      at, ongoing, inconclusive := Poll();
      won := at < |running|;
      if won {
        assert polled[at].connected;
        Win(at);
        TallyLast(running, IsOngoing);
      }
    }

    predicate HasMore()
      reads this`shown6, this`shown4, this`n6, this`n4
    {
      n4 < shown4 || n6 < shown6
    }

    method CountOngoing() returns (ongoing: nat)
      ensures ongoing == Tally(running, IsOngoing)
    {
      hide Tally, IsOngoing;
      ongoing := 0;
      TallyNext(running, 0, IsOngoing);
      for j := 0 to |running|
        invariant ongoing == Tally(running[..j], IsOngoing)
      {
        TallyNext(running, j, IsOngoing);
        if IsOngoing(running[j]) {
          ongoing := ongoing + 1;
        }
      }
      assert running[..|running|] == running;
    }

    /** `cf_ip_ballers_prune`: discards ongoing attempts, the oldest first. */
    method Prune(limit: nat)
      requires Accounted() && AllSane(running)
      modifies this`running, this`freed
      ensures Accounted() && AllSane(running) && Tally(running, IsOngoing) <= limit
      ensures running == DropOngoing(old(running), Less(old(Tally(running, IsOngoing)), limit))
    {
      hide Accounted, Tally, DropOngoing, IsOngoing, AllSane;
      var ongoing := CountOngoing();
      ghost var excess := Less(ongoing, limit);
      DropOngoingTally(running, excess);
      DropSane(running, excess);
      ghost var kept, rest: seq<Attempt> := [], running;
      ghost var result := DropOngoing(running, excess);
      assert [] + result == result && [] + rest == rest;
      var i := 0;
      while i < |running| && ongoing > limit
        invariant Accounted() && running == kept + rest && i == |kept| && ongoing >= 0
        invariant kept + DropOngoing(rest, Less(ongoing, limit)) == result
        decreases |running| - i
      {
        DropOngoingStep(kept, rest, ongoing - limit);
        if IsOngoing(running[i]) {
          DropAt(i);
          ongoing := ongoing - 1;
        } else {
          kept, i := kept + [rest[0]], i + 1;
        }
        rest := rest[1..];
      }
      DropNone(rest, Less(ongoing, limit));
    }

    /** The next address of the other family than the last one, if there is one, or else of the same. */
    ghost predicate IsNext(t: Try)
      reads this`shown6, this`shown4, this`n6, this`n4, this`turn
    {
      if n6 < shown6 <= |v6| && (turn == V4 || n4 == shown4) then t == Try(V6, n6, v6[n6])
      else n4 < shown4 <= |v4| && t == Try(V4, n4, v4[n4])
    }

    method NextAddress() returns (t: Option<Try>)
      requires n6 <= shown6 <= |v6| && n4 <= shown4 <= |v4| && lastFamily == turn
      ensures t.Some? <==> HasMore()
      ensures t.Some? ==> IsNext(t.value)
    {
      t := None;
      if lastFamily == V4 || !(n4 < shown4) {
        if n6 < shown6 {
          t := Some(Try(V6, n6, v6[n6]));
        }
      }
      if t.None? && n4 < shown4 {
        t := Some(Try(V4, n4, v4[n4]));
      }
    }

    /** Moves the iterators past the next address. */
    method TakeAddress() returns (t: Option<Try>)
      requires Ordered() && lastFamily == turn
      modifies this`n6, this`n4, this`tried, this`turn, this`early
      ensures Ordered()
      ensures t.None? <==> !old(HasMore())
      ensures dnsResolved ==> early == old(early)
      ensures t.None? ==> tried == old(tried) && turn == old(turn) && n6 == old(n6) && n4 == old(n4)
      ensures t.Some? ==> old(IsNext(t.value)) && tried == old(tried) + [t.value] && turn == t.value.family
    {
      hide InOrder;
      t := NextAddress();
      if t.Some? {
        early := early || shown6 < |v6| || shown4 < |v4|;
        InOrderSnoc(v6, v4, n6, n4, turn, tried, old(early), t.value, early);
        tried, turn := tried + [t.value], t.value.family;
        if t.value.family == V6 {
          n6 := n6 + 1;
        } else {
          n4 := n4 + 1;
        }
      }
    }

    /** `cf_ip_attempt_new`, at the end of the list. */
    method Create(t: Try) returns (error: Option<Error>)
      requires Accounted() && AllSane(running)
      modifies this`running, this`created, this`step
      ensures Accounted() && AllSane(running) && step == old(step) + 1 && error == env(old(step)).create
      ensures running == if error.Some? then old(running) else old(running) + [New(t, old(created))]
      ensures Tally(running, IsOngoing) == old(Tally(running, IsOngoing)) + if error.Some? then 0 else 1
    {
      hide Accounts, Tally;
      error := env(step).create;
      step := step + 1;
      if error.None? {
        var a := New(t, created);
        AccountsAppend(running, a, winner, installed, freed, created);
        TallyLast(running + [a], IsOngoing);
        assert (running + [a])[..|running|] == running;
        running := running + [a];
        created := created + 1;
      }
    }

    /** Makes room and starts an attempt at an address; `alone` says that no other one is ongoing. */
    method Launch(t: Try, ghost alone: bool) returns (error: Option<Error>)
      requires Accounted() && Limited() && AllSane(running) && Timed() && Monotone()
      requires alone || forall j: nat :: step <= j ==> env(j).now - lastStarted >= delay
      modifies this`running, this`freed, this`created, this`step, this`lastStarted, this`lastFamily, this`starts
      ensures Accounted() && Limited() && AllSane(running) && step > old(step)
      ensures error == env(old(step)).create
      ensures error.None? ==> Timed() && lastFamily == t.family && |starts| == |old(starts)| + 1
      ensures error.Some? ==> starts == old(starts)
      ensures error.None? ==> running == MadeRoom(old(running), maxConcurrent) + [New(t, old(created))]
    {
      hide Accounted, AllSane, Tally, DropOngoing, Less;
      if maxConcurrent > 0 {
        Prune(maxConcurrent - 1);
      }
      error := Create(t);
      if error.None? {
        lastStarted := env(step).now;
        starts := starts + [Start(lastStarted, alone)];
        step := step + 1;
        lastFamily := t.family;
      }
    }

    method FindInconclusive() returns (i: nat)
      requires Tally(running, IsInconclusive) > 0
      ensures i < |running| && running[i].inconclusive && forall j :: 0 <= j < i ==> !running[j].inconclusive
    {
      i := 0;
      while !running[i].inconclusive
        invariant i < |running| && forall j :: 0 <= j < i ==> !running[j].inconclusive
        decreases |running| - i
      {
        i := i + 1;
      }
    }

    /** A new filter for attempt `i`, if one can be created; either way its last error is forgotten. */
    method Renew(i: nat) returns (error: Option<Error>)
      requires Accounted() && AllSane(running)
      requires i < |running| && running[i].inconclusive && Tally(running, IsOngoing) == 0
      modifies this`running, this`created, this`step
      ensures Accounted() && Limited() && step == old(step) + 1 && error == env(old(step)).create
      ensures running == old(running)[i := Renewed(old(running)[i], if error.Some? then None else Some(old(created)))]
      ensures error.None? ==> AllSane(running) && Tally(running, IsOngoing) == 1
    {
      hide Accounts, Tally, AllSane;
      SaneAt(running, i);
      error := env(step).create;
      step := step + 1;
      var a := Renewed(running[i], if error.Some? then None else Some(created));
      AccountsUpdate(running, i, a, winner, installed, freed, created);
      TallyUpdate(running, i, a, IsOngoing);
      running := running[i := a];
      if error.None? {
        created := created + 1;
        SaneUpdate(old(running), i, a);
      }
    }

    /** `cf_ip_attempt_restart` of attempt `i`, which may even connect at once. */
    method Restart(i: nat) returns (error: Option<Error>)
      requires Accounted() && AllSane(running) && Timed() && Monotone()
      requires i < |running| && running[i].inconclusive && Tally(running, IsOngoing) == 0
      modifies this`running, this`freed, this`created, this`step, this`lastStarted
      ensures Accounted() && Limited() && step > old(step) && error == env(old(step)).create
      ensures error.None? ==> AllSane(running) && Timed() && lastStarted == env(old(step) + 2).now
      ensures error.None? ==> running == old(running)[i := Advance(Renewed(old(running)[i], Some(old(created))),
                                                               env(old(step) + 1).connect)]
    {
      hide Accounted, Tally, AllSane, Advance, Renewed;
      error := Renew(i);
      if error.None? {
        SaneAt(running, i);
        ghost var b := Advance(running[i], env(step).connect);
        SaneUpdate(running, i, b);
        TallyUpdate(running, i, b, IsOngoing);
        ConnectAttempt(i);
        lastStarted := env(step).now;
        step := step + 1;
      }
    }

    method ReadClock() returns (now: int)
      requires Timed() && Monotone()
      modifies this`step
      ensures now == env(old(step)).now && step == old(step) + 1 && Timed()
      ensures forall j: nat :: step <= j ==> now <= env(j).now
    {
      now := env(step).now;
      step := step + 1;
    }

    /** What follows `out:` when there is no error. */
    method Wake() returns (v: Verdict)
      requires Timed() && Monotone()
      modifies this`step
      ensures step == old(step) + 1 && Timed()
      ensures v == if env(old(step)).timeLeft < 0 then Failed(OperationTimedout, OutOfTime)
                   else if HasMore()
                           && (env(old(step)).timeLeft == 0 || env(old(step)).now - lastStarted >= delay) then Due
                   else Wait
    {
      var next := env(step).timeLeft;
      var now := ReadClock();
      v := Wait;
      if next < 0 {
        return Failed(OperationTimedout, OutOfTime);
      }
      if HasMore() {
        var expire := if delay - (now - lastStarted) > 0 then delay - (now - lastStarted) else 0;
        next := if next < expire then next else expire;
        if next <= 0 {
          return Due;
        }
      }
    }

    method ReportError() returns (error: Error)
      ensures error == LastError(running)
    {
      error := CouldntConnect;
      for i := 0 to |running|
        invariant error == LastError(running[..i])
      {
        assert running[..i + 1][..i] == running[..i];
        if running[i].result.Some? {
          error := running[i].result.value;
        }
      }
      assert running[..|running|] == running;
    }

    /** Starts an attempt at the next address, if there is one. */
    method TryNext(ghost alone: bool) returns (found: bool, error: Option<Error>)
      requires Valid() && winner.None? && installed.None?
      requires alone || forall j: nat :: step <= j ==> env(j).now - lastStarted >= delay
      modifies this`n6, this`n4, this`tried, this`turn, this`early
      modifies this`running, this`freed, this`created, this`step, this`lastStarted, this`lastFamily, this`starts
      ensures found == old(HasMore()) && Accounted() && Ordered() && Limited() && Paced(starts, delay)
      ensures dnsResolved ==> early == old(early)
      ensures error.None? ==> Valid()
      ensures !found ==> error.None? && step == old(step) && running == old(running) && tried == old(tried)
      ensures !found ==> lastStarted == old(lastStarted) && created == old(created) && !HasMore()
      ensures found ==> step > old(step) && env(old(step)).create == error
      ensures found && error.None? ==>
                StartedNext(old(tried), tried, old(running), running, maxConcurrent, old(created))
    {
      hide Accounts, AllSane, Tally, InOrder, Paced, MadeRoom;
      error := None;
      var t := TakeAddress();
      found := t.Some?;
      if found {
        error := Launch(t.value, alone);
      }
    }

    /** Restarts the first inconclusive attempt. */
    method RetryOne() returns (error: Option<Error>)
      requires Valid() && winner.None? && installed.None?
      requires Tally(running, IsOngoing) == 0 && Tally(running, IsInconclusive) > 0
      modifies this`running, this`freed, this`created, this`step, this`lastStarted
      ensures Accounted() && Limited() && step > old(step) && error == env(old(step)).create
      ensures error.None? ==> Valid() && lastStarted == env(old(step) + 2).now
      ensures error.None? ==> RestartedFirst(old(running), running, old(created), env(old(step) + 1).connect)
    {
      hide Accounts, AllSane, Tally, InOrder, Paced, Advance, Renewed, RestartedFirst;
      var i := FindInconclusive();
      error := Restart(i);
      RestartedAt(old(running), i, old(created), env(old(step) + 1).connect);
    }

    lemma TimedIsPaced()
      requires Timed()
      ensures Paced(starts, delay)
    {
    }

    lemma AllTried()
      requires Ordered() && dnsResolved && !HasMore()
      ensures |tried| == |v6| + |v4|
    {
    }

    /** Starts or restarts an attempt, or gives up, or does none of these because it is not yet time to
        restart or DNS is not done. */
    method DoMore(ongoing: nat, inconclusive: nat) returns (v: Verdict)
      requires Valid() && winner.None? && installed.None?
      requires ongoing == Tally(running, IsOngoing) && inconclusive == Tally(running, IsInconclusive)
      requires ongoing == 0 || (HasMore() && forall j: nat :: step <= j ==> env(j).now - lastStarted >= delay)
      modifies this`n6, this`n4, this`tried, this`turn, this`early
      modifies this`running, this`freed, this`created, this`step, this`lastStarted, this`lastFamily, this`starts
      ensures Accounted() && Ordered() && Limited() && Paced(starts, delay) && step >= old(step)
      ensures dnsResolved ==> early == old(early)
      ensures v.Started? || v.Restarted? || v.Wait? || v.Failed?
      ensures !v.Failed? ==> Valid()
      ensures v.Started? ==>
                step > old(step) && StartedNext(old(tried), tried, old(running), running, maxConcurrent, old(created))
      ensures v.Restarted? || v.Wait? ==> tried == old(tried)
      ensures v.Restarted? ==> step > old(step) && !old(HasMore()) && ongoing == 0 && inconclusive > 0
      ensures v.Restarted? ==> lastStarted - old(lastStarted) >= delay
      ensures v.Restarted? ==> RestartedFirst(old(running), running, old(created), env(old(step) + 2).connect)
      ensures old(HasMore()) ==> v.Started? || NotCreated(v)
      ensures v.Started? ==> old(HasMore())
      ensures !old(HasMore()) ==>
                if inconclusive > 0 then
                  if env(old(step)).now - old(lastStarted) >= delay then v.Restarted? || NotCreated(v) else v.Wait?
                else if ongoing == 0 && dnsResolved then v.Failed? && v.cause.Exhausted? else v.Wait?
      ensures v.Wait? ==>
                running == old(running) && lastStarted == old(lastStarted) && (!dnsResolved || inconclusive > 0)
      ensures v.Failed? && v.cause.Exhausted? ==> step > old(step) && tried == old(tried)
      ensures v.Failed? && v.cause.Exhausted? ==>
                dnsResolved && |tried| == |v6| + |v4| && ongoing == 0 && inconclusive == 0
                && running == old(running) && v.error == LastError(running)
      ensures v.Failed? && !v.cause.Exhausted? ==>
                v.cause.CreateFailed? && exists k :: old(step) <= k < step && env(k).create == Some(v.error)
    {
      hide Accounted, Limited, Clean, Ordered, Timed, Monotone, Tally, StartedNext, RestartedFirst, LastError, HasMore;
      hide Paced;
      TimedIsPaced();
      var found, error := TryNext(ongoing == 0);
      if found {
        v := if error.Some? then Failed(error.value, CreateFailed) else Started;
      } else if inconclusive > 0 {
        var now := ReadClock();
        if delay - (now - lastStarted) <= 0 {
          error := RetryOne();
          v := if error.Some? then Failed(error.value, CreateFailed) else Restarted;
        } else {
          v := Wait;
        }
      } else if ongoing == 0 && dnsResolved {
        AllTried();
        step := step + 1;
        var last := ReportError();
        v := Failed(last, Exhausted);
      } else {
        v := Wait;
      }
    }

    /** What follows the loop at `evaluate:` when no attempt has connected. */
    method Proceed(ongoing: nat, inconclusive: nat) returns (v: Verdict)
      requires Valid() && winner.None? && installed.None?
      requires ongoing == Tally(running, IsOngoing) && inconclusive == Tally(running, IsInconclusive)
      modifies this`n6, this`n4, this`tried, this`turn, this`early
      modifies this`running, this`freed, this`created, this`step, this`lastStarted, this`lastFamily, this`starts
      ensures Accounted() && Ordered() && Limited() && Paced(starts, delay) && !v.Won? && step > old(step)
      ensures dnsResolved ==> early == old(early)
      ensures !v.Failed? ==> Valid()
      ensures v.Started? ==> StartedNext(old(tried), tried, old(running), running, maxConcurrent, old(created))
      ensures !v.Started? && !(v.Failed? && v.cause.CreateFailed?) ==> tried == old(tried)
      ensures v.Restarted? ==>
                !old(HasMore()) && ongoing == 0 && inconclusive > 0 && lastStarted - old(lastStarted) >= delay
      ensures v.Wait? || v.Due? ==> running == old(running) && lastStarted == old(lastStarted)
      ensures v.Started? || v.Restarted? || NotCreated(v) <==>
                || TimeToStart(old(running), old(HasMore()), env(old(step)).now - old(lastStarted), delay)
                || TimeToRestart(old(running), old(HasMore()), env(old(step)).now - old(lastStarted), delay)
      ensures v.Started? ==> TimeToStart(old(running), old(HasMore()), env(old(step)).now - old(lastStarted), delay)
      ensures v.Restarted? ==> TimeToRestart(old(running), old(HasMore()), env(old(step)).now - old(lastStarted), delay)
      ensures v.Failed? && v.cause.Exhausted? <==> NothingLeft(old(running), old(HasMore()), dnsResolved)
      ensures v.Wait? || v.Due? ==> env(step - 1).timeLeft >= 0
      ensures v.Wait? ==> !(HasMore() && (env(step - 1).timeLeft == 0 || env(step - 1).now - lastStarted >= delay))
      ensures v.Restarted? ==> exists outcome :: RestartedFirst(old(running), running, old(created), outcome)
      ensures v.Due? ==> HasMore() && (env(step - 1).timeLeft == 0 || env(step - 1).now - lastStarted >= delay)
      ensures v.Wait? && dnsResolved ==> ongoing > 0 || inconclusive > 0
      ensures v.Failed? && v.cause.Exhausted? ==>
                dnsResolved && |tried| == |v6| + |v4| && ongoing == 0 && inconclusive == 0
                && running == old(running) && v.error == LastError(running)
      ensures v.Failed? && v.cause.OutOfTime? ==> v.error.OperationTimedout? && env(step - 1).timeLeft < 0
      ensures v.Failed? && v.cause.CreateFailed? ==> exists k :: old(step) <= k < step && env(k).create == Some(v.error)
    {
      hide Accounted, Limited, Clean, Ordered, Timed, Monotone, Tally, StartedNext, RestartedFirst, LastError, HasMore;
      hide Paced;
      TimedIsPaced();
      var doMore := true;
      if ongoing > 0 {
        var now := ReadClock();
        doMore := HasMore() && now - lastStarted >= delay;
      }
      v := Wait;
      if doMore {
        v := DoMore(ongoing, inconclusive);
      }
      if v.Wait? {
        v := Wake();
      }
    }

    /** One pass of `cf_ip_ballers_run` from `evaluate:`. */
    method Pass() returns (v: Verdict)
      requires Valid() && installed.None?
      modifies this`n6, this`n4, this`tried, this`turn, this`early, this`winner
      modifies this`running, this`freed, this`created, this`step, this`lastStarted, this`lastFamily, this`starts
      ensures Accounted() && Ordered() && Limited() && Paced(starts, delay) && (!v.Failed? ==> Valid())
      ensures dnsResolved ==> early == old(early)
      ensures v.Won? ==>
                winner.Some? && FirstConnected(Polled(old(running), env, old(step)), winner.value) && running == []
      ensures v.Won? <==> old(winner).None? && AnyConnected(Polled(old(running), env, old(step)))
      ensures !v.Won? ==> winner == old(winner)
      ensures old(winner).None? && !v.Won? ==>
                var polled := Polled(old(running), env, old(step));
                var elapsed := env(old(step) + |old(running)|).now - old(lastStarted);
                && (v.Started? || v.Restarted? || NotCreated(v) <==>
                      TimeToStart(polled, old(HasMore()), elapsed, delay)
                      || TimeToRestart(polled, old(HasMore()), elapsed, delay))
                && (v.Started? ==>
                      && TimeToStart(polled, old(HasMore()), elapsed, delay)
                      && StartedNext(old(tried), tried, polled, running, maxConcurrent, old(created)))
                && (v.Restarted? ==>
                      && TimeToRestart(polled, old(HasMore()), elapsed, delay)
                      && exists outcome :: RestartedFirst(polled, running, old(created), outcome))
                && (v.Failed? && v.cause.Exhausted? <==> NothingLeft(polled, old(HasMore()), dnsResolved))
                && (v.Wait? || v.Due? ==> running == polled && lastStarted == old(lastStarted))
      ensures old(winner).None? && step > old(step) && (v.Wait? || v.Due?) ==>
                && env(step - 1).timeLeft >= 0
                && (v.Due? <==> HasMore() && (env(step - 1).timeLeft == 0 || env(step - 1).now - lastStarted >= delay))
      ensures v.Failed? && v.cause.OutOfTime? ==> step > 0 && env(step - 1).timeLeft < 0
      ensures !v.Started? && !(v.Failed? && v.cause.CreateFailed?) ==> tried == old(tried)
      ensures v.Wait? && dnsResolved && winner.None? ==>
                Tally(running, IsOngoing) > 0 || Tally(running, IsInconclusive) > 0
      ensures v.Failed? && v.cause.Exhausted? ==>
                dnsResolved && |tried| == |v6| + |v4| && v.error == LastError(running)
                && running == Polled(old(running), env, old(step))
                && Tally(running, IsOngoing) == 0 && Tally(running, IsInconclusive) == 0
    {
      hide Accounted, Limited, Clean, Ordered, Timed, Monotone, Tally, StartedNext, RestartedFirst, LastError;
      hide Polled, FirstConnected, AnyConnected, Paced;
      TimedIsPaced();
      if winner.Some? {
        return Wait;
      }
      var won, ongoing, inconclusive := CheckRunning();
      if won {
        return Won;
      }
      v := Proceed(ongoing, inconclusive);
    }

    /** DNS makes more addresses known; when it is done, all are. */
    method Resolve(more6: nat, more4: nat, done: bool)
      requires Valid()
      modifies this`shown6, this`shown4, this`dnsResolved
      ensures Valid() && old(shown6) <= shown6 && old(shown4) <= shown4 && dnsResolved == (old(dnsResolved) || done)
      ensures !dnsResolved ==> shown6 == Min(old(shown6) + more6, |v6|) && shown4 == Min(old(shown4) + more4, |v4|)
    {
      hide Accounts, AllSane, InOrder, Paced, Tally, Monotone, Timed, Limited;
      dnsResolved := dnsResolved || done;
      shown6 := if dnsResolved || shown6 + more6 > |v6| then |v6| else shown6 + more6;
      shown4 := if dnsResolved || shown4 + more4 > |v4| then |v4| else shown4 + more4;
    }

    /** The winner's filter becomes that of the connection: it is the only one not freed, and every
        other one was freed once. */
    method Install()
      requires Valid() && winner.Some?
      modifies this`winner, this`installed, this`running, this`freed
      ensures Valid() && installed == old(winner.value.cf) && installed.Some? && installed.value < created
      ensures forall id: nat :: freed[id] == if id < created && id != installed.value then 1 else 0
    {
      hide Accounts, InOrder, Tally, Ordered, Monotone, Timed;
      InstallAccounts(winner.value, freed, created);
      TallyLast([], IsOngoing);
      installed := winner.value.cf;
      winner := None;
      AllFreed(installed, freed, created);
      Clear();
    }

    /** `cf_ip_ballers_clear`: also after a failure, every filter but an installed one is freed once. */
    method Clear()
      requires Accounted()
      modifies this`winner, this`running, this`freed
      ensures Accounted() && running == [] && winner.None?
      ensures forall id: nat :: freed[id] == if id < created && installed != Some(id) then 1 else 0
    {
      hide Accounts;
      FreeRunning();
      if winner.Some? {
        FreeWinner(winner.value, installed, freed, created);
        freed := freed + Filters(winner.value);
      }
      winner := None;
      AllFreed(installed, freed, created);
    }
  }

  /** An attempt was to be started or restarted, and its filter could not be created. */
  predicate NotCreated(v: Verdict) {
    v.Failed? && v.cause.CreateFailed?
  }

  /** It is time for the next address: nothing else is going on, or the last attempt was started `elapsed`
      ago and had its delay. */
  predicate TimeToStart(polled: seq<Attempt>, more: bool, elapsed: int, delay: int) {
    more && (Tally(polled, IsOngoing) == 0 || elapsed >= delay)
  }

  /** It is time to try an address again that gave no proper answer: nothing else is left to do. */
  predicate TimeToRestart(polled: seq<Attempt>, more: bool, elapsed: int, delay: int) {
    !more && Tally(polled, IsOngoing) == 0 && Tally(polled, IsInconclusive) > 0 && elapsed >= delay
  }

  /** No address and no attempt is left. */
  predicate NothingLeft(polled: seq<Attempt>, more: bool, dnsResolved: bool) {
    !more && dnsResolved && Tally(polled, IsOngoing) == 0 && Tally(polled, IsInconclusive) == 0
  }

  /** One more address was tried, and its attempt put behind those that were left room beside. */
  predicate StartedNext(tried: seq<Try>, tried': seq<Try>, running: seq<Attempt>, running': seq<Attempt>,
                        max: nat, id: nat)
  {
    && |tried'| == |tried| + 1 && tried <= tried'
    && running' == MadeRoom(running, max) + [New(tried'[|tried|], id)]
  }

  /** The first inconclusive attempt was renewed, with a new filter that was then asked to connect. */
  predicate RestartedFirst(running: seq<Attempt>, running': seq<Attempt>, id: nat, outcome: Outcome) {
    exists i :: 0 <= i < |running| && running[i].inconclusive
      && (forall j :: 0 <= j < i ==> !running[j].inconclusive)
      && running' == running[i := Advance(Renewed(running[i], Some(id)), outcome)]
  }

  lemma RestartedAt(running: seq<Attempt>, i: nat, id: nat, outcome: Outcome)
    requires i < |running| && running[i].inconclusive && forall j :: 0 <= j < i ==> !running[j].inconclusive
    ensures RestartedFirst(running, running[i := Advance(Renewed(running[i], Some(id)), outcome)], id, outcome)
  {
  }

  function Renewed(a: Attempt, cf: Option<nat>): Attempt {
    a.(cf := cf, result := None, connected := false, inconclusive := false)
  }

  function New(t: Try, id: nat): Attempt {
    Attempt(t.family, t.addr, Some(id), None, false, false)
  }

  /** What is left of the attempts when the oldest ongoing ones had to make room for one more. */
  function MadeRoom(running: seq<Attempt>, max: nat): seq<Attempt> {
    if max == 0 then running else DropOngoing(running, Less(Tally(running, IsOngoing), max - 1))
  }

  /** `a - b`, or 0 if that is negative. */
  function Less(a: nat, b: nat): nat {
    if a > b then a - b else 0
  }

  predicate AnyConnected(polled: seq<Attempt>) {
    exists i :: 0 <= i < |polled| && polled[i].connected
  }

  predicate FirstConnected(polled: seq<Attempt>, a: Attempt) {
    a.connected && exists i :: 0 <= i < |polled| && polled[i] == a && forall j :: 0 <= j < i ==> !polled[j].connected
  }
}
