/** Connection attempts, and the sub-filters they create and must not lose. */
module HappyAttempts {
  import opened Common
  import opened HappyOrder

  datatype Error = WeirdServerReply | CouldntConnect | OperationTimedout | Other(code: nat)

  /** `struct cf_ip_attempt`; `result` is the last error, if any. Sub-filters are numbered in the order
      in which they are created. */
  datatype Attempt = Attempt(family: Family, addr: string, cf: Option<nat>, result: Option<Error>,
                             connected: bool, inconclusive: bool)

  datatype Outcome = Pending | Connected | Broken(error: Error)

  /** What one consultation of the environment says: how a connect goes, whether a filter can be
      created, the time, and the time left for the transfer (0: there is no limit). */
  datatype Answer = Answer(connect: Outcome, create: Option<Error>, now: int, timeLeft: int)

  predicate IsOngoing(a: Attempt) {
    a.result.None? && !a.connected
  }

  predicate IsInconclusive(a: Attempt) {
    a.inconclusive
  }

  function Holds(id: nat): Attempt -> bool {
    (a: Attempt) => a.cf == Some(id)
  }

  /** A failed attempt has no filter, every other one has, and only one that got no proper answer is
      inconclusive. */
  predicate Sane(a: Attempt) {
    && (a.result.None? <==> a.cf.Some?)
    && (a.inconclusive <==> a.result == Some(WeirdServerReply))
    && (a.connected ==> a.result.None?)
  }

  predicate AllSane(running: seq<Attempt>) {
    forall i {:trigger running[i]} :: 0 <= i < |running| ==> Sane(running[i])
  }

  lemma SaneAt(running: seq<Attempt>, i: nat)
    requires AllSane(running) && i < |running|
    ensures Sane(running[i])
  {
  }

  lemma SaneUpdate(running: seq<Attempt>, i: nat, a: Attempt)
    requires AllSane(running) && i < |running| && Sane(a)
    ensures AllSane(running[i := a])
  {
  }

  /** One call of `cf_ip_attempt_connect`. */
  function Advance(a: Attempt, outcome: Outcome): (r: Attempt)
    ensures Sane(a) ==> Sane(r) && (IsOngoing(r) ==> r == a) && (!IsOngoing(a) ==> r == a)
  {
    if !IsOngoing(a) then a
    else match outcome
      case Pending => a
      case Connected => a.(connected := true)
      case Broken(e) => a.(result := Some(e), inconclusive := e == WeirdServerReply, cf := None)
  }

  /** All running attempts advanced once, the first with the answer number `step`. */
  function Polled(running: seq<Attempt>, env: nat -> Answer, step: nat): (r: seq<Attempt>)
    ensures |r| == |running|
  {
    seq(|running|, i requires 0 <= i < |running| => Advance(running[i], env(step + i).connect))
  }

  lemma PolledAt(running: seq<Attempt>, env: nat -> Answer, step: nat, i: nat)
    requires i < |running|
    ensures Polled(running, env, step)[i] == Advance(running[i], env(step + i).connect)
  {
  }

  /** The attempts when the first `i` of them were advanced. */
  function PolledUpTo(running: seq<Attempt>, env: nat -> Answer, step: nat, i: nat): seq<Attempt>
    requires i <= |running|
  {
    Polled(running, env, step)[..i] + running[i..]
  }

  lemma Splice(done: seq<Attempt>, running: seq<Attempt>, i: nat)
    requires i <= |running| == |done|
    ensures done[..0] + running[0..] == running && done[..|done|] + running[|running|..] == done
    ensures i < |running| ==> (done[..i] + running[i..])[i := done[i]] == done[..i + 1] + running[i + 1..]
  {
  }

  lemma Progress(running: seq<Attempt>, env: nat -> Answer, step: nat, i: nat)
    requires i <= |running|
    ensures |PolledUpTo(running, env, step, i)| == |running|
    ensures PolledUpTo(running, env, step, 0) == running
    ensures i == |running| ==> PolledUpTo(running, env, step, i) == Polled(running, env, step)
    ensures i < |running| ==>
              && PolledUpTo(running, env, step, i)[i] == running[i]
              && PolledUpTo(running, env, step, i)[i := Polled(running, env, step)[i]]
                 == PolledUpTo(running, env, step, i + 1)
              && |PolledUpTo(running, env, step, i + 1)| == |running|
              && PolledUpTo(running, env, step, i + 1)[i] == Polled(running, env, step)[i]
  {
    hide Polled;
    Splice(Polled(running, env, step), running, i);
  }

  lemma {:induction false} PolledOngoing(running: seq<Attempt>, env: nat -> Answer, step: nat)
    requires AllSane(running)
    ensures Tally(Polled(running, env, step), IsOngoing) <= Tally(running, IsOngoing)
  {
    hide Tally;
    var polled := Polled(running, env, step);
    TallyLast(running, IsOngoing);
    TallyLast(polled, IsOngoing);
    if running != [] {
      var n := |running| - 1;
      assert polled[..n] == Polled(running[..n], env, step);
      assert forall i :: 0 <= i < n ==> running[..n][i] == running[i];
      PolledOngoing(running[..n], env, step);
    }
  }

  /** The attempts without the first `k` ongoing ones. */
  function DropOngoing(running: seq<Attempt>, k: nat): (r: seq<Attempt>)
    ensures forall a :: a in r ==> a in running
    ensures forall a :: a in running && !IsOngoing(a) ==> a in r
  {
    if k == 0 || running == [] then running
    else if IsOngoing(running[0]) then DropOngoing(running[1..], k - 1)
    else [running[0]] + DropOngoing(running[1..], k)
  }

  lemma {:induction false} DropOngoingTally(running: seq<Attempt>, k: nat)
    requires k <= Tally(running, IsOngoing)
    ensures Tally(DropOngoing(running, k), IsOngoing) == Tally(running, IsOngoing) - k
  {
    hide Tally;
    TallyNext(running, 0, IsOngoing);
    if k > 0 && running != [] {
      var a, rest := running[0], running[1..];
      assert running == [a] + rest;
      TallyCons(a, rest, IsOngoing);
      if IsOngoing(a) {
        DropOngoingTally(rest, k - 1);
      } else {
        DropOngoingTally(rest, k);
        TallyCons(a, DropOngoing(rest, k), IsOngoing);
      }
    } else {
      assert running[..0] == [];
    }
  }

  lemma DropNone(running: seq<Attempt>, k: nat)
    requires k == 0 || running == []
    ensures DropOngoing(running, k) == running
  {
  }

  lemma DropSane(running: seq<Attempt>, k: nat)
    requires AllSane(running)
    ensures AllSane(DropOngoing(running, k))
  {
    forall i | 0 <= i < |DropOngoing(running, k)|
      ensures Sane(DropOngoing(running, k)[i])
    {
      assert DropOngoing(running, k)[i] in running;
    }
  }

  lemma HeadOfRest(kept: seq<Attempt>, rest: seq<Attempt>)
    requires rest != []
    ensures kept + rest == (kept + [rest[0]]) + rest[1..]
    ensures (kept + rest)[|kept|] == rest[0]
    ensures (kept + rest)[..|kept|] + (kept + rest)[|kept| + 1..] == kept + rest[1..]
  {
    assert (kept + rest)[..|kept|] == kept && (kept + rest)[|kept| + 1..] == rest[1..];
  }

  lemma DropOngoingStep(kept: seq<Attempt>, rest: seq<Attempt>, k: nat)
    requires k > 0 && rest != []
    ensures kept + DropOngoing(rest, k) ==
            if IsOngoing(rest[0]) then kept + DropOngoing(rest[1..], k - 1)
            else (kept + [rest[0]]) + DropOngoing(rest[1..], k)
    ensures kept + rest == (kept + [rest[0]]) + rest[1..]
    ensures (kept + rest)[|kept|] == rest[0]
    ensures (kept + rest)[..|kept|] + (kept + rest)[|kept| + 1..] == kept + rest[1..]
  {
    HeadOfRest(kept, rest);
    Assoc(kept, [rest[0]], DropOngoing(rest[1..], k));
  }

  function One(a: Option<Attempt>, id: nat): nat {
    if a.Some? && a.value.cf == Some(id) then 1 else 0
  }

  function Filters(a: Attempt): multiset<nat> {
    if a.cf.Some? then multiset{a.cf.value} else multiset{}
  }

  /** Each filter created so far is in exactly one place: held by one attempt, by the winner, installed
      in the connection, or freed; and it was freed at most once. */
  ghost predicate Accounts(running: seq<Attempt>, winner: Option<Attempt>, installed: Option<nat>,
                           freed: multiset<nat>, next: nat) {
    forall id: nat {:trigger freed[id]} ::
      Tally(running, Holds(id)) + One(winner, id) + (if installed == Some(id) then 1 else 0) + freed[id]
      == if id < next then 1 else 0
  }

  lemma AccountsUpdate(running: seq<Attempt>, i: nat, a: Attempt, winner: Option<Attempt>, installed: Option<nat>,
                       freed: multiset<nat>, next: nat)
    requires Accounts(running, winner, installed, freed, next) && i < |running|
    ensures a.cf == running[i].cf ==> Accounts(running[i := a], winner, installed, freed, next)
    ensures a.cf == None ==> Accounts(running[i := a], winner, installed, freed + Filters(running[i]), next)
    ensures running[i].cf == None && a.cf == Some(next) ==>
              Accounts(running[i := a], winner, installed, freed, next + 1)
  {
    hide Tally;
    forall id: nat {
      TallyUpdate(running, i, a, Holds(id));
    }
  }

  lemma AccountsDrop(running: seq<Attempt>, i: nat, winner: Option<Attempt>, installed: Option<nat>,
                     freed: multiset<nat>, next: nat)
    requires Accounts(running, winner, installed, freed, next) && i < |running|
    ensures Accounts(running[..i] + running[i + 1..], winner, installed, freed + Filters(running[i]), next)
    ensures winner.None? ==> Accounts(running[..i] + running[i + 1..], Some(running[i]), installed, freed, next)
  {
    hide Tally;
    forall id: nat {
      TallyWithout(running, i, Holds(id));
    }
  }

  lemma AccountsAppend(running: seq<Attempt>, a: Attempt, winner: Option<Attempt>, installed: Option<nat>,
                       freed: multiset<nat>, next: nat)
    requires Accounts(running, winner, installed, freed, next) && a.cf == Some(next)
    ensures Accounts(running + [a], winner, installed, freed, next + 1)
  {
    forall id: nat {
      TallyConcat(running, [a], Holds(id));
    }
  }

  lemma FreeWinner(w: Attempt, installed: Option<nat>, freed: multiset<nat>, next: nat)
    requires Accounts([], Some(w), installed, freed, next)
    ensures Accounts([], None, installed, freed + Filters(w), next)
  {
  }

  lemma InstallAccounts(w: Attempt, freed: multiset<nat>, next: nat)
    requires Accounts([], Some(w), None, freed, next)
    ensures Accounts([], None, w.cf, freed, next)
  {
  }

  lemma AllFreed(installed: Option<nat>, freed: multiset<nat>, next: nat)
    requires Accounts([], None, installed, freed, next)
    ensures forall id: nat :: freed[id] == if id < next && installed != Some(id) then 1 else 0
    ensures installed.Some? ==> installed.value < next
  {
    if installed.Some? {
      assert freed[installed.value] >= 0;
    }
  }

  /** The error reported when all attempts failed: that of the latest, if there is any. */
  function LastError(running: seq<Attempt>): Error {
    if running == [] then CouldntConnect
    else if running[|running| - 1].result.Some? then running[|running| - 1].result.value
    else LastError(running[..|running| - 1])
  }

  /** It is that of the last attempt in the list that has one. */
  lemma {:induction false} LastErrorIs(running: seq<Attempt>, i: nat)
    requires i < |running| && running[i].result.Some? && forall j :: i < j < |running| ==> running[j].result.None?
    ensures LastError(running) == running[i].result.value
    decreases |running|
  {
    if i < |running| - 1 {
      LastErrorIs(running[..|running| - 1], i);
    }
  }

  datatype Cause = CreateFailed | OutOfTime | Exhausted

  /** How a pass over the attempts ends: with a winner, waiting to be called again, with another pass
      because an attempt was started or restarted or is due, or with an error. */
  datatype Verdict = Won | Wait | Started | Restarted | Due | Failed(error: Error, cause: Cause)
}
