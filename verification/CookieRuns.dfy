/** Whole runs of a jar. */
module CookieRuns {
  import opened Common
  import opened CookieMatch
  import opened CookieList
  import opened CookieBuckets
  import opened CookieJar

  datatype Op =
    | Add(parsed: Option<Cookie>, httpheader: bool, noexpire: bool, now: int, publicSuffix: bool, secureOrigin: bool,
          setcookies: nat)
    | Get(host: string, path: string, secure: bool, now: int)
    | ClearSession
    | ClearAll

  /** What a call returns: whether the cookie was added or a list was made, and that list. */
  datatype Result = Result(ok: bool, list: seq<Cookie>)

  /** What does not change in a run: which names are addresses, and whether the jar is in use and takes
      session cookies from files. */
  datatype Settings = Settings(isIp: HostClass, running: bool, newSession: bool)

  function SettingsOf(jar: Jar): Settings
    reads jar
  {
    Settings(jar.isIp, jar.running, jar.newSession)
  }

  /** The cookies of a jar, and the last creation number. */
  datatype State = State(cookies: Buckets, last: nat)

  /** Two cookies in a valid jar, wherever they are: they are the same one, or they differ in key and in
      creation number. Each is in the bucket of its domain, and none expires before the jar says. */
  lemma Sound(jar: Jar, b: nat, i: nat, d: nat, j: nat)
    requires jar.Valid()
    requires b < BUCKETS && i < |jar.cookielist[b]| && d < BUCKETS && j < |jar.cookielist[d]|
    ensures var x, y := jar.cookielist[b][i], jar.cookielist[d][j];
      && ((SameKey(x, y) || x.creation == y.creation) ==> b == d && i == j)
      && CookieHash(jar.isIp, x.domain) == b && x.creation <= jar.lastCt
      && (x.expires == 0 || jar.nextExpiration <= x.expires)
  {
    hide SameKey, CookieHash;
    if SameKey(jar.cookielist[b][i], jar.cookielist[d][j]) {
      UniqueInJar(jar.isIp, jar.cookielist, b, i, d, j);
    }
  }

  /** `Curl_cookie_add` in terms of the cookies alone: the expired ones go, then the new one takes its
      place, unless something speaks against it. */
  ghost predicate Added(settings: Settings, op: Op, ok: bool, before: State, after: State)
    requires op.Add?
  {
    if Refused(settings.running, settings.newSession, op.parsed, op.setcookies) then !ok && after == before
    else
      var co := op.parsed.value.(live := settings.running, creation := before.last + 1);
      var bs := if op.noexpire then before.cookies else Sift(before.cookies, NotExpired(op.now));
      && (ok <==> !op.publicSuffix && Admissible(bs[CookieHash(settings.isIp, co.domain)], co, op.secureOrigin))
      && after == State(if ok then Placed(settings.isIp, bs, co) else bs, before.last + 1)
  }

  /** `Curl_cookie_getlist`: a list is made exactly if the bucket of the host is not empty. Then the
      expired cookies are gone, and up to the limit the list has what matches and hashes alike. */
  ghost predicate Got(settings: Settings, op: Op, r: Result, before: State, after: State)
    requires op.Get?
  {
    && (r.ok <==> before.cookies[CookieHash(settings.isIp, Some(op.host))] != [])
    && after == (if r.ok then before.(cookies := Sift(before.cookies, NotExpired(op.now))) else before)
    && |r.list| <= 150 && SortedCookies(r.list)
    && (forall c :: c in r.list ==> InJar(after.cookies, c) && Matches(settings.isIp, c, op.host, op.path, op.secure))
    && (|r.list| < MAX_COOKIE_SEND_AMOUNT ==> forall c ::
          InJar(after.cookies, c) && Matches(settings.isIp, c, op.host, op.path, op.secure) ==>
          (c in r.list <==> CookieHash(settings.isIp, c.domain) == CookieHash(settings.isIp, Some(op.host))))
    && SentAsStandard(settings, op, r, before)
  }

  /** What is sent is what section 5.4 of RFC 6265 wants, of the cookies that hash like the host. */
  ghost predicate SentAsStandard(settings: Settings, op: Op, r: Result, before: State)
    requires op.Get?
  {
    && (forall c :: c in r.list ==> (c.expires == 0 || op.now <= c.expires)
                                    && (HasStoredPath(c) ==> Sends(settings.isIp, c, op.host, op.path, op.secure)))
    && (|r.list| < 150 ==> forall c :: InJar(before.cookies, c) && HasStoredPath(c) ==>
          (c in r.list <==> Sends(settings.isIp, c, op.host, op.path, op.secure)
                            && (c.expires == 0 || op.now <= c.expires)
                            && CookieHash(settings.isIp, c.domain) == CookieHash(settings.isIp, Some(op.host))))
  }

  ghost predicate IsStep(settings: Settings, op: Op, r: Result, before: State, after: State) {
    match op
    case Add(_, _, _, _, _, _, _) => Added(settings, op, r.ok, before, after)
    case Get(_, _, _, _) => Got(settings, op, r, before, after)
    case ClearSession => after == before.(cookies := Sift(before.cookies, Persistent()))
    case ClearAll => after.last == before.last && forall c :: !InJar(after.cookies, c)
  }

  /** After a lookup that made a list no expired cookie is left, whether or not the scan was skipped. */
  lemma NoneExpired(settings: Settings, op: Op, r: Result, before: State, after: State, c: Cookie)
    requires op.Get? && IsStep(settings, op, r, before, after) && r.ok && InJar(after.cookies, c)
    ensures (c.expires == 0 || op.now <= c.expires) && InJar(before.cookies, c)
  {
    SiftedContents(before.cookies, after.cookies, NotExpired(op.now), c);
  }

  /** One cookie for each key, each in the bucket of its domain. */
  ghost predicate Proper(settings: Settings, s: State) {
    Hashed(settings.isIp, s.cookies) && UniqueKeys(s.cookies)
  }

  lemma ValidIsProper(jar: Jar)
    requires jar.Valid()
    ensures Proper(SettingsOf(jar), State(jar.cookielist, jar.lastCt))
  {
  }

  /** The call has no right to take the secure cookie `c` away: it does not expire or clear it, and a new
      cookie is neither secure nor from a secure origin, or has another key. */
  predicate Spares(op: Op, c: Cookie) {
    match op
    case Add(parsed, _, noexpire, now, _, secureOrigin, _) =>
      && (noexpire || !Expired(c, now))
      && (parsed.Some? ==> (!parsed.value.secure && !secureOrigin) || !SameKey(c, parsed.value))
    case Get(_, _, _, now) => !Expired(c, now)
    case ClearSession => c.expires != 0
    case ClearAll => false
  }

  lemma SecureStaysInStep(settings: Settings, op: Op, r: Result, before: State, after: State, c: Cookie)
    requires Proper(settings, before) && IsStep(settings, op, r, before, after) && Spares(op, c)
    requires c.secure && c.path.Some? && InJar(before.cookies, c)
    ensures InJar(after.cookies, c)
  {
    hide CookieHash, SameKey, Placed, Inherit, Hashed, UniqueKeys, Sift, InJar, PrefixAllows;
    match op {
      case Add(parsed, _, noexpire, now, _, secureOrigin, _) =>
        if !Refused(settings.running, settings.newSession, parsed, op.setcookies) {
          var co := parsed.value.(live := settings.running, creation := before.last + 1);
          KeptWhenNew(settings, op, co, before, c);
        }
      case Get(_, _, _, now) =>
        SiftedContents(before.cookies, Sift(before.cookies, NotExpired(now)), NotExpired(now), c);
      case ClearSession =>
        SiftedContents(before.cookies, after.cookies, Persistent(), c);
      case ClearAll =>
    }
  }

  lemma KeptWhenNew(settings: Settings, op: Op, co: Cookie, before: State, c: Cookie)
    requires op.Add? && op.parsed.Some? && Proper(settings, before) && Spares(op, c)
    requires co == op.parsed.value.(live := settings.running, creation := before.last + 1)
    requires c.secure && c.path.Some? && InJar(before.cookies, c)
    ensures var bs := if op.noexpire then before.cookies else Sift(before.cookies, NotExpired(op.now));
            && InJar(bs, c)
            && (Admissible(bs[CookieHash(settings.isIp, co.domain)], co, op.secureOrigin) ==>
                  InJar(Placed(settings.isIp, bs, co), c))
  {
    hide CookieHash, Placed, Inherit, Hashed, UniqueKeys, InJar, Admissible;
    var bs := if op.noexpire then before.cookies else Sift(before.cookies, NotExpired(op.now));
    if !op.noexpire {
      SiftedContents(before.cookies, bs, NotExpired(op.now), c);
      SiftedKeeps(settings.isIp, before.cookies, bs, NotExpired(op.now), 0, 0);
    }
    if Admissible(bs[CookieHash(settings.isIp, co.domain)], co, op.secureOrigin) {
      if SameKey(c, co) {
        SecureStays(settings.isIp, bs, co, c);
      } else {
        PlacedContents(settings.isIp, bs, co, c);
      }
    }
  }

  /** Over any run whose calls spare it, a secure cookie with a path stays in the jar. */
  lemma {:induction false} SecureStaysInRun(settings: Settings, ops: seq<Op>, results: seq<Result>,
                                            states: seq<State>, c: Cookie)
    requires |results| == |ops| && |states| == |ops| + 1
    requires forall k {:trigger ops[k]} :: 0 <= k < |ops| ==>
              IsStep(settings, ops[k], results[k], states[k], states[k + 1])
    requires forall k :: 0 <= k < |states| ==> Proper(settings, states[k])
    requires forall k :: 0 <= k < |ops| ==> Spares(ops[k], c)
    requires c.secure && c.path.Some? && InJar(states[0].cookies, c)
    ensures InJar(states[|ops|].cookies, c)
  {
    hide IsStep, InJar, Proper, Spares;
    if ops != [] {
      var n := |ops| - 1;
      SecureStaysInRun(settings, ops[..n], results[..n], states[..n + 1], c);
      SecureStaysInStep(settings, ops[n], results[n], states[n], states[n + 1], c);
    }
  }

  /** What the name of a cookie promises: `__Secure-` that it is secure, `__Host-` also that it is for one
      host and all of its paths. */
  predicate KeepsPromise(c: Cookie) {
    && (c.prefixSecure ==> c.secure)
    && (c.prefixHost ==> c.secure && !c.tailmatch && c.path == Some("/"))
  }

  /** What gets into the jar: what is a cookie, one of the first 50 of a response, keeps the promise of its
      name, is not a session cookie of a file that is read for a new session, is for no public suffix, and
      overlays nothing that it must not. */
  lemma AddedExactly(settings: Settings, op: Op, r: Result, before: State, after: State)
    requires op.Add? && IsStep(settings, op, r, before, after)
    ensures r.ok <==>
            && op.parsed.Some? && op.setcookies < 50 && KeepsPromise(op.parsed.value) && !op.publicSuffix
            && (settings.running || !settings.newSession || op.parsed.value.expires != 0)
            && var bs := if op.noexpire then before.cookies else Sift(before.cookies, NotExpired(op.now));
               var co := op.parsed.value.(live := settings.running, creation := before.last + 1);
               Admissible(bs[CookieHash(settings.isIp, co.domain)], co, op.secureOrigin)
  {
    hide CookieHash, Admissible, Sift;
  }

  lemma PromisesKeptInStep(settings: Settings, op: Op, r: Result, before: State, after: State, c: Cookie)
    requires Proper(settings, before) && IsStep(settings, op, r, before, after)
    requires InJar(after.cookies, c) && !KeepsPromise(c)
    ensures InJar(before.cookies, c)
  {
    hide CookieHash, SameKey, Placed, Inherit, Hashed, UniqueKeys, Sift, InJar, Admissible;
    match op {
      case Add(parsed, _, noexpire, now, _, secureOrigin, _) =>
        if !Refused(settings.running, settings.newSession, parsed, op.setcookies) {
          var co := parsed.value.(live := settings.running, creation := before.last + 1);
          var bs := if noexpire then before.cookies else Sift(before.cookies, NotExpired(now));
          SiftedContents(before.cookies, Sift(before.cookies, NotExpired(now)), NotExpired(now), c);
          SiftedKeeps(settings.isIp, before.cookies, Sift(before.cookies, NotExpired(now)), NotExpired(now), 0, 0);
          if r.ok {
            PlacedContents(settings.isIp, bs, co, c);
            InheritedPromise(bs[CookieHash(settings.isIp, co.domain)], co);
          }
        }
      case Get(_, _, _, now) =>
        SiftedContents(before.cookies, Sift(before.cookies, NotExpired(now)), NotExpired(now), c);
      case ClearSession =>
        SiftedContents(before.cookies, after.cookies, Persistent(), c);
      case ClearAll =>
    }
  }

  lemma InheritedPromise(bucket: seq<Cookie>, co: Cookie)
    ensures KeepsPromise(Inherit(bucket, co)) <==> KeepsPromise(co)
  {
  }

  /** Over any run, no cookie comes into the jar that does not keep the promise of its name. */
  lemma {:induction false} PromisesKeptInRun(settings: Settings, ops: seq<Op>, results: seq<Result>,
                                             states: seq<State>, c: Cookie)
    requires |results| == |ops| && |states| == |ops| + 1
    requires forall k {:trigger ops[k]} :: 0 <= k < |ops| ==>
               IsStep(settings, ops[k], results[k], states[k], states[k + 1])
    requires forall k :: 0 <= k < |states| ==> Proper(settings, states[k])
    requires InJar(states[|ops|].cookies, c) && !KeepsPromise(c)
    ensures InJar(states[0].cookies, c)
  {
    hide IsStep, InJar, Proper, KeepsPromise;
    if ops != [] {
      var n := |ops| - 1;
      PromisesKeptInStep(settings, ops[n], results[n], states[n], states[n + 1], c);
      PromisesKeptInRun(settings, ops[..n], results[..n], states[..n + 1], c);
    }
  }

  method Apply(jar: Jar, op: Op) returns (r: Result)
    requires jar.Valid() && (op.Add? && op.parsed.Some? ==> op.parsed.value.expires <= NEVER)
    modifies jar
    ensures jar.Valid() && SettingsOf(jar) == old(SettingsOf(jar))
    ensures IsStep(SettingsOf(jar), op, r, old(State(jar.cookielist, jar.lastCt)), State(jar.cookielist, jar.lastCt))
  {
    hide Jar.Valid, Admissible, Placed, CookieHash, Matches, Sends, HasStoredPath, Sift, InJar, SortedCookies;
    r := Result(false, []);
    match op {
      case Add(parsed, httpheader, noexpire, now, publicSuffix, secureOrigin, setcookies) =>
        var added, count := jar.Add(parsed, httpheader, noexpire, now, publicSuffix, secureOrigin, setcookies);
        r := Result(added, []);
      case Get(host, path, secure, now) =>
        var okay, list := jar.GetList(host, path, secure, now);
        r := Result(okay, list);
      case ClearSession =>
        jar.ClearSession();
      case ClearAll =>
        jar.ClearAll();
    }
  }

  /** Any run of a jar: it stays valid, and every call does what is said of it to the cookies that the
      calls before it left. */
  method Run(jar: Jar, ops: seq<Op>) returns (results: seq<Result>, ghost states: seq<State>)
    requires jar.Valid()
    requires forall k :: 0 <= k < |ops| && ops[k].Add? && ops[k].parsed.Some? ==> ops[k].parsed.value.expires <= NEVER
    modifies jar
    ensures jar.Valid() && |results| == |ops| && |states| == |ops| + 1
    ensures states[0] == old(State(jar.cookielist, jar.lastCt)) && states[|ops|] == State(jar.cookielist, jar.lastCt)
    ensures forall k {:trigger ops[k]} :: 0 <= k < |ops| ==>
              IsStep(SettingsOf(jar), ops[k], results[k], states[k], states[k + 1])
    ensures forall k :: 0 <= k <= |ops| ==> Proper(SettingsOf(jar), states[k])
  {
    hide Jar.Valid, IsStep, SettingsOf, Proper;
    ValidIsProper(jar);
    results, states := [], [State(jar.cookielist, jar.lastCt)];
    for k := 0 to |ops|
      invariant jar.Valid() && |results| == k && |states| == k + 1 && SettingsOf(jar) == old(SettingsOf(jar))
      invariant states[0] == old(State(jar.cookielist, jar.lastCt)) && states[k] == State(jar.cookielist, jar.lastCt)
      invariant forall i {:trigger ops[i]} :: 0 <= i < k ==>
                  IsStep(old(SettingsOf(jar)), ops[i], results[i], states[i], states[i + 1])
      invariant forall i :: 0 <= i <= k ==> Proper(old(SettingsOf(jar)), states[i])
    {
      var r := Apply(jar, ops[k]);
      ValidIsProper(jar);
      results, states := results + [r], states + [State(jar.cookielist, jar.lastCt)];
    }
  }
}
