/** The cookie jar: 63 buckets, a count, the next expiry and the last creation number. */
module CookieJar {
  import opened Common
  import opened CookieMatch
  import opened CookieList
  import opened CookieBuckets

  const MAX_SET_COOKIE_AMOUNT: nat := 50
  const MAX_COOKIE_SEND_AMOUNT: nat := 150

  /** Every bucket reduced to the cookies that satisfy `f`. */
  function Sift(bs: Buckets, f: Cookie -> bool): (after: Buckets)
    ensures Sifted(bs, after, f)
  {
    seq(BUCKETS, b requires 0 <= b < BUCKETS => Keep(bs[b], f))
  }

  /** The rules about the prefixes of cookie names. */
  predicate PrefixAllows(co: Cookie) {
    && (co.prefixSecure ==> co.secure)
    && (co.prefixHost ==> co.secure && co.path == Some("/") && !co.tailmatch)
  }

  /** The tests of `Curl_cookie_getlist` on one cookie. */
  predicate Matches(isIp: HostClass, co: Cookie, host: string, path: string, secure: bool) {
    && (co.secure ==> secure)
    && (|| co.domain.None?
        || (co.tailmatch && !isIp(host) && TailMatch(co.domain.value, host))
        || ((!co.tailmatch || isIp(host)) && Fold(host) == Fold(co.domain.value)))
    && (co.path.None? || PathMatch(co.path.value, path))
  }

  /** Section 5.4 of RFC 6265 on which cookies go with a request: secure ones over a secure channel only;
      for a domain, all hosts in it, and an address is in none but its own; for a host, that one; and for
      a path, the paths that match it. There are two differences: a path that still ends with a slash is
      not for requests below it, and a cookie may have no domain or no path, and then goes everywhere. */
  ghost predicate Sends(isIp: HostClass, co: Cookie, host: string, path: string, secure: bool) {
    && (co.secure ==> secure)
    && (co.domain.Some? ==>
          if co.tailmatch && !isIp(host) then DomainMatch(co.domain.value, host)
          else Fold(co.domain.value) == Fold(host))
    && (co.path.Some? ==>
          && StandardPathMatch(co.path.value, RequestPath(path))
          && !BelowTrailingSlash(co.path.value, RequestPath(path)))
  }

  /** The path, if any, is one that the code stores. */
  predicate HasStoredPath(co: Cookie) {
    co.path.Some? ==> IsStored(co.path.value)
  }

  /** The tests of the code are those of the standard. */
  lemma MatchesIsStandard(isIp: HostClass, co: Cookie, host: string, path: string, secure: bool)
    requires HasStoredPath(co)
    ensures Matches(isIp, co, host, path, secure) <==> Sends(isIp, co, host, path, secure)
  {
    hide DomainMatch, TailMatch, PathMatch, StandardPathMatch, BelowTrailingSlash, Fold;
    if co.domain.Some? {
      TailMatchIsDomainMatch(co.domain.value, host);
    }
    if co.path.Some? {
      PathMatchIsStandard(co.path.value, path);
      BelowIsMatched(co.path.value, RequestPath(path));
    }
  }

  lemma BelowIsMatched(path: string, requestPath: string)
    ensures BelowTrailingSlash(path, requestPath) ==> StandardPathMatch(path, requestPath)
  {
  }

  function Matcher(isIp: HostClass, host: string, path: string, secure: bool): Cookie -> bool {
    (co: Cookie) => Matches(isIp, co, host, path, secure)
  }

  /** The cookies whose bucket is sure to be the one of any host that they match: those for exactly one
      host, and those for a whole domain whose name has a dot in it and is not an address. */
  ghost predicate Indexable(isIp: HostClass, co: Cookie) {
    co.domain.Some? && (co.tailmatch ==> HasDot(co.domain.value) && !isIp(co.domain.value))
  }

  /** Looking in one bucket misses no indexable cookie. */
  lemma IndexFinds(isIp: HostClass, co: Cookie, host: string, path: string, secure: bool)
    requires Indexable(isIp, co) && Matches(isIp, co, host, path, secure)
    ensures CookieHash(isIp, co.domain) == CookieHash(isIp, Some(host))
  {
    var domain := co.domain.value;
    if co.tailmatch && !isIp(host) && TailMatch(domain, host) {
      TailMatchSameBucket(isIp, domain, host);
    } else {
      SameNameSameBucket(isIp, host, domain);
    }
  }

  /** Any other cookie is found as well by the host that its domain names, and by no other host unless
      the two hashes happen to be equal. */
  lemma IndexMisses(isIp: HostClass, co: Cookie, host: string, path: string, secure: bool)
    requires !Indexable(isIp, co) && Matches(isIp, co, host, path, secure)
    ensures co.domain.Some? && Fold(co.domain.value) == Fold(host) ==>
              CookieHash(isIp, co.domain) == CookieHash(isIp, Some(host))
    ensures co.domain.Some? && Fold(co.domain.value) != Fold(host) ==>
              !isIp(host) && co.tailmatch && |host| > |co.domain.value| &&
              (!HasDot(co.domain.value) || isIp(co.domain.value))
    ensures co.domain.None? || isIp(co.domain.value) ==> CookieHash(isIp, co.domain) == 0
  {
    if co.domain.Some? {
      var domain := co.domain.value;
      if Fold(domain) == Fold(host) {
        SameNameSameBucket(isIp, host, domain);
      } else {
        assert host[0..] == host;
      }
    }
  }

  /** What `Curl_cookie_add` refuses before it touches the jar. */
  predicate Refused(running: bool, newSession: bool, parsed: Option<Cookie>, setcookies: nat) {
    || setcookies >= MAX_SET_COOKIE_AMOUNT
    || parsed.None?
    || !PrefixAllows(parsed.value)
    || (!running && newSession && parsed.value.expires == 0)
  }

  /** `struct CookieInfo` */
  class Jar {
    const isIp: HostClass
    var cookielist: Buckets
    var nextExpiration: int
    var numCookies: nat
    var lastCt: nat
    var running: bool
    var newSession: bool

    ghost predicate Valid()
      reads this
    {
      && Hashed(isIp, cookielist) && UniqueKeys(cookielist)
      && Numbered(cookielist, lastCt)
      && NoneBefore(cookielist, nextExpiration) && nextExpiration <= NEVER
      && numCookies == Total(cookielist)
    }

    /** `Curl_cookie_init` */
    constructor (isIp: HostClass)
      ensures Valid() && this.isIp == isIp && forall c :: !InJar(cookielist, c)
      ensures !running && nextExpiration == NEVER
    {
      this.isIp := isIp;
      cookielist := seq(BUCKETS, _ => []);
      nextExpiration, numCookies, lastCt, running, newSession := NEVER, 0, 0, false, false;
      new;
      TotalEmpty(cookielist);
    }

    /** The scan of `remove_expired` over all buckets. */
    method PurgeAll(now: int)
      requires numCookies == Total(cookielist)
      modifies this`cookielist, this`nextExpiration, this`numCookies
      ensures Sifted(old(cookielist), cookielist, NotExpired(now)) && numCookies == Total(cookielist)
      ensures EarliestBelow(cookielist, nextExpiration, BUCKETS)
    {
      hide Keep, Total, NotExpired;
      ghost var before := cookielist;
      nextExpiration := NEVER;
      for i := 0 to BUCKETS
        invariant forall b {:trigger cookielist[b]} :: 0 <= b < BUCKETS ==>
                    cookielist[b] == if b < i then Keep(before[b], NotExpired(now)) else before[b]
        invariant EarliestBelow(cookielist, nextExpiration, i)
        invariant numCookies == Total(cookielist)
      {
        var kept, gone, next := PurgeBucket(cookielist[i], now, nextExpiration);
        TotalUpdate(cookielist, i, kept);
        EarliestStep(cookielist, i, kept, nextExpiration, next);
        cookielist := cookielist[i := kept];
        numCookies, nextExpiration := numCookies - gone, next;
      }
    }

    /** `remove_expired`. Whether it scans or trusts `nextExpiration`, the outcome is that of a scan. */
    method RemoveExpired(now: int)
      requires Valid()
      modifies this`cookielist, this`nextExpiration, this`numCookies
      ensures Valid() && cookielist == Sift(old(cookielist), NotExpired(now))
      ensures now < old(nextExpiration) < NEVER ==> nextExpiration == old(nextExpiration)
      ensures now >= old(nextExpiration) || old(nextExpiration) == NEVER ==>
                EarliestBelow(cookielist, nextExpiration, BUCKETS)
    {
      ghost var before, next := cookielist, nextExpiration;
      if now < nextExpiration && nextExpiration != NEVER {
        NothingExpired(before, nextExpiration, now);
      } else {
        PurgeAll(now);
        assert cookielist == Sift(before, NotExpired(now));
      }
      SiftedKeeps(isIp, before, cookielist, NotExpired(now), lastCt, next);
    }

    predicate RefusedAtOnce(parsed: Option<Cookie>, setcookies: nat)
      reads this
    {
      Refused(running, newSession, parsed, setcookies)
    }

    /** `Curl_cookie_add`, from the parsed line on. `parsed` is `None` for a line that is not a cookie,
        `publicSuffix` the verdict on its domain, `setcookies` the number set by this response so far. */
    method Add(parsed: Option<Cookie>, httpheader: bool, noexpire: bool, now: int, publicSuffix: bool,
               secureOrigin: bool, setcookies: nat)
      returns (added: bool, count: nat)
      requires Valid() && (parsed.Some? ==> parsed.value.expires <= NEVER)
      modifies this`cookielist, this`nextExpiration, this`numCookies, this`lastCt
      ensures Valid() && count == setcookies + if added && httpheader then 1 else 0
      ensures RefusedAtOnce(parsed, setcookies) ==>
                !added && cookielist == old(cookielist) && lastCt == old(lastCt)
      ensures !RefusedAtOnce(parsed, setcookies) ==>
                var co := parsed.value.(live := running, creation := lastCt);
                var bs := if noexpire then old(cookielist) else Sift(old(cookielist), NotExpired(now));
                && lastCt == old(lastCt) + 1
                && (added <==> !publicSuffix && Admissible(bs[CookieHash(isIp, co.domain)], co, secureOrigin))
                && cookielist == if added then Placed(isIp, bs, co) else bs
    {
      hide CookieHash, SameKey, Admissible, Hashed, UniqueKeys, Numbered, NoneBefore, Placed, Keep, PrefixAllows;
      added, count := false, setcookies;
      if RefusedAtOnce(parsed, setcookies) {
        return;
      }
      var co := parsed.value.(live := running, creation := lastCt + 1);
      NumberedMore(cookielist, lastCt);
      lastCt := lastCt + 1;
      if !noexpire {
        ghost var before := cookielist;
        RemoveExpired(now);
        SiftedKeeps(isIp, before, cookielist, NotExpired(now), lastCt - 1, NEVER);
      }
      if !publicSuffix {
        added := Insert(co, secureOrigin);
        if added && httpheader {
          count := count + 1;
        }
      }
    }

    /** The last part of `Curl_cookie_add`: `replace_existing`, then the new cookie goes to the end of
        its bucket. */
    method Insert(co: Cookie, secureOrigin: bool) returns (added: bool)
      requires Valid() && co.expires <= NEVER && lastCt > 0
      requires Numbered(cookielist, lastCt - 1) && co.creation == lastCt
      modifies this`cookielist, this`nextExpiration, this`numCookies
      ensures Valid()
      ensures added <==> Admissible(old(cookielist)[CookieHash(isIp, co.domain)], co, secureOrigin)
      ensures cookielist == if added then Placed(isIp, old(cookielist), co) else old(cookielist)
    {
      hide CookieHash, SameKey, Admissible, Hashed, UniqueKeys, Numbered, NoneBefore, Total, Replaced, Inherit;
      var h := CookieHash(isIp, co.domain);
      var bucket := cookielist[h];
      var ok, at := FindExisting(bucket, co, secureOrigin);
      if !ok {
        return false;
      }
      PlacedUnique(isIp, cookielist, co);
      PlacedNumbered(isIp, cookielist, co, lastCt - 1);
      PlacedLazy(isIp, cookielist, co, nextExpiration);
      PlacedTotal(isIp, cookielist, co);
      var replacing := at < |bucket|;
      ReplacedIs(bucket, co);
      var new_ := co;
      if replacing {
        new_ := co.(creation := bucket[at].creation);
        bucket := bucket[..at] + bucket[at + 1..];
      }
      cookielist := cookielist[h := bucket + [new_]];
      if !replacing {
        numCookies := numCookies + 1;
      }
      if new_.expires != 0 && new_.expires < nextExpiration {
        nextExpiration := new_.expires;
      }
      return true;
    }

    /** `Curl_cookie_getlist`: the cookies to send to `host` for `path`. */
    method GetList(host: string, path: string, secure: bool, now: int) returns (okay: bool, list: seq<Cookie>)
      requires Valid()
      modifies this`cookielist, this`nextExpiration, this`numCookies
      ensures Valid()
      ensures okay <==> old(cookielist)[CookieHash(isIp, Some(host))] != []
      ensures cookielist == if okay then Sift(old(cookielist), NotExpired(now)) else old(cookielist)
      ensures |list| <= 150 && SortedCookies(list)
      ensures forall c :: c in list ==>
                InJar(cookielist, c) && Matches(isIp, c, host, path, secure) && !Expired(c, now)
      ensures |list| < MAX_COOKIE_SEND_AMOUNT ==>
                forall c :: InJar(cookielist, c) && Matches(isIp, c, host, path, secure) ==>
                (c in list <==> CookieHash(isIp, c.domain) == CookieHash(isIp, Some(host)))
      ensures |list| < MAX_COOKIE_SEND_AMOUNT ==> forall c ::
                InJar(cookielist, c) && Matches(isIp, c, host, path, secure) && Indexable(isIp, c) ==> c in list
      ensures |list| < 150 ==> forall c :: InJar(old(cookielist), c) && HasStoredPath(c) ==>
                (c in list <==> Sends(isIp, c, host, path, secure) && (c.expires == 0 || now <= c.expires)
                                && CookieHash(isIp, c.domain) == CookieHash(isIp, Some(host)))
      ensures forall c :: c in list ==> (c.expires == 0 || now <= c.expires)
                                        && (HasStoredPath(c) ==> Sends(isIp, c, host, path, secure))
      ensures okay ==> list == Sort(First(MAX_COOKIE_SEND_AMOUNT,
                                 Keep(cookielist[CookieHash(isIp, Some(host))], Matcher(isIp, host, path, secure))))
    {
      hide *;
      ValidIsHashed();
      okay, list := false, [];
      var h := CookieHash(isIp, Some(host));
      if cookielist[h] != [] {
        RemoveExpired(now);
        list := Pick(cookielist[h], Matcher(isIp, host, path, secure));
        PickedDistinct(cookielist, lastCt, h, Matcher(isIp, host, path, secure));
        SortSorts(list);
        list := Sort(list);
        okay := true;
      } else {
        NothingPicked(Matcher(isIp, host, path, secure));
      }
      Found(host, path, secure, now, old(cookielist), okay, list);
      FoundAsStandard(host, path, secure, now, old(cookielist), okay, list);
    }

    /** Why the outcome of a lookup is right. */
    lemma Found(host: string, path: string, secure: bool, now: int, before: Buckets, okay: bool, list: seq<Cookie>)
      requires Valid() && (okay <==> before[CookieHash(isIp, Some(host))] != [])
      requires cookielist == if okay then Sift(before, NotExpired(now)) else before
      requires var all := Keep(cookielist[CookieHash(isIp, Some(host))], Matcher(isIp, host, path, secure));
        multiset(list) == multiset(First(MAX_COOKIE_SEND_AMOUNT, all))
      ensures |list| <= MAX_COOKIE_SEND_AMOUNT
      ensures forall c :: c in list ==>
                InJar(cookielist, c) && Matches(isIp, c, host, path, secure) && !Expired(c, now)
      ensures |list| < MAX_COOKIE_SEND_AMOUNT ==>
                forall c :: InJar(cookielist, c) && Matches(isIp, c, host, path, secure) ==>
                (c in list <==> CookieHash(isIp, c.domain) == CookieHash(isIp, Some(host)))
      ensures |list| < MAX_COOKIE_SEND_AMOUNT ==> forall c ::
                InJar(cookielist, c) && Matches(isIp, c, host, path, secure) && Indexable(isIp, c) ==> c in list
    {
      hide CookieHash, Matches, Indexable, Expired, Hashed, UniqueKeys, Numbered, NoneBefore;
      var h := CookieHash(isIp, Some(host));
      var all := Keep(cookielist[h], Matcher(isIp, host, path, secure));
      var picked := First(MAX_COOKIE_SEND_AMOUNT, all);
      SamePicked(list, picked);
      forall c | c in list
        ensures InJar(cookielist, c) && Matches(isIp, c, host, path, secure) && !Expired(c, now)
      {
        assert c in all && c in cookielist[h];
        assert okay && c in Keep(before[h], NotExpired(now));
      }
      forall c | InJar(cookielist, c)
        ensures CookieHash(isIp, c.domain) == h <==> c in cookielist[h]
      {
        InItsBucket(isIp, cookielist, c);
        if c in cookielist[h] {
          var i :| 0 <= i < |cookielist[h]| && cookielist[h][i] == c;
          HashedAt(isIp, cookielist, h, i);
        }
      }
      if |list| < MAX_COOKIE_SEND_AMOUNT {
        forall c | InJar(cookielist, c) && Matches(isIp, c, host, path, secure)
          ensures c in list <==> c in cookielist[h]
        {
          assert c in all <==> c in cookielist[h];
          assert c in list <==> c in picked;
        }
        forall c | InJar(cookielist, c) && Matches(isIp, c, host, path, secure) && Indexable(isIp, c)
          ensures c in list
        {
          IndexFinds(isIp, c, host, path, secure);
        }
      }
    }

    /** Why it is what the standard sends. */
    lemma FoundAsStandard(host: string, path: string, secure: bool, now: int, before: Buckets, okay: bool,
                          list: seq<Cookie>)
      requires Hashed(isIp, before) && (okay <==> before[CookieHash(isIp, Some(host))] != [])
      requires cookielist == if okay then Sift(before, NotExpired(now)) else before
      requires forall c :: c in list ==>
                 InJar(cookielist, c) && Matches(isIp, c, host, path, secure) && !Expired(c, now)
      requires |list| < MAX_COOKIE_SEND_AMOUNT ==> forall c ::
                 InJar(cookielist, c) && Matches(isIp, c, host, path, secure) ==>
                 (c in list <==> CookieHash(isIp, c.domain) == CookieHash(isIp, Some(host)))
      requires |list| <= MAX_COOKIE_SEND_AMOUNT
      ensures |list| <= 150
      ensures |list| < 150 ==> forall c :: InJar(before, c) && HasStoredPath(c) ==>
                (c in list <==> Sends(isIp, c, host, path, secure) && (c.expires == 0 || now <= c.expires)
                                && CookieHash(isIp, c.domain) == CookieHash(isIp, Some(host)))
      ensures forall c :: c in list ==> (c.expires == 0 || now <= c.expires)
                                        && (HasStoredPath(c) ==> Sends(isIp, c, host, path, secure))
    {
      hide Sift, Hashed, InJar, CookieHash, Matches, Sends, HasStoredPath;
      forall c | HasStoredPath(c)
        ensures Matches(isIp, c, host, path, secure) <==> Sends(isIp, c, host, path, secure)
      {
        MatchesIsStandard(isIp, c, host, path, secure);
      }
      forall c | InJar(before, c)
        ensures CookieHash(isIp, c.domain) == CookieHash(isIp, Some(host)) ==> okay
        ensures InJar(cookielist, c) <==> okay ==> !Expired(c, now)
      {
        InItsBucket(isIp, before, c);
        if okay {
          SiftedContents(before, cookielist, NotExpired(now), c);
        }
      }
    }

    lemma ValidIsHashed()
      requires Valid()
      ensures Hashed(isIp, cookielist)
    {
    }

    /** `Curl_cookie_clearsess`. The next expiry is left alone: session cookies have none. */
    method ClearSession()
      requires Valid()
      modifies this`cookielist, this`numCookies
      ensures Valid() && cookielist == Sift(old(cookielist), Persistent())
      ensures forall c :: InJar(cookielist, c) <==> InJar(old(cookielist), c) && c.expires != 0
    {
      hide Keep, Total, Hashed, UniqueKeys, Numbered, NoneBefore;
      ghost var before := cookielist;
      for i := 0 to BUCKETS
        invariant forall b {:trigger cookielist[b]} :: 0 <= b < BUCKETS ==>
                    cookielist[b] == if b < i then Keep(before[b], Persistent()) else before[b]
        invariant numCookies == Total(cookielist)
      {
        var kept, gone := DropSession(cookielist[i]);
        TotalUpdate(cookielist, i, kept);
        cookielist := cookielist[i := kept];
        numCookies := numCookies - gone;
      }
      assert cookielist == Sift(before, Persistent());
      SiftedKeeps(isIp, before, cookielist, Persistent(), lastCt, nextExpiration);
      forall c
        ensures InJar(cookielist, c) <==> InJar(before, c) && c.expires != 0
      {
        SiftedContents(before, cookielist, Persistent(), c);
      }
    }

    /** `Curl_cookie_clearall`. The next expiry stays, and may then be earlier than any later one. */
    method ClearAll()
      requires Valid()
      modifies this`cookielist, this`numCookies
      ensures Valid() && forall c :: !InJar(cookielist, c)
      ensures numCookies == 0
    {
      for i := 0 to BUCKETS
        invariant forall b :: 0 <= b < i ==> cookielist[b] == []
      {
        cookielist := cookielist[i := []];
      }
      numCookies := 0;
      TotalEmpty(cookielist);
    }
  }

  lemma SamePicked(list: seq<Cookie>, picked: seq<Cookie>)
    requires multiset(list) == multiset(picked)
    ensures |list| == |picked| && forall c :: c in list <==> c in picked
  {
    assert |list| == |multiset(list)| == |multiset(picked)| == |picked|;
    assert forall c :: c in list <==> c in multiset(list);
    assert forall c :: c in picked <==> c in multiset(picked);
  }

  lemma HashedAt(isIp: HostClass, bs: Buckets, b: nat, i: nat)
    requires Hashed(isIp, bs) && b < BUCKETS && i < |bs[b]|
    ensures CookieHash(isIp, bs[b][i].domain) == b
  {
  }

  lemma InItsBucket(isIp: HostClass, bs: Buckets, c: Cookie)
    requires Hashed(isIp, bs) && InJar(bs, c)
    ensures c in bs[CookieHash(isIp, c.domain)]
  {
    var b :| 0 <= b < BUCKETS && c in bs[b];
    var i :| 0 <= i < |bs[b]| && bs[b][i] == c;
  }

  lemma NothingPicked(f: Cookie -> bool)
    ensures Keep([], f) == [] && First(MAX_COOKIE_SEND_AMOUNT, []) == [] && SortedCookies([])
  {
  }

  function First(n: nat, cs: seq<Cookie>): seq<Cookie> {
    if |cs| <= n then cs else cs[..n]
  }

  /** The loop of `Curl_cookie_getlist`: collects matching cookies, up to a number. */
  method Pick(bucket: seq<Cookie>, f: Cookie -> bool) returns (list: seq<Cookie>)
    ensures list == First(MAX_COOKIE_SEND_AMOUNT, Keep(bucket, f))
  {
    hide Keep;
    list := [];
    var i := 0;
    assert bucket[..0] == [];
    KeepNothing(f);
    while i < |bucket| && |list| < MAX_COOKIE_SEND_AMOUNT
      invariant 0 <= i <= |bucket| && list == Keep(bucket[..i], f) && |list| <= MAX_COOKIE_SEND_AMOUNT
    {
      assert bucket[..i + 1] == bucket[..i] + [bucket[i]];
      KeepSnoc(bucket[..i], bucket[i], f);
      if f(bucket[i]) {
        list := list + [bucket[i]];
      }
      i := i + 1;
    }
    KeepPrefix(bucket, i, f);
    assert bucket[..|bucket|] == bucket;
  }

  lemma PickedDistinct(bs: Buckets, last: nat, h: nat, f: Cookie -> bool)
    requires Numbered(bs, last) && h < BUCKETS
    ensures DistinctCreation(First(MAX_COOKIE_SEND_AMOUNT, Keep(bs[h], f)))
  {
    var at := KeepPlaces(bs[h], f);
    var all := Keep(bs[h], f);
    forall i, j | 0 <= i < j < |all|
      ensures all[i].creation != all[j].creation
    {
      assert bs[h][at[i]] == all[i] && bs[h][at[j]] == all[j];
    }
  }

  lemma ReplacedIs(bucket: seq<Cookie>, co: Cookie)
    ensures var k := FirstSame(bucket, co);
            && Inherit(bucket, co) == (if k < |bucket| then co.(creation := bucket[k].creation) else co)
            && Replaced(bucket, co) ==
               (if k < |bucket| then bucket[..k] + bucket[k + 1..] else bucket) + [Inherit(bucket, co)]
  {
    hide FirstSame;
  }

  lemma NumberedMore(bs: Buckets, last: nat)
    requires Numbered(bs, last)
    ensures Numbered(bs, last + 1)
  {
  }

  lemma {:induction false} TotalEmpty(bs: seq<seq<Cookie>>)
    requires forall b :: 0 <= b < |bs| ==> bs[b] == []
    ensures Total(bs) == 0
  {
    if bs != [] {
      TotalEmpty(bs[1..]);
    }
  }

  lemma NothingExpired(bs: Buckets, next: int, now: int)
    requires NoneBefore(bs, next) && now < next
    ensures Sift(bs, NotExpired(now)) == bs
  {
    forall b | 0 <= b < BUCKETS
      ensures Keep(bs[b], NotExpired(now)) == bs[b]
    {
      KeepAll(bs[b], NotExpired(now));
    }
  }
}
