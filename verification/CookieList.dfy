/** Cookies, and what the jar does with the cookies of one bucket. */
module CookieList {
  import opened Common
  import opened CookieMatch

  /** `CURL_OFF_T_MAX` */
  const NEVER: int := 0x7fff_ffff_ffff_ffff

  /** `struct Cookie`. `expires` is 0 for a session cookie. */
  datatype Cookie = Cookie(
    name: string, value: string, path: Option<string>, domain: Option<string>,
    expires: int, creation: nat,
    tailmatch: bool, secure: bool, live: bool, httponly: bool,
    prefixSecure: bool, prefixHost: bool)

  /** `curl_strequal`, for pointers that may be null. */
  predicate SameText(a: Option<string>, b: Option<string>) {
    match (a, b)
    case (Some(s), Some(t)) => Fold(s) == Fold(t)
    case (None, None) => true
    case _ => false
  }

  /** The test of `replace_existing` for the cookie that a new one takes the place of: the same name,
      domain in any case, path, and, if there is a domain, the same tail matching. */
  predicate SameKey(a: Cookie, b: Cookie) {
    && a.name == b.name
    && SameText(a.domain, b.domain)
    && (a.domain.Some? ==> a.tailmatch == b.tailmatch)
    && a.path == b.path
  }

  lemma SameKeyIsEquivalence(a: Cookie, b: Cookie, c: Cookie)
    ensures SameKey(a, a)
    ensures SameKey(a, b) ==> SameKey(b, a)
    ensures SameKey(a, b) && SameKey(b, c) ==> SameKey(a, c)
  {
  }

  /** Where the cookie's path ends for the overlay test: at its second slash, or at its end. */
  function FirstSegment(path: string): (s: string)
    ensures s <= path
  {
    if path == "" then "" else path[..NextSlash(path, 1)]
  }

  function NextSlash(path: string, i: nat): (j: nat)
    requires i <= |path|
    ensures i <= j <= |path| && '/' !in path[i..j] && (j < |path| ==> path[j] == '/')
    decreases |path| - i
  {
    if i == |path| || path[i] == '/' then i else NextSlash(path, i + 1)
  }

  /** A cookie `co` that does not come over a secure origin must not be set over `old`, a secure one. */
  predicate Overlays(old_: Cookie, co: Cookie, secureOrigin: bool) {
    && old_.name == co.name
    && (match (old_.domain, co.domain)
        case (Some(d), Some(e)) => TailMatch(d, e) || TailMatch(e, d)
        case (None, None) => true
        case _ => false)
    && old_.path.Some? && co.path.Some?
    && old_.secure && !co.secure && !secureOrigin
    && FirstSegment(old_.path.value) <= co.path.value
  }

  /** What `replace_existing` says of its test is about segments: behind a secure cookie for `/login` the
      path `/login/en` is refused and `/loginhelper` is not. The test is a plain prefix test, and so does
      that exactly unless the new path goes on within the first segment of the old one. */
  lemma OverlayIsBySegment(old_: string, new_: string)
    requires IsStored(old_)
    ensures var segment := FirstSegment(old_);
            (segment <= new_ <==> StandardPathMatch(segment, new_))
            <==> !(segment != "/" && segment < new_ && new_[|segment|] != '/')
  {
    var segment := FirstSegment(old_);
    assert segment[0] == '/';
    assert |segment| > 1 ==> segment[|segment| - 1] == old_[|segment| - 1] != '/' by {
      if |segment| > 1 {
        assert old_[|segment| - 1] in old_[1..|segment|];
      }
    }
  }

  /** One of two cookies is for the domain of the other, or for one above it; or both have none. */
  ghost predicate SameSite(a: Cookie, b: Cookie) {
    match (a.domain, b.domain)
    case (Some(d), Some(e)) => DomainMatch(d, e) || DomainMatch(e, d)
    case (None, None) => true
    case _ => false
  }

  /** In the terms of RFC 6265: an insecure cookie from an insecure origin overlays a secure one of the
      same name, for a domain above or below or the same, if both have paths and the new one lies within
      the first segment of the old one, or goes on in it. */
  lemma OverlaysIs(old_: Cookie, co: Cookie, secureOrigin: bool)
    requires old_.path.Some? ==> IsStored(old_.path.value)
    ensures Overlays(old_, co, secureOrigin) <==>
            && old_.name == co.name && SameSite(old_, co)
            && old_.secure && !co.secure && !secureOrigin
            && old_.path.Some? && co.path.Some?
            && var segment, path := FirstSegment(old_.path.value), co.path.value;
               StandardPathMatch(segment, path)
               || (segment != "/" && segment < path && path[|segment|] != '/')
  {
    hide TailMatch, DomainMatch, StandardPathMatch, FirstSegment;
    if old_.domain.Some? && co.domain.Some? {
      TailMatchIsDomainMatch(old_.domain.value, co.domain.value);
      TailMatchIsDomainMatch(co.domain.value, old_.domain.value);
    }
    if old_.path.Some? && co.path.Some? {
      OverlayIsBySegment(old_.path.value, co.path.value);
    }
  }

  /** The path of the comment is refused. */
  lemma LoginHelperRefused(old_: Cookie, co: Cookie)
    requires old_.name == co.name && old_.secure && !co.secure && SameText(old_.domain, co.domain)
    requires old_.path == Some("/login") && co.path == Some("/loginhelper")
    ensures FirstSegment("/login") == "/login" && !StandardPathMatch("/login", "/loginhelper")
    ensures Overlays(old_, co, false) && !Admissible([old_], co, false)
  {
    assert NextSlash("/login", 1) == 6 by {
      assert '/' !in "/login"[1..6];
    }
    assert "/login"[..6] == "/login" && "/loginhelper"[..6] == "/login";
    if old_.domain.Some? {
      assert co.domain.value[0..] == co.domain.value;
    }
    assert Overlays([old_][0], co, false);
  }

  predicate Expired(co: Cookie, now: int) {
    co.expires != 0 && co.expires < now
  }

  /** The cookies of a list that satisfy a test, in order. */
  function Keep(cs: seq<Cookie>, f: Cookie -> bool): (r: seq<Cookie>)
    ensures |r| <= |cs|
    ensures forall c :: c in r <==> c in cs && f(c)
  {
    if cs == [] then []
    else
      var rest := Keep(cs[1..], f);
      assert cs == [cs[0]] + cs[1..];
      if f(cs[0]) then [cs[0]] + rest else rest
  }

  lemma KeepNothing(f: Cookie -> bool)
    ensures Keep([], f) == []
  {
  }

  lemma {:induction false} KeepSnoc(cs: seq<Cookie>, c: Cookie, f: Cookie -> bool)
    ensures Keep(cs + [c], f) == Keep(cs, f) + if f(c) then [c] else []
  {
    if cs == [] {
      assert cs + [c] == [c] && [c][1..] == [];
    } else {
      assert (cs + [c])[1..] == cs[1..] + [c];
      KeepSnoc(cs[1..], c, f);
    }
  }

  lemma {:induction false} KeepAll(cs: seq<Cookie>, f: Cookie -> bool)
    requires forall c :: c in cs ==> f(c)
    ensures Keep(cs, f) == cs
  {
    if cs != [] {
      KeepAll(cs[1..], f);
    }
  }

  lemma {:induction false} KeepPrefix(cs: seq<Cookie>, i: nat, f: Cookie -> bool)
    requires i <= |cs|
    ensures Keep(cs[..i], f) <= Keep(cs, f)
    decreases |cs| - i
  {
    if i < |cs| {
      assert cs[..i + 1] == cs[..i] + [cs[i]];
      KeepSnoc(cs[..i], cs[i], f);
      KeepPrefix(cs, i + 1, f);
    } else {
      assert cs[..i] == cs;
    }
  }

  /** The order of a list is kept: what is kept stands at increasing places of the list. */
  lemma {:induction false} KeepPlaces(cs: seq<Cookie>, f: Cookie -> bool) returns (at: seq<nat>)
    ensures |at| == |Keep(cs, f)|
    ensures forall i :: 0 <= i < |at| ==> at[i] < |cs| && cs[at[i]] == Keep(cs, f)[i]
    ensures forall i, j :: 0 <= i < j < |at| ==> at[i] < at[j]
  {
    at := [];
    if cs != [] {
      var n := |cs| - 1;
      assert cs == cs[..n] + [cs[n]];
      KeepSnoc(cs[..n], cs[n], f);
      hide Keep;
      at := KeepPlaces(cs[..n], f);
      if f(cs[n]) {
        at := at + [n];
      }
    }
  }

  function NotExpired(now: int): Cookie -> bool {
    (c: Cookie) => !Expired(c, now)
  }

  function Persistent(): Cookie -> bool {
    (c: Cookie) => c.expires != 0
  }

  /** The inner loop of `remove_expired`: walks one bucket, dropping expired cookies, counting them, and
      lowering `next` to the earliest expiry among the others. */
  method PurgeBucket(bucket: seq<Cookie>, now: int, next0: int) returns (kept: seq<Cookie>, gone: nat, next: int)
    ensures kept == Keep(bucket, NotExpired(now)) && |kept| + gone == |bucket|
    ensures next <= next0 && forall c :: c in kept && c.expires != 0 ==> next <= c.expires
    ensures next == next0 || exists c :: c in kept && c.expires == next != 0
  {
    hide Keep;
    kept, gone, next := [], 0, next0;
    ghost var first: Option<Cookie> := None;
    assert bucket[..0] == [];
    KeepNothing(NotExpired(now));
    for i := 0 to |bucket|
      invariant kept == Keep(bucket[..i], NotExpired(now)) && |kept| + gone == i
      invariant next <= next0 && forall c :: c in kept && c.expires != 0 ==> next <= c.expires
      invariant if first.None? then next == next0 else first.value in kept && first.value.expires == next != 0
    {
      var co := bucket[i];
      assert bucket[..i + 1] == bucket[..i] + [co];
      KeepSnoc(bucket[..i], co, NotExpired(now));
      if co.expires != 0 && co.expires < now {
        gone := gone + 1;
      } else {
        kept := kept + [co];
        if co.expires != 0 && co.expires < next {
          next, first := co.expires, Some(co);
        }
      }
    }
    assert bucket[..|bucket|] == bucket;
  }

  /** The inner loop of `Curl_cookie_clearsess`. */
  method DropSession(bucket: seq<Cookie>) returns (kept: seq<Cookie>, gone: nat)
    ensures kept == Keep(bucket, Persistent()) && |kept| + gone == |bucket|
  {
    kept, gone := [], 0;
    for i := 0 to |bucket|
      invariant kept == Keep(bucket[..i], Persistent()) && |kept| + gone == i
    {
      assert bucket[..i + 1] == bucket[..i] + [bucket[i]];
      KeepSnoc(bucket[..i], bucket[i], Persistent());
      if bucket[i].expires == 0 {
        gone := gone + 1;
      } else {
        kept := kept + [bucket[i]];
      }
    }
    assert bucket[..|bucket|] == bucket;
  }

  /** The first cookie of a bucket with the key of `co`; the length of the bucket if there is none. */
  function FirstSame(bucket: seq<Cookie>, co: Cookie): (k: nat)
    ensures k <= |bucket|
    ensures k < |bucket| ==> SameKey(bucket[k], co)
    ensures forall i :: 0 <= i < k ==> !SameKey(bucket[i], co)
  {
    if bucket == [] || SameKey(bucket[0], co) then 0 else 1 + FirstSame(bucket[1..], co)
  }

  /** When `replace_existing` lets a cookie in: it overlays no secure cookie, and it does not replace a
      cookie from a live transfer by one from a file. */
  predicate Admissible(bucket: seq<Cookie>, co: Cookie, secureOrigin: bool) {
    && (forall i :: 0 <= i < |bucket| ==> !Overlays(bucket[i], co, secureOrigin))
    && (var k := FirstSame(bucket, co); k < |bucket| ==> co.live || !bucket[k].live)
  }

  /** The loop of `replace_existing`: looks for a reason to refuse `co`, and for the cookie it replaces. */
  method FindExisting(bucket: seq<Cookie>, co: Cookie, secureOrigin: bool) returns (ok: bool, at: nat)
    ensures ok <==> Admissible(bucket, co, secureOrigin)
    ensures ok ==> at == FirstSame(bucket, co)
  {
    at := |bucket|;
    for i := 0 to |bucket|
      invariant forall j :: 0 <= j < i ==> !Overlays(bucket[j], co, secureOrigin)
      invariant at == |bucket| ==> forall j :: 0 <= j < i ==> !SameKey(bucket[j], co)
      invariant at != |bucket| ==> at < i && at == FirstSame(bucket, co) && (co.live || !bucket[at].live)
    {
      if Overlays(bucket[i], co, secureOrigin) {
        return false, at;
      }
      if at == |bucket| && SameKey(bucket[i], co) {
        FirstSameIs(bucket, co, i);
        if !co.live && bucket[i].live {
          return false, at;
        }
        at := i;
      }
    }
    if at == |bucket| {
      FirstSameIs(bucket, co, |bucket|);
    }
    return true, at;
  }

  lemma FirstSameIs(bucket: seq<Cookie>, co: Cookie, i: nat)
    requires i <= |bucket| && (i < |bucket| ==> SameKey(bucket[i], co))
    requires forall j :: 0 <= j < i ==> !SameKey(bucket[j], co)
    ensures FirstSame(bucket, co) == i
  {
  }

  /** The new cookie, with the creation number of the one it replaces. */
  function Inherit(bucket: seq<Cookie>, co: Cookie): Cookie {
    var k := FirstSame(bucket, co);
    if k < |bucket| then co.(creation := bucket[k].creation) else co
  }

  /** The bucket without the cookie that `co` replaces, and with `co` at the end. */
  function Replaced(bucket: seq<Cookie>, co: Cookie): seq<Cookie> {
    var k := FirstSame(bucket, co);
    (if k < |bucket| then bucket[..k] + bucket[k + 1..] else bucket) + [Inherit(bucket, co)]
  }

  /** `cookie_sort`: negative if `a` comes first. Longer paths, then longer domains, then longer names
      first; among equals, the one created last. */
  function CookieSort(a: Cookie, b: Cookie): int {
    if Length(a.path) != Length(b.path) then (if Length(b.path) > Length(a.path) then 1 else -1)
    else if Length(a.domain) != Length(b.domain) then (if Length(b.domain) > Length(a.domain) then 1 else -1)
    else if |a.name| != |b.name| then (if |b.name| > |a.name| then 1 else -1)
    else if b.creation > a.creation then 1 else -1
  }

  function Length(s: Option<string>): nat {
    if s.None? then 0 else |s.value|
  }

  predicate Before(a: Cookie, b: Cookie) {
    CookieSort(a, b) < 0
  }

  /** On cookies with different creation numbers the comparator is a strict total order. */
  lemma CookieSortIsOrder(a: Cookie, b: Cookie, c: Cookie)
    ensures a.creation != b.creation ==> (Before(a, b) <==> CookieSort(b, a) > 0)
    ensures a.creation != b.creation ==> (Before(a, b) <==> !Before(b, a))
    ensures Before(a, b) && Before(b, c) ==> Before(a, c)
  {
  }

  /** The Path attribute of the header that set a cookie, "" if there is none, and the path of the request
      that it came in reply to. */
  datatype Setting = Setting(attr: string, uriPath: string)

  predicate SetBy(co: Cookie, s: Setting) {
    IsStored(s.uriPath) && co.path == Some(CookiePath(s.attr, s.uriPath))
  }

  function StandardLength(s: Setting): nat
    requires IsStored(s.uriPath)
  {
    |StandardPath(s.attr, s.uriPath)|
  }

  /** Section 5.4 of RFC 6265: longer paths first, and among equally long ones what was created first. */
  predicate StandardBefore(a: Cookie, s: Setting, b: Cookie, t: Setting)
    requires SetBy(a, s) && SetBy(b, t)
  {
    || StandardLength(s) > StandardLength(t)
    || (StandardLength(s) == StandardLength(t) && a.creation < b.creation)
  }

  /** How much shorter the code's path is than that of the standard. */
  function Shortening(s: Setting): int
    requires IsStored(s.uriPath)
  {
    StandardLength(s) - |CookiePath(s.attr, s.uriPath)|
  }

  /** By nothing without an attribute, and by a slash at the end of an absolute one; one that is neither
      absolute nor quoted gives the root in place of the default path. */
  lemma ShorteningIs(s: Setting)
    requires IsStored(s.uriPath)
    ensures s.attr == "" ==> Shortening(s) == 0
    ensures IsStored(s.attr) ==> Shortening(s) == if LosesSlash(s.attr) then 1 else 0
    ensures s.attr != "" && s.attr[0] != '/' && s.attr[0] != '"' ==> Shortening(s) == |DefaultPath(s.uriPath)| - 1
  {
    DefaultIsStandard(s.uriPath);
  }

  /** What the code looks at when the paths are equally long. */
  predicate AheadOnTie(a: Cookie, b: Cookie) {
    || Length(a.domain) > Length(b.domain)
    || (Length(a.domain) == Length(b.domain)
        && (|a.name| > |b.name| || (|a.name| == |b.name| && a.creation > b.creation)))
  }

  /** Of two cookies, the code sends first the one that the standard sends first exactly if the lengths of
      the standard's paths are further apart than what the code shortens the first one more than the other,
      or exactly so far apart, and the first one is ahead on a tie. */
  lemma OrderIsStandard(a: Cookie, s: Setting, b: Cookie, t: Setting)
    requires a.creation != b.creation && SetBy(a, s) && SetBy(b, t) && StandardBefore(a, s, b, t)
    ensures var apart, more := StandardLength(s) - StandardLength(t), Shortening(s) - Shortening(t);
            Before(a, b) <==> apart > more || (apart == more && AheadOnTie(a, b))
  {
  }

  /** So for cookies whose attributes, if any, are absolute and do not end with a slash, it does exactly
      if the paths differ in length, or the one created first has the longer domain, or an equally long
      one and the longer name. */
  lemma OrderWithoutSlashes(a: Cookie, s: Setting, b: Cookie, t: Setting)
    requires a.creation != b.creation && SetBy(a, s) && SetBy(b, t) && StandardBefore(a, s, b, t)
    requires (s.attr == "" || IsStored(s.attr)) && !LosesSlash(s.attr)
    requires (t.attr == "" || IsStored(t.attr)) && !LosesSlash(t.attr)
    ensures Before(a, b) <==>
            || StandardLength(s) != StandardLength(t)
            || Length(a.domain) > Length(b.domain)
            || (Length(a.domain) == Length(b.domain) && |a.name| > |b.name|)
  {
    hide CookiePath, StandardPath, CookieSort;
    OrderIsStandard(a, s, b, t);
    ShorteningIs(s);
    ShorteningIs(t);
  }

  /** Two cookies whose names are equally long and differ, and that agree otherwise: the code sends first
      the one created last. A jar can have both: their keys are different. */
  lemma NewestFirst(a: Cookie, s: Setting, name: string)
    requires SetBy(a, s) && |name| == |a.name| && name != a.name
    ensures var b := a.(name := name, creation := a.creation + 1);
            !SameKey(a, b) && Before(b, a) && StandardBefore(a, s, b, s) && !StandardBefore(b, s, a, s)
  {
  }

  /** `x` with `Path=/foo/` and `long` with `Path=/foo`: the slash is gone, and the longer name wins. */
  lemma SlashForgotten(a: Cookie, setPath: string)
    requires IsStored(setPath)
    ensures var s, t := Setting("/foo/", setPath), Setting("/foo", setPath);
            var x, long := a.(name := "x", path := Some("/foo")), a.(name := "long", path := Some("/foo"));
            && SetBy(x, s) && SetBy(long, t) && !SameKey(x, long)
            && Before(long, x) && StandardBefore(x, s, long, t)
  {
    TrailingSlashSent(setPath);
  }

  predicate SortedCookies(cs: seq<Cookie>) {
    forall i, j :: 0 <= i < j < |cs| ==> Before(cs[i], cs[j])
  }

  predicate DistinctCreation(cs: seq<Cookie>) {
    forall i, j :: 0 <= i < j < |cs| ==> cs[i].creation != cs[j].creation
  }

  function Insert(c: Cookie, cs: seq<Cookie>): seq<Cookie> {
    if cs == [] || Before(c, cs[0]) then [c] + cs else [cs[0]] + Insert(c, cs[1..])
  }

  /** The order that `qsort` with `cookie_sort` leaves behind, see `SortUnique`. */
  function Sort(cs: seq<Cookie>): seq<Cookie> {
    if cs == [] then [] else Insert(cs[0], Sort(cs[1..]))
  }

  lemma {:induction false} InsertSorts(c: Cookie, cs: seq<Cookie>)
    requires SortedCookies(cs) && forall x :: x in cs ==> x.creation != c.creation
    ensures SortedCookies(Insert(c, cs)) && multiset(Insert(c, cs)) == multiset{c} + multiset(cs)
  {
    if cs == [] {
    } else if Before(c, cs[0]) {
      forall i | 0 <= i < |cs|
        ensures Before(c, cs[i])
      {
        CookieSortIsOrder(c, cs[0], cs[i]);
      }
    } else {
      assert cs == [cs[0]] + cs[1..];
      InsertSorts(c, cs[1..]);
      CookieSortIsOrder(c, cs[0], c);
      var rest := Insert(c, cs[1..]);
      forall i | 0 <= i < |rest|
        ensures Before(cs[0], rest[i])
      {
        assert rest[i] in multiset(rest);
        assert rest[i] == c || rest[i] in cs[1..];
      }
    }
  }

  /** `Sort` sorts, and loses and invents nothing. */
  lemma {:induction false} SortSorts(cs: seq<Cookie>)
    requires DistinctCreation(cs)
    ensures SortedCookies(Sort(cs)) && multiset(Sort(cs)) == multiset(cs)
  {
    if cs != [] {
      SortSorts(cs[1..]);
      assert cs == [cs[0]] + cs[1..];
      forall x | x in Sort(cs[1..])
        ensures x.creation != cs[0].creation
      {
        assert x in multiset(Sort(cs[1..]));
        assert x in cs[1..];
      }
      InsertSorts(cs[0], Sort(cs[1..]));
    }
  }

  /** There is one way only to sort cookies with distinct creation numbers, so the result of `qsort`
      does not depend on how it works. */
  lemma {:induction false} SortUnique(a: seq<Cookie>, b: seq<Cookie>)
    requires SortedCookies(a) && SortedCookies(b) && DistinctCreation(a) && multiset(a) == multiset(b)
    ensures a == b
  {
    hide SortedCookies, DistinctCreation;
    assert |a| == |multiset(a)| == |multiset(b)| == |b|;
    if a != [] {
      SameFirst(a, b);
      assert a == [a[0]] + a[1..] && b == [b[0]] + b[1..];
      assert multiset(a[1..]) == multiset(a) - multiset{a[0]};
      assert multiset(b[1..]) == multiset(b) - multiset{b[0]};
      SortedTail(a);
      SortedTail(b);
      SortUnique(a[1..], b[1..]);
    }
  }

  lemma SameFirst(a: seq<Cookie>, b: seq<Cookie>)
    requires SortedCookies(a) && SortedCookies(b) && DistinctCreation(a) && multiset(a) == multiset(b)
    requires a != [] && b != []
    ensures a[0] == b[0]
  {
    assert a[0] in multiset(b) && b[0] in multiset(a);
    if a[0] != b[0] {
      var i :| 0 < i < |b| && b[i] == a[0];
      var j :| 0 < j < |a| && a[j] == b[0];
      CookieSortIsOrder(a[0], b[0], a[0]);
      assert false;
    }
  }

  lemma SortedTail(a: seq<Cookie>)
    requires a != []
    ensures SortedCookies(a) ==> SortedCookies(a[1..])
    ensures DistinctCreation(a) ==> DistinctCreation(a[1..])
  {
  }
}
