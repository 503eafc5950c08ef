/** Which hosts and paths a cookie is for, and the hash that spreads cookies over the buckets of the
    jar. Strings are sequences of characters without a terminator. */
module CookieMatch {
  import opened Common

  /** `Curl_raw_toupper`: ASCII only. */
  function Upper(c: char): char {
    if 'a' <= c <= 'z' then (c as int - 32) as char else c
  }

  /** The case-folded string; two strings are equal for `curl_strequal` iff they fold to the same. */
  function Fold(s: string): (t: string)
    ensures |t| == |s|
  {
    seq(|s|, i requires 0 <= i < |s| => Upper(s[i]))
  }

  lemma FoldParts(a: string, b: string)
    ensures Fold(a + b) == Fold(a) + Fold(b)
  {
  }

  /** `cookie_tailmatch` */
  predicate TailMatch(domain: string, host: string) {
    var k := |host| - |domain|;
    k >= 0 && Fold(domain) == Fold(host[k..]) && (k == 0 || host[k - 1] == '.')
  }

  /** Section 5.1.3 of RFC 6265, for host names: the same name, or a name below it. */
  ghost predicate DomainMatch(domain: string, host: string) {
    || Fold(host) == Fold(domain)
    || exists labels: string :: Fold(host) == Fold(labels + "." + domain)
  }

  /** The tail match of the code is the domain match of the standard. */
  lemma TailMatchIsDomainMatch(domain: string, host: string)
    ensures TailMatch(domain, host) <==> DomainMatch(domain, host)
  {
    var k := |host| - |domain|;
    if TailMatch(domain, host) {
      if k == 0 {
        assert host[k..] == host;
      } else {
        var labels := host[..k - 1];
        assert host == (labels + ".") + host[k..];
        FoldParts(labels + ".", host[k..]);
        FoldParts(labels + ".", domain);
        assert Fold(host) == Fold(labels + "." + domain);
      }
    }
    if DomainMatch(domain, host) {
      if Fold(host) == Fold(domain) {
        assert host[0..] == host;
      } else {
        var labels: string :| Fold(host) == Fold(labels + "." + domain);
        BelowTailMatches(domain, host, labels);
      }
    }
  }

  lemma BelowTailMatches(domain: string, host: string, labels: string)
    requires Fold(host) == Fold(labels + "." + domain)
    ensures TailMatch(domain, host)
  {
    var k := |host| - |domain|;
    var name := labels + "." + domain;
    assert |name| == |host| && k == |labels| + 1;
    forall i | 0 <= i < |domain|
      ensures Fold(domain)[i] == Fold(host[k..])[i]
    {
      assert name[k + i] == domain[i];
      assert Fold(host)[k + i] == Fold(name)[k + i];
    }
    assert Fold(host)[k - 1] == Fold(name)[k - 1] && name[k - 1] == '.';
    OnlyDotFoldsToDot(host[k - 1]);
  }

  lemma OnlyDotFoldsToDot(c: char)
    ensures Upper(c) == '.' <==> c == '.'
  {
  }

  /** `pathmatch` */
  predicate PathMatch(cookiePath: string, uriPath: string) {
    if |cookiePath| == 1 then true
    else
      var uri := if uriPath == "" || uriPath[0] != '/' then "/" else uriPath;
      if |uri| < |cookiePath| then false
      else if uri[..|cookiePath|] != cookiePath then false
      else |cookiePath| == |uri| || uri[|cookiePath|] == '/'
  }

  /** `sanitize_cookie_path` on the path text `p`. */
  function SanitizePath(p: string): (q: string) {
    var p1 := if p != "" && p[0] == '"' then p[1..] else p;
    var p2 := if p != "" && p[0] == '"' && p1 != "" && p1[|p1| - 1] == '"' then p1[..|p1| - 1] else p1;
    if p2 == "" || p2[0] != '/' then "/"
    else if |p2| > 1 && p2[|p2| - 1] == '/' then p2[..|p2| - 1]
    else p2
  }

  /** Section 5.1.4 of RFC 6265: the cookie path is the request path, or a prefix of it that ends at a
      slash. */
  ghost predicate StandardPathMatch(cookiePath: string, requestPath: string) {
    || requestPath == cookiePath
    || (cookiePath <= requestPath && cookiePath != "" && cookiePath[|cookiePath| - 1] == '/')
    || (cookiePath < requestPath && requestPath[|cookiePath|] == '/')
  }

  /** A sanitized path starts with a slash and does not end with one, unless that is all there is; one
      more trailing slash may have been there, so sanitizing is not always idempotent. */
  lemma SanitizedForm(p: string)
    ensures var q := SanitizePath(p);
      q != "" && q[0] == '/' && (q == p || |q| < |p| || q == "/")
    ensures var q := SanitizePath(p);
      SanitizePath(q) == q <==> q == "/" || q[|q| - 1] != '/'
  {
  }

  /** What a stored path can be: any text that starts with a slash. */
  predicate IsStored(path: string) {
    path != "" && path[0] == '/'
  }

  lemma StoredPaths(path: string)
    ensures IsStored(path) <==> exists raw :: path == SanitizePath(raw)
  {
    if IsStored(path) {
      assert path == SanitizePath(path + "/");
    }
    forall raw | path == SanitizePath(raw)
      ensures IsStored(path)
    {
      SanitizedForm(raw);
    }
  }

  /** The path of a request as the standard sees it: one that is not absolute counts as the root. */
  function RequestPath(uriPath: string): string {
    if uriPath == "" || uriPath[0] != '/' then "/" else uriPath
  }

  /** A cookie path that still ends with a slash, and the request goes below it. */
  predicate BelowTrailingSlash(path: string, requestPath: string) {
    LosesSlash(path) && path < requestPath && requestPath[|path|] != '/'
  }

  /** The path ends with a slash that sanitizing it would take off. */
  predicate LosesSlash(path: string) {
    |path| > 1 && path[|path| - 1] == '/'
  }

  /** The match alone: for one and the same cookie path, the code decides about any request as the
      standard does, unless the path ends with a slash and the request goes below it. */
  lemma PathMatchIsStandard(path: string, uriPath: string)
    requires IsStored(path)
    ensures var requestPath := RequestPath(uriPath);
            (PathMatch(path, uriPath) <==> StandardPathMatch(path, requestPath))
            <==> !BelowTrailingSlash(path, requestPath)
  {
    var requestPath := RequestPath(uriPath);
    if |path| > 1 {
      assert path <= requestPath <==> |path| <= |requestPath| && requestPath[..|path|] == path;
    } else {
      assert path == "/";
    }
  }

  // ----- the path of a cookie

  function LastSlash(path: string): (i: nat)
    requires IsStored(path)
    ensures i < |path| && path[i] == '/' && forall j :: i < j < |path| ==> path[j] != '/'
  {
    var n := |path| - 1;
    if path[n] == '/' then n else LastSlash(path[..n])
  }

  /** Section 5.1.4 of RFC 6265: the default path for cookies set by a request. */
  function DefaultPath(uriPath: string): (d: string)
    requires IsStored(uriPath)
    ensures IsStored(d)
  {
    if LastSlash(uriPath) == 0 then "/" else uriPath[..LastSlash(uriPath)]
  }

  /** Section 5.2.4: the path that a header with the attribute `Path=attr` gives a cookie; "" stands for
      no attribute as well. */
  function StandardPath(attr: string, uriPath: string): (p: string)
    requires IsStored(uriPath)
    ensures IsStored(p)
  {
    if IsStored(attr) then attr else DefaultPath(uriPath)
  }

  /** The path that `storecookie` gives it. */
  function CookiePath(attr: string, uriPath: string): (p: string)
    requires IsStored(uriPath)
    ensures IsStored(p)
  {
    SanitizePath(if attr != "" then attr else uriPath[..LastSlash(uriPath) + 1])
  }

  /** Without an attribute the two are the same. */
  lemma DefaultIsStandard(uriPath: string)
    requires IsStored(uriPath)
    ensures CookiePath("", uriPath) == StandardPath("", uriPath)
  {
    var i := LastSlash(uriPath);
    assert uriPath[..i + 1][..i] == uriPath[..i];
  }

  /** A request that is matched only because a slash was taken off the attribute: the one for the path
      without the slash, or, if all that is left is the root, any that does not start with two. */
  predicate OnlyWithoutSlash(attr: string, requestPath: string) {
    LosesSlash(attr) && if attr == "//" then !(attr <= requestPath) else requestPath == attr[..|attr| - 1]
  }

  /** From the header to the request, the code decides as the standard does exactly unless,
      without an attribute, the default path ends with a slash and the request goes below it;
      with an absolute attribute, the request is matched only because a slash was taken off;
      with any other one but a quoted one, the default path does not match, which the code forgets. */
  lemma CookiePathIsStandard(attr: string, setPath: string, uriPath: string)
    requires IsStored(setPath)
    ensures var ours := PathMatch(CookiePath(attr, setPath), uriPath);
            var standard := StandardPathMatch(StandardPath(attr, setPath), RequestPath(uriPath));
            && (attr == "" ==>
                  ((ours <==> standard) <==> !BelowTrailingSlash(DefaultPath(setPath), RequestPath(uriPath))))
            && (IsStored(attr) ==> ((ours <==> standard) <==> !OnlyWithoutSlash(attr, RequestPath(uriPath))))
            && (attr != "" && attr[0] != '/' && attr[0] != '"' ==>
                  ((ours <==> standard) <==> StandardPathMatch(DefaultPath(setPath), RequestPath(uriPath))))
  {
    var requestPath := RequestPath(uriPath);
    if attr == "" {
      DefaultIsStandard(setPath);
      PathMatchIsStandard(DefaultPath(setPath), uriPath);
    } else if IsStored(attr) {
      AbsoluteIsStandard(attr, uriPath);
    }
  }

  lemma AbsoluteIsStandard(attr: string, uriPath: string)
    requires IsStored(attr)
    ensures var requestPath := RequestPath(uriPath);
            (PathMatch(SanitizePath(attr), uriPath) <==> StandardPathMatch(attr, requestPath))
            <==> !OnlyWithoutSlash(attr, requestPath)
  {
    var path, requestPath := SanitizePath(attr), RequestPath(uriPath);
    PathMatchIsStandard(path, uriPath);
    if LosesSlash(attr) {
      var n := |attr| - 1;
      assert path == attr[..n] && attr == path + "/";
      assert attr <= requestPath <==> n < |requestPath| && requestPath[..n] == path && requestPath[n] == '/';
    }
  }

  /** With an attribute that is not absolute, quoted or not, code and standard agree on all requests
      exactly if the code happens to keep the default path and that does not end with a slash. */
  lemma OtherPathIsStandard(attr: string, setPath: string)
    requires IsStored(setPath) && attr != "" && attr[0] != '/'
    ensures (forall r :: IsStored(r) ==>
               (PathMatch(CookiePath(attr, setPath), r) <==> StandardPathMatch(StandardPath(attr, setPath), r)))
            <==> CookiePath(attr, setPath) == DefaultPath(setPath) && !LosesSlash(DefaultPath(setPath))
  {
    var path, default := CookiePath(attr, setPath), DefaultPath(setPath);
    hide CookiePath, DefaultPath, SanitizePath;
    if path == default {
      forall r | IsStored(r)
        ensures (PathMatch(path, r) <==> StandardPathMatch(path, r)) <==> !BelowTrailingSlash(path, r)
      {
        PathMatchIsStandard(path, r);
      }
      if LosesSlash(path) {
        var below := path + "x";
        assert path <= below;
        assert BelowTrailingSlash(path, below) && IsStored(below);
      }
    } else {
      assert PathMatch(path, path) && StandardPathMatch(default, default);
      assert !(StandardPathMatch(default, path) && PathMatch(path, default));
    }
  }

  /** A header without a path sent by a request for `/a//b`: the default path ends with a slash, and the
      cookie is not sent below. */
  lemma TrailingSlashMissed()
    ensures CookiePath("", "/a//b") == StandardPath("", "/a//b") == "/a/"
    ensures !PathMatch("/a/", "/a/b") && StandardPathMatch("/a/", "/a/b")
  {
    DefaultIsStandard("/a//b");
    assert "/a//b"[..4] == "/a//" && "/a//"[3] == '/' && "/a//b"[..3] == "/a/";
    assert LastSlash("/a//b") == 3;
    assert "/a/" <= "/a/b";
  }

  /** `Path=/foo/`: the cookie is sent to `/foo`, which the standard does not want. */
  lemma TrailingSlashSent(setPath: string)
    requires IsStored(setPath)
    ensures CookiePath("/foo/", setPath) == "/foo" && StandardPath("/foo/", setPath) == "/foo/"
    ensures PathMatch("/foo", "/foo") && !StandardPathMatch("/foo/", "/foo")
  {
    assert "/foo/"[..4] == "/foo";
  }

  /** `Path=x` from `/a/b`: the cookie is sent everywhere, and not only below `/a`. */
  lemma RelativePathSent()
    ensures CookiePath("x", "/a/b") == "/" && StandardPath("x", "/a/b") == "/a"
    ensures PathMatch("/", "/c") && !StandardPathMatch("/a", "/c")
  {
    assert LastSlash("/a/b") == 2 && "/a/b"[..2] == "/a";
  }

  /** `memrchr(s, '.', n)`: where the last dot of `s[..n]` is. */
  function LastDot(s: string, n: nat): (i: Option<nat>)
    requires n <= |s|
    ensures i.None? ==> forall j :: 0 <= j < n ==> s[j] != '.'
    ensures i.Some? ==> i.value < n && s[i.value] == '.' && forall j :: i.value < j < n ==> s[j] != '.'
  {
    if n == 0 then None
    else if s[n - 1] == '.' then Some(n - 1)
    else LastDot(s, n - 1)
  }

  /** `get_top_domain`: the last two labels. */
  function TopDomain(domain: string): string {
    var last := LastDot(domain, |domain|);
    if last.None? then domain
    else
      var first := LastDot(domain, last.value);
      if first.None? then domain else domain[first.value + 1..]
  }

  ghost predicate HasDot(domain: string) {
    exists i :: 0 <= i < |domain| && domain[i] == '.'
  }

  /** Where the last two labels start depends on the dots only, so equal tails with a dot in them have
      the same last two labels. */
  lemma TopOfTail(domain: string, host: string)
    requires TailMatch(domain, host) && HasDot(domain)
    ensures Fold(TopDomain(domain)) == Fold(TopDomain(host))
  {
    hide Fold, LastDot, TopDomain, TailMatch;
    TailIs(domain, host);
    var k := |host| - |domain|;
    var d := LastDot(domain, |domain|).value;
    var first := LastDot(domain, d);
    LastDotBelow(domain, host, |domain|, d);
    FirstDotBelow(domain, host, d);
    TopDomainIs(domain, d, first);
    TopDomainIs(host, k + d, LastDot(host, k + d));
    SameTail(domain, host, k, if first.Some? then first.value + 1 else 0);
  }

  lemma TailIs(domain: string, host: string)
    requires TailMatch(domain, host)
    ensures |domain| <= |host| && Fold(domain) == Fold(host[|host| - |domain|..])
  {
  }

  /** Equal tails stay equal when the same number of characters is taken off. */
  lemma SameTail(domain: string, host: string, k: nat, n: nat)
    requires k <= |host| && Fold(domain) == Fold(host[k..]) && n <= |domain|
    ensures Fold(domain[n..]) == Fold(host[k + n..])
    ensures domain[0..] == domain && host[0..] == host
  {
    hide Fold;
    FoldDrop(domain, n);
    FoldDrop(host[k..], n);
    assert host[k..][n..] == host[k + n..];
  }

  /** The dot before the last one in the host: that of the domain, or the one in front of it. */
  lemma FirstDotBelow(domain: string, host: string, d: nat)
    requires TailMatch(domain, host) && d < |domain|
    ensures var k := |host| - |domain|;
      LastDot(host, k + d) ==
      match LastDot(domain, d)
      case Some(first) => Some(k + first)
      case None => if k > 0 then Some(k - 1) else None
  {
    hide Fold;
    var k := |host| - |domain|;
    var first := LastDot(domain, d);
    if first.Some? {
      LastDotBelow(domain, host, d, first.value);
    } else {
      forall j | k <= j < k + d
        ensures host[j] != '.'
      {
        SameDot(domain, host, j - k);
      }
      if k > 0 {
        LastDotAt(host, k + d, k - 1);
      }
    }
  }

  lemma TopDomainIs(domain: string, d: nat, first: Option<nat>)
    requires LastDot(domain, |domain|) == Some(d) && LastDot(domain, d) == first
    ensures first.Some? ==> first.value < |domain|
    ensures TopDomain(domain) == if first.None? then domain else domain[first.value + 1..]
  {
  }

  /** The dots of a tail are where the dots of the domain are. */
  lemma SameDot(domain: string, host: string, i: nat)
    requires TailMatch(domain, host) && i < |domain|
    ensures domain[i] == '.' <==> host[|host| - |domain| + i] == '.'
  {
    var k := |host| - |domain|;
    assert Fold(domain)[i] == Fold(host[k..])[i];
    OnlyDotFoldsToDot(domain[i]);
    OnlyDotFoldsToDot(host[k + i]);
  }

  lemma LastDotBelow(domain: string, host: string, n: nat, d: nat)
    requires TailMatch(domain, host) && n <= |domain| && LastDot(domain, n) == Some(d)
    ensures LastDot(host, |host| - |domain| + n) == Some(|host| - |domain| + d)
  {
    var k := |host| - |domain|;
    SameDot(domain, host, d);
    forall j | k + d < j < k + n
      ensures host[j] != '.'
    {
      SameDot(domain, host, j - k);
    }
    LastDotAt(host, k + n, k + d);
  }

  lemma LastDotAt(s: string, n: nat, i: nat)
    requires i < n <= |s| && s[i] == '.' && forall j :: i < j < n ==> s[j] != '.'
    ensures LastDot(s, n) == Some(i)
  {
    var last := LastDot(s, n);
    assert last.Some?;
  }

  lemma FoldDrop(s: string, n: nat)
    requires n <= |s|
    ensures Fold(s[n..]) == Fold(s)[n..]
  {
  }

  const BUCKETS: nat := 63

  /** One turn of the loop of `cookie_hash_domain`, on a 64-bit `size_t`. */
  function HashOne(h: bv64, c: char): bv64 {
    (h + (h << 5)) ^ (Upper(c) as bv64)
  }

  /** The loop of `cookie_hash_domain`. */
  function HashFrom(h: bv64, s: string): bv64
    decreases |s|
  {
    if s == "" then h
    else HashFrom(HashOne(h, s[0]), s[1..])
  }

  function HashDomain(s: string): (b: nat)
    ensures b < BUCKETS
  {
    HashFrom(5381, s) as nat % BUCKETS
  }

  /** `Curl_host_is_ipnum`: which names are numerical addresses. Hexadecimal digits may have either
      case. */
  type HostClass = f: string -> bool | (forall a, b :: Fold(a) == Fold(b) ==> f(a) == f(b))
    witness (s => false)

  /** `cookiehash` */
  function CookieHash(isIp: HostClass, domain: Option<string>): (b: nat)
    ensures b < BUCKETS
  {
    if domain.None? || isIp(domain.value) then 0 else HashDomain(TopDomain(domain.value))
  }

  lemma {:induction false} HashIgnoresCase(h: bv64, a: string, b: string)
    requires Fold(a) == Fold(b)
    ensures HashFrom(h, a) == HashFrom(h, b)
    decreases |a|
  {
    assert |a| == |b|;
    if a != "" {
      assert Fold(a)[0] == Fold(b)[0];
      FoldDrop(a, 1);
      FoldDrop(b, 1);
      HashIgnoresCase(HashOne(h, a[0]), a[1..], b[1..]);
    }
  }

  /** Equal names share a bucket. */
  lemma SameNameSameBucket(isIp: HostClass, a: string, b: string)
    requires Fold(a) == Fold(b)
    ensures CookieHash(isIp, Some(a)) == CookieHash(isIp, Some(b))
  {
    if a != "" && HasDot(a) {
      assert b[0..] == b;
      TopOfTail(a, b);
      HashIgnoresCase(5381, TopDomain(a), TopDomain(b));
    } else {
      forall i | 0 <= i < |b|
        ensures b[i] != '.'
      {
        assert Fold(a)[i] == Fold(b)[i];
        OnlyDotFoldsToDot(a[i]);
        OnlyDotFoldsToDot(b[i]);
      }
      HashIgnoresCase(5381, a, b);
    }
  }

  /** A domain with a dot and all the hosts below it share a bucket, numerical addresses aside. */
  lemma TailMatchSameBucket(isIp: HostClass, domain: string, host: string)
    requires TailMatch(domain, host) && HasDot(domain) && !isIp(domain) && !isIp(host)
    ensures CookieHash(isIp, Some(domain)) == CookieHash(isIp, Some(host))
  {
    TopOfTail(domain, host);
    HashIgnoresCase(5381, TopDomain(domain), TopDomain(host));
  }

  lemma HashStep(h: bv64, c: char, rest: string, h2: bv64)
    requires h2 == HashOne(h, c)
    ensures HashFrom(h, [c] + rest) == if rest == "" then h2 else HashFrom(h2, rest)
  {
    hide HashOne;
    assert ([c] + rest)[1..] == rest;
  }

  lemma DotlessHashes()
    ensures HashFrom(5381, "h") == 177645 && HashFrom(5381, "w.h") == 193460180
  {
    hide HashFrom;
    assert "h" == ['h'] + "" && "w.h" == ['w'] + ".h" && ".h" == ['.'] + "h";
    HashStep(5381, 'h', "", 177645);
    HashStep(5381, 'w', ".h", 177650);
    HashStep(177650, '.', "h", 5862428);
    HashStep(5862428, 'h', "", 193460180);
  }

  /** Without a dot this fails: a cookie for `h` and all hosts below it tail-matches `w.h`, but is kept in
      another bucket. It gets into the jar from a cookie file, or from a header of `h` in a build in which
      libpsl lets it pass; without libpsl `bad_domain` refuses such a domain unless it is `localhost`. */
  lemma DotlessDomainMissed(isIp: HostClass)
    requires !isIp("h") && !isIp("w.h")
    ensures TailMatch("h", "w.h")
    ensures CookieHash(isIp, Some("h")) == 48 && CookieHash(isIp, Some("w.h")) == 32
  {
    hide HashFrom, TailMatch, TopDomain;
    DotlessHashes();
    DotlessTops();
  }

  /** It does not always happen: the hashes of the two names may be equal by chance. */
  lemma DotlessDomainFound(isIp: HostClass)
    requires !isIp("h") && !isIp("av.h")
    ensures TailMatch("h", "av.h")
    ensures CookieHash(isIp, Some("h")) == CookieHash(isIp, Some("av.h")) == 48
  {
    hide HashFrom, TailMatch, TopDomain;
    DotlessHashes();
    DotlessTops();
    LuckyHash();
  }

  lemma DotlessTops()
    ensures TailMatch("h", "w.h") && TailMatch("h", "av.h")
    ensures TopDomain("h") == "h" && TopDomain("w.h") == "w.h" && TopDomain("av.h") == "av.h"
  {
    assert "w.h"[2..] == "h" && "av.h"[3..] == "h";
    LastDotAt("w.h", 3, 1);
    LastDotAt("av.h", 4, 2);
  }

  lemma LuckyHash()
    ensures HashFrom(5381, "av.h") == 6383649684
  {
    hide HashFrom;
    assert "av.h" == ['a'] + "v.h" && "v.h" == ['v'] + ".h" && ".h" == ['.'] + "h" && "h" == ['h'] + "";
    HashStep(5381, 'a', "v.h", 177636);
    HashStep(177636, 'v', ".h", 5861938);
    HashStep(5861938, '.', "h", 193443932);
    HashStep(193443932, 'h', "", 6383649684);
  }
}
