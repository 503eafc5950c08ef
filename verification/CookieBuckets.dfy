/** The buckets of a jar as values: the invariants of the jar, and why dropping cookies and adding one
    keep them. */
module CookieBuckets {
  import opened Common
  import opened CookieMatch
  import opened CookieList

  type Buckets = bs: seq<seq<Cookie>> | |bs| == BUCKETS witness seq(BUCKETS, _ => [])

  /** Every cookie is in the bucket that its domain hashes to. */
  ghost predicate Hashed(isIp: HostClass, bs: Buckets) {
    forall b, i {:trigger bs[b][i]} :: 0 <= b < BUCKETS && 0 <= i < |bs[b]| ==>
      CookieHash(isIp, bs[b][i].domain) == b
  }

  /** No two cookies of a bucket have the same key. */
  ghost predicate UniqueKeys(bs: Buckets) {
    forall b, i, j {:trigger bs[b][i], bs[b][j]} :: 0 <= b < BUCKETS && 0 <= i < j < |bs[b]| ==>
      !SameKey(bs[b][i], bs[b][j])
  }

  /** Creation numbers are at most the last one given out, and all different. */
  ghost predicate Numbered(bs: Buckets, last: nat) {
    && (forall b, i {:trigger bs[b][i]} :: 0 <= b < BUCKETS && 0 <= i < |bs[b]| ==> bs[b][i].creation <= last)
    && (forall b, i, d, j {:trigger bs[b][i], bs[d][j]} ::
          0 <= b < BUCKETS && 0 <= i < |bs[b]| && 0 <= d < BUCKETS && 0 <= j < |bs[d]| && (b != d || i != j)
          ==> bs[b][i].creation != bs[d][j].creation)
  }

  /** No cookie expires before `next`, as far as it expires at all. */
  ghost predicate NoneBefore(bs: Buckets, next: int) {
    forall b, i {:trigger bs[b][i]} :: 0 <= b < BUCKETS && 0 <= i < |bs[b]| ==>
      (bs[b][i].expires == 0 || next <= bs[b][i].expires) && bs[b][i].expires <= NEVER
  }

  /** `next` is the earliest expiry in the first `n` buckets, the default if nothing there expires. */
  ghost predicate EarliestBelow(bs: Buckets, next: int, n: nat) {
    && n <= BUCKETS && next <= NEVER
    && (forall b, i {:trigger bs[b][i]} :: 0 <= b < n && 0 <= i < |bs[b]| ==>
          bs[b][i].expires == 0 || next <= bs[b][i].expires)
    && (next == NEVER || exists b, i :: 0 <= b < n && 0 <= i < |bs[b]| && bs[b][i].expires == next != 0)
  }

  lemma EarliestStep(bs: Buckets, n: nat, kept: seq<Cookie>, next0: int, next: int)
    requires n < BUCKETS && EarliestBelow(bs, next0, n)
    requires next <= next0 && forall c :: c in kept && c.expires != 0 ==> next <= c.expires
    requires next == next0 || exists c :: c in kept && c.expires == next != 0
    ensures EarliestBelow(bs[n := kept], next, n + 1)
  {
    var after: Buckets := bs[n := kept];
    forall b, i | 0 <= b < n + 1 && 0 <= i < |after[b]|
      ensures after[b][i].expires == 0 || next <= after[b][i].expires
    {
      if b < n {
        assert after[b][i] == bs[b][i];
      }
    }
    if next != NEVER {
      if next == next0 {
        var b, i :| 0 <= b < n && 0 <= i < |bs[b]| && bs[b][i].expires == next != 0;
        assert after[b][i].expires == next;
      } else {
        var c :| c in kept && c.expires == next != 0;
        var i :| 0 <= i < |kept| && kept[i] == c;
        assert after[n][i].expires == next;
      }
    }
  }

  ghost predicate InJar(bs: Buckets, co: Cookie) {
    exists b :: 0 <= b < BUCKETS && co in bs[b]
  }

  function Total(bs: seq<seq<Cookie>>): nat {
    if bs == [] then 0 else |bs[0]| + Total(bs[1..])
  }

  lemma {:induction false} TotalUpdate(bs: seq<seq<Cookie>>, b: nat, cs: seq<Cookie>)
    requires b < |bs|
    ensures Total(bs[b := cs]) == Total(bs) - |bs[b]| + |cs|
  {
    if b == 0 {
      assert bs[0 := cs][1..] == bs[1..];
    } else {
      assert bs[b := cs][1..] == bs[1..][b - 1 := cs];
      TotalUpdate(bs[1..], b - 1, cs);
    }
  }

  /** Keys are unique in the whole jar, since cookies with one key hash alike. */
  lemma UniqueInJar(isIp: HostClass, bs: Buckets, b: nat, i: nat, d: nat, j: nat)
    requires Hashed(isIp, bs) && UniqueKeys(bs)
    requires b < BUCKETS && i < |bs[b]| && d < BUCKETS && j < |bs[d]|
    requires SameKey(bs[b][i], bs[d][j])
    ensures b == d && i == j
  {
    var x, y := bs[b][i], bs[d][j];
    if x.domain.Some? {
      SameNameSameBucket(isIp, x.domain.value, y.domain.value);
    }
    SameKeyIsEquivalence(x, y, x);
  }

  /** `after` has of every bucket of `before` what satisfies `f`, in order. */
  ghost predicate Sifted(before: Buckets, after: Buckets, f: Cookie -> bool) {
    forall b {:trigger after[b]} :: 0 <= b < BUCKETS ==> after[b] == Keep(before[b], f)
  }

  /** The place that a cookie of `after` had in `before`. */
  lemma Origin(before: Buckets, after: Buckets, f: Cookie -> bool, b: nat) returns (at: seq<nat>)
    requires Sifted(before, after, f) && b < BUCKETS
    ensures |at| == |after[b]|
    ensures forall i :: 0 <= i < |at| ==> at[i] < |before[b]| && before[b][at[i]] == after[b][i]
    ensures forall i, j :: 0 <= i < j < |at| ==> at[i] < at[j]
  {
    at := KeepPlaces(before[b], f);
  }

  /** Dropping cookies keeps all invariants. */
  lemma SiftedKeeps(isIp: HostClass, before: Buckets, after: Buckets, f: Cookie -> bool, last: nat, next: int)
    requires Sifted(before, after, f)
    ensures Hashed(isIp, before) ==> Hashed(isIp, after)
    ensures UniqueKeys(before) ==> UniqueKeys(after)
    ensures Numbered(before, last) ==> Numbered(after, last)
    ensures NoneBefore(before, next) ==> NoneBefore(after, next)
  {
    hide SameKey, CookieHash;
    forall b, i, d, j | 0 <= b < BUCKETS && 0 <= i < |after[b]| && 0 <= d < BUCKETS && 0 <= j < |after[d]|
      ensures exists k, l ::
        && 0 <= k < |before[b]| && before[b][k] == after[b][i]
        && 0 <= l < |before[d]| && before[d][l] == after[d][j]
        && (b == d && i < j ==> k < l) && (b == d && i != j ==> k != l)
    {
      var at := Origin(before, after, f, b);
      var dat := Origin(before, after, f, d);
      var l := if b == d then at[j] else dat[j];
      assert before[b][at[i]] == after[b][i] && before[d][l] == after[d][j];
    }
  }

  /** The bucket of the new cookie, after it took its place. */
  function Placed(isIp: HostClass, bs: Buckets, co: Cookie): Buckets {
    var h := CookieHash(isIp, co.domain);
    bs[h := Replaced(bs[h], co)]
  }

  /** Where the cookies of the new bucket come from. */
  lemma PlaceOf(bucket: seq<Cookie>, co: Cookie, i: nat) returns (k: nat)
    requires i < |Replaced(bucket, co)| - 1
    ensures k < |bucket| && k != FirstSame(bucket, co) && Replaced(bucket, co)[i] == bucket[k]
    ensures k == if i < FirstSame(bucket, co) then i else i + 1
  {
    k := if i < FirstSame(bucket, co) then i else i + 1;
  }

  lemma PlacedUnique(isIp: HostClass, bs: Buckets, co: Cookie)
    requires Hashed(isIp, bs) && UniqueKeys(bs)
    ensures Hashed(isIp, Placed(isIp, bs, co)) && UniqueKeys(Placed(isIp, bs, co))
  {
    hide CookieHash, Replaced, SameKey;
    var h := CookieHash(isIp, co.domain);
    var after := Placed(isIp, bs, co);
    forall b, i | 0 <= b < BUCKETS && 0 <= i < |after[b]|
      ensures CookieHash(isIp, after[b][i].domain) == b
    {
      if b == h {
        ReplacedDomain(bs[h], co, i);
      }
    }
    forall b, i, j | 0 <= b < BUCKETS && 0 <= i < j < |after[b]|
      ensures !SameKey(after[b][i], after[b][j])
    {
      if b == h {
        ReplacedUnique(bs, h, co, i, j);
      }
    }
  }

  lemma ReplacedDomain(bucket: seq<Cookie>, co: Cookie, i: nat)
    requires i < |Replaced(bucket, co)|
    ensures Replaced(bucket, co)[i].domain == co.domain || Replaced(bucket, co)[i] in bucket
  {
    hide SameKey;
    if i < |Replaced(bucket, co)| - 1 {
      var p := PlaceOf(bucket, co, i);
    }
  }

  lemma ReplacedUnique(bs: Buckets, h: nat, co: Cookie, i: nat, j: nat)
    requires UniqueKeys(bs) && h < BUCKETS && i < j < |Replaced(bs[h], co)|
    ensures !SameKey(Replaced(bs[h], co)[i], Replaced(bs[h], co)[j])
  {
    var bucket := bs[h];
    var p := PlaceOf(bucket, co, i);
    if j < |Replaced(bucket, co)| - 1 {
      hide SameKey, Replaced;
      var q := PlaceOf(bucket, co, j);
      assert p < q;
    } else {
      OnlySame(bs, h, co, p);
    }
  }

  /** In a bucket with unique keys only the first cookie with the key of `co` has it. */
  lemma OnlySame(bs: Buckets, h: nat, co: Cookie, p: nat)
    requires UniqueKeys(bs) && h < BUCKETS && p < |bs[h]| && p != FirstSame(bs[h], co)
    ensures !SameKey(bs[h][p], co)
  {
    var k := FirstSame(bs[h], co);
    if p > k && SameKey(bs[h][p], co) {
      SameKeyIsEquivalence(bs[h][p], co, bs[h][k]);
      SameKeyIsEquivalence(bs[h][k], co, bs[h][p]);
      assert false;
    }
  }

  lemma PlacedNumbered(isIp: HostClass, bs: Buckets, co: Cookie, last: nat)
    requires Numbered(bs, last) && co.creation == last + 1
    ensures Numbered(Placed(isIp, bs, co), last + 1)
  {
    hide CookieHash, SameKey;
    var h := CookieHash(isIp, co.domain);
    var after := Placed(isIp, bs, co);
    var bucket, k := bs[h], FirstSame(bs[h], co);
    forall b, i | 0 <= b < BUCKETS && 0 <= i < |after[b]|
      ensures exists p :: 0 <= p <= |bs[b]| && Came(bs, h, co, b, p, after[b][i]) &&
                          p == if b != h then i else if i == |after[h]| - 1 then k else if i < k then i else i + 1
    {
      if b == h && i < |after[h]| - 1 {
        var p := PlaceOf(bucket, co, i);
        assert Came(bs, h, co, b, p, after[b][i]);
      } else if b == h {
        assert Came(bs, h, co, b, k, after[b][i]);
      } else {
        assert Came(bs, h, co, b, i, after[b][i]);
      }
    }
  }

  /** `c` has the creation number of place `p` of bucket `b`; the place after the last stands for the new one. */
  ghost predicate Came(bs: Buckets, h: nat, co: Cookie, b: nat, p: nat, c: Cookie) {
    && b < BUCKETS && p <= |bs[b]|
    && c.creation == if p < |bs[b]| then bs[b][p].creation else co.creation
  }

  lemma PlacedLazy(isIp: HostClass, bs: Buckets, co: Cookie, next: int)
    requires NoneBefore(bs, next) && co.expires <= NEVER
    ensures NoneBefore(Placed(isIp, bs, co), if co.expires != 0 && co.expires < next then co.expires else next)
  {
    hide CookieHash, SameKey;
    var h := CookieHash(isIp, co.domain);
    var after := Placed(isIp, bs, co);
    forall b, i | 0 <= b < BUCKETS && 0 <= i < |after[b]|
      ensures after[b][i].expires == 0
              || (if co.expires != 0 && co.expires < next then co.expires else next) <= after[b][i].expires
      ensures after[b][i].expires <= NEVER
    {
      if b == h && i < |after[h]| - 1 {
        var p := PlaceOf(bs[h], co, i);
      }
    }
  }

  lemma PlacedTotal(isIp: HostClass, bs: Buckets, co: Cookie)
    ensures var h := CookieHash(isIp, co.domain);
      Total(Placed(isIp, bs, co)) == Total(bs) + if FirstSame(bs[h], co) < |bs[h]| then 0 else 1
  {
    hide CookieHash, SameKey;
    var h := CookieHash(isIp, co.domain);
    TotalUpdate(bs, h, Replaced(bs[h], co));
  }

  /** The replaced bucket at last place, and where the others went. */
  lemma ReplacedPlaces(bucket: seq<Cookie>, co: Cookie)
    ensures var after, k := Replaced(bucket, co), FirstSame(bucket, co);
            && after != [] && after[|after| - 1] == Inherit(bucket, co)
            && forall p :: 0 <= p < |bucket| && p != k ==> bucket[p] in after
  {
    hide SameKey, Inherit;
    var after, k := Replaced(bucket, co), FirstSame(bucket, co);
    forall p | 0 <= p < |bucket| && p != k
      ensures bucket[p] in after
    {
      assert after[if p < k then p else p - 1] == bucket[p];
    }
  }

  lemma ReplacedContents(bs: Buckets, h: nat, co: Cookie, c: Cookie)
    requires UniqueKeys(bs) && h < BUCKETS
    ensures c in Replaced(bs[h], co) <==> c == Inherit(bs[h], co) || (c in bs[h] && !SameKey(c, co))
  {
    hide SameKey, Replaced, Inherit, UniqueKeys;
    var bucket, after := bs[h], Replaced(bs[h], co);
    ReplacedPlaces(bucket, co);
    if c in after && c != Inherit(bucket, co) {
      var i :| 0 <= i < |after| && after[i] == c;
      var p := PlaceOf(bucket, co, i);
      OnlySame(bs, h, co, p);
    }
  }

  /** After the new cookie took its place it is in the jar, any other cookie with its key is not, and
      nothing else has changed. */
  lemma PlacedContents(isIp: HostClass, bs: Buckets, co: Cookie, c: Cookie)
    requires Hashed(isIp, bs) && UniqueKeys(bs)
    ensures var h := CookieHash(isIp, co.domain);
      InJar(Placed(isIp, bs, co), c) <==> c == Inherit(bs[h], co) || (InJar(bs, c) && !SameKey(c, co))
  {
    hide Replaced, Inherit, CookieHash;
    var h := CookieHash(isIp, co.domain);
    ReplacedContents(bs, h, co, c);
    forall b | 0 <= b < BUCKETS && b != h && c in bs[b]
      ensures !SameKey(c, co)
    {
      var i :| 0 <= i < |bs[b]| && bs[b][i] == c;
      if SameKey(c, co) && c.domain.Some? {
        SameNameSameBucket(isIp, c.domain.value, co.domain.value);
      }
    }
    var after := Placed(isIp, bs, co);
    assert after[h] == Replaced(bs[h], co);
    assert forall b :: 0 <= b < BUCKETS && b != h ==> after[b] == bs[b];
  }

  /** Where the overlay test looks: a secure cookie anywhere in the jar guards its name, in the first
      segment of its path, for all domains above and below, as long as the names have a dot in common
      and are no addresses. */
  lemma SecureGuards(isIp: HostClass, bs: Buckets, co: Cookie, c: Cookie)
    requires Hashed(isIp, bs) && InJar(bs, c)
    requires c.secure && !co.secure && c.name == co.name
    requires c.domain.Some? && co.domain.Some? && SameSite(c, co)
    requires HasDot(c.domain.value) && HasDot(co.domain.value) && !isIp(c.domain.value) && !isIp(co.domain.value)
    requires c.path.Some? && co.path.Some? && IsStored(c.path.value)
    requires StandardPathMatch(FirstSegment(c.path.value), co.path.value)
    ensures !Admissible(bs[CookieHash(isIp, co.domain)], co, false)
  {
    var d, e := c.domain.value, co.domain.value;
    OverlaysIs(c, co, false);
    TailMatchIsDomainMatch(d, e);
    TailMatchIsDomainMatch(e, d);
    hide TailMatch, DomainMatch, CookieHash, Overlays, StandardPathMatch, FirstSegment, FirstSame;
    if TailMatch(d, e) {
      TailMatchSameBucket(isIp, d, e);
    } else {
      TailMatchSameBucket(isIp, e, d);
    }
    var b :| 0 <= b < BUCKETS && c in bs[b];
    var i :| 0 <= i < |bs[b]| && bs[b][i] == c;
    assert CookieHash(isIp, bs[b][i].domain) == b;
  }

  /** What the overlay test is for: a cookie that is neither secure itself nor comes over a secure origin
      pushes no secure cookie with a path out of the jar. */
  lemma SecureStays(isIp: HostClass, bs: Buckets, co: Cookie, c: Cookie)
    requires Hashed(isIp, bs) && UniqueKeys(bs)
    requires !co.secure && Admissible(bs[CookieHash(isIp, co.domain)], co, false)
    requires c.secure && c.path.Some? && InJar(bs, c)
    ensures InJar(Placed(isIp, bs, co), c)
  {
    hide Placed, Inherit, Hashed, UniqueKeys, CookieHash, FirstSame;
    PlacedContents(isIp, bs, co, c);
    if SameKey(c, co) {
      var h := BucketOf(isIp, bs, co, c);
      var i :| 0 <= i < |bs[h]| && bs[h][i] == c;
      SameKeyOverlays(c, co);
      assert false;
    }
  }

  lemma BucketOf(isIp: HostClass, bs: Buckets, co: Cookie, c: Cookie) returns (h: nat)
    requires Hashed(isIp, bs) && InJar(bs, c) && SameKey(c, co)
    ensures h == CookieHash(isIp, co.domain) && c in bs[h]
  {
    h := CookieHash(isIp, co.domain);
    var b :| 0 <= b < BUCKETS && c in bs[b];
    var i :| 0 <= i < |bs[b]| && bs[b][i] == c;
    if c.domain.Some? {
      SameNameSameBucket(isIp, c.domain.value, co.domain.value);
    }
  }

  lemma SameKeyOverlays(c: Cookie, co: Cookie)
    requires SameKey(c, co) && c.secure && !co.secure && c.path.Some?
    ensures Overlays(c, co, false)
  {
    if c.domain.Some? {
      assert co.domain.value[0..] == co.domain.value;
    }
  }

  lemma SiftedContents(before: Buckets, after: Buckets, f: Cookie -> bool, c: Cookie)
    requires Sifted(before, after, f)
    ensures InJar(after, c) <==> InJar(before, c) && f(c)
  {
    assert forall b :: 0 <= b < BUCKETS ==> (c in after[b] <==> c in before[b] && f(c));
  }
}
