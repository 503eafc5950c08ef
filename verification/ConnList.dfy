/** Connections, the lists they are kept in and the index of lists by destination. */
module ConnList {
  import opened Common

  /** `struct connectdata`, as far as the pool looks at it. */
  class Conn {
    const destination: string
    const connectOnly: bool
    var attached: nat
    var close: bool
    var noReuse: bool
    var aborted: bool
    var lastUsed: int
    var inPool: bool
    var id: nat

    constructor (destination: string, connectOnly: bool)
      ensures this.destination == destination && this.connectOnly == connectOnly && attached == 0 && !inPool
    {
      this.destination, this.connectOnly := destination, connectOnly;
      attached, close, noReuse, aborted, lastUsed, inPool, id := 0, false, false, false, 0, false, 0;
    }

    /** `CONN_INUSE` */
    predicate InUse()
      reads this`attached
    {
      attached > 0
    }

    /** What `cpool_bundle_get_oldest_idle` may pick: idle, and not used in the future. */
    predicate Idle(now: int)
      reads this`attached, this`lastUsed
    {
      !InUse() && lastUsed <= now
    }

    /** What `cpool_get_oldest_idle` may pick. */
    predicate Evictable(now: int)
      reads this`attached, this`lastUsed, this`close
    {
      Idle(now) && !close && !connectOnly
    }
  }

  predicate NoRepeats(cs: seq<Conn>) {
    forall i, j :: 0 <= i < j < |cs| ==> cs[i] != cs[j]
  }

  function Members(cs: seq<Conn>): set<Conn> {
    set c | c in cs
  }

  function Remove(cs: seq<Conn>, k: nat): (r: seq<Conn>)
    requires k < |cs|
    ensures |r| == |cs| - 1
  {
    cs[..k] + cs[k + 1..]
  }

  lemma RemoveMembers(cs: seq<Conn>, k: nat)
    requires NoRepeats(cs) && k < |cs|
    ensures NoRepeats(Remove(cs, k))
    ensures forall c :: c in Remove(cs, k) <==> c in cs && c != cs[k]
    ensures Members(Remove(cs, k)) == Members(cs) - {cs[k]}
  {
    forall c | c in cs && c != cs[k]
      ensures c in Remove(cs, k)
    {
      var i :| 0 <= i < |cs| && cs[i] == c;
      assert Remove(cs, k)[if i < k then i else i - 1] == c;
    }
  }

  lemma OncePlaced(cs: seq<Conn>, i: nat, j: nat)
    requires NoRepeats(cs) && i < |cs| && j < |cs| && cs[i] == cs[j]
    ensures i == j
  {
  }

  lemma RemoveKeeps(cs: seq<Conn>, k: nat)
    requires k < |cs|
    ensures forall c :: c in Remove(cs, k) ==> c in cs
  {
  }

  lemma HeadOfRest(kept: seq<Conn>, rest: seq<Conn>)
    requires rest != []
    ensures Remove(kept + rest, |kept|) == kept + rest[1..]
    ensures kept + rest == (kept + [rest[0]]) + rest[1..]
  {
  }

  lemma {:induction false} FewerMembers(a: set<Conn>, b: set<Conn>)
    requires a <= b
    ensures |a| <= |b|
  {
    if c :| c in a {
      FewerMembers(a - {c}, b - {c});
    }
  }

  /** Nothing is in two places: the pool, the list of shutdowns and what was freed. */
  ghost predicate Apart(live: set<Conn>, shutdowns: seq<Conn>, freed: set<Conn>) {
    NoRepeats(shutdowns) && live !! Members(shutdowns) && live !! freed && Members(shutdowns) !! freed
  }

  ghost function All(live: set<Conn>, shutdowns: seq<Conn>, freed: set<Conn>): set<Conn> {
    live + Members(shutdowns) + freed
  }

  lemma NotThere(live: set<Conn>, shutdowns: seq<Conn>, freed: set<Conn>, c: Conn)
    requires c !in All(live, shutdowns, freed)
    ensures c !in live && c !in shutdowns && c !in freed
  {
  }

  lemma PutInPool(live: set<Conn>, shutdowns: seq<Conn>, freed: set<Conn>, c: Conn)
    requires Apart(live, shutdowns, freed) && c !in All(live, shutdowns, freed)
    ensures Apart(live + {c}, shutdowns, freed)
    ensures All(live + {c}, shutdowns, freed) == All(live, shutdowns, freed) + {c}
    ensures c !in live && |live + {c}| == |live| + 1
  {
  }

  lemma TakeFromPool(live: set<Conn>, shutdowns: seq<Conn>, freed: set<Conn>, c: Conn)
    requires Apart(live, shutdowns, freed) && c in live
    ensures Apart(live - {c}, shutdowns, freed)
    ensures All(live - {c}, shutdowns, freed) == All(live, shutdowns, freed) - {c}
    ensures |live - {c}| == |live| - 1
  {
  }

  lemma CloseShutdown(live: set<Conn>, shutdowns: seq<Conn>, freed: set<Conn>, k: nat)
    requires Apart(live, shutdowns, freed) && k < |shutdowns|
    ensures Apart(live, Remove(shutdowns, k), freed + {shutdowns[k]})
    ensures All(live, Remove(shutdowns, k), freed + {shutdowns[k]}) == All(live, shutdowns, freed)
  {
    RemoveMembers(shutdowns, k);
  }

  lemma StartShutdown(live: set<Conn>, shutdowns: seq<Conn>, freed: set<Conn>, c: Conn)
    requires Apart(live, shutdowns, freed) && c !in All(live, shutdowns, freed)
    ensures Apart(live, shutdowns + [c], freed)
    ensures All(live, shutdowns + [c], freed) == All(live, shutdowns, freed) + {c}
  {
    assert Members(shutdowns + [c]) == Members(shutdowns) + {c};
  }

  lemma Free(live: set<Conn>, shutdowns: seq<Conn>, freed: set<Conn>, c: Conn)
    requires Apart(live, shutdowns, freed) && c !in All(live, shutdowns, freed)
    ensures Apart(live, shutdowns, freed + {c})
    ensures All(live, shutdowns, freed + {c}) == All(live, shutdowns, freed) + {c}
  {
  }

  /** The number of connections to a destination in a list, as `Curl_cshutdn_dest_count` counts. */
  function CountTo(cs: seq<Conn>, dest: string): (n: nat)
    ensures n <= |cs|
    ensures n == 0 <==> forall c :: c in cs ==> c.destination != dest
  {
    if cs == [] then 0
    else
      assert cs == [cs[0]] + cs[1..];
      (if cs[0].destination == dest then 1 else 0) + CountTo(cs[1..], dest)
  }

  lemma {:induction false} CountAppend(a: seq<Conn>, b: seq<Conn>, dest: string)
    ensures CountTo(a + b, dest) == CountTo(a, dest) + CountTo(b, dest)
  {
    if a == [] {
      assert a + b == b;
    } else {
      assert (a + b)[1..] == a[1..] + b;
      CountAppend(a[1..], b, dest);
    }
  }

  lemma CountRemove(cs: seq<Conn>, k: nat, dest: string)
    requires k < |cs|
    ensures CountTo(Remove(cs, k), dest) == CountTo(cs, dest) - if cs[k].destination == dest then 1 else 0
  {
    assert cs == cs[..k] + ([cs[k]] + cs[k + 1..]);
    CountAppend(cs[..k], [cs[k]] + cs[k + 1..], dest);
    CountAppend([cs[k]], cs[k + 1..], dest);
    CountAppend(cs[..k], cs[k + 1..], dest);
  }

  /** The number of connections of a list that are not idle. */
  ghost function Busy(cs: seq<Conn>, now: int): (n: nat)
    reads cs`attached, cs`lastUsed
    ensures n <= |cs|
    ensures n == |cs| <==> forall c :: c in cs ==> !c.Idle(now)
  {
    if cs == [] then 0
    else
      assert cs == [cs[0]] + cs[1..];
      (if cs[0].Idle(now) then 0 else 1) + Busy(cs[1..], now)
  }

  lemma {:induction false} BusyAppend(a: seq<Conn>, b: seq<Conn>, now: int)
    ensures Busy(a + b, now) == Busy(a, now) + Busy(b, now)
  {
    if a == [] {
      assert a + b == b;
    } else {
      assert (a + b)[1..] == a[1..] + b;
      BusyAppend(a[1..], b, now);
    }
  }

  lemma BusyRemove(cs: seq<Conn>, k: nat, now: int)
    requires k < |cs|
    ensures Busy(Remove(cs, k), now) == Busy(cs, now) - if cs[k].Idle(now) then 0 else 1
  {
    assert cs == cs[..k] + ([cs[k]] + cs[k + 1..]);
    BusyAppend(cs[..k], [cs[k]] + cs[k + 1..], now);
    BusyAppend([cs[k]], cs[k + 1..], now);
    BusyAppend(cs[..k], cs[k + 1..], now);
  }

  type Bundles = map<string, seq<Conn>>

  function Lookup(bundles: Bundles, dest: string): seq<Conn> {
    if dest in bundles then bundles[dest] else []
  }

  /** The bundles are not empty, hold connections to their destination only, and together hold each of
      the connections in `live` once. */
  ghost predicate Indexed(bundles: Bundles, live: set<Conn>) {
    && (forall d {:trigger bundles[d]} :: d in bundles ==> bundles[d] != [] && NoRepeats(bundles[d]))
    && (forall d, i {:trigger bundles[d][i]} :: d in bundles && 0 <= i < |bundles[d]| ==>
          bundles[d][i].destination == d && bundles[d][i] in live)
    && (forall c :: c in live ==> c in Lookup(bundles, c.destination))
  }

  function Joined(bundles: Bundles, conn: Conn): Bundles {
    bundles[conn.destination := Lookup(bundles, conn.destination) + [conn]]
  }

  /** The bundles without the connection at index `k` of one of them. */
  function Without(bundles: Bundles, dest: string, k: nat): Bundles
    requires dest in bundles && k < |bundles[dest]|
  {
    var rest := Remove(bundles[dest], k);
    if rest == [] then bundles - {dest} else bundles[dest := rest]
  }

  lemma IndexedJoined(bundles: Bundles, live: set<Conn>, conn: Conn)
    requires Indexed(bundles, live) && conn !in live
    ensures Indexed(Joined(bundles, conn), live + {conn})
  {
    var dest := conn.destination;
    var after, bundle := Joined(bundles, conn), Lookup(bundles, dest) + [conn];
    assert NoRepeats(bundle) by {
      assert forall i :: 0 <= i < |bundle| - 1 ==> bundle[i] == bundles[dest][i];
    }
    forall c | c in live + {conn}
      ensures c in Lookup(after, c.destination)
    {
      if c == conn {
        assert bundle[|bundle| - 1] == conn;
      } else {
        assert c in Lookup(bundles, c.destination);
      }
    }
  }

  lemma IndexedMembers(bundles: Bundles, live: set<Conn>)
    requires Indexed(bundles, live)
    ensures forall d, c :: d in bundles && c in bundles[d] ==> c in live
    ensures forall c :: c in live ==> c.destination in bundles && c in bundles[c.destination]
  {
  }

  lemma LookupJoined(bundles: Bundles, conn: Conn, d: string)
    ensures Lookup(Joined(bundles, conn), d) == Lookup(bundles, d) + if d == conn.destination then [conn] else []
  {
  }

  lemma LookupWithout(bundles: Bundles, dest: string, k: nat, d: string)
    requires dest in bundles && k < |bundles[dest]|
    ensures Lookup(Without(bundles, dest, k), d) == if d == dest then Remove(bundles[dest], k) else Lookup(bundles, d)
  {
  }

  /** Where a connection of the pool is in its bundle. */
  method Find(bundles: Bundles, ghost live: set<Conn>, conn: Conn) returns (k: nat)
    requires Indexed(bundles, live) && conn in live
    ensures conn.destination in bundles && k < |bundles[conn.destination]| && bundles[conn.destination][k] == conn
  {
    k :| k < |Lookup(bundles, conn.destination)| && bundles[conn.destination][k] == conn;
  }

  lemma IndexedWithout(bundles: Bundles, live: set<Conn>, dest: string, k: nat)
    requires Indexed(bundles, live) && dest in bundles && k < |bundles[dest]|
    ensures Indexed(Without(bundles, dest, k), live - {bundles[dest][k]})
  {
    RemoveMembers(bundles[dest], k);
    var conn, rest := bundles[dest][k], Remove(bundles[dest], k);
    var after: Bundles := Without(bundles, dest, k);
    forall d, i | d in after && 0 <= i < |after[d]|
      ensures after[d][i].destination == d && after[d][i] in live - {conn}
    {
      if d == dest {
        assert after[d][i] in rest;
      } else {
        assert after[d][i] == bundles[d][i];
      }
    }
    forall c | c in live - {conn}
      ensures c in Lookup(after, c.destination)
    {
      assert c in Lookup(bundles, c.destination);
    }
  }

  predicate For(c: Conn, dest: Option<string>) {
    dest.None? || dest.value == c.destination
  }

  function Oldest(cs: seq<Conn>, dest: Option<string>): (k: nat)
    ensures k <= |cs|
  {
    if cs == [] || For(cs[0], dest) then 0 else 1 + Oldest(cs[1..], dest)
  }

  /** The list without its first connection to the destination. */
  function WithoutOldest(cs: seq<Conn>, dest: Option<string>): seq<Conn> {
    var k := Oldest(cs, dest);
    if k < |cs| then Remove(cs, k) else cs
  }

  lemma {:induction false} OldestIs(cs: seq<Conn>, dest: Option<string>, k: nat)
    requires k <= |cs| && (k < |cs| ==> For(cs[k], dest)) && forall i :: 0 <= i < k ==> !For(cs[i], dest)
    ensures Oldest(cs, dest) == k
  {
    if k > 0 {
      OldestIs(cs[1..], dest, k - 1);
    }
  }

  /** The idle connections of a list, and when they were last used. */
  ghost function IdleSince(cs: seq<Conn>, now: int): map<Conn, int>
    reads cs`attached, cs`lastUsed
  {
    map c | c in cs && c.Idle(now) :: c.lastUsed
  }

  /** The map says of the connections of a list which are idle, and since when. */
  ghost predicate AgesAre(cs: seq<Conn>, now: int, idle: map<Conn, int>)
    reads cs`attached, cs`lastUsed
  {
    forall c :: c in cs ==> (c in idle <==> c.Idle(now)) && (c in idle ==> idle[c] == c.lastUsed)
  }

  lemma AgesAtStart(cs: seq<Conn>, now: int)
    ensures AgesAre(cs, now, IdleSince(cs, now))
  {
  }

  lemma AgesShrink(cs: seq<Conn>, cs': seq<Conn>, now: int, idle: map<Conn, int>)
    requires AgesAre(cs, now, idle) && forall c :: c in cs' ==> c in cs
    ensures AgesAre(cs', now, idle)
  {
  }

  lemma AgesOldest(cs: seq<Conn>, now: int, idle: map<Conn, int>, k: nat)
    requires AgesAre(cs, now, idle) && k < |cs| && cs[k].Idle(now)
    requires forall c :: c in cs && c.Idle(now) ==> cs[k].lastUsed <= c.lastUsed
    requires forall c :: c in cs[..k] && c.Idle(now) ==> cs[k].lastUsed < c.lastUsed
    ensures OldestAt(cs, idle) == k
  {
    assert forall i :: 0 <= i < k ==> cs[i] in cs[..k];
    OnlyOldest(cs, idle, k);
  }

  /** Where the first of the connections idle for longest is; the length of the list if none is idle. */
  ghost function OldestAt(cs: seq<Conn>, idle: map<Conn, int>): (k: nat)
    ensures k <= |cs|
    ensures k < |cs| ==> cs[k] in idle
    ensures k < |cs| ==> forall i :: 0 <= i < |cs| && cs[i] in idle ==> idle[cs[k]] <= idle[cs[i]]
    ensures k < |cs| ==> forall i :: 0 <= i < k && cs[i] in idle ==> idle[cs[k]] < idle[cs[i]]
    ensures k == |cs| ==> forall i :: 0 <= i < |cs| ==> cs[i] !in idle
  {
    if cs == [] then 0
    else
      var n := |cs| - 1;
      var k := OldestAt(cs[..n], idle);
      if cs[n] in idle && (k == n || idle[cs[n]] < idle[cs[k]]) then n
      else if k == n then |cs|
      else k
  }

  lemma OnlyOldest(cs: seq<Conn>, idle: map<Conn, int>, k: nat)
    requires k < |cs| && cs[k] in idle
    requires forall i :: 0 <= i < |cs| && cs[i] in idle ==> idle[cs[k]] <= idle[cs[i]]
    requires forall i :: 0 <= i < k && cs[i] in idle ==> idle[cs[k]] < idle[cs[i]]
    ensures OldestAt(cs, idle) == k
  {
    hide OldestAt;
    var at := OldestAt(cs, idle);
    assert at < |cs|;
  }

  /** The list after `n` times its longest idle connection was evicted. */
  ghost function Survivors(cs: seq<Conn>, idle: map<Conn, int>, n: nat): seq<Conn> {
    if n == 0 then cs
    else
      var left := Survivors(cs, idle, n - 1);
      var k := OldestAt(left, idle);
      if k < |left| then Remove(left, k) else left
  }

  lemma NoneEvicted(cs: seq<Conn>, idle: map<Conn, int>)
    ensures Survivors(cs, idle, 0) == cs
  {
  }

  lemma OneMore(cs: seq<Conn>, idle: map<Conn, int>, n: nat)
    ensures var left := Survivors(cs, idle, n);
            var k := OldestAt(left, idle);
            Survivors(cs, idle, n + 1) == if k < |left| then Remove(left, k) else left
  {
  }

  lemma {:induction false} SurvivorsWereThere(cs: seq<Conn>, idle: map<Conn, int>, n: nat)
    ensures forall c :: c in Survivors(cs, idle, n) ==> c in cs
  {
    if n > 0 {
      SurvivorsWereThere(cs, idle, n - 1);
    }
  }

  lemma {:induction false} SurvivorsAreYounger(cs: seq<Conn>, idle: map<Conn, int>, n: nat)
    ensures forall e :: e in cs && e !in Survivors(cs, idle, n) ==> e in idle
    ensures forall e, c :: e in cs && e !in Survivors(cs, idle, n) && c in Survivors(cs, idle, n) && c in idle ==>
              idle[e] <= idle[c]
  {
    if n > 0 {
      hide OldestAt;
      SurvivorsAreYounger(cs, idle, n - 1);
      var left := Survivors(cs, idle, n - 1);
      var k := OldestAt(left, idle);
      if k < |left| {
        RemoveKeeps(left, k);
        forall e | e in left && e != left[k]
          ensures e in Remove(left, k)
        {
          var i :| 0 <= i < |left| && left[i] == e;
          assert Remove(left, k)[if i < k then i else i - 1] == e;
        }
      }
    }
  }

  /** What evictions from one bundle mean for the pool. */
  lemma Evicted(before: Bundles, live: set<Conn>, after: Bundles, left: set<Conn>, dest: string, now: int,
                idle: map<Conn, int>, n: nat)
    requires Indexed(before, live) && Indexed(after, left) && AgesAre(Lookup(before, dest), now, idle)
    requires Lookup(after, dest) == Survivors(Lookup(before, dest), idle, n)
    requires forall d :: d != dest ==> Lookup(after, d) == Lookup(before, d)
    ensures forall c :: c in left <==> c in live && (c.destination == dest ==> c in Lookup(after, dest))
    ensures forall e :: e in live && e !in left ==> e.destination == dest && e.Idle(now)
    ensures forall e, c :: e in live && e !in left && c in Lookup(after, dest) && c.Idle(now) ==>
              e.lastUsed <= c.lastUsed
  {
    hide Survivors, Indexed;
    IndexedMembers(before, live);
    IndexedMembers(after, left);
    SurvivorsWereThere(Lookup(before, dest), idle, n);
    SurvivorsAreYounger(Lookup(before, dest), idle, n);
    forall c
      ensures c in left <==> c in live && (c.destination == dest ==> c in Lookup(after, dest))
    {
      assert c in left ==> c in Lookup(after, c.destination);
      assert c in live ==> c in Lookup(before, c.destination);
      assert c.destination != dest ==> Lookup(after, c.destination) == Lookup(before, c.destination);
    }
  }
}
