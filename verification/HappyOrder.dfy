/** The order in which the addresses of a host are tried. */
module HappyOrder {
  import opened Common

  datatype Family = V6 | V4

  /** How many elements satisfy `p`. */
  function Tally<T>(s: seq<T>, p: T -> bool): (n: nat)
    ensures n <= |s|
    ensures n == 0 <==> forall i :: 0 <= i < |s| ==> !p(s[i])
  {
    if s == [] then 0 else Tally(s[..|s| - 1], p) + if p(s[|s| - 1]) then 1 else 0
  }

  lemma TallyLast<T>(s: seq<T>, p: T -> bool)
    ensures Tally(s, p) == if s == [] then 0 else Tally(s[..|s| - 1], p) + if p(s[|s| - 1]) then 1 else 0
  {
  }

  lemma TallyNext<T>(s: seq<T>, i: nat, p: T -> bool)
    requires i <= |s|
    ensures Tally(s[..0], p) == 0
    ensures i < |s| ==> Tally(s[..i + 1], p) == Tally(s[..i], p) + if p(s[i]) then 1 else 0
  {
    if i < |s| {
      assert s[..i + 1][..i] == s[..i];
    }
  }

  lemma {:induction false} TallyConcat<T>(a: seq<T>, b: seq<T>, p: T -> bool)
    ensures Tally(a + b, p) == Tally(a, p) + Tally(b, p)
  {
    if b == [] {
      assert a + b == a;
    } else {
      assert (a + b)[..|a + b| - 1] == a + b[..|b| - 1];
      TallyConcat(a, b[..|b| - 1], p);
    }
  }

  lemma TallyInsert<T>(a: seq<T>, x: T, b: seq<T>, p: T -> bool)
    ensures Tally(a + ([x] + b), p) == Tally(a + b, p) + if p(x) then 1 else 0
  {
    TallyConcat(a, [x] + b, p);
    TallyConcat([x], b, p);
    TallyConcat(a, b, p);
  }

  lemma TallyCons<T>(x: T, s: seq<T>, p: T -> bool)
    ensures Tally([x] + s, p) == Tally(s, p) + if p(x) then 1 else 0
  {
    TallyConcat([x], s, p);
  }

  lemma SplitAt<T>(s: seq<T>, i: nat)
    requires i < |s|
    ensures s == s[..i] + ([s[i]] + s[i + 1..])
    ensures forall x :: s[i := x] == s[..i] + ([x] + s[i + 1..])
  {
  }

  lemma TallyWithout<T>(s: seq<T>, i: nat, p: T -> bool)
    requires i < |s|
    ensures Tally(s[..i] + s[i + 1..], p) == Tally(s, p) - if p(s[i]) then 1 else 0
  {
    hide Tally;
    SplitAt(s, i);
    TallyInsert(s[..i], s[i], s[i + 1..], p);
  }

  lemma TallyUpdate<T>(s: seq<T>, i: nat, x: T, p: T -> bool)
    requires i < |s|
    ensures Tally(s[i := x], p) == Tally(s, p) - (if p(s[i]) then 1 else 0) + if p(x) then 1 else 0
  {
    hide Tally;
    TallyWithout(s, i, p);
    TallyInsert(s[..i], x, s[i + 1..], p);
    SplitAt(s, i);
  }

  /** Section 4 of RFC 8305: the families alternate, IPv6 first, and what is left of the longer list
      comes last. */
  function Interleave<T>(v6: seq<T>, v4: seq<T>): (r: seq<T>)
    ensures |r| == |v6| + |v4|
  {
    if v6 == [] then v4
    else if v4 == [] then v6
    else [v6[0], v4[0]] + Interleave(v6[1..], v4[1..])
  }

  /** Where the iterators of the two families stand after `n6` and `n4` addresses taken, if each time
      the family other than the last one had its turn. */
  predicate Alternating(n6: nat, n4: nat, last: Family, size6: nat, size4: nat) {
    var n, m := n6 + n4, Min(size6, size4);
    && n6 <= size6 && n4 <= size4
    && (n <= 2 * m ==> n4 == n / 2)
    && (n < 2 * m ==> (last == V4 <==> n % 2 == 0))
    && (n > 2 * m ==> n6 >= m && n4 >= m)
  }

  lemma AlternatingBack(n6: nat, n4: nat, last: Family, size6: nat, size4: nat)
    requires Alternating(n6, n4, last, size6, size4) && size6 > 0 && size4 > 0 && n6 + n4 >= 2
    ensures n6 > 0 && n4 > 0 && Alternating(n6 - 1, n4 - 1, last, size6 - 1, size4 - 1)
  {
  }

  lemma InterleaveTail<T>(v6: seq<T>, v4: seq<T>, i: nat)
    requires v6 != [] && v4 != [] && 2 <= i < |v6| + |v4|
    ensures Interleave(v6, v4)[i] == Interleave(v6[1..], v4[1..])[i - 2]
  {
  }

  lemma InterleaveStart<T>(v6: seq<T>, v4: seq<T>, n6: nat, n4: nat, last: Family)
    requires Alternating(n6, n4, last, |v6|, |v4|) && n6 + n4 < |v6| + |v4|
    requires v6 == [] || v4 == [] || n6 + n4 < 2
    ensures n4 == |v4| || (n6 < |v6| && last == V4) ==> n6 < |v6| && Interleave(v6, v4)[n6 + n4] == v6[n6]
    ensures n4 < |v4| && (n6 == |v6| || last == V6) ==> Interleave(v6, v4)[n6 + n4] == v4[n4]
  {
    if v6 == [] {
      assert n6 == 0;
    } else if v4 == [] {
      assert n4 == 0;
    } else {
      assert Interleave(v6, v4)[..2] == [v6[0], v4[0]];
    }
  }

  /** The element of the interleaved lists that comes when `n6` and `n4` addresses were taken. */
  lemma {:induction false} InterleaveAt<T>(v6: seq<T>, v4: seq<T>, n6: nat, n4: nat, last: Family)
    requires Alternating(n6, n4, last, |v6|, |v4|) && n6 + n4 < |v6| + |v4|
    ensures n4 == |v4| || (n6 < |v6| && last == V4) ==> n6 < |v6| && Interleave(v6, v4)[n6 + n4] == v6[n6]
    ensures n4 < |v4| && (n6 == |v6| || last == V6) ==> Interleave(v6, v4)[n6 + n4] == v4[n4]
  {
    hide Alternating, Interleave;
    if v6 != [] && v4 != [] && n6 + n4 >= 2 {
      AlternatingBounds(n6, n4, last, |v6|, |v4|);
      AlternatingBack(n6, n4, last, |v6|, |v4|);
      InterleaveTail(v6, v4, n6 + n4);
      InterleaveAt(v6[1..], v4[1..], n6 - 1, n4 - 1, last);
    } else {
      InterleaveStart(v6, v4, n6, n4, last);
    }
  }

  lemma AlternatingBounds(n6: nat, n4: nat, last: Family, size6: nat, size4: nat)
    requires Alternating(n6, n4, last, size6, size4)
    ensures n6 <= size6 && n4 <= size4
  {
  }

  /** An address that was tried, and its place in the list of its family. */
  datatype Try = Try(family: Family, index: nat, addr: string)

  function Of(family: Family): Try -> bool {
    (t: Try) => t.family == family
  }

  /** Each family is tried in the order of its list. */
  ghost predicate InListOrder(tried: seq<Try>) {
    forall k {:trigger tried[k]} :: 0 <= k < |tried| ==> tried[k].index == Tally(tried[..k], Of(tried[k].family))
  }

  lemma InListOrderSnoc(tried: seq<Try>, t: Try)
    requires InListOrder(tried) && t.index == Tally(tried, Of(t.family))
    ensures InListOrder(tried + [t])
    ensures forall f :: Tally(tried + [t], Of(f)) == Tally(tried, Of(f)) + if t.family == f then 1 else 0
  {
    var after := tried + [t];
    assert after[..|tried|] == tried;
    forall k | 0 <= k < |tried|
      ensures after[k].index == Tally(after[..k], Of(after[k].family))
    {
      assert after[..k] == tried[..k] && after[k] == tried[k];
    }
  }

  lemma {:induction false} TallyGrows<T>(s: seq<T>, i: nat, j: nat, p: T -> bool)
    requires i <= j <= |s|
    ensures Tally(s[..i], p) <= Tally(s[..j], p)
  {
    if i < j {
      assert s[..j][..j - 1] == s[..j - 1];
      TallyGrows(s, i, j - 1, p);
    }
  }

  /** No address is tried twice. */
  lemma TriedOnce(tried: seq<Try>, i: nat, j: nat)
    requires InListOrder(tried) && i < j < |tried|
    ensures tried[i].family != tried[j].family || tried[i].index < tried[j].index
  {
    if tried[i].family == tried[j].family {
      var p := Of(tried[i].family);
      assert tried[..i + 1][..i] == tried[..i];
      TallyGrows(tried, i + 1, j, p);
    }
  }

  function Addresses(tried: seq<Try>): (r: seq<string>)
    ensures |r| == |tried| && forall k :: 0 <= k < |tried| ==> r[k] == tried[k].addr
  {
    seq(|tried|, k requires 0 <= k < |tried| => tried[k].addr)
  }

  lemma AddressesSnoc(tried: seq<Try>, t: Try, order: seq<string>)
    requires |tried| < |order| && Addresses(tried) == order[..|tried|] && t.addr == order[|tried|]
    ensures Addresses(tried + [t]) == order[..|tried| + 1]
  {
    forall k | 0 <= k <= |tried|
      ensures Addresses(tried + [t])[k] == order[k]
    {
      if k < |tried| {
        assert Addresses(tried)[k] == order[..|tried|][k];
      }
    }
  }

  predicate Listed(t: Try, v6: seq<string>, v4: seq<string>) {
    var list := if t.family == V6 then v6 else v4;
    t.index < |list| && t.addr == list[t.index]
  }

  /** Tried are, in each family, the addresses up to the iterator, and in all a beginning of the two
      lists interleaved, unless an attempt was so early that DNS was still incomplete. */
  ghost predicate InOrder(v6: seq<string>, v4: seq<string>, n6: nat, n4: nat, turn: Family, tried: seq<Try>,
                          early: bool)
  {
    && InListOrder(tried) && n6 == Tally(tried, Of(V6)) && n4 == Tally(tried, Of(V4)) && |tried| == n6 + n4
    && (forall k {:trigger tried[k]} :: 0 <= k < |tried| ==> Listed(tried[k], v6, v4))
    && (!early ==> Alternating(n6, n4, turn, |v6|, |v4|) && Addresses(tried) == Interleave(v6, v4)[..|tried|])
  }

  lemma InOrderSnoc(v6: seq<string>, v4: seq<string>, n6: nat, n4: nat, turn: Family, tried: seq<Try>, early: bool,
                    t: Try, early': bool)
    requires InOrder(v6, v4, n6, n4, turn, tried, early) && Listed(t, v6, v4) && (early ==> early')
    requires t.index == if t.family == V6 then n6 else n4
    requires !early' ==> if n6 < |v6| && (turn == V4 || n4 == |v4|) then t.family == V6 else t.family == V4
    ensures t.family == V6 ==> InOrder(v6, v4, n6 + 1, n4, V6, tried + [t], early')
    ensures t.family == V4 ==> InOrder(v6, v4, n6, n4 + 1, V4, tried + [t], early')
  {
    hide InListOrder, Tally, Addresses, Interleave;
    InListOrderSnoc(tried, t);
    if !early' {
      InterleaveAt(v6, v4, n6, n4, turn);
      AddressesSnoc(tried, t, Interleave(v6, v4));
    }
  }

  /** When an attempt started, and whether no other one was going on then. */
  datatype Start = Start(at: int, alone: bool)

  /** Section 5 of RFC 8305: an attempt beside others starts no sooner than the delay after the one
      before it. */
  predicate Paced(starts: seq<Start>, delay: int) {
    forall k {:trigger starts[k]} :: 0 < k < |starts| && !starts[k].alone ==> starts[k].at - starts[k - 1].at >= delay
  }
}
