/** Generates ids of eight characters from a counter, the time and the process. */
module Id8 {
  import opened Common
  import opened Words

  // ----- mixing

  const INCREMENT: Word := 0x9e3779b97f4a7c15
  const FACTOR1: Word := 0xbf58476d1ce4e5b9
  const FACTOR2: Word := 0x94d049bb133111eb
  const INVERSE1: Word := 0x96de1b173f119089
  const INVERSE2: Word := 0x319642b2d24d8ec3

  /** `mix64` */
  function Mix(z: Word): Word {
    var a := Plus(z, INCREMENT);
    var b := Times(Fold(a, 30), FACTOR1);
    var c := Times(Fold(b, 27), FACTOR2);
    Fold(c, 31)
  }

  /** Undoes the steps of `Mix` from the last to the first. */
  function Unmix(y: Word): Word {
    var c := Unfold(y, 31);
    var b := Unfold(Times(c, INVERSE2), 27);
    var a := Unfold(Times(b, INVERSE1), 30);
    Plus(a, LIMIT - INCREMENT)
  }

  /** `Mix` is a bijection on 64-bit numbers. */
  lemma UnmixMix(z: Word)
    ensures Unmix(Mix(z)) == z
  {
    hide Fold, Unfold, Times, Plus;
    var a := Plus(z, INCREMENT);
    var b := Times(Fold(a, 30), FACTOR1);
    var c := Times(Fold(b, 27), FACTOR2);
    UnfoldFold(c, 31);
    TimesInverts(Fold(b, 27), FACTOR2, INVERSE2, 2077064247507883091);
    UnfoldFold(b, 27);
    TimesInverts(Fold(a, 30), FACTOR1, INVERSE1, 8125545580553827436);
    UnfoldFold(a, 30);
    PlusInverts(z, INCREMENT);
  }

  lemma MixUnmix(y: Word)
    ensures Mix(Unmix(y)) == y
  {
    hide Fold, Unfold, Times, Plus;
    var c := Unfold(y, 31);
    var b := Unfold(Times(c, INVERSE2), 27);
    var a := Unfold(Times(b, INVERSE1), 30);
    PlusInverts(a, LIMIT - INCREMENT);
    UnfoldFold(Times(b, INVERSE1), 30);
    TimesInverts(b, INVERSE1, FACTOR1, 8125545580553827436);
    UnfoldFold(Times(c, INVERSE2), 27);
    TimesInverts(c, INVERSE2, FACTOR2, 2077064247507883091);
    UnfoldFold(y, 31);
  }

  // ----- base 62

  function Power(n: nat): (r: nat)
    ensures r > 0
  {
    if n == 0 then 1 else Power(n - 1) * 62
  }

  lemma ModStep(a: nat)
    ensures (a % LIMIT) * 62 % LIMIT == a * 62 % LIMIT
  {
    var q := a / LIMIT;
    assert a * 62 == (a % LIMIT) * 62 + (q * 62) * LIMIT;
  }

  /** `pow62`, in 64-bit arithmetic. */
  method Pow62(n: nat) returns (r: Word)
    ensures r == Power(n) % LIMIT
    ensures r == Power(n) <==> n <= 10
  {
    r := 1;
    for i := 0 to n
      invariant r == Power(i) % LIMIT
    {
      ModStep(Power(i));
      r := r * 62 % LIMIT;
    }
    PowersThatFit(n);
  }

  /** Up to 62^10 a power fits in 64 bits, and none after that. */
  lemma {:induction false} PowersThatFit(n: nat)
    ensures Power(n) < LIMIT <==> n <= 10
    ensures n == LEN ==> Power(n) == IDS
  {
    assert Power(2) == 3844 && Power(4) == 14776336;
    assert Power(6) == 56800235584;
    assert Power(8) == 218340105584896;
    assert Power(10) == 839299365868340224;
    assert Power(11) == 52036560683837093888;
    if n > 11 {
      PowersThatFit(n - 1);
    } else if n == 1 || n == 3 || n == 5 || n == 7 || n == 9 {
      assert Power(n + 1) == Power(n) * 62;
    }
  }

  predicate IsBase62(c: char) {
    '0' <= c <= '9' || 'A' <= c <= 'Z' || 'a' <= c <= 'z'
  }

  /** `base62_char` */
  function Char62(i: nat): (c: char)
    requires i < 62
    ensures IsBase62(c) && Value62(c) == i
  {
    if i < 10 then ('0' as int + i) as char
    else if i < 36 then ('A' as int + (i - 10)) as char
    else ('a' as int + (i - 36)) as char
  }

  function Value62(c: char): (i: nat)
    requires IsBase62(c)
    ensures i < 62
  {
    if c <= '9' then c as int - '0' as int
    else if c <= 'Z' then c as int - 'A' as int + 10
    else c as int - 'a' as int + 36
  }

  lemma CharOfValue(c: char)
    requires IsBase62(c)
    ensures Char62(Value62(c)) == c
  {
  }

  /** The last `n` digits of a number in base 62. */
  function Encode(v: nat, n: nat): (s: string)
    ensures |s| == n && forall i :: 0 <= i < n ==> IsBase62(s[i])
  {
    if n == 0 then "" else Encode(v / 62, n - 1) + [Char62(v % 62)]
  }

  function Decode(s: string): nat
    requires forall i :: 0 <= i < |s| ==> IsBase62(s[i])
  {
    if s == "" then 0 else Decode(s[..|s| - 1]) * 62 + Value62(s[|s| - 1])
  }

  /** Encoding keeps the number, as far as its digits go. */
  lemma {:induction false} DecodeEncode(v: nat, n: nat)
    ensures Decode(Encode(v, n)) == v % Power(n)
  {
    if n > 0 {
      DecodeEncode(v / 62, n - 1);
      assert Encode(v, n)[..n - 1] == Encode(v / 62, n - 1);
      DigitSplit(v, Power(n - 1));
    }
  }

  lemma DigitSplit(v: nat, p: nat)
    requires p > 0
    ensures v % (p * 62) == (v / 62) % p * 62 + v % 62
  {
    var q, r := v / 62 / p, v / 62 % p;
    assert v / 62 == p * q + r;
    assert v == (p * 62) * q + (r * 62 + v % 62) by {
      assert (p * q) * 62 == (p * 62) * q;
    }
    NextMultiple(62, r, p);
    UniqueQuotient(v, p * 62, q, r * 62 + v % 62);
  }

  lemma {:induction false} EncodeDecode(s: string)
    requires forall i :: 0 <= i < |s| ==> IsBase62(s[i])
    ensures Encode(Decode(s), |s|) == s && Decode(s) < Power(|s|)
  {
    if s != "" {
      var n := |s| - 1;
      var high, low := Decode(s[..n]), Value62(s[n]);
      EncodeDecode(s[..n]);
      CharOfValue(s[n]);
      UniqueQuotient(high * 62 + low, 62, high, low);
      assert Encode(high * 62 + low, n + 1) == Encode(high, n) + [Char62(low)];
      assert s == s[..n] + [s[n]];
      NextMultiple(62, high, Power(n));
    }
  }

  // ----- ids

  const LEN: nat := 8

  /** 62^8, the number of ids */
  const IDS: nat := 218340105584896

  /** What is mixed: `c ^ t ^ (pid << 32)`. */
  function Seed(c: Word, t: Word, pid: nat): Word {
    Xor(Xor(c, t), pid * 0x1_0000_0000 % LIMIT)
  }

  function Id(c: Word, t: Word, pid: nat): string {
    Encode(Mix(Seed(c, t, pid)) % IDS, LEN)
  }

  class Generator {
    var counter: Word

    /** The seed of the counter is not 0. */
    constructor (seed: Word)
      ensures counter == if seed != 0 then seed else 1
    {
      counter := if seed != 0 then seed else 1;
    }

    /** `operator()`; `t` is the reading of the clock. */
    method Next(t: Word, pid: nat) returns (s: string)
      modifies this
      ensures s == Id(old(counter), t, pid) && counter == Plus(old(counter), 1)
    {
      hide Mix, Seed, Encode, Power;
      PowersThatFit(LEN);
      var c := counter;
      counter := (counter + 1) % LIMIT;
      var mix := Mix(Seed(c, t, pid));
      var max := Pow62(LEN);
      var val := mix % max;
      s := Digits(val);
    }

    /** The loop that fills the id from its last character. */
    method Digits(start: nat) returns (s: string)
      ensures s == Encode(start, LEN)
    {
      hide Encode;
      var chars := new char[LEN];
      var val, i := start, LEN;
      while i > 0
        invariant 0 <= i <= LEN
        invariant Encode(val, i) + chars[i..] == Encode(start, LEN)
      {
        EncodeStep(val, i);
        i := i - 1;
        ghost var done := chars[i + 1..];
        chars[i] := Char62(val % 62);
        assert chars[i..] == [Char62(val % 62)] + done;
        Assoc(Encode(val / 62, i), [Char62(val % 62)], done);
        val := val / 62;
      }
      s := chars[..];
      EncodeStep(val, 0);
      assert "" + chars[0..] == s;
    }
  }

  lemma EncodeStep(v: nat, n: nat)
    ensures Encode(v, n) == if n == 0 then "" else Encode(v / 62, n - 1) + [Char62(v % 62)]
  {
  }

  /** Seeds are the same exactly if the counts and the times, xored with the process number, are. */
  lemma SameSeed(c: Word, t: Word, c': Word, t': Word, pid: nat)
    ensures Seed(c, t, pid) == Seed(c', t', pid) <==> Xor(c, c') == Xor(t, t')
  {
    hide Xor;
    XorCancels(Xor(c, t), Xor(c', t'), pid * 0x1_0000_0000 % LIMIT);
    XorAcross(c, t, c', t');
  }

  /** Across processes, at one count and time, seeds are the same exactly if the process numbers are, in
      their low 32 bits. */
  lemma SeedsOfProcesses(c: Word, t: Word, pid: nat, pid': nat)
    ensures Seed(c, t, pid) == Seed(c, t, pid') <==> pid % 0x1_0000_0000 == pid' % 0x1_0000_0000
  {
    hide Xor;
    var a, a' := pid * 0x1_0000_0000 % LIMIT, pid' * 0x1_0000_0000 % LIMIT;
    XorCommutes(Xor(c, t), a);
    XorCommutes(Xor(c, t), a');
    XorCancels(a, a', Xor(c, t));
    HighHalf(pid);
    HighHalf(pid');
  }

  /** Shifted up by 32 bits, a number keeps its low 32 bits only. */
  lemma HighHalf(pid: nat)
    ensures pid * 0x1_0000_0000 % LIMIT == (pid % 0x1_0000_0000) * 0x1_0000_0000
  {
    var q, r := pid / 0x1_0000_0000, pid % 0x1_0000_0000;
    assert pid * 0x1_0000_0000 == q * LIMIT + r * 0x1_0000_0000;
    UniqueQuotient(pid * 0x1_0000_0000, LIMIT, q, r * 0x1_0000_0000);
  }

  /** The seeds of two calls in a row are the same exactly if the clock went on by the bits that the
      count went on by. */
  lemma SeedsInARow(c: Word, t: Word, t': Word, pid: nat)
    ensures Seed(c, t, pid) == Seed(Plus(c, 1), t', pid) <==> t' == Xor(t, Xor(c, Plus(c, 1)))
  {
    hide Xor;
    var next := Plus(c, 1);
    SameSeed(c, t, next, t', pid);
    XorCommutes(t, t');
    XorCancels(t', Xor(t, Xor(c, next)), t);
    XorCommutes(t, Xor(c, next));
    XorTwice(Xor(c, next), t);
  }

  /** The seeds that have the same id as the seed `s`: one for each number up to 2^64 that is congruent
      modulo 62^8 to the mix of `s`. */
  ghost predicate IsTwin(s: Word, twin: Word) {
    exists k: nat :: TwinAt(s, twin, k)
  }

  ghost predicate TwinAt(s: Word, twin: Word, k: nat) {
    var n := Mix(s) % IDS + k * IDS;
    n < LIMIT && twin == Unmix(n)
  }

  /** Two ids are the same exactly if the seeds are the same, or one is another of the seeds that the
      mixer takes to the same number modulo 62^8. */
  lemma SameId(c: Word, t: Word, pid: nat, c': Word, t': Word, pid': nat)
    ensures var s, s' := Seed(c, t, pid), Seed(c', t', pid');
            Id(c, t, pid) == Id(c', t', pid') <==> s == s' || (s != s' && IsTwin(s, s'))
  {
    hide Mix, Seed, Encode, Decode, Power, IsTwin;
    var s, s' := Seed(c, t, pid), Seed(c', t', pid');
    SameDigits(Mix(s), Mix(s'));
    Twins(s, s');
  }

  lemma SameDigits(m: Word, m': Word)
    ensures Encode(m % IDS, LEN) == Encode(m' % IDS, LEN) <==> m % IDS == m' % IDS
  {
    hide Encode, Decode, Power;
    PowersThatFit(LEN);
    DecodeEncode(m % IDS, LEN);
    DecodeEncode(m' % IDS, LEN);
    Twice(m, IDS);
    Twice(m', IDS);
  }

  lemma Twins(s: Word, s': Word)
    ensures IsTwin(s, s') <==> Mix(s) % IDS == Mix(s') % IDS
  {
    hide Mix, Unmix, Power;
    var d := IDS;
    UnmixMix(s');
    if Mix(s) % d == Mix(s') % d {
      Division(Mix(s'), d);
      assert TwinAt(s, s', Mix(s') / d);
    }
    if IsTwin(s, s') {
      var k: nat :| TwinAt(s, s', k);
      var n: Word := Mix(s) % d + k * d;
      MixUnmix(n);
      UniqueQuotient(n, d, k, Mix(s) % d);
    }
  }

  lemma Division(n: nat, d: nat)
    requires d > 0
    ensures n == n % d + n / d * d
  {
  }

  lemma Twice(a: nat, d: nat)
    requires d > 0
    ensures a % d % d == a % d
  {
  }

  /** At the same time and in the same process, different counts give different seeds, and those
      different mixed numbers. */
  lemma SeedsDiffer(c: Word, c': Word, t: Word, pid: nat)
    ensures Seed(c, t, pid) == Seed(c', t, pid) ==> c == c'
    ensures Mix(Seed(c, t, pid)) == Mix(Seed(c', t, pid)) ==> c == c'
  {
    hide Mix, Unmix, Xor;
    SameSeed(c, t, c', t, pid);
    XorAcross(c, c', t, t);
    XorCancels(c, c', t);
    UnmixMix(Seed(c, t, pid));
    UnmixMix(Seed(c', t, pid));
  }

  /** Ids are not unique: two calls in a row return the same one if the clock goes on by one tick and
      counter and clock were even before. */
  method NotUnique(seed: Word, t: Word, pid: nat) returns (s: string, s': string)
    requires seed % 2 == 0 && seed != 0 && t % 2 == 0
    ensures s == s' == Id(seed, t, pid) == Id(Plus(seed, 1), Plus(t, 1), pid)
  {
    hide Mix, Seed, Encode, Power, Xor;
    EvenAndNext(seed);
    EvenAndNext(t);
    SameSeed(seed, t, seed + 1, t + 1, pid);
    var g := new Generator(seed);
    s := g.Next(t, pid);
    s' := g.Next((t + 1) % LIMIT, pid);
  }
}
