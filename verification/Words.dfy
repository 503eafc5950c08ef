/** Numbers of 64 bits and their bits, the lowest first. */
module Words {

  const WIDTH: nat := 64
  const LIMIT: nat := 0x1_0000_0000_0000_0000

  type Word = n: nat | n < LIMIT

  function Pow2(n: nat): (r: nat)
    ensures r > 0
  {
    if n == 0 then 1 else 2 * Pow2(n - 1)
  }

  lemma Pow2Width()
    ensures Pow2(WIDTH) == LIMIT
  {
    hide Pow2;
    PowOne();
    Pow2Sum(1, 1);
    Pow2Sum(2, 2);
    Pow2Sum(4, 4);
    Pow2Sum(8, 8);
    Pow2Sum(16, 16);
    Pow2Sum(32, 32);
  }

  lemma {:induction false} Pow2Sum(a: nat, b: nat)
    ensures Pow2(a + b) == Pow2(a) * Pow2(b)
  {
    if a > 0 {
      Pow2Sum(a - 1, b);
    }
  }

  function Bits(n: nat, width: nat): (b: seq<bool>)
    ensures |b| == width
  {
    if width == 0 then [] else [n % 2 == 1] + Bits(n / 2, width - 1)
  }

  lemma BitsStep(n: nat, width: nat)
    requires width > 0
    ensures Bits(n, width) == [n % 2 == 1] + Bits(n / 2, width - 1)
  {
  }

  function Number(b: seq<bool>): (n: nat)
    ensures n < Pow2(|b|)
  {
    if b == [] then 0 else (if b[0] then 1 else 0) + 2 * Number(b[1..])
  }

  lemma {:induction false} NumberOfBits(n: nat, width: nat)
    requires n < Pow2(width)
    ensures Number(Bits(n, width)) == n
  {
    if width > 0 {
      NumberOfBits(n / 2, width - 1);
      assert Bits(n, width)[1..] == Bits(n / 2, width - 1);
    }
  }

  lemma {:induction false} BitsOfNumber(b: seq<bool>)
    ensures Bits(Number(b), |b|) == b
  {
    if b != [] {
      BitsOfNumber(b[1..]);
      assert b == [b[0]] + b[1..];
    }
  }

  function ToBits(w: Word): (b: seq<bool>)
    ensures |b| == WIDTH
  {
    Bits(w, WIDTH)
  }

  function FromBits(b: seq<bool>): (w: Word)
    requires |b| == WIDTH
    ensures ToBits(w) == b
  {
    Pow2Width();
    BitsOfNumber(b);
    Number(b)
  }

  lemma FromToBits(w: Word)
    ensures FromBits(ToBits(w)) == w
  {
    Pow2Width();
    NumberOfBits(w, WIDTH);
  }

  /** Bits moved down by `k` places, zeros coming in at the top. */
  function Down(b: seq<bool>, k: nat): (r: seq<bool>)
    ensures |r| == |b|
  {
    seq(|b|, i requires 0 <= i < |b| => i + k < |b| && b[i + k])
  }

  function XorBits(a: seq<bool>, b: seq<bool>): (r: seq<bool>)
    requires |a| == |b|
    ensures |r| == |a|
  {
    seq(|a|, i requires 0 <= i < |a| => a[i] != b[i])
  }

  /** `a ^ b` */
  function Xor(a: Word, b: Word): Word {
    FromBits(XorBits(ToBits(a), ToBits(b)))
  }

  /** `w >> k` */
  function ShiftRight(w: Word, k: nat): Word {
    FromBits(Down(ToBits(w), k))
  }

  /** A shift to the right is a division. */
  lemma ShiftRightDivides(w: Word, k: nat)
    requires k <= WIDTH
    ensures ShiftRight(w, k) == w / Pow2(k)
  {
    Pow2Width();
    DownDivides(w, WIDTH, k);
    QuotientBound(w, k);
    NumberOfBits(w / Pow2(k), WIDTH);
  }

  lemma QuotientBound(w: nat, k: nat)
    ensures 0 <= w / Pow2(k) <= w
  {
    DivideLess(w, Pow2(k));
  }

  lemma MultipleGrows(q: nat, d: nat)
    requires d > 0
    ensures d * q >= q
  {
    assert d * q == (d - 1) * q + q;
  }

  lemma DistributeThree(d: nat, p: nat, r: nat)
    ensures d * (p + 1 + r) == d * p + d + d * r
  {
  }

  lemma NextMultiple(d: nat, p: nat, q: nat)
    requires p < q
    ensures d * p + d <= d * q
  {
    var r := q - p - 1;
    assert q == p + 1 + r;
    DistributeThree(d, p, r);
  }

  lemma DivideLess(w: nat, d: nat)
    requires d > 0
    ensures 0 <= w / d <= w
  {
    MultipleGrows(w / d, d);
  }

  lemma {:induction false} DownDivides(n: nat, width: nat, k: nat)
    requires k <= width && n < Pow2(width)
    ensures Down(Bits(n, width), k) == Bits(n / Pow2(k), width)
  {
    hide Pow2, Bits;
    forall i | 0 <= i < width
      ensures Down(Bits(n, width), k)[i] == Bits(n / Pow2(k), width)[i]
    {
      BitAt(n / Pow2(k), width, i);
      Divisions(n, k, i);
      if i + k < width {
        BitAt(n, width, i + k);
      } else {
        TooSmall(n, width, i + k);
      }
    }
  }

  lemma {:induction false} BitAt(n: nat, width: nat, i: nat)
    requires i < width
    ensures Bits(n, width)[i] <==> n / Pow2(i) % 2 == 1
  {
    hide Bits;
    BitsStep(n, width);
    if i > 0 {
      BitAt(n / 2, width - 1, i - 1);
      hide Pow2;
      PowStep(i);
      DivideTwice(n, 2, Pow2(i - 1));
    }
  }

  lemma PowOne()
    ensures Pow2(1) == 2
  {
  }

  lemma PowStep(i: nat)
    ensures i > 0 ==> Pow2(i) == 2 * Pow2(i - 1)
  {
  }

  lemma Divisions(n: nat, k: nat, i: nat)
    ensures n / Pow2(k) / Pow2(i) == n / Pow2(i + k)
  {
    Pow2Sum(k, i);
    DivideTwice(n, Pow2(k), Pow2(i));
  }

  lemma DivideTwice(n: nat, a: nat, b: nat)
    requires a > 0 && b > 0
    ensures a * b > 0 && n / a / b == n / (a * b)
  {
    var q, r, s := n / a / b, n % a, n / a % b;
    Split(a, b, q, s);
    NextMultiple(a, s, b);
    UniqueQuotient(n, a * b, q, a * s + r);
  }

  lemma Split(a: nat, b: nat, q: nat, s: nat)
    ensures a * (b * q + s) == a * b * q + a * s
  {
  }

  lemma UniqueQuotient(n: nat, d: nat, q: nat, r: nat)
    requires d > 0 && n == d * q + r && r < d
    ensures n / d == q && n % d == r
  {
    var p := n / d;
    if p < q {
      NextMultiple(d, p, q);
    } else if p > q {
      NextMultiple(d, q, p);
    }
  }

  lemma TooSmall(n: nat, width: nat, i: nat)
    requires n < Pow2(width) && width <= i
    ensures n / Pow2(i) == 0
  {
    Pow2Sum(width, i - width);
    MultipleGrows(Pow2(width), Pow2(i - width));
    UniqueQuotient(n, Pow2(i), 0, n);
  }

  lemma XorTwice(a: Word, b: Word)
    ensures Xor(Xor(a, b), b) == a
  {
    hide Bits, Number;
    assert XorBits(XorBits(ToBits(a), ToBits(b)), ToBits(b)) == ToBits(a);
    FromToBits(a);
  }

  /** Two words are equal exactly if all their bits are. */
  lemma SameBits(a: Word, b: Word)
    ensures a == b <==> forall i :: 0 <= i < WIDTH ==> ToBits(a)[i] == ToBits(b)[i]
  {
    hide ToBits, FromBits;
    FromToBits(a);
    FromToBits(b);
    if forall i :: 0 <= i < WIDTH ==> ToBits(a)[i] == ToBits(b)[i] {
      assert ToBits(a) == ToBits(b);
    }
  }

  lemma BitOfXor(a: Word, b: Word, i: nat)
    requires i < WIDTH
    ensures ToBits(Xor(a, b))[i] <==> ToBits(a)[i] != ToBits(b)[i]
  {
    hide ToBits;
  }

  /** Xors of two pairs are equal exactly if the xors across the pairs are. */
  lemma XorAcross(a: Word, b: Word, c: Word, d: Word)
    ensures Xor(a, b) == Xor(c, d) <==> Xor(a, c) == Xor(b, d)
  {
    hide ToBits, Xor;
    SameBits(Xor(a, b), Xor(c, d));
    SameBits(Xor(a, c), Xor(b, d));
    forall i | 0 <= i < WIDTH
      ensures ToBits(Xor(a, b))[i] == ToBits(Xor(c, d))[i] <==> ToBits(Xor(a, c))[i] == ToBits(Xor(b, d))[i]
    {
      BitOfXor(a, b, i);
      BitOfXor(c, d, i);
      BitOfXor(a, c, i);
      BitOfXor(b, d, i);
    }
  }

  lemma XorCancels(a: Word, b: Word, c: Word)
    ensures Xor(a, c) == Xor(b, c) <==> a == b
  {
    hide Xor;
    XorTwice(a, c);
    XorTwice(b, c);
  }

  lemma XorCommutes(a: Word, b: Word)
    ensures Xor(a, b) == Xor(b, a)
  {
    hide ToBits, FromBits;
    assert XorBits(ToBits(a), ToBits(b)) == XorBits(ToBits(b), ToBits(a));
  }

  lemma NextOfEven(a: nat, half: nat)
    requires a % 2 == 0 && a < 2 * half
    ensures a + 1 < 2 * half && (a + 1) / 2 == a / 2 && (a + 1) % 2 == 1
  {
  }

  /** An even number and the next one differ in the lowest bit only. */
  lemma EvenAndNext(a: Word)
    requires a % 2 == 0
    ensures a + 1 < LIMIT && Xor(a, a + 1) == 1
  {
    hide FromBits, Bits;
    NextOfEven(a, LIMIT / 2);
    var n := WIDTH - 1;
    BitsStep(a, WIDTH);
    BitsStep(a + 1, WIDTH);
    BitsStep(1, WIDTH);
    ZeroBits(n);
    assert XorBits(ToBits(a), ToBits(a + 1)) == ToBits(1);
    FromToBits(1);
  }

  lemma {:induction false} ZeroBits(n: nat)
    ensures forall i :: 0 <= i < n ==> !Bits(0, n)[i]
  {
    if n > 0 {
      ZeroBits(n - 1);
    }
  }

  // ----- invertible steps

  /** `w ^ (w >> k)` */
  function Fold(w: Word, k: nat): Word {
    Xor(w, ShiftRight(w, k))
  }

  function Unfold(w: Word, k: nat): Word {
    Xor(Xor(w, ShiftRight(w, k)), ShiftRight(w, 2 * k))
  }

  /** A number folded by more than a third of its width can be unfolded, and the other way round. */
  lemma UnfoldFold(w: Word, k: nat)
    requires WIDTH <= 3 * k
    ensures Unfold(Fold(w, k), k) == w && Fold(Unfold(w, k), k) == w
  {
    hide ToBits, FromBits;
    var b := ToBits(w);
    var folded, unfolded := XorBits(b, Down(b, k)), XorBits(XorBits(b, Down(b, k)), Down(b, 2 * k));
    assert XorBits(XorBits(folded, Down(folded, k)), Down(folded, 2 * k)) == b;
    assert XorBits(unfolded, Down(unfolded, k)) == b;
    FromToBits(w);
  }

  function Plus(w: Word, d: Word): Word {
    (w + d) % LIMIT
  }

  lemma PlusInverts(w: Word, d: Word)
    requires d > 0
    ensures Plus(Plus(w, d), LIMIT - d) == w
  {
  }

  function Times(w: Word, factor: Word): Word {
    w * factor % LIMIT
  }

  lemma TimesInverts(w: Word, factor: Word, inverse: Word, q: nat)
    requires factor * inverse == 1 + q * LIMIT
    ensures Times(Times(w, factor), inverse) == w
  {
    var p := w * factor;
    var high := p / LIMIT;
    var t := w * q - high * inverse;
    assert Times(w, factor) == p - high * LIMIT;
    calc {
      Times(w, factor) * inverse;
      (p - high * LIMIT) * inverse;
      p * inverse - high * LIMIT * inverse;
      { assert p * inverse == w * (factor * inverse); }
      w * (1 + q * LIMIT) - high * LIMIT * inverse;
      { Distribute(w, q, high, inverse); }
      w + t * LIMIT;
    }
    Residue(w, t);
  }

  lemma Distribute(w: nat, q: nat, high: nat, inverse: nat)
    ensures w * (1 + q * LIMIT) - high * LIMIT * inverse == w + (w * q - high * inverse) * LIMIT
  {
    assert w * (q * LIMIT) == (w * q) * LIMIT;
    assert high * LIMIT * inverse == (high * inverse) * LIMIT;
  }

  lemma Residue(w: Word, t: int)
    ensures (w + t * LIMIT) % LIMIT == w
  {
  }
}
