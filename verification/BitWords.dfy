// Bits of 64-bit words. The word operations are named, so that proofs about
// bits go by induction on a position and only the one-step facts look at the
// bit-vector arithmetic. A shift by a variable distance is repeated shifting by one.
module BitWords {
  type Word = bv64

  const ONES: Word := 0xffff_ffff_ffff_ffff

  predicate Low(w: Word) { w & 1 == 1 }
  function Half(w: Word): Word { w >> 1 }
  function Twice(w: Word): Word { w << 1 }
  function And(a: Word, b: Word): Word { a & b }
  function Or(a: Word, b: Word): Word { a | b }
  function Not(a: Word): Word { !a }
  function Less1(a: Word): Word { a - 1 }

  function Bit(w: Word, i: nat): bool {
    if i == 0 then Low(w) else Bit(Half(w), i - 1)
  }

  function Shl(w: Word, n: nat): Word {
    if n == 0 then w else Twice(Shl(w, n - 1))
  }

  function Shr(w: Word, n: nat): Word {
    if n == 0 then w else Half(Shr(w, n - 1))
  }

  // Set bits among the lowest n; bits.OnesCount64 is Count(w, 64).
  function Count(w: Word, n: nat): (c: nat)
    ensures c <= n
  {
    if n == 0 then 0 else (if Low(w) then 1 else 0) + Count(Half(w), n - 1)
  }

  // The first set bit among the lowest n, or n; bits.TrailingZeros64 is Trailing(w, 64).
  function Trailing(w: Word, n: nat): (t: nat)
    ensures t <= n
  {
    if n == 0 || Low(w) then 0 else 1 + Trailing(Half(w), n - 1)
  }

  // ----- one step of bit-vector arithmetic each -----

  lemma AndStep(a: Word, b: Word)
    ensures Half(And(a, b)) == And(Half(a), Half(b)) && (Low(And(a, b)) <==> Low(a) && Low(b))
  {
  }

  lemma OrStep(a: Word, b: Word)
    ensures Half(Or(a, b)) == Or(Half(a), Half(b)) && (Low(Or(a, b)) <==> Low(a) || Low(b))
  {
  }

  lemma NotStep(w: Word)
    ensures Half(Not(w)) == And(Not(Half(w)), Half(ONES)) && (Low(Not(w)) <==> !Low(w))
  {
  }

  lemma TwiceStep(w: Word)
    ensures Half(Twice(w)) == And(w, Half(ONES)) && !Low(Twice(w))
  {
  }

  lemma Less1Step(w: Word)
    ensures Half(Less1(Twice(w))) == And(Less1(w), Half(ONES)) && Low(Less1(Twice(w)))
  {
  }

  lemma OddLess1(w: Word)
    requires Low(w)
    ensures Half(Less1(w)) == Half(w) && !Low(Less1(w))
  {
    assert w - 1 == w ^ 1 by { OddMinus(w); }
  }

  lemma OddMinus(w: Word)
    requires w & 1 == 1
    ensures w - 1 == w ^ 1
  {
  }

  lemma EvenIsTwice(w: Word)
    requires !Low(w)
    ensures w == Twice(Half(w))
  {
  }

  lemma AndFacts(v: Word, x: Word)
    ensures And(v, v) == v && And(Half(v), And(x, Half(ONES))) == And(Half(v), x)
  {
    hide And, Half;
    SelfMask(v);
    HighMask(v, x);
  }

  lemma HighMask(v: Word, x: Word)
    ensures And(Half(v), And(x, Half(ONES))) == And(Half(v), x)
  {
    hide And;
    HalfMask(v, x);
    AndIs(x, Half(ONES));
    AndIs(Half(v), And(x, Half(ONES)));
    AndIs(Half(v), x);
  }

  lemma AndIs(a: Word, b: Word)
    ensures And(a, b) == a & b
  {
  }

  lemma SelfMask(v: Word)
    ensures And(v, v) == v
  {
  }

  lemma HalfMask(v: Word, x: Word)
    ensures (v >> 1) & (x & (ONES >> 1)) == (v >> 1) & x
  {
  }

  // Clearing the lowest set bit, seen from one bit further up.
  lemma ClearStep(w: Word)
    ensures Low(w) ==> Half(And(w, Less1(w))) == Half(w)
    ensures !Low(w) ==> Half(And(w, Less1(w))) == And(Half(w), Less1(Half(w)))
    ensures !Low(And(w, Less1(w)))
  {
    hide Low, Half, And, Less1, Twice;
    AndStep(w, Less1(w));
    AndFacts(Half(w), Less1(Half(w)));
    AndFacts(w, Less1(Half(w)));
    if Low(w) {
      OddLess1(w);
    } else {
      EvenIsTwice(w);
      Less1Step(Half(w));
    }
  }

  lemma ZeroStep(w: Word)
    ensures Half(0) == 0 && !Low(0) && (!Low(w) && Half(w) == 0 ==> w == 0)
  {
  }

  lemma ByteStep(w: Word)
    ensures Shr(w, 8) == w >> 8
  {
    assert Shr(w, 1) == w >> 1;
    assert Shr(w, 2) == w >> 2;
    assert Shr(w, 3) == w >> 3;
    assert Shr(w, 4) == w >> 4;
    assert Shr(w, 5) == w >> 5;
    assert Shr(w, 6) == w >> 6;
    assert Shr(w, 7) == w >> 7;
  }

  // ----- shifts -----

  lemma {:induction false} ShrHalf(w: Word, n: nat)
    ensures Shr(Half(w), n) == Half(Shr(w, n))
  {
    hide Half;
    if n > 0 { ShrHalf(w, n - 1); }
  }

  lemma {:induction false} ShrAdd(w: Word, m: nat, n: nat)
    ensures Shr(w, m + n) == Shr(Shr(w, m), n)
  {
    hide Half;
    if n > 0 { ShrAdd(w, m, n - 1); }
  }

  lemma {:induction false} ShiftedOut(w: Word)
    ensures Shr(w, 64) == 0
  {
    hide Half, Shr;
    var a, b, c, d := Shr(w, 8), Shr(w, 16), Shr(w, 24), Shr(w, 32);
    var e, f, g := Shr(w, 40), Shr(w, 48), Shr(w, 56);
    ByteStep(w);
    ShrAdd(w, 8, 8); ByteStep(a);
    ShrAdd(w, 16, 8); ByteStep(b);
    ShrAdd(w, 24, 8); ByteStep(c);
    ShrAdd(w, 32, 8); ByteStep(d);
    ShrAdd(w, 40, 8); ByteStep(e);
    ShrAdd(w, 48, 8); ByteStep(f);
    ShrAdd(w, 56, 8); ByteStep(g);
  }

  lemma {:induction false} BitShr(w: Word, n: nat, i: nat)
    ensures Bit(Shr(w, n), i) == Bit(w, n + i)
    decreases n
  {
    hide Half, Low;
    if n > 0 {
      ShrHalf(w, n - 1);
      BitShr(Half(w), n - 1, i);
    }
  }

  lemma {:induction false} BitZero(i: nat)
    ensures !Bit(0, i)
  {
    hide Half, Low;
    ZeroStep(0);
    if i > 0 { BitZero(i - 1); }
  }

  // No bits beyond the width.
  lemma BitBeyond(w: Word, i: nat)
    requires i >= 64
    ensures !Bit(w, i)
  {
    ShiftedOut(w);
    BitShr(w, 64, i - 64);
    BitZero(i - 64);
  }

  predicate LowOnes(w: Word, n: nat) {
    n > 0 ==> Low(w) && LowOnes(Half(w), n - 1)
  }

  lemma {:induction false} BitLowOnes(w: Word, n: nat, i: nat)
    requires LowOnes(w, n) && i < n
    ensures Bit(w, i)
    decreases n
  {
    hide Half, Low;
    if i > 0 { BitLowOnes(Half(w), n - 1, i - 1); }
  }

  lemma LowOnes4(w: Word, n: nat)
    requires w & 0xf == 0xf && LowOnes(w >> 4, n)
    ensures LowOnes(w, n + 4)
  {
    var a, b, c := Half(w), Half(Half(w)), Half(Half(Half(w)));
    assert Low(w) && Low(a) && Low(b) && Low(c);
    assert Half(c) == w >> 4;
    hide Low, Half;
    assert LowOnes(c, n + 1);
    assert LowOnes(b, n + 2);
    assert LowOnes(a, n + 3);
  }

  lemma AllOnes()
    ensures LowOnes(ONES, 64)
  {
    hide LowOnes;
    LowOnesNothing();
    LowOnes4(0xf, 0);
    LowOnes4(0xff, 4);
    LowOnes4(0xfff, 8);
    LowOnes4(0xffff, 12);
    LowOnes4(0xf_ffff, 16);
    LowOnes4(0xff_ffff, 20);
    LowOnes4(0xfff_ffff, 24);
    LowOnes4(0xffff_ffff, 28);
    LowOnes4(0xf_ffff_ffff, 32);
    LowOnes4(0xff_ffff_ffff, 36);
    LowOnes4(0xfff_ffff_ffff, 40);
    LowOnes4(0xffff_ffff_ffff, 44);
    LowOnes4(0xf_ffff_ffff_ffff, 48);
    LowOnes4(0xff_ffff_ffff_ffff, 52);
    LowOnes4(0xfff_ffff_ffff_ffff, 56);
    LowOnes4(ONES, 60);
  }

  lemma LowOnesNothing()
    ensures LowOnes(0, 0)
  {
  }

  lemma BitOnes(i: nat)
    ensures Bit(ONES, i) <==> i < 64
  {
    AllOnes();
    if i < 64 { BitLowOnes(ONES, 64, i); } else { BitBeyond(ONES, i); }
  }

  // ----- bits of combined words -----

  lemma {:induction false} BitAnd(a: Word, b: Word, i: nat)
    ensures Bit(And(a, b), i) <==> Bit(a, i) && Bit(b, i)
    decreases i
  {
    hide Low, Half, And;
    AndStep(a, b);
    if i > 0 { BitAnd(Half(a), Half(b), i - 1); }
  }

  lemma {:induction false} BitOr(a: Word, b: Word, i: nat)
    ensures Bit(Or(a, b), i) <==> Bit(a, i) || Bit(b, i)
    decreases i
  {
    hide Low, Half, Or;
    OrStep(a, b);
    if i > 0 { BitOr(Half(a), Half(b), i - 1); }
  }

  lemma {:induction false} BitNot(w: Word, i: nat)
    ensures Bit(Not(w), i) <==> i < 64 && !Bit(w, i)
    decreases i
  {
    hide Low, Half, And, Not;
    NotStep(w);
    BitOnes(i);
    if i > 0 {
      BitAnd(Not(Half(w)), Half(ONES), i - 1);
      BitNot(Half(w), i - 1);
    }
  }

  lemma BitTwice(w: Word, i: nat)
    ensures Bit(Twice(w), i) <==> 0 < i < 64 && Bit(w, i - 1)
  {
    hide Low, Half, And, Twice;
    TwiceStep(w);
    if i > 0 {
      BitAnd(w, Half(ONES), i - 1);
      BitOnes(i);
    }
  }

  // The word 1 << n has bit n only.
  lemma {:induction false} BitOne(n: nat, i: nat)
    requires n < 64
    ensures Bit(Shl(1, n), i) <==> i == n
  {
    hide Low, Half, Twice;
    if n > 0 {
      BitTwice(Shl(1, n - 1), i);
      if i > 0 { BitOne(n - 1, i - 1); }
    } else {
      OneStep();
      if i > 0 { BitZero(i - 1); }
    }
  }

  lemma OneStep()
    ensures Low(1) && Half(1) == 0 && Less1(1) == 0
  {
  }

  // All ones from bit n up.
  lemma {:induction false} BitHigh(n: nat, i: nat)
    ensures Bit(Shl(ONES, n), i) <==> n <= i < 64
  {
    hide Low, Half, Twice;
    if n > 0 {
      BitTwice(Shl(ONES, n - 1), i);
      if i > 0 { BitHigh(n - 1, i - 1); }
    } else {
      BitOnes(i);
    }
  }

  // The word (1 << n) - 1 has exactly its n lowest bits.
  lemma {:induction false} BitBelow(n: nat, i: nat)
    requires n < 64
    ensures Bit(Less1(Shl(1, n)), i) <==> i < n
  {
    hide Low, Half, Twice, Less1, And;
    if n > 0 {
      Less1Step(Shl(1, n - 1));
      if i > 0 {
        BitAnd(Less1(Shl(1, n - 1)), Half(ONES), i - 1);
        BitOnes(i);
        BitBelow(n - 1, i - 1);
      }
    } else {
      OneStep();
      BitZero(i);
    }
  }

  // ----- walking the set bits -----

  lemma {:induction false} TrailingIsFirst(w: Word, n: nat, i: nat)
    ensures i < Trailing(w, n) ==> !Bit(w, i)
    ensures Trailing(w, n) < n ==> Bit(w, Trailing(w, n))
    decreases n
  {
    hide Low, Half;
    if n > 0 && !Low(w) {
      TrailingIsFirst(Half(w), n - 1, if i > 0 then i - 1 else 0);
    }
  }

  lemma {:induction false} NoBitsIsZero(w: Word, n: nat)
    requires Shr(w, n) == 0 && forall i :: 0 <= i < n ==> !Bit(w, i)
    ensures w == 0
    decreases n
  {
    hide Low, Half;
    if n > 0 {
      ShrHalf(w, n - 1);
      forall i | 0 <= i < n - 1 ensures !Bit(Half(w), i) { assert !Bit(w, i + 1); }
      NoBitsIsZero(Half(w), n - 1);
      assert !Bit(w, 0);
      ZeroStep(w);
    }
  }

  lemma NonzeroHasBit(w: Word)
    requires w != 0
    ensures Trailing(w, 64) < 64
  {
    if Trailing(w, 64) == 64 {
      ShiftedOut(w);
      forall i | 0 <= i < 64 ensures !Bit(w, i) { TrailingIsFirst(w, 64, i); }
      NoBitsIsZero(w, 64);
    }
  }

  // w & (w - 1) clears the first set bit and no other.
  lemma {:induction false} BitCleared(w: Word, n: nat, i: nat)
    requires Trailing(w, n) < n
    ensures Bit(And(w, Less1(w)), i) <==> Bit(w, i) && i != Trailing(w, n)
    decreases n
  {
    hide Low, Half, And, Less1;
    ClearStep(w);
    if !Low(w) {
      BitCleared(Half(w), n - 1, if i > 0 then i - 1 else 0);
      TrailingIsFirst(w, n, i);
    }
  }

  lemma {:induction false} CountStep(w: Word, n: nat)
    ensures Count(w, n + 1) == Count(w, n) + if Bit(w, n) then 1 else 0
    decreases n
  {
    hide Low, Half;
    if n > 0 { CountStep(Half(w), n - 1); }
  }
}
