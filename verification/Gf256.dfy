/** Bytes as elements of GF(2^8) and multiplication by the coefficients of MixColumns and
    InvMixColumns (sections 4.1, 4.2, 5.1.3 and 5.3.3 of FIPS 197). */
module Gf256 {

  /** Addition. */
  function X(a: bv8, b: bv8): bv8 { a ^ b }

  /** Multiplication by {02}: the shifted-out bit brings in {1b}. */
  function XTime(x: bv8): bv8 { (x << 1) ^ (x >> 7) ^ ((x >> 7) << 1) ^ ((x >> 7) << 3) ^ ((x >> 7) << 4) }

  lemma XTimeReduces(x: bv8)
    ensures XTime(x) == (x << 1) ^ (if x & 0x80 != 0 then 0x1b else 0)
  {}

  function XTime2(x: bv8): bv8 { XTime(XTime(x)) }
  function XTime3(x: bv8): bv8 { XTime(XTime(XTime(x))) }

  function Mul03(x: bv8): bv8 { X(XTime(x), x) }
  function Mul09(x: bv8): bv8 { X(XTime3(x), x) }
  function Mul0b(x: bv8): bv8 { X(Mul09(x), XTime(x)) }
  function Mul0d(x: bv8): bv8 { X(Mul09(x), XTime2(x)) }
  function Mul0e(x: bv8): bv8 { X(X(XTime3(x), XTime2(x)), XTime(x)) }

  function X4(a: bv8, b: bv8, c: bv8, d: bv8): bv8 { X(X(a, b), X(c, d)) }

  lemma XLaws(a: bv8, b: bv8)
    ensures X(a, b) == X(b, a) && X(X(a, b), b) == a && X(a, 0) == a
  {}

  lemma XAssoc(a: bv8, b: bv8, c: bv8)
    ensures X(X(a, b), c) == X(a, X(b, c))
  {}

  lemma XShuffle(a: bv8, b: bv8, c: bv8, d: bv8)
    ensures X(X(a, b), X(c, d)) == X(X(a, c), X(b, d))
  {
    hide X;
    XAssoc(a, b, X(c, d));
    XAssoc(b, c, d);
    XLaws(b, c);
    XAssoc(c, b, d);
    XAssoc(a, c, X(b, d));
  }

  lemma X4Rotates(a: bv8, b: bv8, c: bv8, d: bv8)
    ensures X4(a, b, c, d) == X4(b, c, d, a)
  {
    hide X;
    XLaws(X(a, b), X(c, d));
    XLaws(c, d);
    XShuffle(c, d, b, a);
    XLaws(a, b);
    XShuffle(b, c, d, a);
    XLaws(X(b, c), X(d, a));
    XLaws(d, a);
    XShuffle(a, d, b, c);
    XShuffle(b, c, a, d);
    XLaws(a, d);
    XShuffle(c, d, a, b);
    XShuffle(b, a, c, d);
  }

  lemma XTimeLinear(a: bv8, b: bv8)
    ensures XTime(X(a, b)) == X(XTime(a), XTime(b))
  {}

  lemma XTimesLinear(a: bv8, b: bv8)
    ensures XTime2(X(a, b)) == X(XTime2(a), XTime2(b)) && XTime3(X(a, b)) == X(XTime3(a), XTime3(b))
  {
    hide X, XTime;
    XTimeLinear(a, b);
    XTimeLinear(XTime(a), XTime(b));
    XTimeLinear(XTime(XTime(a)), XTime(XTime(b)));
  }

  /** Multiplication by a constant distributes over addition. */
  lemma MulsLinear(a: bv8, b: bv8)
    ensures Mul09(X(a, b)) == X(Mul09(a), Mul09(b)) && Mul0b(X(a, b)) == X(Mul0b(a), Mul0b(b))
    ensures Mul0d(X(a, b)) == X(Mul0d(a), Mul0d(b)) && Mul0e(X(a, b)) == X(Mul0e(a), Mul0e(b))
    ensures Mul03(X(a, b)) == X(Mul03(a), Mul03(b))
  {
    hide X, XTime, XTime2, XTime3;
    XTimeLinear(a, b);
    XTimesLinear(a, b);
    XShuffle(XTime(a), XTime(b), a, b);
    XShuffle(XTime3(a), XTime3(b), a, b);
    XShuffle(Mul09(a), Mul09(b), XTime(a), XTime(b));
    XShuffle(Mul09(a), Mul09(b), XTime2(a), XTime2(b));
    XShuffle(XTime3(a), XTime3(b), XTime2(a), XTime2(b));
    XShuffle(X(XTime3(a), XTime2(a)), X(XTime3(b), XTime2(b)), XTime(a), XTime(b));
  }

  /** The product of the two column matrices is the identity, entry by entry. */
  lemma ColumnsInverse(x: bv8)
    ensures X4(Mul0e(XTime(x)), Mul0b(x), Mul0d(x), Mul09(Mul03(x))) == x
    ensures X4(Mul0e(Mul03(x)), Mul0b(XTime(x)), Mul0d(x), Mul09(x)) == 0
    ensures X4(Mul0e(x), Mul0b(Mul03(x)), Mul0d(XTime(x)), Mul09(x)) == 0
    ensures X4(Mul0e(x), Mul0b(x), Mul0d(Mul03(x)), Mul09(XTime(x))) == 0
  {}

  // ----- columns

  /** A 32-bit word of the cipher state, most significant byte first. */
  datatype Word = Word(a: bv8, b: bv8, c: bv8, d: bv8)

  function XorW(u: Word, v: Word): Word { Word(X(u.a, v.a), X(u.b, v.b), X(u.c, v.c), X(u.d, v.d)) }

  lemma XorWLaws(u: Word, v: Word)
    ensures XorW(u, v) == XorW(v, u) && XorW(XorW(u, v), v) == u
  {
    hide X;
    XLaws(u.a, v.a);
    XLaws(u.b, v.b);
    XLaws(u.c, v.c);
    XLaws(u.d, v.d);
  }

  function MixColumn(w: Word): Word {
    Word(X4(XTime(w.a), Mul03(w.b), w.c, w.d), X4(w.a, XTime(w.b), Mul03(w.c), w.d),
         X4(w.a, w.b, XTime(w.c), Mul03(w.d)), X4(Mul03(w.a), w.b, w.c, XTime(w.d)))
  }

  function InvMixColumn(w: Word): Word {
    Word(X4(Mul0e(w.a), Mul0b(w.b), Mul0d(w.c), Mul09(w.d)), X4(Mul09(w.a), Mul0e(w.b), Mul0b(w.c), Mul0d(w.d)),
         X4(Mul0d(w.a), Mul09(w.b), Mul0e(w.c), Mul0b(w.d)), X4(Mul0b(w.a), Mul0d(w.b), Mul09(w.c), Mul0e(w.d)))
  }

  lemma X4Linear(a: bv8, b: bv8, c: bv8, d: bv8, e: bv8, f: bv8, g: bv8, h: bv8)
    ensures X4(X(a, e), X(b, f), X(c, g), X(d, h)) == X(X4(a, b, c, d), X4(e, f, g, h))
  {
    hide X;
    XShuffle(a, e, b, f);
    XShuffle(c, g, d, h);
    XShuffle(X(a, b), X(e, f), X(c, d), X(g, h));
  }

  lemma InvMixColumnLinear(u: Word, v: Word)
    ensures InvMixColumn(XorW(u, v)) == XorW(InvMixColumn(u), InvMixColumn(v))
  {
    hide X, X4, Mul09, Mul0b, Mul0d, Mul0e;
    MulsLinear(u.a, v.a);
    MulsLinear(u.b, v.b);
    MulsLinear(u.c, v.c);
    MulsLinear(u.d, v.d);
    X4Linear(Mul0e(u.a), Mul0b(u.b), Mul0d(u.c), Mul09(u.d), Mul0e(v.a), Mul0b(v.b), Mul0d(v.c), Mul09(v.d));
    X4Linear(Mul09(u.a), Mul0e(u.b), Mul0b(u.c), Mul0d(u.d), Mul09(v.a), Mul0e(v.b), Mul0b(v.c), Mul0d(v.d));
    X4Linear(Mul0d(u.a), Mul09(u.b), Mul0e(u.c), Mul0b(u.d), Mul0d(v.a), Mul09(v.b), Mul0e(v.c), Mul0b(v.d));
    X4Linear(Mul0b(u.a), Mul0d(u.b), Mul09(u.c), Mul0e(u.d), Mul0b(v.a), Mul0d(v.b), Mul09(v.c), Mul0e(v.d));
  }

  lemma MulsOfSum(a: bv8, b: bv8, c: bv8, d: bv8)
    ensures Mul09(X4(a, b, c, d)) == X4(Mul09(a), Mul09(b), Mul09(c), Mul09(d))
    ensures Mul0b(X4(a, b, c, d)) == X4(Mul0b(a), Mul0b(b), Mul0b(c), Mul0b(d))
    ensures Mul0d(X4(a, b, c, d)) == X4(Mul0d(a), Mul0d(b), Mul0d(c), Mul0d(d))
    ensures Mul0e(X4(a, b, c, d)) == X4(Mul0e(a), Mul0e(b), Mul0e(c), Mul0e(d))
  {
    hide X, Mul09, Mul0b, Mul0d, Mul0e;
    MulsLinear(X(a, b), X(c, d));
    MulsLinear(a, b);
    MulsLinear(c, d);
  }

  /** Adding up a 4 by 4 table by rows or by columns. */
  lemma Transpose(a: Word, b: Word, c: Word, d: Word)
    ensures X4(X4(a.a, a.b, a.c, a.d), X4(b.a, b.b, b.c, b.d), X4(c.a, c.b, c.c, c.d), X4(d.a, d.b, d.c, d.d))
         == X4(X4(a.a, b.a, c.a, d.a), X4(a.b, b.b, c.b, d.b), X4(a.c, b.c, c.c, d.c), X4(a.d, b.d, c.d, d.d))
  {
    hide X;
    Rows(a, b);
    Rows(c, d);
    SumOfSums(a, b, c, d);
  }

  lemma Rows(a: Word, b: Word)
    ensures X(X4(a.a, a.b, a.c, a.d), X4(b.a, b.b, b.c, b.d)) == X4(X(a.a, b.a), X(a.b, b.b), X(a.c, b.c), X(a.d, b.d))
  {
    hide X, X4;
    X4Linear(a.a, a.b, a.c, a.d, b.a, b.b, b.c, b.d);
  }

  lemma SumOfSums(a: Word, b: Word, c: Word, d: Word)
    ensures X(X4(X(a.a, b.a), X(a.b, b.b), X(a.c, b.c), X(a.d, b.d)),
              X4(X(c.a, d.a), X(c.b, d.b), X(c.c, d.c), X(c.d, d.d)))
         == X4(X4(a.a, b.a, c.a, d.a), X4(a.b, b.b, c.b, d.b), X4(a.c, b.c, c.c, d.c), X4(a.d, b.d, c.d, d.d))
  {
    hide X;
    X4Linear(X(a.a, b.a), X(a.b, b.b), X(a.c, b.c), X(a.d, b.d), X(c.a, d.a), X(c.b, d.b), X(c.c, d.c), X(c.d, d.d));
  }

  lemma X4OfOne(a: bv8)
    ensures X4(a, 0, 0, 0) == a
  {
    hide X;
    XLaws(a, 0);
    XLaws(0, 0);
  }

  lemma FirstComponent(w: Word)
    ensures InvMixColumn(MixColumn(w)).a == w.a
  {
    hide X, X4, Mul03, Mul09, Mul0b, Mul0d, Mul0e, XTime;
    MulsOfSum(XTime(w.a), Mul03(w.b), w.c, w.d);
    MulsOfSum(w.a, XTime(w.b), Mul03(w.c), w.d);
    MulsOfSum(w.a, w.b, XTime(w.c), Mul03(w.d));
    MulsOfSum(Mul03(w.a), w.b, w.c, XTime(w.d));
    Transpose(Word(Mul0e(XTime(w.a)), Mul0e(Mul03(w.b)), Mul0e(w.c), Mul0e(w.d)),
              Word(Mul0b(w.a), Mul0b(XTime(w.b)), Mul0b(Mul03(w.c)), Mul0b(w.d)),
              Word(Mul0d(w.a), Mul0d(w.b), Mul0d(XTime(w.c)), Mul0d(Mul03(w.d))),
              Word(Mul09(Mul03(w.a)), Mul09(w.b), Mul09(w.c), Mul09(XTime(w.d))));
    ColumnsInverse(w.a);
    ColumnsInverse(w.b);
    ColumnsInverse(w.c);
    ColumnsInverse(w.d);
    X4OfOne(w.a);
  }

  function Rot(w: Word): Word { Word(w.b, w.c, w.d, w.a) }

  /** Both column maps are circulant. */
  lemma ColumnsRotate(w: Word)
    ensures MixColumn(Rot(w)) == Rot(MixColumn(w)) && InvMixColumn(Rot(w)) == Rot(InvMixColumn(w))
  {
    hide X, X4, Mul03, Mul09, Mul0b, Mul0d, Mul0e, XTime;
    X4Rotates(XTime(w.a), Mul03(w.b), w.c, w.d);
    X4Rotates(w.a, XTime(w.b), Mul03(w.c), w.d);
    X4Rotates(w.a, w.b, XTime(w.c), Mul03(w.d));
    X4Rotates(Mul03(w.a), w.b, w.c, XTime(w.d));
    X4Rotates(Mul0e(w.a), Mul0b(w.b), Mul0d(w.c), Mul09(w.d));
    X4Rotates(Mul09(w.a), Mul0e(w.b), Mul0b(w.c), Mul0d(w.d));
    X4Rotates(Mul0d(w.a), Mul09(w.b), Mul0e(w.c), Mul0b(w.d));
    X4Rotates(Mul0b(w.a), Mul0d(w.b), Mul09(w.c), Mul0e(w.d));
  }

  /** InvMixColumns undoes MixColumns. */
  lemma MixColumnUndone(w: Word)
    ensures InvMixColumn(MixColumn(w)) == w
  {
    hide MixColumn, InvMixColumn;
    FirstComponent(w);
    FirstComponent(Rot(w));
    FirstComponent(Rot(Rot(w)));
    FirstComponent(Rot(Rot(Rot(w))));
    ColumnsRotate(w);
    ColumnsRotate(MixColumn(w));
    ColumnsRotate(Rot(w));
    ColumnsRotate(MixColumn(Rot(w)));
    ColumnsRotate(Rot(Rot(w)));
    ColumnsRotate(MixColumn(Rot(Rot(w))));
  }
}
