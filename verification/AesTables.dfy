/** The lookup tables of the table-driven cipher and what sums of their entries compute. */
module AesTables {
  import opened Gf256
  import opened Aes

  // ----- Te0..Te4 and Td0..Td4: the columns of the two matrices times the substituted byte

  function Te0(t: Tables, x: bv8): Word { Word(XTime(t.s(x)), t.s(x), t.s(x), Mul03(t.s(x))) }
  function Te1(t: Tables, x: bv8): Word { Word(Mul03(t.s(x)), XTime(t.s(x)), t.s(x), t.s(x)) }
  function Te2(t: Tables, x: bv8): Word { Word(t.s(x), Mul03(t.s(x)), XTime(t.s(x)), t.s(x)) }
  function Te3(t: Tables, x: bv8): Word { Word(t.s(x), t.s(x), Mul03(t.s(x)), XTime(t.s(x))) }
  function Te4(t: Tables, x: bv8): Word { Word(t.s(x), t.s(x), t.s(x), t.s(x)) }

  function Td0(t: Tables, x: bv8): Word {
    Word(Mul0e(t.si(x)), Mul09(t.si(x)), Mul0d(t.si(x)), Mul0b(t.si(x)))
  }
  function Td1(t: Tables, x: bv8): Word {
    Word(Mul0b(t.si(x)), Mul0e(t.si(x)), Mul09(t.si(x)), Mul0d(t.si(x)))
  }
  function Td2(t: Tables, x: bv8): Word {
    Word(Mul0d(t.si(x)), Mul0b(t.si(x)), Mul0e(t.si(x)), Mul09(t.si(x)))
  }
  function Td3(t: Tables, x: bv8): Word {
    Word(Mul09(t.si(x)), Mul0d(t.si(x)), Mul0b(t.si(x)), Mul0e(t.si(x)))
  }
  function Td4(t: Tables, x: bv8): Word { Word(t.si(x), t.si(x), t.si(x), t.si(x)) }

  // The masks 0xff000000, 0x00ff0000, 0x0000ff00 and 0x000000ff.
  function MaskA(w: Word): Word { Word(w.a, 0, 0, 0) }
  function MaskB(w: Word): Word { Word(0, w.b, 0, 0) }
  function MaskC(w: Word): Word { Word(0, 0, w.c, 0) }
  function MaskD(w: Word): Word { Word(0, 0, 0, w.d) }

  function Sum4(p: Word, q: Word, r: Word, s: Word): Word { XorW(XorW(XorW(p, q), r), s) }

  /** One new column of an encryption round. */
  function TeColumn(t: Tables, a: bv8, b: bv8, c: bv8, d: bv8, k: Word): Word {
    XorW(Sum4(Te0(t, a), Te1(t, b), Te2(t, c), Te3(t, d)), k)
  }

  /** One new column of a decryption round. */
  function TdColumn(t: Tables, a: bv8, b: bv8, c: bv8, d: bv8, k: Word): Word {
    XorW(Sum4(Td0(t, a), Td1(t, b), Td2(t, c), Td3(t, d)), k)
  }

  function TeLast(t: Tables, a: bv8, b: bv8, c: bv8, d: bv8, k: Word): Word {
    XorW(Sum4(MaskA(Te4(t, a)), MaskB(Te4(t, b)), MaskC(Te4(t, c)), MaskD(Te4(t, d))), k)
  }

  function TdLast(t: Tables, a: bv8, b: bv8, c: bv8, d: bv8, k: Word): Word {
    XorW(Sum4(MaskA(Td4(t, a)), MaskB(Td4(t, b)), MaskC(Td4(t, c)), MaskD(Td4(t, d))), k)
  }

  lemma XSum4(a: bv8, b: bv8, c: bv8, d: bv8)
    ensures X(X(X(a, b), c), d) == X4(a, b, c, d)
  {
    hide X;
    XAssoc(X(a, b), c, d);
  }

  lemma MaskedSum(p: Word, q: Word, r: Word, s: Word)
    ensures Sum4(MaskA(p), MaskB(q), MaskC(r), MaskD(s)) == Word(p.a, q.b, r.c, s.d)
  {
    hide X;
    XLaws(p.a, 0);
    XLaws(0, q.b);
    XLaws(q.b, 0);
    XLaws(0, 0);
    XLaws(0, r.c);
    XLaws(r.c, 0);
    XLaws(0, s.d);
    XLaws(s.d, 0);
  }

  /** Four table entries added up are MixColumn of the four substituted bytes. */
  lemma TeColumnIsMixColumn(t: Tables, a: bv8, b: bv8, c: bv8, d: bv8, k: Word)
    ensures TeColumn(t, a, b, c, d, k) == XorW(MixColumn(SubWord(t.s, Word(a, b, c, d))), k)
  {
    hide X, X4, XTime, Mul03;
    var w := SubWord(t.s, Word(a, b, c, d));
    XSum4(XTime(w.a), Mul03(w.b), w.c, w.d);
    XSum4(w.a, XTime(w.b), Mul03(w.c), w.d);
    XSum4(w.a, w.b, XTime(w.c), Mul03(w.d));
    XSum4(Mul03(w.a), w.b, w.c, XTime(w.d));
  }

  lemma TdColumnIsInvMixColumn(t: Tables, a: bv8, b: bv8, c: bv8, d: bv8, k: Word)
    ensures TdColumn(t, a, b, c, d, k) == XorW(InvMixColumn(SubWord(t.si, Word(a, b, c, d))), k)
  {
    hide X, X4, Mul09, Mul0b, Mul0d, Mul0e;
    var w := SubWord(t.si, Word(a, b, c, d));
    XSum4(Mul0e(w.a), Mul0b(w.b), Mul0d(w.c), Mul09(w.d));
    XSum4(Mul09(w.a), Mul0e(w.b), Mul0b(w.c), Mul0d(w.d));
    XSum4(Mul0d(w.a), Mul09(w.b), Mul0e(w.c), Mul0b(w.d));
    XSum4(Mul0b(w.a), Mul0d(w.b), Mul09(w.c), Mul0e(w.d));
  }

  // ----- whole rounds through the tables

  function TeRound(t: Tables, s: State, k: State): State {
    State(TeColumn(t, s.c0.a, s.c1.b, s.c2.c, s.c3.d, k.c0), TeColumn(t, s.c1.a, s.c2.b, s.c3.c, s.c0.d, k.c1),
          TeColumn(t, s.c2.a, s.c3.b, s.c0.c, s.c1.d, k.c2), TeColumn(t, s.c3.a, s.c0.b, s.c1.c, s.c2.d, k.c3))
  }

  function TdRound(t: Tables, s: State, k: State): State {
    State(TdColumn(t, s.c0.a, s.c3.b, s.c2.c, s.c1.d, k.c0), TdColumn(t, s.c1.a, s.c0.b, s.c3.c, s.c2.d, k.c1),
          TdColumn(t, s.c2.a, s.c1.b, s.c0.c, s.c3.d, k.c2), TdColumn(t, s.c3.a, s.c2.b, s.c1.c, s.c0.d, k.c3))
  }

  function TeFinal(t: Tables, s: State, k: State): State {
    State(TeLast(t, s.c0.a, s.c1.b, s.c2.c, s.c3.d, k.c0), TeLast(t, s.c1.a, s.c2.b, s.c3.c, s.c0.d, k.c1),
          TeLast(t, s.c2.a, s.c3.b, s.c0.c, s.c1.d, k.c2), TeLast(t, s.c3.a, s.c0.b, s.c1.c, s.c2.d, k.c3))
  }

  function TdFinal(t: Tables, s: State, k: State): State {
    State(TdLast(t, s.c0.a, s.c3.b, s.c2.c, s.c1.d, k.c0), TdLast(t, s.c1.a, s.c0.b, s.c3.c, s.c2.d, k.c1),
          TdLast(t, s.c2.a, s.c1.b, s.c0.c, s.c3.d, k.c2), TdLast(t, s.c3.a, s.c2.b, s.c1.c, s.c0.d, k.c3))
  }

  /** A round through the tables is a round of section 5.1. */
  lemma TeRoundIsRound(t: Tables, s: State, k: State)
    ensures TeRound(t, s, k) == Round(t, s, k)
  {
    hide TeColumn, XorW, MixColumn;
    TeColumnIsMixColumn(t, s.c0.a, s.c1.b, s.c2.c, s.c3.d, k.c0);
    TeColumnIsMixColumn(t, s.c1.a, s.c2.b, s.c3.c, s.c0.d, k.c1);
    TeColumnIsMixColumn(t, s.c2.a, s.c3.b, s.c0.c, s.c1.d, k.c2);
    TeColumnIsMixColumn(t, s.c3.a, s.c0.b, s.c1.c, s.c2.d, k.c3);
  }

  lemma TdRoundIsInvRound(t: Tables, s: State, k: State)
    ensures TdRound(t, s, k) == InvRound(t, s, k)
  {
    hide TdColumn, XorW, InvMixColumn;
    TdColumnIsInvMixColumn(t, s.c0.a, s.c3.b, s.c2.c, s.c1.d, k.c0);
    TdColumnIsInvMixColumn(t, s.c1.a, s.c0.b, s.c3.c, s.c2.d, k.c1);
    TdColumnIsInvMixColumn(t, s.c2.a, s.c1.b, s.c0.c, s.c3.d, k.c2);
    TdColumnIsInvMixColumn(t, s.c3.a, s.c2.b, s.c1.c, s.c0.d, k.c3);
  }

  lemma LastRounds(t: Tables, s: State, k: State)
    ensures TeFinal(t, s, k) == AddKey(SubShift(t, s), k)
    ensures TdFinal(t, s, k) == AddKey(InvSubShift(t, s), k)
  {
    hide Sum4, XorW, MaskA, MaskB, MaskC, MaskD;
    MaskedSum(Te4(t, s.c0.a), Te4(t, s.c1.b), Te4(t, s.c2.c), Te4(t, s.c3.d));
    MaskedSum(Te4(t, s.c1.a), Te4(t, s.c2.b), Te4(t, s.c3.c), Te4(t, s.c0.d));
    MaskedSum(Te4(t, s.c2.a), Te4(t, s.c3.b), Te4(t, s.c0.c), Te4(t, s.c1.d));
    MaskedSum(Te4(t, s.c3.a), Te4(t, s.c0.b), Te4(t, s.c1.c), Te4(t, s.c2.d));
    MaskedSum(Td4(t, s.c0.a), Td4(t, s.c3.b), Td4(t, s.c2.c), Td4(t, s.c1.d));
    MaskedSum(Td4(t, s.c1.a), Td4(t, s.c0.b), Td4(t, s.c3.c), Td4(t, s.c2.d));
    MaskedSum(Td4(t, s.c2.a), Td4(t, s.c1.b), Td4(t, s.c0.c), Td4(t, s.c3.d));
    MaskedSum(Td4(t, s.c3.a), Td4(t, s.c2.b), Td4(t, s.c1.c), Td4(t, s.c0.d));
  }

  /** The decryption tables at substituted bytes: the way the key schedule applies InvMixColumn. */
  function InvMixByTables(t: Tables, w: Word): Word {
    Sum4(Td0(t, Te4(t, w.a).d), Td1(t, Te4(t, w.b).d), Td2(t, Te4(t, w.c).d), Td3(t, Te4(t, w.d).d))
  }

  lemma InvMixByTablesIsInvMixColumn(t: Tables, w: Word)
    requires Inverse(t)
    ensures InvMixByTables(t, w) == InvMixColumn(w)
  {
    hide X, X4, Mul09, Mul0b, Mul0d, Mul0e;
    XSum4(Mul0e(w.a), Mul0b(w.b), Mul0d(w.c), Mul09(w.d));
    XSum4(Mul09(w.a), Mul0e(w.b), Mul0b(w.c), Mul0d(w.d));
    XSum4(Mul0d(w.a), Mul09(w.b), Mul0e(w.c), Mul0b(w.d));
    XSum4(Mul0b(w.a), Mul0d(w.b), Mul09(w.c), Mul0e(w.d));
  }
}
