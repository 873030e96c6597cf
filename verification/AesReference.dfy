/** FIPS 197 byte by byte, as the standard writes it: sixteen bytes, row r and column c at place r + 4c, and products
    in GF(2^8) by any coefficient.  The word-based cipher and the key schedule are proved equal to this. */
module AesReference {
  import opened Common
  import opened Gf256
  import opened Aes
  import AesKey
  import AesBlock
  import AesCbc
  import opened Bytes

  // ----- sections 4 and 5.1 on bytes

  /** Section 4.1. */
  function Add(a: bv8, b: bv8): bv8 { a ^ b }

  /** Section 4.2: multiplication by x modulo x^8 + x^4 + x^3 + x + 1. */
  function Double(x: bv8): bv8 { (x << 1) ^ (if x & 0x80 != 0 then 0x1b else 0) }

  /** Multiplication by the polynomial whose coefficients are the binary digits of c. */
  function Times(c: nat, x: bv8): bv8 {
    if c == 0 then 0 else Add(if c % 2 == 1 then x else 0, Times(c / 2, Double(x)))
  }

  type Block = b: seq<bv8> | |b| == 16 witness seq(16, _ => 0)

  function SubBytes(s: bv8 -> bv8, b: Block): Block { seq(16, i requires 0 <= i < 16 => s(b[i])) }

  /** Row r moves left by r columns: what comes to place i was at this place. */
  function Shifted(i: nat): (j: nat)
    ensures j < 16
  {
    var r, c := i % 4, i / 4;
    r + 4 * ((c + r) % 4)
  }

  function ShiftRows(b: Block): Block { seq(16, i requires 0 <= i < 16 => b[Shifted(i)]) }

  function MixedByte(b: Block, r: nat, c: nat): bv8
    requires r < 4 && c < 4
  {
    Add(Add(Times(2, b[4 * c + r]), Times(3, b[4 * c + (r + 1) % 4])),
        Add(Times(1, b[4 * c + (r + 2) % 4]), Times(1, b[4 * c + (r + 3) % 4])))
  }

  function MixColumns(b: Block): Block { seq(16, i requires 0 <= i < 16 => MixedByte(b, i % 4, i / 4)) }

  function AddRoundKey(b: Block, k: Block): Block { seq(16, i requires 0 <= i < 16 => Add(b[i], k[i])) }

  function Rounds(s: bv8 -> bv8, ks: seq<Block>, b: Block, r: nat): Block
    requires r < |ks|
  {
    if r == 0 then AddRoundKey(b, ks[0])
    else AddRoundKey(MixColumns(ShiftRows(SubBytes(s, Rounds(s, ks, b, r - 1)))), ks[r])
  }

  function Cipher(s: bv8 -> bv8, ks: seq<Block>, b: Block): Block
    requires |ks| >= 2
  {
    AddRoundKey(ShiftRows(SubBytes(s, Rounds(s, ks, b, |ks| - 2))), ks[|ks| - 1])
  }

  // ----- section 5.2 on bytes

  /** Byte n of the expanded key: byte n % 4 of word n / 4.  The round constant, a power of {02}, goes to byte 0. */
  function KeyByte(s: bv8 -> bv8, key: seq<bv8>, nk: nat, n: nat): bv8
    requires 0 < nk && 4 * nk <= |key|
    decreases n
  {
    var i, j := n / 4, n % 4;
    if i < nk then key[n]
    else
      var back := KeyByte(s, key, nk, n - 4 * nk);
      if i % nk == 0 then
        var sub := s(KeyByte(s, key, nk, 4 * (i - 1) + (j + 1) % 4));
        Add(back, if j == 0 then Add(sub, Times(Pow2(i / nk - 1), 1)) else sub)
      else if nk > 6 && i % nk == 4 then Add(back, s(KeyByte(s, key, nk, n - 4)))
      else Add(back, KeyByte(s, key, nk, n - 4))
  }

  function RoundKeys(s: bv8 -> bv8, key: seq<bv8>, nk: nat): seq<Block>
    requires 0 < nk && 4 * nk <= |key|
  {
    seq(nk + 7, r requires 0 <= r => seq(16, i requires 0 <= i => KeyByte(s, key, nk, 16 * r + i)))
  }

  /** The cipher of the standard under a key of nk words. */
  function Encrypted(s: bv8 -> bv8, key: seq<bv8>, nk: nat, b: Block): Block
    requires 0 < nk && 4 * nk <= |key|
  {
    Cipher(s, RoundKeys(s, key, nk), b)
  }

  // ----- words and bytes

  /** Column c of the block is word w, most significant byte first. */
  predicate Column(b: Block, c: nat, w: Word)
    requires c < 4
  {
    b[4 * c] == w.a && b[4 * c + 1] == w.b && b[4 * c + 2] == w.c && b[4 * c + 3] == w.d
  }

  /** The block holds the bytes of the state, column by column. */
  predicate Reads(b: Block, x: State) {
    Column(b, 0, x.c0) && Column(b, 1, x.c1) && Column(b, 2, x.c2) && Column(b, 3, x.c3)
  }

  lemma SameBlock(a: Block, b: Block, x: State)
    requires Reads(a, x) && Reads(b, x)
    ensures a == b
  {
    forall i | 0 <= i < 16 ensures a[i] == b[i] {
      var c, r := i / 4, i % 4;
      assert i == 4 * c + r;
    }
  }

  lemma LoadReads(b: Block)
    ensures Reads(b, Load(b))
  {}

  lemma StoreReads(x: State)
    ensures Reads(Store(x), x)
  {
    assert Load(Store(x)) == x;
    LoadReads(Store(x));
  }

  lemma AddIsX(a: bv8, b: bv8)
    ensures Add(a, b) == X(a, b)
  {}

  lemma AddZero(x: bv8)
    ensures Add(x, 0) == x && Add(0, x) == x
  {}

  lemma SubBytesReads(s: bv8 -> bv8, b: Block, x: State)
    requires Reads(b, x)
    ensures Reads(SubBytes(s, b), Aes.SubBytes(s, x))
  {}

  lemma ShiftedPlaces()
    ensures Shifted(0) == 0 && Shifted(1) == 5 && Shifted(2) == 10 && Shifted(3) == 15
    ensures Shifted(4) == 4 && Shifted(5) == 9 && Shifted(6) == 14 && Shifted(7) == 3
    ensures Shifted(8) == 8 && Shifted(9) == 13 && Shifted(10) == 2 && Shifted(11) == 7
    ensures Shifted(12) == 12 && Shifted(13) == 1 && Shifted(14) == 6 && Shifted(15) == 11
  {}

  lemma ShiftRowsReads(b: Block, x: State)
    requires Reads(b, x)
    ensures Reads(ShiftRows(b), Aes.ShiftRows(x))
  {
    hide Shifted;
    ShiftedPlaces();
  }

  lemma AddWord(u: Word, v: Word)
    ensures XorW(u, v) == Word(Add(u.a, v.a), Add(u.b, v.b), Add(u.c, v.c), Add(u.d, v.d))
  {
    hide Add, X;
    AddIsX(u.a, v.a);
    AddIsX(u.b, v.b);
    AddIsX(u.c, v.c);
    AddIsX(u.d, v.d);
  }

  lemma AddKeyReads(b: Block, x: State, kb: Block, k: State)
    requires Reads(b, x) && Reads(kb, k)
    ensures Reads(AddRoundKey(b, kb), AddKey(x, k))
  {
    hide Add, XorW;
    AddWord(x.c0, k.c0);
    AddWord(x.c1, k.c1);
    AddWord(x.c2, k.c2);
    AddWord(x.c3, k.c3);
  }

  lemma DoubleIsXTime(x: bv8)
    ensures Double(x) == XTime(x)
  {
    XTimeReduces(x);
  }

  lemma TimesSmall(x: bv8)
    ensures Times(1, x) == x && Times(2, x) == XTime(x) && Times(3, x) == Mul03(x)
  {
    hide Add, X, XTime, Double;
    DoubleIsXTime(x);
    assert Times(0, Double(x)) == 0 && Times(0, Double(Double(x))) == 0;
    AddZero(x);
    AddZero(Double(x));
    assert Times(1, Double(x)) == Double(x);
    AddIsX(x, Double(x));
    XLaws(x, XTime(x));
  }

  lemma SumOfFour(a: bv8, b: bv8, c: bv8, d: bv8)
    ensures Add(Add(a, b), Add(c, d)) == X4(a, b, c, d) == X4(d, a, b, c) == X4(c, d, a, b) == X4(b, c, d, a)
  {
    hide Add, X;
    AddIsX(a, b);
    AddIsX(c, d);
    AddIsX(X(a, b), X(c, d));
    X4Rotates(a, b, c, d);
    X4Rotates(b, c, d, a);
    X4Rotates(c, d, a, b);
  }

  /** The four bytes of a mixed column. */
  lemma MixedColumn(b: Block, c: nat, w: Word)
    requires c < 4 && Column(b, c, w)
    ensures var m := MixColumn(w);
      && MixedByte(b, 0, c) == m.a && MixedByte(b, 1, c) == m.b
      && MixedByte(b, 2, c) == m.c && MixedByte(b, 3, c) == m.d
  {
    hide Times, XTime, Mul03, X4, Add;
    TimesSmall(w.a);
    TimesSmall(w.b);
    TimesSmall(w.c);
    TimesSmall(w.d);
    SumOfFour(XTime(w.a), Mul03(w.b), w.c, w.d);
    SumOfFour(XTime(w.b), Mul03(w.c), w.d, w.a);
    SumOfFour(XTime(w.c), Mul03(w.d), w.a, w.b);
    SumOfFour(XTime(w.d), Mul03(w.a), w.b, w.c);
  }

  lemma MixColumnsReads(b: Block, x: State)
    requires Reads(b, x)
    ensures Reads(MixColumns(b), Aes.MixColumns(x))
  {
    hide MixColumn, MixedByte;
    MixedColumn(b, 0, x.c0);
    MixedColumn(b, 1, x.c1);
    MixedColumn(b, 2, x.c2);
    MixedColumn(b, 3, x.c3);
  }

  /** The round keys, as blocks and as states. */
  predicate KeysRead(bs: seq<Block>, ks: seq<State>) {
    |bs| == |ks| && forall r :: 0 <= r < |ks| ==> Reads(bs[r], ks[r])
  }

  lemma {:induction false} RoundsRead(t: Tables, bs: seq<Block>, ks: seq<State>, b: Block, m: State, r: nat)
    requires r < |ks| && KeysRead(bs, ks) && Reads(b, m)
    ensures Reads(Rounds(t.s, bs, b, r), Aes.Rounds(t, ks, m, r))
  {
    hide Reads, Aes.SubBytes, Aes.ShiftRows, Aes.MixColumns, AddKey, SubBytes, ShiftRows, MixColumns, AddRoundKey;
    if r == 0 {
      AddKeyReads(b, m, bs[0], ks[0]);
    } else {
      var x, y := Rounds(t.s, bs, b, r - 1), Aes.Rounds(t, ks, m, r - 1);
      RoundsRead(t, bs, ks, b, m, r - 1);
      SubBytesReads(t.s, x, y);
      ShiftRowsReads(SubBytes(t.s, x), Aes.SubBytes(t.s, y));
      MixColumnsReads(ShiftRows(SubBytes(t.s, x)), SubShift(t, y));
      AddKeyReads(MixColumns(ShiftRows(SubBytes(t.s, x))), Aes.MixColumns(SubShift(t, y)), bs[r], ks[r]);
    }
  }

  /** The word-based cipher is the cipher of the standard. */
  lemma CipherIsStandard(t: Tables, bs: seq<Block>, ks: seq<State>, b: Block)
    requires |ks| >= 2 && KeysRead(bs, ks)
    ensures EncryptBlock(t, ks, b) == Cipher(t.s, bs, b)
  {
    hide Reads, Aes.SubBytes, Aes.ShiftRows, AddKey, SubBytes, ShiftRows, AddRoundKey, Aes.Rounds, Rounds, Load, Store;
    var m, n := Load(b), |ks| - 2;
    var x, y := Rounds(t.s, bs, b, n), Aes.Rounds(t, ks, m, n);
    LoadReads(b);
    RoundsRead(t, bs, ks, b, m, n);
    SubBytesReads(t.s, x, y);
    ShiftRowsReads(SubBytes(t.s, x), Aes.SubBytes(t.s, y));
    var z := AddKey(SubShift(t, y), ks[n + 1]);
    AddKeyReads(ShiftRows(SubBytes(t.s, x)), SubShift(t, y), bs[n + 1], ks[n + 1]);
    StoreReads(z);
    SameBlock(Store(z), Cipher(t.s, bs, b), z);
  }

  // ----- the key schedule

  lemma {:induction false} PowerIsTimes(n: nat, x: bv8)
    ensures Times(Pow2(n), x) == Doubled(n, x)
    decreases n
  {
    if n == 0 {
      assert Times(0, Double(x)) == 0;
    } else {
      PowerIsTimes(n - 1, Double(x));
      assert Pow2(n) % 2 == 0 && Pow2(n) / 2 == Pow2(n - 1);
    }
  }

  function Doubled(n: nat, x: bv8): bv8 { if n == 0 then x else Doubled(n - 1, Double(x)) }

  lemma {:induction false} DoubledLast(n: nat, x: bv8)
    requires n > 0
    ensures Doubled(n, x) == Double(Doubled(n - 1, x))
  {
    if n > 1 { DoubledLast(n - 1, Double(x)); }
  }

  lemma {:induction false} PowerIsDoubled(n: nat)
    ensures AesKey.Power(n) == Doubled(n, 1)
  {
    if n > 0 {
      PowerIsDoubled(n - 1);
      DoubledLast(n, 1);
      XTimeReduces(AesKey.Power(n - 1));
    }
  }

  /** Word i of the expansion. */
  function KeyWord(s: bv8 -> bv8, key: seq<bv8>, nk: nat, i: nat): Word
    requires 0 < nk && 4 * nk <= |key|
  {
    Word(KeyByte(s, key, nk, 4 * i), KeyByte(s, key, nk, 4 * i + 1), KeyByte(s, key, nk, 4 * i + 2),
         KeyByte(s, key, nk, 4 * i + 3))
  }

  /** Byte j of word i, from the words before. */
  lemma KeyByteStep(s: bv8 -> bv8, key: seq<bv8>, nk: nat, i: nat, j: nat)
    requires 0 < nk <= i && 4 * nk <= |key| && j < 4
    ensures var back := KeyByte(s, key, nk, 4 * (i - nk) + j);
      var sub := s(KeyByte(s, key, nk, 4 * (i - 1) + (j + 1) % 4));
      KeyByte(s, key, nk, 4 * i + j) ==
        if i % nk == 0 then Add(back, if j == 0 then Add(sub, Times(Pow2(i / nk - 1), 1)) else sub)
        else if nk > 6 && i % nk == 4 then Add(back, s(KeyByte(s, key, nk, 4 * (i - 1) + j)))
        else Add(back, KeyByte(s, key, nk, 4 * (i - 1) + j))
  {
    hide Times, Pow2, Add;
    var n := 4 * i + j;
    assert n / 4 == i && n % 4 == j;
    assert 4 * (i - nk) + j == n - 4 * nk && 4 * (i - 1) + j == n - 4;
  }

  /** The word-based expansion is the expansion of the standard. */
  lemma {:induction false} ExpansionIsStandard(t: Tables, key: seq<bv8>, nk: nat, i: nat)
    requires 0 < nk && 4 * nk <= |key|
    ensures AesKey.ExpandedWord(t, key, nk, i) == KeyWord(t.s, key, nk, i)
    decreases i
  {
    hide KeyByte, Times, Pow2, AesKey.Power, Add, XorW;
    if i < nk {
      FirstWords(t.s, key, nk, i);
    } else {
      ExpansionIsStandard(t, key, nk, i - nk);
      ExpansionIsStandard(t, key, nk, i - 1);
      ExpansionStep(t, key, nk, i);
    }
  }

  lemma ExpansionStep(t: Tables, key: seq<bv8>, nk: nat, i: nat)
    requires 0 < nk <= i && 4 * nk <= |key|
    ensures KeyWord(t.s, key, nk, i)
         == XorW(KeyWord(t.s, key, nk, i - nk), AesKey.Temp(t, nk, i, KeyWord(t.s, key, nk, i - 1)))
  {
    hide KeyByte, Times, Pow2, AesKey.Power, Add, XorW;
    KeyByteStep(t.s, key, nk, i, 0);
    KeyByteStep(t.s, key, nk, i, 1);
    KeyByteStep(t.s, key, nk, i, 2);
    KeyByteStep(t.s, key, nk, i, 3);
    var back, prev := KeyWord(t.s, key, nk, i - nk), KeyWord(t.s, key, nk, i - 1);
    AddWord(back, AesKey.Temp(t, nk, i, prev));
    if i % nk == 0 {
      Quotient(i, nk);
      PowerIsDoubled(i / nk - 1);
      PowerIsTimes(i / nk - 1, 1);
      var sub, rc := SubWord(t.s, AesKey.RotWord(prev)), AesKey.Rcon(i / nk);
      AddWord(sub, rc);
      AddZero(sub.b);
      AddZero(sub.c);
      AddZero(sub.d);
    }
  }

  lemma Quotient(i: nat, nk: nat)
    requires 0 < nk <= i
    ensures i / nk >= 1
  {}

  lemma FirstWords(s: bv8 -> bv8, key: seq<bv8>, nk: nat, i: nat)
    requires i < nk && 4 * nk <= |key|
    ensures KeyWord(s, key, nk, i) == Word(key[4 * i], key[4 * i + 1], key[4 * i + 2], key[4 * i + 3])
  {
    assert 4 * i / 4 == i && (4 * i + 1) / 4 == i && (4 * i + 2) / 4 == i && (4 * i + 3) / 4 == i;
  }

  lemma RoundKeysRead(t: Tables, key: seq<bv8>, nk: nat)
    requires 0 < nk && 4 * nk <= |key|
    ensures KeysRead(RoundKeys(t.s, key, nk), AesKey.RoundKeys(AesKey.Expansion(t, key, nk), nk + 6))
  {
    hide KeyByte, AesKey.ExpandedWord;
    var bs, ks := RoundKeys(t.s, key, nk), AesKey.RoundKeys(AesKey.Expansion(t, key, nk), nk + 6);
    forall r | 0 <= r < |ks| ensures Reads(bs[r], ks[r]) {
      ExpansionIsStandard(t, key, nk, 4 * r);
      ExpansionIsStandard(t, key, nk, 4 * r + 1);
      ExpansionIsStandard(t, key, nk, 4 * r + 2);
      ExpansionIsStandard(t, key, nk, 4 * r + 3);
    }
  }

  /** Under the expanded key, the word-based cipher encrypts as the standard does. */
  lemma EncryptsAsStandard(t: Tables, key: seq<bv8>, nk: nat, b: Block)
    requires 0 < nk && 4 * nk <= |key|
    ensures EncryptBlock(t, AesKey.RoundKeys(AesKey.Expansion(t, key, nk), nk + 6), b) == Encrypted(t.s, key, nk, b)
  {
    hide Cipher, RoundKeys, EncryptBlock, AesKey.Expansion;
    RoundKeysRead(t, key, nk);
    CipherIsStandard(t, RoundKeys(t.s, key, nk), AesKey.RoundKeys(AesKey.Expansion(t, key, nk), nk + 6), b);
  }

  // ----- cipher block chaining, section 6.2 of NIST SP 800-38A

  /** What is encrypted for block j: the plaintext, filled up with zeros, added to the ciphertext block before. */
  function ChainedInput(iv: Block, p: seq<bv8>, c: seq<bv8>, j: nat): Block
    requires 16 * j <= |c|
  {
    seq(16, n requires 0 <= n < 16 =>
      Add(if 16 * j + n < |p| then p[16 * j + n] else 0, if j == 0 then iv[n] else c[16 * j - 16 + n]))
  }

  /** c is the ciphertext of p: whole blocks, each the standard's encryption of its input. */
  ghost predicate Chained(s: bv8 -> bv8, key: seq<bv8>, nk: nat, iv: Block, p: seq<bv8>, c: seq<bv8>)
    requires 0 < nk && 4 * nk <= |key|
  {
    && |p| <= |c| < |p| + 16 && |c| % 16 == 0
    && forall j: nat :: 16 * j + 16 <= |c| ==>
        c[16 * j..16 * j + 16] == Encrypted(s, key, nk, ChainedInput(iv, p, c, j))
  }

  lemma InputIsXor(iv: Block, p: seq<bv8>, c: seq<bv8>, j: nat)
    requires 16 * j < |p| <= |c| && |c| % 16 == 0
    ensures var prev := if j == 0 then iv else AesCbc.Block(c, j - 1);
      |prev| == 16 && AesCbc.XorInto(AesCbc.Block(p, j), prev) == ChainedInput(iv, p, c, j)
  {
    hide Add, X;
    var prev, q := if j == 0 then iv else AesCbc.Block(c, j - 1), AesCbc.Block(p, j);
    forall n | 0 <= n < 16 ensures AesCbc.XorInto(q, prev)[n] == ChainedInput(iv, p, c, j)[n] {
      if n < |q| { AddIsX(q[n], prev[n]); } else { AddZero(prev[n]); }
    }
  }

  lemma CbcIsStandard(t: Tables, key: seq<bv8>, nk: nat, iv: Block, p: seq<bv8>)
    requires 0 < nk && 4 * nk <= |key|
    ensures var ks := AesKey.RoundKeys(AesKey.Expansion(t, key, nk), nk + 6);
      Chained(t.s, key, nk, iv, p, AesCbc.CbcEncrypted(t, ks, iv, p))
  {
    hide EncryptBlock, Encrypted, ChainedInput, AesCbc.XorInto, AesCbc.CbcEncrypted, AesKey.Expansion, AesKey.RoundKeys;
    var ks := AesKey.RoundKeys(AesKey.Expansion(t, key, nk), nk + 6);
    var c := AesCbc.CbcEncrypted(t, ks, iv, p);
    forall j: nat | 16 * j + 16 <= |c|
      ensures c[16 * j..16 * j + 16] == Encrypted(t.s, key, nk, ChainedInput(iv, p, c, j))
    {
      AesCbc.CbcBlock(t, ks, iv, p, j);
      InputIsXor(iv, p, c, j);
      EncryptsAsStandard(t, key, nk, ChainedInput(iv, p, c, j));
    }
  }

  /** From the user's key to the ciphertext, in place in one buffer. */
  method EncryptMessage(t: Tables, userKey: seq<bv8>, bits: int, iv: Block, p: seq<bv8>) returns (c: seq<bv8>)
    requires AesKey.ValidBits(bits) && 8 * |userKey| >= bits
    ensures Chained(t.s, userKey, bits / 32, iv, p, c)
  {
    hide Chained, AesCbc.CbcEncrypted, AesKey.Expansion, AesKey.RoundKeys, AesCbc.RoundUp;
    var key := new AesKey.AesKey();
    var _ := key.SetEncryptKey(t, Some(userKey), bits);
    var buf := AesCbc.FilledBy(p + seq(AesCbc.RoundUp(|p|) - |p|, _ => 0));
    var ivec := AesCbc.FilledBy(iv);
    AesKey.PrefixKeys(key.rdKey[..], AesKey.Expansion(t, userKey, bits / 32), key.rounds);
    assert buf[..|p|] == p;
    AesCbc.CbcCrypt(t, key, buf, |p|, buf, ivec, true);
    c := buf[..];
    assert c == buf[..AesCbc.RoundUp(|p|)];
    CbcIsStandard(t, userKey, bits / 32, iv, p);
  }
}
