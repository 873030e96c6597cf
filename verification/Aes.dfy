/** The block cipher of FIPS 197 on four-column states: the cipher of section 5.1, the equivalent
    inverse cipher of section 5.3.5, and the proof that one undoes the other. */
module Aes {
  import opened Gf256

  datatype State = State(c0: Word, c1: Word, c2: Word, c3: Word)

  /** The substitution table and its inverse; the other tables follow from them. */
  datatype Tables = Tables(s: bv8 -> bv8, si: bv8 -> bv8)

  ghost predicate Inverse(t: Tables) {
    forall x: bv8 :: t.si(t.s(x)) == x
  }

  // ----- the transformations of section 5.1

  function SubWord(s: bv8 -> bv8, w: Word): Word { Word(s(w.a), s(w.b), s(w.c), s(w.d)) }

  function SubBytes(s: bv8 -> bv8, x: State): State {
    State(SubWord(s, x.c0), SubWord(s, x.c1), SubWord(s, x.c2), SubWord(s, x.c3))
  }

  function ShiftRows(x: State): State {
    State(Word(x.c0.a, x.c1.b, x.c2.c, x.c3.d), Word(x.c1.a, x.c2.b, x.c3.c, x.c0.d),
          Word(x.c2.a, x.c3.b, x.c0.c, x.c1.d), Word(x.c3.a, x.c0.b, x.c1.c, x.c2.d))
  }

  function InvShiftRows(x: State): State {
    State(Word(x.c0.a, x.c3.b, x.c2.c, x.c1.d), Word(x.c1.a, x.c0.b, x.c3.c, x.c2.d),
          Word(x.c2.a, x.c1.b, x.c0.c, x.c3.d), Word(x.c3.a, x.c2.b, x.c1.c, x.c0.d))
  }

  function MixColumns(x: State): State {
    State(MixColumn(x.c0), MixColumn(x.c1), MixColumn(x.c2), MixColumn(x.c3))
  }

  function InvMixColumns(x: State): State {
    State(InvMixColumn(x.c0), InvMixColumn(x.c1), InvMixColumn(x.c2), InvMixColumn(x.c3))
  }

  function AddKey(x: State, k: State): State {
    State(XorW(x.c0, k.c0), XorW(x.c1, k.c1), XorW(x.c2, k.c2), XorW(x.c3, k.c3))
  }

  lemma AddKeyTwice(x: State, k: State)
    ensures AddKey(AddKey(x, k), k) == x
  {
    hide XorW;
    XorWLaws(x.c0, k.c0);
    XorWLaws(x.c1, k.c1);
    XorWLaws(x.c2, k.c2);
    XorWLaws(x.c3, k.c3);
  }

  lemma InvMixColumnsLinear(x: State, k: State)
    ensures InvMixColumns(AddKey(x, k)) == AddKey(InvMixColumns(x), InvMixColumns(k))
  {
    hide XorW, InvMixColumn;
    InvMixColumnLinear(x.c0, k.c0);
    InvMixColumnLinear(x.c1, k.c1);
    InvMixColumnLinear(x.c2, k.c2);
    InvMixColumnLinear(x.c3, k.c3);
  }

  lemma MixColumnsUndone(x: State)
    ensures InvMixColumns(MixColumns(x)) == x
  {
    hide MixColumn, InvMixColumn;
    MixColumnUndone(x.c0);
    MixColumnUndone(x.c1);
    MixColumnUndone(x.c2);
    MixColumnUndone(x.c3);
  }

  /** The byte substitution and the row shift are undone in either order. */
  lemma SubShiftUndone(t: Tables, x: State)
    requires Inverse(t)
    ensures InvShiftRows(SubBytes(t.si, ShiftRows(SubBytes(t.s, x)))) == x
  {}

  // ----- whole ciphers

  function SubShift(t: Tables, x: State): State { ShiftRows(SubBytes(t.s, x)) }

  function InvSubShift(t: Tables, x: State): State { InvShiftRows(SubBytes(t.si, x)) }

  function Round(t: Tables, x: State, k: State): State { AddKey(MixColumns(SubShift(t, x)), k) }

  function InvRound(t: Tables, x: State, k: State): State { AddKey(InvMixColumns(InvSubShift(t, x)), k) }

  /** The state after r full rounds. */
  function Rounds(t: Tables, ks: seq<State>, m: State, r: nat): State
    requires r < |ks|
  {
    if r == 0 then AddKey(m, ks[0]) else Round(t, Rounds(t, ks, m, r - 1), ks[r])
  }

  function InvRounds(t: Tables, ks: seq<State>, c: State, r: nat): State
    requires r < |ks|
  {
    if r == 0 then AddKey(c, ks[0]) else InvRound(t, InvRounds(t, ks, c, r - 1), ks[r])
  }

  /** Section 5.1: the last round leaves MixColumns out. */
  function Cipher(t: Tables, ks: seq<State>, m: State): State
    requires |ks| >= 2
  {
    AddKey(SubShift(t, Rounds(t, ks, m, |ks| - 2)), ks[|ks| - 1])
  }

  /** Section 5.3.5. */
  function EqInvCipher(t: Tables, ks: seq<State>, c: State): State
    requires |ks| >= 2
  {
    AddKey(InvSubShift(t, InvRounds(t, ks, c, |ks| - 2)), ks[|ks| - 1])
  }

  /** The decryption schedule: the round keys in reverse, all but the outer two through InvMixColumns. */
  function DecryptKey(ks: seq<State>, r: nat): State
    requires r < |ks|
  {
    var k := ks[|ks| - 1 - r];
    if 0 < r < |ks| - 1 then InvMixColumns(k) else k
  }

  function DecryptKeys(ks: seq<State>): (ds: seq<State>)
    ensures |ds| == |ks|
  {
    seq(|ks|, r requires 0 <= r < |ks| => DecryptKey(ks, r))
  }

  /** One inverse round on the image of a round's input. */
  lemma RoundUndone(t: Tables, x: State, k: State)
    requires Inverse(t)
    ensures InvRound(t, SubShift(t, Round(t, x, k)), InvMixColumns(k)) == SubShift(t, x)
  {
    hide Inverse, SubBytes, ShiftRows, InvShiftRows, MixColumns, InvMixColumns, AddKey;
    var u := MixColumns(SubShift(t, x));
    SubShiftUndone(t, Round(t, x, k));
    InvMixColumnsLinear(u, k);
    AddKeyTwice(InvMixColumns(u), InvMixColumns(k));
    MixColumnsUndone(SubShift(t, x));
  }

  /** After r rounds the inverse cipher is where the cipher was before its last r + 1 row shifts. */
  lemma {:induction false} InvRoundsTrack(t: Tables, ks: seq<State>, m: State, r: nat)
    requires Inverse(t) && r + 2 <= |ks|
    ensures InvRounds(t, DecryptKeys(ks), Cipher(t, ks, m), r) == SubShift(t, Rounds(t, ks, m, |ks| - 2 - r))
  {
    hide Inverse, SubShift, InvMixColumns, AddKey, Round, InvRound;
    var n := |ks| - 1;
    if r == 0 {
      AddKeyTwice(SubShift(t, Rounds(t, ks, m, n - 1)), ks[n]);
    } else {
      InvRoundsTrack(t, ks, m, r - 1);
      RoundUndone(t, Rounds(t, ks, m, n - 1 - r), ks[n - r]);
      assert DecryptKeys(ks)[r] == InvMixColumns(ks[n - r]);
    }
  }

  /** Decryption undoes encryption, for every schedule of at least two round keys and every block. */
  lemma CipherUndone(t: Tables, ks: seq<State>, m: State)
    requires Inverse(t) && |ks| >= 2
    ensures EqInvCipher(t, DecryptKeys(ks), Cipher(t, ks, m)) == m
  {
    hide Inverse, SubBytes, ShiftRows, InvShiftRows, InvMixColumns, AddKey;
    InvRoundsTrack(t, ks, m, |ks| - 2);
    SubShiftUndone(t, Rounds(t, ks, m, 0));
    AddKeyTwice(m, ks[0]);
  }

  // ----- blocks of sixteen bytes

  function GetU32(b: seq<bv8>, i: nat): Word
    requires i + 4 <= |b|
  {
    Word(b[i], b[i + 1], b[i + 2], b[i + 3])
  }

  function PutU32(w: Word): (b: seq<bv8>)
    ensures |b| == 4 && GetU32(b, 0) == w
  {
    [w.a, w.b, w.c, w.d]
  }

  function Load(b: seq<bv8>): State
    requires |b| == 16
  {
    State(GetU32(b, 0), GetU32(b, 4), GetU32(b, 8), GetU32(b, 12))
  }

  function Store(x: State): (b: seq<bv8>)
    ensures |b| == 16 && Load(b) == x
  {
    PutU32(x.c0) + PutU32(x.c1) + PutU32(x.c2) + PutU32(x.c3)
  }

  lemma LoadThenStore(b: seq<bv8>)
    requires |b| == 16
    ensures Store(Load(b)) == b
  {}

  function EncryptBlock(t: Tables, ks: seq<State>, b: seq<bv8>): (c: seq<bv8>)
    requires |ks| >= 2 && |b| == 16
    ensures |c| == 16
  {
    Store(Cipher(t, ks, Load(b)))
  }

  function DecryptBlock(t: Tables, ks: seq<State>, b: seq<bv8>): (c: seq<bv8>)
    requires |ks| >= 2 && |b| == 16
    ensures |c| == 16
  {
    Store(EqInvCipher(t, ks, Load(b)))
  }

  lemma BlockUndone(t: Tables, ks: seq<State>, b: seq<bv8>)
    requires Inverse(t) && |ks| >= 2 && |b| == 16
    ensures DecryptBlock(t, DecryptKeys(ks), EncryptBlock(t, ks, b)) == b
  {
    hide Inverse, Cipher, EqInvCipher, DecryptKeys, Load, Store;
    CipherUndone(t, ks, Load(b));
    LoadThenStore(b);
  }
}
