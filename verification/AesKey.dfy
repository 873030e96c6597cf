/** Key schedules: a round-key array filled forwards, and reversed in place for decryption. */
module AesKey {
  import opened Bytes
  import opened Gf256
  import opened Aes
  import opened AesTables

  // ----- key expansion, section 5.2 of FIPS 197

  function Power(n: nat): bv8 { if n == 0 then 1 else XTime(Power(n - 1)) }

  function Rcon(n: nat): Word
    requires n > 0
  {
    Word(Power(n - 1), 0, 0, 0)
  }

  const RCON: seq<bv8> := [0x01, 0x02, 0x04, 0x08, 0x10, 0x20, 0x40, 0x80, 0x1b, 0x36]

  /** The ten tabulated round constants are the powers of {02}. */
  lemma {:induction false} RconTable(n: nat)
    requires n < 10
    ensures RCON[n] == Power(n)
  {
    if n > 0 {
      RconTable(n - 1);
    }
  }

  function RotWord(w: Word): Word { Word(w.b, w.c, w.d, w.a) }

  /** What is added to the word nk places back to give word i. */
  function Temp(t: Tables, nk: nat, i: nat, prev: Word): Word
    requires 0 < nk <= i
  {
    if i % nk == 0 then XorW(SubWord(t.s, RotWord(prev)), Rcon(i / nk))
    else if nk > 6 && i % nk == 4 then SubWord(t.s, prev)
    else prev
  }

  function ExpandedWord(t: Tables, key: seq<bv8>, nk: nat, i: nat): Word
    requires 0 < nk && 4 * nk <= |key|
  {
    if i < nk then GetU32(key, 4 * i)
    else XorW(ExpandedWord(t, key, nk, i - nk), Temp(t, nk, i, ExpandedWord(t, key, nk, i - 1)))
  }

  predicate KeyWords(nk: nat) { nk == 4 || nk == 6 || nk == 8 }

  /** Word j of group g, for the three key sizes. */
  lemma GroupWord(t: Tables, key: seq<bv8>, nk: nat, g: nat, j: nat)
    requires KeyWords(nk) && 4 * nk <= |key| && g > 0 && j < nk
    ensures var i := nk * g + j;
      var back := ExpandedWord(t, key, nk, i - nk);
      var prev := ExpandedWord(t, key, nk, i - 1);
      ExpandedWord(t, key, nk, i) ==
        if j == 0 then XorW(back, XorW(SubWord(t.s, RotWord(prev)), Rcon(g)))
        else if nk == 8 && j == 4 then XorW(back, SubWord(t.s, prev))
        else XorW(back, prev)
  {
    hide XorW, SubWord, RotWord, Rcon, GetU32;
    GroupIndex(nk, g, j);
  }

  lemma GroupIndex(nk: nat, g: nat, j: nat)
    requires KeyWords(nk) && j < nk
    ensures (nk * g + j) % nk == j && (nk * g + j) / nk == g
    ensures g > 0 ==> nk * g + j >= nk
  {
    if nk == 4 {
      GroupIndex4(g, j);
    } else if nk == 6 {
      GroupIndex6(g, j);
    } else {
      GroupIndex8(g, j);
    }
  }

  lemma GroupIndex4(g: nat, j: nat)
    requires j < 4
    ensures (4 * g + j) % 4 == j && (4 * g + j) / 4 == g
  {}

  lemma GroupIndex6(g: nat, j: nat)
    requires j < 6
    ensures (6 * g + j) % 6 == j && (6 * g + j) / 6 == g
  {}

  lemma GroupIndex8(g: nat, j: nat)
    requires j < 8
    ensures (8 * g + j) % 8 == j && (8 * g + j) / 8 == g
  {}

  /** The masked entries of Te4 rotate and substitute a word. */
  function RotSubByTables(t: Tables, back: Word, temp: Word, rcon: Word): Word {
    XorW(XorW(XorW(XorW(XorW(back, MaskA(Te4(t, temp.b))), MaskB(Te4(t, temp.c))), MaskC(Te4(t, temp.d))),
              MaskD(Te4(t, temp.a))), rcon)
  }

  function SubByTables(t: Tables, back: Word, temp: Word): Word {
    XorW(XorW(XorW(XorW(back, MaskA(Te4(t, temp.a))), MaskB(Te4(t, temp.b))), MaskC(Te4(t, temp.c))),
         MaskD(Te4(t, temp.d)))
  }

  lemma XorWAssoc(u: Word, v: Word, w: Word)
    ensures XorW(XorW(u, v), w) == XorW(u, XorW(v, w))
  {
    hide X;
    XAssoc(u.a, v.a, w.a);
    XAssoc(u.b, v.b, w.b);
    XAssoc(u.c, v.c, w.c);
    XAssoc(u.d, v.d, w.d);
  }

  lemma SumFromBack(back: Word, p: Word, q: Word, r: Word, s: Word)
    ensures XorW(XorW(XorW(XorW(back, p), q), r), s) == XorW(back, Sum4(p, q, r, s))
  {
    hide XorW;
    XorWAssoc(back, p, q);
    XorWAssoc(back, XorW(p, q), r);
    XorWAssoc(back, XorW(XorW(p, q), r), s);
  }

  lemma ByTables(t: Tables, back: Word, temp: Word, rcon: Word)
    ensures RotSubByTables(t, back, temp, rcon) == XorW(back, XorW(SubWord(t.s, RotWord(temp)), rcon))
    ensures SubByTables(t, back, temp) == XorW(back, SubWord(t.s, temp))
  {
    hide XorW, Sum4, MaskA, MaskB, MaskC, MaskD;
    SumFromBack(back, MaskA(Te4(t, temp.b)), MaskB(Te4(t, temp.c)), MaskC(Te4(t, temp.d)), MaskD(Te4(t, temp.a)));
    SumFromBack(back, MaskA(Te4(t, temp.a)), MaskB(Te4(t, temp.b)), MaskC(Te4(t, temp.c)), MaskD(Te4(t, temp.d)));
    MaskedSum(Te4(t, temp.b), Te4(t, temp.c), Te4(t, temp.d), Te4(t, temp.a));
    MaskedSum(Te4(t, temp.a), Te4(t, temp.b), Te4(t, temp.c), Te4(t, temp.d));
    XorWAssoc(back, SubWord(t.s, RotWord(temp)), rcon);
  }

  // ----- round keys

  function RoundKeyAt(w: seq<Word>, base: nat): State
    requires base + 4 <= |w|
  {
    State(w[base], w[base + 1], w[base + 2], w[base + 3])
  }

  function RoundKeys(w: seq<Word>, rounds: nat): (ks: seq<State>)
    requires 4 * rounds + 4 <= |w|
    ensures |ks| == rounds + 1
  {
    seq(rounds + 1, r requires 0 <= r <= rounds => RoundKeyAt(w, 4 * r))
  }

  /** The words of section 5.2 as a sequence. */
  function Expansion(t: Tables, key: seq<bv8>, nk: nat): (w: seq<Word>)
    requires 0 < nk && 4 * nk <= |key|
    ensures |w| == 4 * (nk + 7)
  {
    seq(4 * (nk + 7), i requires 0 <= i => ExpandedWord(t, key, nk, i))
  }

  lemma PrefixKeys(w: seq<Word>, e: seq<Word>, rounds: nat)
    requires |e| == 4 * rounds + 4 <= |w| && w[..|e|] == e
    ensures RoundKeys(w, rounds) == RoundKeys(e, rounds)
  {
    assert forall k :: 0 <= k < |e| ==> w[k] == w[..|e|][k];
  }

  predicate ValidBits(bits: int) { bits == 128 || bits == 192 || bits == 256 }

  /** Where word k goes when the groups of four are put in reverse order. */
  function Mirror(k: nat, rounds: nat): (m: nat)
    requires k < 4 * rounds + 4
    ensures m < 4 * rounds + 4
  {
    4 * (rounds - k / 4) + k % 4
  }

  /** Where word k comes from when the groups at i and j change places. */
  function SwapAt(k: nat, i: nat, j: nat): (m: nat)
    requires i + 4 <= j
    ensures k < j + 4 ==> m < j + 4
    ensures j + 4 <= k ==> m == k
  {
    if i <= k < i + 4 then k + j - i else if j <= k < j + 4 then k + i - j else k
  }

  function Swapped(w: seq<Word>, i: nat, j: nat): seq<Word>
    requires i + 4 <= j && j + 4 <= |w|
  {
    seq(|w|, k requires 0 <= k < |w| => w[SwapAt(k, i, j)])
  }

  /** Where word k comes from when a groups at each end have been mirrored. */
  function PartMirror(k: nat, a: nat, rounds: nat): (m: nat)
    ensures k < 4 * rounds + 4 ==> m < 4 * rounds + 4
    ensures 4 * rounds + 4 <= k ==> m == k
  {
    if k < 4 * rounds + 4 && (k < 4 * a || 4 * (rounds + 1 - a) <= k) then Mirror(k, rounds) else k
  }

  ghost predicate Mirrored(was: seq<Word>, now: seq<Word>, a: nat, rounds: nat)
    requires 4 * rounds + 4 <= |was|
  {
    |now| == |was| && forall k :: 0 <= k < |was| ==> now[k] == was[PartMirror(k, a, rounds)]
  }

  lemma SwapMirrorsOneMore(k: nat, a: nat, rounds: nat)
    requires 2 * a < rounds
    ensures PartMirror(SwapAt(k, 4 * a, 4 * (rounds - a)), a, rounds) == PartMirror(k, a + 1, rounds)
  {
    hide Mirror;
    if 4 * a <= k < 4 * a + 4 {
      MirrorInGroup(k, a, rounds);
    } else if 4 * (rounds - a) <= k < 4 * (rounds - a) + 4 {
      MirrorInGroup(k, rounds - a, rounds);
    }
  }

  lemma MirrorInGroup(k: nat, a: nat, rounds: nat)
    requires a <= rounds && 4 * a <= k < 4 * a + 4
    ensures Mirror(k, rounds) == k + 4 * (rounds - a) - 4 * a
  {
    assert k / 4 == a;
  }

  lemma SwappedIsMirrored(was: seq<Word>, now: seq<Word>, a: nat, rounds: nat)
    requires 2 * a < rounds && 4 * rounds + 4 <= |was| && Mirrored(was, now, a, rounds)
    ensures Mirrored(was, Swapped(now, 4 * a, 4 * (rounds - a)), a + 1, rounds)
  {
    hide PartMirror, SwapAt;
    var next := Swapped(now, 4 * a, 4 * (rounds - a));
    forall k: nat | k < |was|
      ensures next[k] == was[PartMirror(k, a + 1, rounds)]
    {
      SwapMirrorsOneMore(k, a, rounds);
    }
  }

  /** Once the two ends meet every word is mirrored. */
  lemma MirroredAll(k: nat, a: nat, rounds: nat)
    requires rounds <= 2 * a && a <= rounds + 1 && k < 4 * rounds + 4
    ensures PartMirror(k, a, rounds) == Mirror(k, rounds)
  {}

  lemma ReverseStarts(was: seq<Word>, rounds: nat)
    requires 4 * rounds + 4 <= |was|
    ensures Mirrored(was, was, 0, rounds)
  {}

  lemma ReverseEnds(was: seq<Word>, now: seq<Word>, a: nat, rounds: nat)
    requires 4 * rounds + 4 <= |was| && rounds <= 2 * a && a <= rounds + 1 && Mirrored(was, now, a, rounds)
    ensures |now| == |was| && forall k :: 0 <= k < 4 * rounds + 4 ==> now[k] == was[Mirror(k, rounds)]
  {
    hide PartMirror, Mirror;
    forall k: nat | k < 4 * rounds + 4 {
      MirroredAll(k, a, rounds);
    }
  }

  /** Reversed, and with InvMixColumn on the inner words, the array holds the decryption schedule. */
  lemma DecryptScheduleHolds(was: seq<Word>, now: seq<Word>, rounds: nat)
    requires 4 * rounds + 4 <= |was| && |now| == |was|
    requires forall k :: 0 <= k < 4 * rounds + 4 ==>
      now[k] == var w := was[Mirror(k, rounds)]; if 4 <= k < 4 * rounds then InvMixColumn(w) else w
    ensures RoundKeys(now, rounds) == DecryptKeys(RoundKeys(was, rounds))
  {
    hide InvMixColumn;
    var ks, ds := RoundKeys(was, rounds), RoundKeys(now, rounds);
    forall r: nat | r <= rounds
      ensures ds[r] == DecryptKey(ks, r)
    {
      assert Mirror(4 * r, rounds) == 4 * (rounds - r) && Mirror(4 * r + 1, rounds) == 4 * (rounds - r) + 1;
      assert Mirror(4 * r + 2, rounds) == 4 * (rounds - r) + 2 && Mirror(4 * r + 3, rounds) == 4 * (rounds - r) + 3;
      assert now[4 * r] == var w := was[4 * (rounds - r)]; if 0 < r < rounds then InvMixColumn(w) else w;
    }
  }

  class AesKey {
    const rdKey: array<Word>
    var rounds: nat

    constructor ()
      ensures rdKey.Length == 60 && fresh(rdKey)
    {
      rdKey := new Word[60];
      rounds := 0;
    }

    ghost predicate Holds(t: Tables, key: seq<bv8>, nk: nat, n: nat)
      requires 0 < nk && 4 * nk <= |key|
      reads rdKey
    {
      n <= rdKey.Length && forall k :: 0 <= k < n ==> rdKey[k] == ExpandedWord(t, key, nk, k)
    }

    /** rk[nk + j] = rk[j] ^ rk[nk + j - 1] */
    method AddPrevious(t: Tables, key: seq<bv8>, nk: nat, g: nat, j: nat)
      requires KeyWords(nk) && 4 * nk <= |key| && g > 0 && 0 < j < nk && !(nk == 8 && j == 4)
      requires Holds(t, key, nk, nk * g + j) && nk * g + j < rdKey.Length
      modifies rdKey
      ensures Holds(t, key, nk, nk * g + j + 1)
    {
      hide ExpandedWord, XorW, SubWord, RotWord, Rcon;
      GroupWord(t, key, nk, g, j);
      assert nk * g >= nk;
      rdKey[nk * g + j] := XorW(rdKey[nk * g + j - nk], rdKey[nk * g + j - 1]);
    }

    /** The first word of a group, from the rotated and substituted last word of the one before. */
    method StartGroup(t: Tables, key: seq<bv8>, nk: nat, g: nat)
      requires KeyWords(nk) && 4 * nk <= |key| && 0 < g <= 10
      requires Holds(t, key, nk, nk * g) && nk * g < rdKey.Length
      modifies rdKey
      ensures Holds(t, key, nk, nk * g + 1)
    {
      hide ExpandedWord, XorW, SubWord, RotWord, Power, RotSubByTables;
      GroupWord(t, key, nk, g, 0);
      RconTable(g - 1);
      assert nk * g >= nk;
      var temp := rdKey[nk * g - 1];
      var rcon := Word(RCON[g - 1], 0, 0, 0);
      ByTables(t, rdKey[nk * g - nk], temp, rcon);
      rdKey[nk * g] := RotSubByTables(t, rdKey[nk * g - nk], temp, rcon);
    }

    /** The middle word of a group of eight. */
    method SubstituteMiddle(t: Tables, key: seq<bv8>, g: nat)
      requires 32 <= |key| && 0 < g
      requires Holds(t, key, 8, 8 * g + 4) && 8 * g + 4 < rdKey.Length
      modifies rdKey
      ensures Holds(t, key, 8, 8 * g + 5)
    {
      hide ExpandedWord, XorW, SubWord, RotWord, Rcon, SubByTables;
      GroupWord(t, key, 8, g, 4);
      var temp := rdKey[8 * g + 3];
      ByTables(t, rdKey[8 * g - 4], temp, temp);
      rdKey[8 * g + 4] := SubByTables(t, rdKey[8 * g - 4], temp);
    }

    method Expand128(t: Tables, key: seq<bv8>)
      requires 16 <= |key| && rdKey.Length == 60
      requires Holds(t, key, 4, 4)
      modifies rdKey
      ensures Holds(t, key, 4, 44)
    {
      hide Holds;
      var i, rk := 0, 0;
      while true
        invariant 0 <= i < 10 && rk == 4 * i
        invariant Holds(t, key, 4, rk + 4)
        decreases 10 - i
      {
        StartGroup(t, key, 4, i + 1);
        AddPrevious(t, key, 4, i + 1, 1);
        AddPrevious(t, key, 4, i + 1, 2);
        AddPrevious(t, key, 4, i + 1, 3);
        i := i + 1;
        if i == 10 {
          return;
        }
        rk := rk + 4;
      }
    }

    method Expand192(t: Tables, key: seq<bv8>)
      requires 24 <= |key| && rdKey.Length == 60
      requires Holds(t, key, 6, 6)
      modifies rdKey
      ensures Holds(t, key, 6, 52)
    {
      hide Holds;
      var i, rk := 0, 0;
      while true
        invariant 0 <= i < 8 && rk == 6 * i
        invariant Holds(t, key, 6, rk + 6)
        decreases 8 - i
      {
        StartGroup(t, key, 6, i + 1);
        AddPrevious(t, key, 6, i + 1, 1);
        AddPrevious(t, key, 6, i + 1, 2);
        AddPrevious(t, key, 6, i + 1, 3);
        i := i + 1;
        if i == 8 {
          return;
        }
        AddPrevious(t, key, 6, i, 4);
        AddPrevious(t, key, 6, i, 5);
        rk := rk + 6;
      }
    }

    method Expand256(t: Tables, key: seq<bv8>)
      requires 32 <= |key| && rdKey.Length == 60
      requires Holds(t, key, 8, 8)
      modifies rdKey
      ensures Holds(t, key, 8, 60)
    {
      hide Holds;
      var i, rk := 0, 0;
      while true
        invariant 0 <= i < 7 && rk == 8 * i
        invariant Holds(t, key, 8, rk + 8)
        decreases 7 - i
      {
        StartGroup(t, key, 8, i + 1);
        AddPrevious(t, key, 8, i + 1, 1);
        AddPrevious(t, key, 8, i + 1, 2);
        AddPrevious(t, key, 8, i + 1, 3);
        i := i + 1;
        if i == 7 {
          return;
        }
        SubstituteMiddle(t, key, i);
        AddPrevious(t, key, 8, i, 5);
        AddPrevious(t, key, 8, i, 6);
        AddPrevious(t, key, 8, i, 7);
        rk := rk + 8;
      }
    }

    /** rk[i] = GETU32(userKey + 4 * i) */
    method CopyWord(t: Tables, key: seq<bv8>, nk: nat, i: nat)
      requires i < nk < rdKey.Length && 4 * nk <= |key| && Holds(t, key, nk, i)
      modifies rdKey
      ensures Holds(t, key, nk, i + 1)
    {
      rdKey[i] := GetU32(key, 4 * i);
    }

    ghost predicate Schedule(t: Tables, key: seq<bv8>, nk: nat)
      requires 0 < nk && 4 * nk <= |key|
      reads this, rdKey
    {
      rdKey.Length == 60 && KeyWords(nk) && rounds == nk + 6 && rdKey[..4 * (nk + 7)] == Expansion(t, key, nk)
    }

    method SetEncryptKey(t: Tables, userKey: Option<seq<bv8>>, bits: int) returns (status: int)
      requires rdKey.Length == 60
      requires userKey.Some? && ValidBits(bits) ==> 8 * |userKey.value| >= bits
      modifies this, rdKey
      ensures status == if userKey.None? then -1 else if !ValidBits(bits) then -2 else 0
      ensures status == 0 ==> Schedule(t, userKey.value, bits / 32)
      ensures status != 0 ==> rounds == old(rounds) && rdKey[..] == old(rdKey[..])
    {
      hide ExpandedWord;
      if userKey.None? {
        return -1;
      }
      if bits != 128 && bits != 192 && bits != 256 {
        return -2;
      }
      var key := userKey.value;
      if bits == 128 {
        rounds := 10;
      } else if bits == 192 {
        rounds := 12;
      } else {
        rounds := 14;
      }
      var nk := bits / 32;
      CopyWord(t, key, nk, 0);
      CopyWord(t, key, nk, 1);
      CopyWord(t, key, nk, 2);
      CopyWord(t, key, nk, 3);
      if bits == 128 {
        Expand128(t, key);
        return 0;
      }
      CopyWord(t, key, nk, 4);
      CopyWord(t, key, nk, 5);
      if bits == 192 {
        Expand192(t, key);
        return 0;
      }
      CopyWord(t, key, nk, 6);
      CopyWord(t, key, nk, 7);
      Expand256(t, key);
      return 0;
    }

    method Swap(i: nat, j: nat)
      requires i < j < rdKey.Length
      modifies rdKey
      ensures rdKey[i] == old(rdKey[j]) && rdKey[j] == old(rdKey[i])
      ensures forall k :: 0 <= k < rdKey.Length && k != i && k != j ==> rdKey[k] == old(rdKey[k])
    {
      var temp := rdKey[i];
      rdKey[i] := rdKey[j];
      rdKey[j] := temp;
    }

    method SwapRoundKeys(i: nat, j: nat)
      requires i + 4 <= j && j + 4 <= rdKey.Length
      modifies rdKey
      ensures rdKey[..] == Swapped(old(rdKey[..]), i, j)
    {
      Swap(i, j);
      Swap(i + 1, j + 1);
      Swap(i + 2, j + 2);
      Swap(i + 3, j + 3);
    }

    /** Inverts the order of the round keys in place. */
    method ReverseRoundKeys()
      requires 4 * rounds + 4 <= rdKey.Length
      modifies rdKey
      ensures forall k :: 0 <= k < 4 * rounds + 4 ==> rdKey[k] == old(rdKey[..])[Mirror(k, rounds)]
    {
      hide Mirrored, Swapped, Mirror, PartMirror;
      ghost var was := rdKey[..];
      ReverseStarts(was, rounds);
      var i, j := 0, 4 * rounds;
      ghost var a := 0;
      while i < j
        invariant i == 4 * a && j == 4 * (rounds - a) && i <= j + 4
        invariant Mirrored(was, rdKey[..], a, rounds)
      {
        SwappedIsMirrored(was, rdKey[..], a, rounds);
        SwapRoundKeys(i, j);
        i, j := i + 4, j - 4;
        a := a + 1;
      }
      ReverseEnds(was, rdKey[..], a, rounds);
    }

    /** One round key through InvMixColumns. */
    method InvMixRoundKey(t: Tables, rk: nat)
      requires Inverse(t) && rk + 4 <= rdKey.Length
      modifies rdKey
      ensures forall k :: 0 <= k < rdKey.Length && !(rk <= k < rk + 4) ==> rdKey[k] == old(rdKey[k])
      ensures forall k :: rk <= k < rk + 4 ==> rdKey[k] == InvMixColumn(old(rdKey[k]))
    {
      hide InvMixByTables, InvMixColumn, Inverse;
      InvMixByTablesIsInvMixColumn(t, rdKey[rk]);
      InvMixByTablesIsInvMixColumn(t, rdKey[rk + 1]);
      InvMixByTablesIsInvMixColumn(t, rdKey[rk + 2]);
      InvMixByTablesIsInvMixColumn(t, rdKey[rk + 3]);
      rdKey[rk] := InvMixByTables(t, rdKey[rk]);
      rdKey[rk + 1] := InvMixByTables(t, rdKey[rk + 1]);
      rdKey[rk + 2] := InvMixByTables(t, rdKey[rk + 2]);
      rdKey[rk + 3] := InvMixByTables(t, rdKey[rk + 3]);
    }

    /** The inverse MixColumn transform on all round keys but the first and the last. */
    method InvMixRoundKeys(t: Tables)
      requires Inverse(t) && 1 <= rounds && 4 * rounds + 4 <= rdKey.Length
      modifies rdKey
      ensures forall k :: 4 <= k < 4 * rounds ==> rdKey[k] == InvMixColumn(old(rdKey[k]))
      ensures forall k :: 0 <= k < rdKey.Length && !(4 <= k < 4 * rounds) ==> rdKey[k] == old(rdKey[k])
    {
      hide InvMixColumn, Inverse;
      ghost var was := rdKey[..];
      var i, rk := 1, 0;
      while i < rounds
        invariant 1 <= i <= rounds && rk == 4 * (i - 1)
        invariant forall k :: 4 <= k < rk + 4 ==> rdKey[k] == InvMixColumn(was[k])
        invariant forall k :: 0 <= k < rdKey.Length && !(4 <= k < rk + 4) ==> rdKey[k] == was[k]
      {
        rk := rk + 4;
        InvMixRoundKey(t, rk);
        i := i + 1;
      }
    }

    /** The decryption schedule is the one section 5.3.5 derives from the encryption schedule. */
    method SetDecryptKey(t: Tables, userKey: Option<seq<bv8>>, bits: int) returns (status: int)
      requires Inverse(t) && rdKey.Length == 60
      requires userKey.Some? && ValidBits(bits) ==> 8 * |userKey.value| >= bits
      modifies this, rdKey
      ensures status == if userKey.None? then -1 else if !ValidBits(bits) then -2 else 0
      ensures status == 0 ==> var nk := bits / 32;
        rounds == nk + 6 && RoundKeys(rdKey[..], rounds) ==
            DecryptKeys(RoundKeys(Expansion(t, userKey.value, nk), rounds))
      ensures status != 0 ==> rounds == old(rounds) && rdKey[..] == old(rdKey[..])
    {
      hide Inverse, Mirror, InvMixColumn, DecryptKeys, ExpandedWord, Expansion, RoundKeys;
      status := SetEncryptKey(t, userKey, bits);
      if status < 0 {
        return;
      }
      ghost var was := rdKey[..];
      ReverseRoundKeys();
      InvMixRoundKeys(t);
      DecryptScheduleHolds(was, rdKey[..], rounds);
      PrefixKeys(was, Expansion(t, userKey.value, bits / 32), rounds);
    }
  }
}
