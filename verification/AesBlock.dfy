/** AES_encrypt and AES_decrypt: two rounds per turn of the loop. */
module AesBlock {
  import opened Aes
  import opened AesTables
  import opened AesKey

  ghost predicate Ready(key: AesKey)
    reads key
  {
    key.rdKey.Length == 60 && key.rounds in {10, 12, 14}
  }

  ghost function Keys(key: AesKey): (ks: seq<State>)
    requires Ready(key)
    reads key, key.rdKey
    ensures |ks| >= 2
  {
    RoundKeys(key.rdKey[..], key.rounds)
  }

  /** rk[base] .. rk[base + 3] */
  function KeyAt(key: AesKey, base: nat): State
    requires base + 4 <= key.rdKey.Length
    reads key, key.rdKey
  {
    State(key.rdKey[base], key.rdKey[base + 1], key.rdKey[base + 2], key.rdKey[base + 3])
  }

  method Encrypt(t: Tables, key: AesKey, b: seq<bv8>) returns (c: seq<bv8>)
    requires Ready(key) && |b| == 16
    ensures c == EncryptBlock(t, Keys(key), b)
  {
    hide AddKey, TeRound, Round, TeFinal, SubShift, Load, Store;
    ghost var ks, m := Keys(key), Load(b);
    var rk := 0;
    var s := AddKey(Load(b), KeyAt(key, 0));
    assert KeyAt(key, 0) == ks[0];
    var u := s;
    var r := key.rounds / 2;
    ghost var i := 0;
    while true
      invariant r >= 1 && i == key.rounds / 2 - r && rk == 8 * i
      invariant s == Rounds(t, ks, m, 2 * i)
      decreases r
    {
      assert KeyAt(key, rk + 4) == ks[2 * i + 1];
      TeRoundIsRound(t, s, KeyAt(key, rk + 4));
      u := TeRound(t, s, KeyAt(key, rk + 4));
      rk := rk + 8;
      r := r - 1;
      if r == 0 {
        break;
      }
      assert KeyAt(key, rk) == ks[2 * i + 2];
      TeRoundIsRound(t, u, KeyAt(key, rk));
      s := TeRound(t, u, KeyAt(key, rk));
      i := i + 1;
    }
    assert KeyAt(key, rk) == ks[|ks| - 1];
    LastRounds(t, u, KeyAt(key, rk));
    s := TeFinal(t, u, KeyAt(key, rk));
    c := Store(s);
  }

  method Decrypt(t: Tables, key: AesKey, b: seq<bv8>) returns (c: seq<bv8>)
    requires Ready(key) && |b| == 16
    ensures c == DecryptBlock(t, Keys(key), b)
  {
    hide AddKey, TdRound, InvRound, TdFinal, InvSubShift, Load, Store;
    ghost var ks, m := Keys(key), Load(b);
    var rk := 0;
    var s := AddKey(Load(b), KeyAt(key, 0));
    assert KeyAt(key, 0) == ks[0];
    var u := s;
    var r := key.rounds / 2;
    ghost var i := 0;
    while true
      invariant r >= 1 && i == key.rounds / 2 - r && rk == 8 * i
      invariant s == InvRounds(t, ks, m, 2 * i)
      decreases r
    {
      assert KeyAt(key, rk + 4) == ks[2 * i + 1];
      TdRoundIsInvRound(t, s, KeyAt(key, rk + 4));
      u := TdRound(t, s, KeyAt(key, rk + 4));
      rk := rk + 8;
      r := r - 1;
      if r == 0 {
        break;
      }
      assert KeyAt(key, rk) == ks[2 * i + 2];
      TdRoundIsInvRound(t, u, KeyAt(key, rk));
      s := TdRound(t, u, KeyAt(key, rk));
      i := i + 1;
    }
    assert KeyAt(key, rk) == ks[|ks| - 1];
    LastRounds(t, u, KeyAt(key, rk));
    s := TdFinal(t, u, KeyAt(key, rk));
    c := Store(s);
  }
}
