/** Cipher block chaining (section 6.2 of NIST SP 800-38A) with a partial last block, and the round trip. */
module AesCbc {
  import Common
  import opened Bytes
  import opened Gf256
  import opened Aes
  import AesKey
  import opened AesBlock

  /** Up to sixteen bytes added to the front of the vector. */
  function XorInto(p: seq<bv8>, iv: seq<bv8>): (r: seq<bv8>)
    requires |p| <= 16 == |iv|
    ensures |r| == 16
  {
    seq(16, n requires 0 <= n < 16 => if n < |p| then X(p[n], iv[n]) else iv[n])
  }

  lemma XorIntoTwice(p: seq<bv8>, iv: seq<bv8>)
    requires |p| <= 16 == |iv|
    ensures XorInto(XorInto(p, iv), iv)[..|p|] == p
  {
    hide X;
    forall n | 0 <= n < |p|
      ensures XorInto(XorInto(p, iv), iv)[n] == p[n]
    {
      XLaws(p[n], iv[n]);
    }
  }

  function Chunk(len: nat): nat { if len < 16 then len else 16 }

  /** The bytes of ciphertext for a plaintext of this length: whole blocks. */
  function RoundUp(len: nat): (r: nat)
    ensures len <= r < len + 16 && r % 16 == 0
  {
    if len == 0 then 0 else 16 + RoundUp(len - Chunk(len))
  }

  function CbcEncrypted(t: Tables, ks: seq<State>, iv: seq<bv8>, p: seq<bv8>): (c: seq<bv8>)
    requires |ks| >= 2 && |iv| == 16
    ensures |c| == RoundUp(|p|)
    decreases |p|
  {
    if p == [] then []
    else
      var n := Chunk(|p|);
      var c := EncryptBlock(t, ks, XorInto(p[..n], iv));
      c + CbcEncrypted(t, ks, c, p[n..])
  }

  function CbcDecrypted(t: Tables, ks: seq<State>, iv: seq<bv8>, c: seq<bv8>, len: nat): (p: seq<bv8>)
    requires |ks| >= 2 && |iv| == 16 && |c| >= RoundUp(len)
    ensures |p| == len
    decreases len
  {
    if len == 0 then []
    else
      var n := Chunk(len);
      XorInto(DecryptBlock(t, ks, c[..16]), iv)[..n] + CbcDecrypted(t, ks, c[..16], c[16..], len - n)
  }

  /** Decryption with the derived schedule returns the plaintext, whatever its length. */
  lemma {:induction false} CbcUndone(t: Tables, ks: seq<State>, iv: seq<bv8>, p: seq<bv8>)
    requires Inverse(t) && |ks| >= 2 && |iv| == 16
    ensures CbcDecrypted(t, DecryptKeys(ks), iv, CbcEncrypted(t, ks, iv, p), |p|) == p
    decreases |p|
  {
    hide Inverse, EncryptBlock, DecryptBlock, DecryptKeys, XorInto;
    if p != [] {
      var n := Chunk(|p|);
      var x := XorInto(p[..n], iv);
      var c := EncryptBlock(t, ks, x);
      var all := CbcEncrypted(t, ks, iv, p);
      assert all[..16] == c && all[16..] == CbcEncrypted(t, ks, c, p[n..]);
      BlockUndone(t, ks, x);
      XorIntoTwice(p[..n], iv);
      CbcUndone(t, ks, c, p[n..]);
      assert p[..n] + p[n..] == p;
    }
  }

  function Block(c: seq<bv8>, j: nat): (b: seq<bv8>)
    requires 16 * j <= |c|
    ensures |b| == Chunk(|c| - 16 * j)
  {
    c[16 * j..16 * j + Chunk(|c| - 16 * j)]
  }

  lemma BlockOfTail(c: seq<bv8>, j: nat)
    requires 16 * j + 16 <= |c|
    ensures Block(c, j + 1) == Block(c[16..], j)
  {
    var n, k := Chunk(|c| - 16 - 16 * j), 16 * j;
    Common.SliceOfSlice(c, 16, |c|, k, k + n);
    assert c[16..|c|] == c[16..];
  }

  /** Each ciphertext block is the cipher of its plaintext added to the block before. */
  lemma {:induction false} CbcBlock(t: Tables, ks: seq<State>, iv: seq<bv8>, p: seq<bv8>, j: nat)
    requires |ks| >= 2 && |iv| == 16 && 16 * j < |p|
    ensures var c := CbcEncrypted(t, ks, iv, p);
      var prev := if j == 0 then iv else Block(c, j - 1);
      |prev| == 16 && Block(c, j) == EncryptBlock(t, ks, XorInto(Block(p, j), prev))
    decreases j
  {
    hide EncryptBlock, XorInto, RoundUp;
    var c := CbcEncrypted(t, ks, iv, p);
    var c0 := EncryptBlock(t, ks, XorInto(p[..Chunk(|p|)], iv));
    assert c[..16] == c0 == Block(c, 0);
    if j > 0 {
      CbcBlock(t, ks, c0, p[16..], j - 1);
      var rest := CbcEncrypted(t, ks, c0, p[16..]);
      assert c[16..] == rest;
      BlockOfTail(p, j - 1);
      BlockOfTail(c, j - 1);
      if j > 1 {
        BlockOfTail(c, j - 2);
      }
    }
  }

  // ----- the loops

  method AddBlock(p: seq<bv8>, ivec: array<bv8>) returns (tmp: seq<bv8>)
    requires |p| <= 16 == ivec.Length
    ensures tmp == XorInto(p, ivec[..])
  {
    hide X;
    tmp := [];
    for n := 0 to |p|
      invariant |tmp| == n && forall i :: 0 <= i < n ==> tmp[i] == X(p[i], ivec[i])
    {
      tmp := tmp + [X(p[n], ivec[n])];
    }
    for n := |p| to 16
      invariant |tmp| == n && forall i :: 0 <= i < n ==> tmp[i] == if i < |p| then X(p[i], ivec[i]) else ivec[i]
    {
      tmp := tmp + [ivec[n]];
    }
  }

  method MemCpy(out: array<bv8>, pos: nat, s: seq<bv8>)
    requires pos + |s| <= out.Length
    modifies out
    ensures out[..pos + |s|] == old(out[..pos]) + s && out[pos + |s|..] == old(out[pos + |s|..])
  {
    forall i | 0 <= i < |s| {
      out[pos + i] := s[i];
    }
  }

  ghost predicate Separate(key: AesKey.AesKey, out: array<bv8>, ivec: array<bv8>) {
    var rk: object := key.rdKey;
    rk != out && rk != ivec && out != ivec && ivec.Length == 16
  }

  /** One block, whole or partial, of the encrypting loop. */
  method EncryptStep(t: Tables, key: AesKey.AesKey, p: seq<bv8>, out: array<bv8>, pos: nat, ivec: array<bv8>)
    requires Ready(key) && Separate(key, out, ivec) && |p| <= 16 && pos + 16 <= out.Length
    modifies out, ivec
    ensures Ready(key) && Keys(key) == old(Keys(key))
    ensures ivec[..] == EncryptBlock(t, Keys(key), XorInto(p, old(ivec[..])))
    ensures out[..pos + 16] == old(out[..pos]) + ivec[..] && out[pos + 16..] == old(out[pos + 16..])
  {
    hide EncryptBlock, XorInto;
    var tmp := AddBlock(p, ivec);
    tmp := Encrypt(t, key, tmp);
    MemCpy(out, pos, tmp);
    MemCpy(ivec, 0, tmp);
  }

  /** What is written so far, the vector, and the input still to come make up the whole ciphertext. */
  ghost predicate Encrypting(t: Tables, ks: seq<State>, iv0: seq<bv8>, p: seq<bv8>, done: seq<bv8>, iv: seq<bv8>,
                             rest: seq<bv8>)
    requires |ks| >= 2 && |iv0| == 16
  {
    && |iv| == 16
    && done + CbcEncrypted(t, ks, iv, rest) == CbcEncrypted(t, ks, iv0, p)
    && iv == (if |done| < 16 then iv0 else done[|done| - 16..])
  }

  lemma EncryptingStarts(t: Tables, ks: seq<State>, iv: seq<bv8>, p: seq<bv8>)
    requires |ks| >= 2 && |iv| == 16
    ensures Encrypting(t, ks, iv, p, [], iv, p)
  {
    assert [] + CbcEncrypted(t, ks, iv, p) == CbcEncrypted(t, ks, iv, p);
  }

  lemma EncryptingStep(t: Tables, ks: seq<State>, iv0: seq<bv8>, p: seq<bv8>, done: seq<bv8>, iv: seq<bv8>,
                       rest: seq<bv8>)
    requires |ks| >= 2 && |iv0| == 16 && Encrypting(t, ks, iv0, p, done, iv, rest) && rest != []
    ensures |done| + 16 <= RoundUp(|p|)
    ensures var n := Chunk(|rest|);
      var c := EncryptBlock(t, ks, XorInto(rest[..n], iv));
      Encrypting(t, ks, iv0, p, done + c, c, rest[n..])
  {
    hide EncryptBlock, XorInto, CbcEncrypted, RoundUp;
    var n := Chunk(|rest|);
    var c := EncryptBlock(t, ks, XorInto(rest[..n], iv));
    var tail := CbcEncrypted(t, ks, c, rest[n..]);
    CbcUnfold(t, ks, iv, rest);
    Regroup(done, c, tail);
  }

  lemma Regroup(a: seq<bv8>, b: seq<bv8>, c: seq<bv8>)
    ensures a + (b + c) == (a + b) + c && (a + b)[|a|..] == b
  {}

  lemma CbcUnfold(t: Tables, ks: seq<State>, iv: seq<bv8>, p: seq<bv8>)
    requires |ks| >= 2 && |iv| == 16 && p != []
    ensures var n := Chunk(|p|);
      var c := EncryptBlock(t, ks, XorInto(p[..n], iv));
      CbcEncrypted(t, ks, iv, p) == c + CbcEncrypted(t, ks, c, p[n..])
  {}

  lemma EncryptingEnds(t: Tables, ks: seq<State>, iv0: seq<bv8>, p: seq<bv8>, done: seq<bv8>, iv: seq<bv8>)
    requires |ks| >= 2 && |iv0| == 16 && Encrypting(t, ks, iv0, p, done, iv, [])
    ensures done == CbcEncrypted(t, ks, iv0, p)
    ensures iv == if p == [] then iv0 else done[RoundUp(|p|) - 16..]
  {}

  lemma NextPlain(s: seq<bv8>, p: seq<bv8>, pos: nat, length: nat)
    requires pos + 16 <= length == |p| <= |s| && s[pos..length] == p[pos..]
    ensures s[pos..pos + 16] == p[pos..][..16] && p[pos..][16..] == p[pos + 16..]
    ensures s[pos..length][16..] == s[pos + 16..length] == p[pos + 16..]
  {
    assert s[pos..pos + 16] == s[pos..length][..16];
    assert s[pos + 16..length] == s[pos..length][16..];
  }

  /** The encrypting half of AES_cbc_encrypt; inp and out may be the same buffer. */
  method CbcEncrypt(t: Tables, key: AesKey.AesKey, inp: array<bv8>, length: nat, out: array<bv8>, ivec: array<bv8>)
    requires Ready(key) && Separate(key, out, ivec) && inp != ivec
    requires length <= inp.Length && RoundUp(length) <= out.Length
    modifies out, ivec
    ensures Ready(key) && Keys(key) == old(Keys(key))
    ensures out[..RoundUp(length)] == CbcEncrypted(t, Keys(key), old(ivec[..]), old(inp[..length]))
    ensures out[RoundUp(length)..] == old(out[RoundUp(length)..])
    ensures ivec[..] == if length == 0 then old(ivec[..]) else out[..RoundUp(length)][RoundUp(length) - 16..]
  {
    hide EncryptBlock, XorInto, Keys, CbcEncrypted, Encrypting, RoundUp;
    ghost var ks, iv0, end := Keys(key), ivec[..], RoundUp(length);
    ghost var p := inp[..length];
    var len, pos := length, 0;
    EncryptingStarts(t, ks, iv0, p);
    assert p[pos..] == p && out[..pos] == [];
    while len >= 16
      invariant pos + len == length && 0 <= len && pos <= end
      invariant Ready(key) && Keys(key) == ks
      invariant inp[pos..length] == p[pos..]
      invariant Encrypting(t, ks, iv0, p, out[..pos], ivec[..], p[pos..])
      invariant out[end..] == old(out[end..])
    {
      EncryptingStep(t, ks, iv0, p, out[..pos], ivec[..], p[pos..]);
      var block := inp[pos..pos + 16];
      NextPlain(inp[..], p, pos, length);
      EncryptInPlace(t, key, inp, length, block, out, pos, end, ivec);
      len, pos := len - 16, pos + 16;
    }
    if len > 0 {
      EncryptingStep(t, ks, iv0, p, out[..pos], ivec[..], p[pos..]);
      var block := inp[pos..length];
      assert p[pos..][..len] == p[pos..] && p[pos..][len..] == [];
      EncryptInPlace(t, key, inp, length, block, out, pos, end, ivec);
      pos := pos + 16;
    } else {
      assert p[pos..] == [];
    }
    EncryptingEnds(t, ks, iv0, p, out[..pos], ivec[..]);
  }

  /** A step writes the block at pos and nothing behind it, so the input still to come stays. */
  method EncryptInPlace(t: Tables, key: AesKey.AesKey, inp: array<bv8>, length: nat, block: seq<bv8>, out: array<bv8>,
                        pos: nat, ghost end: nat, ivec: array<bv8>)
    requires Ready(key) && Separate(key, out, ivec) && inp != ivec && |block| <= 16
    requires pos + 16 <= end <= out.Length && length <= inp.Length
    modifies out, ivec
    ensures Ready(key) && Keys(key) == old(Keys(key))
    ensures ivec[..] == EncryptBlock(t, Keys(key), XorInto(block, old(ivec[..])))
    ensures out[..pos + 16] == old(out[..pos]) + ivec[..] && out[end..] == old(out[end..])
    ensures pos + 16 <= length ==> inp[pos + 16..length] == old(inp[pos + 16..length])
  {
    hide EncryptBlock, XorInto, Keys;
    assert out[pos + 16..][end - pos - 16..] == out[end..];
    EncryptStep(t, key, block, out, pos, ivec);
    assert out[pos + 16..][end - pos - 16..] == out[end..];
    if pos + 16 <= length && inp == out {
      assert out[pos + 16..][..length - pos - 16] == inp[pos + 16..length];
    }
  }

  ghost predicate Decrypting(t: Tables, ks: seq<State>, all: seq<bv8>, done: seq<bv8>, iv: seq<bv8>, rest: seq<bv8>,
                             len: nat)
    requires |ks| >= 2
  {
    |iv| == 16 && |rest| >= RoundUp(len) && done + CbcDecrypted(t, ks, iv, rest, len) == all
  }

  lemma DecryptingStep(t: Tables, ks: seq<State>, all: seq<bv8>, done: seq<bv8>, iv: seq<bv8>, rest: seq<bv8>, len: nat)
    requires |ks| >= 2 && len > 0 && Decrypting(t, ks, all, done, iv, rest, len)
    ensures |rest| >= 16 && |all| == |done| + len
    ensures var n := Chunk(len);
      var p := XorInto(DecryptBlock(t, ks, rest[..16]), iv)[..n];
      Decrypting(t, ks, all, done + p, rest[..16], rest[16..], len - n)
  {
    hide DecryptBlock, XorInto;
    var n := Chunk(len);
    var p := XorInto(DecryptBlock(t, ks, rest[..16]), iv)[..n];
    Regroup(done, p, CbcDecrypted(t, ks, rest[..16], rest[16..], len - n));
  }

  method DecryptStep(t: Tables, key: AesKey.AesKey, c: seq<bv8>, out: array<bv8>, pos: nat, n: nat, ivec: array<bv8>)
      returns (tmp: seq<bv8>)
    requires Ready(key) && Separate(key, out, ivec) && |c| == 16 && n <= 16 && pos + n <= out.Length
    modifies out
    ensures Ready(key) && Keys(key) == old(Keys(key)) && ivec[..] == old(ivec[..])
    ensures tmp == DecryptBlock(t, Keys(key), c)
    ensures out[..pos + n] == old(out[..pos]) + XorInto(tmp, ivec[..])[..n] && out[pos + n..] == old(out[pos + n..])
  {
    hide DecryptBlock, XorInto;
    tmp := Decrypt(t, key, c);
    var x := AddBlock(tmp, ivec);
    MemCpy(out, pos, x[..n]);
  }

  /** What the vector holds after length bytes of c: the last ciphertext block, or, after a partial block, what
      the cipher made of it. */
  function VectorAfter(t: Tables, ks: seq<State>, iv: seq<bv8>, c: seq<bv8>, length: nat): seq<bv8>
    requires |ks| >= 2 && |iv| == 16 && |c| >= RoundUp(length)
  {
    if length == 0 then iv
    else if length % 16 == 0 then c[length - 16..length]
    else DecryptBlock(t, ks, c[length - length % 16..length - length % 16 + 16])
  }

  lemma NextBlock(s: seq<bv8>, c: seq<bv8>, pos: nat)
    requires pos + 16 <= |s| == |c| && s[pos..] == c[pos..]
    ensures s[pos..pos + 16] == c[pos..pos + 16] == c[pos..][..16] && c[pos..][16..] == c[pos + 16..]
  {
    assert s[pos..pos + 16] == s[pos..][..16];
  }

  /** pos bytes are whole blocks. */
  ghost predicate Aligned(pos: nat) { pos % 16 == 0 }

  lemma AlignedNext(pos: nat)
    requires Aligned(pos)
    ensures Aligned(pos + 16)
  {}

  lemma AlignedStart()
    ensures Aligned(0)
  {}

  lemma VectorIs(t: Tables, ks: seq<State>, iv: seq<bv8>, c: seq<bv8>, pos: nat, len: nat)
    requires |ks| >= 2 && |iv| == 16 && len < 16 && Aligned(pos) && |c| >= RoundUp(pos + len)
    ensures len == 0 && pos == 0 ==> VectorAfter(t, ks, iv, c, 0) == iv
    ensures len == 0 && pos > 0 ==> pos >= 16 && VectorAfter(t, ks, iv, c, pos) == c[pos - 16..pos]
    ensures len > 0 ==> |c| >= pos + 16
    ensures len > 0 ==> VectorAfter(t, ks, iv, c, pos + len) == DecryptBlock(t, ks, c[pos..pos + 16])
  {
    hide DecryptBlock;
    assert (pos + len) % 16 == len;
  }

  /** The decrypting half of AES_cbc_encrypt; inp and out may be the same buffer. */
  method CbcDecrypt(t: Tables, key: AesKey.AesKey, inp: array<bv8>, length: nat, out: array<bv8>, ivec: array<bv8>)
    requires Ready(key) && Separate(key, out, ivec) && inp != ivec
    requires RoundUp(length) <= inp.Length && length <= out.Length
    modifies out, ivec
    ensures Ready(key) && Keys(key) == old(Keys(key))
    ensures out[..length] == CbcDecrypted(t, Keys(key), old(ivec[..]), old(inp[..]), length)
    ensures out[length..] == old(out[length..])
    ensures ivec[..] == VectorAfter(t, Keys(key), old(ivec[..]), old(inp[..]), length)
  {
    hide DecryptBlock, XorInto, Keys, CbcDecrypted, Decrypting, RoundUp, VectorAfter, Aligned;
    AlignedStart();
    ghost var ks, c, iv0 := Keys(key), inp[..], ivec[..];
    ghost var all := CbcDecrypted(t, ks, iv0, c, length);
    var len, pos := length, 0;
    DecryptingStarts(t, ks, iv0, c, length);
    assert c[pos..] == c && out[..pos] == [];
    while len >= 16
      invariant pos + len == length && 0 <= len && pos <= |c| && Aligned(pos)
      invariant Ready(key) && Keys(key) == ks
      invariant inp[pos..] == c[pos..]
      invariant Decrypting(t, ks, all, out[..pos], ivec[..], c[pos..], len)
      invariant out[length..] == old(out[length..])
      invariant ivec[..] == if pos < 16 then iv0 else c[pos - 16..pos]
    {
      DecryptingRoom(t, ks, all, out[..pos], ivec[..], c[pos..], len);
      var block, _ := DecryptTurn(t, key, inp, length, out, pos, 16, ivec, c, all);
      MemCpy(ivec, 0, block);
      assert ivec[..] == ivec[..16] == block;
      AlignedNext(pos);
      len, pos := len - 16, pos + 16;
    }
    VectorIs(t, ks, iv0, c, pos, len);
    if len > 0 {
      DecryptingRoom(t, ks, all, out[..pos], ivec[..], c[pos..], len);
      var block, tmp := DecryptTurn(t, key, inp, length, out, pos, len, ivec, c, all);
      DecryptingEnds(t, ks, all, out[..length], block, c[pos + 16..]);
      MemCpy(ivec, 0, tmp);
      assert ivec[..] == ivec[..16] == tmp;
    } else {
      DecryptingEnds(t, ks, all, out[..pos], ivec[..], c[pos..]);
    }
  }

  lemma DecryptingRoom(t: Tables, ks: seq<State>, all: seq<bv8>, done: seq<bv8>, iv: seq<bv8>, rest: seq<bv8>, len: nat)
    requires |ks| >= 2 && len > 0 && Decrypting(t, ks, all, done, iv, rest, len)
    ensures |rest| >= 16
  {}

  /** One block of n bytes: decrypts what was read at pos into out, and leaves the input still to come. */
  method DecryptTurn(t: Tables, key: AesKey.AesKey, inp: array<bv8>, length: nat, out: array<bv8>, pos: nat, n: nat,
                     ivec: array<bv8>, ghost c: seq<bv8>, ghost all: seq<bv8>) returns (block: seq<bv8>, tmp: seq<bv8>)
    requires Ready(key) && Separate(key, out, ivec) && |c| == inp.Length && pos + 16 <= inp.Length
    requires pos < length <= out.Length && n == Chunk(length - pos) && inp[pos..] == c[pos..]
    requires Decrypting(t, Keys(key), all, out[..pos], ivec[..], c[pos..], length - pos)
    modifies out
    ensures Ready(key) && Keys(key) == old(Keys(key)) && ivec[..] == old(ivec[..])
    ensures block == c[pos..pos + 16] && tmp == DecryptBlock(t, Keys(key), block)
    ensures Decrypting(t, Keys(key), all, out[..pos + n], block, c[pos + 16..], length - pos - n)
    ensures inp[pos + 16..] == c[pos + 16..] && out[length..] == old(out[length..])
  {
    hide DecryptBlock, XorInto, Keys, Decrypting;
    DecryptingStep(t, Keys(key), all, out[..pos], ivec[..], c[pos..], length - pos);
    NextBlock(inp[..], c, pos);
    block := inp[pos..pos + 16];
    assert inp[pos + 16..] == inp[pos..][16..];
    tmp := DecryptInPlace(t, key, inp, block, out, pos, n, length, ivec);
  }

  method DecryptInPlace(t: Tables, key: AesKey.AesKey, inp: array<bv8>, block: seq<bv8>, out: array<bv8>,
                        pos: nat, n: nat, ghost length: nat, ivec: array<bv8>) returns (tmp: seq<bv8>)
    requires Ready(key) && Separate(key, out, ivec) && |block| == 16 && n <= 16 && pos + n <= length <= out.Length
    requires pos + 16 <= inp.Length
    modifies out
    ensures Ready(key) && Keys(key) == old(Keys(key)) && ivec[..] == old(ivec[..])
    ensures tmp == DecryptBlock(t, Keys(key), block)
    ensures out[..pos + n] == old(out[..pos]) + XorInto(tmp, ivec[..])[..n] && out[length..] == old(out[length..])
    ensures inp[pos + 16..] == old(inp[pos + 16..])
  {
    hide DecryptBlock, XorInto, Keys;
    assert out[pos + n..][length - pos - n..] == out[length..];
    tmp := DecryptStep(t, key, block, out, pos, n, ivec);
    assert out[pos + n..][length - pos - n..] == out[length..];
    if inp == out {
      assert out[pos + n..][16 - n..] == inp[pos + 16..];
    }
  }

  lemma DecryptingStarts(t: Tables, ks: seq<State>, iv: seq<bv8>, c: seq<bv8>, len: nat)
    requires |ks| >= 2 && |iv| == 16 && |c| >= RoundUp(len)
    ensures Decrypting(t, ks, CbcDecrypted(t, ks, iv, c, len), [], iv, c, len)
  {
    assert [] + CbcDecrypted(t, ks, iv, c, len) == CbcDecrypted(t, ks, iv, c, len);
  }

  lemma DecryptingEnds(t: Tables, ks: seq<State>, all: seq<bv8>, done: seq<bv8>, iv: seq<bv8>, rest: seq<bv8>)
    requires |ks| >= 2 && Decrypting(t, ks, all, done, iv, rest, 0)
    ensures done == all
  {}

  /** AES_cbc_encrypt: encrypts or decrypts length bytes, in place if inp is out. */
  method CbcCrypt(t: Tables, key: AesKey.AesKey, inp: array<bv8>, length: nat, out: array<bv8>, ivec: array<bv8>,
                  enc: bool)
    requires Ready(key) && Separate(key, out, ivec) && inp != ivec
    requires if enc then length <= inp.Length && RoundUp(length) <= out.Length
             else RoundUp(length) <= inp.Length && length <= out.Length
    modifies out, ivec
    ensures Ready(key) && Keys(key) == old(Keys(key))
    ensures enc ==> out[..RoundUp(length)] == CbcEncrypted(t, Keys(key), old(ivec[..]), old(inp[..length]))
    ensures enc && length > 0 ==> ivec[..] == out[..RoundUp(length)][RoundUp(length) - 16..]
    ensures !enc ==> out[..length] == CbcDecrypted(t, Keys(key), old(ivec[..]), old(inp[..]), length)
    ensures !enc ==> ivec[..] == VectorAfter(t, Keys(key), old(ivec[..]), old(inp[..]), length)
    ensures var end := if enc then RoundUp(length) else length; out[end..] == old(out[end..])
  {
    hide CbcEncrypted, CbcDecrypted, Keys, RoundUp, VectorAfter;
    if enc {
      CbcEncrypt(t, key, inp, length, out, ivec);
    } else {
      CbcDecrypt(t, key, inp, length, out, ivec);
    }
  }

  method FilledBy(s: seq<bv8>) returns (a: array<bv8>)
    ensures fresh(a) && a[..] == s
  {
    a := new bv8[|s|](i requires 0 <= i < |s| => s[i]);
  }

  /** Encrypting under a key and decrypting under the schedule derived from it, both in place in one buffer, returns
      the plaintext. */
  method CbcRoundTrip(t: Tables, userKey: seq<bv8>, bits: int, iv: seq<bv8>, p: seq<bv8>) returns (q: seq<bv8>)
    requires Inverse(t) && AesKey.ValidBits(bits) && 8 * |userKey| >= bits && |iv| == 16
    ensures q == p
  {
    hide Inverse, CbcEncrypted, CbcDecrypted, RoundUp, VectorAfter, DecryptKeys, AesKey.RoundKeys, AesKey.Expansion;
    var ek := new AesKey.AesKey();
    var status := ek.SetEncryptKey(t, Some(userKey), bits);
    var buf := FilledBy(p + seq(RoundUp(|p|) - |p|, _ => 0));
    var ivec := FilledBy(iv);
    AesKey.PrefixKeys(ek.rdKey[..], AesKey.Expansion(t, userKey, bits / 32), ek.rounds);
    ghost var ks := Keys(ek);
    assert buf[..|p|] == p;
    CbcCrypt(t, ek, buf, |p|, buf, ivec, true);
    assert buf[..] == buf[..RoundUp(|p|)];
    CbcUndone(t, ks, iv, p);
    var dk := new AesKey.AesKey();
    status := dk.SetDecryptKey(t, Some(userKey), bits);
    ivec := FilledBy(iv);
    CbcCrypt(t, dk, buf, |p|, buf, ivec, false);
    q := buf[..|p|];
  }
}
