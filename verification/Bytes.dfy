/** Bytes and the big-endian 64-bit integers that QEMUFile puts and gets (qemu/savevm.c). */
module Bytes {

  type Byte = x: int | 0 <= x < 256

  datatype Option<+T> = None | Some(value: T)

  const TWO64: nat := 0x1_0000_0000_0000_0000

  function Pow256(n: nat): (r: nat)
    ensures r > 0
  {
    if n == 0 then 1 else 256 * Pow256(n - 1)
  }

  /** The n-byte big-endian form of v. */
  function BigEndian(v: nat, n: nat): (r: seq<Byte>)
    ensures |r| == n
  {
    if n == 0 then [] else BigEndian(v / 256, n - 1) + [v % 256]
  }

  function FromBigEndian(s: seq<Byte>): nat {
    if s == [] then 0 else 256 * FromBigEndian(s[..|s| - 1]) + s[|s| - 1]
  }

  lemma {:induction false} BigEndianRoundTrip(v: nat, n: nat)
    requires v < Pow256(n)
    ensures FromBigEndian(BigEndian(v, n)) == v
  {
    if n > 0 {
      var s := BigEndian(v, n);
      assert v / 256 < Pow256(n - 1);
      BigEndianRoundTrip(v / 256, n - 1);
      assert s[..n - 1] == BigEndian(v / 256, n - 1) && s[n - 1] == v % 256;
    }
  }

  function PutBe64(v: nat): (r: seq<Byte>)
    ensures |r| == 8
  {
    BigEndian(v, 8)
  }

  lemma Be64RoundTrip(v: nat)
    requires v < TWO64
    ensures FromBigEndian(PutBe64(v)) == v
  {
    assert Pow256(8) == 256 * (256 * (256 * (256 * (256 * (256 * Pow256(2))))));
    assert Pow256(8) == TWO64;
    BigEndianRoundTrip(v, 8);
  }

  /** Byte i of n has weight 256^(n - 1 - i). */
  lemma BigEndianSplits(v: nat, n: nat)
    requires n > 0
    ensures BigEndian(v, n)[n - 1] == v % 256
    ensures forall i :: 0 <= i < n - 1 ==> BigEndian(v, n)[i] == BigEndian(v / 256, n - 1)[i]
  {}

  /** The most significant byte goes first. */
  lemma Be64Layout(v: nat)
    ensures PutBe64(v)[7] == v % 256 && PutBe64(v)[6] == v / 0x100 % 256 && PutBe64(v)[5] == v / 0x1_0000 % 256
    ensures PutBe64(v)[4] == v / 0x100_0000 % 256 && PutBe64(v)[3] == v / 0x1_0000_0000 % 256
    ensures PutBe64(v)[2] == v / 0x100_0000_0000 % 256 && PutBe64(v)[1] == v / 0x1_0000_0000_0000 % 256
    ensures PutBe64(v)[0] == v / 0x100_0000_0000_0000 % 256
  {
    hide BigEndian;
    var v1, v2, v3, v4 := v / 0x100, v / 0x1_0000, v / 0x100_0000, v / 0x1_0000_0000;
    var v5, v6, v7 := v / 0x100_0000_0000, v / 0x1_0000_0000_0000, v / 0x100_0000_0000_0000;
    assert v1 / 256 == v2 && v2 / 256 == v3 && v3 / 256 == v4 && v4 / 256 == v5 && v5 / 256 == v6 && v6 / 256 == v7;
    BigEndianSplits(v, 8);
    BigEndianSplits(v1, 7);
    BigEndianSplits(v2, 6);
    BigEndianSplits(v3, 5);
    BigEndianSplits(v4, 4);
    BigEndianSplits(v5, 3);
    BigEndianSplits(v6, 2);
    BigEndianSplits(v7, 1);
  }

  /** Whatever follows, the first eight bytes give the number back. */
  lemma Be64ThenMore(v: nat, x: seq<Byte>)
    requires v < TWO64
    ensures |PutBe64(v) + x| >= 8 && FromBigEndian((PutBe64(v) + x)[..8]) == v && (PutBe64(v) + x)[8..] == x
  {
    Be64RoundTrip(v);
    assert (PutBe64(v) + x)[..8] == PutBe64(v);
  }
}
