/** Sizes and error numbers shared by the models, and small arithmetic. */
module Common {
  const PAGE: nat := 4096           // TARGET_PAGE_SIZE
  const CPU_TLB_SIZE: nat := 256
  const SECTOR: nat := 512          // BDRV_SECTOR_SIZE
  const TWO32: nat := 0x1_0000_0000
  const EIO: int := 5
  const EAGAIN: int := 11
  const EACCES: int := 13
  const EINVAL: int := 22
  const ENOTSUP: int := 95
  const ENOMEDIUM: int := 123

  function Min(a: nat, b: nat): nat { if a < b then a else b }

  function Max(a: nat, b: nat): nat { if a < b then b else a }

  function Pow2(k: nat): (r: nat)
    ensures r > 0
  {
    if k == 0 then 1 else 2 * Pow2(k - 1)
  }

  lemma SliceOfSlice<T>(s: seq<T>, a: nat, b: nat, i: nat, j: nat)
    requires a <= b <= |s| && i <= j <= b - a
    ensures s[a..b][i..j] == s[a + i..a + j]
  {
    forall k | 0 <= k < j - i ensures s[a..b][i..j][k] == s[a + i..a + j][k] {
      assert s[a..b][i..j][k] == s[a..b][i + k] == s[a + (i + k)];
      assert s[a + i..a + j][k] == s[(a + i) + k];
    }
  }
}
