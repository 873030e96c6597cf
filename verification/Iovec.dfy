/** I/O vectors (qemu/cutils.c:137-219).  An element of a vector is the memory it points to. */
module Iovec {
  import opened Common
  import opened Bytes

  type Iov = seq<seq<Byte>>

  function Flatten(iov: Iov): seq<Byte> {
    if iov == [] then [] else iov[0] + Flatten(iov[1..])
  }

  lemma {:induction false} FlattenConcat(a: Iov, b: Iov)
    ensures Flatten(a + b) == Flatten(a) + Flatten(b)
  {
    if a == [] {
      assert a + b == b;
    } else {
      assert (a + b)[1..] == a[1..] + b;
      FlattenConcat(a[1..], b);
    }
  }

  /** The pieces of src that qemu_iovec_copy adds: skip bytes are left out, then size bytes taken. */
  function Pieces(src: Iov, skip: nat, size: nat): (r: Iov)
    ensures |r| <= |src|
  {
    if src == [] || size == 0 then []
    else if skip >= |src[0]| then Pieces(src[1..], skip - |src[0]|, size)
    else
      var piece := src[0][skip..];
      if |piece| > size then [piece[..size]] else [piece] + Pieces(src[1..], 0, size - |piece|)
  }

  /** Up to n bytes of s from position a. */
  function Slice(s: seq<Byte>, a: nat, n: nat): seq<Byte> { s[Min(a, |s|)..Min(a + n, |s|)] }

  lemma SliceBeyond(head: seq<Byte>, tail: seq<Byte>, a: nat, n: nat)
    requires |head| <= a
    ensures Slice(head + tail, a, n) == Slice(tail, a - |head|, n)
  {}

  lemma SliceWithin(head: seq<Byte>, tail: seq<Byte>, a: nat, n: nat)
    requires a + n <= |head|
    ensures Slice(head + tail, a, n) == head[a..][..n]
  {}

  lemma SliceAcross(head: seq<Byte>, tail: seq<Byte>, a: nat, n: nat)
    requires a <= |head| <= a + n
    ensures Slice(head + tail, a, n) == head[a..] + Slice(tail, 0, n - (|head| - a))
  {}

  /** The pieces are exactly the asked-for stretch of the source. */
  lemma {:induction false} PiecesAreSlice(src: Iov, skip: nat, size: nat)
    ensures Flatten(Pieces(src, skip, size)) == Slice(Flatten(src), skip, size)
  {
    hide Slice;
    SliceOfNothing(Flatten(src), skip);
    if src != [] && size != 0 {
      var head, tail := src[0], Flatten(src[1..]);
      if skip >= |head| {
        PiecesAreSlice(src[1..], skip - |head|, size);
        SliceBeyond(head, tail, skip, size);
      } else {
        var piece := head[skip..];
        if |piece| > size {
          SliceWithin(head, tail, skip, size);
          FlattenCons(piece[..size], []);
        } else {
          PiecesAreSlice(src[1..], 0, size - |piece|);
          SliceAcross(head, tail, skip, size);
          FlattenCons(piece, Pieces(src[1..], 0, size - |piece|));
        }
      }
    } else if src == [] {
      SliceOfEmpty(skip, size);
    }
  }

  lemma SliceOfNothing(s: seq<Byte>, a: nat)
    ensures Slice(s, a, 0) == []
  {}

  lemma SliceOfEmpty(a: nat, n: nat)
    ensures Slice([], a, n) == []
  {}

  lemma FlattenCons(x: seq<Byte>, iov: Iov)
    ensures Flatten([x] + iov) == x + Flatten(iov)
  {
    assert ([x] + iov)[1..] == iov;
  }

  class QemuIovec {
    var iov: Iov
    var size: nat

    ghost predicate Valid()
      reads this
    {
      size == |Flatten(iov)|
    }

    constructor ()
      ensures Valid() && iov == []
    {
      iov, size := [], 0;
    }

    method Add(base: seq<Byte>)
      requires Valid()
      modifies this
      ensures Valid() && iov == old(iov) + [base] && Flatten(iov) == old(Flatten(iov)) + base
    {
      FlattenConcat(iov, [base]);
      assert [base][1..] == [] && Flatten([base]) == base + Flatten([]);
      iov, size := iov + [base], size + |base|;
    }

    /** qemu_iovec_copy */
    method Copy(src: Iov, skip: nat, size: nat)
      requires Valid()
      modifies this
      ensures Valid() && iov == old(iov) + Pieces(src, skip, size)
    {
      var done: nat, left: nat := 0, skip;
      var i := 0;
      while i < |src| && done != size
        invariant Valid() && 0 <= i <= |src| && done <= size
        invariant old(iov) + Pieces(src, skip, size) == iov + Pieces(src[i..], left, size - done)
      {
        assert src[i..][1..] == src[i + 1..];
        if left >= |src[i]| {
          left := left - |src[i]|;
        } else {
          var base := src[i][left..];
          left := 0;
          if done + |base| > size {
            Add(base[..size - done]);
            return;
          }
          assert iov + ([base] + Pieces(src[i + 1..], 0, size - done - |base|))
              == (iov + [base]) + Pieces(src[i + 1..], 0, size - done - |base|);
          Add(base);
          done := done + |base|;
        }
        i := i + 1;
      }
      assert iov + [] == iov;
    }

    /** qemu_iovec_concat */
    method Concat(src: Iov, size: nat)
      requires Valid()
      modifies this
      ensures Valid() && iov == old(iov) + Pieces(src, 0, size)
      ensures Flatten(iov) == old(Flatten(iov)) + Flatten(src)[..Min(size, |Flatten(src)|)]
    {
      PiecesAreSlice(src, 0, size);
      FlattenConcat(iov, Pieces(src, 0, size));
      Copy(src, 0, size);
    }
  }
}
