/** Tagged pointers between translation blocks (qemu/exec-all.h:140-158).  A block is a number;
    the two low bits of a pointer are the tag. */
module Links {
  datatype Link = Null | To(tb: nat, tag: nat)

  /** One of the numbered next fields of a block. */
  datatype Slot = Slot(tb: nat, n: nat)

  function LinkTo(s: Slot): Link { To(s.tb, s.n) }

  ghost predicate NoDup(list: seq<Slot>) {
    forall i, j :: 0 <= i < j < |list| ==> list[i] != list[j]
  }
}
