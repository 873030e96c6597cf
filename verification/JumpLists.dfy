/** The circular lists of direct jumps between translation blocks (qemu/exec-all.h:153-158,
    248-260; qemu/exec.c:823-856, 893-909, 1336-1379).  A translation block is a number, a
    tagged pointer is a Link, and tags 0 and 1 name the two jmp_next slots of a block while
    tag 2 names its jmp_first. */
module JumpLists {
  import opened Bytes
  import opened Links

  /** Where the direct jump in slot (tb, n) of the generated code goes: to another block,
      or back to the exit of its own block. */
  type Graph = map<Slot, Option<nat>>

  /** The pointer that stands before position i of the list of t. */
  function LinkAt(list: seq<Slot>, i: nat, t: nat): (l: Link)
    requires i <= |list|
    ensures l.To?
  {
    if i < |list| then LinkTo(list[i]) else To(t, 2)
  }

  /** The pointers, together with the lists they form and the list each slot is in. */
  datatype Heap = Heap(first: map<nat, Link>, next: map<Slot, Link>, lists: map<nat, seq<Slot>>, owner: Graph)

  ghost predicate PosOk(h: Heap, t: nat, i: nat)
    requires t in h.lists && i < |h.lists[t]|
  {
    var list := h.lists[t];
    && list[i] in h.next && h.next[list[i]] == LinkAt(list, i + 1, t)
    && list[i] in h.owner && h.owner[list[i]] == Some(t)
  }

  /** Following jmp_first of t visits the slots of its list, each once, and ends at (t, 2). */
  ghost predicate ListOk(h: Heap, t: nat) {
    && t in h.first && t in h.lists && h.first[t] == LinkAt(h.lists[t], 0, t)
    && (forall i :: 0 <= i < |h.lists[t]| ==> PosOk(h, t, i))
    && NoDup(h.lists[t])
  }

  /** A slot is in the list of its owner; without an owner it is null. */
  ghost predicate SlotOk(h: Heap, s: Slot) {
    && s in h.next && s in h.owner
    && if h.owner[s].None? then h.next[s] == Null
       else h.owner[s].value in h.lists && s in h.lists[h.owner[s].value]
  }

  ghost predicate Ok(h: Heap) {
    && h.first.Keys == h.lists.Keys && h.next.Keys == h.owner.Keys
    && (forall s :: s in h.next <==> s.tb in h.first && s.n < 2)
    && (forall t :: t in h.lists ==> ListOk(h, t))
    && (forall s :: s in h.owner ==> SlotOk(h, s))
  }

  function Pushed(h: Heap, s: Slot, t: nat): Heap
    requires t in h.first && t in h.lists
  {
    Heap(h.first[t := LinkTo(s)], h.next[s := h.first[t]],
         h.lists[t := [s] + h.lists[t]], h.owner[s := Some(t)])
  }

  lemma PushList(h: Heap, s: Slot, t: nat, u: nat)
    requires ListOk(h, t) && ListOk(h, u) && s in h.owner && h.owner[s].None?
    ensures ListOk(Pushed(h, s, t), u)
  {
    var h' := Pushed(h, s, t);
    forall i | 0 <= i < |h.lists[u]| ensures h.lists[u][i] != s { assert PosOk(h, u, i); }
    forall i | 0 <= i < |h'.lists[u]| ensures PosOk(h', u, i) {
      if u != t { assert PosOk(h, u, i); }
      else if i > 0 { assert PosOk(h, u, i - 1); }
    }
  }

  lemma PushSlot(h: Heap, s: Slot, t: nat, r: Slot)
    requires ListOk(h, t) && SlotOk(h, r)
    ensures SlotOk(Pushed(h, s, t), r)
  {}

  lemma PushOk(h: Heap, s: Slot, t: nat)
    requires Ok(h) && s in h.owner && h.owner[s].None? && t in h.first
    ensures Ok(Pushed(h, s, t))
  {
    hide ListOk, SlotOk;
    assert ListOk(h, t);
    assert t in h.lists;
    var h' := Pushed(h, s, t);
    forall u | u in h'.lists ensures ListOk(h', u) { PushList(h, s, t, u); }
    forall r | r in h'.owner ensures SlotOk(h', r) { PushSlot(h, s, t, r); }
  }

  /** The places a pointer can be stored in. */
  datatype Place = First(t: nat) | Next(s: Slot)

  /** The place of the pointer to position p of the list of t. */
  function PlaceOf(list: seq<Slot>, p: nat, t: nat): Place
    requires p <= |list|
  {
    if p == 0 then First(t) else Next(list[p - 1])
  }

  function Read(first: map<nat, Link>, next: map<Slot, Link>, p: Place): Link {
    match p
    case First(t) => if t in first then first[t] else Null
    case Next(s) => if s in next then next[s] else Null
  }

  /** Position p leaves the list of t: the pointer before it skips it, and it becomes null. */
  function Removed(h: Heap, t: nat, p: nat): Heap
    requires t in h.lists && p < |h.lists[t]| && h.lists[t][p] in h.next
  {
    var list := h.lists[t];
    var s, place := list[p], PlaceOf(list, p, t);
    Heap(if place.First? then h.first[t := h.next[s]] else h.first,
         (if place.Next? then h.next[place.s := h.next[s]] else h.next)[s := Null],
         h.lists[t := list[..p] + list[p + 1..]], h.owner[s := None])
  }

  lemma RemoveOwnList(h: Heap, t: nat, p: nat)
    requires ListOk(h, t) && p < |h.lists[t]|
    ensures PosOk(h, t, p) && ListOk(Removed(h, t, p), t)
  {
    assert PosOk(h, t, p);
    var h', list := Removed(h, t, p), h.lists[t];
    if p > 0 { assert PosOk(h, t, p - 1); }
    forall i | 0 <= i < |h'.lists[t]| ensures PosOk(h', t, i) {
      assert PosOk(h, t, if i < p then i else i + 1);
    }
  }

  lemma RemoveOtherList(h: Heap, t: nat, p: nat, u: nat)
    requires ListOk(h, t) && p < |h.lists[t]| && ListOk(h, u) && u != t
    ensures PosOk(h, t, p) && ListOk(Removed(h, t, p), u)
  {
    assert PosOk(h, t, p);
    if p > 0 { assert PosOk(h, t, p - 1); }
    forall i | 0 <= i < |h.lists[u]| ensures PosOk(Removed(h, t, p), u, i) { assert PosOk(h, u, i); }
  }

  lemma RemoveSlot(h: Heap, t: nat, p: nat, r: Slot)
    requires ListOk(h, t) && p < |h.lists[t]| && SlotOk(h, r)
    ensures PosOk(h, t, p) && SlotOk(Removed(h, t, p), r)
  {
    assert PosOk(h, t, p);
    var list := h.lists[t];
    if p > 0 { assert PosOk(h, t, p - 1); }
    if r != list[p] && h.owner[r] == Some(t) {
      var i :| 0 <= i < |list| && list[i] == r;
      assert r == Removed(h, t, p).lists[t][if i < p then i else i - 1];
    }
  }

  lemma RemoveKeys(h: Heap, t: nat, p: nat)
    requires ListOk(h, t) && p < |h.lists[t]|
    ensures PosOk(h, t, p)
    ensures var h' := Removed(h, t, p);
      h'.first.Keys == h.first.Keys && h'.next.Keys == h.next.Keys && h'.lists.Keys == h.lists.Keys
          && h'.owner.Keys == h.owner.Keys
  {
    assert PosOk(h, t, p);
    if p > 0 { assert PosOk(h, t, p - 1); }
  }

  lemma RemoveOk(h: Heap, t: nat, p: nat)
    requires Ok(h) && t in h.lists && p < |h.lists[t]|
    ensures PosOk(h, t, p) && Ok(Removed(h, t, p))
  {
    hide ListOk, SlotOk, Removed;
    assert ListOk(h, t);
    RemoveKeys(h, t, p);
    var h' := Removed(h, t, p);
    forall u | u in h'.lists ensures ListOk(h', u) {
      if u == t { RemoveOwnList(h, t, p); } else { RemoveOtherList(h, t, p, u); }
    }
    forall r | r in h'.owner ensures SlotOk(h', r) { RemoveSlot(h, t, p, r); }
  }

  function WithBlock(h: Heap, t: nat): Heap {
    Heap(h.first[t := To(t, 2)], h.next[Slot(t, 0) := Null][Slot(t, 1) := Null],
         h.lists[t := []], h.owner[Slot(t, 0) := None][Slot(t, 1) := None])
  }

  lemma NewBlockList(h: Heap, t: nat, u: nat)
    requires u == t || (ListOk(h, u) && Slot(t, 0) !in h.next && Slot(t, 1) !in h.next)
    ensures ListOk(WithBlock(h, t), u)
  {
    if u != t {
      forall i | 0 <= i < |h.lists[u]| ensures PosOk(WithBlock(h, t), u, i) { assert PosOk(h, u, i); }
    }
  }

  lemma NewBlockSlot(h: Heap, t: nat, r: Slot)
    requires t !in h.lists && (r == Slot(t, 0) || r == Slot(t, 1) || SlotOk(h, r))
    ensures SlotOk(WithBlock(h, t), r)
  {}

  lemma NewBlockOk(h: Heap, t: nat)
    requires Ok(h) && t !in h.first
    ensures Ok(WithBlock(h, t))
  {
    hide ListOk, SlotOk;
    var h' := WithBlock(h, t);
    forall u | u in h'.lists ensures ListOk(h', u) { NewBlockList(h, t, u); }
    forall r | r in h'.owner ensures SlotOk(h', r) { NewBlockSlot(h, t, r); }
  }

  function Without(h: Heap, t: nat): Heap {
    var gone := {Slot(t, 0), Slot(t, 1)};
    Heap(h.first - {t}, h.next - gone, h.lists - {t}, h.owner - gone)
  }

  lemma DropList(h: Heap, t: nat, u: nat)
    requires ListOk(h, u) && u != t && Slot(t, 0) in h.owner && Slot(t, 1) in h.owner
    requires h.owner[Slot(t, 0)].None? && h.owner[Slot(t, 1)].None?
    ensures ListOk(Without(h, t), u)
  {
    forall i | 0 <= i < |h.lists[u]| ensures PosOk(Without(h, t), u, i) { assert PosOk(h, u, i); }
  }

  lemma DropSlot(h: Heap, t: nat, r: Slot)
    requires SlotOk(h, r) && r != Slot(t, 0) && r != Slot(t, 1) && t in h.lists && h.lists[t] == []
    ensures SlotOk(Without(h, t), r)
  {}

  /** A block that nothing jumps to and that jumps nowhere can go. */
  lemma DropBlockOk(h: Heap, t: nat)
    requires Ok(h) && t in h.first && h.lists[t] == []
    requires h.owner[Slot(t, 0)].None? && h.owner[Slot(t, 1)].None?
    ensures Ok(Without(h, t))
  {
    hide ListOk, SlotOk;
    var h' := Without(h, t);
    forall u | u in h'.lists ensures ListOk(h', u) { DropList(h, t, u); }
    forall r | r in h'.owner ensures SlotOk(h', r) { DropSlot(h, t, r); }
  }

  /** What the pointer before position q of a list holds. */
  lemma ReadPlace(h: Heap, t: nat, q: nat)
    requires Ok(h) && t in h.lists && q <= |h.lists[t]|
    ensures Read(h.first, h.next, PlaceOf(h.lists[t], q, t)) == LinkAt(h.lists[t], q, t)
    ensures q < |h.lists[t]| ==> h.lists[t][q].n < 2
  {
    assert ListOk(h, t);
    if q > 0 { assert PosOk(h, t, q - 1); }
    if q < |h.lists[t]| { assert PosOk(h, t, q); }
  }

  lemma ListHasNoDup(h: Heap, t: nat)
    requires Ok(h) && t in h.lists
    ensures NoDup(h.lists[t])
  {
    assert ListOk(h, t);
  }

  lemma Domains(h: Heap)
    requires Ok(h)
    ensures h.first.Keys == h.lists.Keys && h.next.Keys == h.owner.Keys
    ensures forall s :: s in h.next <==> s.tb in h.first && s.n < 2
  {}

  /** The list a linked slot is in, and its position there. */
  lemma Located(h: Heap, s: Slot) returns (t: nat, p: nat)
    requires Ok(h) && s in h.next && h.next[s] != Null
    ensures s in h.owner && h.owner[s] == Some(t) && t in h.lists && p < |h.lists[t]| && h.lists[t][p] == s
  {
    assert SlotOk(h, s);
    t := h.owner[s].value;
    p :| 0 <= p < |h.lists[t]| && h.lists[t][p] == s;
  }

  class Jumps {
    var first: map<nat, Link>  // jmp_first
    var next: map<Slot, Link>  // jmp_next
    var dest: Graph
    ghost var lists: map<nat, seq<Slot>>
    ghost var owner: Graph

    ghost function H(): Heap
      reads this
    {
      Heap(first, next, lists, owner)
    }

    /** The pointers form the lists, and the generated code jumps exactly as the lists say. */
    ghost predicate Valid()
      reads this
    {
      Ok(H()) && dest == owner
    }

    constructor ()
      ensures Valid() && first == map[] && dest == map[]
    {
      first, next, dest, lists, owner := map[], map[], map[], map[], map[];
    }

    /** tb_flush: no block is linked any more. */
    method Clear()
      modifies this
      ensures Valid() && first == map[] && dest == map[]
    {
      first, next, dest, lists, owner := map[], map[], map[], map[], map[];
    }

    /** The end of tb_link_page: a new block has no jumps in either direction. */
    method AddBlock(t: nat)
      requires Valid() && t !in first
      modifies this
      ensures Valid() && first.Keys == old(first.Keys) + {t}
      ensures dest == old(dest)[Slot(t, 0) := None][Slot(t, 1) := None]
    {
      hide Ok;
      Domains(H());
      NewBlockOk(H(), t);
      first := first[t := To(t, 2)];
      next := next[Slot(t, 0) := Null][Slot(t, 1) := Null];
      dest := dest[Slot(t, 0) := None][Slot(t, 1) := None];
      lists := lists[t := []];
      owner := owner[Slot(t, 0) := None][Slot(t, 1) := None];
    }

    /** tb_add_jump */
    method AddJump(tb: nat, n: nat, t: nat)
      requires Valid() && tb in first && t in first && n < 2
      modifies this
      ensures Valid() && first.Keys == old(first.Keys)
      ensures old(dest)[Slot(tb, n)].None? ==> dest == old(dest)[Slot(tb, n) := Some(t)]
                                               && lists == old(lists)[t := [Slot(tb, n)] + old(lists)[t]]
      ensures old(dest)[Slot(tb, n)].Some? ==> dest == old(dest) && lists == old(lists)
    {
      hide Ok;
      var s := Slot(tb, n);
      Domains(H());
      NullHasNoOwner(H(), s);
      if next[s] == Null {
        PushOk(H(), s, t);
        dest := dest[s := Some(t)];
        next := next[s := first[t]];
        first := first[t := To(tb, n)];
        lists := lists[t := [s] + lists[t]];
        owner := owner[s := Some(t)];
      }
    }

    /** Makes the pointer before slot s skip it, and makes s null. */
    method Cut(place: Place, s: Slot, ghost t: nat, ghost p: nat)
      requires Ok(H()) && t in lists && p < |lists[t]| && lists[t][p] == s && place == PlaceOf(lists[t], p, t)
      modifies this`first, this`next, this`lists, this`owner
      ensures Ok(H()) && first.Keys == old(first.Keys) && owner == old(owner)[s := None]
    {
      hide Ok;
      ghost var h := H();
      RemoveOk(h, t, p);
      Domains(h);
      match place {
        case First(u) => first := first[u := next[s]];
        case Next(r) => next := next[r := next[s]];
      }
      next := next[s := Null];
      lists := lists[t := lists[t][..p] + lists[t][p + 1..]];
      owner := owner[s := None];
      assert H() == Removed(h, t, p);
    }

    /** tb_jmp_remove: takes slot (tb, n) out of the list it is in, but leaves the code as it is. */
    method JmpRemove(tb: nat, n: nat)
      requires Ok(H()) && tb in first && n < 2
      modifies this`first, this`next, this`lists, this`owner
      ensures Ok(H()) && first.Keys == old(first.Keys) && owner == old(owner)[Slot(tb, n) := None]
    {
      hide Ok;
      var s := Slot(tb, n);
      ghost var h := H();
      Domains(h);
      NullHasNoOwner(h, s);
      if next[s] == Null { return; }
      ghost var t, p := Located(h, s);
      ghost var list := lists[t];
      ListHasNoDup(h, t);
      ghost var q := p + 1;
      var place := Next(s);
      while true
        invariant 0 <= q <= |list| && place == PlaceOf(list, q, t) && H() == h
        decreases if q > p then |list| - q + p + 1 else p - q
      {
        ReadPlace(h, t, q);
        var l := Read(first, next, place);
        if l == To(tb, n) { break; }
        if l.tag == 2 {
          place, q := First(l.tb), 0;
        } else {
          place, q := Next(Slot(l.tb, l.tag)), q + 1;
        }
      }
      Cut(place, s, t, p);
    }

    /** The end of tb_phys_invalidate: every jump to tb goes back to the exit of its block. */
    method ResetIncoming(tb: nat)
      requires Ok(H()) && AgreeExcept(dest, owner, tb) && tb in first
      modifies this
      ensures Ok(H()) && AgreeExcept(dest, owner, tb) && first.Keys == old(first.Keys)
      ensures tb in lists && lists[tb] == [] && owner == Detached(old(owner), tb)
    {
      hide Ok, AgreeExcept, Detached, LinkAt;
      ghost var h := H();
      Domains(h);
      ReadPlace(h, tb, 0);
      var l := first[tb];
      while l.tag != 2
        invariant Ok(h) && tb in h.lists && l == LinkAt(h.lists[tb], 0, tb)
        invariant h.first == old(first)[tb := l] && h.next == next && first == old(first)
        invariant AgreeExcept(dest, h.owner, tb) && Detached(h.owner, tb) == Detached(old(owner), tb)
        decreases |h.lists[tb]|
      {
        var s := Slot(l.tb, l.tag);
        PopHead(h, tb);
        AgreeAfterReset(dest, h.owner, tb, s);
        var after := next[s];
        h := Popped(h, tb);
        dest := dest[s := None];
        next := next[s := Null];
        l := after;
      }
      LastPopped(h, tb);
      NoneDetached(h, tb);
      first := first[tb := To(tb, 2)];
      lists, owner := h.lists, h.owner;
      assert H() == h;
    }

    /** From here on the block is not linked. */
    method Unlink(tb: nat)
      requires Ok(H()) && tb in first && tb in lists && lists[tb] == []
      requires Slot(tb, 0) in owner && owner[Slot(tb, 0)].None? && Slot(tb, 1) in owner && owner[Slot(tb, 1)].None?
      modifies this
      ensures Ok(H()) && first.Keys == old(first.Keys) - {tb}
      ensures dest == old(dest) - {Slot(tb, 0), Slot(tb, 1)} && owner == old(owner) - {Slot(tb, 0), Slot(tb, 1)}
    {
      hide Ok;
      ghost var h := H();
      DropBlockOk(h, tb);
      var gone := {Slot(tb, 0), Slot(tb, 1)};
      first, next, dest := first - {tb}, next - gone, dest - gone;
      lists, owner := lists - {tb}, owner - gone;
      assert H() == Without(h, tb);
    }

    /** The jump part of tb_phys_invalidate: tb leaves the lists it is in, and no jump to it remains. */
    method Invalidate(tb: nat)
      requires Valid() && tb in first
      modifies this
      ensures Valid() && first.Keys == old(first.Keys) - {tb}
      ensures dest == Detached(old(dest) - {Slot(tb, 0), Slot(tb, 1)}, tb)
      ensures forall s :: s in dest <==> s in old(dest) && s.tb != tb
      ensures forall s :: s in dest ==> dest[s] == if old(dest)[s] == Some(tb) then None else old(dest)[s]
    {
      hide Ok, AgreeExcept, Detached;
      Domains(H());
      ghost var was := dest;
      AgreeReflexive(dest, tb, Slot(tb, 0), Slot(tb, 1));
      JmpRemove(tb, 0);
      JmpRemove(tb, 1);
      ResetIncoming(tb);
      DetachAndDrop(was, owner, dest, tb);
      Domains(H());
      Unlink(tb);
      DetachedMeans(was, tb);
    }
  }

  function Popped(h: Heap, t: nat): Heap
    requires t in h.lists && h.lists[t] != [] && h.lists[t][0] in h.next
  {
    var s := h.lists[t][0];
    Heap(h.first[t := h.next[s]], h.next[s := Null], h.lists[t := h.lists[t][1..]], h.owner[s := None])
  }

  /** The first slot of the list of t leaves it. */
  lemma PopHead(h: Heap, t: nat)
    requires Ok(h) && t in h.lists && t in h.first && h.first[t].To? && h.first[t].tag != 2
    ensures h.lists[t] != [] && h.first[t] == LinkTo(h.lists[t][0])
    ensures var s := h.lists[t][0]; s in h.next && s in h.owner && h.next[s] == LinkAt(h.lists[t][1..], 0, t)
    ensures Ok(Popped(h, t)) && Detached(Popped(h, t).owner, t) == Detached(h.owner, t)
  {
    hide Ok;
    ReadPlace(h, t, 0);
    RemoveOk(h, t, 0);
    assert h.lists[t][..0] + h.lists[t][1..] == h.lists[t][1..];
  }

  lemma LastPopped(h: Heap, t: nat)
    requires Ok(h) && t in h.lists && LinkAt(h.lists[t], 0, t).tag == 2
    ensures h.lists[t] == [] && LinkAt([], 0, t) == To(t, 2)
  {
    hide Ok;
    ReadPlace(h, t, 0);
  }

  lemma AgreeReflexive(g: Graph, tb: nat, s: Slot, r: Slot)
    requires s.tb == r.tb == tb && s in g && r in g
    ensures AgreeExcept(g, g[s := None][r := None], tb)
  {}

  lemma AgreeAfterReset(dest: Graph, owner: Graph, tb: nat, s: Slot)
    requires AgreeExcept(dest, owner, tb) && s in owner
    ensures AgreeExcept(dest[s := None], owner[s := None], tb)
  {}

  ghost predicate AgreeExcept(dest: Graph, owner: Graph, tb: nat) {
    dest.Keys == owner.Keys && forall s :: s in dest && s.tb != tb ==> dest[s] == owner[s]
  }

  /** No slot jumps to t any more. */
  function Detached(g: Graph, t: nat): Graph {
    map s | s in g :: if g[s] == Some(t) then None else g[s]
  }

  lemma DetachedMeans(g: Graph, t: nat)
    requires forall s :: s in g && s.tb == t ==> s.n < 2
    ensures var d := Detached(g - {Slot(t, 0), Slot(t, 1)}, t);
      && (forall s :: s in d <==> s in g && s.tb != t)
      && forall s :: s in d ==> d[s] == if g[s] == Some(t) then None else g[s]
  {}

  lemma DetachAndDrop(was: Graph, owner: Graph, dest: Graph, t: nat)
    requires Slot(t, 0) in was && Slot(t, 1) in was
    requires owner == Detached(was[Slot(t, 0) := None][Slot(t, 1) := None], t) && AgreeExcept(dest, owner, t)
    requires forall s :: s in was && s.tb == t ==> s.n < 2
    ensures dest - {Slot(t, 0), Slot(t, 1)} == owner - {Slot(t, 0), Slot(t, 1)}
                                            == Detached(was - {Slot(t, 0), Slot(t, 1)}, t)
    ensures owner[Slot(t, 0)].None? && owner[Slot(t, 1)].None?
  {}

  lemma NoneDetached(h: Heap, t: nat)
    requires Ok(h) && t in h.lists && h.lists[t] == []
    ensures Detached(h.owner, t) == h.owner
  {
    forall s | s in h.owner ensures h.owner[s] != Some(t) { assert SlotOk(h, s); }
  }

  lemma NullHasNoOwner(h: Heap, s: Slot)
    requires Ok(h) && s in h.owner
    ensures s in h.next && (h.next[s] == Null <==> h.owner[s].None?)
  {
    assert SlotOk(h, s);
    if h.owner[s].Some? {
      var t := h.owner[s].value;
      assert ListOk(h, t);
      var i :| 0 <= i < |h.lists[t]| && h.lists[t][i] == s;
      assert PosOk(h, t, i);
    }
  }
}
