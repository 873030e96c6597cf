/** The singly linked chains of the translation cache: tb_phys_hash through phys_hash_next, and
    PageDesc.first_tb through the tagged page_next (qemu/exec.c:791-821, 1206-1278;
    qemu/cpu-exec.c:98-131).  Both keep a head per key and a next link per slot; hash chains
    use slot 0 of each block only. */
module Chains {
  import opened Bytes
  import opened Links

  /** The pointers, the list each key heads, and the key whose list each slot is in. */
  datatype Chain = Chain(heads: map<nat, Link>, next: map<Slot, Link>, lists: map<nat, seq<Slot>>, owner: map<Slot,
                         nat>)

  function After(list: seq<Slot>, i: nat): Link
    requires i <= |list|
  {
    if i < |list| then LinkTo(list[i]) else Null
  }

  ghost predicate PosOk(c: Chain, k: nat, i: nat)
    requires k in c.lists && i < |c.lists[k]|
  {
    var list := c.lists[k];
    && list[i] in c.next && c.next[list[i]] == After(list, i + 1)
    && list[i] in c.owner && c.owner[list[i]] == k
  }

  ghost predicate ListOk(c: Chain, k: nat) {
    && k in c.heads && k in c.lists && c.heads[k] == After(c.lists[k], 0)
    && (forall i :: 0 <= i < |c.lists[k]| ==> PosOk(c, k, i))
    && NoDup(c.lists[k])
  }

  /** Each list is null-terminated and visits its slots once; a slot is in one list at most. */
  ghost predicate Ok(c: Chain) {
    && c.heads.Keys == c.lists.Keys
    && (forall k :: k in c.lists ==> ListOk(c, k))
    && (forall s :: s in c.owner ==> c.owner[s] in c.lists && s in c.lists[c.owner[s]])
  }

  function ListOf(lists: map<nat, seq<Slot>>, k: nat): seq<Slot> { if k in lists then lists[k] else [] }

  function HeadOf(heads: map<nat, Link>, k: nat): Link { if k in heads then heads[k] else Null }

  /** s becomes the first slot of the list of k. */
  function Pushed(c: Chain, k: nat, s: Slot): Chain {
    Chain(c.heads[k := LinkTo(s)], c.next[s := HeadOf(c.heads, k)],
          c.lists[k := [s] + ListOf(c.lists, k)], c.owner[s := k])
  }

  lemma PushOk(c: Chain, k: nat, s: Slot)
    requires Ok(c) && s !in c.owner
    ensures Ok(Pushed(c, k, s))
  {
    var c' := Pushed(c, k, s);
    forall u | u in c'.lists ensures ListOk(c', u) {
      if u in c.lists {
        assert ListOk(c, u);
        forall i | 0 <= i < |c.lists[u]| ensures c.lists[u][i] != s { assert PosOk(c, u, i); }
      }
      forall i | 0 <= i < |c'.lists[u]| ensures PosOk(c', u, i) {
        if u != k { assert PosOk(c, u, i); }
        else if i > 0 { assert PosOk(c, u, i - 1); }
      }
    }
  }

  function Cut(c: Chain, k: nat, p: nat): Chain
    requires k in c.lists && p < |c.lists[k]| && c.lists[k][p] in c.next
  {
    var list := c.lists[k];
    var s := list[p];
    Chain(if p == 0 then c.heads[k := c.next[s]] else c.heads,
          if p == 0 then c.next else c.next[list[p - 1] := c.next[s]],
          c.lists[k := list[..p] + list[p + 1..]], c.owner - {s})
  }

  lemma CutList(c: Chain, k: nat, p: nat, u: nat)
    requires ListOk(c, k) && p < |c.lists[k]| && ListOk(c, u)
    ensures PosOk(c, k, p) && ListOk(Cut(c, k, p), u)
  {
    assert PosOk(c, k, p);
    var c' := Cut(c, k, p);
    if p > 0 { assert PosOk(c, k, p - 1); }
    forall i | 0 <= i < |c'.lists[u]| ensures PosOk(c', u, i) {
      assert PosOk(c, u, if u != k || i < p then i else i + 1);
    }
  }

  lemma CutOk(c: Chain, k: nat, p: nat)
    requires Ok(c) && k in c.lists && p < |c.lists[k]|
    ensures PosOk(c, k, p) && Ok(Cut(c, k, p))
  {
    assert ListOk(c, k) && PosOk(c, k, p);
    var c', list := Cut(c, k, p), c.lists[k];
    forall u | u in c'.lists ensures ListOk(c', u) { CutList(c, k, p, u); }
    forall r | r in c'.owner ensures c'.owner[r] in c'.lists && r in c'.lists[c'.owner[r]] {
      if c.owner[r] == k {
        var i :| 0 <= i < |list| && list[i] == r;
        assert r == c'.lists[k][if i < p then i else i - 1];
      }
    }
  }

  function WithKeys(c: Chain, ks: set<nat>): Chain {
    c.(heads := map k | k in c.heads.Keys + ks :: HeadOf(c.heads, k),
       lists := map k | k in c.lists.Keys + ks :: ListOf(c.lists, k))
  }

  lemma WithKeysOk(c: Chain, ks: set<nat>)
    requires Ok(c)
    ensures Ok(WithKeys(c, ks)) && WithKeys(c, ks).heads.Keys == c.heads.Keys + ks
    ensures forall k: nat :: ListOf(WithKeys(c, ks).lists, k) == ListOf(c.lists, k)
  {
    var c' := WithKeys(c, ks);
    forall k | k in c'.lists ensures ListOk(c', k) {
      if k in c.lists {
        assert ListOk(c, k);
        forall i | 0 <= i < |c.lists[k]| ensures PosOk(c', k, i) { assert PosOk(c, k, i); }
      }
    }
  }

  /** The pointer before position q, and the slot it points to. */
  lemma Pointer(c: Chain, k: nat, q: nat)
    requires Ok(c) && q <= |ListOf(c.lists, k)|
    ensures q == 0 ==> HeadOf(c.heads, k) == After(ListOf(c.lists, k), 0) && c.heads.Keys == c.lists.Keys
    ensures q > 0 ==> var s := ListOf(c.lists, k)[q - 1]; s in c.next && c.next[s] == After(ListOf(c.lists, k), q)
    ensures q < |ListOf(c.lists, k)| ==>
              var s := ListOf(c.lists, k)[q]; k in c.lists && s in c.next && s in c.owner && c.owner[s] == k
  {
    if k in c.lists {
      assert ListOk(c, k);
      if q > 0 { assert PosOk(c, k, q - 1); }
      if q < |c.lists[k]| { assert PosOk(c, k, q); }
    }
  }

  lemma Position(c: Chain, s: Slot) returns (p: nat)
    requires Ok(c) && s in c.owner
    ensures c.owner[s] in c.lists && p < |c.lists[c.owner[s]]| && c.lists[c.owner[s]][p] == s
    ensures NoDup(c.lists[c.owner[s]])
  {
    assert ListOk(c, c.owner[s]);
    p :| 0 <= p < |c.lists[c.owner[s]]| && c.lists[c.owner[s]][p] == s;
  }

  /** Slot s has become first in the list of k; the others keep their order, and no other list has changed. */
  ghost predicate Fronted(lists: map<nat, seq<Slot>>, lists': map<nat, seq<Slot>>, k: nat, s: Slot) {
    && k in lists
    && exists p :: 0 <= p < |lists[k]| && lists[k][p] == s
                   && lists' == lists[k := [s] + lists[k][..p] + lists[k][p + 1..]]
  }

  class ChainTable {
    var heads: map<nat, Link>
    var next: map<Slot, Link>
    ghost var lists: map<nat, seq<Slot>>
    ghost var owner: map<Slot, nat>

    ghost function C(): Chain
      reads this
    {
      Chain(heads, next, lists, owner)
    }

    ghost predicate Valid()
      reads this
    {
      Ok(C())
    }

    constructor ()
      ensures Valid() && owner == map[] && forall k: nat :: ListOf(lists, k) == []
    {
      heads, next, lists, owner := map[], map[], map[], map[];
    }

    /** tb_flush: every head becomes null. */
    method Clear()
      requires Valid()
      modifies this
      ensures Valid() && owner == map[] && heads.Keys == old(heads.Keys)
      ensures forall k: nat :: ListOf(lists, k) == []
    {
      heads := map k | k in heads :: Null;
      lists, owner := map k | k in heads :: [], map[];
      forall k | k in lists ensures ListOk(C(), k) {}
    }

    /** page_find_alloc: the keys get empty lists, unless they have lists already. */
    method AllocKeys(ks: set<nat>)
      requires Valid()
      modifies this`heads, this`lists
      ensures Valid() && heads.Keys == old(heads.Keys) + ks
      ensures forall k: nat :: ListOf(lists, k) == ListOf(old(lists), k)
    {
      hide Ok;
      WithKeysOk(C(), ks);
      ghost var c := WithKeys(C(), ks);
      heads := map k | k in heads.Keys + ks :: HeadOf(heads, k);
      lists := c.lists;
      assert C() == c;
    }

    /** Insertion at the head (tb_link_page, tb_alloc_page). */
    method Push(k: nat, s: Slot)
      requires Valid() && s !in owner
      modifies this
      ensures Valid() && owner == old(owner)[s := k] && heads.Keys == old(heads.Keys) + {k}
      ensures lists == old(lists)[k := [s] + ListOf(old(lists), k)]
    {
      hide Ok;
      PushOk(C(), k, s);
      next := next[s := HeadOf(heads, k)];
      heads := heads[k := LinkTo(s)];
      lists, owner := lists[k := [s] + ListOf(lists, k)], owner[s := k];
    }

    /** tb_remove and tb_page_remove: walks from the head of k to the first slot of tb and cuts it out. */
    method Remove(k: nat, tb: nat, ghost s: Slot) returns (ghost p: nat)
      requires Valid() && s in owner && owner[s] == k && s.tb == tb
      requires forall r :: r in owner && owner[r] == k && r.tb == tb ==> r == s
      modifies this
      ensures Valid() && owner == old(owner) - {s}
      ensures k in old(lists) && p < |old(lists)[k]| && old(lists)[k][p] == s
      ensures lists == old(lists)[k := old(lists)[k][..p] + old(lists)[k][p + 1..]]
    {
      hide Ok;
      ghost var c := C();
      p := Position(c, s);
      ghost var list := lists[k];
      ghost var q := 0;
      var prev: Option<Slot>, cur := None, HeadOf(heads, k);
      Pointer(c, k, 0);
      while cur.tb != tb
        invariant 0 <= q <= p && cur == LinkTo(list[q]) && C() == c
        invariant prev == if q == 0 then None else Some(list[q - 1])
        decreases p - q
      {
        Pointer(c, k, q);
        Pointer(c, k, q + 1);
        prev := Some(Slot(cur.tb, cur.tag));
        cur, q := next[Slot(cur.tb, cur.tag)], q + 1;
      }
      Pointer(c, k, q);
      assert list[q] == s && q == p;
      CutOk(c, k, p);
      var after := next[Slot(cur.tb, cur.tag)];
      if prev.None? {
        heads := heads[k := after];
      } else {
        next := next[prev.value := after];
      }
      lists, owner := lists[k := list[..p] + list[p + 1..]], owner - {s};
      assert C() == Cut(c, k, p);
    }

    /** The move-to-front of tb_find_slow: prev is the slot before s, if any. */
    method MoveToFront(k: nat, prev: Option<Slot>, s: Slot, ghost p: nat)
      requires Valid() && k in lists && p < |lists[k]| && lists[k][p] == s
      requires prev == if p == 0 then None else Some(lists[k][p - 1])
      modifies this
      ensures Valid() && owner == old(owner)
      ensures lists == old(lists)[k := [s] + old(lists)[k][..p] + old(lists)[k][p + 1..]]
    {
      hide Ok;
      ghost var c := C();
      MoveOk(c, k, p);
      var after := next[s];
      if prev.None? {
        heads := heads[k := after];
      } else {
        next := next[prev.value := after];
      }
      next := next[s := HeadOf(heads, k)];
      heads := heads[k := LinkTo(s)];
      lists := lists[k := [s] + lists[k][..p] + lists[k][p + 1..]];
    }
  }

  lemma MoveOk(c: Chain, k: nat, p: nat)
    requires Ok(c) && k in c.lists && p < |c.lists[k]|
    ensures var s, list := c.lists[k][p], c.lists[k];
            && k in c.heads && s in c.next
            && var heads := if p == 0 then c.heads[k := c.next[s]] else c.heads;
               var next := if p == 0 then c.next else c.next[list[p - 1] := c.next[s]];
               Ok(Chain(heads[k := LinkTo(s)], next[s := HeadOf(heads, k)],
                        c.lists[k := [s] + list[..p] + list[p + 1..]], c.owner))
  {
    hide Ok;
    Pointer(c, k, p);
    Pointer(c, k, 0);
    CutOk(c, k, p);
    var s, list := c.lists[k][p], c.lists[k];
    PushOk(Cut(c, k, p), k, s);
    assert [s] + (list[..p] + list[p + 1..]) == [s] + list[..p] + list[p + 1..];
    assert (c.owner - {s})[s := k] == c.owner;
    assert c.lists[k := list[..p] + list[p + 1..]][k := [s] + (list[..p] + list[p + 1..])]
        == c.lists[k := [s] + list[..p] + list[p + 1..]];
  }
}
