/** Unchaining everything the CPU may be running (qemu/exec.c:1336-1379, 1618-1636): the
    recursion of tb_reset_jump_recursive over the graph of direct jumps. */
module Unchain {
  import opened Bytes
  import opened Links
  import opened JumpLists

  // ----- the graph of direct jumps

  ghost predicate Edge(g: Graph, u: nat, v: nat) {
    exists n :: 0 <= n < 2 && Slot(u, n) in g && g[Slot(u, n)] == Some(v)
  }

  ghost predicate IsPath(g: Graph, p: seq<nat>, a: nat, b: nat) {
    p != [] && p[0] == a && p[|p| - 1] == b && forall i :: 0 <= i < |p| - 1 ==> Edge(g, p[i], p[i + 1])
  }

  ghost predicate Reach(g: Graph, a: nat, b: nat) {
    exists p :: IsPath(g, p, a, b)
  }

  /** Block u jumps to no other block. */
  ghost predicate Cleared(g: Graph, u: nat) {
    forall v :: !Edge(g, u, v)
  }

  /** g' is g without some jumps; each jump left out starts at a block reachable from tb and
      leads to a block without jumps. */
  ghost predicate Unchained(g: Graph, g': Graph, tb: nat) {
    && g'.Keys == g.Keys
    && forall s :: s in g && g'[s] != g[s] ==>
         g'[s].None? && Reach(g, tb, s.tb) && (g[s].Some? ==> Cleared(g', g[s].value))
  }

  lemma EdgeInLarger(g: Graph, g': Graph, tb: nat, u: nat, v: nat)
    requires Unchained(g, g', tb) && Edge(g', u, v)
    ensures Edge(g, u, v)
  {
    var n :| 0 <= n < 2 && Slot(u, n) in g' && g'[Slot(u, n)] == Some(v);
    assert g[Slot(u, n)] == Some(v);
  }

  lemma ReachInLarger(g: Graph, g': Graph, tb: nat, a: nat, b: nat)
    requires Unchained(g, g', tb) && Reach(g', a, b)
    ensures Reach(g, a, b)
  {
    var p :| IsPath(g', p, a, b);
    forall i | 0 <= i < |p| - 1 ensures Edge(g, p[i], p[i + 1]) { EdgeInLarger(g, g', tb, p[i], p[i + 1]); }
    assert IsPath(g, p, a, b);
  }

  lemma ReachSelf(g: Graph, a: nat)
    ensures Reach(g, a, a)
  {
    assert IsPath(g, [a], a, a);
  }

  lemma UnchainedTwice(g: Graph, g1: Graph, g2: Graph, tb: nat)
    requires Unchained(g, g1, tb) && Unchained(g1, g2, tb)
    ensures Unchained(g, g2, tb)
  {
    forall s | s in g && g2[s] != g[s]
      ensures g2[s].None? && Reach(g, tb, s.tb) && (g[s].Some? ==> Cleared(g2, g[s].value))
    {
      if g1[s] == g[s] {
        ReachInLarger(g, g1, tb, tb, s.tb);
      } else if g[s].Some? {
        forall v ensures !Edge(g2, g[s].value, v) {
          if Edge(g2, g[s].value, v) { EdgeInLarger(g1, g2, tb, g[s].value, v); }
        }
      }
    }
  }

  lemma BothSlotsCleared(g: Graph, g': Graph, tb: nat)
    requires Unchained(g, g', tb) && Slot(tb, 0) in g && g[Slot(tb, 0)].None?
    requires Slot(tb, 1) in g' && g'[Slot(tb, 1)].None?
    ensures Cleared(g', tb)
  {
    assert g'[Slot(tb, 0)].None?;
  }

  /** Taking out the jump tb -> v and then unchaining from v unchains from tb. */
  lemma UnchainedAcross(g: Graph, g': Graph, s: Slot, v: nat)
    requires s in g && s.n < 2 && g[s] == Some(v) && Unchained(g[s := None], g', v) && Cleared(g', v)
    ensures Unchained(g, g', s.tb) && g'[s].None?
  {
    var g0 := g[s := None];
    ReachSelf(g, s.tb);
    assert Edge(g, s.tb, v);
    forall r | r in g && g'[r] != g[r]
      ensures g'[r].None? && Reach(g, s.tb, r.tb) && (g[r].Some? ==> Cleared(g', g[r].value))
    {
      if r != s {
        var p :| IsPath(g0, p, v, r.tb);
        var q := [s.tb] + p;
        forall i | 0 <= i < |q| - 1 ensures Edge(g, q[i], q[i + 1]) {
          if i > 0 {
            assert Edge(g0, p[i - 1], p[i]);
            var n :| 0 <= n < 2 && Slot(p[i - 1], n) in g0 && g0[Slot(p[i - 1], n)] == Some(p[i]);
            assert g[Slot(p[i - 1], n)] == Some(p[i]);
          }
        }
        assert IsPath(g, q, s.tb, r.tb);
      }
    }
  }

  lemma {:induction false} PathCleared(g: Graph, g': Graph, tb: nat, p: seq<nat>, k: nat)
    requires Unchained(g, g', tb) && Cleared(g', tb) && k < |p| && IsPath(g, p, tb, p[|p| - 1])
    ensures Cleared(g', p[k])
  {
    if k > 0 {
      PathCleared(g, g', tb, p, k - 1);
      assert Edge(g, p[k - 1], p[k]);
      var n :| 0 <= n < 2 && Slot(p[k - 1], n) in g && g[Slot(p[k - 1], n)] == Some(p[k]);
      assert !Edge(g', p[k - 1], p[k]);
    }
  }

  /** What unchaining from tb does to the graph, exactly: the blocks reachable from tb lose
      their jumps and every other block keeps its own. */
  lemma UnchainedExactly(g: Graph, g': Graph, tb: nat)
    requires Unchained(g, g', tb) && Cleared(g', tb) && forall s :: s in g ==> s.n < 2
    ensures forall s :: s in g ==> g'[s] == if Reach(g, tb, s.tb) then None else g[s]
  {
    forall s | s in g && Reach(g, tb, s.tb) ensures g'[s].None? {
      var p :| IsPath(g, p, tb, s.tb);
      PathCleared(g, g', tb, p, |p| - 1);
      if g'[s].Some? { assert Edge(g', s.tb, g'[s].value); }
    }
  }

  /** The chained slots; the recursion terminates because it removes one each time. */
  ghost function ChainedSlots(g: Graph): set<Slot> { set s | s in g && g[s].Some? }

  lemma LinksShrink(g: Graph, g': Graph, tb: nat)
    requires Unchained(g, g', tb)
    ensures |ChainedSlots(g')| <= |ChainedSlots(g)|
  {
    SubsetSize(ChainedSlots(g'), ChainedSlots(g));
  }

  lemma {:induction false} SubsetSize(a: set<Slot>, b: set<Slot>)
    requires a <= b
    ensures |a| <= |b| && (a != b ==> |a| < |b|)
  {
    assert b == a + (b - a);
  }

  // ----- the code

  /** tb_reset_jump_recursive2: the jump in slot (tb, n), if there is one, is taken out of the
      list of its target, and the target is unchained in turn. */
  method ResetJumpRecursive2(j: Jumps, tb: nat, n: nat)
    requires j.Valid() && tb in j.first && n < 2
    modifies j
    ensures j.Valid() && j.first.Keys == old(j.first.Keys)
    ensures Unchained(old(j.dest), j.dest, tb) && Slot(tb, n) in j.dest && j.dest[Slot(tb, n)].None?
    decreases |ChainedSlots(j.dest)|, 0
  {
    hide Ok, Reach, Cleared;
    var s := Slot(tb, n);
    ghost var g := j.dest;
    Domains(j.H());
    NullHasNoOwner(j.H(), s);
    if j.next[s] != Null {
      ghost var v := j.dest[s].value;
      var t := FindHead(j, s);
      UnlinkFrom(j, t, s);
      SubsetSize(ChainedSlots(j.dest), ChainedSlots(g) - {s});
      ResetJumpRecursive(j, t);
      UnchainedAcross(g, j.dest, s, t);
    }
  }

  /** tb_reset_jump_recursive: afterwards no block that was reachable from tb jumps anywhere. */
  method ResetJumpRecursive(j: Jumps, tb: nat)
    requires j.Valid() && tb in j.first
    modifies j
    ensures j.Valid() && j.first.Keys == old(j.first.Keys)
    ensures Unchained(old(j.dest), j.dest, tb) && Cleared(j.dest, tb)
    decreases |ChainedSlots(j.dest)|, 1
  {
    hide Ok, Reach, Cleared, Edge, Unchained;
    ghost var g := j.dest;
    ResetJumpRecursive2(j, tb, 0);
    ghost var g1 := j.dest;
    LinksShrink(g, g1, tb);
    ResetJumpRecursive2(j, tb, 1);
    UnchainedTwice(g, g1, j.dest, tb);
    BothSlotsCleared(g1, j.dest, tb);
  }

  /** Follows the list slot s is in to its end, which names the target of s. */
  method FindHead(j: Jumps, s: Slot) returns (t: nat)
    requires j.Valid() && s in j.next && j.next[s] != Null
    ensures s in j.dest && j.dest[s] == Some(t) && t in j.first
  {
    hide Ok;
    ghost var h := j.H();
    ghost var t0, p := Located(h, s);
    Domains(h);
    ghost var q := p + 1;
    ReadPlace(h, t0, q);
    var l := j.next[s];
    while l.tag != 2
      invariant 0 <= q <= |h.lists[t0]| && l == LinkAt(h.lists[t0], q, t0) && (q < |h.lists[t0]| ==> l.tag < 2)
      decreases |h.lists[t0]| - q
    {
      ReadPlace(h, t0, q + 1);
      q := q + 1;
      assert PlaceOf(h.lists[t0], q, t0) == Next(Slot(l.tb, l.tag));
      l := Read(j.first, j.next, Next(Slot(l.tb, l.tag)));
    }
    t := l.tb;
  }

  /** Walks the list of t from jmp_first to the pointer to s and makes it skip s; the jump of s
      goes back to the exit of its own block. */
  method UnlinkFrom(j: Jumps, t: nat, s: Slot)
    requires j.Valid() && s in j.dest && j.dest[s] == Some(t)
    modifies j
    ensures j.Valid() && j.first.Keys == old(j.first.Keys) && j.dest == old(j.dest)[s := None]
  {
    hide Ok;
    ghost var h := j.H();
    Domains(h);
    NullHasNoOwner(h, s);
    ghost var t0, p := Located(h, s);
    ghost var list := h.lists[t];
    ListHasNoDup(h, t);
    ghost var q := 0;
    var place := First(t);
    ReadPlace(h, t, 0);
    while Read(j.first, j.next, place) != To(s.tb, s.n)
      invariant 0 <= q <= p && place == PlaceOf(list, q, t) && j.H() == h && j.dest == old(j.dest)
      invariant Read(j.first, j.next, place) == LinkAt(list, q, t)
      decreases p - q
    {
      var l := Read(j.first, j.next, place);
      ReadPlace(h, t, q + 1);
      place, q := Next(Slot(l.tb, l.tag)), q + 1;
    }
    j.Cut(place, s, t, p);
    j.dest := j.dest[s := None];
  }

  /** cpu_unlink_tb on a running block. */
  method UnlinkTb(j: Jumps, tb: nat)
    requires j.Valid() && tb in j.first
    modifies j
    ensures j.Valid() && j.first.Keys == old(j.first.Keys) && j.dest.Keys == old(j.dest.Keys)
    ensures forall s :: s in j.dest ==> j.dest[s] == if Reach(old(j.dest), tb, s.tb) then None else old(j.dest)[s]
  {
    Domains(j.H());
    ghost var g := j.dest;
    ResetJumpRecursive(j, tb);
    UnchainedExactly(g, j.dest, tb);
  }
}
