// A field that was left without selections and is then taken for a leaf stays where it was put, unless some field is
// removed by its own path. So entries that name leaf fields only cannot make good for it.
module TakenForLeaf {
  import opened SyntaxNodes
  import opened RemovedPaths
  import opened SharedGraph
  import opened ExpandedShape
  import opened PathRewriter
  import opened SteadyRewriting

  /** Entries that remove no field with selections, wherever it stands. */
  ghost predicate RemovesLeavesOnly(g0: Graph, removed: set<string>) {
    forall s, parent | s in g0 && s.FieldSelection? && g0[s] != [] :: !ShouldRemove(parent + [s.field.name], removed)
  }

  /** z had selections and has none left; `above` are z and the selections it stands below. */
  ghost predicate Emptied(g0: Graph, g: Graph, z: Selection, above: set<Selection>) {
    var held :=
      && g.Keys == g0.Keys && (forall s <- g | IsLeaf(g0, s) :: g[s] == [])
      && z in g && z in above && z.FieldSelection? && g0[z] != [] && g[z] == []
      && forall s <- g | s != z :: s in above <==> HoldsAny(g[s], above);
    held
  }

  ghost predicate HoldsAny(sels: seq<Selection>, above: set<Selection>) {
    exists s <- sels :: s in above
  }

  ghost predicate Above(rank: Ranks, g: Graph, z: Selection, s: Selection)
    requires Wired(rank, g) && s in g
    decreases rank[s]
  {
    s == z || exists t <- g[s] :: Above(rank, g, z, t)
  }

  lemma EmptiedNow(g0: Graph, rank: Ranks, g: Graph, z: Selection) returns (above: set<Selection>)
    requires Wired(rank, g) && g.Keys == g0.Keys && forall s <- g | IsLeaf(g0, s) :: g[s] == []
    requires z in g && z.FieldSelection? && g0[z] != [] && g[z] == []
    ensures Emptied(g0, g, z, above)
  {
    above := set s | s in g && Above(rank, g, z, s);
    forall s <- g | s != z
      ensures s in above <==> HoldsAny(g[s], above)
    {
      assert forall t <- g[s] :: t in above <==> Above(rank, g, z, t);
    }
  }

  /** A call leaves z where it is, and returns something above it just when it was given something above it. */
  ghost predicate KeepsEmptied(g0: Graph, z: Selection, above: set<Selection>, sels: seq<Selection>, r: Rewriting) {
    Emptied(g0, r.graph, z, above) && (HoldsAny(sels, above) <==> HoldsAny(r.out, above))
  }

  lemma HoldsAnyConcat(a: seq<Selection>, b: seq<Selection>, above: set<Selection>)
    ensures HoldsAny(a + b, above) <==> HoldsAny(a, above) || HoldsAny(b, above)
  {
    assert forall s :: s in a + b <==> s in a || s in b;
  }

  lemma EmptiedStored(g0: Graph, g: Graph, z: Selection, above: set<Selection>, s: Selection, out: seq<Selection>)
    requires Emptied(g0, g, z, above) && s in g && s != z && !IsLeaf(g0, s)
      && (HoldsAny(out, above) <==> HoldsAny(g[s], above))
    ensures Emptied(g0, g[s := out], z, above)
  {
  }

  lemma {:induction false} AllKeepEmptied(g0: Graph, rank: Ranks, g: Graph, bound: nat, sels: seq<Selection>,
      parent: Path, removed: set<string>, z: Selection, above: set<Selection>)
    requires Wired(rank, g) && Below(rank, sels, bound) && Emptied(g0, g, z, above) && RemovesLeavesOnly(g0, removed)
    ensures KeepsEmptied(g0, z, above, sels, RewriteAll(g, rank, bound, sels, parent, removed))
    decreases bound, 1, |sels|
  {
    if sels != [] {
      var s := sels[0];
      assert s in sels && sels == [s] + sels[1..];
      OneKeepsEmptied(g0, rank, g, bound, s, parent, removed, z, above);
      var a := RewriteOne(g, rank, bound, s, parent, removed);
      AllKeepEmptied(g0, rank, a.graph, bound, sels[1..], parent, removed, z, above);
      HoldsAnyConcat([s], sels[1..], above);
      HoldsAnyConcat(a.out, RewriteAll(a.graph, rank, bound, sels[1..], parent, removed).out, above);
    }
  }

  lemma {:induction false} OneKeepsEmptied(g0: Graph, rank: Ranks, g: Graph, bound: nat, s: Selection, parent: Path,
      removed: set<string>, z: Selection, above: set<Selection>)
    requires Wired(rank, g) && s in rank && rank[s] < bound && Emptied(g0, g, z, above)
      && RemovesLeavesOnly(g0, removed)
    ensures KeepsEmptied(g0, z, above, [s], RewriteOne(g, rank, bound, s, parent, removed))
    decreases bound, 0
  {
    assert HoldsAny([s], above) <==> s in above;
    match s {
      case FieldSelection(n) =>
        if g[s] != [] {
          assert !IsLeaf(g0, s) && !ShouldRemove(parent + [n.name], removed);
          SetKeepsEmptied(g0, rank, g, bound, s, parent + [n.name], parent, removed, z, above);
        } else {
          assert s in above <==> s == z;
          assert s == z ==> !ShouldRemove(parent + [n.name], removed);
        }
      case InlineSelection(n) => SetKeepsEmptied(g0, rank, g, bound, s, parent, parent, removed, z, above);
      case SpreadSelection(n) => AllKeepEmptied(g0, rank, g, rank[s], g[s], parent, removed, z, above);
    }
  }

  lemma {:induction false} SetKeepsEmptied(g0: Graph, rank: Ranks, g: Graph, bound: nat, s: Selection, path: Path,
      parent: Path, removed: set<string>, z: Selection, above: set<Selection>)
    requires Wired(rank, g) && s in rank && rank[s] < bound && Emptied(g0, g, z, above)
      && RemovesLeavesOnly(g0, removed)
    requires !s.SpreadSelection? && StandsAt(s, parent, path) && !IsLeaf(g0, s) && s != z
    requires s.FieldSelection? ==> g[s] != [] && !ShouldRemove(path, removed)
    ensures KeepsEmptied(g0, z, above, [s], RewriteOne(g, rank, bound, s, parent, removed))
    decreases rank[s], 2
  {
    var below := RewriteAll(g, rank, rank[s], g[s], path, removed);
    AllKeepEmptied(g0, rank, g, rank[s], g[s], path, removed, z, above);
    assert HoldsAny(g[s], above) <==> HoldsAny(below.graph[s], above);
    EmptiedStored(g0, below.graph, z, above, s, below.out);
    assert HoldsAny([s], above) <==> s in above;
  }

  // ------------------------------------------------------------------ from the moment a field is taken for a leaf

  ghost predicate LeavesEmpty(g0: Graph, g: Graph) {
    g.Keys == g0.Keys && forall s <- g | IsLeaf(g0, s) :: g[s] == []
  }

  lemma NothingInlined(out: seq<Selection>, bodies: Bodies)
    requires out != []
    ensures !Inlines(out, [], bodies)
  {
    forall k: nat
      ensures !From(k, out[0], [], bodies)
    {
    }
    assert out[0] in out;
  }

  lemma LeavesStayEmpty(g0: Graph, g: Graph, g': Graph, bodies: Bodies)
    requires LeavesEmpty(g0, g) && Evolved(g, g', bodies)
    ensures LeavesEmpty(g0, g')
  {
    forall s <- g' | IsLeaf(g0, s)
      ensures g'[s] == []
    {
      if g'[s] != [] {
        NothingInlined(g'[s], bodies);
      }
    }
  }

  lemma {:induction false} TakenStays(g0: Graph, rank: Ranks, bodies: Bodies, g: Graph, bound: nat,
      sels: seq<Selection>, parent: Path, removed: set<string>) returns (z: Selection, above: set<Selection>)
    requires Wired(rank, g) && Below(rank, sels, bound) && SpreadsLead(g, bodies) && LeavesEmpty(g0, g)
    requires RemovesLeavesOnly(g0, removed) && !TakesNoneForLeaf(g0, g, rank, bound, sels, parent, removed)
    ensures var r := RewriteAll(g, rank, bound, sels, parent, removed);
      Emptied(g0, r.graph, z, above) && HoldsAny(r.out, above)
    decreases bound, 1, |sels|
  {
    var s := sels[0];
    assert s in sels;
    var a := RewriteOne(g, rank, bound, s, parent, removed);
    RewriteOneRewrites(g, rank, bodies, bound, s, parent, removed);
    LeavesStayEmpty(g0, g, a.graph, bodies);
    var b := RewriteAll(a.graph, rank, bound, sels[1..], parent, removed);
    if !TakesOneForNoLeaf(g0, g, rank, bound, s, parent, removed) {
      z, above := OneTakenStays(g0, rank, bodies, g, bound, s, parent, removed);
      AllKeepEmptied(g0, rank, a.graph, bound, sels[1..], parent, removed, z, above);
    } else {
      z, above := TakenStays(g0, rank, bodies, a.graph, bound, sels[1..], parent, removed);
    }
    HoldsAnyConcat(a.out, b.out, above);
  }

  lemma {:induction false} OneTakenStays(g0: Graph, rank: Ranks, bodies: Bodies, g: Graph, bound: nat, s: Selection,
      parent: Path, removed: set<string>) returns (z: Selection, above: set<Selection>)
    requires Wired(rank, g) && s in rank && rank[s] < bound && SpreadsLead(g, bodies) && LeavesEmpty(g0, g)
    requires RemovesLeavesOnly(g0, removed) && !TakesOneForNoLeaf(g0, g, rank, bound, s, parent, removed)
    ensures var r := RewriteOne(g, rank, bound, s, parent, removed);
      Emptied(g0, r.graph, z, above) && HoldsAny(r.out, above)
    decreases bound, 0
  {
    match s {
      case FieldSelection(n) =>
        if g[s] == [] {
          z := s;
          above := EmptiedNow(g0, rank, g, s);
          assert HoldsAny([s], above);
        } else {
          z, above := SetTakenStays(g0, rank, bodies, g, bound, s, parent + [n.name], parent, removed);
        }
      case InlineSelection(n) =>
        z, above := SetTakenStays(g0, rank, bodies, g, bound, s, parent, parent, removed);
      case SpreadSelection(n) =>
        z, above := TakenStays(g0, rank, bodies, g, rank[s], g[s], parent, removed);
    }
  }

  lemma {:induction false} SetTakenStays(g0: Graph, rank: Ranks, bodies: Bodies, g: Graph, bound: nat, s: Selection,
      path: Path, parent: Path, removed: set<string>) returns (z: Selection, above: set<Selection>)
    requires Wired(rank, g) && s in rank && rank[s] < bound && SpreadsLead(g, bodies) && LeavesEmpty(g0, g)
    requires RemovesLeavesOnly(g0, removed) && !TakesNoneForLeaf(g0, g, rank, rank[s], g[s], path, removed)
    requires !s.SpreadSelection? && StandsAt(s, parent, path)
    requires s.FieldSelection? ==> g[s] != [] && !ShouldRemove(path, removed)
    ensures var r := RewriteOne(g, rank, bound, s, parent, removed);
      Emptied(g0, r.graph, z, above) && HoldsAny(r.out, above)
    decreases rank[s], 2
  {
    z, above := TakenStays(g0, rank, bodies, g, rank[s], g[s], path, removed);
    var below := RewriteAll(g, rank, rank[s], g[s], path, removed);
    RewriteAllRewrites(g, rank, bodies, rank[s], g[s], path, removed);
    assert below.graph[s] == g[s];
    HeldBefore(g0, bodies, below.graph, g[s], below.out, z, above);
    EmptiedStored(g0, below.graph, z, above, s, below.out);
    assert HoldsAny([s], above);
  }

  /** What is returned was given: it stood there, or below a spread there. */
  lemma HeldBefore(g0: Graph, bodies: Bodies, g: Graph, sels: seq<Selection>, out: seq<Selection>, z: Selection,
      above: set<Selection>)
    requires Emptied(g0, g, z, above) && SpreadsLead(g, bodies) && Inlines(out, sels, bodies) && HoldsAny(out, above)
    requires (forall t <- sels :: t in g) && forall s <- g, t <- g[s] :: t in g
    ensures HoldsAny(sels, above)
  {
    var t :| t in out && t in above;
    var k: nat :| From(k, t, sels, bodies);
    FromHeld(g0, bodies, g, k, t, sels, z, above);
  }

  lemma {:induction false} FromHeld(g0: Graph, bodies: Bodies, g: Graph, k: nat, t: Selection, sels: seq<Selection>,
      z: Selection, above: set<Selection>)
    requires Emptied(g0, g, z, above) && SpreadsLead(g, bodies) && From(k, t, sels, bodies) && t in above
    requires (forall u <- sels :: u in g) && forall s <- g, u <- g[s] :: u in g
    ensures HoldsAny(sels, above)
  {
    if t !in sels {
      var u :| u in sels && FromSpread(k, t, u, bodies);
      FromHeld(g0, bodies, g, k - 1, t, g[u], z, above);
    }
  }

  /** An expansion whose leaves had no selections in the first place has nothing above z. */
  lemma {:induction false} TrueLeavesAboveNone(g0: Graph, g: Graph, sels: seq<Selection>, e: Expansion, z: Selection,
      above: set<Selection>)
    requires Emptied(g0, g, z, above) && Expands(g, sels, e) && TrueLeaves(g0, e)
    ensures !HoldsAny(sels, above)
    decreases e
  {
    if e.Sel? {
      TrueLeavesAboveNone(g0, g, sels[1..], e.rest, z, above);
      TrueLeavesAboveNone(g0, g, g[e.s], e.sub, z, above);
      assert sels == [e.s] + sels[1..];
      HoldsAnyConcat([e.s], sels[1..], above);
    }
  }
}
