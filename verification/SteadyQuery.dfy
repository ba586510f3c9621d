// Which queries are rewritten plainly although their operations share nodes: exactly those whose expansions can be
// walked to the end, unless a field that was left without selections has been taken for a leaf on the way.
module SteadyQuery {
  import opened Wrappers
  import opened SyntaxNodes
  import opened RemovedPaths
  import opened SharedGraph
  import opened ExpandedShape
  import opened PathRewriter
  import opened RewrittenQuery
  import opened SteadyRewriting
  import opened TakenForLeaf

  ghost predicate AllExpand(g: Graph, operations: seq<seq<Selection>>, hs: seq<Expansion>) {
    |hs| == |operations| && forall i | 0 <= i < |hs| :: Expands(g, operations[i], hs[i])
  }

  ghost function ExpansionsOf(g: Graph, rank: Ranks, bound: nat, operations: seq<seq<Selection>>): (hs: seq<Expansion>)
    requires Wired(rank, g) && AllBelow(rank, operations, bound)
    ensures AllExpand(g, operations, hs)
  {
    seq(|operations|, i requires 0 <= i < |operations| =>
      assert operations[i] in operations; ExpansionOf(rank, g, operations[i], bound))
  }

  /** Walks the expansions of the operations one after another. */
  ghost function WalkAll(hs: seq<Expansion>, removed: set<string>): Option<Met> {
    if hs == [] then Some(map[])
    else
      var last := |hs| - 1;
      var before :- WalkAll(hs[..last], removed);
      Walk(before, hs[last], [], removed)
  }

  /** Whenever a selection set is met again, it is to be rewritten as the first time, and is not that of a field left
      without selections. */
  ghost predicate Steady(hs: seq<Expansion>, removed: set<string>) {
    WalkAll(hs, removed).Some?
  }

  /** No field that had selections is ever taken for a leaf. */
  ghost predicate OperationsTakeNone(g: Graph, rank: Ranks, bound: nat, operations: seq<seq<Selection>>,
      removed: set<string>)
    requires Wired(rank, g) && AllBelow(rank, operations, bound)
  {
    operations == [] ||
    var last := |operations| - 1;
    && OperationsTakeNone(g, rank, bound, operations[..last], removed)
    && TakesNoneForLeaf(g, RewriteOperations(g, rank, bound, operations[..last], removed).graph, rank, bound,
                        operations[last], [], removed)
  }

  // ------------------------------------------------------------------ steady: plainly rewritten

  ghost predicate SteadySoFar(g: Graph, rank: Ranks, hs: seq<Expansion>, q: Query, m: Met, removed: set<string>)
    requires Wired(rank, g)
  {
    var held :=
      && Agrees(g, rank, q.graph, m, removed) && AllRewritten(hs, q, removed)
      && forall h <- hs :: AllFixed(m, g, Rewritten(h, [], removed));
    held
  }

  lemma SteadyNext(g: Graph, rank: Ranks, hs: seq<Expansion>, q: Query, m: Met, removed: set<string>, h: Expansion,
      r: Rewriting, m': Met, touched: set<Selection>)
    requires Wired(rank, g) && SteadySoFar(g, rank, hs, q, m, removed)
    requires Plainly(g, rank, q.graph, m, removed, r, m', Rewritten(h, [], removed), touched)
    ensures SteadySoFar(g, rank, hs + [h], Query(r.graph, q.operations + [r.out]), m', removed)
  {
    forall i | 0 <= i < |hs|
      ensures Expands(r.graph, q.operations[i], Rewritten(hs[i], [], removed))
    {
      assert hs[i] in hs;
      FixedStays(m, g, q.graph, r.graph, q.operations[i], Rewritten(hs[i], [], removed));
    }
    forall i <- hs + [h]
      ensures AllFixed(m', g, Rewritten(i, [], removed))
    {
      assert i in hs ==> AllFixed(m, g, Rewritten(i, [], removed));
    }
  }

  lemma {:induction false} OperationsSteady(g: Graph, rank: Ranks, bound: nat, operations: seq<seq<Selection>>,
      hs: seq<Expansion>, removed: set<string>)
    requires Wired(rank, g) && AllBelow(rank, operations, bound) && AllExpand(g, operations, hs) && Steady(hs, removed)
    ensures SteadySoFar(g, rank, hs, RewriteOperations(g, rank, bound, operations, removed),
      WalkAll(hs, removed).value, removed)
    ensures OperationsTakeNone(g, rank, bound, operations, removed)
    decreases |hs|
  {
    if hs == [] {
      NothingYetSteady(g, rank, removed);
    } else {
      var last := |hs| - 1;
      var before, m := RewriteOperations(g, rank, bound, operations[..last], removed),
          WalkAll(hs[..last], removed).value;
      OperationsSteady(g, rank, bound, operations[..last], hs[..last], removed);
      LastSteady(g, rank, bound, hs[..last], before, m, operations[last], hs[last], removed);
      FrontAndLast(hs);
    }
  }

  lemma NothingYetSteady(g: Graph, rank: Ranks, removed: set<string>)
    requires Wired(rank, g)
    ensures SteadySoFar(g, rank, [], Query(g, []), map[], removed)
  {
  }

  lemma LastSteady(g: Graph, rank: Ranks, bound: nat, hs: seq<Expansion>, q: Query, m: Met, operation: seq<Selection>,
      h: Expansion, removed: set<string>)
    requires Wired(rank, g) && Wired(rank, q.graph) && Below(rank, operation, bound) && Expands(g, operation, h)
    requires SteadySoFar(g, rank, hs, q, m, removed) && Walk(m, h, [], removed).Some?
    ensures var r := RewriteAll(q.graph, rank, bound, operation, [], removed);
      SteadySoFar(g, rank, hs + [h], Query(r.graph, q.operations + [r.out]), Walk(m, h, [], removed).value, removed)
    ensures TakesNoneForLeaf(g, q.graph, rank, bound, operation, [], removed)
  {
    WalkAgrees(g, rank, q.graph, bound, operation, h, m, [], removed);
    var r := RewriteAll(q.graph, rank, bound, operation, [], removed);
    SteadyNext(g, rank, hs, q, m, removed, h, r, Walk(m, h, [], removed).value, Members(h));
  }

  // ------------------------------------------------------------------ not steady: something is lost

  ghost predicate WantsAll(wanted: set<(Selection, Expansion)>, hs: seq<Expansion>, removed: set<string>) {
    forall h <- hs :: Wants(wanted, Rewritten(h, [], removed))
  }

  lemma {:induction false} OperationsRecord(g: Graph, rank: Ranks, operations: seq<seq<Selection>>, hs: seq<Expansion>,
      removed: set<string>, wanted: set<(Selection, Expansion)>)
    requires Wired(rank, g) && AllExpand(g, operations, hs) && Steady(hs, removed) && WantsAll(wanted, hs, removed)
    ensures Recorded(g, rank, WalkAll(hs, removed).value, removed, wanted)
    decreases |hs|
  {
    if hs != [] {
      var last := |hs| - 1;
      OperationsRecord(g, rank, operations[..last], hs[..last], removed, wanted);
      assert hs[last] in hs;
      WalkRecords(g, rank, operations[last], WalkAll(hs[..last], removed).value, hs[last], [], removed, wanted);
    }
  }

  lemma {:induction false} OperationsBreak(g: Graph, rank: Ranks, bodies: Bodies, bound: nat,
      operations: seq<seq<Selection>>, hs: seq<Expansion>, removed: set<string>, wanted: set<(Selection, Expansion)>)
    requires Wired(rank, g) && AllBelow(rank, operations, bound) && AllExpand(g, operations, hs)
    requires SpreadsLead(g, bodies) && WantsAll(wanted, hs, removed)
    requires !Steady(hs, removed) && OperationsTakeNone(g, rank, bound, operations, removed)
    ensures Broken(RewriteOperations(g, rank, bound, operations, removed).graph, wanted)
    decreases |hs|
  {
    var last := |hs| - 1;
    var before := RewriteOperations(g, rank, bound, operations[..last], removed);
    OperationsSettle(g, rank, bodies, bound, operations[..last], removed);
    assert WantsAll(wanted, hs[..last], removed) && hs[last] in hs;
    if Steady(hs[..last], removed) {
      OperationsSteady(g, rank, bound, operations[..last], hs[..last], removed);
      OperationsRecord(g, rank, operations[..last], hs[..last], removed, wanted);
      WalkBreaks(g, rank, bodies, before.graph, bound, operations[last], hs[last], WalkAll(hs[..last], removed).value,
          [], removed, wanted);
    } else {
      OperationsBreak(g, rank, bodies, bound, operations[..last], hs[..last], removed, wanted);
      RewriteAllRewrites(before.graph, rank, bodies, bound, operations[last], [], removed);
      BrokenStays(before.graph, RewriteAll(before.graph, rank, bound, operations[last], [], removed).graph, rank,
          bodies, wanted);
    }
  }

  /** All that the plainly rewritten operations hold. */
  ghost function Wanted(hs: seq<Expansion>, removed: set<string>): (wanted: set<(Selection, Expansion)>)
    ensures WantsAll(wanted, hs, removed)
    ensures forall o <- wanted :: exists h <- hs :: o in Occurrences(Rewritten(h, [], removed))
  {
    if hs == [] then {}
    else
      assert hs[0] in hs && forall h <- hs[1..] :: h in hs;
      Occurrences(Rewritten(hs[0], [], removed)) + Wanted(hs[1..], removed)
  }

  lemma NotBroken(hs: seq<Expansion>, q: Query, removed: set<string>)
    requires AllRewritten(hs, q, removed)
    ensures !Broken(q.graph, Wanted(hs, removed))
  {
    forall o <- Wanted(hs, removed)
      ensures !BrokenAt(q.graph, o.0, o.1)
    {
      var h :| h in hs && o in Occurrences(Rewritten(h, [], removed));
      var i :| 0 <= i < |hs| && hs[i] == h;
      StandingIsNotBroken(q.graph, q.operations[i], Rewritten(h, [], removed), o.0, o.1);
    }
  }

  /** Main theorem, for any sharing and any entries: the operations come out plainly rewritten, without any field that
      had selections being taken for a leaf on the way, exactly when their expansions are steady. */
  lemma PlainlyIffSteady(g: Graph, rank: Ranks, bodies: Bodies, bound: nat, operations: seq<seq<Selection>>,
      hs: seq<Expansion>, removed: set<string>)
    requires Wired(rank, g) && AllBelow(rank, operations, bound) && SpreadsLead(g, bodies)
    requires AllExpand(g, operations, hs)
    ensures Steady(hs, removed) <==>
      && AllRewritten(hs, RewriteOperations(g, rank, bound, operations, removed), removed)
      && OperationsTakeNone(g, rank, bound, operations, removed)
  {
    var q := RewriteOperations(g, rank, bound, operations, removed);
    if Steady(hs, removed) {
      OperationsSteady(g, rank, bound, operations, hs, removed);
    } else if OperationsTakeNone(g, rank, bound, operations, removed) {
      OperationsBreak(g, rank, bodies, bound, operations, hs, removed, Wanted(hs, removed));
      if AllRewritten(hs, q, removed) {
        NotBroken(hs, q, removed);
        assert false;
      }
    }
  }

  // ------------------------------------------------------------------ entries that name leaf fields

  /** A field once taken for a leaf shows in some operation to the end. */
  lemma {:induction false} OperationsShow(g: Graph, rank: Ranks, bodies: Bodies, bound: nat,
      operations: seq<seq<Selection>>, removed: set<string>)
    returns (i: nat, z: Selection, above: set<Selection>)
    requires Wired(rank, g) && AllBelow(rank, operations, bound) && SpreadsLead(g, bodies)
    requires RemovesLeavesOnly(g, removed) && !OperationsTakeNone(g, rank, bound, operations, removed)
    ensures var q := RewriteOperations(g, rank, bound, operations, removed);
      i < |operations| && Emptied(g, q.graph, z, above) && HoldsAny(q.operations[i], above)
  {
    var last := |operations| - 1;
    var before := RewriteOperations(g, rank, bound, operations[..last], removed);
    OperationsSettle(g, rank, bodies, bound, operations[..last], removed);
    if OperationsTakeNone(g, rank, bound, operations[..last], removed) {
      i := last;
      LeavesStayEmpty(g, g, before.graph, bodies);
      z, above := TakenStays(g, rank, bodies, before.graph, bound, operations[last], [], removed);
    } else {
      i, z, above := OperationsShow(g, rank, bodies, bound, operations[..last], removed);
      AllKeepEmptied(g, rank, before.graph, bound, operations[last], [], removed, z, above);
    }
  }

  /** When no entry removes a field that has selections: the operations come out plainly rewritten exactly when their
      expansions are steady. */
  lemma LeavesRemovedIffSteady(g: Graph, rank: Ranks, bodies: Bodies, bound: nat, operations: seq<seq<Selection>>,
      hs: seq<Expansion>, removed: set<string>)
    requires Wired(rank, g) && AllBelow(rank, operations, bound) && SpreadsLead(g, bodies)
    requires AllExpand(g, operations, hs) && RemovesLeavesOnly(g, removed)
    ensures Steady(hs, removed) <==>
      AllRewritten(hs, RewriteOperations(g, rank, bound, operations, removed), removed)
  {
    var q := RewriteOperations(g, rank, bound, operations, removed);
    PlainlyIffSteady(g, rank, bodies, bound, operations, hs, removed);
    if AllRewritten(hs, q, removed) && !OperationsTakeNone(g, rank, bound, operations, removed) {
      var i, z, above := OperationsShow(g, rank, bodies, bound, operations, removed);
      RewrittenTrueLeaves(g, operations[i], hs[i], [], removed);
      TrueLeavesAboveNone(g, q.graph, q.operations[i], Rewritten(hs[i], [], removed), z, above);
      assert false;
    }
  }

  /** Steady operations keep precisely the leaf paths no entry removes, in order. */
  lemma SteadyRemainsExactly(g: Graph, rank: Ranks, bound: nat, operations: seq<seq<Selection>>, hs: seq<Expansion>,
      entries: seq<string>, i: nat)
    returns (h': Expansion)
    requires Wired(rank, g) && AllBelow(rank, operations, bound) && AllNamesClean(g)
    requires AllExpand(g, operations, hs) && i < |hs| && Steady(hs, RemovedSet(entries))
    ensures var q := RewriteOperations(g, rank, bound, operations, RemovedSet(entries));
      Expands(q.graph, q.operations[i], h') && Leaves(h') == Remaining(Leaves(hs[i]), entries)
  {
    OperationsSteady(g, rank, bound, operations, hs, RemovedSet(entries));
    h' := Rewritten(hs[i], [], RemovedSet(entries));
    RewrittenKeeps(hs[i], [], RemovedSet(entries));
    LeavesNamed(g, operations[i], hs[i]);
    KeepIsRemaining(Leaves(hs[i]), entries);
  }
}
