// What rewriting a whole query comes to: the operations are rewritten one after another over the same nodes.
module RewrittenQuery {
  import opened SyntaxNodes
  import opened RemovedPaths
  import opened SharedGraph
  import opened ExpandedShape
  import opened PathRewriter

  /** The graph after all operations, and the new selection set of each. */
  datatype Query = Query(graph: Graph, operations: seq<seq<Selection>>)

  ghost predicate AllBelow(rank: Ranks, operations: seq<seq<Selection>>, bound: nat) {
    forall op <- operations :: Below(rank, op, bound)
  }

  /** RewriteQuery's loop over the operations. */
  ghost function RewriteOperations(g: Graph, rank: Ranks, bound: nat, operations: seq<seq<Selection>>,
      removed: set<string>): (q: Query)
    requires Wired(rank, g) && AllBelow(rank, operations, bound)
    ensures Wired(rank, q.graph) && AllBelow(rank, q.operations, bound) && |q.operations| == |operations|
  {
    if operations == [] then Query(g, [])
    else
      var last := |operations| - 1;
      var before := RewriteOperations(g, rank, bound, operations[..last], removed);
      var r := RewriteAll(before.graph, rank, bound, operations[last], [], removed);
      Query(r.graph, before.operations + [r.out])
  }

  // ------------------------------------------------------------------ removed at or above

  /** Some entry names the field at the end of the path, or one above it. */
  predicate Gone(path: Path, entries: seq<string>) {
    exists m, e | 0 < m <= |path| && e in entries :: Segments(e) == path[..m]
  }

  /** For a path of GraphQL names, losing it means that an entry's segments are the path or lead to it. */
  lemma LostIffGone(path: Path, entries: seq<string>)
    requires AreSegments(path)
    ensures Lost([], path, RemovedSet(entries)) <==> Gone(path, entries)
  {
    var removed := RemovedSet(entries);
    LostExactly([], path, removed);
    forall m | 0 < m <= |path|
      ensures ShouldRemove([] + path[..m], removed) <==> exists e <- entries :: Segments(e) == path[..m]
    {
      assert [] + path[..m] == path[..m];
      RemovedExactly(path[..m], entries);
    }
  }

  // ------------------------------------------------------------------ whatever is shared

  /** Nothing at or below a removed path, no spreads, and no field path that was not there. */
  ghost predicate Censored(g: Graph, sels: seq<Selection>, g': Graph, sels': seq<Selection>, removed: set<string>) {
    var held :=
      && AllInlined(g', sels')
      && forall path :: HasPath(g', sels', path) ==> HasPath(g, sels, path) && !Lost([], path, removed);
    held
  }

  /** What is known of the operations rewritten so far. */
  ghost predicate Settled(g: Graph, rank: Ranks, bodies: Bodies, operations: seq<seq<Selection>>, q: Query,
      removed: set<string>) {
    && Evolved(g, q.graph, bodies) && Wired(rank, q.graph) && |operations| == |q.operations|
    && forall i | 0 <= i < |operations| :: SettledAt(operations[i], bodies, q, i, removed)
  }

  ghost predicate SettledAt(sels: seq<Selection>, bodies: Bodies, q: Query, i: nat, removed: set<string>) {
    && i < |q.operations| && Inlines(q.operations[i], sels, bodies)
    && Spared(q.graph, q.operations[i], [], removed) && AllInlined(q.graph, q.operations[i])
  }

  lemma SettledStays(sels: seq<Selection>, rank: Ranks, bodies: Bodies, q: Query, i: nat, removed: set<string>,
      q': Query)
    requires SettledAt(sels, bodies, q, i, removed) && Wired(rank, q.graph) && Evolved(q.graph, q'.graph, bodies)
    requires i < |q'.operations| && q'.operations[i] == q.operations[i]
    ensures SettledAt(sels, bodies, q', i, removed)
  {
    SparedStays(q.graph, q'.graph, rank, bodies, q.operations[i], [], removed);
    forall k: nat
      ensures SpreadFree(k, q'.graph, q.operations[i])
    {
      SpreadFreeStays(k, q.graph, q'.graph, bodies, q.operations[i]);
    }
  }

  lemma {:induction false} OperationsSettle(g: Graph, rank: Ranks, bodies: Bodies, bound: nat,
      operations: seq<seq<Selection>>, removed: set<string>)
    requires Wired(rank, g) && AllBelow(rank, operations, bound) && SpreadsLead(g, bodies)
    ensures Settled(g, rank, bodies, operations, RewriteOperations(g, rank, bound, operations, removed), removed)
  {
    if operations == [] {
      Unchanged(g, rank, bodies, bound, [], [], removed);
    } else {
      var last := |operations| - 1;
      var before := RewriteOperations(g, rank, bound, operations[..last], removed);
      OperationsSettle(g, rank, bodies, bound, operations[..last], removed);
      var r := RewriteAll(before.graph, rank, bound, operations[last], [], removed);
      RewriteAllRewrites(before.graph, rank, bodies, bound, operations[last], [], removed);
      SettledNext(g, rank, bodies, bound, operations[..last], before, operations[last], r, removed);
      assert operations == operations[..last] + [operations[last]];
    }
  }

  lemma SettledNext(g: Graph, rank: Ranks, bodies: Bodies, bound: nat, front: seq<seq<Selection>>, before: Query,
                    last: seq<Selection>, r: Rewriting, removed: set<string>)
    requires Settled(g, rank, bodies, front, before, removed)
    requires Rewrites(before.graph, rank, bodies, bound, last, [], removed, r)
    ensures Settled(g, rank, bodies, front + [last], Query(r.graph, before.operations + [r.out]), removed)
  {
    var q := Query(r.graph, before.operations + [r.out]);
    EvolvedTransitive(g, before.graph, r.graph, bodies);
    forall i | 0 <= i < |front|
      ensures SettledAt(front[i], bodies, q, i, removed)
    {
      SettledStays(front[i], rank, bodies, before, i, removed, q);
    }
    assert SettledAt(last, bodies, q, |front|, removed);
  }

  /** However nodes are shared: in every operation nothing lies at or below a removed path, no spread is left, and
      every field path was one of the operation's before. */
  lemma RewrittenIsCensored(g: Graph, rank: Ranks, bodies: Bodies, bound: nat, operations: seq<seq<Selection>>,
      removed: set<string>, i: nat)
    requires Wired(rank, g) && AllBelow(rank, operations, bound) && SpreadsLead(g, bodies) && i < |operations|
    ensures var q := RewriteOperations(g, rank, bound, operations, removed);
      Censored(g, operations[i], q.graph, q.operations[i], removed)
  {
    var q := RewriteOperations(g, rank, bound, operations, removed);
    OperationsSettle(g, rank, bodies, bound, operations, removed);
    assert SettledAt(operations[i], bodies, q, i, removed);
    forall path | HasPath(q.graph, q.operations[i], path)
      ensures HasPath(g, operations[i], path) && !Lost([], path, removed)
    {
      PathWasThere(g, q.graph, rank, bodies, bound, operations[i], q.operations[i], path);
      SparedIsNotLost(q.graph, q.operations[i], [], removed, path);
    }
  }

  /** In terms of the entries: a path of GraphQL names that is left was there, and no entry names it or a field
      above. */
  lemma NothingGoneIsLeft(g: Graph, rank: Ranks, bodies: Bodies, bound: nat, operations: seq<seq<Selection>>,
      entries: seq<string>, i: nat, path: Path)
    requires Wired(rank, g) && AllBelow(rank, operations, bound) && SpreadsLead(g, bodies) && i < |operations|
    requires AreSegments(path)
    requires var q := RewriteOperations(g, rank, bound, operations, RemovedSet(entries));
      HasPath(q.graph, q.operations[i], path)
    ensures HasPath(g, operations[i], path) && !Gone(path, entries)
  {
    RewrittenIsCensored(g, rank, bodies, bound, operations, RemovedSet(entries), i);
    LostIffGone(path, entries);
  }

  // ------------------------------------------------------------------ the paths that remain

  /** A path's fields are all named as GraphQL has it (section 2.1.9). */
  ghost predicate AllNamesClean(g: Graph) {
    forall s <- g | s.FieldSelection? :: IsSegment(s.field.name)
  }

  /** The paths no entry removes, in order. */
  function Remaining(paths: seq<Path>, entries: seq<string>): seq<Path> {
    if paths == [] then [] else (if Gone(paths[0], entries) then [] else [paths[0]]) + Remaining(paths[1..], entries)
  }

  lemma {:induction false} KeepIsRemaining(paths: seq<Path>, entries: seq<string>)
    requires forall p <- paths :: AreSegments(p)
    ensures Keep([], paths, RemovedSet(entries)) == Remaining(paths, entries)
  {
    if paths != [] {
      assert paths[0] in paths && forall p <- paths[1..] :: p in paths;
      LostIffGone(paths[0], entries);
      KeepIsRemaining(paths[1..], entries);
    }
  }

  lemma {:induction false} PrefixedNamed(name: string, paths: seq<Path>)
    requires IsSegment(name) && forall p <- paths :: AreSegments(p)
    ensures forall p <- Prefixed(name, paths) :: AreSegments(p)
  {
    if paths != [] {
      assert paths[0] in paths && forall p <- paths[1..] :: p in paths;
      PrefixedNamed(name, paths[1..]);
    }
  }

  lemma {:induction false} LeavesNamed(g: Graph, sels: seq<Selection>, h: Expansion)
    requires AllNamesClean(g) && Expands(g, sels, h)
    ensures forall p <- Leaves(h) :: AreSegments(p)
    decreases h
  {
    if h.Sel? {
      LeavesNamed(g, g[h.s], h.sub);
      LeavesNamed(g, sels[1..], h.rest);
      if h.s.FieldSelection? {
        PrefixedNamed(h.s.field.name, Leaves(h.sub));
      }
    }
  }

  ghost predicate AllRewritten(hs: seq<Expansion>, q: Query, removed: set<string>) {
    && |q.operations| == |hs|
    && forall i | 0 <= i < |hs| :: Expands(q.graph, q.operations[i], Rewritten(hs[i], [], removed))
  }
}
