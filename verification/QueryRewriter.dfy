// The inlining rewriter as it runs: over the parser's nodes, whose selection sets it overwrites.
module QueryRewriter {
  import opened SyntaxNodes
  import opened RemovedPaths
  import opened SharedGraph
  import opened ExpandedShape
  import opened PathRewriter
  import opened RewrittenQuery
  import SteadyRewriting
  import SteadyQuery

  /** The nodes a set of selections refers to. */
  ghost function Objects(world: set<Selection>): (objects: set<object>)
    ensures forall s <- world ::
      (s.FieldSelection? ==> s.field in objects) && (s.InlineSelection? ==> s.inline in objects)
    ensures forall o <- objects :: o is FieldNode || o is InlineNode
  {
    (set s | s in world && s.FieldSelection? :: s.field as object)
        + (set s | s in world && s.InlineSelection? :: s.inline as object)
  }

  /** The graph the nodes make up at the moment. */
  ghost function GraphOf(world: set<Selection>, bodies: Bodies): (g: Graph)
    reads Objects(world)
    ensures SpreadsLead(g, bodies)
  {
    map s | s in world ::
      match s
      case FieldSelection(n) => n.selectionSet
      case InlineSelection(n) => n.selectionSet
      case SpreadSelection(n) => if n.name in bodies then bodies[n.name] else []
  }

  /** The bodies of the fragments; a later definition of a name replaces an earlier one. */
  ghost function BodiesOf(fragments: seq<FragmentNode>): Bodies
    reads fragments
  {
    if fragments == [] then map[]
    else
      var last := fragments[|fragments| - 1];
      BodiesOf(fragments[..|fragments| - 1])[last.name := last.selectionSet]
  }

  ghost predicate Bound(fragments: map<string, FragmentNode>, bodies: Bodies)
    reads fragments.Values
  {
    var held :=
      fragments.Keys == bodies.Keys && forall name <- fragments :: fragments[name].selectionSet == bodies[name];
    held
  }

  /** A fragment's body is the one of its last definition, and names without definition have none. */
  lemma {:induction false} BodiesAreLast(fragments: seq<FragmentNode>, name: string)
    ensures name in BodiesOf(fragments) <==> IsDefined(fragments, name)
    ensures forall i: nat | LastDefinition(fragments, name, i) :: BodiesOf(fragments)[name] == fragments[i].selectionSet
  {
    if fragments != [] {
      var last := |fragments| - 1;
      BodiesAreLast(fragments[..last], name);
      forall i: nat
        ensures LastDefinition(fragments, name, i)
          <==> if fragments[last].name == name then i == last else LastDefinition(fragments[..last], name, i)
      {
      }
    }
  }

  lemma {:induction false} LastExists(fragments: seq<FragmentNode>, name: string) returns (i: nat)
    requires IsDefined(fragments, name)
    ensures LastDefinition(fragments, name, i)
  {
    i := |fragments| - 1;
    if fragments[i].name != name {
      assert IsDefined(fragments[..i], name);
      i := LastExists(fragments[..i], name);
    }
  }

  /** Below each spread, the graph has the selection set of the last definition of its name, and nothing exactly when
      there is none. */
  ghost predicate SpreadsFollow(g: Graph, fragments: seq<FragmentNode>)
    reads fragments
  {
    forall s <- g | s.SpreadSelection? ::
      && (forall i: nat | LastDefinition(fragments, s.spread.name, i) :: g[s] == fragments[i].selectionSet)
      && (!IsDefined(fragments, s.spread.name) ==> g[s] == [])
  }

  lemma SpreadsDoFollow(world: set<Selection>, fragments: seq<FragmentNode>)
    ensures SpreadsFollow(GraphOf(world, BodiesOf(fragments)), fragments)
  {
    forall s <- world | s.SpreadSelection?
      ensures s.spread.name in BodiesOf(fragments) <==> IsDefined(fragments, s.spread.name)
    {
      BodiesAreLast(fragments, s.spread.name);
    }
    forall s, i: nat | s in world && s.SpreadSelection? && LastDefinition(fragments, s.spread.name, i)
      ensures GraphOf(world, BodiesOf(fragments))[s] == fragments[i].selectionSet
    {
      BodiesAreLast(fragments, s.spread.name);
    }
  }

  /** h is the selection set with everything below it, as the nodes have it: spreads are followed to the last definition
      of their name, and those without definition have nothing below. */
  ghost predicate Follows(fragments: seq<FragmentNode>, world: set<Selection>, sels: seq<Selection>, h: Expansion)
    reads fragments, Objects(world)
    decreases h
  {
    match h
    case Done => sels == []
    case Sel(s, sub, rest) =>
      && sels != [] && sels[0] == s && s in world && Follows(fragments, world, sels[1..], rest)
      && match s
         case FieldSelection(n) => Follows(fragments, world, n.selectionSet, sub)
         case InlineSelection(n) => Follows(fragments, world, n.selectionSet, sub)
         case SpreadSelection(n) =>
           if IsDefined(fragments, n.name) then
             exists i | 0 <= i < |fragments| ::
               LastDefinition(fragments, n.name, i) && Follows(fragments, world, fragments[i].selectionSet, sub)
           else sub.Done?
  }

  lemma {:induction false} FollowsIsExpands(fragments: seq<FragmentNode>, world: set<Selection>, sels: seq<Selection>,
      h: Expansion)
    ensures Follows(fragments, world, sels, h) <==> Expands(GraphOf(world, BodiesOf(fragments)), sels, h)
    decreases h
  {
    if h.Sel? && sels != [] {
      FollowsIsExpands(fragments, world, sels[1..], h.rest);
      match h.s {
        case FieldSelection(n) => FollowsIsExpands(fragments, world, n.selectionSet, h.sub);
        case InlineSelection(n) => FollowsIsExpands(fragments, world, n.selectionSet, h.sub);
        case SpreadSelection(n) =>
          BodiesAreLast(fragments, n.name);
          if IsDefined(fragments, n.name) {
            var i := LastExists(fragments, n.name);
            FollowsIsExpands(fragments, world, fragments[i].selectionSet, h.sub);
          }
      }
    }
  }

  method SetField(n: FieldNode, kids: seq<Selection>, ghost world: set<Selection>, ghost bodies: Bodies)
    requires FieldSelection(n) in world
    modifies n
    ensures n.selectionSet == kids
    ensures GraphOf(world, bodies) == old(GraphOf(world, bodies))[FieldSelection(n) := kids]
  {
    n.selectionSet := kids;
  }

  method SetInline(n: InlineNode, kids: seq<Selection>, ghost world: set<Selection>, ghost bodies: Bodies)
    requires InlineSelection(n) in world
    modifies n
    ensures n.selectionSet == kids
    ensures GraphOf(world, bodies) == old(GraphOf(world, bodies))[InlineSelection(n) := kids]
  {
    n.selectionSet := kids;
  }

  /** r is out and what rewriting the selections left gives after it. */
  ghost predicate Pending(r: Rewriting, g: Graph, rank: Ranks, bound: nat, left: seq<Selection>, out: seq<Selection>,
      parent: Path, removed: set<string>) {
    var held := Wired(rank, g) && Below(rank, left, bound)
      && var rest := RewriteAll(g, rank, bound, left, parent, removed); r == Rewriting(rest.graph, out + rest.out);
    held
  }

  lemma PendingFirst(g: Graph, rank: Ranks, bound: nat, sels: seq<Selection>, parent: Path, removed: set<string>)
    requires Wired(rank, g) && Below(rank, sels, bound)
    ensures Pending(RewriteAll(g, rank, bound, sels, parent, removed), g, rank, bound, sels, [], parent, removed)
  {
    var rest := RewriteAll(g, rank, bound, sels, parent, removed);
    assert [] + rest.out == rest.out;
  }

  lemma PendingNext(r: Rewriting, g: Graph, rank: Ranks, bound: nat, left: seq<Selection>, out: seq<Selection>,
      parent: Path, removed: set<string>)
    requires Pending(r, g, rank, bound, left, out, parent, removed) && left != []
    ensures Wired(rank, g) && left[0] in rank && rank[left[0]] < bound
    ensures var one := RewriteOne(g, rank, bound, left[0], parent, removed);
      Pending(r, one.graph, rank, bound, left[1..], out + one.out, parent, removed)
  {
    assert left[0] in left;
    var one := RewriteOne(g, rank, bound, left[0], parent, removed);
    var rest := RewriteAll(one.graph, rank, bound, left[1..], parent, removed);
    assert out + (one.out + rest.out) == (out + one.out) + rest.out;
  }

  lemma PendingLast(r: Rewriting, g: Graph, rank: Ranks, bound: nat, out: seq<Selection>, parent: Path,
      removed: set<string>)
    requires Pending(r, g, rank, bound, [], out, parent, removed)
    ensures r == Rewriting(g, out)
  {
  }

  /** rewriteSelectionSet. */
  method RewriteSelectionSet(selectionSet: seq<Selection>, parentPath: seq<string>, removedSet: set<string>,
                             fragments: map<string, FragmentNode>, ghost world: set<Selection>, ghost bodies: Bodies,
                             ghost rank: Ranks, ghost bound: nat)
    returns (out: seq<Selection>)
    requires Bound(fragments, bodies)
    requires Wired(rank, GraphOf(world, bodies)) && Below(rank, selectionSet, bound)
    modifies Objects(world)
    ensures Bound(fragments, bodies)
    ensures Rewriting(GraphOf(world, bodies), out)
      == RewriteAll(old(GraphOf(world, bodies)), rank, bound, selectionSet, parentPath, removedSet)
    decreases bound, 1
  {
    out := [];
    ghost var r := RewriteAll(GraphOf(world, bodies), rank, bound, selectionSet, parentPath, removedSet);
    ghost var left := selectionSet;
    PendingFirst(GraphOf(world, bodies), rank, bound, selectionSet, parentPath, removedSet);
    var i := 0;
    while i < |selectionSet|
      invariant 0 <= i <= |selectionSet| && left == selectionSet[i..]
      invariant Bound(fragments, bodies)
      invariant Pending(r, GraphOf(world, bodies), rank, bound, left, out, parentPath, removedSet)
    {
      PendingNext(r, GraphOf(world, bodies), rank, bound, left, out, parentPath, removedSet);
      var kept := RewriteSelection(selectionSet[i], parentPath, removedSet, fragments, world, bodies, rank, bound);
      out := out + kept;
      left, i := left[1..], i + 1;
    }
    PendingLast(r, GraphOf(world, bodies), rank, bound, out, parentPath, removedSet);
  }

  /** What rewriteSelectionSet does with one selection. */
  method RewriteSelection(s: Selection, parentPath: seq<string>, removedSet: set<string>,
                          fragments: map<string, FragmentNode>, ghost world: set<Selection>, ghost bodies: Bodies,
                          ghost rank: Ranks, ghost bound: nat)
    returns (kept: seq<Selection>)
    requires Bound(fragments, bodies)
    requires Wired(rank, GraphOf(world, bodies)) && s in rank && rank[s] < bound
    modifies Objects(world)
    ensures Bound(fragments, bodies)
    ensures Rewriting(GraphOf(world, bodies), kept)
      == RewriteOne(old(GraphOf(world, bodies)), rank, bound, s, parentPath, removedSet)
    decreases bound, 0
  {
    match s {
      case FieldSelection(n) => kept := RewriteField(n, parentPath, removedSet, fragments, world, bodies, rank, bound);
      case SpreadSelection(n) =>
        if n.name !in fragments {
          return [];
        }
        kept := RewriteSelectionSet(fragments[n.name].selectionSet, parentPath, removedSet, fragments, world, bodies,
            rank, rank[s]);
      case InlineSelection(n) =>
        var kids := RewriteSelectionSet(n.selectionSet, parentPath, removedSet, fragments, world, bodies, rank,
            rank[s]);
        SetInline(n, kids, world, bodies);
        kept := if |n.selectionSet| == 0 then [] else [s];
    }
  }

  method RewriteField(n: FieldNode, parentPath: seq<string>, removedSet: set<string>,
                      fragments: map<string, FragmentNode>, ghost world: set<Selection>, ghost bodies: Bodies,
                      ghost rank: Ranks, ghost bound: nat)
    returns (kept: seq<Selection>)
    requires Bound(fragments, bodies) && Wired(rank, GraphOf(world, bodies))
    requires FieldSelection(n) in rank && rank[FieldSelection(n)] < bound
    modifies Objects(world)
    ensures Bound(fragments, bodies)
    ensures Rewriting(GraphOf(world, bodies), kept)
      == RewriteOne(old(GraphOf(world, bodies)), rank, bound, FieldSelection(n), parentPath, removedSet)
    decreases rank[FieldSelection(n)], 2
  {
    var fieldPath := parentPath + [n.name];
    if ShouldRemove(fieldPath, removedSet) {
      return [];
    }
    if |n.selectionSet| > 0 {
      var kids := RewriteSelectionSet(n.selectionSet, fieldPath, removedSet, fragments, world, bodies, rank,
        rank[FieldSelection(n)]);
      SetField(n, kids, world, bodies);
      if |n.selectionSet| == 0 {
        return [];
      }
    }
    kept := [FieldSelection(n)];
  }

  method IndexFragments(definitions: seq<FragmentNode>) returns (fragments: map<string, FragmentNode>)
    ensures Bound(fragments, BodiesOf(definitions)) && Indexes(fragments, definitions)
  {
    IndexesNone(definitions);
    fragments := map[];
    var i := 0;
    while i < |definitions|
      invariant 0 <= i <= |definitions|
      invariant Bound(fragments, BodiesOf(definitions[..i])) && Indexes(fragments, definitions[..i])
    {
      IndexesNext(fragments, definitions, i);
      assert definitions[..i + 1][..i] == definitions[..i];
      fragments := fragments[definitions[i].name := definitions[i]];
      i := i + 1;
    }
    IndexesAll(fragments, definitions);
    assert definitions[..i] == definitions;
  }

  // ------------------------------------------------------------------ whole queries

  ghost function OperationBodies(operations: seq<OperationNode>): (sets: seq<seq<Selection>>)
    reads operations
    ensures |sets| == |operations| && forall i | 0 <= i < |operations| :: sets[i] == operations[i].selectionSet
  {
    if operations == [] then []
    else OperationBodies(operations[..|operations| - 1]) + [operations[|operations| - 1].selectionSet]
  }

  lemma NotOperations(world: set<Selection>, operations: seq<OperationNode>)
    ensures forall op <- operations :: op !in Objects(world)
  {
  }

  method StoreOperation(operations: seq<OperationNode>, i: nat, out: seq<Selection>, ghost world: set<Selection>,
      ghost bodies: Bodies)
    requires i < |operations| && AllDifferent(operations)
    modifies operations[i]
    ensures OperationBodies(operations) == old(OperationBodies(operations))[i := out]
    ensures GraphOf(world, bodies) == old(GraphOf(world, bodies))
  {
    NotOperations(world, operations);
    operations[i].selectionSet := out;
  }

  method RewriteOperation(operations: seq<OperationNode>, i: nat, removedSet: set<string>,
      fragments: map<string, FragmentNode>, ghost world: set<Selection>, ghost bodies: Bodies, ghost rank: Ranks,
      ghost bound: nat)
    requires i < |operations| && AllDifferent(operations)
    requires Bound(fragments, bodies)
    requires Wired(rank, GraphOf(world, bodies)) && Below(rank, operations[i].selectionSet, bound)
    modifies operations[i], Objects(world)
    ensures Bound(fragments, bodies)
    ensures var r := RewriteAll(old(GraphOf(world, bodies)), rank, bound, old(operations[i].selectionSet), [],
        removedSet);
      GraphOf(world, bodies) == r.graph && OperationBodies(operations) == old(OperationBodies(operations))[i := r.out]
  {
    NotOperations(world, operations);
    var out := RewriteSelectionSet(operations[i].selectionSet, [], removedSet, fragments, world, bodies, rank, bound);
    StoreOperation(operations, i, out, world, bodies);
  }

  /** q is what the first operations give, rewritten one after another. */
  ghost predicate FirstRewritten(q: Query, g: Graph, rank: Ranks, bound: nat, sets: seq<seq<Selection>>,
      removed: set<string>) {
    var held := |q.operations| <= |sets| && Wired(rank, g) && AllBelow(rank, sets, bound)
      && AllBelow(rank, sets[..|q.operations|], bound)
      && q == RewriteOperations(g, rank, bound, sets[..|q.operations|], removed);
    held
  }

  lemma NoneRewritten(g: Graph, rank: Ranks, bound: nat, sets: seq<seq<Selection>>, removed: set<string>)
    requires Wired(rank, g) && AllBelow(rank, sets, bound)
    ensures FirstRewritten(Query(g, []), g, rank, bound, sets, removed)
  {
    assert sets[..0] == [];
    assert RewriteOperations(g, rank, bound, [], removed) == Query(g, []);
  }

  lemma OperationsStep(g: Graph, rank: Ranks, bound: nat, front: seq<seq<Selection>>, last: seq<Selection>,
      removed: set<string>)
    requires Wired(rank, g) && AllBelow(rank, front, bound) && Below(rank, last, bound)
    ensures AllBelow(rank, front + [last], bound)
    ensures var before := RewriteOperations(g, rank, bound, front, removed);
      var r := RewriteAll(before.graph, rank, bound, last, [], removed);
      RewriteOperations(g, rank, bound, front + [last], removed) == Query(r.graph, before.operations + [r.out])
  {
    assert (front + [last])[..|front|] == front;
  }

  lemma NextRewritten(q: Query, g: Graph, rank: Ranks, bound: nat, sets: seq<seq<Selection>>, removed: set<string>)
    requires FirstRewritten(q, g, rank, bound, sets, removed) && |q.operations| < |sets|
    ensures Wired(rank, q.graph) && Below(rank, sets[|q.operations|], bound)
    ensures var r := RewriteAll(q.graph, rank, bound, sets[|q.operations|], [], removed);
      FirstRewritten(Query(r.graph, q.operations + [r.out]), g, rank, bound, sets, removed)
  {
    var i := |q.operations|;
    assert sets[i] in sets && sets[..i + 1] == sets[..i] + [sets[i]];
    OperationsStep(g, rank, bound, sets[..i], sets[i], removed);
  }

  lemma LastRewritten(q: Query, g: Graph, rank: Ranks, bound: nat, sets: seq<seq<Selection>>, removed: set<string>)
    requires FirstRewritten(q, g, rank, bound, sets, removed) && |q.operations| == |sets|
    ensures Wired(rank, g) && AllBelow(rank, sets, bound) && q == RewriteOperations(g, rank, bound, sets, removed)
  {
    assert sets[..|sets|] == sets;
  }

  lemma Replaced(done: seq<seq<Selection>>, sets: seq<seq<Selection>>, out: seq<Selection>)
    requires |done| < |sets|
    ensures (done + sets[|done|..])[|done|] == sets[|done|]
    ensures (done + sets[|done|..])[|done| := out] == done + [out] + sets[|done| + 1..]
  {
  }

  /** The first operations, as many as done, have been rewritten in the nodes; the others are as they were. */
  ghost predicate InProgress(operations: seq<OperationNode>, done: seq<seq<Selection>>, g: Graph,
      sets: seq<seq<Selection>>, world: set<Selection>, bodies: Bodies, rank: Ranks, bound: nat, removed: set<string>)
    reads operations, Objects(world)
  {
    var held := |done| <= |sets| == |operations| && OperationBodies(operations) == done + sets[|done|..]
      && FirstRewritten(Query(GraphOf(world, bodies), done), g, rank, bound, sets, removed);
    held
  }

  ghost predicate AllDifferent(operations: seq<OperationNode>) {
    var held := forall j, k | 0 <= j < k < |operations| :: operations[j] != operations[k];
    held
  }

  method RewriteNext(operations: seq<OperationNode>, i: nat, removedSet: set<string>,
      fragments: map<string, FragmentNode>, ghost done: seq<seq<Selection>>, ghost g: Graph,
      ghost sets: seq<seq<Selection>>, ghost world: set<Selection>, ghost bodies: Bodies, ghost rank: Ranks,
      ghost bound: nat)
    returns (ghost done': seq<seq<Selection>>)
    requires AllDifferent(operations) && i == |done| < |operations| && Bound(fragments, bodies)
    requires InProgress(operations, done, g, sets, world, bodies, rank, bound, removedSet)
    modifies operations[i], Objects(world)
    ensures Bound(fragments, bodies) && |done'| == i + 1
    ensures InProgress(operations, done', g, sets, world, bodies, rank, bound, removedSet)
  {
    NextRewritten(Query(GraphOf(world, bodies), done), g, rank, bound, sets, removedSet);
    ghost var r := RewriteAll(GraphOf(world, bodies), rank, bound, sets[i], [], removedSet);
    Replaced(done, sets, r.out);
    RewriteOperation(operations, i, removedSet, fragments, world, bodies, rank, bound);
    done' := done + [r.out];
  }

  method RewriteEach(operations: seq<OperationNode>, removedSet: set<string>, fragments: map<string, FragmentNode>,
                     ghost world: set<Selection>, ghost bodies: Bodies, ghost rank: Ranks, ghost bound: nat)
    requires AllDifferent(operations)
    requires Bound(fragments, bodies)
    requires Wired(rank, GraphOf(world, bodies)) && AllBelow(rank, OperationBodies(operations), bound)
    modifies operations, Objects(world)
    ensures Query(GraphOf(world, bodies), OperationBodies(operations))
      == RewriteOperations(old(GraphOf(world, bodies)), rank, bound, old(OperationBodies(operations)), removedSet)
  {
    ghost var g, sets := GraphOf(world, bodies), OperationBodies(operations);
    ghost var done := [];
    NoneRewritten(g, rank, bound, sets, removedSet);
    var i := 0;
    while i < |operations|
      invariant 0 <= i == |done| <= |operations|
      invariant Bound(fragments, bodies)
      invariant InProgress(operations, done, g, sets, world, bodies, rank, bound, removedSet)
    {
      done := RewriteNext(operations, i, removedSet, fragments, done, g, sets, world, bodies, rank, bound);
      i := i + 1;
    }
    LastRewritten(Query(GraphOf(world, bodies), done), g, rank, bound, sets, removedSet);
  }

  method DropFragments(doc: DocumentNode, ghost world: set<Selection>, ghost bodies: Bodies)
    modifies doc
    ensures doc.fragments == [] && doc.operations == old(doc.operations)
    ensures OperationBodies(doc.operations) == old(OperationBodies(doc.operations))
    ensures GraphOf(world, bodies) == old(GraphOf(world, bodies))
  {
    assert doc !in Objects(world);
    doc.fragments := [];
  }

  lemma NotDocument(world: set<Selection>, operations: seq<OperationNode>, doc: DocumentNode)
    ensures (doc as object) !in Objects(world) && forall op <- operations :: (op as object) != doc
  {
  }

  ghost predicate Acyclic(doc: DocumentNode, world: set<Selection>, bodies: Bodies, rank: Ranks, bound: nat)
    reads doc, doc.operations, Objects(world)
  {
    var held := Wired(rank, GraphOf(world, bodies)) && AllBelow(rank, OperationBodies(doc.operations), bound);
    held
  }

  /** The document has been rewritten from the graph and operations given. */
  ghost predicate DocumentRewritten(doc: DocumentNode, world: set<Selection>, bodies: Bodies, g: Graph, rank: Ranks,
      bound: nat, sets: seq<seq<Selection>>, removed: set<string>)
    reads doc, doc.operations, Objects(world)
  {
    var held := Wired(rank, g) && AllBelow(rank, sets, bound)
      && Query(GraphOf(world, bodies), OperationBodies(doc.operations))
        == RewriteOperations(g, rank, bound, sets, removed);
    held
  }

  method RewriteDocument(doc: DocumentNode, removedSet: set<string>, fragments: map<string, FragmentNode>,
                         ghost world: set<Selection>, ghost bodies: Bodies, ghost rank: Ranks, ghost bound: nat)
    requires AllDifferent(doc.operations) && Bound(fragments, bodies) && Acyclic(doc, world, bodies, rank, bound)
    modifies doc, doc.operations, Objects(world)
    ensures doc.operations == old(doc.operations) && doc.fragments == []
    ensures DocumentRewritten(doc, world, bodies, old(GraphOf(world, bodies)), rank, bound,
        old(OperationBodies(doc.operations)), removedSet)
  {
    NotDocument(world, doc.operations, doc);
    RewriteEach(doc.operations, removedSet, fragments, world, bodies, rank, bound);
    DropFragments(doc, world, bodies);
  }

  method RewriteAllowed(removedFields: seq<string>, doc: DocumentNode, ghost world: set<Selection>,
      ghost bodies: Bodies, ghost rank: Ranks, ghost bound: nat)
    requires AllDifferent(doc.operations) && bodies == BodiesOf(doc.fragments)
      && Acyclic(doc, world, bodies, rank, bound)
    modifies doc, doc.operations, Objects(world)
    ensures doc.operations == old(doc.operations) && doc.fragments == []
    ensures DocumentRewritten(doc, world, bodies, old(GraphOf(world, bodies)), rank, bound,
        old(OperationBodies(doc.operations)), RemovedSet(removedFields))
  {
    ghost var g, sets := GraphOf(world, bodies), OperationBodies(doc.operations);
    var removedSet := BuildRemovedSet(removedFields);
    var fragments := IndexFragments(doc.fragments);
    assert GraphOf(world, bodies) == g && OperationBodies(doc.operations) == sets;
    RewriteDocument(doc, removedSet, fragments, world, bodies, rank, bound);
  }

  // ------------------------------------------------------------------ what the client can tell

  ghost predicate AllFollow(doc: DocumentNode, world: set<Selection>, hs: seq<Expansion>)
    reads doc, doc.fragments, doc.operations, Objects(world)
  {
    |hs| == |doc.operations| && forall i | 0 <= i < |hs| ::
      Follows(doc.fragments, world, doc.operations[i].selectionSet, hs[i])
  }

  predicate NamesAreSegments(world: set<Selection>) {
    forall s <- world | s.FieldSelection? :: IsSegment(s.field.name)
  }

  lemma {:induction false} SpreadFreeFollows(world: set<Selection>, bodies: Bodies, sels: seq<Selection>, h: Expansion)
    requires Expands(GraphOf(world, bodies), sels, h) && NoSpreads(h)
    ensures Follows([], world, sels, h)
    decreases h
  {
    if h.Sel? {
      SpreadFreeFollows(world, bodies, GraphOf(world, bodies)[h.s], h.sub);
      SpreadFreeFollows(world, bodies, sels[1..], h.rest);
    }
  }

  lemma AllFollowExpand(doc: DocumentNode, world: set<Selection>, hs: seq<Expansion>)
    requires AllFollow(doc, world, hs)
    ensures SteadyQuery.AllExpand(GraphOf(world, BodiesOf(doc.fragments)), OperationBodies(doc.operations), hs)
  {
    forall i | 0 <= i < |hs|
      ensures Expands(GraphOf(world, BodiesOf(doc.fragments)), doc.operations[i].selectionSet, hs[i])
    {
      FollowsIsExpands(doc.fragments, world, doc.operations[i].selectionSet, hs[i]);
    }
  }

  /** Each operation has the leaf paths it had, in order, but for those an entry names or leads to. */
  ghost predicate KeepsTheRest(doc: DocumentNode, world: set<Selection>, hs: seq<Expansion>, left: seq<Expansion>,
      entries: seq<string>)
    reads doc, doc.operations, Objects(world)
  {
    |left| == |hs| == |doc.operations| && forall i | 0 <= i < |left| ::
      && Follows([], world, doc.operations[i].selectionSet, left[i])
      && Leaves(left[i]) == Remaining(Leaves(hs[i]), entries)
  }

  lemma SteadyKeepsTheRest(doc: DocumentNode, world: set<Selection>, bodies: Bodies, g: Graph, rank: Ranks, bound: nat,
      sets: seq<seq<Selection>>, entries: seq<string>, hs: seq<Expansion>) returns (left: seq<Expansion>)
    requires DocumentRewritten(doc, world, bodies, g, rank, bound, sets, RemovedSet(entries)) && NamesAreSegments(world)
    requires g.Keys == world && SteadyQuery.AllExpand(g, sets, hs) && SteadyQuery.Steady(hs, RemovedSet(entries))
    requires |sets| == |doc.operations|
    ensures KeepsTheRest(doc, world, hs, left, entries)
  {
    left := seq(|hs|, i requires 0 <= i < |hs| => Rewritten(hs[i], [], RemovedSet(entries)));
    SteadyQuery.OperationsSteady(g, rank, bound, sets, hs, RemovedSet(entries));
    forall i | 0 <= i < |hs|
      ensures Follows([], world, doc.operations[i].selectionSet, left[i])
      ensures Leaves(left[i]) == Remaining(Leaves(hs[i]), entries)
    {
      RewrittenHasNoSpreads(hs[i], [], RemovedSet(entries));
      assert OperationBodies(doc.operations)[i] == doc.operations[i].selectionSet;
      SpreadFreeFollows(world, bodies, doc.operations[i].selectionSet, left[i]);
      RewrittenKeeps(hs[i], [], RemovedSet(entries));
      LeavesNamed(g, sets[i], hs[i]);
      KeepIsRemaining(Leaves(hs[i]), entries);
    }
  }

  /** No path of GraphQL names is left that an entry names or leads to, and none is new. */
  ghost predicate NothingGoneLeft(g: Graph, sets: seq<seq<Selection>>, q: Query, entries: seq<string>) {
    |q.operations| == |sets| && forall i | 0 <= i < |sets| ::
      NothingGoneAt(g, sets[i], q.graph, q.operations[i], entries)
  }

  ghost predicate NothingGoneAt(g: Graph, sels: seq<Selection>, g': Graph, sels': seq<Selection>,
      entries: seq<string>) {
    forall path | HasPath(g', sels', path) && AreSegments(path) :: HasPath(g, sels, path) && !Gone(path, entries)
  }

  lemma NoneOfItIsLeft(g: Graph, rank: Ranks, bodies: Bodies, bound: nat, sets: seq<seq<Selection>>,
      entries: seq<string>)
    requires Wired(rank, g) && AllBelow(rank, sets, bound) && SpreadsLead(g, bodies)
    ensures NothingGoneLeft(g, sets, RewriteOperations(g, rank, bound, sets, RemovedSet(entries)), entries)
  {
    forall i: nat | i < |sets|
      ensures var q := RewriteOperations(g, rank, bound, sets, RemovedSet(entries));
        NothingGoneAt(g, sets[i], q.graph, q.operations[i], entries)
    {
      NoneIsLeftAt(g, rank, bodies, bound, sets, entries, i);
    }
  }

  lemma NoneIsLeftAt(g: Graph, rank: Ranks, bodies: Bodies, bound: nat, sets: seq<seq<Selection>>,
      entries: seq<string>, i: nat)
    requires Wired(rank, g) && AllBelow(rank, sets, bound) && SpreadsLead(g, bodies) && i < |sets|
    ensures var q := RewriteOperations(g, rank, bound, sets, RemovedSet(entries));
      NothingGoneAt(g, sets[i], q.graph, q.operations[i], entries)
  {
    var q := RewriteOperations(g, rank, bound, sets, RemovedSet(entries));
    forall path | HasPath(q.graph, q.operations[i], path) && AreSegments(path)
      ensures HasPath(g, sets[i], path) && !Gone(path, entries)
    {
      NothingGoneIsLeft(g, rank, bodies, bound, sets, entries, i, path);
    }
  }

  datatype Answer = Refused | Answered

  /** RewriteQuery, from the decision to the document that is printed. `hs` are the operations with everything below
      them, spreads followed to the last definition; `left` is the same when all is done. */
  method RewriteQuery(allow: bool, removedFields: seq<string>, doc: DocumentNode, ghost world: set<Selection>,
      ghost rank: Ranks, ghost bound: nat, ghost hs: seq<Expansion>)
    returns (answer: Answer, ghost left: seq<Expansion>)
    requires AllDifferent(doc.operations) && Acyclic(doc, world, BodiesOf(doc.fragments), rank, bound)
    modifies doc, doc.operations, Objects(world)
    ensures answer == if allow then Answered else Refused
    ensures !allow ==> unchanged(doc) && unchanged(doc.operations) && unchanged(Objects(world))
    ensures allow ==> doc.operations == old(doc.operations) && doc.fragments == []
    ensures old(SpreadsFollow(GraphOf(world, BodiesOf(doc.fragments)), doc.fragments))
    ensures allow ==> var bodies := old(BodiesOf(doc.fragments));
      DocumentRewritten(doc, world, bodies, old(GraphOf(world, bodies)), rank, bound,
          old(OperationBodies(doc.operations)), RemovedSet(removedFields))
    ensures allow ==> var bodies := old(BodiesOf(doc.fragments));
      NothingGoneLeft(old(GraphOf(world, bodies)), old(OperationBodies(doc.operations)),
        Query(GraphOf(world, bodies), OperationBodies(doc.operations)), removedFields)
    ensures (allow && old(AllFollow(doc, world, hs)) && NamesAreSegments(world)
             && SteadyQuery.Steady(hs, RemovedSet(removedFields))) ==>
      KeepsTheRest(doc, world, hs, left, removedFields)
  {
    left := hs;
    ghost var bodies, sets := BodiesOf(doc.fragments), OperationBodies(doc.operations);
    ghost var g := GraphOf(world, bodies);
    SpreadsDoFollow(world, doc.fragments);
    if !allow {
      return Refused, left;
    }
    if AllFollow(doc, world, hs) {
      AllFollowExpand(doc, world, hs);
    }
    NoneOfItIsLeft(g, rank, bodies, bound, sets, removedFields);
    RewriteAllowed(removedFields, doc, world, bodies, rank, bound);
    if SteadyQuery.AllExpand(g, sets, hs) && NamesAreSegments(world)
        && SteadyQuery.Steady(hs, RemovedSet(removedFields)) {
      left := SteadyKeepsTheRest(doc, world, bodies, g, rank, bound, sets, removedFields, hs);
    }
    answer := Answered;
  }
}
