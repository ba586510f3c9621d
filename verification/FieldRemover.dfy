// The three passes as they run: over the parser's nodes, whose selection sets they overwrite. Trees and nodes are
// related by expansions of the nodes' graph, in which spreads lead nowhere.
module FieldRemover {
  import opened SyntaxNodes
  import opened SharedGraph
  import opened ExpandedShape
  import opened DeniedFields
  import opened FieldRemoval
  import opened QueryRewriter
  import HollowSelections
  import PermittedTrails

  ghost function Links(world: set<Selection>): Graph
    reads Objects(world)
  {
    GraphOf(world, map[])
  }

  // ------------------------------------------------------------------ going through a selection set

  /** out stands for done; rest, the selections to come, still stands for left; only nodes of `seen` have changed. */
  ghost predicate Progress(g: Graph, g': Graph, seen: Expansion, left: Expansion, rest: seq<Selection>, done: Expansion,
      out: seq<Selection>) {
    var held := Expands(g', rest, left) && Expands(g', out, done) && Untouched(g, g', Members(seen))
      && Members(done) <= Members(seen)
      && Members(seen) !! Members(left) && NoRepeats(left) && NoRepeats(done);
    held
  }

  /** One selection has been dealt with: kept stands for what is left of it. */
  ghost predicate Stepped(g: Graph, g': Graph, s: Selection, sub: Expansion, one: Expansion, kept: seq<Selection>) {
    var held := Expands(g', kept, one) && Untouched(g, g',
        Members(Sel(s, sub, Done))) && Members(one) <= Members(Sel(s, sub, Done)) && NoRepeats(one);
    held
  }

  lemma ProgressFirst(g: Graph, h: Expansion, sels: seq<Selection>)
    requires Expands(g, sels, h) && NoRepeats(h)
    ensures Progress(g, g, Done, h, sels, Done, [])
  {
  }

  lemma {:induction false} DistinctConcat(a: Expansion, b: Expansion)
    requires NoRepeats(a) && NoRepeats(b) && Members(a) !! Members(b)
    ensures NoRepeats(Concat(a, b))
  {
    if a.Sel? {
      DistinctConcat(a.rest, b);
      MembersConcat(a.rest, b);
    }
  }

  lemma ProgressNext(g: Graph, g': Graph, g'': Graph, seen: Expansion, left: Expansion, rest: seq<Selection>,
      done: Expansion, out: seq<Selection>, one: Expansion, kept: seq<Selection>)
    requires Progress(g, g', seen, left, rest, done, out) && left.Sel? && g.Keys == g'.Keys == g''.Keys
    requires rest != [] && Stepped(g', g'', left.s, left.sub, one, kept)
    ensures Progress(g, g'', Concat(seen, Sel(left.s, left.sub, Done)), left.rest, rest[1..], Concat(done, one),
        out + kept)
  {
    var single := Sel(left.s, left.sub, Done);
    MembersConcat(seen, single);
    MembersConcat(done, one);
    assert Members(single) == {left.s} + Members(left.sub);
    ExpandsStays(g', g'', Members(single), rest[1..], left.rest);
    ExpandsStays(g', g'', Members(single), out, done);
    ExpandsConcat(g'', out, done, kept, one);
    DistinctConcat(done, one);
  }

  lemma ProgressLast(g: Graph, g': Graph, seen: Expansion, left: Expansion, rest: seq<Selection>, done: Expansion,
      out: seq<Selection>)
    requires Progress(g, g', seen, left, rest, done, out)
    ensures rest == [] <==> left.Done?
    ensures left.Sel? ==>
      && rest[0] == left.s && left.s in g' && Expands(g', g'[left.s], left.sub)
      && NoRepeats(left.sub) && left.s !in Members(left.sub)
    ensures Expands(g', out, done) && Untouched(g, g', Members(seen)) && Members(done) <= Members(seen)
      && NoRepeats(done)
  {
  }

  lemma UntouchedStored(g: Graph, g': Graph, s: Selection, sub: Expansion, kids: seq<Selection>)
    requires Untouched(g, g', Members(sub))
    ensures Untouched(g, g'[s := kids], Members(Sel(s, sub, Done)))
  {
  }

  /** A field or inline fragment whose selection set has been overwritten by what is left of it. */
  lemma SteppedBelow(g: Graph, g': Graph, s: Selection, sub: Expansion, sub': Expansion, kids: seq<Selection>)
    requires s in g && s in g' && s !in Members(sub) && Expands(g', kids, sub') && Untouched(g, g', Members(sub))
    requires Members(sub') <= Members(sub) && NoRepeats(sub')
    ensures Stepped(g, g'[s := kids], s, sub, Sel(s, sub', Done), [s])
  {
    var g'' := g'[s := kids];
    UntouchedStored(g, g', s, sub, kids);
    ExpandsStays(g', g'', {s}, kids, sub');
    assert [s][1..] == [];
    assert Expands(g'', [s], Sel(s, sub', Done));
  }

  /** One that is left out, nothing being left of it. */
  lemma SteppedGone(g: Graph, g': Graph, s: Selection, sub: Expansion, kids: seq<Selection>)
    requires Untouched(g, g', Members(sub))
    ensures Stepped(g, g'[s := kids], s, sub, Done, [])
  {
    UntouchedStored(g, g', s, sub, kids);
  }

  lemma SteppedKept(g: Graph, s: Selection, sub: Expansion)
    requires s in g && Expands(g, g[s], sub) && NoRepeats(sub) && s !in Members(sub)
    ensures Stepped(g, g, s, sub, Sel(s, sub, Done), [s]) && Stepped(g, g, s, sub, Done, [])
  {
    assert [s][1..] == [];
    assert Expands(g, [s], Sel(s, sub, Done)) && NoRepeats(Sel(s, sub, Done));
    assert Expands(g, [], Done) && Members(Done) == {};
  }

  // ------------------------------------------------------------------ filterSelectionSet

  method FilterSelectionSet(selections: seq<Selection>, ds: Denied, currentPath: string, ghost world: set<Selection>,
      ghost h: Expansion)
    returns (filtered: seq<Selection>)
    requires Expands(Links(world), selections, h) && NoRepeats(h)
    modifies Objects(world)
    ensures Expands(Links(world), filtered, Filtered(h, ds, currentPath)) && NoRepeats(Filtered(h, ds, currentPath))
    ensures Untouched(old(Links(world)), Links(world), Members(h))
      && Members(Filtered(h, ds, currentPath)) <= Members(h)
    decreases h, 1
  {
    filtered := [];
    ghost var g := Links(world);
    ghost var seen, left, rest, done := Done, h, selections, Done;
    ProgressFirst(g, h, selections);
    assert Filtered(h, ds, currentPath) == Concat(Done, Filtered(h, ds, currentPath));
    var i := 0;
    while i < |selections|
      invariant 0 <= i <= |selections| && rest == selections[i..] && (left == h || left < h)
      invariant Progress(g, Links(world), seen, left, rest, done, filtered)
      invariant Concat(seen, left) == h && Filtered(h, ds, currentPath) == Concat(done, Filtered(left, ds, currentPath))
    {
      ProgressLast(g, Links(world), seen, left, rest, done, filtered);
      ghost var g', one := Links(world), FilteredOne(left.s, left.sub, ds, currentPath);
      var kept := FilterSelection(selections[i], ds, currentPath, world, left.sub);
      ProgressNext(g, g', Links(world), seen, left, rest, done, filtered, one, kept);
      ConcatAssociative(seen, Sel(left.s, left.sub, Done), left.rest);
      ConcatAssociative(done, one, Filtered(left.rest, ds, currentPath));
      seen, done := Concat(seen, Sel(left.s, left.sub, Done)), Concat(done, one);
      filtered, left, rest, i := filtered + kept, left.rest, rest[1..], i + 1;
    }
    ProgressLast(g, Links(world), seen, left, rest, done, filtered);
    ConcatDone(seen);
    ConcatDone(done);
  }

  /** What filterSelectionSet does with one selection. */
  method FilterSelection(s: Selection, ds: Denied, currentPath: string, ghost world: set<Selection>,
      ghost sub: Expansion)
    returns (kept: seq<Selection>)
    requires s in Links(world) && Expands(Links(world), Links(world)[s], sub) && NoRepeats(sub) && s !in Members(sub)
    modifies Objects(world)
    ensures Stepped(old(Links(world)), Links(world), s, sub, FilteredOne(s, sub, ds, currentPath), kept)
    decreases sub, 2
  {
    SteppedKept(Links(world), s, sub);
    match s {
      case FieldSelection(node) =>
        if IsDenied(ds, currentPath, node.name) {
          return [];
        }
        if |node.selectionSet| > 0 {
          var kids := FilterSelectionSet(node.selectionSet, ds, FullPath(currentPath, node.name), world, sub);
          SteppedBelow(old(Links(world)), Links(world), s, sub, Filtered(sub, ds, FullPath(currentPath, node.name)),
              kids);
          SteppedGone(old(Links(world)), Links(world), s, sub, kids);
          SetField(node, kids, world, map[]);
          if |node.selectionSet| == 0 {
            return [];
          }
        }
        kept := [s];
      case InlineSelection(node) =>
        var kids := FilterSelectionSet(node.selectionSet, ds, currentPath, world, sub);
        SteppedBelow(old(Links(world)), Links(world), s, sub, Filtered(sub, ds, currentPath), kids);
        SteppedGone(old(Links(world)), Links(world), s, sub, kids);
        SetInline(node, kids, world, map[]);
        kept := if |node.selectionSet| > 0 then [s] else [];
      case SpreadSelection(node) =>
        kept := [s];
    }
  }

  // ------------------------------------------------------------------ removeEmptyFragmentSpreads

  method RemoveEmptyFragmentSpreads(selections: seq<Selection>, emptyFrags: set<string>, ghost world: set<Selection>,
      ghost h: Expansion)
    returns (filtered: seq<Selection>)
    requires Expands(Links(world), selections, h) && NoRepeats(h)
    modifies Objects(world)
    ensures Expands(Links(world), filtered, Cut(h, emptyFrags)) && NoRepeats(Cut(h, emptyFrags))
    ensures Untouched(old(Links(world)), Links(world), Members(h)) && Members(Cut(h, emptyFrags)) <= Members(h)
    decreases h, 1
  {
    filtered := [];
    ghost var g := Links(world);
    ghost var seen, left, rest, done := Done, h, selections, Done;
    ProgressFirst(g, h, selections);
    assert Cut(h, emptyFrags) == Concat(Done, Cut(h, emptyFrags));
    var i := 0;
    while i < |selections|
      invariant 0 <= i <= |selections| && rest == selections[i..] && (left == h || left < h)
      invariant Progress(g, Links(world), seen, left, rest, done, filtered)
      invariant Concat(seen, left) == h && Cut(h, emptyFrags) == Concat(done, Cut(left, emptyFrags))
    {
      ProgressLast(g, Links(world), seen, left, rest, done, filtered);
      ghost var g', one := Links(world), CutOne(left.s, left.sub, emptyFrags);
      var kept := CutSelection(selections[i], emptyFrags, world, left.sub);
      ProgressNext(g, g', Links(world), seen, left, rest, done, filtered, one, kept);
      ConcatAssociative(seen, Sel(left.s, left.sub, Done), left.rest);
      ConcatAssociative(done, one, Cut(left.rest, emptyFrags));
      seen, done := Concat(seen, Sel(left.s, left.sub, Done)), Concat(done, one);
      filtered, left, rest, i := filtered + kept, left.rest, rest[1..], i + 1;
    }
    ProgressLast(g, Links(world), seen, left, rest, done, filtered);
    ConcatDone(seen);
    ConcatDone(done);
  }

  /** What removeEmptyFragmentSpreads does with one selection. */
  method CutSelection(s: Selection, emptyFrags: set<string>, ghost world: set<Selection>, ghost sub: Expansion)
    returns (kept: seq<Selection>)
    requires s in Links(world) && Expands(Links(world), Links(world)[s], sub) && NoRepeats(sub) && s !in Members(sub)
    modifies Objects(world)
    ensures Stepped(old(Links(world)), Links(world), s, sub, CutOne(s, sub, emptyFrags), kept)
    decreases sub, 2
  {
    SteppedKept(Links(world), s, sub);
    match s {
      case SpreadSelection(node) =>
        kept := if node.name in emptyFrags then [] else [s];
      case FieldSelection(node) =>
        if |node.selectionSet| > 0 {
          var kids := RemoveEmptyFragmentSpreads(node.selectionSet, emptyFrags, world, sub);
          SteppedBelow(old(Links(world)), Links(world), s, sub, Cut(sub, emptyFrags), kids);
          SetField(node, kids, world, map[]);
        }
        kept := [s];
      case InlineSelection(node) =>
        var kids := RemoveEmptyFragmentSpreads(node.selectionSet, emptyFrags, world, sub);
        SteppedBelow(old(Links(world)), Links(world), s, sub, Cut(sub, emptyFrags), kids);
        SetInline(node, kids, world, map[]);
        kept := [s];
    }
  }

  // ------------------------------------------------------------------ the nodes of a document, and their trees

  ghost function FragmentBodies(fragments: seq<FragmentNode>): (sets: seq<seq<Selection>>)
    reads fragments
    ensures |sets| == |fragments| && forall i | 0 <= i < |fragments| :: sets[i] == fragments[i].selectionSet
  {
    seq(|fragments|, i requires 0 <= i < |fragments| reads fragments => fragments[i].selectionSet)
  }

  /** Fragments and operations stand for the trees, which have no node in common. */
  ghost predicate StandFor(fragments: seq<FragmentNode>, operations: seq<OperationNode>, world: set<Selection>,
                           fragmentTrees: seq<Expansion>, operationTrees: seq<Expansion>)
    reads fragments, operations, Objects(world)
  {
    var held := |fragments| == |fragmentTrees| && |operations| == |operationTrees|
      && Separated(Links(world), FragmentBodies(fragments) + OperationBodies(operations),
          fragmentTrees + operationTrees);
    held
  }

  lemma SeparatedUpdate(g: Graph, g': Graph, sets: seq<seq<Selection>>, hs: seq<Expansion>, k: nat, out: seq<Selection>,
      t: Expansion)
    requires Separated(g, sets, hs) && k < |sets| && Expands(g', out, t) && NoRepeats(t) && Members(t) <= Members(hs[k])
    requires Untouched(g, g', Members(hs[k]))
    ensures Separated(g', sets[k := out], hs[k := t])
  {
    forall i | 0 <= i < |hs| && i != k
      ensures Expands(g', sets[i], hs[i])
    {
      assert Members(hs[i]) !! Members(hs[k]);
      ExpandsStays(g, g', Members(hs[k]), sets[i], hs[i]);
    }
  }

  lemma SeparatedWithout(g: Graph, sets: seq<seq<Selection>>, hs: seq<Expansion>, k: nat)
    requires Separated(g, sets, hs) && k < |sets|
    ensures Separated(g, sets[..k] + sets[k + 1..], hs[..k] + hs[k + 1..])
  {
  }

  ghost predicate Different(nodes: seq<FragmentNode>) {
    var held := forall j, k | 0 <= j < k < |nodes| :: nodes[j] != nodes[k];
    held
  }

  /** A fragment's selection set is overwritten. */
  method SetFragment(fragment: FragmentNode, out: seq<Selection>, ghost fragments: seq<FragmentNode>, ghost k: nat,
                     ghost operations: seq<OperationNode>, ghost world: set<Selection>)
    requires k < |fragments| && fragments[k] == fragment && Different(fragments)
    modifies fragment
    ensures fragment.selectionSet == out
    ensures FragmentBodies(fragments) == old(FragmentBodies(fragments))[k := out]
    ensures OperationBodies(operations) == old(OperationBodies(operations)) && Links(world) == old(Links(world))
  {
    assert fragment !in Objects(world);
    fragment.selectionSet := out;
  }

  method SetOperation(operations: seq<OperationNode>, k: nat, out: seq<Selection>, ghost fragments: seq<FragmentNode>,
      ghost world: set<Selection>)
    requires k < |operations| && AllDifferent(operations)
    modifies operations[k]
    ensures operations[k].selectionSet == out
    ensures OperationBodies(operations) == old(OperationBodies(operations))[k := out]
    ensures FragmentBodies(fragments) == old(FragmentBodies(fragments)) && Links(world) == old(Links(world))
  {
    NotOperations(world, operations);
    operations[k].selectionSet := out;
  }

  lemma NotFragments(world: set<Selection>, fragments: seq<FragmentNode>)
    ensures forall f <- fragments :: f !in Objects(world)
  {
  }

  lemma StandAt(sets: seq<seq<Selection>>, sets': seq<seq<Selection>>, hs: seq<Expansion>, hs': seq<Expansion>,
      g: Graph, k: nat)
    requires Separated(g, sets + sets', hs + hs') && |sets| == |hs|
    ensures k < |sets| ==> Expands(g, sets[k], hs[k]) && NoRepeats(hs[k])
    ensures k < |sets'| ==> Expands(g, sets'[k], hs'[k]) && NoRepeats(hs'[k])
  {
    if k < |sets| {
      assert (sets + sets')[k] == sets[k] && (hs + hs')[k] == hs[k];
    }
    if k < |sets'| {
      assert (sets + sets')[|sets| + k] == sets'[k] && (hs + hs')[|hs| + k] == hs'[k];
    }
  }

  lemma StandUpdate(g: Graph, g': Graph, sets: seq<seq<Selection>>, sets': seq<seq<Selection>>, hs: seq<Expansion>,
      hs': seq<Expansion>, k: nat, out: seq<Selection>, t: Expansion)
    requires Separated(g, sets + sets', hs + hs') && |sets| == |hs| && Expands(g', out, t) && NoRepeats(t)
    ensures k < |sets| && Members(t) <= Members(hs[k]) && Untouched(g, g', Members(hs[k])) ==>
      Separated(g', sets[k := out] + sets', hs[k := t] + hs')
    ensures k < |sets'| && Members(t) <= Members(hs'[k]) && Untouched(g, g', Members(hs'[k])) ==>
      Separated(g', sets + sets'[k := out], hs + hs'[k := t])
  {
    if k < |sets| && Members(t) <= Members(hs[k]) && Untouched(g, g', Members(hs[k])) {
      SeparatedUpdate(g, g', sets + sets', hs + hs', k, out, t);
      UpdateFirst(sets, sets', k, out);
      UpdateFirst(hs, hs', k, t);
    }
    if k < |sets'| && Members(t) <= Members(hs'[k]) && Untouched(g, g', Members(hs'[k])) {
      SeparatedUpdate(g, g', sets + sets', hs + hs', |sets| + k, out, t);
      UpdateSecond(sets, sets', k, out);
      UpdateSecond(hs, hs', k, t);
    }
  }

  lemma UpdateFirst<T>(a: seq<T>, b: seq<T>, k: nat, x: T)
    requires k < |a|
    ensures (a + b)[k := x] == a[k := x] + b
  {
  }

  lemma UpdateSecond<T>(a: seq<T>, b: seq<T>, k: nat, x: T)
    requires k < |b|
    ensures (a + b)[|a| + k := x] == a + b[k := x]
  {
  }

  /** Trees that nodes stand for have spreads as leaves only. */
  lemma {:induction false} LinksEndAtSpreads(world: set<Selection>, sels: seq<Selection>, h: Expansion)
    requires Expands(Links(world), sels, h)
    ensures SpreadsAreLeaves(h)
    decreases h
  {
    if h.Sel? {
      LinksEndAtSpreads(world, Links(world)[h.s], h.sub);
      LinksEndAtSpreads(world, sels[1..], h.rest);
    }
  }

  // ------------------------------------------------------------------ one fragment, one operation

  method FilterFragment(fragment: FragmentNode, ds: Denied, ghost fragments: seq<FragmentNode>, ghost k: nat,
                        ghost operations: seq<OperationNode>, ghost world: set<Selection>,
                        ghost fragmentTrees: seq<Expansion>, ghost operationTrees: seq<Expansion>)
    requires k < |fragments| && fragments[k] == fragment && Different(fragments)
    requires StandFor(fragments, operations, world, fragmentTrees, operationTrees)
    modifies fragment, Objects(world)
    ensures |fragments| == |fragmentTrees|
    ensures StandFor(fragments, operations, world, fragmentTrees[k := Filtered(fragmentTrees[k], ds, "")],
        operationTrees)
    ensures fragment.selectionSet == [] <==> Filtered(fragmentTrees[k], ds, "").Done?
  {
    NotFragments(world, fragments);
    NotOperations(world, operations);
    StandAt(FragmentBodies(fragments), OperationBodies(operations), fragmentTrees, operationTrees, Links(world), k);
    var out := FilterSelectionSet(fragment.selectionSet, ds, "", world, fragmentTrees[k]);
    StandUpdate(old(Links(world)), Links(world), FragmentBodies(fragments), OperationBodies(operations), fragmentTrees,
        operationTrees, k, out, Filtered(fragmentTrees[k], ds, ""));
    SetFragment(fragment, out, fragments, k, operations, world);
  }

  method FilterOperation(operations: seq<OperationNode>, k: nat, ds: Denied, ghost fragments: seq<FragmentNode>,
      ghost world: set<Selection>, ghost fragmentTrees: seq<Expansion>, ghost operationTrees: seq<Expansion>)
    requires StandFor(fragments, operations, world, fragmentTrees, operationTrees) && k < |operations|
      && AllDifferent(operations)
    modifies operations[k], Objects(world)
    ensures |operations| == |operationTrees|
    ensures StandFor(fragments, operations, world, fragmentTrees,
        operationTrees[k := Filtered(operationTrees[k], ds, "")])
    ensures operations[k].selectionSet == [] <==> Filtered(operationTrees[k], ds, "").Done?
  {
    NotFragments(world, fragments);
    NotOperations(world, operations);
    StandAt(FragmentBodies(fragments), OperationBodies(operations), fragmentTrees, operationTrees, Links(world), k);
    var out := FilterSelectionSet(operations[k].selectionSet, ds, "", world, operationTrees[k]);
    StandUpdate(old(Links(world)), Links(world), FragmentBodies(fragments), OperationBodies(operations), fragmentTrees,
        operationTrees, k, out, Filtered(operationTrees[k], ds, ""));
    SetOperation(operations, k, out, fragments, world);
  }

  method CutFragment(fragment: FragmentNode, emptyFrags: set<string>, ghost fragments: seq<FragmentNode>, ghost k: nat,
                     ghost operations: seq<OperationNode>, ghost world: set<Selection>,
                     ghost fragmentTrees: seq<Expansion>, ghost operationTrees: seq<Expansion>)
    requires k < |fragments| && fragments[k] == fragment && Different(fragments)
    requires StandFor(fragments, operations, world, fragmentTrees, operationTrees)
    modifies fragment, Objects(world)
    ensures |fragments| == |fragmentTrees|
    ensures StandFor(fragments, operations, world, fragmentTrees[k := Cut(fragmentTrees[k], emptyFrags)],
        operationTrees)
  {
    NotFragments(world, fragments);
    NotOperations(world, operations);
    StandAt(FragmentBodies(fragments), OperationBodies(operations), fragmentTrees, operationTrees, Links(world), k);
    var out := RemoveEmptyFragmentSpreads(fragment.selectionSet, emptyFrags, world, fragmentTrees[k]);
    StandUpdate(old(Links(world)), Links(world), FragmentBodies(fragments), OperationBodies(operations), fragmentTrees,
        operationTrees, k, out, Cut(fragmentTrees[k], emptyFrags));
    SetFragment(fragment, out, fragments, k, operations, world);
  }

  method CutOperation(operations: seq<OperationNode>, k: nat, emptyFrags: set<string>,
      ghost fragments: seq<FragmentNode>, ghost world: set<Selection>,
                      ghost fragmentTrees: seq<Expansion>, ghost operationTrees: seq<Expansion>)
    requires StandFor(fragments, operations, world, fragmentTrees, operationTrees) && k < |operations|
      && AllDifferent(operations)
    modifies operations[k], Objects(world)
    ensures |operations| == |operationTrees|
    ensures StandFor(fragments, operations, world, fragmentTrees,
        operationTrees[k := Cut(operationTrees[k], emptyFrags)])
    ensures operations[k].selectionSet == [] <==> Cut(operationTrees[k], emptyFrags).Done?
  {
    NotFragments(world, fragments);
    NotOperations(world, operations);
    StandAt(FragmentBodies(fragments), OperationBodies(operations), fragmentTrees, operationTrees, Links(world), k);
    var out := RemoveEmptyFragmentSpreads(operations[k].selectionSet, emptyFrags, world, operationTrees[k]);
    StandUpdate(old(Links(world)), Links(world), FragmentBodies(fragments), OperationBodies(operations), fragmentTrees,
        operationTrees, k, out, Cut(operationTrees[k], emptyFrags));
    SetOperation(operations, k, out, fragments, world);
  }

  // ------------------------------------------------------------------ the passes

  ghost function NamedTrees(fragments: seq<FragmentNode>, trees: seq<Expansion>): (named: seq<FragmentTree>)
    requires |fragments| == |trees|
  {
    seq(|fragments|, i requires 0 <= i < |fragments| == |trees| => FragmentTree(fragments[i].name, trees[i]))
  }

  lemma StandWithout(fragments: seq<FragmentNode>, k: nat, operations: seq<OperationNode>, world: set<Selection>,
                     fragmentTrees: seq<Expansion>, operationTrees: seq<Expansion>)
    requires StandFor(fragments, operations, world, fragmentTrees, operationTrees) && k < |fragments|
      && Different(fragments)
    ensures |fragments| == |fragmentTrees| && Different(fragments[..k] + fragments[k + 1..])
    ensures StandFor(fragments[..k] + fragments[k + 1..], operations, world,
        fragmentTrees[..k] + fragmentTrees[k + 1..], operationTrees)
  {
    var bodies, sets := FragmentBodies(fragments), OperationBodies(operations);
    SeparatedWithout(Links(world), bodies + sets, fragmentTrees + operationTrees, k);
    assert (bodies + sets)[..k] + (bodies + sets)[k + 1..] == bodies[..k] + bodies[k + 1..] + sets;
    assert (fragmentTrees + operationTrees)[..k] + (fragmentTrees + operationTrees)[k + 1..]
      == fragmentTrees[..k] + fragmentTrees[k + 1..] + operationTrees;
    assert FragmentBodies(fragments[..k] + fragments[k + 1..]) == bodies[..k] + bodies[k + 1..];
  }

  /** Filters a fragment; an empty one no longer counts. */
  method FilterOrDrop(fragment: FragmentNode, ds: Denied, ghost fragments: seq<FragmentNode>, ghost k: nat,
                      ghost operations: seq<OperationNode>, ghost world: set<Selection>,
                      ghost fragmentTrees: seq<Expansion>, ghost operationTrees: seq<Expansion>)
    returns (empty: bool, ghost left: seq<FragmentNode>, ghost leftTrees: seq<Expansion>)
    requires k < |fragments| && fragments[k] == fragment && Different(fragments)
    requires StandFor(fragments, operations, world, fragmentTrees, operationTrees)
    modifies fragment, Objects(world)
    ensures |fragments| == |fragmentTrees| && Different(left)
      && StandFor(left, operations, world, leftTrees, operationTrees)
    ensures empty <==> Filtered(fragmentTrees[k], ds, "").Done?
    ensures left == if empty then fragments[..k] + fragments[k + 1..] else fragments
    ensures leftTrees == if empty then fragmentTrees[..k] + fragmentTrees[k + 1..]
      else fragmentTrees[k := Filtered(fragmentTrees[k], ds, "")]
  {
    FilterFragment(fragment, ds, fragments, k, operations, world, fragmentTrees, operationTrees);
    ghost var trees := fragmentTrees[k := Filtered(fragmentTrees[k], ds, "")];
    empty := |fragment.selectionSet| == 0;
    if empty {
      StandWithout(fragments, k, operations, world, trees, operationTrees);
      left, leftTrees := fragments[..k] + fragments[k + 1..], trees[..k] + trees[k + 1..];
    } else {
      left, leftTrees := fragments, trees;
    }
  }

  /** The first i fragments have been filtered into those that remain and the names of the empty ones. */
  ghost predicate FirstFiltered(fragments: seq<FragmentNode>, trees: seq<Expansion>, i: nat,
      remaining: seq<FragmentNode>, kept: seq<Expansion>, emptyFragments: set<string>, ds: Denied)
  {
    var held := i <= |fragments| == |trees| && |remaining| == |kept| && (forall f <- remaining :: f in fragments)
      && NamedTrees(remaining, kept) == FilteredFragments(NamedTrees(fragments[..i], trees[..i]), ds)
      && emptyFragments == EmptyFragments(NamedTrees(fragments[..i], trees[..i]), ds);
    held
  }

  lemma FirstFilteredNext(fragments: seq<FragmentNode>, trees: seq<Expansion>, i: nat, remaining: seq<FragmentNode>,
      kept: seq<Expansion>, emptyFragments: set<string>, ds: Denied)
    requires FirstFiltered(fragments, trees, i, remaining, kept, emptyFragments, ds) && i < |fragments|
    ensures |trees| == |fragments|
    ensures var body := Filtered(trees[i], ds, "");
      if body.Done?
      then FirstFiltered(fragments, trees, i + 1, remaining, kept, emptyFragments + {fragments[i].name}, ds)
      else FirstFiltered(fragments, trees, i + 1, remaining + [fragments[i]], kept + [body], emptyFragments, ds)
  {
    NamedNext(fragments, trees, i);
    NamedSnoc(remaining, kept, fragments[i], Filtered(trees[i], ds, ""));
    var named := NamedTrees(fragments[..i], trees[..i]);
    var last := FragmentTree(fragments[i].name, trees[i]);
    assert (named + [last])[..|named|] == named;
  }

  lemma Shift<T>(kept: seq<T>, all: seq<T>, i: nat, x: T)
    requires i < |all|
    ensures (kept + all[i..])[|kept|] == all[i] && kept + all[i..] == kept + [all[i]] + all[i + 1..]
    ensures (kept + all[i..])[..|kept|] + (kept + all[i..])[|kept| + 1..] == kept + all[i + 1..]
    ensures (kept + all[i..])[|kept| := x] == kept + [x] + all[i + 1..]
  {
  }

  /** Pass 1. */
  method FilterFragments(fragments: seq<FragmentNode>, ds: Denied, ghost operations: seq<OperationNode>,
      ghost world: set<Selection>, ghost fragmentTrees: seq<Expansion>, ghost operationTrees: seq<Expansion>)
    returns (remaining: seq<FragmentNode>, emptyFragments: set<string>, ghost kept: seq<Expansion>)
    requires StandFor(fragments, operations, world, fragmentTrees, operationTrees) && Different(fragments)
    modifies fragments, Objects(world)
    ensures Different(remaining) && StandFor(remaining, operations, world, kept, operationTrees)
    ensures FirstFiltered(fragments, fragmentTrees, |fragments|, remaining, kept, emptyFragments, ds)
    ensures forall f <- remaining :: f in fragments
  {
    remaining, emptyFragments, kept := [], {}, [];
    ghost var nodes, trees := fragments, fragmentTrees;
    assert NamedTrees(fragments[..0], fragmentTrees[..0]) == [] && NamedTrees(remaining, kept) == [];
    var i := 0;
    while i < |fragments|
      invariant 0 <= i <= |fragments| == |fragmentTrees|
      invariant nodes == remaining + fragments[i..] && trees == kept + fragmentTrees[i..]
      invariant StandFor(nodes, operations, world, trees, operationTrees) && Different(nodes)
      invariant FirstFiltered(fragments, fragmentTrees, i, remaining, kept, emptyFragments, ds)
    {
      ghost var body := Filtered(fragmentTrees[i], ds, "");
      FirstFilteredNext(fragments, fragmentTrees, i, remaining, kept, emptyFragments, ds);
      Shift(remaining, fragments, i, fragments[i]);
      Shift(kept, fragmentTrees, i, body);
      var empty, left, leftTrees := FilterOrDrop(fragments[i], ds, nodes, |remaining|, operations, world, trees,
          operationTrees);
      nodes, trees := left, leftTrees;
      if empty {
        emptyFragments := emptyFragments + {fragments[i].name};
      } else {
        remaining, kept := remaining + [fragments[i]], kept + [body];
      }
      i := i + 1;
    }
    assert nodes == remaining && trees == kept;
  }

  lemma NamedSnoc(fragments: seq<FragmentNode>, trees: seq<Expansion>, fragment: FragmentNode, tree: Expansion)
    requires |fragments| == |trees|
    ensures NamedTrees(fragments + [fragment], trees + [tree])
      == NamedTrees(fragments, trees) + [FragmentTree(fragment.name, tree)]
  {
  }

  lemma NamedNext(fragments: seq<FragmentNode>, trees: seq<Expansion>, i: nat)
    requires |fragments| == |trees| && i < |fragments|
    ensures NamedTrees(fragments[..i + 1], trees[..i + 1])
      == NamedTrees(fragments[..i], trees[..i]) + [FragmentTree(fragments[i].name, trees[i])]
  {
  }

  /** The first i operations have been filtered, and none of them is empty. */
  ghost predicate FirstOperations(trees: seq<Expansion>, before: seq<Expansion>, after: seq<Expansion>, i: nat) {
    var held := |trees| == |before| == |after| && i <= |trees|
      && (forall j | 0 <= j < i :: trees[j] == after[j] && !after[j].Done?)
      && forall j | i <= j < |trees| :: trees[j] == before[j];
    held
  }

  lemma FirstOperationsNext(trees: seq<Expansion>, before: seq<Expansion>, after: seq<Expansion>, i: nat)
    requires FirstOperations(trees, before, after, i) && i < |before|
    ensures |trees| == |after| == |before| && trees[i] == before[i]
    ensures !after[i].Done? ==> FirstOperations(trees[i := after[i]], before, after, i + 1)
    ensures after[i].Done? ==> exists op <- after :: op.Done?
  {
    assert after[i] in after;
  }

  lemma FirstOperationsLast(trees: seq<Expansion>, before: seq<Expansion>, after: seq<Expansion>)
    requires FirstOperations(trees, before, after, |before|)
    ensures trees == after && forall op <- after :: !op.Done?
  {
  }

  /** Pass 2: stops at an operation that comes out empty. */
  method FilterOperations(operations: seq<OperationNode>, ds: Denied, ghost fragments: seq<FragmentNode>,
      ghost world: set<Selection>, ghost fragmentTrees: seq<Expansion>, ghost operationTrees: seq<Expansion>)
    returns (emptied: bool)
    requires StandFor(fragments, operations, world, fragmentTrees, operationTrees) && AllDifferent(operations)
    modifies operations, Objects(world)
    ensures emptied <==> exists op <- FilteredAll(operationTrees, ds) :: op.Done?
    ensures !emptied ==> StandFor(fragments, operations, world, fragmentTrees, FilteredAll(operationTrees, ds))
  {
    ghost var trees, after := operationTrees, FilteredAll(operationTrees, ds);
    var i := 0;
    while i < |operations|
      invariant 0 <= i <= |operations| == |operationTrees|
      invariant StandFor(fragments, operations, world, fragmentTrees, trees)
        && FirstOperations(trees, operationTrees, after, i)
    {
      FirstOperationsNext(trees, operationTrees, after, i);
      FilterOperation(operations, i, ds, fragments, world, fragmentTrees, trees);
      if |operations[i].selectionSet| == 0 {
        return true;
      }
      trees, i := trees[i := after[i]], i + 1;
    }
    FirstOperationsLast(trees, operationTrees, after);
    emptied := false;
  }

  /** Pass 3, for the operations. */
  method CutOperations(operations: seq<OperationNode>, emptyFrags: set<string>, ghost fragments: seq<FragmentNode>,
      ghost world: set<Selection>, ghost fragmentTrees: seq<Expansion>, ghost operationTrees: seq<Expansion>)
    returns (emptied: bool)
    requires StandFor(fragments, operations, world, fragmentTrees, operationTrees) && AllDifferent(operations)
    modifies operations, Objects(world)
    ensures emptied <==> exists op <- CutAll(operationTrees, emptyFrags) :: op.Done?
    ensures !emptied ==> StandFor(fragments, operations, world, fragmentTrees, CutAll(operationTrees, emptyFrags))
  {
    ghost var trees, after := operationTrees, CutAll(operationTrees, emptyFrags);
    var i := 0;
    while i < |operations|
      invariant 0 <= i <= |operations| == |operationTrees|
      invariant StandFor(fragments, operations, world, fragmentTrees, trees)
        && FirstOperations(trees, operationTrees, after, i)
    {
      FirstOperationsNext(trees, operationTrees, after, i);
      CutOperation(operations, i, emptyFrags, fragments, world, fragmentTrees, trees);
      if |operations[i].selectionSet| == 0 {
        return true;
      }
      trees, i := trees[i := after[i]], i + 1;
    }
    FirstOperationsLast(trees, operationTrees, after);
    emptied := false;
  }

  ghost predicate FirstCut(trees: seq<Expansion>, before: seq<Expansion>, emptyFrags: set<string>, i: nat) {
    var held := |trees| == |before| && i <= |trees|
      && (forall j | 0 <= j < i :: trees[j] == Cut(before[j], emptyFrags))
      && forall j | i <= j < |trees| :: trees[j] == before[j];
    held
  }

  lemma FirstCutNext(trees: seq<Expansion>, before: seq<Expansion>, emptyFrags: set<string>, i: nat)
    requires FirstCut(trees, before, emptyFrags, i) && i < |before|
    ensures |trees| == |before| && trees[i] == before[i]
      && FirstCut(trees[i := Cut(before[i], emptyFrags)], before, emptyFrags, i + 1)
  {
  }

  lemma FirstCutLast(fragments: seq<FragmentNode>, trees: seq<Expansion>, before: seq<Expansion>,
      emptyFrags: set<string>)
    requires FirstCut(trees, before, emptyFrags, |before|) && |fragments| == |before|
    ensures |trees| == |before|
      && NamedTrees(fragments, trees) == CutFragments(NamedTrees(fragments, before), emptyFrags)
  {
  }

  /** Pass 3, for the fragments. */
  method CutRemaining(fragments: seq<FragmentNode>, emptyFrags: set<string>, ghost operations: seq<OperationNode>,
      ghost world: set<Selection>, ghost fragmentTrees: seq<Expansion>, ghost operationTrees: seq<Expansion>)
    returns (ghost trees: seq<Expansion>)
    requires StandFor(fragments, operations, world, fragmentTrees, operationTrees) && Different(fragments)
    modifies fragments, Objects(world)
    ensures StandFor(fragments, operations, world, trees, operationTrees)
    ensures |fragments| == |trees| == |fragmentTrees|
      && NamedTrees(fragments, trees) == CutFragments(NamedTrees(fragments, fragmentTrees), emptyFrags)
  {
    trees := fragmentTrees;
    var i := 0;
    while i < |fragments|
      invariant 0 <= i <= |fragments| == |fragmentTrees|
      invariant StandFor(fragments, operations, world, trees, operationTrees)
        && FirstCut(trees, fragmentTrees, emptyFrags, i)
    {
      FirstCutNext(trees, fragmentTrees, emptyFrags, i);
      CutFragment(fragments[i], emptyFrags, fragments, i, operations, world, trees, operationTrees);
      trees, i := trees[i := Cut(fragmentTrees[i], emptyFrags)], i + 1;
    }
    FirstCutLast(fragments, trees, fragmentTrees, emptyFrags);
  }

  method SetFragments(doc: DocumentNode, remaining: seq<FragmentNode>, ghost operations: seq<OperationNode>,
      ghost world: set<Selection>, ghost kept: seq<Expansion>, ghost operationTrees: seq<Expansion>)
    requires StandFor(remaining, operations, world, kept, operationTrees)
    modifies doc
    ensures doc.fragments == remaining && doc.operations == old(doc.operations)
    ensures StandFor(remaining, operations, world, kept, operationTrees)
  {
    NotDocument(world, operations, doc);
    doc.fragments := remaining;
  }

  /** Passes 2 and 3. */
  method FinishPasses(operations: seq<OperationNode>, remaining: seq<FragmentNode>, emptyFragments: set<string>,
      ds: Denied, ghost world: set<Selection>, ghost kept: seq<Expansion>, ghost operationTrees: seq<Expansion>)
    returns (refused: bool, ghost fragmentTrees': seq<Expansion>, ghost operationTrees': seq<Expansion>)
    requires AllDifferent(operations) && Different(remaining)
      && StandFor(remaining, operations, world, kept, operationTrees)
    modifies operations, remaining, Objects(world)
    ensures var filtered := FilteredAll(operationTrees, ds);
      refused <==>
      (exists op <- filtered :: op.Done?)
      || (emptyFragments != {} && exists op <- CutAll(filtered, emptyFragments) :: op.Done?)
    ensures !refused ==> StandFor(remaining, operations, world, fragmentTrees', operationTrees')
    ensures !refused ==> |remaining| == |kept| == |fragmentTrees'|
    ensures !refused && emptyFragments == {}
      ==> fragmentTrees' == kept && operationTrees' == FilteredAll(operationTrees, ds)
    ensures !refused && emptyFragments != {} ==>
      && NamedTrees(remaining, fragmentTrees') == CutFragments(NamedTrees(remaining, kept), emptyFragments)
      && operationTrees' == CutAll(FilteredAll(operationTrees, ds), emptyFragments)
  {
    fragmentTrees', operationTrees' := kept, FilteredAll(operationTrees, ds);
    refused := FilterOperations(operations, ds, remaining, world, kept, operationTrees);
    if refused || |emptyFragments| == 0 {
      return;
    }
    refused := CutOperations(operations, emptyFragments, remaining, world, kept, operationTrees');
    if refused {
      return;
    }
    operationTrees' := CutAll(operationTrees', emptyFragments);
    fragmentTrees' := CutRemaining(remaining, emptyFragments, operations, world, kept, operationTrees');
  }

  /** What the passes give is what they should. */
  lemma PassesGive(fragments: seq<FragmentNode>, fragmentTrees: seq<Expansion>, operationTrees: seq<Expansion>,
      ds: Denied, remaining: seq<FragmentNode>, kept: seq<Expansion>, emptyFragments: set<string>)
    requires FirstFiltered(fragments, fragmentTrees, |fragments|, remaining, kept, emptyFragments, ds)
    ensures |fragments| == |fragmentTrees| && |remaining| == |kept|
    ensures emptyFragments == EmptyFragments(NamedTrees(fragments, fragmentTrees), ds)
    ensures NamedTrees(remaining, kept) == FilteredFragments(NamedTrees(fragments, fragmentTrees), ds)
  {
    assert fragments[..|fragments|] == fragments && fragmentTrees[..|fragments|] == fragmentTrees;
  }

  /** What is left of the document stands for what the passes leave of its trees. */
  ghost predicate Removed(doc: DocumentNode, world: set<Selection>, before: Trees, ds: Denied, refused: bool,
                          fragmentTrees: seq<Expansion>, operationTrees: seq<Expansion>)
    reads doc, doc.fragments, doc.operations, Objects(world)
  {
    var held :=
      if refused then AfterPasses(before, ds) == ErrEmptyQuery
      else
        && StandFor(doc.fragments, doc.operations, world, fragmentTrees, operationTrees)
        && |doc.fragments| == |fragmentTrees|
        && AfterPasses(before, ds) == Passed(Trees(NamedTrees(doc.fragments, fragmentTrees), operationTrees));
    held
  }

  method RunPasses(doc: DocumentNode, fragments: seq<FragmentNode>, operations: seq<OperationNode>, ds: Denied,
      ghost world: set<Selection>, ghost fragmentTrees: seq<Expansion>, ghost operationTrees: seq<Expansion>)
    returns (refused: bool, ghost fragmentTrees': seq<Expansion>, ghost operationTrees': seq<Expansion>)
    requires Different(fragments) && AllDifferent(operations) && doc.fragments == fragments
      && doc.operations == operations
    requires |fragments| == |fragmentTrees| && StandFor(fragments, operations, world, fragmentTrees, operationTrees)
    modifies doc, fragments, operations, Objects(world)
    ensures doc.operations == operations
    ensures Removed(doc, world, Trees(NamedTrees(fragments, fragmentTrees), operationTrees), ds, refused,
        fragmentTrees', operationTrees')
  {
    NotDocument(world, operations, doc);
    assert forall f <- fragments :: (f as object) != doc;
    var remaining, emptyFragments, kept := FilterFragments(fragments, ds, operations, world, fragmentTrees,
        operationTrees);
    PassesGive(fragments, fragmentTrees, operationTrees, ds, remaining, kept, emptyFragments);
    SetFragments(doc, remaining, operations, world, kept, operationTrees);
    assert forall i | 0 <= i < |remaining| :: remaining[i] in fragments;
    refused, fragmentTrees', operationTrees' := FinishPasses(operations, remaining, emptyFragments, ds, world, kept,
        operationTrees);
    assert doc.fragments == remaining && doc.operations == operations;
  }

  // ------------------------------------------------------------------ what the client can tell

  predicate NamesGiven(world: set<Selection>) {
    forall s <- world | s.FieldSelection? :: s.field.name != ""
  }

  lemma {:induction false} FieldsAreGiven(g: Graph, sels: seq<Selection>, h: Expansion)
    requires Expands(g, sels, h) && NamesGiven(g.Keys)
    ensures "" !in FieldNames(h)
    decreases h
  {
    if h.Sel? {
      FieldsAreGiven(g, g[h.s], h.sub);
      FieldsAreGiven(g, sels[1..], h.rest);
    }
  }

  lemma TreesAreGiven(fragments: seq<FragmentNode>, operations: seq<OperationNode>, world: set<Selection>,
      fragmentTrees: seq<Expansion>, operationTrees: seq<Expansion>)
    requires |fragments| == |fragmentTrees| && NamesGiven(world)
    requires StandFor(fragments, operations, world, fragmentTrees, operationTrees)
    ensures var t := Trees(NamedTrees(fragments, fragmentTrees), operationTrees);
      HollowSelections.AllStandFor(Links(world), t) && PermittedTrails.NamesGiven(t)
  {
    var g, t := Links(world), Trees(NamedTrees(fragments, fragmentTrees), operationTrees);
    var sets, hs := FragmentBodies(fragments) + OperationBodies(operations), fragmentTrees + operationTrees;
    forall f <- t.fragments
      ensures HollowSelections.StandsFor(g, f.body) && "" !in FieldNames(f.body)
    {
      var i := IndexIn(t.fragments, f);
      assert hs[i] == f.body;
      HollowSelections.ExpansionStandsFor(g, sets[i], hs[i]);
      FieldsAreGiven(g, sets[i], hs[i]);
    }
    forall op <- t.operations
      ensures HollowSelections.StandsFor(g, op) && "" !in FieldNames(op)
    {
      var i := IndexIn(t.operations, op);
      var k := |fragmentTrees| + i;
      assert hs[k] == op;
      HollowSelections.ExpansionStandsFor(g, sets[k], hs[k]);
      FieldsAreGiven(g, sets[k], hs[k]);
    }
  }

  /** In terms of the entries: refused exactly when some operation is left with nothing that is allowed, and otherwise
      exactly what is allowed is left. */
  ghost predicate RemovedAsDenied(g: Graph, before: Trees, after: Trees, entries: seq<string>, refused: bool) {
    var held :=
      && (refused <==> PermittedTrails.SomeOperationDenied(g, before, entries))
      && (!refused ==> PermittedTrails.AllowedIsLeft(g, before, after, entries));
    held
  }

  lemma OutcomeIsAllowed(g: Graph, before: Trees, entries: seq<string>)
    requires HollowSelections.AllStandFor(g, before) && PermittedTrails.NamesGiven(before)
    ensures match AfterPasses(before, Parse(entries))
      case Passed(after) => RemovedAsDenied(g, before, after, entries, false)
      case ErrEmptyQuery => RemovedAsDenied(g, before, before, entries, true)
  {
    PermittedTrails.PassesLeaveAllowed(g, before, entries);
  }

  /** removeFields, from the document parsed to the document printed. */
  method RemoveFields(doc: DocumentNode, deniedFields: seq<string>, ghost world: set<Selection>,
                      ghost fragmentTrees: seq<Expansion>, ghost operationTrees: seq<Expansion>)
    returns (refused: bool, ghost fragmentTrees': seq<Expansion>, ghost operationTrees': seq<Expansion>)
    requires Different(doc.fragments) && AllDifferent(doc.operations)
    requires |doc.fragments| == |fragmentTrees|
      && StandFor(doc.fragments, doc.operations, world, fragmentTrees, operationTrees)
    modifies doc, doc.fragments, doc.operations, Objects(world)
    ensures doc.operations == old(doc.operations)
    ensures Removed(doc, world, Trees(NamedTrees(old(doc.fragments), fragmentTrees), operationTrees),
        Parse(deniedFields), refused, fragmentTrees', operationTrees')
    ensures NamesGiven(world) ==>
      RemovedAsDenied(old(Links(world)), Trees(NamedTrees(old(doc.fragments), fragmentTrees), operationTrees),
        if refused then Trees(NamedTrees(old(doc.fragments), fragmentTrees), operationTrees)
        else Trees(NamedTrees(doc.fragments, fragmentTrees'), operationTrees'), deniedFields, refused)
  {
    if NamesGiven(world) {
      TreesAreGiven(doc.fragments, doc.operations, world, fragmentTrees, operationTrees);
      OutcomeIsAllowed(Links(world), Trees(NamedTrees(doc.fragments, fragmentTrees), operationTrees), deniedFields);
    }
    var ds := ParseDeniedFields(deniedFields);
    refused, fragmentTrees', operationTrees' := RunPasses(doc, doc.fragments, doc.operations, ds, world, fragmentTrees,
        operationTrees);
  }
}
