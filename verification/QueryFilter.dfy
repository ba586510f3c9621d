// The filter itself: it rewrites the operations of a parsed document in place and replaces its fragments
// by specialised variants. Each method is proved to do what the function of the same purpose in
// `VariantFilter` computes.
module QueryFilter {
  import opened Text
  import opened Document
  import opened SalaryPolicy
  import opened VariantFilter
  import opened SyntaxNodes
  import opened Wrappers
  import SalaryOccurrences

  // ------------------------------------------------------------------ splitting a selection set

  lemma {:induction false} FilterAppend(env: Env, s: State, a: SelectionSet, b: SelectionSet, context: Context)
    requires Filter(env, s, a, context).Some?
    ensures Chained(env, s, a, b, context)
    decreases |Unclaimed(env, s)|, Size(a), 2
  {
    match a
    case End =>
    case Field(name, id, _, sub, rest) => FieldAppend(env, s, a, b, context);
    case Inline(_, sub, rest) => InlineAppend(env, s, a, b, context);
    case Spread(name, _, rest) => SpreadAppend(env, s, a, b, context);
  }

  lemma {:induction false} InlineAppend(env: Env, s: State, a: SelectionSet, b: SelectionSet, context: Context)
    requires a.Inline? && Filter(env, s, a, context).Some?
    ensures Chained(env, s, a, b, context)
    decreases |Unclaimed(env, s)|, Size(a), 0
  {
    var child := Filter(env, s, a.sub, context).value;
    MoreClaimed(env, s, child.state);
    FilterAppend(env, child.state, a.rest, b, context);
  }

  lemma {:induction false} SpreadAppend(env: Env, s: State, a: SelectionSet, b: SelectionSet, context: Context)
    requires a.Spread? && Filter(env, s, a, context).Some?
    ensures Chained(env, s, a, b, context)
    decreases |Unclaimed(env, s)|, Size(a), 0
  {
    var e := EnsureVariant(env, s, a.name, context).value;
    MoreClaimed(env, s, e.state);
    FilterAppend(env, e.state, a.rest, b, context);
  }

  lemma {:induction false} FieldAppend(env: Env, s: State, a: SelectionSet, b: SelectionSet, context: Context)
    requires a.Field? && Filter(env, s, a, context).Some?
    ensures Chained(env, s, a, b, context)
    decreases |Unclaimed(env, s)|, Size(a), 1
  {
    if Hidden(context, a.name) {
      FilterAppend(env, s.(removed := s.removed + {REMOVED_SALARY}), a.rest, b, context);
    } else if a.sub.End? {
      FilterAppend(env, s, a.rest, b, context);
    } else {
      NestedFieldAppend(env, s, a, b, context);
    }
  }

  lemma {:induction false} NestedFieldAppend(env: Env, s: State, a: SelectionSet, b: SelectionSet, context: Context)
    requires a.Field? && Filter(env, s, a, context).Some?
    requires !Hidden(context, a.name) && !a.sub.End?
    ensures Chained(env, s, a, b, context)
    decreases |Unclaimed(env, s)|, Size(a), 0
  {
    var child := Filter(env, s, a.sub, Enter(env.policy, context, a.name, a.id)).value;
    MoreClaimed(env, s, child.state);
    FilterAppend(env, child.state, a.rest, b, context);
    NestedField(env, s, a.name, a.id, a.attrs, a.sub, a.rest, context);
    NestedField(env, s, a.name, a.id, a.attrs, a.sub, Append(a.rest, b), context);
  }

  /** A visible field with children: they are filtered, then what comes after it. */
  lemma NestedField(env: Env, s: State, name: string, id: IdArgument, attrs: string, sub: SelectionSet,
      rest: SelectionSet, context: Context)
    requires !Hidden(context, name) && !CheckFails(env.policy, name, id) && !sub.End?
    requires Filter(env, s, sub, Enter(env.policy, context, name, id)).Some?
    ensures var child := Filter(env, s, sub, Enter(env.policy, context, name, id)).value;
      var f := Filter(env, child.state, rest, context);
      Filter(env, s, Field(name, id, attrs, sub, rest), context)
      == if f.None? then None
         else Some(Filtered(f.value.state,
                            if child.sels.End? then f.value.sels else Field(name, id, attrs, child.sels, f.value.sels)))
  {
  }

  /** Filtering a then b is filtering both. */
  ghost predicate Chained(env: Env, s: State, a: SelectionSet, b: SelectionSet, context: Context)
    requires Filter(env, s, a, context).Some?
  {
    var f := Filter(env, s, a, context).value;
    var g := Filter(env, f.state, b, context);
    Filter(env, s, Append(a, b), context)
    == if g.None? then None else Some(Filtered(g.value.state, Append(f.sels, g.value.sels)))
  }

  lemma FilterEnd(env: Env, s: State, context: Context)
    ensures Filter(env, s, End, context) == Some(Filtered(s, End))
  {
  }

  /** A visible field with children, on its own, fails as its children do. */
  lemma OneFieldFails(env: Env, s: State, name: string, id: IdArgument, attrs: string, sub: SelectionSet,
      context: Context)
    requires !Hidden(context, name) && !sub.End?
    requires Filter(env, s, sub, Enter(env.policy, context, name, id)).None?
    ensures Filter(env, s, Field(name, id, attrs, sub, End), context).None?
  {
  }

  /** It is kept unless its children filter to nothing. */
  lemma OneFieldKept(env: Env, s: State, name: string, id: IdArgument, attrs: string, sub: SelectionSet,
      context: Context, f: Filtered)
    requires !Hidden(context, name) && !CheckFails(env.policy, name, id) && !sub.End?
    requires Filter(env, s, sub, Enter(env.policy, context, name, id)) == Some(f)
    ensures Filter(env, s, Field(name, id, attrs, sub, End), context)
            == Some(Filtered(f.state, if f.sels.End? then End else Field(name, id, attrs, f.sels, End)))
  {
    FilterEnd(env, f.state, context);
  }

  lemma {:induction false} FilterAppendFails(env: Env, s: State, a: SelectionSet, b: SelectionSet, context: Context)
    requires Filter(env, s, a, context).None?
    ensures Filter(env, s, Append(a, b), context).None?
    decreases |Unclaimed(env, s)|, Size(a), 1
  {
    match a
    case End =>
    case Field(name, id, _, sub, rest) =>
      if Hidden(context, name) {
        FilterAppendFails(env, s.(removed := s.removed + {REMOVED_SALARY}), rest, b, context);
      } else if !CheckFails(env.policy, name, id) {
        if sub.End? {
          FilterAppendFails(env, s, rest, b, context);
        } else {
          var child := Filter(env, s, sub, Enter(env.policy, context, name, id));
          if child.Some? {
            MoreClaimed(env, s, child.value.state);
            FilterAppendFails(env, child.value.state, rest, b, context);
          }
        }
      }
    case Inline(_, _, _) => InlineAppendFails(env, s, a, b, context);
    case Spread(_, _, _) => SpreadAppendFails(env, s, a, b, context);
  }

  lemma {:induction false} InlineAppendFails(env: Env, s: State, a: SelectionSet, b: SelectionSet, context: Context)
    requires a.Inline? && Filter(env, s, a, context).None?
    ensures Filter(env, s, Append(a, b), context).None?
    decreases |Unclaimed(env, s)|, Size(a), 0
  {
    var child := Filter(env, s, a.sub, context);
    if child.Some? {
      MoreClaimed(env, s, child.value.state);
      FilterAppendFails(env, child.value.state, a.rest, b, context);
    }
  }

  lemma {:induction false} SpreadAppendFails(env: Env, s: State, a: SelectionSet, b: SelectionSet, context: Context)
    requires a.Spread? && Filter(env, s, a, context).None?
    ensures Filter(env, s, Append(a, b), context).None?
    decreases |Unclaimed(env, s)|, Size(a), 0
  {
    var e := EnsureVariant(env, s, a.name, context);
    if e.Some? {
      MoreClaimed(env, s, e.value.state);
      FilterAppendFails(env, e.value.state, a.rest, b, context);
    }
  }

  ghost predicate Suffix(selectionSet: seq<Selection>, i: nat, rest: seq<Selection>) {
    var held := i <= |selectionSet| && rest == selectionSet[i..];
    held
  }

  lemma SuffixNext(selectionSet: seq<Selection>, i: nat, rest: seq<Selection>)
    requires Suffix(selectionSet, i, rest) && i < |selectionSet|
    ensures rest != [] && rest[0] == selectionSet[i] && Suffix(selectionSet, i + 1, rest[1..])
  {
  }

  lemma SuffixEnd(selectionSet: seq<Selection>, i: nat, rest: seq<Selection>)
    requires Suffix(selectionSet, i, rest) && i == |selectionSet|
    ensures |rest| == 0
  {
  }

  // ------------------------------------------------------------------ the filter object

  function FragmentValues(fragments: seq<FragmentNode>, shapes: seq<Shape>): (values: seq<Fragment>)
    requires |fragments| == |shapes|
    ensures |values| == |fragments|
  {
    seq(|fragments|, i requires 0 <= i < |fragments| =>
      Fragment(fragments[i].name, fragments[i].attrs, Value(shapes[i])))
  }

  lemma FragmentValuesNext(fragments: seq<FragmentNode>, shapes: seq<Shape>, i: nat)
    requires |fragments| == |shapes| && i < |fragments|
    ensures var next := Fragment(fragments[i].name, fragments[i].attrs, Value(shapes[i]));
            ByName(FragmentValues(fragments[..i + 1], shapes[..i + 1]))
            == ByName(FragmentValues(fragments[..i], shapes[..i]))[fragments[i].name := next]
  {
    var longer := FragmentValues(fragments[..i + 1], shapes[..i + 1]);
    assert longer[..i] == FragmentValues(fragments[..i], shapes[..i]);
  }

  /** The fragments by name stand for their values, and are made of nothing but objects of the region. */
  ghost predicate Originals(byName: map<string, FragmentNode>, shapes: map<string, Shape>, values: Fragments,
      region: set<object>)
    reads region
  {
    var held :=
      && byName.Keys == shapes.Keys == values.Keys
      && forall n {:trigger Visit(n)} :: Visit(n) && n in shapes ==>
           && byName[n] in region && Nodes(shapes[n]) <= region
           && values[n] == Fragment(byName[n].name, byName[n].attrs, Value(shapes[n]))
           && Linked(byName[n].selectionSet, shapes[n]);
    held
  }

  lemma OriginalsIndexed(fragments: seq<FragmentNode>, shapes: seq<Shape>, byName: map<string, FragmentNode>,
      index: map<string, nat>, values: Fragments, originals: map<string, Shape>)
    requires |fragments| == |shapes| && byName.Keys == index.Keys == values.Keys == originals.Keys
    requires forall i :: 0 <= i < |shapes| ==> Linked(fragments[i].selectionSet, shapes[i])
    requires forall n <- index ::
               && index[n] < |fragments| && byName[n] == fragments[index[n]] && originals[n] == shapes[index[n]]
               && values[n] == Fragment(byName[n].name, byName[n].attrs, Value(shapes[index[n]]))
    ensures Originals(byName, originals, values, AllNodes(fragments, shapes))
  {
    forall n | Visit(n) && n in originals
      ensures byName[n] in AllNodes(fragments, shapes) && Nodes(originals[n]) <= AllNodes(fragments, shapes)
    {
      AllNodesHas(fragments, shapes, index[n]);
    }
  }

  /** The fragments by name, the last definition of a name counting, and the shapes of their bodies. */
  method IndexFragments(fragments: seq<FragmentNode>, ghost shapes: seq<Shape>)
    returns (byName: map<string, FragmentNode>, ghost originals: map<string, Shape>)
    requires |fragments| == |shapes|
    requires forall i :: 0 <= i < |shapes| ==> Linked(fragments[i].selectionSet, shapes[i])
    ensures Originals(byName, originals, ByName(FragmentValues(fragments, shapes)), AllNodes(fragments, shapes))
    ensures Indexes(byName, fragments)
  {
    IndexesNone(fragments);
    forall k | 0 <= k < |shapes|
      ensures forall o <- Nodes(shapes[k]) :: allocated(o)
    {
      NodesExist(shapes[k]);
    }
    byName := map[];
    ghost var index: map<string, nat> := map[];
    var i := 0;
    while i < |fragments|
      invariant 0 <= i <= |fragments| && FirstIndexed(fragments, shapes, i, byName, index)
      invariant Indexes(byName, fragments[..i])
    {
      FirstIndexedNext(fragments, shapes, i, byName, index);
      IndexesNext(byName, fragments, i);
      byName, index := byName[fragments[i].name := fragments[i]], index[fragments[i].name := i];
      i := i + 1;
    }
    IndexesAll(byName, fragments);
    originals := map n <- index :: shapes[index[n]];
    AllIndexed(fragments, shapes, byName, index, originals);
  }

  lemma AllIndexed(fragments: seq<FragmentNode>, shapes: seq<Shape>, byName: map<string, FragmentNode>,
      index: map<string, nat>, originals: map<string, Shape>)
    requires FirstIndexed(fragments, shapes, |fragments|, byName, index)
    requires forall i :: 0 <= i < |shapes| ==> Linked(fragments[i].selectionSet, shapes[i])
    requires originals.Keys == index.Keys
      && forall n <- index :: index[n] < |shapes| && originals[n] == shapes[index[n]]
    ensures Originals(byName, originals, ByName(FragmentValues(fragments, shapes)), AllNodes(fragments, shapes))
  {
    assert fragments[..|fragments|] == fragments && shapes[..|shapes|] == shapes;
    OriginalsIndexed(fragments, shapes, byName, index, ByName(FragmentValues(fragments, shapes)), originals);
  }

  /** The first i fragments are indexed, the last definition of a name counting. */
  ghost predicate FirstIndexed(fragments: seq<FragmentNode>, shapes: seq<Shape>, i: nat,
      byName: map<string, FragmentNode>, index: map<string, nat>)
  {
    var held := |fragments| == |shapes| && i <= |fragments|
      && var values := ByName(FragmentValues(fragments[..i], shapes[..i]));
         && byName.Keys == index.Keys == values.Keys
         && forall n <- index ::
              && index[n] < i && byName[n] == fragments[index[n]]
              && values[n] == Fragment(byName[n].name, byName[n].attrs, Value(shapes[index[n]]));
    held
  }

  lemma FirstIndexedNext(fragments: seq<FragmentNode>, shapes: seq<Shape>, i: nat, byName: map<string, FragmentNode>,
      index: map<string, nat>)
    requires FirstIndexed(fragments, shapes, i, byName, index) && i < |fragments|
    ensures FirstIndexed(fragments, shapes, i + 1, byName[fragments[i].name := fragments[i]],
        index[fragments[i].name := i])
  {
    FragmentValuesNext(fragments, shapes, i);
  }

  /** The fragment definitions and all nodes in them. */
  ghost function AllNodes(fragments: seq<FragmentNode>, shapes: seq<Shape>): (nodes: set<object>)
    requires |fragments| == |shapes|
    ensures forall o <- nodes :: o is FragmentNode || o is FieldNode || o is InlineNode
  {
    (set i | 0 <= i < |fragments| :: fragments[i] as object)
    + (set i, o | 0 <= i < |shapes| && o in Nodes(shapes[i]) :: o)
  }

  ghost predicate FragmentsLinked(fragments: seq<FragmentNode>, shapes: seq<Shape>)
    requires |fragments| == |shapes|
    reads AllNodes(fragments, shapes)
  {
    var held := forall i :: 0 <= i < |fragments| ==>
                  fragments[i] in AllNodes(fragments, shapes) && Nodes(shapes[i]) <= AllNodes(fragments, shapes)
                  && Linked(fragments[i].selectionSet, shapes[i]);
    held
  }

  // ------------------------------------------------------------------ operations

  function OperationValues(operations: seq<OperationNode>, shapes: seq<Shape>): (values: seq<Operation>)
    requires |operations| == |shapes|
    ensures |values| == |operations|
  {
    seq(|operations|, i requires 0 <= i < |operations| => Operation(operations[i].attrs, Value(shapes[i])))
  }

  ghost function OperationObjects(operations: seq<OperationNode>, shapes: seq<Shape>): (objects: set<object>)
    requires |operations| == |shapes|
    ensures forall o <- objects :: o is OperationNode || o is FieldNode || o is InlineNode
  {
    if operations == [] then {} else {operations[0]} + Nodes(shapes[0]) + OperationObjects(operations[1..], shapes[1..])
  }

  ghost predicate OperationsLinked(operations: seq<OperationNode>, shapes: seq<Shape>)
    requires |operations| == |shapes|
    reads OperationObjects(operations, shapes)
  {
    operations != [] ==> Linked(operations[0].selectionSet, shapes[0]) && OperationsLinked(operations[1..], shapes[1..])
  }

  /** The names the operations spread. */
  method OperationNames(operations: seq<OperationNode>, ghost shapes: seq<Shape>) returns (names: set<string>)
    requires |operations| == |shapes| && OperationsLinked(operations, shapes)
    ensures names == OperationSpreads(OperationValues(operations, shapes))
  {
    names := {};
    ghost var left, leftShapes := operations, shapes;
    var i := 0;
    while i < |operations|
      invariant 0 <= i <= |operations| && left == operations[i..] && leftShapes == shapes[i..]
      invariant OperationsLinked(left, leftShapes)
      invariant OperationSpreads(OperationValues(operations, shapes))
        == names + OperationSpreads(OperationValues(left, leftShapes))
    {
      OperationsExist(left[1..], leftShapes[1..]);
      SpreadsOfFirst(left, leftShapes);
      var below := CollectFragmentSpreads(operations[i].selectionSet, leftShapes[0]);
      names := names + below;
      left, leftShapes, i := left[1..], leftShapes[1..], i + 1;
    }
  }

  lemma {:induction false} OperationsExist(operations: seq<OperationNode>, shapes: seq<Shape>)
    requires |operations| == |shapes|
    ensures forall o <- OperationObjects(operations, shapes) :: allocated(o)
  {
    if operations != [] {
      NodesExist(shapes[0]);
      OperationsExist(operations[1..], shapes[1..]);
    }
  }

  lemma SpreadsOfFirst(operations: seq<OperationNode>, shapes: seq<Shape>)
    requires |operations| == |shapes| > 0
    ensures OperationSpreads(OperationValues(operations, shapes))
            == Spreads(Value(shapes[0])) + OperationSpreads(OperationValues(operations[1..], shapes[1..]))
  {
    var values, rest := OperationValues(operations, shapes), OperationValues(operations[1..], shapes[1..]);
    assert values == [Operation(operations[0].attrs, Value(shapes[0]))] + rest;
  }

  /** No node belongs to two operations, or occurs twice in one. */
  ghost predicate OperationsApart(operations: seq<OperationNode>, shapes: seq<Shape>)
    requires |operations| == |shapes|
  {
    operations != [] ==>
      && Separate(shapes[0])
      && {operations[0]} + Nodes(shapes[0]) !! OperationObjects(operations[1..], shapes[1..])
      && OperationsApart(operations[1..], shapes[1..])
  }

  /** Some operations are filtered and kept, the others are left as they were. */
  ghost predicate Between(left: seq<OperationNode>, leftShapes: seq<Shape>, kept: seq<OperationNode>,
      keptShapes: seq<Shape>, mine: set<object>)
    requires |left| == |leftShapes| && |kept| == |keptShapes|
    reads OperationObjects(left, leftShapes), OperationObjects(kept, keptShapes)
  {
    var held :=
      && OperationsLinked(left, leftShapes) && OperationsApart(left, leftShapes) && OperationsLinked(kept, keptShapes)
      && OperationObjects(left, leftShapes) <= mine && OperationObjects(kept, keptShapes) <= mine
      && OperationObjects(left, leftShapes) !! OperationObjects(kept, keptShapes);
    held
  }

  lemma BetweenFirst(left: seq<OperationNode>, leftShapes: seq<Shape>, kept: seq<OperationNode>, keptShapes: seq<Shape>,
      mine: set<object>)
    requires |left| == |leftShapes| > 0 && |kept| == |keptShapes| && Between(left, leftShapes, kept, keptShapes, mine)
    ensures Linked(left[0].selectionSet, leftShapes[0]) && Separate(leftShapes[0])
    ensures left[0] in mine && Nodes(leftShapes[0]) <= mine
    ensures OperationsLinked(left[1..], leftShapes[1..]) && OperationsLinked(kept, keptShapes)
    ensures OperationsApart(left[1..], leftShapes[1..])
    ensures {left[0]} + Nodes(leftShapes[0]) !! OperationObjects(left[1..], leftShapes[1..])
    ensures {left[0]} + Nodes(leftShapes[0]) !! OperationObjects(kept, keptShapes)
    ensures OperationObjects(left[1..], leftShapes[1..]) !! OperationObjects(kept, keptShapes)
    ensures OperationObjects(left[1..], leftShapes[1..]) <= mine && OperationObjects(kept, keptShapes) <= mine
  {
  }

  lemma BetweenNext(left: seq<OperationNode>, leftShapes: seq<Shape>, kept: seq<OperationNode>, keptShapes: seq<Shape>,
      g: Shape, mine: set<object>)
    requires |left| == |leftShapes| > 0 && |kept| == |keptShapes|
    requires Linked(left[0].selectionSet, g) && Nodes(g) <= Nodes(leftShapes[0])
    requires left[0] in mine && Nodes(leftShapes[0]) <= mine
    requires OperationsLinked(left[1..], leftShapes[1..]) && OperationsLinked(kept, keptShapes)
    requires OperationsApart(left[1..], leftShapes[1..])
    requires {left[0]} + Nodes(leftShapes[0]) !! OperationObjects(left[1..], leftShapes[1..])
    requires OperationObjects(left[1..], leftShapes[1..]) !! OperationObjects(kept, keptShapes)
    requires OperationObjects(left[1..], leftShapes[1..]) <= mine && OperationObjects(kept, keptShapes) <= mine
    ensures Between(left[1..], leftShapes[1..], kept + [left[0]], keptShapes + [g], mine)
    ensures OperationValues(kept + [left[0]], keptShapes + [g])
      == OperationValues(kept, keptShapes) + [Operation(left[0].attrs, Value(g))]
  {
    OperationsAppend(kept, keptShapes, left[0], g);
  }

  lemma {:induction false} OperationsAppend(kept: seq<OperationNode>, keptShapes: seq<Shape>, operation: OperationNode,
      g: Shape)
    requires |kept| == |keptShapes| && OperationsLinked(kept, keptShapes) && Linked(operation.selectionSet, g)
    ensures OperationsLinked(kept + [operation], keptShapes + [g])
    ensures OperationObjects(kept + [operation], keptShapes + [g])
      == OperationObjects(kept, keptShapes) + {operation} + Nodes(g)
  {
    if kept == [] {
      assert OperationsLinked([operation], [g]);
    } else {
      OperationsAppend(kept[1..], keptShapes[1..], operation, g);
      assert (kept + [operation])[1..] == kept[1..] + [operation] && (keptShapes + [g])[1..] == keptShapes[1..] + [g];
    }
  }

  lemma OperationValuesRest(operations: seq<OperationNode>, shapes: seq<Shape>)
    requires |operations| == |shapes| > 0
    ensures OperationValues(operations[1..], shapes[1..]) == OperationValues(operations, shapes)[1..]
  {
  }

  /** The first i operations filtered, as values. */
  ghost predicate FilteredSoFar(env: Env, values: seq<Operation>, i: nat, s: State, bodies: seq<SelectionSet>,
      kept: seq<Operation>) {
    var held :=
      && i <= |values| && FilterAll(env, INITIAL, values[..i]) == Some(FilteredAll(s, bodies))
      && |bodies| == i && kept == Kept(values[..i], bodies);
    held
  }

  lemma FilteredStart(env: Env, values: seq<Operation>)
    ensures FilteredSoFar(env, values, 0, INITIAL, [], [])
  {
  }

  lemma FilteredNext(env: Env, values: seq<Operation>, i: nat, s: State, bodies: seq<SelectionSet>,
      kept: seq<Operation>, failed: bool, s': State, body: SelectionSet)
    requires i < |values| && FilteredSoFar(env, values, i, s, bodies, kept)
    requires failed <==> Filter(env, s, values[i].body, TOP).None?
    requires !failed ==> Filter(env, s, values[i].body, TOP) == Some(Filtered(s', body))
    ensures failed ==> FilterAll(env, INITIAL, values).None?
    ensures !failed ==> FilteredSoFar(env, values, i + 1, s', bodies + [body],
                                      kept + if body.End? then [] else [Operation(values[i].attrs, body)])
  {
    assert values[..i + 1][..i] == values[..i] && (bodies + [body])[..i] == bodies;
    if failed {
      FilterAllFails(env, values, i + 1);
    }
  }

  lemma {:induction false} FilterAllFails(env: Env, values: seq<Operation>, i: nat)
    requires i <= |values| && FilterAll(env, INITIAL, values[..i]).None?
    ensures FilterAll(env, INITIAL, values).None?
  {
    if i == |values| {
      assert values[..i] == values;
    } else {
      assert values[..|values| - 1][..i] == values[..i];
      FilterAllFails(env, values[..|values| - 1], i);
    }
  }

  // ------------------------------------------------------------------ the work list

  /** Names not seen before are marked as used and join the queue. */
  method Enqueue(names: set<string>, used: set<string>, queue: seq<string>) returns (used': set<string>,
      queue': seq<string>)
    ensures used' == used + (names - {""})
    ensures forall n :: n in queue' <==> n in queue || n in names - {""} - used
    ensures used' == used ==> queue' == queue
  {
    used', queue' := used, queue;
    var left := names;
    while left != {}
      invariant left <= names && used' == used + (names - left - {""})
      invariant forall n :: n in queue' <==> n in queue || n in names - left - {""} - used
      invariant used' == used ==> queue' == queue
      decreases left
    {
      var name :| name in left;
      left := left - {name};
      if name != "" && name !in used' {
        used', queue' := used' + {name}, queue' + [name];
      }
    }
  }

  ghost function AllSpreads(bodies: Fragments): set<string> {
    set v <- bodies, name <- Spreads(bodies[v].body) :: name
  }

  lemma SpreadsAmongAll(bodies: Fragments, v: string)
    requires v in bodies
    ensures Spreads(bodies[v].body) <= AllSpreads(bodies)
  {
  }

  lemma FewerLeft(all: set<string>, before: set<string>, after: set<string>)
    requires before < after && after <= all
    ensures |all - after| < |all - before|
  {
    var name :| name in after && name !in before;
    SubsetCard(all - after, all - before - {name});
  }

  /** The search is under way: what is used is reachable, and what was taken off the queue is done with. */
  ghost predicate Searching(bodies: Fragments, seeds: set<string>, used: set<string>, queue: seq<string>) {
    var held :=
      && seeds - {""} <= used && (forall n <- queue :: n in used)
      && ClosedExcept(bodies, used, queue) && Least(bodies, seeds, used);
    held
  }

  lemma SearchStart(bodies: Fragments, seeds: set<string>, used: set<string>, queue: seq<string>)
    requires used == {} + (seeds - {""}) && forall n :: n in queue <==> n in [] || n in seeds - {""} - {}
    ensures Searching(bodies, seeds, used, queue)
  {
  }

  lemma SearchEnd(bodies: Fragments, seeds: set<string>, used: set<string>)
    requires Searching(bodies, seeds, used, [])
    ensures Reachable(bodies, seeds, used)
  {
  }

  lemma SearchStep(bodies: Fragments, seeds: set<string>, used: set<string>, queue: seq<string>, used': set<string>,
      queue': seq<string>)
    requires queue != [] && Searching(bodies, seeds, used, queue)
    requires used' == used + if queue[0] in bodies then Spreads(bodies[queue[0]].body) - {""} else {}
    requires forall n :: n in queue' <==> n in queue[1..] || n in used' - used
    ensures Searching(bodies, seeds, used', queue')
  {
    forall v <- used' | v in bodies && v !in queue'
      ensures Spreads(bodies[v].body) - {""} <= used'
    {
      assert v == queue[0] || v !in queue;
    }
    forall other: set<string> | Closed(bodies, other) && seeds - {""} <= other
      ensures used' <= other
    {
      assert used <= other;
    }
  }

  /** Closed but for the names still in the queue. */
  ghost predicate ClosedExcept(bodies: Fragments, names: set<string>, queue: seq<string>) {
    forall v <- names :: v in bodies && v !in queue ==> Spreads(bodies[v].body) - {""} <= names
  }

  ghost predicate Least(bodies: Fragments, seeds: set<string>, names: set<string>) {
    forall other: set<string> :: Closed(bodies, other) && seeds - {""} <= other ==> names <= other
  }

  // ------------------------------------------------------------------ the retained fragments

  lemma FragmentsExist(fragments: seq<FragmentNode>, shapes: seq<Shape>)
    requires |fragments| == |shapes|
    ensures forall o <- AllNodes(fragments, shapes) :: allocated(o)
  {
    forall i | 0 <= i < |shapes|
      ensures forall o <- Nodes(shapes[i]) :: allocated(o)
    {
      NodesExist(shapes[i]);
    }
  }

  lemma FragmentsAppend(fragments: seq<FragmentNode>, shapes: seq<Shape>, f: FragmentNode, h: Shape)
    requires |fragments| == |shapes| && FragmentsLinked(fragments, shapes) && Linked(f.selectionSet, h)
    ensures FragmentsLinked(fragments + [f], shapes + [h])
    ensures FragmentValues(fragments + [f], shapes + [h])
      == FragmentValues(fragments, shapes) + [Fragment(f.name, f.attrs, Value(h))]
  {
    var fs, hs := fragments + [f], shapes + [h];
    forall i | 0 <= i < |fs|
      ensures fs[i] in AllNodes(fs, hs) && Nodes(hs[i]) <= AllNodes(fs, hs) && Linked(fs[i].selectionSet, hs[i])
    {
      AllNodesHas(fs, hs, i);
    }
  }

  lemma RetainedNext(bodies: Fragments, order: seq<string>, used: set<string>, i: nat)
    requires i < |order| && (forall v <- order[..i] :: v in bodies) && order[i] in bodies
    ensures forall v <- order[..i + 1] :: v in bodies
    ensures Retained(bodies, order[..i + 1], used)
            == Retained(bodies, order[..i], used)
               + if order[i] in used && !bodies[order[i]].body.End? then [bodies[order[i]]] else []
  {
    assert order[..i + 1] == order[..i] + [order[i]];
    assert order[..i + 1][..i] == order[..i];
  }

  // ------------------------------------------------------------------ variants and their values

  /** A variant under way stands for its value as far as its content is not empty. */
  ghost predicate HeldOpen(f: FragmentNode, value: Fragment)
    reads f
  {
    f.name == value.name && f.attrs == value.attrs && (f.selectionSet == [] <==> value.body.End?)
  }

  /** A finished variant is its value. */
  ghost predicate HeldClosed(f: FragmentNode, h: Shape, value: Fragment)
    reads f, Nodes(h)
  {
    Value(h) == value.body && Linked(f.selectionSet, h)
  }

  /** Mentioned where the verifier is to look at the variant of this name. */
  ghost predicate Visit(v: string) {
    true
  }

  /** All variants stand for their values, and are made of nothing but objects of the region. Those under
      way are exactly `open`. */
  ghost predicate AllHeld(current: map<string, FragmentNode>, shapes: map<string, Shape>, bodies: Fragments,
                          open: map<string, FragmentNode>, region: set<object>)
    reads region
  {
    var held :=
      && current.Keys == shapes.Keys == bodies.Keys && open.Keys <= current.Keys
      && forall v {:trigger Visit(v)} :: Visit(v) && v in current ==>
           && current[v] in region && bodies[v].name == v && HeldOpen(current[v], bodies[v])
           && if v in open then open[v] == current[v]
              else Nodes(shapes[v]) <= region && HeldClosed(current[v], shapes[v], bodies[v]);
    held
  }

  lemma HeldWithout(current: map<string, FragmentNode>, shapes: map<string, Shape>, bodies: Fragments,
                    open: map<string, FragmentNode>, region: set<object>, f: FragmentNode)
    requires AllHeld(current, shapes, bodies, open[f.name := f], region) && f.name !in open
    ensures f.name in current && current[f.name] == f
    ensures AllHeld(current - {f.name}, shapes - {f.name}, bodies - {f.name}, open, region - {f})
  {
    assert f.name in open[f.name := f];
    assert Visit(f.name);
  }

  lemma HeldWithOpen(current: map<string, FragmentNode>, shapes: map<string, Shape>, bodies: Fragments,
                     open: map<string, FragmentNode>, region: set<object>, f: FragmentNode, h: Shape, value: Fragment)
    requires AllHeld(current, shapes, bodies, open, region) && f.name !in current && HeldOpen(f, value)
    ensures AllHeld(current[f.name := f], shapes[f.name := h], bodies[f.name := value], open[f.name := f], region + {f})
  {
  }

  lemma HeldWithClosed(current: map<string, FragmentNode>, shapes: map<string, Shape>, bodies: Fragments,
                       open: map<string, FragmentNode>, region: set<object>, f: FragmentNode, h: Shape, value: Fragment)
    requires AllHeld(current - {f.name}, shapes - {f.name}, bodies - {f.name}, open, region - {f})
    requires f.name in current && current[f.name] == f && f in region && HeldOpen(f, value) && HeldClosed(f, h, value)
    requires f.name in bodies && current.Keys == shapes.Keys == bodies.Keys
    ensures AllHeld(current, shapes[f.name := h], bodies[f.name := value], open, region + Nodes(h))
  {
  }

  lemma AllNodesHas(fragments: seq<FragmentNode>, shapes: seq<Shape>, i: nat)
    requires |fragments| == |shapes| && i < |fragments|
    ensures fragments[i] in AllNodes(fragments, shapes) && Nodes(shapes[i]) <= AllNodes(fragments, shapes)
  {
  }

  /** One round of the search: the name taken off the queue has its spreads queued. */
  method SearchNext(nested: set<string>, ghost bodies: Fragments, ghost seeds: set<string>, ghost all: set<string>,
      used: set<string>, queue: seq<string>)
    returns (used': set<string>, queue': seq<string>)
    requires queue != [] && Searching(bodies, seeds, used, queue)
    requires nested == if queue[0] in bodies then Spreads(bodies[queue[0]].body) else {}
    requires used <= all && AllSpreads(bodies) <= all
    ensures Searching(bodies, seeds, used', queue')
    ensures used' <= all && (|all - used'| < |all - used| || (used' == used && |queue'| < |queue|))
  {
    if queue[0] in bodies {
      SpreadsAmongAll(bodies, queue[0]);
    }
    used', queue' := Enqueue(nested, used, queue[1..]);
    SearchStep(bodies, seeds, used, queue, used', queue');
    if used' != used {
      FewerLeft(all, used, used');
    }
  }

  class QueryFilter {
    const doc: DocumentNode
    const policy: Policy
    const originalFragments: map<string, FragmentNode>
    var currentFragments: map<string, FragmentNode>
    var variantByKey: map<Key, string>
    var usedFragmentNames: set<string>
    var removedFieldsSet: set<string>

    // The shapes of the fragments' bodies, the state as a value, and the objects that are no longer touched.
    ghost const env: Env
    ghost const originals: map<string, Shape>
    ghost const originalNodes: set<object>
    ghost var shapes: map<string, Shape>
    ghost var state: State
    ghost var reserved: set<object>

    /** newQueryFilter: the fragments by name, the last definition of a name counting. */
    constructor (doc: DocumentNode, policy: Policy, ghost fragmentShapes: seq<Shape>)
      requires |fragmentShapes| == |doc.fragments|
      requires forall i :: 0 <= i < |fragmentShapes| ==> Linked(doc.fragments[i].selectionSet, fragmentShapes[i])
      ensures this.doc == doc && this.policy == policy
      ensures env == Env(ByName(FragmentValues(doc.fragments, fragmentShapes)), policy)
      ensures state == INITIAL && currentFragments == map[] && shapes == map[]
      ensures variantByKey == map[] && usedFragmentNames == {} && removedFieldsSet == {}
      ensures OriginalsHeld() && Indexes(originalFragments, doc.fragments)
      ensures reserved == originalNodes == AllNodes(doc.fragments, fragmentShapes)
    {
      var byName;
      ghost var shapesByName;
      byName, shapesByName := IndexFragments(doc.fragments, fragmentShapes);
      this.doc, this.policy, originalFragments := doc, policy, byName;
      currentFragments, variantByKey, usedFragmentNames, removedFieldsSet := map[], map[], {}, {};
      env, shapes, state := Env(ByName(FragmentValues(doc.fragments, fragmentShapes)), policy), map[], INITIAL;
      originals := shapesByName;
      originalNodes := AllNodes(doc.fragments, fragmentShapes);
      reserved := AllNodes(doc.fragments, fragmentShapes);
      new;
      OriginalsFit();
    }

    lemma OriginalsFit()
      requires Originals(originalFragments, originals, env.originals, originalNodes) && env.policy == policy
      ensures OriginalsHeld()
    {
    }

    /** The original fragments: nothing of them is ever changed. */
    ghost predicate OriginalsHeld()
      reads originalNodes
    {
      var held :=
        && env.policy == policy
        && originalFragments.Keys == originals.Keys == env.originals.Keys
        && forall n {:trigger Visit(n)} :: Visit(n) && n in originals ==>
             && originalFragments[n] in originalNodes && Nodes(originals[n]) <= originalNodes
             && env.originals[n] == Fragment(originalFragments[n].name, originalFragments[n].attrs, Value(originals[n]))
             && Linked(originalFragments[n].selectionSet, originals[n]);
      held
    }

    ghost predicate StateHeld(used: set<string>)
      reads this, doc
    {
      && variantByKey == state.variants && usedFragmentNames == used && removedFieldsSet == state.removed
      && state.used == state.bodies.Keys
      && |doc.fragments| == |state.order|
      && forall i :: 0 <= i < |state.order| ==>
           state.order[i] in currentFragments && doc.fragments[i] == currentFragments[state.order[i]]
    }

    /** The fields represent `state`; a fragment under way is represented up to whether it has content. */
    ghost predicate Valid(open: map<string, FragmentNode>)
      reads this, doc, reserved
    {
      ValidWith(open, state.used)
    }

    ghost predicate ValidWith(open: map<string, FragmentNode>, used: set<string>)
      reads this, doc, reserved
    {
      var held :=
        && this !in reserved && doc !in reserved && originalNodes <= reserved
        && OriginalsHeld() && StateHeld(used)
        && AllHeld(currentFragments, shapes, state.bodies, open, reserved);
      held
    }

    /** The selection set is a tree of its own, among the objects the filter may still change. */
    ghost predicate Apart(selectionSet: seq<Selection>, h: Shape, mine: set<object>)
      reads this, Nodes(h)
    {
      Holds(selectionSet, h) && Separate(h) && Nodes(h) <= mine && mine !! reserved
    }

    /** The same for a single selection. */
    ghost predicate Alone(selection: Selection, h: Shape, mine: set<object>)
      reads this, Nodes(h)
    {
      Matches(selection, h) && h.rest.Empty? && Separate(h) && Nodes(h) <= mine && mine !! reserved
    }

    /** What every filtering method leaves: `value` filtered from `before` gives the present state and g. */
    ghost predicate Filters(before: State, value: SelectionSet, context: Context, failed: bool,
                            filtered: seq<Selection>, g: Shape, within: set<object>, open: map<string, FragmentNode>)
      reads this, doc, reserved, Nodes(g)
    {
      var r := Filter(env, before, value, context);
      && failed == r.None?
      && (!failed ==> r.value == Filtered(state, Value(g)))
      && (!failed ==> Valid(open) && Linked(filtered, g) && Separate(g) && Nodes(g) <= within)
    }

    method FilterSelectionSet(selectionSet: seq<Selection>, context: Context, ghost h: Shape,
                              ghost open: map<string, FragmentNode>, ghost mine: set<object>)
      returns (failed: bool, filtered: seq<Selection>, ghost g: Shape)
      requires Valid(open) && Apart(selectionSet, h, mine)
      modifies this, doc, Nodes(h)
      ensures mine !! reserved && doc.operations == old(doc.operations)
      ensures Filters(old(state), Value(h), context, failed, filtered, g, Nodes(h), open)
      decreases |Unclaimed(env, state)|, Size(Value(h)), 4
    {
      failed, filtered, g := false, [], Empty;
      ghost var rest, left, before := selectionSet, h, End;
      HalfwayStart(selectionSet, h);
      ProgressStart(state, Value(h), context);
      var i := 0;
      while i < |selectionSet|
        invariant 0 <= i <= |selectionSet| && Suffix(selectionSet, i, rest)
        invariant Valid(open) && Halfway(rest, left, filtered, g, Nodes(h))
        invariant mine !! reserved && doc.operations == old(doc.operations)
        invariant Progress(old(state), Value(h), context, before, Value(left), state, Value(g))
      {
        SuffixNext(selectionSet, i, rest);
        failed, filtered, before, left, g :=
          FilterStep(selectionSet[i], context, old(state), Value(h), before, rest, left, filtered, g, Nodes(h), open,
                     mine);
        if failed {
          return;
        }
        rest, i := rest[1..], i + 1;
      }
      SuffixEnd(selectionSet, i, rest);
      ProgressEnd(old(state), Value(h), context, before, rest, left, state, Value(g));
    }

    /** The body of the loop. */
    method FilterStep(selection: Selection, context: Context, ghost start: State, ghost whole: SelectionSet,
                      ghost before: SelectionSet, ghost rest: seq<Selection>, ghost left: Shape,
                      filtered: seq<Selection>, ghost g: Shape, ghost within: set<object>,
                      ghost open: map<string, FragmentNode>, ghost mine: set<object>)
      returns (failed: bool, filtered': seq<Selection>, ghost before': SelectionSet, ghost left': Shape,
               ghost g': Shape)
      requires Valid(open) && rest != [] && rest[0] == selection && within <= mine && mine !! reserved
      requires Halfway(rest, left, filtered, g, within)
        && Progress(start, whole, context, before, Value(left), state, Value(g))
      modifies this, doc, within
      ensures mine !! reserved && doc.operations == old(doc.operations)
      ensures failed ==> Filter(env, start, whole, context).None?
      ensures !failed ==> Valid(open) && Halfway(rest[1..], left', filtered', g', within)
      ensures !failed ==> Progress(start, whole, context, before', Value(left'), state, Value(g'))
      decreases |Unclaimed(env, state)|, Size(Value(left)), 3, 1
    {
      ghost var current, kept := state, Value(g);
      failed, filtered', g' := FilterNext(selection, context, rest, left, filtered, g, within, open, mine);
      FirstAndRest(left);
      ProgressStep(start, whole, context, before, Value(First(left)), Value(left.rest), current, kept, failed, state,
          Value(g'));
      before', left' := Append(before, Value(First(left))), left.rest;
    }

    /** How far the loop is: the whole is `before` and `left`, and `before` filtered gives what was kept. */
    ghost predicate Progress(start: State, whole: SelectionSet, context: Context, before: SelectionSet,
        left: SelectionSet, now: State, kept: SelectionSet)
    {
      var held :=
        && whole == Append(before, left) && Size(left) <= Size(whole)
        && |Unclaimed(env, now)| <= |Unclaimed(env, start)|
        && Filter(env, start, before, context) == Some(Filtered(now, kept));
      held
    }

    lemma ProgressStart(start: State, whole: SelectionSet, context: Context)
      ensures Progress(start, whole, context, End, whole, start, End)
    {
    }

    lemma ProgressStep(start: State, whole: SelectionSet, context: Context, before: SelectionSet, one: SelectionSet,
                       rest: SelectionSet, now: State, kept: SelectionSet, failed: bool, now': State,
                       kept': SelectionSet)
      requires Progress(start, whole, context, before, Append(one, rest), now, kept)
      requires Size(rest) <= Size(Append(one, rest))
      requires failed <==> Filter(env, now, one, context).None?
      requires !failed ==> now' == Filter(env, now, one, context).value.state
                           && kept' == Append(kept, Filter(env, now, one, context).value.sels)
      ensures failed ==> Filter(env, start, whole, context).None?
      ensures !failed ==> Progress(start, whole, context, Append(before, one), rest, now', kept')
    {
      FilterAppend(env, start, before, one, context);
      AppendAssociative(before, one, rest);
      if failed {
        FilterAppendFails(env, start, Append(before, one), rest, context);
      } else {
        MoreClaimed(env, now, now');
      }
    }

    lemma ProgressEnd(start: State, whole: SelectionSet, context: Context, before: SelectionSet, rest: seq<Selection>,
                      left: Shape, now: State, kept: SelectionSet)
      requires |rest| == 0 && Holds(rest, left) && Progress(start, whole, context, before, Value(left), now, kept)
      ensures Filter(env, start, whole, context) == Some(Filtered(now, kept))
    {
      HoldsEmptyIff(rest, left);
      AppendEnd(before);
    }

    /** Some selections are filtered, the others are left as they were. */
    ghost predicate Halfway(rest: seq<Selection>, left: Shape, filtered: seq<Selection>, g: Shape, within: set<object>)
      reads Nodes(left), Nodes(g)
    {
      var held :=
        && Holds(rest, left) && Separate(left) && Nodes(left) <= within
        && Holds(filtered, g) && Separate(g) && Nodes(g) <= within
        && Nodes(g) !! Nodes(left);
      held
    }

    lemma HalfwayStart(selectionSet: seq<Selection>, h: Shape)
      requires Holds(selectionSet, h) && Separate(h)
      ensures Halfway(selectionSet, h, [], Empty, Nodes(h))
    {
    }

    /** The body of the loop: the next selection is filtered and appended to those kept. */
    method FilterNext(selection: Selection, context: Context, ghost rest: seq<Selection>, ghost left: Shape,
                      filtered: seq<Selection>, ghost g: Shape, ghost within: set<object>,
                      ghost open: map<string, FragmentNode>, ghost mine: set<object>)
      returns (failed: bool, filtered': seq<Selection>, ghost g': Shape)
      requires Valid(open) && rest != [] && rest[0] == selection && within <= mine && mine !! reserved
        && Halfway(rest, left, filtered, g, within)
      modifies this, doc, within
      ensures mine !! reserved && doc.operations == old(doc.operations)
      ensures !left.Empty?
      ensures failed <==> Filter(env, old(state), Value(First(left)), context).None?
      ensures !failed ==> Valid(open) && Halfway(rest[1..], left.rest, filtered', g', within)
      ensures !failed ==> state == Filter(env, old(state), Value(First(left)), context).value.state
      ensures !failed ==> Value(g') == Append(Value(g), Filter(env, old(state), Value(First(left)), context).value.sels)
      decreases |Unclaimed(env, state)|, Size(Value(left)), 3, 0
    {
      ghost var first := First(left);
      FirstAndRest(left);
      RestHolds(rest, left);
      var kept;
      ghost var one;
      failed, kept, one := FilterBeside(selection, context, first, open, mine, rest[1..], left.rest, filtered, g);
      filtered', g' := filtered + kept, Join(g, one);
      if !failed {
        Extend(filtered, g, kept, one);
      }
    }

    /** The body of the loop: one selection is filtered, what was kept before and what is left stay as they were. */
    method FilterBeside(selection: Selection, context: Context, ghost h: Shape, ghost open: map<string, FragmentNode>,
        ghost mine: set<object>, ghost rest: seq<Selection>, ghost left: Shape, ghost filtered: seq<Selection>,
        ghost g: Shape)
      returns (failed: bool, kept: seq<Selection>, ghost one: Shape)
      requires Valid(open) && Alone(selection, h, mine)
      requires Holds(rest, left) && Holds(filtered, g) && Nodes(h) !! Nodes(left) && Nodes(h) !! Nodes(g)
      modifies this, doc, Nodes(h)
      ensures mine !! reserved && doc.operations == old(doc.operations)
      ensures Filters(old(state), Value(h), context, failed, kept, one, Nodes(h), open)
      ensures Holds(rest, left) && Holds(filtered, g)
      decreases |Unclaimed(env, state)|, Size(Value(h)), 2
    {
      NodesExist(left);
      NodesExist(g);
      failed, kept, one := FilterSelection(selection, context, h, open, mine);
    }

    method FilterSelection(selection: Selection, context: Context, ghost h: Shape,
                           ghost open: map<string, FragmentNode>, ghost mine: set<object>)
      returns (failed: bool, kept: seq<Selection>, ghost g: Shape)
      requires Valid(open) && Alone(selection, h, mine)
      modifies this, doc, Nodes(h)
      ensures mine !! reserved && doc.operations == old(doc.operations)
      ensures Filters(old(state), Value(h), context, failed, kept, g, Nodes(h), open)
      decreases |Unclaimed(env, state)|, Size(Value(h)), 1
    {
      match selection {
        case FieldSelection(node) => failed, kept, g := FilterField(node, context, h, open, mine);
        case InlineSelection(node) => failed, kept, g := FilterInline(node, context, h, open, mine);
        case SpreadSelection(node) => failed, kept, g := FilterSpread(node, context, h, open, mine);
      }
    }

    method FilterField(node: FieldNode, context: Context, ghost h: Shape, ghost open: map<string, FragmentNode>,
        ghost mine: set<object>)
      returns (failed: bool, kept: seq<Selection>, ghost g: Shape)
      requires Valid(open) && Alone(FieldSelection(node), h, mine)
      modifies this, doc, Nodes(h)
      ensures mine !! reserved && doc.operations == old(doc.operations)
      ensures Filters(old(state), Value(h), context, failed, kept, g, Nodes(h), open)
      decreases |Unclaimed(env, state)|, Size(Value(h)), 0, 1
    {
      failed, kept, g := false, [], Empty;
      if Hidden(context, node.name) {
        NoteRemovedSalary(open);
        return;
      }
      if CheckFails(policy, node.name, node.id) {
        failed := true;
        return;
      }
      HoldsEmptyIff(node.selectionSet, h.sub);
      if |node.selectionSet| == 0 {
        kept, g := [FieldSelection(node)], FieldShape(node, Empty, Empty);
        FirstHolds(FieldSelection(node), g);
        return;
      }
      var childContext := context;
      if node.name == "employeeByID" {
        childContext := Context(true, CheckField(policy, node.id).Allowed?);
      }
      failed, kept, g := FilterChildren(node, context, childContext, h, open, mine);
    }

    method FilterChildren(node: FieldNode, ghost context: Context, childContext: Context, ghost h: Shape,
                          ghost open: map<string, FragmentNode>, ghost mine: set<object>)
      returns (failed: bool, kept: seq<Selection>, ghost g: Shape)
      requires Valid(open) && Alone(FieldSelection(node), h, mine)
      requires !Hidden(context, node.name) && !CheckFails(env.policy, node.name, node.id) && !h.sub.Empty?
      requires childContext == Enter(env.policy, context, node.name, node.id)
      modifies this, doc, Nodes(h)
      ensures mine !! reserved && doc.operations == old(doc.operations)
      ensures Filters(old(state), Value(h), context, failed, kept, g, Nodes(h), open)
      decreases |Unclaimed(env, state)|, Size(Value(h)), 0, 0
    {
      kept, g := [], Empty;
      ghost var start, subs := state, Value(h.sub);
      assert Value(h) == Field(node.name, node.id, node.attrs, subs, End);
      var child;
      ghost var sub;
      failed, child, sub := FilterSelectionSet(node.selectionSet, childContext, h.sub, open, mine);
      if failed {
        OneFieldFails(env, start, node.name, node.id, node.attrs, subs, context);
        return;
      }
      OneFieldKept(env, start, node.name, node.id, node.attrs, subs, context, Filtered(state, Value(sub)));
      HoldsEmptyIff(child, sub);
      SetField(node, child, sub, open);
      if |child| > 0 {
        kept, g := [FieldSelection(node)], FieldShape(node, sub, Empty);
        assert Value(g) == Field(node.name, node.id, node.attrs, Value(sub), End);
      }
    }

    /** The field gets its new children; nothing the filter still looks at changes. */
    method SetField(node: FieldNode, child: seq<Selection>, ghost sub: Shape, ghost open: map<string, FragmentNode>)
      requires Valid(open) && Holds(child, sub) && Separate(sub) && node !in reserved && node !in Nodes(sub)
      modifies node
      ensures Valid(open) && Holds([FieldSelection(node)], FieldShape(node, sub, Empty))
    {
      node.selectionSet := child;
      FirstHolds(FieldSelection(node), FieldShape(node, sub, Empty));
    }

    method NoteRemovedSalary(ghost open: map<string, FragmentNode>)
      requires Valid(open)
      modifies this`removedFieldsSet, this`state
      ensures Valid(open) && state == old(state).(removed := old(state).removed + {REMOVED_SALARY})
    {
      removedFieldsSet := removedFieldsSet + {REMOVED_SALARY};
      state := state.(removed := state.removed + {REMOVED_SALARY});
    }

    method FilterInline(node: InlineNode, context: Context, ghost h: Shape, ghost open: map<string, FragmentNode>,
        ghost mine: set<object>)
      returns (failed: bool, kept: seq<Selection>, ghost g: Shape)
      requires Valid(open) && Alone(InlineSelection(node), h, mine)
      modifies this, doc, Nodes(h)
      ensures mine !! reserved && doc.operations == old(doc.operations)
      ensures Filters(old(state), Value(h), context, failed, kept, g, Nodes(h), open)
      decreases |Unclaimed(env, state)|, Size(Value(h)), 0
    {
      failed, kept, g := false, [], Empty;
      var child;
      ghost var sub;
      failed, child, sub := FilterSelectionSet(node.selectionSet, context, h.sub, open, mine);
      if failed {
        return;
      }
      HoldsEmptyIff(child, sub);
      SetInline(node, child, sub, open);
      if |child| > 0 {
        kept, g := [InlineSelection(node)], InlineShape(node, sub, Empty);
      }
    }

    method SetInline(node: InlineNode, child: seq<Selection>, ghost sub: Shape, ghost open: map<string, FragmentNode>)
      requires Valid(open) && Holds(child, sub) && Separate(sub) && node !in reserved && node !in Nodes(sub)
      modifies node
      ensures Valid(open) && Holds([InlineSelection(node)], InlineShape(node, sub, Empty))
    {
      node.selectionSet := child;
      FirstHolds(InlineSelection(node), InlineShape(node, sub, Empty));
    }

    method FilterSpread(node: SpreadNode, context: Context, ghost h: Shape, ghost open: map<string, FragmentNode>,
        ghost mine: set<object>)
      returns (failed: bool, kept: seq<Selection>, ghost g: Shape)
      requires Valid(open) && Alone(SpreadSelection(node), h, mine)
      modifies this, doc
      ensures mine !! reserved && doc.operations == old(doc.operations)
      ensures Filters(old(state), Value(h), context, failed, kept, g, {}, open)
      decreases |Unclaimed(env, state)|, Size(Value(h)), 0
    {
      kept, g := [], Empty;
      var variant, keep;
      failed, variant, keep := EnsureFragmentVariant(node.name, context, open, mine);
      if failed || !keep {
        return;
      }
      var clonedSpread := new SpreadNode(variant, node.attrs);
      kept, g := [SpreadSelection(clonedSpread)], SpreadShape(clonedSpread, Empty);
      FirstHolds(SpreadSelection(clonedSpread), g);
    }

    ghost predicate Ensures(before: State, name: string, context: Context, failed: bool, variant: string, keep: bool,
        open: map<string, FragmentNode>)
      reads this, doc, reserved
    {
      && (failed <==> EnsureVariant(env, before, name, context).None?)
      && (!failed ==>
            && EnsureVariant(env, before, name, context) == Some(Ensured(state, variant, keep))
            && Valid(open))
    }

    method EnsureFragmentVariant(name: string, context: Context, ghost open: map<string, FragmentNode>,
        ghost mine: set<object>)
      returns (failed: bool, variant: string, keep: bool)
      requires Valid(open) && mine !! reserved
      modifies this, doc
      ensures mine !! reserved && doc.operations == old(doc.operations)
      ensures Ensures(old(state), name, context, failed, variant, keep, open)
      decreases |Unclaimed(env, state)|, 0, 1
    {
      if name !in originalFragments {
        return false, name, true;
      }
      var key := Key(name, context);
      if key in variantByKey {
        variant := variantByKey[key];
        assert Visit(variant);
        return false, variant, variant in currentFragments && |currentFragments[variant].selectionSet| > 0;
      }
      failed, variant, keep := MakeVariant(key, open, mine);
    }

    method MakeVariant(key: Key, ghost open: map<string, FragmentNode>, ghost mine: set<object>)
      returns (failed: bool, variant: string, keep: bool)
      requires Valid(open) && mine !! reserved && key.name in originalFragments && key !in variantByKey
      modifies this, doc
      ensures mine !! reserved && doc.operations == old(doc.operations)
      ensures Ensures(old(state), key.name, key.context, failed, variant, keep, open)
      decreases |Unclaimed(env, state)|, 0, 0
    {
      ClaimShrinks(env, state, key);
      ghost var start := state;
      var cloned;
      ghost var c;
      cloned, c := ClaimVariant(key, open, mine);
      variant := cloned.name;
      EnsureEquation(env, start, key);
      failed, keep := FilterVariant(key, cloned, c, open, mine);
    }

    /** The body has been filtered and installed under the name. */
    ghost predicate FiltersVariant(start: State, key: Key, body: SelectionSet, name: string, failed: bool, keep: bool)
      requires key.name in env.originals
      reads this
    {
      var f := Filter(env, start, body, key.context);
      var held :=
        && failed == f.None?
        && (!failed ==>
              && keep == !f.value.sels.End?
              && state == f.value.state.(bodies := f.value.state.bodies[name :=
                                           env.originals[key.name].(name := name, body := f.value.sels)]));
      held
    }

    /** Filters the body of a new variant and installs the outcome. */
    method FilterVariant(key: Key, cloned: FragmentNode, ghost c: Shape, ghost open: map<string, FragmentNode>,
        ghost mine: set<object>)
      returns (failed: bool, keep: bool)
      requires key.name in env.originals && cloned.name !in open && Valid(open[cloned.name := cloned])
      requires cloned.attrs == env.originals[key.name].attrs
        && forall n <- originalFragments :: originalFragments[n] != cloned
      requires Linked(cloned.selectionSet, c) && Separate(c) && Nodes(c) !! reserved && mine !! reserved
        && mine !! Nodes(c)
      modifies this, doc, cloned, Nodes(c)
      ensures mine !! reserved && doc.operations == old(doc.operations)
      ensures FiltersVariant(old(state), key, Value(c), cloned.name, failed, keep)
      ensures !failed ==> Valid(open)
      decreases |Unclaimed(env, state)|, Size(Value(c)), 5
    {
      ghost var ours := mine + Nodes(c);
      assert mine <= ours;
      var filtered;
      ghost var g;
      failed, filtered, g := FilterSelectionSet(cloned.selectionSet, key.context, c, open[cloned.name := cloned], ours);
      keep := |filtered| > 0;
      if !failed {
        InstallVariant(old(state), key, cloned, Value(c), filtered, g, Nodes(c), open, mine);
      }
    }

    method InstallVariant(ghost start: State, key: Key, cloned: FragmentNode, ghost body: SelectionSet,
                          filtered: seq<Selection>, ghost g: Shape, ghost within: set<object>,
                          ghost open: map<string, FragmentNode>, ghost mine: set<object>)
      requires key.name in env.originals && cloned.name !in open && cloned.attrs == env.originals[key.name].attrs
      requires Filters(start, body, key.context, false, filtered, g, within, open[cloned.name := cloned])
      requires mine !! reserved && mine !! within && forall n <- originalFragments :: originalFragments[n] != cloned
      modifies this`state, this`shapes, this`reserved, cloned
      ensures mine !! reserved && Valid(open)
      ensures FiltersVariant(start, key, body, cloned.name, false, |filtered| > 0)
    {
      HoldsEmptyIff(filtered, g);
      CloseVariant(cloned, filtered, g, env.originals[key.name].(name := cloned.name, body := Value(g)), open, mine);
    }

    /** Registers a deep copy of the fragment under a fresh name. */
    method ClaimVariant(key: Key, ghost open: map<string, FragmentNode>,
        ghost mine: set<object>) returns (cloned: FragmentNode, ghost c: Shape)
      requires Valid(open) && mine !! reserved && key.name in originalFragments && key !in variantByKey
      modifies this, doc
      ensures mine !! reserved && doc.operations == old(doc.operations)
      ensures state == Claim(env, old(state), key)
      ensures cloned.name == state.variants[key] && cloned.name !in open && Valid(open[cloned.name := cloned])
      ensures fresh(cloned) && cloned.attrs == env.originals[key.name].attrs
      ensures Linked(cloned.selectionSet, c) && Separate(c) && fresh(Nodes(c)) && Nodes(c) !! reserved
      ensures Value(c) == env.originals[key.name].body
    {
      assert Visit(key.name);
      var original := originalFragments[key.name];
      var selectionSet;
      selectionSet, c := CloneSelectionSet(original.selectionSet, originals[key.name]);
      HoldsEmptyIff(selectionSet, c);
      NodesExist(c);
      cloned := Register(key, original.attrs, selectionSet, c, open);
    }

    /** Enters a new variant with its yet unfiltered body. */
    method Register(key: Key, attrs: string, selectionSet: seq<Selection>, ghost c: Shape,
                    ghost open: map<string, FragmentNode>)
      returns (cloned: FragmentNode)
      requires Valid(open) && key.name in originalFragments && key !in variantByKey
      requires attrs == env.originals[key.name].attrs && (selectionSet == [] <==> env.originals[key.name].body.End?)
      modifies this, doc
      ensures doc.operations == old(doc.operations)
      ensures state == Claim(env, old(state), key)
      ensures cloned.name == state.variants[key] && cloned.name !in open && Valid(open[cloned.name := cloned])
      ensures fresh(cloned) && cloned.attrs == attrs
      ensures cloned.selectionSet == selectionSet && reserved == old(reserved) + {cloned}
    {
      var variantName := GenerateFragmentName(key.name, key.context);
      assert ValidWith(open, state.used + {variantName});
      cloned := new FragmentNode(variantName, attrs, selectionSet);
      EnterVariant(key, cloned, c, open);
    }

    method EnterVariant(key: Key, cloned: FragmentNode, ghost c: Shape, ghost open: map<string, FragmentNode>)
      requires key.name in originalFragments && key !in variantByKey
      requires cloned.name !in state.used && cloned !in reserved
      requires ValidWith(open, state.used + {cloned.name})
      requires HeldOpen(cloned, env.originals[key.name].(name := cloned.name))
      modifies this`variantByKey, this`currentFragments, this`state, this`shapes, this`reserved, doc`fragments
      ensures state == ClaimAs(env, old(state), key, cloned.name) && reserved == old(reserved) + {cloned}
      ensures cloned.name !in open && Valid(open[cloned.name := cloned])
    {
      ghost var value := env.originals[key.name].(name := cloned.name);
      HeldWithOpen(currentFragments, shapes, state.bodies, open, reserved, cloned, c, value);
      Record(key, cloned, c);
    }

    method Record(key: Key, cloned: FragmentNode, ghost c: Shape)
      requires key.name in env.originals && cloned.name !in currentFragments && StateHeld(state.used + {cloned.name})
      modifies this`variantByKey, this`currentFragments, this`state, this`shapes, this`reserved, doc`fragments
      ensures variantByKey == old(variantByKey)[key := cloned.name]
      ensures currentFragments == old(currentFragments)[cloned.name := cloned]
      ensures doc.fragments == old(doc.fragments) + [cloned]
      ensures state == ClaimAs(env, old(state), key, cloned.name) && StateHeld(state.used)
      ensures shapes == old(shapes)[cloned.name := c] && reserved == old(reserved) + {cloned}
    {
      variantByKey := variantByKey[key := cloned.name];
      currentFragments := currentFragments[cloned.name := cloned];
      doc.fragments := doc.fragments + [cloned];
      state := ClaimAs(env, state, key, cloned.name);
      shapes, reserved := shapes[cloned.name := c], reserved + {cloned};
    }

    /** Installs the filtered body of a variant. */
    method CloseVariant(cloned: FragmentNode, filtered: seq<Selection>, ghost g: Shape, ghost value: Fragment,
                        ghost open: map<string, FragmentNode>, ghost mine: set<object>)
      requires Valid(open[cloned.name := cloned]) && cloned.name !in open && mine !! reserved
      requires value == Fragment(cloned.name, cloned.attrs, Value(g))
      requires forall n <- originalFragments :: originalFragments[n] != cloned
      requires Linked(filtered, g) && Nodes(g) !! mine
      modifies this`state, this`shapes, this`reserved, cloned
      ensures mine !! reserved
      ensures state == old(state).(bodies := old(state).bodies[cloned.name := value])
      ensures Valid(open)
    {
      HeldWithout(currentFragments, shapes, state.bodies, open, reserved, cloned);
      assert Visit(cloned.name);
      HoldsEmptyIff(filtered, g);
      NodesExist(g);
      Install(cloned, filtered);
      HeldWithClosed(currentFragments, shapes, state.bodies, open, reserved, cloned, g, value);
      RecordBody(value, g);
    }

    method Install(cloned: FragmentNode, filtered: seq<Selection>)
      requires OriginalsHeld() && forall n <- originalFragments :: originalFragments[n] != cloned
      modifies cloned
      ensures cloned.selectionSet == filtered && OriginalsHeld()
    {
      cloned.selectionSet := filtered;
    }

    ghost method RecordBody(value: Fragment, g: Shape)
      requires OriginalsHeld() && StateHeld(state.used) && value.name in state.bodies
      modifies this`state, this`shapes, this`reserved
      ensures state == old(state).(bodies := old(state).bodies[value.name := value])
      ensures shapes == old(shapes)[value.name := g] && reserved == old(reserved) + Nodes(g)
      ensures OriginalsHeld() && StateHeld(state.used)
    {
      state := state.(bodies := state.bodies[value.name := value]);
      shapes, reserved := shapes[value.name := g], reserved + Nodes(g);
    }

    // ---------------------------------------------------------------- fresh names

    method ReserveFragmentName(name: string) returns (reservedNow: bool)
      modifies this`usedFragmentNames
      ensures reservedNow <==> name !in old(usedFragmentNames)
      ensures usedFragmentNames == if reservedNow then old(usedFragmentNames) + {name} else old(usedFragmentNames)
    {
      if name in usedFragmentNames {
        return false;
      }
      usedFragmentNames := usedFragmentNames + {name};
      return true;
    }

    /** The base name outside employeeByID if it is free, else the first free numbered candidate. */
    method GenerateFragmentName(base: string, context: Context) returns (name: string)
      modifies this`usedFragmentNames
      ensures name == FreshName(base, context, old(usedFragmentNames))
      ensures usedFragmentNames == old(usedFragmentNames) + {name}
    {
      if !context.inEmployeeByID {
        var free := ReserveFragmentName(base);
        if free {
          return base;
        }
      }
      var suffix := if context.salaryAllowed then "allow" else "deny";
      var candidateBase := base + "__authz_" + suffix;
      var i := 0;
      while true
        invariant usedFragmentNames == old(usedFragmentNames)
        invariant FreshName(base, context, usedFragmentNames) == FirstUnused(base, context, usedFragmentNames, i)
        decreases |usedFragmentNames - Tried(base, context, i)|
      {
        name := candidateBase;
        if i > 0 {
          name := candidateBase + "_" + Decimal(i);
        }
        assert name == Candidate(base, context, i);
        var free := ReserveFragmentName(name);
        if free {
          return;
        }
        TrialShrinks(base, context, usedFragmentNames, i);
        i := i + 1;
      }
    }

    // ---------------------------------------------------------------- pruning

    /** The names reachable from the seeds, found with a work list; the order of the list does not matter. */
    method ReachableNames(seeds: set<string>) returns (used: set<string>)
      requires Valid(map[])
      ensures Valid(map[]) && Reachable(state.bodies, seeds, used)
    {
      ghost var all, bodies := seeds + AllSpreads(state.bodies), state.bodies;
      var queue: seq<string> := [];
      used, queue := Enqueue(seeds, {}, queue);
      SearchStart(bodies, seeds, used, queue);
      while queue != []
        invariant Valid(map[]) && state.bodies == bodies
        invariant Searching(bodies, seeds, used, queue) && used <= all && AllSpreads(bodies) <= all
        decreases |all - used|, |queue|
      {
        used, queue := VisitFirst(queue[0], seeds, all, used, queue);
      }
      SearchEnd(bodies, seeds, used);
    }

    /** The names spread by a clone, if there is one of that name with content. */
    method NestedNames(name: string) returns (nested: set<string>)
      requires Valid(map[])
      ensures Valid(map[]) && nested == if name in state.bodies then Spreads(state.bodies[name].body) else {}
    {
      assert Visit(name);
      nested := {};
      if name in currentFragments && |currentFragments[name].selectionSet| > 0 {
        nested := CollectFragmentSpreads(currentFragments[name].selectionSet, shapes[name]);
      }
    }

    /** One round: the first name of the queue has its spreads queued. */
    method VisitFirst(name: string, ghost seeds: set<string>, ghost all: set<string>, used: set<string>,
        queue: seq<string>)
      returns (used': set<string>, queue': seq<string>)
      requires Valid(map[]) && queue != [] && queue[0] == name && Searching(state.bodies, seeds, used, queue)
      requires used <= all && AllSpreads(state.bodies) <= all
      ensures Valid(map[]) && Searching(state.bodies, seeds, used', queue')
      ensures used' <= all && (|all - used'| < |all - used| || (used' == used && |queue'| < |queue|))
    {
      var nested := NestedNames(name);
      used', queue' := SearchNext(nested, state.bodies, seeds, all, used, queue);
    }

    /** The clones that are used and have content stay, in order. */
    method RetainFragments(used: set<string>)
      returns (kept: seq<FragmentNode>, keptByName: map<string, FragmentNode>, ghost keptShapes: seq<Shape>)
      requires Valid(map[])
      ensures |keptShapes| == |kept|
      ensures forall v <- state.order :: v in state.bodies
      ensures FragmentValues(kept, keptShapes) == Retained(state.bodies, state.order, used)
      ensures FragmentsLinked(kept, keptShapes)
    {
      kept, keptByName, keptShapes := [], map[], [];
      var i := 0;
      while i < |doc.fragments|
        invariant 0 <= i <= |doc.fragments| && Valid(map[])
        invariant |keptShapes| == |kept|
        invariant forall v <- state.order[..i] :: v in state.bodies
        invariant FragmentValues(kept, keptShapes) == Retained(state.bodies, state.order[..i], used)
        invariant FragmentsLinked(kept, keptShapes)
      {
        var fragment := doc.fragments[i];
        assert Visit(state.order[i]);
        RetainedNext(state.bodies, state.order, used, i);
        if fragment.name in used && |fragment.selectionSet| > 0 {
          FragmentsAppend(kept, keptShapes, fragment, shapes[fragment.name]);
          kept, keptShapes := kept + [fragment], keptShapes + [shapes[fragment.name]];
          keptByName := keptByName[fragment.name := fragment];
        }
        i := i + 1;
      }
      assert state.order[..i] == state.order;
    }

    method SetFragments(kept: seq<FragmentNode>, keptByName: map<string, FragmentNode>)
      modifies doc`fragments, this`currentFragments
      ensures doc.fragments == kept && currentFragments == keptByName
    {
      doc.fragments, currentFragments := kept, keptByName;
    }

    method PruneUnusedFragments(ghost opShapes: seq<Shape>) returns (ghost used: set<string>,
        ghost fragmentShapes: seq<Shape>)
      requires Valid(map[]) && |opShapes| == |doc.operations| && OperationsLinked(doc.operations, opShapes)
      modifies doc`fragments, this`currentFragments
      ensures OperationsLinked(doc.operations, opShapes)
      ensures |fragmentShapes| == |doc.fragments| && forall v <- state.order :: v in state.bodies
      ensures Reachable(state.bodies, OperationSpreads(OperationValues(doc.operations, opShapes)), used)
      ensures FragmentValues(doc.fragments, fragmentShapes) == Retained(state.bodies, state.order, used)
      ensures FragmentsLinked(doc.fragments, fragmentShapes)
    {
      OperationsExist(doc.operations, opShapes);
      var seeds := OperationNames(doc.operations, opShapes);
      var reachable := ReachableNames(seeds);
      var kept, keptByName;
      kept, keptByName, fragmentShapes := RetainFragments(reachable);
      used := reachable;
      FragmentsExist(kept, fragmentShapes);
      SetFragments(kept, keptByName);
    }

    // ---------------------------------------------------------------- the whole document

    /** As newQueryFilter leaves it. */
    ghost predicate Ready()
      reads this, doc, originalNodes
    {
      var ready :=
        && state == INITIAL && currentFragments == map[] && shapes == map[]
        && variantByKey == map[] && usedFragmentNames == {} && removedFieldsSet == {}
        && reserved == originalNodes && this !in originalNodes && doc !in originalNodes && OriginalsHeld();
      ready
    }

    /** filterDocument: rewrites the document in place; `value` is what it stood for. */
    method FilterDocument(ghost value: Document, ghost opShapes: seq<Shape>)
      returns (failed: bool, ghost keptShapes: seq<Shape>, ghost fragmentShapes: seq<Shape>)
      requires Ready() && env == Env(ByName(value.fragments), policy)
      requires |opShapes| == |doc.operations| && value.operations == OperationValues(doc.operations, opShapes)
      requires OperationsLinked(doc.operations, opShapes) && OperationsApart(doc.operations, opShapes)
      requires OperationObjects(doc.operations, opShapes) !! originalNodes
      modifies this, doc, OperationObjects(doc.operations, opShapes)
      ensures failed <==> FilterAll(env, INITIAL, value.operations).None?
      ensures !failed ==>
                && |keptShapes| == |doc.operations| && |fragmentShapes| == |doc.fragments|
                && OperationsLinked(doc.operations, keptShapes) && FragmentsLinked(doc.fragments, fragmentShapes)
                && FiltersTo(value, policy,
                             Document(OperationValues(doc.operations, keptShapes),
                                      FragmentValues(doc.fragments, fragmentShapes)), removedFieldsSet)
      ensures SalaryOccurrences.FailsWhereAsked(value, policy, failed)
      ensures !failed ==>
        SalaryOccurrences.LeavesPermitted(value, policy,
                                          Document(OperationValues(doc.operations, keptShapes),
                                                   FragmentValues(doc.fragments, fragmentShapes)), removedFieldsSet)
    {
      keptShapes, fragmentShapes := [], [];
      Start(opShapes);
      ghost var mine := OperationObjects(doc.operations, opShapes);
      var kept;
      failed, kept, keptShapes := FilterOperations(opShapes, mine, value.operations);
      SalaryOccurrences.FailureIsAsked(value, policy);
      if failed {
        return;
      }
      OperationsExist(kept, keptShapes);
      SetOperations(kept);
      ghost var used;
      used, fragmentShapes := PruneUnusedFragments(keptShapes);
      SalaryOccurrences.FilteredIsPermitted(value, policy,
        Document(OperationValues(doc.operations, keptShapes), FragmentValues(doc.fragments, fragmentShapes)),
        removedFieldsSet);
    }

    /** The fragment list is emptied; the operations are untouched. */
    method Start(ghost opShapes: seq<Shape>)
      requires Ready() && |opShapes| == |doc.operations| && OperationsLinked(doc.operations, opShapes)
      modifies doc`fragments
      ensures Valid(map[]) && OperationsLinked(doc.operations, opShapes)
    {
      OperationsExist(doc.operations, opShapes);
      doc.fragments := [];
    }

    method SetOperations(kept: seq<OperationNode>)
      modifies doc`operations
      ensures doc.operations == kept
    {
      doc.operations := kept;
    }

    /** The operations in order; those that still have content are kept. */
    method FilterOperations(ghost opShapes: seq<Shape>, ghost mine: set<object>, ghost values: seq<Operation>)
      returns (failed: bool, kept: seq<OperationNode>, ghost keptShapes: seq<Shape>)
      requires Valid(map[]) && state == INITIAL && mine !! reserved
      requires |opShapes| == |doc.operations| && values == OperationValues(doc.operations, opShapes)
      requires OperationsLinked(doc.operations, opShapes) && OperationsApart(doc.operations, opShapes)
      requires OperationObjects(doc.operations, opShapes) <= mine
      modifies this, doc, mine
      ensures failed <==> FilterAll(env, INITIAL, values).None?
      ensures !failed ==> Valid(map[]) && |keptShapes| == |kept| && OperationsLinked(kept, keptShapes)
      ensures !failed ==> state == FilterAll(env, INITIAL, values).value.state
      ensures !failed
        ==> OperationValues(kept, keptShapes) == Kept(values, FilterAll(env, INITIAL, values).value.bodies)
    {
      failed, kept, keptShapes := false, [], [];
      var operations := doc.operations;
      ghost var left, leftShapes := operations, opShapes;
      ghost var bodies: seq<SelectionSet> := [];
      FilteredStart(env, values);
      var i := 0;
      while i < |operations|
        invariant 0 <= i <= |operations| && operations == doc.operations && |left| == |leftShapes| == |operations| - i
        invariant left == operations[i..] && OperationValues(left, leftShapes) == values[i..] && |kept| == |keptShapes|
        invariant Valid(map[]) && mine !! reserved && Between(left, leftShapes, kept, keptShapes, mine)
        invariant FilteredSoFar(env, values, i, state, bodies, OperationValues(kept, keptShapes))
      {
        ghost var current, before, body := state, OperationValues(kept, keptShapes), End;
        assert values[i] == OperationValues(left, leftShapes)[0];
        failed, kept, keptShapes, body := FilterOperation(operations[i], left, leftShapes, kept, keptShapes, mine);
        FilteredNext(env, values, i, current, bodies, before, failed, state, body);
        if failed {
          return;
        }
        bodies := bodies + [body];
        OperationValuesRest(left, leftShapes);
        left, leftShapes, i := left[1..], leftShapes[1..], i + 1;
      }
      assert values[..i] == values;
    }

    /** One operation is filtered in place and kept if something is left of it. */
    method FilterOperation(operation: OperationNode, ghost left: seq<OperationNode>, ghost leftShapes: seq<Shape>,
                           kept: seq<OperationNode>, ghost keptShapes: seq<Shape>, ghost mine: set<object>)
      returns (failed: bool, kept': seq<OperationNode>, ghost keptShapes': seq<Shape>, ghost body: SelectionSet)
      requires Valid(map[]) && mine !! reserved && |left| == |leftShapes| && |kept| == |keptShapes|
      requires left != [] && left[0] == operation && Between(left, leftShapes, kept, keptShapes, mine)
      modifies this, doc, mine
      ensures mine !! reserved && doc.operations == old(doc.operations)
      ensures failed <==> Filter(env, old(state), Value(leftShapes[0]), TOP).None?
      ensures !failed ==> Filter(env, old(state), Value(leftShapes[0]), TOP) == Some(Filtered(state, body))
      ensures !failed
        ==> Valid(map[]) && |kept'| == |keptShapes'| && Between(left[1..], leftShapes[1..], kept', keptShapes', mine)
      ensures !failed ==>
        OperationValues(kept', keptShapes')
        == OperationValues(kept, keptShapes) + if body.End? then [] else [Operation(operation.attrs, body)]
    {
      ghost var h := leftShapes[0];
      var filtered;
      ghost var g;
      BetweenFirst(left, leftShapes, kept, keptShapes, mine);
      failed, filtered, g := FilterBody(operation, h, left[1..], leftShapes[1..], kept, keptShapes, mine);
      kept', keptShapes', body := kept, keptShapes, Value(g);
      if !failed {
        HoldsEmptyIff(filtered, g);
        if |filtered| > 0 {
          BetweenNext(left, leftShapes, kept, keptShapes, g, mine);
          kept', keptShapes' := kept + [operation], keptShapes + [g];
        }
      }
    }

    method FilterBody(operation: OperationNode, ghost h: Shape, ghost rest: seq<OperationNode>,
        ghost restShapes: seq<Shape>, ghost kept: seq<OperationNode>, ghost keptShapes: seq<Shape>,
        ghost mine: set<object>)
      returns (failed: bool, filtered: seq<Selection>, ghost g: Shape)
      requires Valid(map[]) && mine !! reserved && |rest| == |restShapes| && |kept| == |keptShapes|
      requires Linked(operation.selectionSet, h) && Separate(h) && operation in mine && Nodes(h) <= mine
      requires OperationsLinked(rest, restShapes) && OperationsLinked(kept, keptShapes)
      requires {operation} + Nodes(h) !! OperationObjects(rest, restShapes)
      requires {operation} + Nodes(h) !! OperationObjects(kept, keptShapes)
      modifies this, doc, operation, Nodes(h)
      ensures mine !! reserved && doc.operations == old(doc.operations)
      ensures failed <==> Filter(env, old(state), Value(h), TOP).None?
      ensures !failed ==> Filter(env, old(state), Value(h), TOP) == Some(Filtered(state, Value(g)))
      ensures !failed
        ==> Valid(map[]) && operation.selectionSet == filtered && Linked(filtered, g) && Nodes(g) <= Nodes(h)
      ensures OperationsLinked(rest, restShapes) && OperationsLinked(kept, keptShapes)
    {
      OperationsExist(rest, restShapes);
      OperationsExist(kept, keptShapes);
      failed, filtered, g := FilterSelectionSet(operation.selectionSet, TOP, h, map[], mine);
      if !failed {
        NodesExist(g);
        SetBody(operation, filtered);
      }
    }

    method SetBody(operation: OperationNode, filtered: seq<Selection>)
      modifies operation
      ensures operation.selectionSet == filtered
    {
      operation.selectionSet := filtered;
    }
  }

  lemma EnsureEquation(env: Env, s: State, key: Key)
    requires key.name in env.originals && key !in s.variants
    ensures var claimed := Claim(env, s, key);
            var f := Filter(env, claimed, env.originals[key.name].body, key.context);
            var variant := claimed.variants[key];
            EnsureVariant(env, s, key.name, key.context)
            == if f.None? then None
               else Some(Ensured(f.value.state.(bodies := f.value.state.bodies[variant :=
                                                 env.originals[key.name].(name := variant, body := f.value.sels)]),
                                 variant, !f.value.sels.End?))
  {
    assert Key(key.name, key.context) == key;
  }
}
