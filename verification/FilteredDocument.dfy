// Theorems about whole filtered documents.
module FilteredDocument {
  import opened Document
  import opened SalaryPolicy
  import opened VariantFilter
  import opened VariantCoherence
  import opened VariantTheorems
  import opened Wrappers

  // ------------------------------------------------------------------ the run over all operations

  /** The contexts that occur: permission is only ever granted inside employeeByID. */
  predicate Proper(context: Context) {
    context.salaryAllowed ==> context.inEmployeeByID
  }

  /** The list of clones has each clone once. */
  ghost predicate Ordered(s: State) {
    && s.used == s.variants.Values
    && (forall k <- s.variants :: Proper(k.context))
    && |s.order| == |s.variants|
    && (forall v <- s.order :: v in s.used)
    && (forall v <- s.used :: v in s.order)
    && forall i, j :: 0 <= i < j < |s.order| ==> s.order[i] != s.order[j]
  }

  lemma NewValue(variants: map<Key, string>, key: Key, v: string)
    requires key !in variants
    ensures variants[key := v].Values == variants.Values + {v} && |variants[key := v]| == |variants| + 1
  {
    var more := variants[key := v];
    assert more.Keys == variants.Keys + {key};
    forall w <- variants.Values
      ensures w in more.Values
    {
      var k :| k in variants && variants[k] == w;
      assert more[k] == w;
    }
    assert more[key] == v;
  }

  lemma ClaimOrders(env: Env, s: State, key: Key)
    requires Ordered(s) && Proper(key.context) && key.name in env.originals && key !in s.variants
    ensures Ordered(Claim(env, s, key))
  {
    var v := FreshName(key.name, key.context, s.used);
    NewValue(s.variants, key, v);
    assert v !in s.order;
  }

  lemma NotingKeepsOrder(s: State)
    requires Ordered(s)
    ensures Ordered(s.(removed := s.removed + {REMOVED_SALARY}))
  {
  }

  lemma {:induction false} FilterOrders(env: Env, s: State, sels: SelectionSet, context: Context)
    requires Ordered(s) && Proper(context) && Filter(env, s, sels, context).Some?
    ensures Ordered(Filter(env, s, sels, context).value.state)
    decreases |Unclaimed(env, s)|, Size(sels), 1
  {
    match sels
    case End =>
    case Field(name, id, _, sub, rest) =>
      if Hidden(context, name) {
        NotingKeepsOrder(s);
        FilterOrders(env, s.(removed := s.removed + {REMOVED_SALARY}), rest, context);
      } else if sub.End? {
        FilterOrders(env, s, rest, context);
      } else {
        PairOrders(env, s, sub, Enter(env.policy, context, name, id), rest, context);
      }
    case Inline(_, sub, rest) => PairOrders(env, s, sub, context, rest, context);
    case Spread(name, _, rest) => SpreadOrders(env, s, name, rest, context);
  }

  lemma {:induction false} SpreadOrders(env: Env, s: State, name: string, rest: SelectionSet, context: Context)
    requires Ordered(s) && Proper(context) && EnsureVariant(env, s, name, context).Some?
    requires Filter(env, EnsureVariant(env, s, name, context).value.state, rest, context).Some?
    ensures Ordered(Filter(env, EnsureVariant(env, s, name, context).value.state, rest, context).value.state)
    decreases |Unclaimed(env, s)|, Size(rest) + 1, 0
  {
    EnsureOrders(env, s, name, context);
    var e := EnsureVariant(env, s, name, context).value;
    MoreClaimed(env, s, e.state);
    FilterOrders(env, e.state, rest, context);
  }

  lemma {:induction false} PairOrders(env: Env, s: State, sub: SelectionSet, inner: Context, rest: SelectionSet,
      context: Context)
    requires Ordered(s) && Proper(inner) && Proper(context) && Filter(env, s, sub, inner).Some?
    requires Filter(env, Filter(env, s, sub, inner).value.state, rest, context).Some?
    ensures Ordered(Filter(env, Filter(env, s, sub, inner).value.state, rest, context).value.state)
    decreases |Unclaimed(env, s)|, Size(sub) + Size(rest) + 1, 0
  {
    FilterOrders(env, s, sub, inner);
    MoreClaimed(env, s, Filter(env, s, sub, inner).value.state);
    FilterOrders(env, Filter(env, s, sub, inner).value.state, rest, context);
  }

  lemma {:induction false} EnsureOrders(env: Env, s: State, name: string, context: Context)
    requires Ordered(s) && Proper(context) && EnsureVariant(env, s, name, context).Some?
    ensures Ordered(EnsureVariant(env, s, name, context).value.state)
    decreases |Unclaimed(env, s)|, 0, 0
  {
    var key := Key(name, context);
    if name in env.originals && key !in s.variants {
      ClaimShrinks(env, s, key);
      ClaimOrders(env, s, key);
      FilterOrders(env, Claim(env, s, key), env.originals[name].body, context);
    }
  }

  /** The i-th operation's filtered body is its translation, with nothing missed. */
  ghost predicate Done(env: Env, s: State, body: SelectionSet, filtered: SelectionSet)
    requires Named(env, s)
  {
    && Covered(env, s.variants.Keys, body, TOP)
    && filtered == Translate(env, s.variants, Live(env, s, {}), body, TOP)
    && ChecksPass(env.policy, body, TOP)
    && (HidesSalary(env.policy, body, TOP) ==> REMOVED_SALARY in s.removed)
  }

  ghost predicate RunResult(env: Env, operations: seq<Operation>, all: FilteredAll) {
    && Inv(env, all.state, {}) && Ordered(all.state)
    && |all.bodies| == |operations|
    && AllDone(env, all.state, operations, all.bodies)
  }

  ghost predicate AllDone(env: Env, s: State, operations: seq<Operation>, bodies: seq<SelectionSet>)
    requires Named(env, s) && |bodies| == |operations|
  {
    forall i :: 0 <= i < |operations| ==> Done(env, s, operations[i].body, bodies[i])
  }

  lemma DoneStays(env: Env, s: State, t: State, body: SelectionSet, filtered: SelectionSet)
    requires Named(env, s) && Named(env, t) && Extends(s, t) && Done(env, s, body, filtered)
    ensures Done(env, t, body, filtered)
  {
    LiveStable(env, s, t, {});
    TranslateStable(env, s.variants, Live(env, s, {}), t.variants, Live(env, t, {}), body, TOP);
  }

  lemma {:induction false} RunIsCoherent(env: Env, operations: seq<Operation>)
    requires FilterAll(env, INITIAL, operations).Some?
    ensures RunResult(env, operations, FilterAll(env, INITIAL, operations).value)
  {
    if operations == [] {
    } else {
      var last := |operations| - 1;
      RunIsCoherent(env, operations[..last]);
      RunStep(env, operations, FilterAll(env, INITIAL, operations[..last]).value);
    }
  }

  lemma AllDoneStays(env: Env, s: State, t: State, operations: seq<Operation>, bodies: seq<SelectionSet>)
    requires Named(env, s) && Named(env, t) && Extends(s, t) && |bodies| == |operations|
      && AllDone(env, s, operations, bodies)
    ensures AllDone(env, t, operations, bodies)
  {
    forall i | 0 <= i < |operations|
      ensures Done(env, t, operations[i].body, bodies[i])
    {
      DoneStays(env, s, t, operations[i].body, bodies[i]);
    }
  }

  lemma AllDoneAppend(env: Env, s: State, operations: seq<Operation>, bodies: seq<SelectionSet>, filtered: SelectionSet)
    requires Named(env, s) && |operations| == |bodies| + 1
    requires AllDone(env, s, operations[..|bodies|], bodies) && Done(env, s, operations[|bodies|].body, filtered)
    ensures AllDone(env, s, operations, bodies + [filtered])
  {
    forall i | 0 <= i < |operations|
      ensures Done(env, s, operations[i].body, (bodies + [filtered])[i])
    {
      if i < |bodies| {
        assert operations[..|bodies|][i] == operations[i];
      }
    }
  }

  lemma RunStep(env: Env, operations: seq<Operation>, before: FilteredAll)
    requires operations != [] && RunResult(env, operations[..|operations| - 1], before)
    requires Filter(env, before.state, operations[|operations| - 1].body, TOP).Some?
    ensures var f := Filter(env, before.state, operations[|operations| - 1].body, TOP).value;
            RunResult(env, operations, FilteredAll(f.state, before.bodies + [f.sels]))
  {
    var last := |operations| - 1;
    FilterIsCoherent(env, before.state, {}, operations[last].body, TOP);
    FilterOrders(env, before.state, operations[last].body, TOP);
    var f := Filter(env, before.state, operations[last].body, TOP).value;
    AllDoneStays(env, before.state, f.state, operations[..last], before.bodies);
    AllDoneAppend(env, f.state, operations, before.bodies, f.sels);
  }

  lemma KeptSpreads(operations: seq<Operation>, bodies: seq<SelectionSet>)
    requires |operations| == |bodies| > 0
    ensures var last := |operations| - 1;
            OperationSpreads(Kept(operations, bodies))
            == OperationSpreads(Kept(operations[..last], bodies[..last])) + Spreads(bodies[last])
  {
    var last := |operations| - 1;
    var before := Kept(operations[..last], bodies[..last]);
    if bodies[last].End? {
      assert before + [] == before;
    } else {
      var op := operations[last].(body := bodies[last]);
      assert Kept(operations, bodies) == before + [op];
      assert forall o :: o in before + [op] <==> o in before || o == op;
    }
  }

  lemma {:induction false} RunReaches(env: Env, operations: seq<Operation>, names: set<string>)
    requires "" !in env.originals && FilterAll(env, INITIAL, operations).Some?
    requires Named(env, FilterAll(env, INITIAL, operations).value.state)
    requires ClosedSoFar(env, FilterAll(env, INITIAL, operations).value.state, {}, names)
    requires OperationSpreads(Kept(operations, FilterAll(env, INITIAL, operations).value.bodies)) - {""} <= names
    ensures NewOnesReached(env, INITIAL, FilterAll(env, INITIAL, operations).value.state, names)
  {
    if operations == [] {
    } else {
      var last := |operations| - 1;
      RunIsCoherent(env, operations[..last]);
      var before := FilterAll(env, INITIAL, operations[..last]).value;
      FilterIsCoherent(env, before.state, {}, operations[last].body, TOP);
      var f := Filter(env, before.state, operations[last].body, TOP).value;
      var bodies := before.bodies + [f.sels];
      assert bodies[..last] == before.bodies;
      KeptSpreads(operations, bodies);
      ClosedBefore(env, before.state, f.state, {}, names);
      RunReaches(env, operations[..last], names);
      FilterReaches(env, before.state, {}, operations[last].body, TOP, names);
      ReachedChain(env, INITIAL, before.state, f.state, names);
    }
  }

  // ------------------------------------------------------------------ the retained fragments

  lemma ByNameAppend(fragments: seq<Fragment>, f: Fragment)
    ensures ByName(fragments + [f]) == ByName(fragments)[f.name := f]
  {
    assert (fragments + [f])[..|fragments|] == fragments;
  }

  /** The retained fragments are the used clones with content, each under its own name. */
  lemma {:induction false} RetainedExactly(bodies: Fragments, order: seq<string>, used: set<string>)
    requires forall v <- order :: v in bodies && bodies[v].name == v
    ensures forall v :: v in ByName(Retained(bodies, order, used)) <==> v in order && v in used && !bodies[v].body.End?
    ensures forall v <- ByName(Retained(bodies, order, used)) :: ByName(Retained(bodies, order, used))[v] == bodies[v]
    ensures forall f <- Retained(bodies, order, used) ::
      f.name in order && f.name in used && f == bodies[f.name] && !f.body.End?
  {
    if order == [] {
    } else {
      var last := order[|order| - 1];
      var before := Retained(bodies, order[..|order| - 1], used);
      RetainedExactly(bodies, order[..|order| - 1], used);
      assert forall v :: v in order <==> v in order[..|order| - 1] || v == last;
      if last in used && !bodies[last].body.End? {
        assert Retained(bodies, order, used) == before + [bodies[last]];
        ByNameAppend(before, bodies[last]);
      } else {
        assert Retained(bodies, order, used) == before;
      }
    }
  }

  predicate DistinctNames(fragments: seq<Fragment>) {
    forall i, j :: 0 <= i < j < |fragments| ==> fragments[i].name != fragments[j].name
  }

  lemma {:induction false} RetainedDistinct(bodies: Fragments, order: seq<string>, used: set<string>)
    requires forall v <- order :: v in bodies && bodies[v].name == v
    requires forall i, j :: 0 <= i < j < |order| ==> order[i] != order[j]
    ensures DistinctNames(Retained(bodies, order, used))
  {
    if order == [] {
    } else {
      var last := order[|order| - 1];
      var before := Retained(bodies, order[..|order| - 1], used);
      RetainedDistinct(bodies, order[..|order| - 1], used);
      RetainedExactly(bodies, order[..|order| - 1], used);
      assert last !in order[..|order| - 1];
      var out := Retained(bodies, order, used);
      assert out == before || out == before + [bodies[last]];
      forall i, j | 0 <= i < j < |out|
        ensures out[i].name != out[j].name
      {
        if j < |before| {
          assert out[i] == before[i] && out[j] == before[j];
          assert before[i].name != before[j].name;
        } else {
          assert out[i] in before && out[j] == bodies[last];
          assert out[i].name in order[..|order| - 1];
        }
      }
    }
  }

  /** Everything the document theorems need about a run. */
  lemma Unpack(doc: Document, policy: Policy, out: Document, removed: set<string>) returns (env: Env, all: FilteredAll,
      used: set<string>)
    requires FiltersTo(doc, policy, out, removed) && "" !in ByName(doc.fragments)
    ensures env == Env(ByName(doc.fragments), policy) && FilterAll(env, INITIAL, doc.operations) == Some(all)
    ensures RunResult(env, doc.operations, all)
    ensures out.operations == Kept(doc.operations, all.bodies) && removed == all.state.removed
    ensures Reachable(all.state.bodies, OperationSpreads(out.operations), used)
    ensures out.fragments == Retained(all.state.bodies, all.state.order, used)
    ensures System(env, all.state, ByName(out.fragments), used)
  {
    env := Env(ByName(doc.fragments), policy);
    all := FilterAll(env, INITIAL, doc.operations).value;
    RunIsCoherent(env, doc.operations);
    used :| Reachable(all.state.bodies, OperationSpreads(out.operations), used)
            && out.fragments == Retained(all.state.bodies, all.state.order, used);
    RetainedExactly(all.state.bodies, all.state.order, used);
  }

  // ------------------------------------------------------------------ what a document means

  /** An operation's meaning: its kind, name, variables and directives, and its expansion. */
  datatype Meaning = Meaning(attrs: string, tree: Tree)

  /** The meanings of a document's operations; none when some spread is undefined or does not end. */
  predicate Means(doc: Document, meanings: seq<Meaning>) {
    && |meanings| == |doc.operations|
    && forall i :: 0 <= i < |meanings| ==>
         && meanings[i].attrs == doc.operations[i].attrs
         && ExpandsTo(ByName(doc.fragments), doc.operations[i].body, meanings[i].tree)
  }

  /** The plain filter on meanings; an operation with nothing left is dropped. */
  function FilterMeanings(policy: Policy, meanings: seq<Meaning>): seq<Meaning> {
    if meanings == [] then []
    else
      var last := meanings[|meanings| - 1];
      var left := FilterTree(policy, last.tree, TOP);
      FilterMeanings(policy, meanings[..|meanings| - 1]) + if left.Nil? then [] else [Meaning(last.attrs, left)]
  }

  predicate SomeRefused(policy: Policy, meanings: seq<Meaning>) {
    exists m <- meanings :: HoldsRefusedSalary(policy, m.tree, TOP)
  }

  predicate SomeFailing(policy: Policy, meanings: seq<Meaning>) {
    exists m <- meanings :: PolicyFails(policy, m.tree, TOP)
  }

  /** One operation. Other operations of the document may spread undefined or cyclic fragments. */
  lemma OperationRefines(doc: Document, policy: Policy, out: Document, removed: set<string>, i: nat, t: Tree)
    returns (filtered: SelectionSet)
    requires FiltersTo(doc, policy, out, removed) && "" !in ByName(doc.fragments)
    requires i < |doc.operations| && ExpandsTo(ByName(doc.fragments), doc.operations[i].body, t)
    ensures filtered == FilterAll(Env(ByName(doc.fragments), policy), INITIAL, doc.operations).value.bodies[i]
    ensures ExpandsTo(ByName(out.fragments), filtered, FilterTree(policy, t, TOP))
    ensures filtered.End? || doc.operations[i].(body := filtered) in out.operations
  {
    var env, all, used := Unpack(doc, policy, out, removed);
    filtered := all.bodies[i];
    KeptHas(doc.operations, all.bodies, i);
    assert Done(env, all.state, doc.operations[i].body, filtered);
    TranslationRefines(env, all.state, ByName(out.fragments), used, doc.operations[i].body, TOP, t);
  }

  lemma {:induction false} KeptHas(operations: seq<Operation>, bodies: seq<SelectionSet>, i: nat)
    requires i < |operations| == |bodies|
    ensures bodies[i].End? || operations[i].(body := bodies[i]) in Kept(operations, bodies)
    ensures Spreads(bodies[i]) <= OperationSpreads(Kept(operations, bodies))
  {
    var last := |operations| - 1;
    KeptSpreads(operations, bodies);
    if i < last {
      KeptHas(operations[..last], bodies[..last], i);
    }
  }

  /** Main theorem: the filtered document means the plainly filtered meaning of the original. */
  lemma DocumentRefines(doc: Document, policy: Policy, out: Document, removed: set<string>, meanings: seq<Meaning>)
    requires FiltersTo(doc, policy, out, removed) && "" !in ByName(doc.fragments) && Means(doc, meanings)
    ensures Means(out, FilterMeanings(policy, meanings))
  {
    var bodies := FilterAll(Env(ByName(doc.fragments), policy), INITIAL, doc.operations).value.bodies;
    forall i | 0 <= i < |doc.operations|
      ensures ExpandsTo(ByName(out.fragments), bodies[i], FilterTree(policy, meanings[i].tree, TOP))
    {
      var filtered := OperationRefines(doc, policy, out, removed, i, meanings[i].tree);
    }
    KeptMeans(doc.operations, bodies, policy, ByName(out.fragments), meanings);
  }

  lemma {:induction false} KeptMeans(operations: seq<Operation>, bodies: seq<SelectionSet>, policy: Policy,
                                     fragments: Fragments, meanings: seq<Meaning>)
    requires |operations| == |bodies| == |meanings|
    requires forall i :: 0 <= i < |operations| ==>
               && meanings[i].attrs == operations[i].attrs
               && ExpandsTo(fragments, bodies[i], FilterTree(policy, meanings[i].tree, TOP))
    ensures var kept, left := Kept(operations, bodies), FilterMeanings(policy, meanings);
            |kept| == |left| && forall i :: 0 <= i < |kept| ==>
              left[i].attrs == kept[i].attrs && ExpandsTo(fragments, kept[i].body, left[i].tree)
  {
    if operations == [] {
    } else {
      var last := |operations| - 1;
      KeptMeans(operations[..last], bodies[..last], policy, fragments, meanings[..last]);
    }
  }

  /** The filter fails exactly when the policy fails on some expanded operation. */
  lemma FailsExactly(doc: Document, policy: Policy, meanings: seq<Meaning>)
    requires Means(doc, meanings)
    ensures FilterAll(Env(ByName(doc.fragments), policy), INITIAL, doc.operations).None?
      <==> SomeFailing(policy, meanings)
  {
    var env := Env(ByName(doc.fragments), policy);
    if FilterAll(env, INITIAL, doc.operations).Some? {
      RunIsCoherent(env, doc.operations);
      var all := FilterAll(env, INITIAL, doc.operations).value;
      forall i | 0 <= i < |meanings|
        ensures !PolicyFails(policy, meanings[i].tree, TOP)
      {
        assert Done(env, all.state, doc.operations[i].body, all.bodies[i]);
        AllNoted(env, all.state, doc.operations[i].body, TOP, meanings[i].tree);
      }
    } else if !SomeFailing(policy, meanings) {
      RunNotes(env, doc.operations, meanings);
    }
  }

  lemma {:induction false} RunNotes(env: Env, operations: seq<Operation>, meanings: seq<Meaning>)
    requires |operations| == |meanings|
    requires forall i :: 0 <= i < |meanings| ==> ExpandsTo(env.originals, operations[i].body, meanings[i].tree)
    requires !SomeFailing(env.policy, meanings)
    ensures FilterAll(env, INITIAL, operations).Some?
    ensures REMOVED_SALARY in FilterAll(env, INITIAL, operations).value.state.removed
      ==> SomeRefused(env.policy, meanings)
  {
    if operations == [] {
    } else {
      var last := |operations| - 1;
      assert meanings[last] in meanings;
      assert forall m <- meanings[..last] :: m in meanings;
      RunNotes(env, operations[..last], meanings[..last]);
      NothingElseNoted(env, FilterAll(env, INITIAL, operations[..last]).value.state, operations[last].body, TOP,
          meanings[last].tree);
    }
  }

  /** The list of removed fields is empty exactly when no operation holds a refused salary. */
  lemma RemovedExactly(doc: Document, policy: Policy, out: Document, removed: set<string>, meanings: seq<Meaning>)
    requires FiltersTo(doc, policy, out, removed) && "" !in ByName(doc.fragments) && Means(doc, meanings)
    ensures removed == if SomeRefused(policy, meanings) then {REMOVED_SALARY} else {}
  {
    var env, all, used := Unpack(doc, policy, out, removed);
    FailsExactly(doc, policy, meanings);
    RunNotes(env, doc.operations, meanings);
    if SomeRefused(policy, meanings) {
      var i :| 0 <= i < |meanings| && HoldsRefusedSalary(policy, meanings[i].tree, TOP);
      assert Done(env, all.state, doc.operations[i].body, all.bodies[i]);
      AllNoted(env, all.state, doc.operations[i].body, TOP, meanings[i].tree);
    }
  }

  /** In a document of the grammar's shape the operations keep their meaning exactly when nothing is listed as
      removed. */
  lemma UnchangedIffNothingRemoved(doc: Document, policy: Policy, out: Document, removed: set<string>,
      meanings: seq<Meaning>)
    requires FiltersTo(doc, policy, out, removed) && "" !in ByName(doc.fragments) && Means(doc, meanings)
    requires forall m <- meanings :: !m.tree.Nil? && NoEmptyGroup(m.tree)
    ensures removed == {} <==> FilterMeanings(policy, meanings) == meanings
    ensures removed == {} ==> Means(out, meanings)
  {
    RemovedExactly(doc, policy, out, removed, meanings);
    DocumentRefines(doc, policy, out, removed, meanings);
    MeaningsUnchanged(policy, meanings);
  }

  function AllFields(meanings: seq<Meaning>): nat {
    if meanings == [] then 0 else AllFields(meanings[..|meanings| - 1]) + Fields(meanings[|meanings| - 1].tree)
  }

  /** The last operation: filtering changes it, and makes it smaller, just when it holds something refused. */
  lemma MeaningUnchanged(policy: Policy, before: seq<Meaning>, last: Meaning)
    requires !last.tree.Nil? && NoEmptyGroup(last.tree)
    ensures var all := FilterMeanings(policy, before + [last]);
      var fewer := FilterMeanings(policy, before);
      if HoldsRefusedSalary(policy, last.tree, TOP) then AllFields(all) < AllFields(fewer) + Fields(last.tree)
      else all == fewer + [last]
    ensures AllFields(FilterMeanings(policy, before + [last])) <= AllFields(FilterMeanings(policy, before))
        + Fields(last.tree)
  {
    assert (before + [last])[..|before|] == before;
    FilterChangesIffRefused(policy, last.tree, TOP);
    FilterShrinks(policy, last.tree, TOP);
    var left := FilterTree(policy, last.tree, TOP);
    var fewer := FilterMeanings(policy, before);
    if left.Nil? {
      assert FilterMeanings(policy, before + [last]) == fewer + [] == fewer;
    } else {
      assert (fewer + [Meaning(last.attrs, left)])[..|fewer|] == fewer;
    }
  }

  lemma {:induction false} MeaningsUnchanged(policy: Policy, meanings: seq<Meaning>)
    requires forall m <- meanings :: !m.tree.Nil? && NoEmptyGroup(m.tree)
    ensures FilterMeanings(policy, meanings) == meanings <==> !SomeRefused(policy, meanings)
    ensures AllFields(FilterMeanings(policy, meanings)) <= AllFields(meanings)
    ensures SomeRefused(policy, meanings) ==> AllFields(FilterMeanings(policy, meanings)) < AllFields(meanings)
  {
    if meanings == [] {
    } else {
      var before, last := meanings[..|meanings| - 1], meanings[|meanings| - 1];
      assert meanings == before + [last];
      MeaningsUnchanged(policy, before);
      MeaningUnchanged(policy, before, last);
      assert SomeRefused(policy, meanings)
        <==> SomeRefused(policy, before) || HoldsRefusedSalary(policy, last.tree, TOP);
    }
  }

  /** Filtering a filtered document succeeds, lists nothing as removed and leaves the same meaning. */
  lemma FilteringIsIdempotent(doc: Document, policy: Policy, out: Document, removed: set<string>,
                              again: Document, removedAgain: set<string>, meanings: seq<Meaning>)
    requires FiltersTo(doc, policy, out, removed) && "" !in ByName(doc.fragments) && Means(doc, meanings)
    ensures FilterAll(Env(ByName(out.fragments), policy), INITIAL, out.operations).Some?
    ensures FiltersTo(out, policy, again, removedAgain)
      ==> removedAgain == {} && Means(again, FilterMeanings(policy, meanings))
  {
    var left := FilterMeanings(policy, meanings);
    DocumentRefines(doc, policy, out, removed, meanings);
    FailsExactly(doc, policy, meanings);
    MeaningsClean(policy, meanings);
    FailsExactly(out, policy, left);
    if FiltersTo(out, policy, again, removedAgain) {
      NamesNotEmpty(doc, policy, out, removed);
      RemovedExactly(out, policy, again, removedAgain, left);
      DocumentRefines(out, policy, again, removedAgain, left);
    }
  }

  lemma NamesNotEmpty(doc: Document, policy: Policy, out: Document, removed: set<string>)
    requires FiltersTo(doc, policy, out, removed) && "" !in ByName(doc.fragments)
    ensures "" !in ByName(out.fragments)
  {
    var env, all, used := Unpack(doc, policy, out, removed);
    RetainedExactly(all.state.bodies, all.state.order, used);
  }

  lemma {:induction false} MeaningsClean(policy: Policy, meanings: seq<Meaning>)
    requires !SomeFailing(policy, meanings)
    ensures !SomeFailing(policy, FilterMeanings(policy, meanings))
    ensures !SomeRefused(policy, FilterMeanings(policy, meanings))
    ensures FilterMeanings(policy, FilterMeanings(policy, meanings)) == FilterMeanings(policy, meanings)
  {
    if meanings == [] {
    } else {
      var before, last := meanings[..|meanings| - 1], meanings[|meanings| - 1];
      assert last in meanings && forall m <- before :: m in meanings;
      MeaningsClean(policy, before);
      FilteredIsClean(policy, last.tree, TOP);
      var left := FilterTree(policy, last.tree, TOP);
      var all := FilterMeanings(policy, before) + if left.Nil? then [] else [Meaning(last.attrs, left)];
      assert FilterMeanings(policy, meanings) == all;
      if left.Nil? {
        assert all == FilterMeanings(policy, before);
      } else {
        assert all[..|all| - 1] == FilterMeanings(policy, before);
      }
    }
  }

  // ------------------------------------------------------------------ every document, cyclic or not

  predicate AllSpreadsDefined(doc: Document) {
    && (forall operation <- doc.operations :: Spreads(operation.body) <= ByName(doc.fragments).Keys)
    && (forall f <- ByName(doc.fragments) :: Spreads(ByName(doc.fragments)[f].body) <= ByName(doc.fragments).Keys)
  }

  /** A translation spreads only variants that have content. */
  lemma {:induction false} SpreadsAreLive(env: Env, s: State, sels: SelectionSet, context: Context, v: string)
    requires Inv(env, s, {}) && Spreads(sels) <= env.originals.Keys
    requires v in Spreads(Translate(env, s.variants, Live(env, s, {}), sels, context))
    ensures v in s.bodies && !s.bodies[v].body.End?
  {
    var live := Live(env, s, {});
    match sels
    case End =>
    case Field(name, id, _, sub, rest) =>
      if v in Spreads(Translate(env, s.variants, live, rest, context)) {
        SpreadsAreLive(env, s, rest, context, v);
      } else {
        SpreadsAreLive(env, s, sub, Enter(env.policy, context, name, id), v);
      }
    case Inline(_, sub, rest) =>
      if v in Spreads(Translate(env, s.variants, live, rest, context)) {
        SpreadsAreLive(env, s, rest, context, v);
      } else {
        SpreadsAreLive(env, s, sub, context, v);
      }
    case Spread(name, _, rest) =>
      if v in Spreads(Translate(env, s.variants, live, rest, context)) {
        SpreadsAreLive(env, s, rest, context, v);
      } else {
        assert v == s.variants[Key(name, context)];
      }
  }

  /** The prune discards exactly the clones whose bodies filtered to nothing. */
  lemma PruneDiscardsExactlyTheEmpty(doc: Document, policy: Policy, out: Document, removed: set<string>, v: string)
    requires FiltersTo(doc, policy, out, removed) && "" !in ByName(doc.fragments)
    ensures var made := FilterAll(Env(ByName(doc.fragments), policy), INITIAL, doc.operations).value.state;
            v in ByName(out.fragments) <==> v in made.order && v in made.bodies && !made.bodies[v].body.End?
  {
    var env, all, used := Unpack(doc, policy, out, removed);
    var made := all.state;
    RetainedExactly(made.bodies, made.order, used);
    RunReaches(env, doc.operations, used);
    if v in made.order && !made.bodies[v].body.End? {
      assert v in made.used;
      var k :| k in made.variants && made.variants[k] == v;
      assert !Body(made, k).End?;
    }
  }

  /** The filtered document is self-contained: each spread names exactly one fragment, each fragment has
      content and is reachable from an operation, each operation has content. */
  lemma OutputIsSelfContained(doc: Document, policy: Policy, out: Document, removed: set<string>)
    requires FiltersTo(doc, policy, out, removed) && "" !in ByName(doc.fragments) && AllSpreadsDefined(doc)
    ensures AllSpreadsDefined(out)
    ensures DistinctNames(out.fragments)
    ensures forall f <- out.fragments ::
      !f.body.End? && f.name in ByName(out.fragments) && f == ByName(out.fragments)[f.name]
    ensures forall operation <- out.operations :: !operation.body.End?
    ensures forall names: set<string> ::
      Closed(ByName(out.fragments), names) && OperationSpreads(out.operations) <= names ==>
        ByName(out.fragments).Keys <= names
  {
    var env, all, used := Unpack(doc, policy, out, removed);
    var made, fragments := all.state, ByName(out.fragments);
    RetainedExactly(made.bodies, made.order, used);
    RetainedDistinct(made.bodies, made.order, used);
    forall v
      ensures v in fragments <==> v in made.bodies && !made.bodies[v].body.End?
    {
      PruneDiscardsExactlyTheEmpty(doc, policy, out, removed, v);
    }
    forall operation <- out.operations
      ensures !operation.body.End? && Spreads(operation.body) <= fragments.Keys
    {
      var i := KeptFrom(doc.operations, all.bodies, operation);
      assert Done(env, made, doc.operations[i].body, all.bodies[i]);
      forall v <- Spreads(operation.body)
        ensures v in fragments
      {
        SpreadsAreLive(env, made, doc.operations[i].body, TOP, v);
      }
    }
    forall f <- fragments
      ensures Spreads(fragments[f].body) <= fragments.Keys
    {
      FragmentSpreadsDefined(env, made, f, fragments);
    }
    forall names: set<string> | Closed(fragments, names) && OperationSpreads(out.operations) <= names
      ensures fragments.Keys <= names
    {
      ReachableAmongRetained(env, made, fragments, OperationSpreads(out.operations), used, names);
    }
  }

  lemma {:induction false} KeptFrom(operations: seq<Operation>, bodies: seq<SelectionSet>,
      operation: Operation) returns (i: nat)
    requires |operations| == |bodies| && operation in Kept(operations, bodies)
    ensures i < |operations| && operation == operations[i].(body := bodies[i]) && !bodies[i].End?
  {
    i := |operations| - 1;
    if bodies[i].End? || operation != operations[i].(body := bodies[i]) {
      i := KeptFrom(operations[..i], bodies[..i], operation);
    }
  }

  lemma FragmentSpreadsDefined(env: Env, s: State, f: string, fragments: Fragments)
    requires Inv(env, s, {}) && Ordered(s) && f in s.bodies
    requires forall n <- env.originals :: Spreads(env.originals[n].body) <= env.originals.Keys
    requires forall v :: v in fragments <==> v in s.bodies && !s.bodies[v].body.End?
    ensures Spreads(s.bodies[f].body) <= fragments.Keys
  {
    var k :| k in s.variants && s.variants[k] == f;
    assert Coherent(env, s, Live(env, s, {}), k);
    forall v <- Spreads(s.bodies[f].body)
      ensures v in fragments
    {
      SpreadsAreLive(env, s, env.originals[k.name].body, k.context, v);
    }
  }

  /** Reachability through all clones and through the retained ones is the same: what is empty leads nowhere. */
  lemma ReachableAmongRetained(env: Env, s: State, fragments: Fragments, seeds: set<string>, used: set<string>,
      names: set<string>)
    requires Named(env, s) && Reachable(s.bodies, seeds, used)
    requires forall v :: v in fragments <==> v in s.bodies && !s.bodies[v].body.End?
    requires forall v <- fragments :: fragments[v] == s.bodies[v] && v in used
    requires Closed(fragments, names) && seeds <= names
    ensures fragments.Keys <= names
  {
    assert Closed(s.bodies, names);
  }

  // ------------------------------------------------------------------ how many variants

  const PROPER_CONTEXTS: set<Context> := {Context(false, false), Context(true, false), Context(true, true)}

  ghost function ProperKeys(names: set<string>): set<Key> {
    set name <- names, context <- PROPER_CONTEXTS :: Key(name, context)
  }

  lemma {:induction false} ProperKeysCount(names: set<string>)
    ensures |ProperKeys(names)| <= 3 * |names|
  {
    if names == {} {
      assert ProperKeys(names) == {};
    } else {
      var name :| name in names;
      var others := names - {name};
      ProperKeysCount(others);
      var three := {Key(name, Context(false, false)), Key(name, Context(true, false)), Key(name, Context(true, true))};
      assert ProperKeys(names) <= ProperKeys(others) + three;
      SubsetCard(ProperKeys(names), ProperKeys(others) + three);
    }
  }

  lemma {:induction false} RetainedCount(bodies: Fragments, order: seq<string>, used: set<string>)
    requires forall v <- order :: v in bodies
    ensures |Retained(bodies, order, used)| <= |order|
  {
    if order == [] {
    } else {
      RetainedCount(bodies, order[..|order| - 1], used);
    }
  }

  /** At most three variants per fragment. */
  lemma AtMostThreeVariants(doc: Document, policy: Policy, out: Document, removed: set<string>)
    requires FiltersTo(doc, policy, out, removed) && "" !in ByName(doc.fragments)
    ensures |out.fragments| <= 3 * |ByName(doc.fragments)|
  {
    var env, all, used := Unpack(doc, policy, out, removed);
    RetainedCount(all.state.bodies, all.state.order, used);
    forall k <- all.state.variants
      ensures k in ProperKeys(env.originals.Keys)
    {
      var Context(inside, allowed) := k.context;
      assert Context(inside, allowed) in PROPER_CONTEXTS;
      assert k == Key(k.name, k.context);
    }
    SubsetCard(all.state.variants.Keys, ProperKeys(env.originals.Keys));
    ProperKeysCount(env.originals.Keys);
  }

  /** The keys under which variants of the fragment are remembered. */
  function KeysOf(variants: map<Key, string>, name: string): set<Key> {
    set k | k in variants && k.name == name
  }

  /** At most three of each: every fragment of the new document is a variant of a fragment of the old one, and no
      fragment has more than three. */
  lemma AtMostThreeOfEach(doc: Document, policy: Policy, out: Document, removed: set<string>, name: string)
    requires FiltersTo(doc, policy, out, removed) && "" !in ByName(doc.fragments)
    ensures var variants := FilterAll(Env(ByName(doc.fragments), policy), INITIAL, doc.operations).value.state.variants;
      && |KeysOf(variants, name)| <= 3
      && (forall f <- out.fragments :: exists k <- variants :: variants[k] == f.name && k.name in ByName(doc.fragments))
  {
    var env, all, used := Unpack(doc, policy, out, removed);
    var variants := all.state.variants;
    var three := {Key(name, Context(false, false)), Key(name, Context(true, false)), Key(name, Context(true, true))};
    forall k <- KeysOf(variants, name)
      ensures k in three
    {
      var Context(inside, allowed) := k.context;
      assert k == Key(k.name, Context(inside, allowed)) && Proper(k.context);
    }
    SubsetCard(KeysOf(variants, name), three);
    forall f <- out.fragments
      ensures exists k <- variants :: variants[k] == f.name && k.name in ByName(doc.fragments)
    {
      RetainedFrom(all.state.bodies, all.state.order, used, f);
    }
  }

  lemma {:induction false} RetainedFrom(bodies: Fragments, order: seq<string>, used: set<string>, f: Fragment)
    requires (forall v <- order :: v in bodies && bodies[v].name == v) && f in Retained(bodies, order, used)
    ensures f.name in order
  {
    var last := order[|order| - 1];
    if f != bodies[last] {
      RetainedFrom(bodies, order[..|order| - 1], used, f);
    }
  }
}
