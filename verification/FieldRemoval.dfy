// The three passes over a document: fragments are filtered and the empty ones dropped, operations are filtered, and
// spreads of dropped fragments are cut.
module FieldRemoval {
  import opened SyntaxNodes
  import opened RemovedPaths
  import opened SharedGraph
  import opened ExpandedShape
  import opened DeniedFields

  datatype FragmentTree = FragmentTree(name: string, body: Expansion)

  datatype Trees = Trees(fragments: seq<FragmentTree>, operations: seq<Expansion>)

  datatype Outcome = Passed(trees: Trees) | ErrEmptyQuery

  /** Pass 1 keeps fragments that are not empty once filtered; paths start at the fragment. */
  ghost function FilteredFragments(fragments: seq<FragmentTree>, ds: Denied): seq<FragmentTree> {
    if fragments == [] then []
    else
      var last := fragments[|fragments| - 1];
      var body := Filtered(last.body, ds, "");
      FilteredFragments(fragments[..|fragments| - 1], ds) + if body.Done? then [] else [FragmentTree(last.name, body)]
  }

  ghost function EmptyFragments(fragments: seq<FragmentTree>, ds: Denied): set<string> {
    if fragments == [] then {}
    else
      var last := fragments[|fragments| - 1];
      EmptyFragments(fragments[..|fragments| - 1], ds) + if Filtered(last.body, ds, "").Done? then {last.name} else {}
  }

  ghost function FilteredAll(operations: seq<Expansion>, ds: Denied): (r: seq<Expansion>)
    ensures |r| == |operations| && forall i | 0 <= i < |r| :: r[i] == Filtered(operations[i], ds, "")
  {
    if operations == [] then []
    else FilteredAll(operations[..|operations| - 1], ds) + [Filtered(operations[|operations| - 1], ds, "")]
  }

  ghost function CutAll(operations: seq<Expansion>, names: set<string>): (r: seq<Expansion>)
    ensures |r| == |operations| && forall i | 0 <= i < |r| :: r[i] == Cut(operations[i], names)
  {
    if operations == [] then []
    else CutAll(operations[..|operations| - 1], names) + [Cut(operations[|operations| - 1], names)]
  }

  ghost function CutFragments(fragments: seq<FragmentTree>, names: set<string>): (r: seq<FragmentTree>)
    ensures |r| == |fragments|
      && forall i | 0 <= i < |r| :: r[i] == FragmentTree(fragments[i].name, Cut(fragments[i].body, names))
  {
    if fragments == [] then []
    else
      var last := fragments[|fragments| - 1];
      CutFragments(fragments[..|fragments| - 1], names) + [FragmentTree(last.name, Cut(last.body, names))]
  }

  /** removeFields, from tree to tree. */
  ghost function AfterPasses(t: Trees, ds: Denied): Outcome {
    var names := EmptyFragments(t.fragments, ds);
    var fragments := FilteredFragments(t.fragments, ds);
    var operations := FilteredAll(t.operations, ds);
    if exists op <- operations :: op.Done? then ErrEmptyQuery
    else if names == {} then Passed(Trees(fragments, operations))
    else if exists op <- CutAll(operations, names) :: op.Done? then ErrEmptyQuery
    else Passed(Trees(CutFragments(fragments, names), CutAll(operations, names)))
  }

  // ------------------------------------------------------------------ what the passes come to

  ghost predicate AllSpreadsAreLeaves(t: Trees) {
    && (forall f <- t.fragments :: SpreadsAreLeaves(f.body))
    && (forall op <- t.operations :: SpreadsAreLeaves(op))
  }

  /** No field with the name is in the document, at any depth. */
  ghost predicate NameGone(t: Trees, name: string) {
    && (forall f <- t.fragments :: name !in FieldNames(f.body))
    && (forall op <- t.operations :: name !in FieldNames(op))
  }

  ghost function FragmentNames(fragments: seq<FragmentTree>): set<string> {
    set f | f in fragments :: f.name
  }

  /** Every spread names a fragment of the document. */
  ghost predicate SpreadsDefined(t: Trees) {
    && (forall f <- t.fragments :: SpreadNames(f.body) <= FragmentNames(t.fragments))
    && (forall op <- t.operations :: SpreadNames(op) <= FragmentNames(t.fragments))
  }

  /** The body spreads defined names only and has none of the fields. */
  ghost predicate Fits(body: Expansion, defined: set<string>, gone: set<string>) {
    SpreadsAreLeaves(body) && SpreadNames(body) <= defined && FieldNames(body) !! gone
  }

  ghost predicate AllFit(fragments: seq<FragmentTree>, operations: seq<Expansion>, defined: set<string>,
      gone: set<string>) {
    (forall f <- fragments :: Fits(f.body, defined, gone)) && (forall op <- operations :: Fits(op, defined, gone))
  }

  lemma {:induction false} FilteredFragmentsFit(fragments: seq<FragmentTree>, ds: Denied, defined: set<string>)
    requires forall f <- fragments :: Fits(f.body, defined, {})
    ensures forall f <- FilteredFragments(fragments, ds) :: Fits(f.body, defined, ds.global)
  {
    if fragments != [] {
      var front, last := fragments[..|fragments| - 1], fragments[|fragments| - 1];
      assert Fits(last.body, defined, {});
      FilteredFragmentsFit(front, ds, defined);
      FilteredNames(last.body, ds, "");
    }
  }

  lemma NamesOfAppend(a: seq<FragmentTree>, b: seq<FragmentTree>)
    ensures FragmentNames(a + b) == FragmentNames(a) + FragmentNames(b)
  {
    assert forall f :: f in a + b <==> f in a || f in b;
  }

  /** A fragment's name is kept or noted as empty. */
  lemma {:induction false} KeptOrEmpty(fragments: seq<FragmentTree>, ds: Denied)
    ensures FragmentNames(fragments) == FragmentNames(FilteredFragments(fragments, ds)) + EmptyFragments(fragments, ds)
  {
    if fragments != [] {
      var front, last := fragments[..|fragments| - 1], fragments[|fragments| - 1];
      var body := Filtered(last.body, ds, "");
      KeptOrEmpty(front, ds);
      NamesOfAppend(front, [last]);
      NamesOfAppend(FilteredFragments(front, ds), [FragmentTree(last.name, body)]);
      assert fragments == front + [last];
      assert FragmentNames([last]) == {last.name} && FragmentNames([FragmentTree(last.name, body)]) == {last.name};
    }
  }

  lemma {:induction false} FilteredAllFit(operations: seq<Expansion>, ds: Denied, defined: set<string>)
    requires forall op <- operations :: Fits(op, defined, {})
    ensures forall op <- FilteredAll(operations, ds) :: Fits(op, defined, ds.global)
  {
    if operations != [] {
      var front, last := operations[..|operations| - 1], operations[|operations| - 1];
      assert Fits(last, defined, {});
      FilteredAllFit(front, ds, defined);
      FilteredNames(last, ds, "");
    }
  }

  lemma {:induction false} CutAllFit(operations: seq<Expansion>, names: set<string>, defined: set<string>,
      gone: set<string>)
    requires forall op <- operations :: Fits(op, defined, gone)
    ensures forall op <- CutAll(operations, names) :: Fits(op, defined - names, gone)
  {
    if operations != [] {
      var front, last := operations[..|operations| - 1], operations[|operations| - 1];
      assert Fits(last, defined, gone);
      CutAllFit(front, names, defined, gone);
      CutNames(last, names);
    }
  }

  lemma {:induction false} CutFragmentsFit(fragments: seq<FragmentTree>, names: set<string>, defined: set<string>,
      gone: set<string>)
    requires forall f <- fragments :: Fits(f.body, defined, gone)
    ensures forall f <- CutFragments(fragments, names) :: Fits(f.body, defined - names, gone)
  {
    if fragments != [] {
      var front, last := fragments[..|fragments| - 1], fragments[|fragments| - 1];
      assert Fits(last.body, defined, gone);
      CutFragmentsFit(front, names, defined, gone);
      CutNames(last.body, names);
    }
  }

  lemma {:induction false} CutKeepsNames(fragments: seq<FragmentTree>, names: set<string>)
    ensures FragmentNames(CutFragments(fragments, names)) == FragmentNames(fragments)
  {
    if fragments != [] {
      var front, last := fragments[..|fragments| - 1], fragments[|fragments| - 1];
      var cut := FragmentTree(last.name, Cut(last.body, names));
      CutKeepsNames(front, names);
      NamesOfAppend(front, [last]);
      NamesOfAppend(CutFragments(front, names), [cut]);
      assert fragments == front + [last] && FragmentNames([last]) == FragmentNames([cut]) == {last.name};
    }
  }

  lemma PassesFit(t: Trees, ds: Denied, defined: set<string>)
    requires AllFit(t.fragments, t.operations, defined, {}) && AfterPasses(t, ds).Passed?
    ensures var t' := AfterPasses(t, ds).trees;
      AllFit(t'.fragments, t'.operations, defined - EmptyFragments(t.fragments, ds), ds.global)
  {
    var names := EmptyFragments(t.fragments, ds);
    FilteredFragmentsFit(t.fragments, ds, defined);
    FilteredAllFit(t.operations, ds, defined);
    CutFragmentsFit(FilteredFragments(t.fragments, ds), names, defined, ds.global);
    CutAllFit(FilteredAll(t.operations, ds), names, defined, ds.global);
  }

  /** When the passes succeed, fields with globally denied names are gone from every operation and fragment. */
  lemma DeniedNamesGone(t: Trees, ds: Denied, name: string)
    requires AllSpreadsAreLeaves(t) && AfterPasses(t, ds).Passed? && name in ds.global
    ensures NameGone(AfterPasses(t, ds).trees, name)
  {
    var defined := (set f, n | f in t.fragments && n in SpreadNames(f.body) :: n)
        + (set op, n | op in t.operations && n in SpreadNames(op) :: n);
    PassesFit(t, ds, defined);
  }

  /** And if every spread was defined, every spread left names a fragment that is kept. */
  lemma SpreadsStayDefined(t: Trees, ds: Denied)
    requires AllSpreadsAreLeaves(t) && AfterPasses(t, ds).Passed? && SpreadsDefined(t)
    ensures SpreadsDefined(AfterPasses(t, ds).trees)
  {
    PassesFit(t, ds, FragmentNames(t.fragments));
    KeptOrEmpty(t.fragments, ds);
    CutKeepsNames(FilteredFragments(t.fragments, ds), EmptyFragments(t.fragments, ds));
  }

  lemma {:induction false} SomeEmptied(operations: seq<Expansion>, ds: Denied)
    requires forall op <- operations :: SpreadsAreLeaves(op) && SpreadNames(op) == {}
    ensures (exists op <- FilteredAll(operations, ds) :: op.Done?)
      <==> exists op <- operations :: AllBlocked(ds, "", Leaves(op))
  {
    if operations != [] {
      var front, last := operations[..|operations| - 1], operations[|operations| - 1];
      assert last in operations && operations == front + [last];
      SomeEmptied(front, ds);
      EmptyIffAllBlocked(last, ds, "");
      assert forall op :: op in operations <==> op in front || op == last;
      var filtered := Filtered(last, ds, "");
      assert forall op :: op in FilteredAll(operations, ds) <==> op in FilteredAll(front, ds) || op == filtered;
    }
  }

  /** Without named fragments, the query is refused exactly when some operation has no leaf path clear of denied
      fields. */
  lemma RefusedIffAllBlocked(operations: seq<Expansion>, ds: Denied)
    requires forall op <- operations :: SpreadsAreLeaves(op) && SpreadNames(op) == {}
    ensures AfterPasses(Trees([], operations), ds).ErrEmptyQuery?
      <==> exists op <- operations :: AllBlocked(ds, "", Leaves(op))
  {
    SomeEmptied(operations, ds);
  }
}
