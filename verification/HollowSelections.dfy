// When the last pass leaves something without selections: it cuts the spreads of dropped fragments, but does not look
// at what held them. Fields, inline fragments and kept fragments can be left hollow.
module HollowSelections {
  import opened SyntaxNodes
  import opened SharedGraph
  import opened ExpandedShape
  import opened DeniedFields
  import opened FieldRemoval

  /** Below spreads nothing is looked at. Fields have something below them just when they have selections in g. */
  ghost predicate StandsFor(g: Graph, h: Expansion) {
    match h
    case Done => true
    case Sel(s, sub, rest) =>
      && (s.FieldSelection? ==> s in g && (sub.Done? <==> g[s] == []))
      && (s.SpreadSelection? || StandsFor(g, sub)) && StandsFor(g, rest)
  }

  lemma {:induction false} ExpansionStandsFor(g: Graph, sels: seq<Selection>, h: Expansion)
    requires Expands(g, sels, h)
    ensures StandsFor(g, h)
    decreases h
  {
    if h.Sel? {
      ExpansionStandsFor(g, g[h.s], h.sub);
      ExpansionStandsFor(g, sels[1..], h.rest);
    }
  }

  ghost predicate AllStandFor(g: Graph, t: Trees) {
    (forall f <- t.fragments :: StandsFor(g, f.body)) && (forall op <- t.operations :: StandsFor(g, op))
  }

  /** No inline fragment, and no field that has selections in g, is without selections. */
  ghost predicate NoneHollow(g: Graph, h: Expansion) {
    match h
    case Done => true
    case Sel(s, sub, rest) =>
      && (match s
          case FieldSelection(n) => s in g && (sub.Sel? || g[s] == []) && NoneHollow(g, sub)
          case InlineSelection(n) => sub.Sel? && NoneHollow(g, sub)
          case SpreadSelection(n) => true)
      && NoneHollow(g, rest)
  }

  /** And no fragment definition, and no operation, is. */
  ghost predicate NothingHollow(g: Graph, t: Trees) {
    && (forall f <- t.fragments :: f.body.Sel? && NoneHollow(g, f.body))
    && (forall op <- t.operations :: op.Sel? && NoneHollow(g, op))
  }

  // ------------------------------------------------------------------ told from the input

  predicate IsSpreadOf(s: Selection, names: set<string>) {
    s.SpreadSelection? && s.spread.name in names
  }

  /** Some selection comes through filtering and is not a spread of one of the names. */
  ghost predicate KeepsMore(h: Expansion, ds: Denied, path: string, names: set<string>) {
    h.Sel?
      && ((FilteredOne(h.s, h.sub, ds, path).Sel? && !IsSpreadOf(h.s, names)) || KeepsMore(h.rest, ds, path, names))
  }

  /** Each field with selections and each inline fragment that filtering keeps holds more than spreads of the names. */
  ghost predicate HoldMore(h: Expansion, ds: Denied, path: string, names: set<string>)
    decreases h, 0
  {
    match h
    case Done => true
    case Sel(s, sub, rest) =>
      && (match s
          case FieldSelection(n) =>
            IsDenied(ds, path, n.name) || sub.Done? || HoldsMore(sub, ds, FullPath(path, n.name), names)
          case InlineSelection(n) => HoldsMore(sub, ds, path, names)
          case SpreadSelection(n) => true)
      && HoldMore(rest, ds, path, names)
  }

  /** If filtering leaves anything of a selection set, it leaves more than spreads of the names, there and below. */
  ghost predicate HoldsMore(h: Expansion, ds: Denied, path: string, names: set<string>)
    decreases h, 1
  {
    Filtered(h, ds, path).Done? || (KeepsMore(h, ds, path, names) && HoldMore(h, ds, path, names))
  }

  /** All fragments, operations, fields with selections and inline fragments that filtering keeps hold more than spreads
      of fragments it leaves empty. */
  ghost predicate AllHoldMore(t: Trees, ds: Denied) {
    var names := EmptyFragments(t.fragments, ds);
    && (forall f <- t.fragments :: HoldsMore(f.body, ds, "", names))
    && (forall op <- t.operations :: HoldsMore(op, ds, "", names))
  }

  // ------------------------------------------------------------------ the two agree

  lemma ConcatSel(a: Expansion, b: Expansion)
    ensures Concat(a, b).Sel? <==> a.Sel? || b.Sel?
  {
  }

  lemma {:induction false} CutConcat(a: Expansion, b: Expansion, names: set<string>)
    ensures Cut(Concat(a, b), names) == Concat(Cut(a, names), Cut(b, names))
  {
    if a.Sel? {
      CutConcat(a.rest, b, names);
      ConcatAssociative(CutOne(a.s, a.sub, names), Cut(a.rest, names), Cut(b, names));
    }
  }

  lemma {:induction false} HollowConcat(g: Graph, a: Expansion, b: Expansion)
    ensures NoneHollow(g, Concat(a, b)) <==> NoneHollow(g, a) && NoneHollow(g, b)
  {
    if a.Sel? {
      HollowConcat(g, a.rest, b);
    }
  }

  /** What is left of one selection after filtering and cutting. */
  lemma CutFilteredFirst(h: Expansion, ds: Denied, path: string, names: set<string>)
    requires h.Sel?
    ensures Cut(Filtered(h, ds, path), names)
      == Concat(Cut(FilteredOne(h.s, h.sub, ds, path), names), Cut(Filtered(h.rest, ds, path), names))
  {
    CutConcat(FilteredOne(h.s, h.sub, ds, path), Filtered(h.rest, ds, path), names);
  }

  lemma CutOneAlone(s: Selection, sub: Expansion, names: set<string>)
    ensures Cut(Sel(s, sub, Done), names) == if IsSpreadOf(s, names) then Done
      else Sel(s, if s.SpreadSelection? then sub else Cut(sub, names), Done)
  {
    ConcatDone(CutOne(s, sub, names));
  }

  /** Something is left just when something comes through filtering that is not cut. */
  lemma {:induction false} LeftIffKeepsMore(h: Expansion, ds: Denied, path: string, names: set<string>)
    ensures Cut(Filtered(h, ds, path), names).Sel? <==> KeepsMore(h, ds, path, names)
  {
    if h.Sel? {
      LeftIffKeepsMore(h.rest, ds, path, names);
      CutFilteredFirst(h, ds, path, names);
      var one := FilteredOne(h.s, h.sub, ds, path);
      ConcatSel(Cut(one, names), Cut(Filtered(h.rest, ds, path), names));
      if one.Sel? {
        CutOneAlone(one.s, one.sub, names);
      }
    }
  }

  lemma {:induction false} NoneHollowIffHoldMore(g: Graph, h: Expansion, ds: Denied, path: string, names: set<string>)
    requires StandsFor(g, h)
    ensures NoneHollow(g, Cut(Filtered(h, ds, path), names)) <==> HoldMore(h, ds, path, names)
    decreases h, 1
  {
    if h.Sel? {
      NoneHollowIffHoldMore(g, h.rest, ds, path, names);
      CutFilteredFirst(h, ds, path, names);
      HollowConcat(g, Cut(FilteredOne(h.s, h.sub, ds, path), names), Cut(Filtered(h.rest, ds, path), names));
      OneHollowIff(g, h.s, h.sub, ds, path, names);
    }
  }

  /** Of one selection. */
  lemma {:induction false} OneHollowIff(g: Graph, s: Selection, sub: Expansion, ds: Denied, path: string,
      names: set<string>)
    requires StandsFor(g, Sel(s, sub, Done))
    ensures NoneHollow(g, Cut(FilteredOne(s, sub, ds, path), names)) <==> HoldMore(Sel(s, sub, Done), ds, path, names)
    decreases sub, 3
  {
    match s {
      case FieldSelection(n) =>
        if !IsDenied(ds, path, n.name) {
          if sub.Done? {
            CutOneAlone(s, Done, names);
          } else {
            SetHollowIff(g, s, sub, ds, FullPath(path, n.name), names);
          }
        }
      case InlineSelection(n) => SetHollowIff(g, s, sub, ds, path, names);
      case SpreadSelection(n) => CutOneAlone(s, sub, names);
    }
  }

  lemma {:induction false} SetHollowIff(g: Graph, s: Selection, sub: Expansion, ds: Denied, path: string,
      names: set<string>)
    requires StandsFor(g, Sel(s, sub, Done)) && !s.SpreadSelection? && (s.FieldSelection? ==> sub.Sel?)
    ensures var sub' := Filtered(sub, ds, path);
      NoneHollow(g, if sub'.Done? then Done else Cut(Sel(s, sub', Done), names)) <==> HoldsMore(sub, ds, path, names)
    decreases sub, 2
  {
    var sub' := Filtered(sub, ds, path);
    if sub'.Sel? {
      CutOneAlone(s, sub', names);
      LeftIffKeepsMore(sub, ds, path, names);
      NoneHollowIffHoldMore(g, sub, ds, path, names);
    }
  }

  lemma {:induction false} FilteredFragmentsHave(fragments: seq<FragmentTree>, ds: Denied)
    ensures forall f' :: f' in FilteredFragments(fragments, ds) <==>
      exists f <- fragments :: Filtered(f.body, ds, "").Sel? && f' == FragmentTree(f.name, Filtered(f.body, ds, ""))
  {
    if fragments != [] {
      var front, last := fragments[..|fragments| - 1], fragments[|fragments| - 1];
      FilteredFragmentsHave(front, ds);
      assert fragments == front + [last];
    }
  }

  /** Fragments: the kept ones are not hollow just when each of those given holds more. */
  lemma FragmentsHollowIff(g: Graph, fragments: seq<FragmentTree>, ds: Denied, names: set<string>)
    requires forall f <- fragments :: StandsFor(g, f.body)
    ensures (forall f <- CutFragments(FilteredFragments(fragments, ds), names) :: f.body.Sel? && NoneHollow(g, f.body))
      <==> forall f <- fragments :: HoldsMore(f.body, ds, "", names)
  {
    var kept := FilteredFragments(fragments, ds);
    var cut := CutFragments(kept, names);
    FilteredFragmentsHave(fragments, ds);
    forall f <- fragments
      ensures var left := Cut(Filtered(f.body, ds, ""), names);
        (left.Sel? && NoneHollow(g, left)) || Filtered(f.body, ds, "").Done? <==> HoldsMore(f.body, ds, "", names)
    {
      LeftIffKeepsMore(f.body, ds, "", names);
      NoneHollowIffHoldMore(g, f.body, ds, "", names);
    }
    if forall f <- fragments :: HoldsMore(f.body, ds, "", names) {
      forall f' <- cut
        ensures f'.body.Sel? && NoneHollow(g, f'.body)
      {
        var i :| 0 <= i < |kept| && cut[i] == f';
        assert kept[i] in kept;
      }
    }
    if forall f' <- cut :: f'.body.Sel? && NoneHollow(g, f'.body) {
      forall f <- fragments
        ensures HoldsMore(f.body, ds, "", names)
      {
        var f' := FragmentTree(f.name, Filtered(f.body, ds, ""));
        if f'.body.Sel? {
          assert f' in kept;
          var i :| 0 <= i < |kept| && kept[i] == f';
          assert cut[i] in cut;
        }
      }
    }
  }

  lemma OperationsHollowIff(g: Graph, operations: seq<Expansion>, ds: Denied, names: set<string>)
    requires (forall op <- operations :: StandsFor(g, op)) && forall op <- FilteredAll(operations, ds) :: op.Sel?
    ensures (forall op <- CutAll(FilteredAll(operations, ds), names) :: op.Sel? && NoneHollow(g, op))
      <==> forall op <- operations :: HoldsMore(op, ds, "", names)
  {
    var filtered := FilteredAll(operations, ds);
    var cut := CutAll(filtered, names);
    forall i | 0 <= i < |operations|
      ensures cut[i].Sel? && NoneHollow(g, cut[i]) <==> HoldsMore(operations[i], ds, "", names)
    {
      assert operations[i] in operations && filtered[i] in filtered;
      LeftIffKeepsMore(operations[i], ds, "", names);
      NoneHollowIffHoldMore(g, operations[i], ds, "", names);
    }
    forall op <- operations | forall op' <- cut :: op'.Sel? && NoneHollow(g, op')
      ensures HoldsMore(op, ds, "", names)
    {
      var i :| 0 <= i < |operations| && operations[i] == op;
      assert cut[i] in cut;
    }
    forall op' <- cut | forall op <- operations :: HoldsMore(op, ds, "", names)
      ensures op'.Sel? && NoneHollow(g, op')
    {
      var i :| 0 <= i < |cut| && cut[i] == op';
      assert operations[i] in operations;
    }
  }

  lemma {:induction false} CutFragmentsNothing(fragments: seq<FragmentTree>)
    ensures CutFragments(fragments, {}) == fragments
  {
    forall i | 0 <= i < |fragments|
      ensures CutFragments(fragments, {})[i] == fragments[i]
    {
      CutNothing(fragments[i].body);
    }
  }

  lemma CutAllNothing(operations: seq<Expansion>)
    ensures CutAll(operations, {}) == operations
  {
    forall i | 0 <= i < |operations|
      ensures CutAll(operations, {})[i] == operations[i]
    {
      CutNothing(operations[i]);
    }
  }

  /** Main theorem: when the passes succeed, no operation, kept fragment, field that had selections or inline fragment
      is left without selections exactly when each of them that filtering keeps holds more than spreads of fragments
      that filtering leaves empty. */
  lemma NothingHollowIff(g: Graph, t: Trees, ds: Denied)
    requires AllStandFor(g, t) && AfterPasses(t, ds).Passed?
    ensures NothingHollow(g, AfterPasses(t, ds).trees) <==> AllHoldMore(t, ds)
  {
    var names := EmptyFragments(t.fragments, ds);
    PassedCutsAll(t, ds);
    FragmentsHollowIff(g, t.fragments, ds, names);
    OperationsHollowIff(g, t.operations, ds, names);
  }

  /** Cutting nothing when there is nothing to cut, the passes always cut. */
  lemma PassedCutsAll(t: Trees, ds: Denied)
    requires AfterPasses(t, ds).Passed?
    ensures var names := EmptyFragments(t.fragments, ds);
      AfterPasses(t, ds).trees
      == Trees(CutFragments(FilteredFragments(t.fragments, ds), names), CutAll(FilteredAll(t.operations, ds), names))
    ensures forall op <- FilteredAll(t.operations, ds) :: op.Sel?
  {
    CutFragmentsNothing(FilteredFragments(t.fragments, ds));
    CutAllNothing(FilteredAll(t.operations, ds));
  }

  // ------------------------------------------------------------------ the three shapes

  lemma OneThenRest(s: Selection, sub: Expansion, rest: Expansion)
    ensures Concat(Sel(s, sub, Done), rest) == Sel(s, sub, rest)
  {
    assert Concat(Done, rest) == rest;
  }

  lemma FilteredFirst(s: Selection, sub: Expansion, sub': Expansion, rest: Expansion, ds: Denied, path: string)
    requires FilteredOne(s, sub, ds, path) == Sel(s, sub', Done)
    ensures Filtered(Sel(s, sub, rest), ds, path) == Sel(s, sub', Filtered(rest, ds, path))
  {
    OneThenRest(s, sub', Filtered(rest, ds, path));
  }

  lemma CutFirst(s: Selection, sub: Expansion, sub': Expansion, rest: Expansion, names: set<string>)
    requires CutOne(s, sub, names) == Sel(s, sub', Done)
    ensures Cut(Sel(s, sub, rest), names) == Sel(s, sub', Cut(rest, names))
  {
    OneThenRest(s, sub', Cut(rest, names));
  }

  /** { s { ...F } b } */
  ghost function SpreadBeside(s: Selection, b: FieldNode, f: SpreadNode): Expansion {
    Sel(s, Sel(SpreadSelection(f), Done, Done), Sel(FieldSelection(b), Done, Done))
  }

  /** A field that is not denied, or an inline fragment. */
  ghost predicate Holder(s: Selection) {
    !s.SpreadSelection? && (s.FieldSelection? ==> s.field.name != "x")
  }

  lemma FilteredAsItIs(s: Selection, b: FieldNode, f: SpreadNode, ds: Denied)
    requires Holder(s) && b.name != "x" && ds == Denied({"x"}, {})
    ensures Filtered(SpreadBeside(s, b, f), ds, "") == SpreadBeside(s, b, f)
  {
    var path := if s.FieldSelection? then FullPath("", s.field.name) else "";
    FilteredFirst(SpreadSelection(f), Done, Done, Done, ds, path);
    FilteredFirst(FieldSelection(b), Done, Done, Done, ds, "");
    FilteredFirst(s, Sel(SpreadSelection(f), Done, Done), Sel(SpreadSelection(f), Done, Done),
      Sel(FieldSelection(b), Done, Done), ds, "");
  }

  lemma CutToEmpty(s: Selection, b: FieldNode, f: SpreadNode)
    requires !s.SpreadSelection? && f.name == "F"
    ensures Cut(SpreadBeside(s, b, f), {"F"}) == Sel(s, Done, Sel(FieldSelection(b), Done, Done))
  {
    assert Cut(Sel(SpreadSelection(f), Done, Done), {"F"}) == Done;
    CutFirst(FieldSelection(b), Done, Done, Done, {"F"});
    CutFirst(s, Sel(SpreadSelection(f), Done, Done), Done, Sel(FieldSelection(b), Done, Done), {"F"});
  }

  /** { s { ...F } b } fragment F { x }, with x denied and s a field or an inline fragment: F is dropped and its spread
      cut, and s stays, with nothing below it, though what filtering leaves without selections goes. */
  lemma CutLeavesEmpty(s: Selection, b: FieldNode, x: FieldNode, f: SpreadNode)
    requires Holder(s) && b.name == "b" && x.name == "x" && f.name == "F"
    ensures AfterPasses(Trees([FragmentTree("F", Sel(FieldSelection(x), Done, Done))], [SpreadBeside(s, b, f)]),
                        Denied({"x"}, {}))
      == Passed(Trees([], [Sel(s, Done, Sel(FieldSelection(b), Done, Done))]))
  {
    var ds, operation := Denied({"x"}, {}), SpreadBeside(s, b, f);
    var cut := Sel(s, Done, Sel(FieldSelection(b), Done, Done));
    var fragments := [FragmentTree("F", Sel(FieldSelection(x), Done, Done))];
    assert Filtered(fragments[0].body, ds, "") == Done;
    FilteredAsItIs(s, b, f, ds);
    CutToEmpty(s, b, f);
    EmptyFragment(fragments, ds);
    OneOperationPasses(Trees(fragments, [operation]), ds, {"F"}, [], operation, cut);
  }

  /** { a { ...F } b } */
  lemma CutLeavesFieldEmpty(a: FieldNode, b: FieldNode, x: FieldNode, f: SpreadNode)
    requires a.name == "a" && b.name == "b" && x.name == "x" && f.name == "F"
    ensures AfterPasses(Trees([FragmentTree("F", Sel(FieldSelection(x), Done, Done))],
                              [SpreadBeside(FieldSelection(a), b, f)]), Denied({"x"}, {}))
      == Passed(Trees([], [Sel(FieldSelection(a), Done, Sel(FieldSelection(b), Done, Done))]))
  {
    assert "a"[0] != "x"[0];
    CutLeavesEmpty(FieldSelection(a), b, x, f);
  }

  /** { a ...G } fragment G { ...F } fragment F { x }, with x denied: F is dropped, and G stays, without selections, and
      so does its spread. */
  lemma CutLeavesFragmentEmpty(a: FieldNode, x: FieldNode, f: SpreadNode, k: SpreadNode)
    requires a.name == "a" && x.name == "x" && f.name == "F" && k.name == "G"
    ensures var operation := Sel(FieldSelection(a), Done, Sel(SpreadSelection(k), Done, Done));
      AfterPasses(Trees([FragmentTree("G", Sel(SpreadSelection(f), Done, Done)),
                         FragmentTree("F", Sel(FieldSelection(x), Done, Done))], [operation]), Denied({"x"}, {}))
      == Passed(Trees([FragmentTree("G", Done)], [operation]))
  {
    var ds := Denied({"x"}, {});
    var operation := Sel(FieldSelection(a), Done, Sel(SpreadSelection(k), Done, Done));
    var kept := FragmentTree("G", Sel(SpreadSelection(f), Done, Done));
    var fragments := [kept, FragmentTree("F", Sel(FieldSelection(x), Done, Done))];
    FilteredFirst(SpreadSelection(f), Done, Done, Done, ds, "");
    assert Filtered(fragments[1].body, ds, "") == Done;
    KeptThenEmpty(fragments, ds);
    assert "a"[0] != "x"[0] && "G"[0] != "F"[0];
    FilteredFirst(SpreadSelection(k), Done, Done, Done, ds, "");
    FilteredFirst(FieldSelection(a), Done, Done, Sel(SpreadSelection(k), Done, Done), ds, "");
    CutFirst(SpreadSelection(k), Done, Done, Done, {"F"});
    CutFirst(FieldSelection(a), Done, Done, Sel(SpreadSelection(k), Done, Done), {"F"});
    assert Cut(kept.body, {"F"}) == Done;
    OneOperationPasses(Trees(fragments, [operation]), ds, {"F"}, [kept], operation, operation);
    OneFragmentCut(kept, {"F"});
  }

  lemma EmptyFragment(fragments: seq<FragmentTree>, ds: Denied)
    requires |fragments| == 1 && Filtered(fragments[0].body, ds, "").Done?
    ensures FilteredFragments(fragments, ds) == [] && EmptyFragments(fragments, ds) == {fragments[0].name}
  {
    assert fragments[..0] == [];
    assert EmptyFragments([], ds) == {} && FilteredFragments([], ds) == [];
  }

  lemma KeptThenEmpty(fragments: seq<FragmentTree>, ds: Denied)
    requires |fragments| == 2 && fragments[0].body.Sel? && Filtered(fragments[0].body, ds, "") == fragments[0].body
    requires Filtered(fragments[1].body, ds, "").Done?
    ensures FilteredFragments(fragments, ds) == [fragments[0]] && EmptyFragments(fragments, ds) == {fragments[1].name}
  {
    assert fragments[..1][..0] == [] && fragments[..1] == [fragments[0]];
    assert EmptyFragments([], ds) == {} && FilteredFragments([], ds) == [];
    assert FilteredFragments([fragments[0]], ds) == [fragments[0]] && EmptyFragments([fragments[0]], ds) == {};
  }

  lemma OneFragmentCut(f: FragmentTree, names: set<string>)
    ensures CutFragments([f], names) == [FragmentTree(f.name, Cut(f.body, names))]
  {
  }

  /** One operation that does not come out empty. */
  lemma OneOperationPasses(t: Trees, ds: Denied, names: set<string>, kept: seq<FragmentTree>, filtered: Expansion,
      cut: Expansion)
    requires |t.operations| == 1 && EmptyFragments(t.fragments, ds) == names != {}
    requires FilteredFragments(t.fragments, ds) == kept && Filtered(t.operations[0], ds, "") == filtered
    requires Cut(filtered, names) == cut && filtered.Sel? && cut.Sel?
    ensures AfterPasses(t, ds) == Passed(Trees(CutFragments(kept, names), [cut]))
  {
    assert FilteredAll(t.operations, ds) == [filtered] && CutAll([filtered], names) == [cut];
  }
}
