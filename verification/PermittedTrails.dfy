// What the three passes leave of a document, told from the denied entries alone: which leaf fields and spreads, under
// what, in which order; which fragments; and when the query is refused.
module PermittedTrails {
  import opened SyntaxNodes
  import opened SharedGraph
  import opened ExpandedShape
  import opened DeniedFields
  import opened FieldRemoval
  import opened HollowSelections
  import RemovedPaths

  /** A leaf field or a spread, with all that it stands in, from the top. */
  type Trail = seq<Selection>

  /** The leaf fields and spreads, in order; `above` is what they all stand in. Leaf fields are those without selections
      in g. */
  ghost function Trails(g: Graph, h: Expansion, above: Trail): seq<Trail>
    decreases h, 0
  {
    match h
    case Done => []
    case Sel(s, sub, rest) => TrailsOne(g, s, sub, above) + Trails(g, rest, above)
  }

  ghost function TrailsOne(g: Graph, s: Selection, sub: Expansion, above: Trail): seq<Trail>
    decreases sub, 1
  {
    match s
    case FieldSelection(n) => if s in g && g[s] == [] then [above + [s]] else Trails(g, sub, above + [s])
    case InlineSelection(n) => Trails(g, sub, above + [s])
    case SpreadSelection(n) => [above + [s]]
  }

  /** The names of the fields of the trail. */
  function FieldPath(trail: Trail): Path {
    if trail == [] then []
    else
      var last := trail[|trail| - 1];
      FieldPath(trail[..|trail| - 1]) + if last.FieldSelection? then [last.field.name] else []
  }

  /** An entry without a dot denies the fields of that name; one with dots those at that path, the names joined by
      dots. */
  predicate DeniedBy(entry: string, path: Path) {
    if '.' in entry then exists m | 0 < m <= |path| :: entry == RemovedPaths.Join(path[..m])
    else entry in path
  }

  predicate PathDenied(entries: seq<string>, path: Path) {
    exists e <- entries :: DeniedBy(e, path)
  }

  /** Some field of the trail is denied by an entry. */
  predicate OnDenied(entries: seq<string>, trail: Trail) {
    PathDenied(entries, FieldPath(trail))
  }

  function Allowed(entries: seq<string>, trails: seq<Trail>): seq<Trail> {
    if trails == [] then []
    else (if OnDenied(entries, trails[0]) then [] else [trails[0]]) + Allowed(entries, trails[1..])
  }

  /** The trails that do not end in a spread of one of the names. */
  ghost function Uncut(names: set<string>, trails: seq<Trail>): seq<Trail> {
    if trails == [] then []
    else (if EndsInSpread(names, trails[0]) then [] else [trails[0]]) + Uncut(names, trails[1..])
  }

  predicate EndsInSpread(names: set<string>, trail: Trail) {
    trail != [] && IsSpreadOf(trail[|trail| - 1], names)
  }

  // ------------------------------------------------------------------ paths

  predicate Given(path: Path) {
    "" !in path
  }

  lemma FieldPathNext(above: Trail, s: Selection)
    ensures FieldPath(above + [s]) == FieldPath(above) + if s.FieldSelection? then [s.field.name] else []
  {
    assert (above + [s])[..|above|] == above;
  }

  lemma {:induction false} JoinNotEmpty(path: Path)
    requires path != [] && Given(path)
    ensures RemovedPaths.Join(path) != ""
  {
    assert path[0] in path;
  }

  /** The path the filter builds as it goes down is the names joined by dots. */
  lemma {:induction false} JoinGrows(path: Path, name: string)
    requires Given(path)
    ensures RemovedPaths.Join(path + [name]) == FullPath(RemovedPaths.Join(path), name)
  {
    if path == [] {
      assert path + [name] == [name];
    } else {
      JoinNotEmpty(path);
      if |path| == 1 {
        assert (path + [name])[1..] == [name];
      } else {
        assert forall p <- path[1..] :: p in path;
        JoinGrows(path[1..], name);
        JoinNotEmpty(path[1..]);
        assert (path + [name])[1..] == path[1..] + [name];
        var rest := RemovedPaths.Join(path[1..]);
        assert path[0] + "." + (rest + "." + name) == path[0] + "." + rest + "." + name;
      }
    }
  }

  lemma DeniedByLonger(entry: string, path: Path, name: string)
    ensures DeniedBy(entry, path + [name])
      <==> DeniedBy(entry, path) || entry == if '.' in entry then RemovedPaths.Join(path + [name]) else name
  {
    var longer := path + [name];
    if '.' in entry {
      assert longer[..|longer|] == longer;
      forall m | 0 < m <= |path|
        ensures longer[..m] == path[..m]
      {
      }
    }
  }

  /** One field further down: the code denies it exactly when some entry does that denied nothing above. */
  lemma PathDeniedNext(entries: seq<string>, path: Path, name: string)
    requires Given(path)
    ensures PathDenied(entries, path + [name])
      <==> PathDenied(entries, path) || IsDenied(Parse(entries), RemovedPaths.Join(path), name)
  {
    var ds := Parse(entries);
    JoinGrows(path, name);
    forall e <- entries
      ensures DeniedBy(e, path + [name])
        <==> DeniedBy(e, path) || e == if '.' in e then FullPath(RemovedPaths.Join(path), name) else name
    {
      DeniedByLonger(e, path, name);
    }
    if PathDenied(entries, path + [name]) {
      var e :| e in entries && DeniedBy(e, path + [name]);
      assert DeniedBy(e, path) || if '.' in e then e in ds.paths else e in ds.global;
    }
    if IsDenied(ds, RemovedPaths.Join(path), name) {
      var e := if name in ds.global then name else FullPath(RemovedPaths.Join(path), name);
      assert e in entries && DeniedBy(e, path + [name]);
    }
  }

  lemma DeniedNext(entries: seq<string>, above: Trail, n: FieldNode)
    requires Given(FieldPath(above))
    ensures OnDenied(entries, above + [FieldSelection(n)])
      <==> OnDenied(entries, above) || IsDenied(Parse(entries), RemovedPaths.Join(FieldPath(above)), n.name)
  {
    FieldPathNext(above, FieldSelection(n));
    PathDeniedNext(entries, FieldPath(above), n.name);
  }

  lemma NotAField(entries: seq<string>, above: Trail, s: Selection)
    requires !s.FieldSelection?
    ensures FieldPath(above + [s]) == FieldPath(above)
    ensures OnDenied(entries, above + [s]) <==> OnDenied(entries, above)
  {
    FieldPathNext(above, s);
  }

  // ------------------------------------------------------------------ one selection set

  lemma TailOfAppend<T>(a: seq<T>, b: seq<T>)
    requires a != []
    ensures (a + b)[0] == a[0] && (a + b)[1..] == a[1..] + b
  {
  }

  lemma AllowedAppend(entries: seq<string>, a: seq<Trail>, b: seq<Trail>)
    ensures Allowed(entries, a + b) == Allowed(entries, a) + Allowed(entries, b)
  {
    if a == [] {
      assert a + b == b;
    } else {
      AllowedAppend(entries, a[1..], b);
      TailOfAppend(a, b);
      Associative(if OnDenied(entries, a[0]) then [] else [a[0]], Allowed(entries, a[1..]), Allowed(entries, b));
    }
  }

  lemma AllowedOne(entries: seq<string>, trail: Trail)
    ensures Allowed(entries, [trail]) == if OnDenied(entries, trail) then [] else [trail]
  {
    assert [trail][1..] == [];
  }

  lemma {:induction false} TrailsConcat(g: Graph, a: Expansion, b: Expansion, above: Trail)
    ensures Trails(g, Concat(a, b), above) == Trails(g, a, above) + Trails(g, b, above)
  {
    if a.Sel? {
      TrailsConcat(g, a.rest, b, above);
    }
  }

  lemma TrailsAlone(g: Graph, s: Selection, sub: Expansion, above: Trail)
    ensures Trails(g, Sel(s, sub, Done), above) == TrailsOne(g, s, sub, above)
  {
  }

  /** On a denied field nothing is allowed. */
  lemma {:induction false} NothingOnDenied(g: Graph, entries: seq<string>, h: Expansion, above: Trail)
    requires OnDenied(entries, above) && Given(FieldPath(above)) && "" !in FieldNames(h)
    ensures Allowed(entries, Trails(g, h, above)) == []
    decreases h, 0
  {
    if h.Sel? {
      NothingOnDenied(g, entries, h.rest, above);
      NoneOnDenied(g, entries, h.s, h.sub, above);
      AllowedAppend(entries, TrailsOne(g, h.s, h.sub, above), Trails(g, h.rest, above));
    }
  }

  lemma {:induction false} NoneOnDenied(g: Graph, entries: seq<string>, s: Selection, sub: Expansion, above: Trail)
    requires OnDenied(entries, above) && Given(FieldPath(above)) && "" !in FieldNames(Sel(s, sub, Done))
    ensures Allowed(entries, TrailsOne(g, s, sub, above)) == []
    decreases sub, 1
  {
    FieldPathNext(above, s);
    AllowedOne(entries, above + [s]);
    if s.FieldSelection? {
      DeniedNext(entries, above, s.field);
    } else {
      NotAField(entries, above, s);
    }
    NothingOnDenied(g, entries, sub, above + [s]);
  }

  /** What filtering keeps is never without trails. */
  lemma {:induction false} FilteredHasTrails(g: Graph, h: Expansion, ds: Denied, path: string, above: Trail)
    requires StandsFor(g, h)
    ensures Trails(g, Filtered(h, ds, path), above) == [] <==> Filtered(h, ds, path).Done?
    decreases h
  {
    if h.Sel? {
      FilteredHasTrails(g, h.rest, ds, path, above);
      match h.s {
        case FieldSelection(n) => FilteredHasTrails(g, h.sub, ds, FullPath(path, n.name), above + [h.s]);
        case InlineSelection(n) => FilteredHasTrails(g, h.sub, ds, path, above + [h.s]);
        case SpreadSelection(n) =>
      }
      TrailsConcat(g, FilteredOne(h.s, h.sub, ds, path), Filtered(h.rest, ds, path), above);
    }
  }

  /** Main lemma: filtering leaves, in order, exactly the leaf fields and spreads with no denied field at or above. */
  lemma {:induction false} FilteredTrails(g: Graph, entries: seq<string>, h: Expansion, above: Trail)
    requires StandsFor(g, h) && "" !in FieldNames(h) && Given(FieldPath(above)) && !OnDenied(entries, above)
    ensures Trails(g, Filtered(h, Parse(entries), RemovedPaths.Join(FieldPath(above))), above)
      == Allowed(entries, Trails(g, h, above))
    decreases h, 0
  {
    if h.Sel? {
      var path := RemovedPaths.Join(FieldPath(above));
      FilteredTrails(g, entries, h.rest, above);
      FilteredOneTrails(g, entries, h.s, h.sub, above);
      TrailsConcat(g, FilteredOne(h.s, h.sub, Parse(entries), path), Filtered(h.rest, Parse(entries), path), above);
      AllowedAppend(entries, TrailsOne(g, h.s, h.sub, above), Trails(g, h.rest, above));
    }
  }

  lemma {:induction false} FilteredOneTrails(g: Graph, entries: seq<string>, s: Selection, sub: Expansion, above: Trail)
    requires StandsFor(g, Sel(s, sub, Done)) && "" !in FieldNames(Sel(s, sub, Done))
    requires Given(FieldPath(above)) && !OnDenied(entries, above)
    ensures Trails(g, FilteredOne(s, sub, Parse(entries), RemovedPaths.Join(FieldPath(above))), above)
      == Allowed(entries, TrailsOne(g, s, sub, above))
    decreases sub, 1
  {
    var ds, path, here := Parse(entries), RemovedPaths.Join(FieldPath(above)), above + [s];
    FieldPathNext(above, s);
    AllowedOne(entries, here);
    match s {
      case FieldSelection(n) =>
        DeniedNext(entries, above, n);
        JoinGrows(FieldPath(above), n.name);
        if IsDenied(ds, path, n.name) {
          NothingOnDenied(g, entries, sub, here);
        } else if sub.Sel? {
          FilteredTrails(g, entries, sub, here);
          FilteredHasTrails(g, sub, ds, FullPath(path, n.name), here);
          TrailsAlone(g, s, Filtered(sub, ds, FullPath(path, n.name)), above);
        } else {
          TrailsAlone(g, s, Done, above);
        }
      case InlineSelection(n) =>
        NotAField(entries, above, s);
        FilteredTrails(g, entries, sub, here);
        FilteredHasTrails(g, sub, ds, path, here);
        TrailsAlone(g, s, Filtered(sub, ds, path), above);
      case SpreadSelection(n) =>
        NotAField(entries, above, s);
        TrailsAlone(g, s, sub, above);
    }
  }

  /** Cutting leaves, in order, exactly those that do not end in a spread of one of the names. */
  lemma {:induction false} CutTrails(g: Graph, h: Expansion, names: set<string>, above: Trail)
    ensures Trails(g, Cut(h, names), above) == Uncut(names, Trails(g, h, above))
    decreases h
  {
    if h.Sel? {
      CutTrails(g, h.rest, names, above);
      CutTrails(g, h.sub, names, above + [h.s]);
      TrailsConcat(g, CutOne(h.s, h.sub, names), Cut(h.rest, names), above);
      UncutAppend(names, TrailsOne(g, h.s, h.sub, above), Trails(g, h.rest, above));
      UncutOne(names, above + [h.s]);
      assert (above + [h.s])[|above|] == h.s;
      if CutOne(h.s, h.sub, names).Sel? {
        TrailsAlone(g, h.s, CutOne(h.s, h.sub, names).sub, above);
      }
    }
  }

  lemma UncutAppend(names: set<string>, a: seq<Trail>, b: seq<Trail>)
    ensures Uncut(names, a + b) == Uncut(names, a) + Uncut(names, b)
  {
    if a == [] {
      assert a + b == b;
    } else {
      UncutAppend(names, a[1..], b);
      TailOfAppend(a, b);
      Associative(if EndsInSpread(names, a[0]) then [] else [a[0]], Uncut(names, a[1..]), Uncut(names, b));
    }
  }

  lemma UncutOne(names: set<string>, trail: Trail)
    ensures Uncut(names, [trail]) == if EndsInSpread(names, trail) then [] else [trail]
  {
    assert [trail][1..] == [];
  }

  /** All selections, in order, each with what it stands in. */
  ghost function Spots(h: Expansion, above: Trail): seq<Trail> {
    match h
    case Done => []
    case Sel(s, sub, rest) =>
      [above + [s]] + (if s.SpreadSelection? then [] else Spots(sub, above + [s])) + Spots(rest, above)
  }

  lemma {:induction false} SpotsConcat(a: Expansion, b: Expansion, above: Trail)
    ensures Spots(Concat(a, b), above) == Spots(a, above) + Spots(b, above)
  {
    if a.Sel? {
      SpotsConcat(a.rest, b, above);
      Associative([above + [a.s]] + if a.s.SpreadSelection? then [] else Spots(a.sub, above + [a.s]),
        Spots(a.rest, above), Spots(b, above));
    }
  }

  /** Cutting takes nothing else away: every other selection stays where it is, with selections of its own or
      without. */
  lemma {:induction false} CutSpots(h: Expansion, names: set<string>, above: Trail)
    ensures Spots(Cut(h, names), above) == Uncut(names, Spots(h, above))
    decreases h
  {
    if h.Sel? {
      var here := above + [h.s];
      var below := if h.s.SpreadSelection? then [] else Spots(h.sub, here);
      CutSpots(h.rest, names, above);
      CutSpots(h.sub, names, here);
      SpotsConcat(CutOne(h.s, h.sub, names), Cut(h.rest, names), above);
      UncutAppend(names, [here] + below, Spots(h.rest, above));
      UncutAppend(names, [here], below);
      UncutOne(names, here);
      assert here[|above|] == h.s;
      CutOneSpots(h.s, h.sub, names, above);
    }
  }

  lemma CutOneSpots(s: Selection, sub: Expansion, names: set<string>, above: Trail)
    ensures Spots(CutOne(s, sub, names), above)
      == if IsSpreadOf(s, names) then []
         else [above + [s]] + if s.SpreadSelection? then [] else Spots(Cut(sub, names), above + [s])
  {
  }

  // ------------------------------------------------------------------ whole documents

  lemma {:induction false} TrailsAreBelow(g: Graph, h: Expansion, above: Trail)
    ensures forall trail <- Trails(g, h, above) :: |trail| > |above|
    decreases h
  {
    if h.Sel? {
      TrailsAreBelow(g, h.rest, above);
      TrailsAreBelow(g, h.sub, above + [h.s]);
    }
  }

  ghost predicate OnlySpreadsOf(names: set<string>, trails: seq<Trail>) {
    forall trail <- trails :: |trail| == 1 && IsSpreadOf(trail[0], names)
  }

  lemma OnlySpreadsAppend(names: set<string>, a: seq<Trail>, b: seq<Trail>)
    ensures OnlySpreadsOf(names, a + b) <==> OnlySpreadsOf(names, a) && OnlySpreadsOf(names, b)
  {
    assert forall trail :: trail in a + b <==> trail in a || trail in b;
  }

  /** Nothing is left after filtering and cutting exactly when filtering leaves only spreads of the names, on top. */
  lemma {:induction false} NothingLeftIff(g: Graph, h: Expansion, ds: Denied, path: string, names: set<string>)
    requires StandsFor(g, h)
    ensures Cut(Filtered(h, ds, path), names).Done? <==> OnlySpreadsOf(names, Trails(g, Filtered(h, ds, path), []))
  {
    if h.Sel? {
      var one := FilteredOne(h.s, h.sub, ds, path);
      NothingLeftIff(g, h.rest, ds, path, names);
      CutFilteredFirst(h, ds, path, names);
      ConcatSel(Cut(one, names), Cut(Filtered(h.rest, ds, path), names));
      TrailsConcat(g, one, Filtered(h.rest, ds, path), []);
      OnlySpreadsAppend(names, Trails(g, one, []), Trails(g, Filtered(h.rest, ds, path), []));
      OneLeftIff(g, h.s, h.sub, ds, path, names);
    }
  }

  lemma OneLeftIff(g: Graph, s: Selection, sub: Expansion, ds: Denied, path: string, names: set<string>)
    requires StandsFor(g, Sel(s, sub, Done))
    ensures Cut(FilteredOne(s, sub, ds, path), names).Done?
      <==> OnlySpreadsOf(names, Trails(g, FilteredOne(s, sub, ds, path), []))
  {
    var one := FilteredOne(s, sub, ds, path);
    if one.Sel? {
      CutOneAlone(one.s, one.sub, names);
      TrailsAlone(g, one.s, one.sub, []);
      match s {
        case FieldSelection(n) =>
          FilteredHasTrails(g, sub, ds, FullPath(path, n.name), [s]);
          HolderIsLeft(g, s, one.sub, names);
        case InlineSelection(n) =>
          FilteredHasTrails(g, sub, ds, path, [s]);
          HolderIsLeft(g, s, one.sub, names);
        case SpreadSelection(n) => assert [] + [s] == [s];
      }
    }
  }

  lemma HolderIsLeft(g: Graph, s: Selection, sub: Expansion, names: set<string>)
    requires !s.SpreadSelection? && ((s.FieldSelection? && s in g && g[s] == []) || Trails(g, sub, [s]) != [])
    ensures !OnlySpreadsOf(names, TrailsOne(g, s, sub, []))
  {
    assert [] + [s] == [s];
    TrailsAreBelow(g, sub, [s]);
    if s.FieldSelection? && s in g && g[s] == [] {
      assert TrailsOne(g, s, sub, [])[0] == [s];
    } else {
      assert TrailsOne(g, s, sub, [])[0] in Trails(g, sub, [s]);
    }
  }

  /** The names of the fragments all of whose leaf fields and spreads are denied. */
  ghost function DeniedFragments(g: Graph, fragments: seq<FragmentTree>, entries: seq<string>): set<string> {
    set f | f in fragments && Allowed(entries, Trails(g, f.body, [])) == [] :: f.name
  }

  /** Some operation is left with nothing: all in it is denied, but for spreads of such fragments on top. */
  ghost predicate SomeOperationDenied(g: Graph, t: Trees, entries: seq<string>) {
    exists op <- t.operations ::
      OnlySpreadsOf(DeniedFragments(g, t.fragments, entries), Allowed(entries, Trails(g, op, [])))
  }

  /** A fragment as the list of its leaf fields and spreads. */
  datatype Listed = Listed(name: string, trails: seq<Trail>)

  ghost function ListedAll(g: Graph, fragments: seq<FragmentTree>): seq<Listed> {
    if fragments == [] then []
    else
      var last := fragments[|fragments| - 1];
      ListedAll(g, fragments[..|fragments| - 1]) + [Listed(last.name, Trails(g, last.body, []))]
  }

  /** The fragments with something allowed; the spreads of the names cut. */
  ghost function Surviving(g: Graph, fragments: seq<FragmentTree>, entries: seq<string>,
      names: set<string>): seq<Listed> {
    if fragments == [] then []
    else
      var last := fragments[|fragments| - 1];
      var trails := Allowed(entries, Trails(g, last.body, []));
      Surviving(g, fragments[..|fragments| - 1], entries, names)
      + if trails == [] then [] else [Listed(last.name, Uncut(names, trails))]
  }

  /** Operations and fragments have, in order, exactly the leaf fields and spreads that are allowed, but for the spreads
      of denied fragments. */
  ghost predicate AllowedIsLeft(g: Graph, before: Trees, after: Trees, entries: seq<string>) {
    var names := DeniedFragments(g, before.fragments, entries);
    && |after.operations| == |before.operations|
    && (forall i | 0 <= i < |after.operations| ::
          Trails(g, after.operations[i], []) == Uncut(names, Allowed(entries, Trails(g, before.operations[i], []))))
    && ListedAll(g, after.fragments) == Surviving(g, before.fragments, entries, names)
  }

  ghost predicate NamesGiven(t: Trees) {
    (forall f <- t.fragments :: "" !in FieldNames(f.body)) && forall op <- t.operations :: "" !in FieldNames(op)
  }

  lemma TopTrails(g: Graph, entries: seq<string>, h: Expansion)
    requires StandsFor(g, h) && "" !in FieldNames(h)
    ensures Trails(g, Filtered(h, Parse(entries), ""), []) == Allowed(entries, Trails(g, h, []))
    ensures Allowed(entries, Trails(g, h, [])) == [] <==> Filtered(h, Parse(entries), "").Done?
  {
    assert FieldPath([]) == [] && RemovedPaths.Join([]) == "";
    forall e <- entries
      ensures !DeniedBy(e, [])
    {
    }
    FilteredTrails(g, entries, h, []);
    FilteredHasTrails(g, h, Parse(entries), "", []);
  }

  lemma {:induction false} EmptyIsDenied(g: Graph, fragments: seq<FragmentTree>, entries: seq<string>)
    requires forall f <- fragments :: StandsFor(g, f.body) && "" !in FieldNames(f.body)
    ensures EmptyFragments(fragments, Parse(entries)) == DeniedFragments(g, fragments, entries)
  {
    if fragments != [] {
      var front, last := fragments[..|fragments| - 1], fragments[|fragments| - 1];
      assert last in fragments && forall f :: f in fragments <==> f in front || f == last;
      EmptyIsDenied(g, front, entries);
      TopTrails(g, entries, last.body);
    }
  }

  lemma ListedNext(g: Graph, fragments: seq<FragmentTree>, f: FragmentTree)
    ensures ListedAll(g, fragments + [f]) == ListedAll(g, fragments) + [Listed(f.name, Trails(g, f.body, []))]
  {
    assert (fragments + [f])[..|fragments|] == fragments;
  }

  lemma CutFragmentsNext(fragments: seq<FragmentTree>, f: FragmentTree, names: set<string>)
    ensures CutFragments(fragments + [f], names)
      == CutFragments(fragments, names) + [FragmentTree(f.name, Cut(f.body, names))]
  {
    assert (fragments + [f])[..|fragments|] == fragments;
  }

  lemma {:induction false} FragmentsSurvive(g: Graph, fragments: seq<FragmentTree>, entries: seq<string>,
      names: set<string>)
    requires forall f <- fragments :: StandsFor(g, f.body) && "" !in FieldNames(f.body)
    ensures ListedAll(g, CutFragments(FilteredFragments(fragments, Parse(entries)), names))
      == Surviving(g, fragments, entries, names)
  {
    if fragments != [] {
      var front, last := fragments[..|fragments| - 1], fragments[|fragments| - 1];
      assert last in fragments && forall f <- front :: f in fragments;
      FragmentsSurvive(g, front, entries, names);
      TopTrails(g, entries, last.body);
      LastSurvives(g, FilteredFragments(front, Parse(entries)), last.name, Filtered(last.body, Parse(entries), ""),
        names);
    }
  }

  lemma LastSurvives(g: Graph, kept: seq<FragmentTree>, name: string, body: Expansion, names: set<string>)
    ensures var one := if body.Done? then [] else [FragmentTree(name, body)];
      ListedAll(g, CutFragments(kept + one, names))
      == ListedAll(g, CutFragments(kept, names))
         + if body.Done? then [] else [Listed(name, Uncut(names, Trails(g, body, [])))]
  {
    if body.Sel? {
      CutFragmentsNext(kept, FragmentTree(name, body), names);
      ListedNext(g, CutFragments(kept, names), FragmentTree(name, Cut(body, names)));
      CutTrails(g, body, names, []);
    } else {
      assert kept + [] == kept;
    }
  }

  ghost predicate SomeEmptied(operations: seq<Expansion>, ds: Denied, names: set<string>) {
    exists op <- operations :: Cut(Filtered(op, ds, ""), names).Done?
  }

  lemma {:induction false} SomeCutEmpty(operations: seq<Expansion>, ds: Denied, names: set<string>)
    ensures SomeDone(CutAll(FilteredAll(operations, ds), names)) <==> SomeEmptied(operations, ds, names)
    ensures SomeDone(FilteredAll(operations, ds)) ==> SomeDone(CutAll(FilteredAll(operations, ds), names))
  {
    if operations != [] {
      var front, last := operations[..|operations| - 1], operations[|operations| - 1];
      SomeCutEmpty(front, ds, names);
      var filtered := Filtered(last, ds, "");
      assert FilteredAll(operations, ds) == FilteredAll(front, ds) + [filtered];
      CutAllNext(FilteredAll(front, ds), filtered, names);
      SomeDoneNext(FilteredAll(front, ds), filtered);
      SomeDoneNext(CutAll(FilteredAll(front, ds), names), Cut(filtered, names));
      FrontAndLast(operations);
      SomeEmptiedNext(front, last, ds, names);
    }
  }

  ghost predicate SomeDone(hs: seq<Expansion>) {
    exists h <- hs :: h.Done?
  }

  lemma SomeDoneNext(hs: seq<Expansion>, h: Expansion)
    ensures SomeDone(hs + [h]) <==> SomeDone(hs) || h.Done?
  {
    assert forall i :: i in hs + [h] <==> i in hs || i == h;
  }

  lemma SomeEmptiedNext(operations: seq<Expansion>, op: Expansion, ds: Denied, names: set<string>)
    ensures SomeEmptied(operations + [op], ds, names)
      <==> SomeEmptied(operations, ds, names) || Cut(Filtered(op, ds, ""), names).Done?
  {
    assert forall i :: i in operations + [op] <==> i in operations || i == op;
  }

  lemma CutAllNext(operations: seq<Expansion>, op: Expansion, names: set<string>)
    ensures CutAll(operations + [op], names) == CutAll(operations, names) + [Cut(op, names)]
  {
    assert (operations + [op])[..|operations|] == operations;
  }

  /** The passes fail exactly when filtering and cutting leave some operation with nothing. */
  lemma RefusedIffNothingLeft(t: Trees, ds: Denied)
    ensures AfterPasses(t, ds).ErrEmptyQuery? <==> SomeEmptied(t.operations, ds, EmptyFragments(t.fragments, ds))
  {
    SomeCutEmpty(t.operations, ds, EmptyFragments(t.fragments, ds));
    CutAllNothing(FilteredAll(t.operations, ds));
  }

  /** Main theorem, for any entries: the query is refused exactly when some operation is left with nothing, and
      otherwise what is left is what is allowed. */
  lemma PassesLeaveAllowed(g: Graph, t: Trees, entries: seq<string>)
    requires AllStandFor(g, t) && NamesGiven(t)
    ensures AfterPasses(t, Parse(entries)).ErrEmptyQuery? <==> SomeOperationDenied(g, t, entries)
    ensures AfterPasses(t, Parse(entries)).Passed? ==>
      AllowedIsLeft(g, t, AfterPasses(t, Parse(entries)).trees, entries)
  {
    var ds, names := Parse(entries), DeniedFragments(g, t.fragments, entries);
    EmptyIsDenied(g, t.fragments, entries);
    RefusedIffNothingLeft(t, ds);
    forall op <- t.operations
      ensures Cut(Filtered(op, ds, ""), names).Done? <==> OnlySpreadsOf(names, Allowed(entries, Trails(g, op, [])))
      ensures Trails(g, Cut(Filtered(op, ds, ""), names), []) == Uncut(names, Allowed(entries, Trails(g, op, [])))
    {
      TopTrails(g, entries, op);
      NothingLeftIff(g, op, ds, "", names);
      CutTrails(g, Filtered(op, ds, ""), names, []);
    }
    if AfterPasses(t, ds).Passed? {
      PassedCutsAll(t, ds);
      FragmentsSurvive(g, t.fragments, entries, names);
    }
  }

  // ------------------------------------------------------------------ leaf paths

  /** The paths, standing at `above`, with no denied field, in order. */
  function PathsLeft(entries: seq<string>, above: Path, paths: seq<Path>): seq<Path> {
    if paths == [] then []
    else (if PathDenied(entries, above + paths[0]) then [] else [paths[0]]) + PathsLeft(entries, above, paths[1..])
  }

  lemma PathsLeftAppend(entries: seq<string>, above: Path, a: seq<Path>, b: seq<Path>)
    ensures PathsLeft(entries, above, a + b) == PathsLeft(entries, above, a) + PathsLeft(entries, above, b)
  {
    if a == [] {
      assert a + b == b;
    } else {
      PathsLeftAppend(entries, above, a[1..], b);
      TailOfAppend(a, b);
      Associative(if PathDenied(entries, above + a[0]) then [] else [a[0]], PathsLeft(entries, above, a[1..]),
        PathsLeft(entries, above, b));
    }
  }

  lemma DeniedStays(entries: seq<string>, path: Path, more: Path)
    requires PathDenied(entries, path)
    ensures PathDenied(entries, path + more)
  {
    var e :| e in entries && DeniedBy(e, path);
    if '.' in e {
      var m :| 0 < m <= |path| && e == RemovedPaths.Join(path[..m]);
      assert (path + more)[..m] == path[..m];
    }
    assert DeniedBy(e, path + more);
  }

  lemma {:induction false} PrefixedLeft(entries: seq<string>, above: Path, name: string, paths: seq<Path>)
    ensures PathsLeft(entries, above, Prefixed(name, paths))
      == if PathDenied(entries, above + [name]) then [] else Prefixed(name, PathsLeft(entries, above + [name], paths))
  {
    if paths != [] {
      var first, rest, below := paths[0], paths[1..], above + [name];
      PrefixedLeft(entries, above, name, rest);
      HeadAndTail(paths);
      PrefixedFirst(name, first, rest);
      assert above + ([name] + first) == below + first;
      PathsLeftFirst(entries, above, [name] + first, Prefixed(name, rest));
      PathsLeftFirst(entries, below, first, rest);
      if PathDenied(entries, below) {
        DeniedStays(entries, below, first);
      } else if !PathDenied(entries, below + first) {
        PrefixedFirst(name, first, PathsLeft(entries, below, rest));
      } else {
        assert [] + PathsLeft(entries, below, rest) == PathsLeft(entries, below, rest);
      }
    }
  }

  lemma PathsLeftFirst(entries: seq<string>, above: Path, path: Path, rest: seq<Path>)
    ensures PathsLeft(entries, above, [path] + rest)
      == (if PathDenied(entries, above + path) then [] else [path]) + PathsLeft(entries, above, rest)
  {
    TailOfAppend([path], rest);
    assert [path][1..] == [] && [] + rest == rest;
  }

  /** Without spreads: the leaf paths left are, in order, exactly those with no denied field. */
  lemma {:induction false} FilteredPaths(h: Expansion, entries: seq<string>, above: Path)
    requires SpreadNames(h) == {} && "" !in FieldNames(h) && Given(above) && !PathDenied(entries, above)
    ensures Leaves(Filtered(h, Parse(entries), RemovedPaths.Join(above))) == PathsLeft(entries, above, Leaves(h))
    ensures Leaves(Filtered(h, Parse(entries), RemovedPaths.Join(above))) == []
      <==> Filtered(h, Parse(entries), RemovedPaths.Join(above)).Done?
    decreases h, 0
  {
    if h.Sel? {
      var ds, path := Parse(entries), RemovedPaths.Join(above);
      FilteredPaths(h.rest, entries, above);
      FilteredOnePaths(h.s, h.sub, entries, above);
      LeavesConcat(FilteredOne(h.s, h.sub, ds, path), Filtered(h.rest, ds, path));
      PathsLeftAppend(entries, above, Leaves(Sel(h.s, h.sub, Done)), Leaves(h.rest));
      LeavesFirst(h);
    }
  }

  lemma {:induction false} FilteredOnePaths(s: Selection, sub: Expansion, entries: seq<string>, above: Path)
    requires SpreadNames(Sel(s, sub, Done)) == {} && "" !in FieldNames(Sel(s, sub, Done))
    requires Given(above) && !PathDenied(entries, above)
    ensures var one := FilteredOne(s, sub, Parse(entries), RemovedPaths.Join(above));
      && Leaves(one) == PathsLeft(entries, above, Leaves(Sel(s, sub, Done)))
      && (Leaves(one) == [] <==> one.Done?)
    decreases sub, 1
  {
    match s {
      case FieldSelection(n) =>
        var below := above + [n.name];
        PathDeniedNext(entries, above, n.name);
        JoinGrows(above, n.name);
        if sub.Done? {
          assert Leaves(Sel(s, sub, Done)) == [[n.name]] && [[n.name]][1..] == [];
        } else {
          PrefixedLeft(entries, above, n.name, Leaves(sub));
          assert Leaves(Sel(s, sub, Done)) == Prefixed(n.name, Leaves(sub));
          if !PathDenied(entries, below) {
            FilteredPaths(sub, entries, below);
          }
        }
      case InlineSelection(n) =>
        FilteredPaths(sub, entries, above);
        assert Leaves(Sel(s, sub, Done)) == Leaves(sub);
      case SpreadSelection(n) =>
    }
  }

  lemma {:induction false} NoneLeft(entries: seq<string>, paths: seq<Path>)
    ensures PathsLeft(entries, [], paths) == [] <==> forall p <- paths :: PathDenied(entries, p)
  {
    if paths != [] {
      NoneLeft(entries, paths[1..]);
      assert [] + paths[0] == paths[0] && paths == [paths[0]] + paths[1..];
    }
  }

  /** Without named fragments: the query is refused exactly when some operation has no leaf path without a denied
      field. */
  lemma RefusedIffAllDenied(operations: seq<Expansion>, entries: seq<string>)
    requires forall op <- operations :: SpreadNames(op) == {} && "" !in FieldNames(op)
    ensures AfterPasses(Trees([], operations), Parse(entries)).ErrEmptyQuery?
      <==> exists op <- operations :: forall p <- Leaves(op) :: PathDenied(entries, p)
  {
    RefusedIffNothingLeft(Trees([], operations), Parse(entries));
    forall op <- operations
      ensures Cut(Filtered(op, Parse(entries), ""), {}).Done? <==> forall p <- Leaves(op) :: PathDenied(entries, p)
    {
      CutNothing(Filtered(op, Parse(entries), ""));
      FilteredPaths(op, entries, []);
      NoneLeft(entries, Leaves(op));
    }
  }
}
