// Denied fields: by name, anywhere, or by path. What filtering them out of a tree of selections leaves. Spreads are
// leaves here: this rewriter does not follow them.
module DeniedFields {
  import opened SyntaxNodes
  import opened RemovedPaths
  import opened SharedGraph
  import opened ExpandedShape

  datatype Denied = Denied(global: set<string>, paths: set<string>)

  /** Entries with a dot are paths, the others names. */
  function Parse(entries: seq<string>): Denied {
    Denied(set e | e in entries && '.' !in e, set e | e in entries && '.' in e)
  }

  method ParseDeniedFields(entries: seq<string>) returns (ds: Denied)
    ensures ds == Parse(entries)
  {
    var global, paths: set<string> := {}, {};
    var i := 0;
    while i < |entries|
      invariant 0 <= i <= |entries|
      invariant Denied(global, paths) == Parse(entries[..i])
    {
      if '.' in entries[i] {
        paths := paths + {entries[i]};
      } else {
        global := global + {entries[i]};
      }
      i := i + 1;
    }
    assert entries[..i] == entries;
    ds := Denied(global, paths);
  }

  function FullPath(currentPath: string, name: string): string {
    if currentPath == "" then name else currentPath + "." + name
  }

  predicate IsDenied(ds: Denied, currentPath: string, name: string) {
    name in ds.global || (ds.paths != {} && FullPath(currentPath, name) in ds.paths)
  }

  function Both(a: Denied, b: Denied): Denied {
    Denied(a.global + b.global, a.paths + b.paths)
  }

  lemma ParseAppend(x: seq<string>, y: seq<string>)
    ensures Parse(x + y) == Both(Parse(x), Parse(y))
  {
  }

  // ------------------------------------------------------------------ filtering

  /** filterSelectionSet, on trees: denied fields go, and what lost all its selections. */
  ghost function Filtered(h: Expansion, ds: Denied, path: string): Expansion {
    match h
    case Done => Done
    case Sel(s, sub, rest) => Concat(FilteredOne(s, sub, ds, path), Filtered(rest, ds, path))
  }

  ghost function FilteredOne(s: Selection, sub: Expansion, ds: Denied, path: string): Expansion
    decreases sub
  {
    match s
    case FieldSelection(n) =>
      if IsDenied(ds, path, n.name) then Done
      else if sub.Done? then Sel(s, Done, Done)
      else
        var sub' := Filtered(sub, ds, FullPath(path, n.name));
        if sub'.Done? then Done else Sel(s, sub', Done)
    case InlineSelection(n) =>
      var sub' := Filtered(sub, ds, path);
      if sub'.Done? then Done else Sel(s, sub', Done)
    case SpreadSelection(n) => Sel(s, sub, Done)
  }

  /** removeEmptyFragmentSpreads, on trees: spreads of the names go. What is left without selections stays. */
  ghost function Cut(h: Expansion, names: set<string>): Expansion {
    match h
    case Done => Done
    case Sel(s, sub, rest) => Concat(CutOne(s, sub, names), Cut(rest, names))
  }

  ghost function CutOne(s: Selection, sub: Expansion, names: set<string>): Expansion
    decreases sub
  {
    match s
    case SpreadSelection(n) => if n.name in names then Done else Sel(s, sub, Done)
    case _ => Sel(s, Cut(sub, names), Done)
  }

  /** The names of the fields, at any depth. */
  ghost function FieldNames(h: Expansion): set<string> {
    match h
    case Done => {}
    case Sel(s, sub, rest) => (if s.FieldSelection? then {s.field.name} else {}) + FieldNames(sub) + FieldNames(rest)
  }

  /** The names spread, at any depth. */
  ghost function SpreadNames(h: Expansion): set<string> {
    match h
    case Done => {}
    case Sel(s, sub, rest) =>
      (if s.SpreadSelection? then {s.spread.name} else {}) + SpreadNames(sub) + SpreadNames(rest)
  }

  /** Spreads have nothing below them. */
  ghost predicate SpreadsAreLeaves(h: Expansion) {
    match h
    case Done => true
    case Sel(s, sub, rest) => (s.SpreadSelection? ==> sub.Done?) && SpreadsAreLeaves(sub) && SpreadsAreLeaves(rest)
  }

  lemma {:induction false} NamesConcat(a: Expansion, b: Expansion)
    ensures FieldNames(Concat(a, b)) == FieldNames(a) + FieldNames(b)
    ensures SpreadNames(Concat(a, b)) == SpreadNames(a) + SpreadNames(b)
    ensures SpreadsAreLeaves(Concat(a, b)) <==> SpreadsAreLeaves(a) && SpreadsAreLeaves(b)
  {
    if a.Sel? {
      NamesConcat(a.rest, b);
    }
  }

  /** After filtering, no globally denied name is left, and nothing is new. */
  lemma {:induction false} FilteredNames(h: Expansion, ds: Denied, path: string)
    requires SpreadsAreLeaves(h)
    ensures FieldNames(Filtered(h, ds, path)) <= FieldNames(h) - ds.global
    ensures SpreadNames(Filtered(h, ds, path)) <= SpreadNames(h) && SpreadsAreLeaves(Filtered(h, ds, path))
  {
    if h.Sel? {
      FilteredNames(h.rest, ds, path);
      match h.s {
        case FieldSelection(n) => FilteredNames(h.sub, ds, FullPath(path, n.name));
        case _ => FilteredNames(h.sub, ds, path);
      }
      NamesConcat(FilteredOne(h.s, h.sub, ds, path), Filtered(h.rest, ds, path));
    }
  }

  /** Cutting takes exactly the named spreads away, and no field. */
  lemma {:induction false} CutNames(h: Expansion, names: set<string>)
    requires SpreadsAreLeaves(h)
    ensures FieldNames(Cut(h, names)) == FieldNames(h) && SpreadNames(Cut(h, names)) == SpreadNames(h) - names
    ensures SpreadsAreLeaves(Cut(h, names))
  {
    if h.Sel? {
      CutNames(h.rest, names);
      CutNames(h.sub, names);
      NamesConcat(CutOne(h.s, h.sub, names), Cut(h.rest, names));
    }
  }

  lemma {:induction false} CutNothing(h: Expansion)
    ensures Cut(h, {}) == h
  {
    if h.Sel? {
      CutNothing(h.rest);
      CutNothing(h.sub);
      assert Cut(h, {}) == Concat(CutOne(h.s, h.sub, {}), Cut(h.rest, {}));
      assert CutOne(h.s, h.sub, {}) == Sel(h.s, h.sub, Done);
    }
  }

  // ------------------------------------------------------------------ one list after another

  lemma {:induction false} FilteredConcat(a: Expansion, b: Expansion, ds: Denied, path: string)
    ensures Filtered(Concat(a, b), ds, path) == Concat(Filtered(a, ds, path), Filtered(b, ds, path))
  {
    if a.Sel? {
      FilteredConcat(a.rest, b, ds, path);
      ConcatAssociative(FilteredOne(a.s, a.sub, ds, path), Filtered(a.rest, ds, path), Filtered(b, ds, path));
    }
  }

  /** Filtering by one list and then by another is filtering once by both; so the order does not matter. */
  lemma {:induction false} FilteredTwice(h: Expansion, a: Denied, b: Denied, path: string)
    ensures Filtered(Filtered(h, a, path), b, path) == Filtered(h, Both(a, b), path)
    decreases h, 1
  {
    if h.Sel? {
      FilteredTwice(h.rest, a, b, path);
      FilteredTwiceOne(h.s, h.sub, a, b, path);
      FilteredConcat(FilteredOne(h.s, h.sub, a, path), Filtered(h.rest, a, path), b, path);
    }
  }

  lemma {:induction false} FilteredTwiceOne(s: Selection, sub: Expansion, a: Denied, b: Denied, path: string)
    ensures Filtered(FilteredOne(s, sub, a, path), b, path) == FilteredOne(s, sub, Both(a, b), path)
    decreases sub, 2
  {
    ConcatDone(FilteredOne(s, sub, b, path));
    match s {
      case FieldSelection(n) =>
        var below := FullPath(path, n.name);
        FilteredTwice(sub, a, b, below);
        ConcatDone(FilteredOne(s, Filtered(sub, a, below), b, path));
      case InlineSelection(n) =>
        FilteredTwice(sub, a, b, path);
        ConcatDone(FilteredOne(s, Filtered(sub, a, path), b, path));
      case SpreadSelection(n) =>
    }
  }

  lemma FilteredInAnyOrder(h: Expansion, x: seq<string>, y: seq<string>, path: string)
    ensures Filtered(Filtered(h, Parse(x), path), Parse(y), path) == Filtered(h, Parse(x + y), path)
    ensures Filtered(Filtered(h, Parse(y), path), Parse(x), path) == Filtered(h, Parse(x + y), path)
  {
    FilteredTwice(h, Parse(x), Parse(y), path);
    FilteredTwice(h, Parse(y), Parse(x), path);
    ParseAppend(x, y);
    assert Both(Parse(x), Parse(y)) == Both(Parse(y), Parse(x));
  }

  // ------------------------------------------------------------------ when nothing is left

  /** Some field on the path is denied. */
  predicate Blocked(ds: Denied, current: string, path: Path)
    decreases |path|
  {
    path != [] && (IsDenied(ds, current, path[0]) || Blocked(ds, FullPath(current, path[0]), path[1..]))
  }

  ghost predicate AllBlocked(ds: Denied, current: string, paths: seq<Path>) {
    forall p <- paths :: Blocked(ds, current, p)
  }

  lemma AllBlockedAppend(ds: Denied, current: string, a: seq<Path>, b: seq<Path>)
    ensures AllBlocked(ds, current, a + b) <==> AllBlocked(ds, current, a) && AllBlocked(ds, current, b)
  {
    assert forall p :: p in a + b <==> p in a || p in b;
  }

  lemma {:induction false} PrefixedBlocked(ds: Denied, current: string, name: string, paths: seq<Path>)
    ensures AllBlocked(ds, current, Prefixed(name, paths))
      <==> paths == [] || IsDenied(ds, current, name) || AllBlocked(ds, FullPath(current, name), paths)
  {
    if paths != [] {
      var first, rest := paths[0], paths[1..];
      PrefixedBlocked(ds, current, name, rest);
      assert ([name] + first)[0] == name && ([name] + first)[1..] == first;
      AllBlockedAppend(ds, current, [[name] + first], Prefixed(name, rest));
      AllBlockedAppend(ds, FullPath(current, name), [first], rest);
      assert [first] + rest == paths && Prefixed(name, paths) == [[name] + first] + Prefixed(name, rest);
      assert AllBlocked(ds, current, [[name] + first]) <==> Blocked(ds, current, [name] + first);
      assert AllBlocked(ds, FullPath(current, name), [first]) <==> Blocked(ds, FullPath(current, name), first);
    }
  }

  /** Nothing is left exactly when there is no leaf path without a denied field. */
  lemma {:induction false} EmptyIffAllBlocked(h: Expansion, ds: Denied, current: string)
    requires SpreadNames(h) == {} && SpreadsAreLeaves(h)
    ensures Filtered(h, ds, current).Done? <==> AllBlocked(ds, current, Leaves(h))
  {
    if h.Sel? {
      EmptyIffAllBlocked(h.rest, ds, current);
      AllBlockedAppend(ds, current, Leaves(Sel(h.s, h.sub, Done)), Leaves(h.rest));
      assert Leaves(h) == Leaves(Sel(h.s, h.sub, Done)) + Leaves(h.rest);
      match h.s {
        case FieldSelection(n) =>
          var below := FullPath(current, n.name);
          if h.sub.Done? {
            assert Blocked(ds, current, [n.name]) <==> IsDenied(ds, current, n.name);
          } else {
            EmptyIffAllBlocked(h.sub, ds, below);
            PrefixedBlocked(ds, current, n.name, Leaves(h.sub));
          }
        case InlineSelection(n) => EmptyIffAllBlocked(h.sub, ds, current);
        case SpreadSelection(n) =>
      }
    }
  }

  // ------------------------------------------------------------------ agreement with the inlining rewriter

  /** The entry is a path of clean segments, more than one of them. */
  predicate CleanPath(entry: string) {
    '.' in entry && Normalize(entry) == entry
  }

  lemma {:induction false} JoinNext(path: seq<string>, name: string)
    requires AreSegments(path)
    ensures RemovedPaths.Join(path + [name]) == FullPath(RemovedPaths.Join(path), name)
  {
    if path == [] {
      assert path + [name] == [name];
    } else {
      JoinIsTrimmed(path);
      if |path| == 1 {
        assert (path + [name])[1..] == [name];
      } else {
        JoinNext(path[1..], name);
        JoinIsTrimmed(path[1..]);
        assert (path + [name])[1..] == path[1..] + [name];
        var rest := RemovedPaths.Join(path[1..]);
        assert path[0] + "." + (rest + "." + name) == path[0] + "." + rest + "." + name;
      }
    }
  }

  lemma DeniedIsRemoved(entries: seq<string>, parent: Path, name: string)
    requires AreSegments(parent) && IsSegment(name) && forall e <- entries :: CleanPath(e)
    ensures IsDenied(Parse(entries), RemovedPaths.Join(parent), name)
      <==> ShouldRemove(parent + [name], RemovedSet(entries))
  {
    JoinNext(parent, name);
    InRemovedSet(entries, RemovedPaths.Join(parent + [name]));
    JoinIsTrimmed(parent + [name]);
    assert Parse(entries).global == {};
  }

  /** Without spreads, and for clean dotted paths, this filter and the inlining rewriter agree. */
  lemma {:induction false} FiltersAgree(h: Expansion, entries: seq<string>, parent: Path)
    requires SpreadNames(h) == {} && (forall name <- FieldNames(h) :: IsSegment(name))
    requires AreSegments(parent) && forall e <- entries :: CleanPath(e)
    ensures Filtered(h, Parse(entries), RemovedPaths.Join(parent)) == Rewritten(h, parent, RemovedSet(entries))
  {
    if h.Sel? {
      FiltersAgree(h.rest, entries, parent);
      match h.s {
        case FieldSelection(n) =>
          assert n.name in FieldNames(h);
          DeniedIsRemoved(entries, parent, n.name);
          JoinNext(parent, n.name);
          FiltersAgree(h.sub, entries, parent + [n.name]);
        case InlineSelection(n) => FiltersAgree(h.sub, entries, parent);
        case SpreadSelection(n) =>
      }
    }
  }
}
