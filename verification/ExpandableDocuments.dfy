// Which documents have a meaning: those whose operations lead, through spreads, only to fragments that are defined and
// do not spread themselves.
module ExpandableDocuments {
  import opened Document
  import opened FilteredDocument
  import Acyclicity

  /** Which fragments each fragment spreads. */
  function SpreadLinks(fragments: Fragments): Acyclicity.Links<string> {
    map f | f in fragments :: Spreads(fragments[f].body)
  }

  /** The name is spread in the selection set, or in a fragment it leads to. */
  ghost predicate Needed(fragments: Fragments, s: SelectionSet, name: string) {
    name in Spreads(s) || exists g <- Spreads(s) :: Acyclicity.Reaches(SpreadLinks(fragments), g, name)
  }

  /** Every fragment needed is defined and does not lead to itself. */
  ghost predicate Expandable(fragments: Fragments, s: SelectionSet) {
    forall name | Needed(fragments, s, name) ::
      name in fragments && !Acyclicity.Reaches(SpreadLinks(fragments), name, name)
  }

  // ------------------------------------------------------------------ expandable: expanded

  lemma {:induction false} StepsOn(k: nat, links: Acyclicity.Links<string>, s: string, t: string, u: string)
    requires Acyclicity.Steps(k, links, s, t) && t in links && u in links[t]
    ensures Acyclicity.Steps(k + 1, links, s, u)
  {
    if k == 0 {
      assert Acyclicity.Steps(0, links, t, u);
    } else {
      var v :| v in links[s] && Acyclicity.Steps(k - 1, links, v, t);
      StepsOn(k - 1, links, v, t, u);
    }
  }

  lemma NeededOn(fragments: Fragments, s: SelectionSet, f: string, g: string)
    requires Needed(fragments, s, f) && f in fragments && g in Spreads(fragments[f].body)
    ensures Needed(fragments, s, g)
  {
    var links := SpreadLinks(fragments);
    if f in Spreads(s) {
      assert Acyclicity.Steps(0, links, f, g);
    } else {
      var h :| h in Spreads(s) && Acyclicity.Reaches(links, h, f);
      var k: nat :| Acyclicity.Steps(k, links, h, f);
      StepsOn(k, links, h, f, g);
    }
  }

  ghost function NeededOnes(fragments: Fragments, s: SelectionSet): Fragments {
    map f | f in fragments && Needed(fragments, s, f) :: fragments[f]
  }

  lemma {:induction false} StepsMore(k: nat, some: Acyclicity.Links<string>, all: Acyclicity.Links<string>, s: string,
      t: string)
    requires Acyclicity.Steps(k, some, s, t) && forall f <- some :: f in all && some[f] == all[f]
    ensures Acyclicity.Steps(k, all, s, t)
  {
    if k > 0 {
      var u :| u in some[s] && Acyclicity.Steps(k - 1, some, u, t);
      StepsMore(k - 1, some, all, u, t);
    }
  }

  lemma NeededAreRanked(fragments: Fragments, s: SelectionSet) returns (rank: map<string, nat>)
    requires Expandable(fragments, s)
    ensures Ranked(NeededOnes(fragments, s), rank) && SpreadsBelow(NeededOnes(fragments, s), rank, s, |fragments| + 1)
  {
    var needed := NeededOnes(fragments, s);
    var links := SpreadLinks(needed);
    forall f <- needed, g <- Spreads(needed[f].body)
      ensures g in needed
    {
      NeededOn(fragments, s, f, g);
    }
    forall f <- links
      ensures !Acyclicity.Reaches(links, f, f)
    {
      if Acyclicity.Reaches(links, f, f) {
        var k: nat :| Acyclicity.Steps(k, links, f, f);
        StepsMore(k, links, SpreadLinks(fragments), f, f);
        assert false;
      }
    }
    Acyclicity.AcyclicIffRanked(links);
    rank := Acyclicity.RanksOf(links);
    forall f <- needed
      ensures rank[f] <= |fragments|
    {
      Acyclicity.SubsetSize(Acyclicity.Reached(links, f), fragments.Keys);
    }
    assert forall g <- Spreads(s) :: Needed(fragments, s, g);
  }

  lemma {:induction false} ExpandsMore(some: Fragments, all: Fragments, s: SelectionSet, t: Tree)
    requires ExpandsTo(some, s, t) && forall f <- some :: f in all && some[f] == all[f]
    ensures ExpandsTo(all, s, t)
    decreases t
  {
    match s
    case End =>
    case Field(_, _, _, sub, rest) =>
      ExpandsMore(some, all, sub, t.sub);
      ExpandsMore(some, all, rest, t.rest);
    case Inline(_, sub, rest) =>
      ExpandsMore(some, all, sub, t.sub);
      ExpandsMore(some, all, rest, t.rest);
    case Spread(name, _, rest) =>
      ExpandsMore(some, all, some[name].body, t.sub);
      ExpandsMore(some, all, rest, t.rest);
  }

  // ------------------------------------------------------------------ expanded: expandable

  function Weight(t: Tree): nat {
    match t
    case Nil => 0
    case Node(_, _, _, sub, rest) => 1 + Weight(sub) + Weight(rest)
    case Group(_, sub, rest) => 1 + Weight(sub) + Weight(rest)
  }

  /** A fragment spread in an expanded selection set has a smaller expansion. */
  lemma {:induction false} SpreadIsSmaller(fragments: Fragments, s: SelectionSet, t: Tree, name: string)
    returns (u: Tree)
    requires ExpandsTo(fragments, s, t) && name in Spreads(s)
    ensures name in fragments && ExpandsTo(fragments, fragments[name].body, u) && Weight(u) < Weight(t)
    decreases s
  {
    match s
    case Field(_, _, _, sub, rest) =>
      if name in Spreads(sub) {
        u := SpreadIsSmaller(fragments, sub, t.sub, name);
      } else {
        u := SpreadIsSmaller(fragments, rest, t.rest, name);
      }
    case Inline(_, sub, rest) =>
      if name in Spreads(sub) {
        u := SpreadIsSmaller(fragments, sub, t.sub, name);
      } else {
        u := SpreadIsSmaller(fragments, rest, t.rest, name);
      }
    case Spread(n, _, rest) =>
      if name == n {
        u := t.sub;
      } else {
        u := SpreadIsSmaller(fragments, rest, t.rest, name);
      }
  }

  lemma {:induction false} ReachedIsSmaller(k: nat, fragments: Fragments, f: string, t: Tree, name: string)
    returns (u: Tree)
    requires f in fragments && ExpandsTo(fragments, fragments[f].body, t)
    requires Acyclicity.Steps(k, SpreadLinks(fragments), f, name)
    ensures name in fragments && ExpandsTo(fragments, fragments[name].body, u) && Weight(u) < Weight(t)
  {
    if k == 0 {
      u := SpreadIsSmaller(fragments, fragments[f].body, t, name);
    } else {
      var g :| g in Spreads(fragments[f].body) && Acyclicity.Steps(k - 1, SpreadLinks(fragments), g, name);
      var v := SpreadIsSmaller(fragments, fragments[f].body, t, g);
      u := ReachedIsSmaller(k - 1, fragments, g, v, name);
    }
  }

  lemma NeededHasExpansion(fragments: Fragments, s: SelectionSet, t: Tree, name: string) returns (u: Tree)
    requires ExpandsTo(fragments, s, t) && Needed(fragments, s, name)
    ensures name in fragments && ExpandsTo(fragments, fragments[name].body, u)
  {
    if name in Spreads(s) {
      u := SpreadIsSmaller(fragments, s, t, name);
    } else {
      var g :| g in Spreads(s) && Acyclicity.Reaches(SpreadLinks(fragments), g, name);
      var k: nat :| Acyclicity.Steps(k, SpreadLinks(fragments), g, name);
      var v := SpreadIsSmaller(fragments, s, t, g);
      u := ReachedIsSmaller(k, fragments, g, v, name);
    }
  }

  lemma ExpandedIsExpandable(fragments: Fragments, s: SelectionSet, t: Tree)
    requires ExpandsTo(fragments, s, t)
    ensures Expandable(fragments, s)
  {
    forall name | Needed(fragments, s, name)
      ensures name in fragments && !Acyclicity.Reaches(SpreadLinks(fragments), name, name)
    {
      var u := NeededHasExpansion(fragments, s, t, name);
      if Acyclicity.Reaches(SpreadLinks(fragments), name, name) {
        var k: nat :| Acyclicity.Steps(k, SpreadLinks(fragments), name, name);
        var v := ReachedIsSmaller(k, fragments, name, u, name);
        ExpansionUnique(fragments, fragments[name].body, u, v);
        assert false;
      }
    }
  }

  // ------------------------------------------------------------------ exactly

  lemma ExpandableIsExpanded(fragments: Fragments, s: SelectionSet) returns (t: Tree)
    requires Expandable(fragments, s)
    ensures ExpandsTo(fragments, s, t)
  {
    var rank := NeededAreRanked(fragments, s);
    t := ExpansionExists(NeededOnes(fragments, s), rank, s, |fragments| + 1);
    ExpandsMore(NeededOnes(fragments, s), fragments, s, t);
  }

  ghost predicate HasExpansion(fragments: Fragments, s: SelectionSet) {
    exists t :: ExpandsTo(fragments, s, t)
  }

  /** A selection set has an expansion exactly when every fragment it leads to is defined and does not lead to
      itself. */
  lemma ExpandsIff(fragments: Fragments, s: SelectionSet)
    ensures HasExpansion(fragments, s) <==> Expandable(fragments, s)
  {
    if Expandable(fragments, s) {
      var t := ExpandableIsExpanded(fragments, s);
    } else if HasExpansion(fragments, s) {
      var t :| ExpandsTo(fragments, s, t);
      ExpandedIsExpandable(fragments, s, t);
      assert false;
    }
  }

  lemma {:induction false} MeaningsOf(fragments: Fragments, operations: seq<Operation>) returns (meanings: seq<Meaning>)
    requires forall op <- operations :: Expandable(fragments, op.body)
    ensures |meanings| == |operations|
    ensures forall i | 0 <= i < |meanings| ::
      meanings[i].attrs == operations[i].attrs && ExpandsTo(fragments, operations[i].body, meanings[i].tree)
  {
    if operations == [] {
      meanings := [];
    } else {
      var last := |operations| - 1;
      var front := MeaningsOf(fragments, operations[..last]);
      assert operations[last] in operations;
      var t := ExpandableIsExpanded(fragments, operations[last].body);
      meanings := front + [Meaning(operations[last].attrs, t)];
    }
  }

  /** A document has a meaning exactly when all its operations can be expanded. */
  lemma MeaningsExistIff(doc: Document)
    ensures (exists meanings :: Means(doc, meanings))
      <==> forall op <- doc.operations :: Expandable(ByName(doc.fragments), op.body)
  {
    if forall op <- doc.operations :: Expandable(ByName(doc.fragments), op.body) {
      var meanings := MeaningsOf(ByName(doc.fragments), doc.operations);
      assert Means(doc, meanings);
    }
    forall op: Operation, meanings: seq<Meaning> | op in doc.operations && Means(doc, meanings)
      ensures Expandable(ByName(doc.fragments), op.body)
    {
      var i :| 0 <= i < |doc.operations| && doc.operations[i] == op;
      ExpandedIsExpandable(ByName(doc.fragments), op.body, meanings[i].tree);
    }
  }
}
