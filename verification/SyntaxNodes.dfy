// The parser's syntax tree: nodes on the heap, whose selection sets are overwritten in place.
module SyntaxNodes {
  import opened Document

  class FieldNode {
    const name: string
    const id: IdArgument
    const attrs: string
    var selectionSet: seq<Selection>

    constructor (name: string, id: IdArgument, attrs: string, selectionSet: seq<Selection>)
      ensures this.name == name && this.id == id && this.attrs == attrs && this.selectionSet == selectionSet
    {
      this.name, this.id, this.attrs, this.selectionSet := name, id, attrs, selectionSet;
    }
  }

  class InlineNode {
    const attrs: string
    var selectionSet: seq<Selection>

    constructor (attrs: string, selectionSet: seq<Selection>)
      ensures this.attrs == attrs && this.selectionSet == selectionSet
    {
      this.attrs, this.selectionSet := attrs, selectionSet;
    }
  }

  /** A spread is never changed once it is part of a tree. */
  class SpreadNode {
    const name: string
    const attrs: string

    constructor (name: string, attrs: string)
      ensures this.name == name && this.attrs == attrs
    {
      this.name, this.attrs := name, attrs;
    }
  }

  datatype Selection =
    | FieldSelection(field: FieldNode)
    | InlineSelection(inline: InlineNode)
    | SpreadSelection(spread: SpreadNode)

  class FragmentNode {
    const name: string
    const attrs: string
    var selectionSet: seq<Selection>

    constructor (name: string, attrs: string, selectionSet: seq<Selection>)
      ensures this.name == name && this.attrs == attrs && this.selectionSet == selectionSet
    {
      this.name, this.attrs, this.selectionSet := name, attrs, selectionSet;
    }
  }

  class OperationNode {
    const attrs: string
    var selectionSet: seq<Selection>

    constructor (attrs: string, selectionSet: seq<Selection>)
      ensures this.attrs == attrs && this.selectionSet == selectionSet
    {
      this.attrs, this.selectionSet := attrs, selectionSet;
    }
  }

  class DocumentNode {
    var operations: seq<OperationNode>
    var fragments: seq<FragmentNode>

    constructor (operations: seq<OperationNode>, fragments: seq<FragmentNode>)
      ensures this.operations == operations && this.fragments == fragments
    {
      this.operations, this.fragments := operations, fragments;
    }
  }

  /** The i-th is the last definition of the name. */
  predicate LastDefinition(fragments: seq<FragmentNode>, name: string, i: nat) {
    i < |fragments| && fragments[i].name == name && forall j | i < j < |fragments| :: fragments[j].name != name
  }

  predicate IsDefined(fragments: seq<FragmentNode>, name: string) {
    exists i | 0 <= i < |fragments| :: fragments[i].name == name
  }

  /** Names lead to their last definitions, and those without definition nowhere. */
  ghost predicate Indexes(byName: map<string, FragmentNode>, fragments: seq<FragmentNode>) {
    && (forall name :: name in byName <==> IsDefined(fragments, name))
    && forall name, i: nat | LastDefinition(fragments, name, i) :: name in byName && byName[name] == fragments[i]
  }

  lemma IndexesNone(fragments: seq<FragmentNode>)
    ensures Indexes(map[], fragments[..0])
  {
  }

  lemma IndexesNext(byName: map<string, FragmentNode>, fragments: seq<FragmentNode>, i: nat)
    requires i < |fragments| && Indexes(byName, fragments[..i])
    ensures Indexes(byName[fragments[i].name := fragments[i]], fragments[..i + 1])
  {
    var few, more, f := fragments[..i], fragments[..i + 1], fragments[i];
    assert more[i] == f && forall j | 0 <= j < i :: more[j] == few[j];
    forall name, k: nat | LastDefinition(more, name, k)
      ensures if name == f.name then k == i else LastDefinition(few, name, k)
    {
      if k < i {
        assert more[i].name != name;
      }
    }
    forall name | IsDefined(few, name)
      ensures IsDefined(more, name)
    {
      var k :| 0 <= k < i && few[k].name == name;
      assert more[k].name == name;
    }
  }

  lemma IndexesAll(byName: map<string, FragmentNode>, fragments: seq<FragmentNode>)
    requires Indexes(byName, fragments[..|fragments|])
    ensures Indexes(byName, fragments)
  {
    assert fragments[..|fragments|] == fragments;
  }

  // ------------------------------------------------------------------ the value of a tree of nodes

  /** Which nodes make up a selection set. */
  datatype Shape =
    | Empty
    | FieldShape(field: FieldNode, sub: Shape, rest: Shape)
    | InlineShape(inline: InlineNode, sub: Shape, rest: Shape)
    | SpreadShape(spread: SpreadNode, rest: Shape)

  function Value(h: Shape): SelectionSet {
    match h
    case Empty => End
    case FieldShape(n, sub, rest) => Field(n.name, n.id, n.attrs, Value(sub), Value(rest))
    case InlineShape(n, sub, rest) => Inline(n.attrs, Value(sub), Value(rest))
    case SpreadShape(n, rest) => Spread(n.name, n.attrs, Value(rest))
  }

  /** The nodes whose selection sets can be overwritten. */
  ghost function Nodes(h: Shape): (nodes: set<object>)
    ensures forall o <- nodes :: o is FieldNode || o is InlineNode
  {
    match h
    case Empty => {}
    case FieldShape(n, sub, rest) => {n} + Nodes(sub) + Nodes(rest)
    case InlineShape(n, sub, rest) => {n} + Nodes(sub) + Nodes(rest)
    case SpreadShape(_, rest) => Nodes(rest)
  }

  /** No node occurs twice. */
  ghost predicate Separate(h: Shape) {
    match h
    case Empty => true
    case FieldShape(n, sub, rest) =>
      n !in Nodes(sub) && n !in Nodes(rest) && Nodes(sub) !! Nodes(rest) && Separate(sub) && Separate(rest)
    case InlineShape(n, sub, rest) =>
      n !in Nodes(sub) && n !in Nodes(rest) && Nodes(sub) !! Nodes(rest) && Separate(sub) && Separate(rest)
    case SpreadShape(_, rest) => Separate(rest)
  }

  /** The nodes of h are linked as h says. */
  ghost predicate Holds(sels: seq<Selection>, h: Shape)
    reads Nodes(h)
    decreases h
  {
    match h
    case Empty => sels == []
    case FieldShape(n, sub, rest) =>
      sels != [] && sels[0] == FieldSelection(n) && Holds(n.selectionSet, sub) && Holds(sels[1..], rest)
    case InlineShape(n, sub, rest) =>
      sels != [] && sels[0] == InlineSelection(n) && Holds(n.selectionSet, sub) && Holds(sels[1..], rest)
    case SpreadShape(n, rest) =>
      sels != [] && sels[0] == SpreadSelection(n) && Holds(sels[1..], rest)
  }

  /** Holds, as one fact: the verifier is not to take it apart. */
  ghost predicate Linked(sels: seq<Selection>, h: Shape)
    reads Nodes(h)
  {
    var held := Holds(sels, h);
    held
  }

  function Append(a: SelectionSet, b: SelectionSet): SelectionSet {
    match a
    case End => b
    case Field(name, id, attrs, sub, rest) => Field(name, id, attrs, sub, Append(rest, b))
    case Inline(attrs, sub, rest) => Inline(attrs, sub, Append(rest, b))
    case Spread(name, attrs, rest) => Spread(name, attrs, Append(rest, b))
  }

  ghost function Join(a: Shape, b: Shape): Shape {
    match a
    case Empty => b
    case FieldShape(n, sub, rest) => FieldShape(n, sub, Join(rest, b))
    case InlineShape(n, sub, rest) => InlineShape(n, sub, Join(rest, b))
    case SpreadShape(n, rest) => SpreadShape(n, Join(rest, b))
  }

  lemma {:induction false} AppendEnd(a: SelectionSet)
    ensures Append(a, End) == a
  {
    if !a.End? {
      AppendEnd(a.rest);
    }
  }

  lemma {:induction false} AppendAssociative(a: SelectionSet, b: SelectionSet, c: SelectionSet)
    ensures Append(Append(a, b), c) == Append(a, Append(b, c))
  {
    if !a.End? {
      AppendAssociative(a.rest, b, c);
    }
  }

  lemma {:induction false} JoinFacts(a: Shape, b: Shape)
    ensures Value(Join(a, b)) == Append(Value(a), Value(b))
    ensures Nodes(Join(a, b)) == Nodes(a) + Nodes(b)
    ensures Separate(a) && Separate(b) && Nodes(a) !! Nodes(b) ==> Separate(Join(a, b))
  {
    if !a.Empty? {
      JoinFacts(a.rest, b);
    }
  }

  lemma {:induction false} JoinHolds(s: seq<Selection>, a: Shape, t: seq<Selection>, b: Shape)
    requires Holds(s, a) && Holds(t, b)
    ensures Holds(s + t, Join(a, b))
  {
    if a.Empty? {
      assert s + t == t;
    } else {
      JoinHolds(s[1..], a.rest, t, b);
      assert (s + t)[1..] == s[1..] + t;
    }
  }

  /** Selections kept, appended to those kept before. */
  lemma Extend(filtered: seq<Selection>, g: Shape, kept: seq<Selection>, one: Shape)
    requires Holds(filtered, g) && Holds(kept, one) && Separate(g) && Separate(one) && Nodes(g) !! Nodes(one)
    ensures Holds(filtered + kept, Join(g, one)) && Separate(Join(g, one))
    ensures Value(Join(g, one)) == Append(Value(g), Value(one))
    ensures Nodes(Join(g, one)) == Nodes(g) + Nodes(one)
  {
    JoinHolds(filtered, g, kept, one);
    JoinFacts(g, one);
  }

  lemma HoldsEmptyIff(s: seq<Selection>, h: Shape)
    requires Holds(s, h)
    ensures s == [] <==> h.Empty?
    ensures h.Empty? <==> Value(h).End?
  {
  }

  /** The shape of a selection on its own. */
  ghost function First(h: Shape): Shape
    requires !h.Empty?
  {
    h.(rest := Empty)
  }

  lemma FirstAndRest(h: Shape)
    requires !h.Empty?
    ensures Value(h) == Append(Value(First(h)), Value(h.rest))
    ensures Nodes(h) == Nodes(First(h)) + Nodes(h.rest)
    ensures Separate(h) ==> Separate(First(h)) && Separate(h.rest) && Nodes(First(h)) !! Nodes(h.rest)
    ensures Size(Value(First(h))) + Size(Value(h.rest)) == Size(Value(h))
  {
  }

  /** The selection is the first one of h. */
  ghost predicate Matches(selection: Selection, h: Shape)
    reads Nodes(h)
  {
    && !h.Empty?
    && (h.FieldShape? ==> selection == FieldSelection(h.field) && Holds(h.field.selectionSet, h.sub))
    && (h.InlineShape? ==> selection == InlineSelection(h.inline) && Holds(h.inline.selectionSet, h.sub))
    && (h.SpreadShape? ==> selection == SpreadSelection(h.spread))
  }

  lemma RestHolds(selectionSet: seq<Selection>, h: Shape)
    requires Holds(selectionSet, h) && !h.Empty?
    ensures selectionSet != [] && Matches(selectionSet[0], h)
    ensures Holds(selectionSet[1..], h.rest)
  {
  }

  lemma FirstHolds(selection: Selection, h: Shape)
    requires Matches(selection, h)
    ensures Holds([selection], First(h))
  {
    assert [selection][1..] == [];
  }

  /** Nodes of a shape at hand exist. */
  lemma {:induction false} NodesExist(h: Shape)
    ensures forall o <- Nodes(h) :: allocated(o)
  {
    match h
    case Empty =>
    case FieldShape(_, sub, rest) =>
      NodesExist(sub);
      NodesExist(rest);
    case InlineShape(_, sub, rest) =>
      NodesExist(sub);
      NodesExist(rest);
    case SpreadShape(_, rest) => NodesExist(rest);
  }

  // ------------------------------------------------------------------ deep copies

  /** cloneSelectionSet: an equal tree of new nodes. */
  method CloneSelectionSet(selectionSet: seq<Selection>, ghost h: Shape) returns (cloned: seq<Selection>,
      ghost c: Shape)
    requires Holds(selectionSet, h)
    ensures Holds(cloned, c) && Value(c) == Value(h) && Separate(c) && fresh(Nodes(c))
    decreases h, 1
  {
    cloned, c := [], Empty;
    ghost var left := h;
    var i := 0;
    while i < |selectionSet|
      invariant 0 <= i <= |selectionSet|
      invariant Holds(selectionSet[i..], left) && (left == h || left < h)
      invariant Holds(cloned, c) && Separate(c) && fresh(Nodes(c))
      invariant Value(h) == Append(Value(c), Value(left))
    {
      NodesExist(left.rest);
      NodesExist(c);
      assert selectionSet[i..][1..] == selectionSet[i + 1..];
      var selection, one := CloneSelection(selectionSet[i], left);
      assert Holds(cloned, c);
      assert Holds(selectionSet[i + 1..], left.rest);
      JoinHolds(cloned, c, [selection], one);
      JoinFacts(c, one);
      AppendAssociative(Value(c), Value(one), Value(left.rest));
      cloned, c := cloned + [selection], Join(c, one);
      left, i := left.rest, i + 1;
    }
    AppendEnd(Value(c));
  }

  method CloneSelection(selection: Selection, ghost h: Shape) returns (cloned: Selection, ghost c: Shape)
    requires Matches(selection, h)
    ensures Holds([cloned], c) && Value(h) == Append(Value(c), Value(h.rest)) && Separate(c) && fresh(Nodes(c))
    decreases h, 0
  {
    match selection {
      case FieldSelection(node) =>
        NodesExist(h.sub);
        var field := new FieldNode(node.name, node.id, node.attrs, node.selectionSet);
        assert Holds(node.selectionSet, h.sub);
        var sub, s := CloneSelectionSet(node.selectionSet, h.sub);
        field.selectionSet := sub;
        assert Holds(sub, s);
        cloned, c := FieldSelection(field), FieldShape(field, s, Empty);
        FirstHolds(cloned, c);
      case InlineSelection(node) =>
        NodesExist(h.sub);
        var inline := new InlineNode(node.attrs, node.selectionSet);
        assert Holds(node.selectionSet, h.sub);
        var sub, s := CloneSelectionSet(node.selectionSet, h.sub);
        inline.selectionSet := sub;
        cloned, c := InlineSelection(inline), InlineShape(inline, s, Empty);
        FirstHolds(cloned, c);
      case SpreadSelection(node) =>
        var spread := new SpreadNode(node.name, node.attrs);
        cloned, c := SpreadSelection(spread), SpreadShape(spread, Empty);
        FirstHolds(cloned, c);
    }
  }

  // ------------------------------------------------------------------ the spreads of a selection set

  /** collectFragmentSpreads: the names spread anywhere below, fragments not followed. */
  method CollectFragmentSpreads(selectionSet: seq<Selection>, ghost h: Shape) returns (names: set<string>)
    requires Linked(selectionSet, h)
    ensures names == Spreads(Value(h)) && Linked(selectionSet, h)
    decreases h
  {
    NodesExist(h);
    names := {};
    ghost var left, rest := h, selectionSet;
    var i := 0;
    while i < |selectionSet|
      invariant 0 <= i <= |selectionSet| && rest == selectionSet[i..]
      invariant Linked(selectionSet, h) && Linked(rest, left) && (left == h || left < h)
      invariant Spreads(Value(h)) == names + Spreads(Value(left))
    {
      NodesExist(left.rest);
      RestHolds(rest, left);
      match selectionSet[i] {
        case FieldSelection(node) =>
          var below := CollectFragmentSpreads(node.selectionSet, left.sub);
          names := names + below;
        case InlineSelection(node) =>
          var below := CollectFragmentSpreads(node.selectionSet, left.sub);
          names := names + below;
        case SpreadSelection(node) =>
          names := names + {node.name};
      }
      left, rest, i := left.rest, rest[1..], i + 1;
    }
    HoldsEmptyIff(rest, left);
  }
}
