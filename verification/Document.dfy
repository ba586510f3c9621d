// GraphQL documents as values, what a document means once its fragment spreads are expanded, and
// the plain filter on that meaning.
module Document {

  /** What evaluating a field's `id` argument yields; the evaluation itself is a library's. */
  datatype IdArgument = Absent | Unresolved | Null | NonString | Text(value: string)

  /** A list of selections, named after its first one. `attrs` stands for the parts nobody
      rewrites: alias, other arguments, directives, type condition. */
  datatype SelectionSet =
    | End
    | Field(name: string, id: IdArgument, attrs: string, sub: SelectionSet, rest: SelectionSet)
    | Inline(attrs: string, sub: SelectionSet, rest: SelectionSet)
    | Spread(name: string, attrs: string, rest: SelectionSet)

  datatype Fragment = Fragment(name: string, attrs: string, body: SelectionSet)

  datatype Operation = Operation(attrs: string, body: SelectionSet)

  datatype Document = Document(operations: seq<Operation>, fragments: seq<Fragment>)

  type Fragments = map<string, Fragment>

  function Size(s: SelectionSet): nat {
    match s
    case End => 0
    case Field(_, _, _, sub, rest) => 1 + Size(sub) + Size(rest)
    case Inline(_, sub, rest) => 1 + Size(sub) + Size(rest)
    case Spread(_, _, rest) => 1 + Size(rest)
  }

  /** The names spread anywhere in a selection set, fragments not followed. */
  function Spreads(s: SelectionSet): set<string> {
    match s
    case End => {}
    case Field(_, _, _, sub, rest) => Spreads(sub) + Spreads(rest)
    case Inline(_, sub, rest) => Spreads(sub) + Spreads(rest)
    case Spread(name, _, rest) => {name} + Spreads(rest)
  }

  /** Fragments by name; a later definition of a name replaces an earlier one. */
  function ByName(fragments: seq<Fragment>): Fragments {
    if fragments == [] then map[]
    else
      var last := fragments[|fragments| - 1];
      ByName(fragments[..|fragments| - 1])[last.name := last]
  }

  /** The i-th is the last definition of the name. */
  predicate LastNamed(fragments: seq<Fragment>, name: string, i: nat) {
    i < |fragments| && fragments[i].name == name && forall j | i < j < |fragments| :: fragments[j].name != name
  }

  predicate IsNamed(fragments: seq<Fragment>, name: string) {
    exists i | 0 <= i < |fragments| :: fragments[i].name == name
  }

  /** A name leads to its last definition, and to nothing when it has none. */
  lemma {:induction false} ByNameIsLast(fragments: seq<Fragment>, name: string)
    ensures name in ByName(fragments) <==> IsNamed(fragments, name)
    ensures forall i: nat | LastNamed(fragments, name, i) :: ByName(fragments)[name] == fragments[i]
  {
    if fragments != [] {
      var last := |fragments| - 1;
      ByNameIsLast(fragments[..last], name);
      forall i: nat
        ensures LastNamed(fragments, name, i)
          <==> if fragments[last].name == name then i == last else LastNamed(fragments[..last], name, i)
      {
      }
    }
  }

  // ---------------------------------------------------------------- expansion

  /** Where a group of selections came from. */
  datatype Origin = InlineFragment(attrs: string) | NamedFragment(spread: string, definition: string)

  /** A selection set whose spreads have been replaced by the bodies they name. */
  datatype Tree =
    | Nil
    | Node(name: string, id: IdArgument, attrs: string, sub: Tree, rest: Tree)
    | Group(origin: Origin, sub: Tree, rest: Tree)

  /** t is the expansion of s. A selection set has at most one expansion, and has one exactly when
      its spreads are defined and expanding them ends. */
  predicate ExpandsTo(fragments: Fragments, s: SelectionSet, t: Tree)
    decreases t
  {
    match s
    case End => t.Nil?
    case Field(name, id, attrs, sub, rest) =>
      && t.Node? && t.name == name && t.id == id && t.attrs == attrs
      && ExpandsTo(fragments, sub, t.sub) && ExpandsTo(fragments, rest, t.rest)
    case Inline(attrs, sub, rest) =>
      && t.Group? && t.origin == InlineFragment(attrs)
      && ExpandsTo(fragments, sub, t.sub) && ExpandsTo(fragments, rest, t.rest)
    case Spread(name, attrs, rest) =>
      && t.Group? && name in fragments && t.origin == NamedFragment(attrs, fragments[name].attrs)
      && ExpandsTo(fragments, fragments[name].body, t.sub) && ExpandsTo(fragments, rest, t.rest)
  }

  lemma {:induction false} ExpansionUnique(fragments: Fragments, s: SelectionSet, t: Tree, u: Tree)
    requires ExpandsTo(fragments, s, t) && ExpandsTo(fragments, s, u)
    ensures t == u
    decreases t
  {
    match s
    case End =>
    case Field(_, _, _, sub, rest) =>
      ExpansionUnique(fragments, sub, t.sub, u.sub);
      ExpansionUnique(fragments, rest, t.rest, u.rest);
    case Inline(_, sub, rest) =>
      ExpansionUnique(fragments, sub, t.sub, u.sub);
      ExpansionUnique(fragments, rest, t.rest, u.rest);
    case Spread(name, _, rest) =>
      ExpansionUnique(fragments, fragments[name].body, t.sub, u.sub);
      ExpansionUnique(fragments, rest, t.rest, u.rest);
  }

  /** Acyclic fragments: a fragment spreads only fragments of lower rank. */
  predicate Ranked(fragments: Fragments, rank: map<string, nat>) {
    forall f <- fragments :: f in rank &&
      forall g <- Spreads(fragments[f].body) :: g in fragments && g in rank && rank[g] < rank[f]
  }

  predicate SpreadsBelow(fragments: Fragments, rank: map<string, nat>, s: SelectionSet, bound: nat) {
    forall g <- Spreads(s) :: g in fragments && g in rank && rank[g] < bound
  }

  /** Defined, acyclic spreads can be expanded. */
  lemma {:induction false} ExpansionExists(fragments: Fragments, rank: map<string, nat>, s: SelectionSet, bound: nat)
    returns (t: Tree)
    requires Ranked(fragments, rank) && SpreadsBelow(fragments, rank, s, bound)
    ensures ExpandsTo(fragments, s, t)
    decreases bound, s
  {
    match s
    case End => t := Nil;
    case Field(name, id, attrs, sub, rest) =>
      var t1 := ExpansionExists(fragments, rank, sub, bound);
      var t2 := ExpansionExists(fragments, rank, rest, bound);
      t := Node(name, id, attrs, t1, t2);
    case Inline(attrs, sub, rest) =>
      var t1 := ExpansionExists(fragments, rank, sub, bound);
      var t2 := ExpansionExists(fragments, rank, rest, bound);
      t := Group(InlineFragment(attrs), t1, t2);
    case Spread(name, attrs, rest) =>
      assert name in Spreads(s);
      var t1 := ExpansionExists(fragments, rank, fragments[name].body, rank[name]);
      var t2 := ExpansionExists(fragments, rank, rest, bound);
      t := Group(NamedFragment(attrs, fragments[name].attrs), t1, t2);
  }
}
