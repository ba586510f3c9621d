// The specialising filter as a function of its state: fragments are cloned once per context, filtered
// recursively, memoised under fresh names. `QueryFilter` is the class that runs it in place.
module VariantFilter {
  import opened Text
  import opened Document
  import opened SalaryPolicy
  import opened Wrappers

  /** The memo key: a fragment, in a context. */
  datatype Key = Key(name: string, context: Context)

  /** `variants` names the clone made for each key, `bodies` holds the clones by name, `order` lists
      them as they were made. A clone whose filtering is under way still has its original body. */
  datatype State = State(
    variants: map<Key, string>,
    bodies: Fragments,
    used: set<string>,
    order: seq<string>,
    removed: set<string>)

  const INITIAL := State(map[], map[], {}, [], {})

  /** The original fragments and the policy, fixed for a whole run. */
  datatype Env = Env(originals: Fragments, policy: Policy)

  datatype Ensured = Ensured(state: State, variant: string, keep: bool)

  datatype Filtered = Filtered(state: State, sels: SelectionSet)

  const CONTEXTS: set<Context> :=
    {Context(false, false), Context(false, true), Context(true, false), Context(true, true)}

  ghost function AllKeys(env: Env): set<Key> {
    set name <- env.originals.Keys, context <- CONTEXTS :: Key(name, context)
  }

  ghost function Unclaimed(env: Env, state: State): set<Key> {
    AllKeys(env) - state.variants.Keys
  }

  // ------------------------------------------------------------------------ fresh names

  function Candidate(base: string, context: Context, i: nat): string {
    base + "__authz_" + (if context.salaryAllowed then "allow" else "deny") + (if i == 0 then "" else "_" + Decimal(i))
  }

  /** Candidates are pairwise different, so the search for an unused one ends. */
  lemma CandidateInjective(base: string, context: Context, i: nat, j: nat)
    requires Candidate(base, context, i) == Candidate(base, context, j)
    ensures i == j
  {
    var stem := base + "__authz_" + (if context.salaryAllowed then "allow" else "deny");
    var a, b := if i == 0 then "" else "_" + Decimal(i), if j == 0 then "" else "_" + Decimal(j);
    CancelPrefix(stem, a, b);
    if i != 0 && j != 0 {
      CancelPrefix("_", Decimal(i), Decimal(j));
      DecimalInjective(i, j);
    }
  }

  ghost function Tried(base: string, context: Context, i: nat): set<string> {
    set j | 0 <= j < i :: Candidate(base, context, j)
  }

  lemma TrialIsNew(base: string, context: Context, i: nat)
    ensures Candidate(base, context, i) !in Tried(base, context, i)
    ensures Tried(base, context, i + 1) == Tried(base, context, i) + {Candidate(base, context, i)}
  {
    forall j | 0 <= j < i && Candidate(base, context, j) == Candidate(base, context, i) ensures false {
      CandidateInjective(base, context, i, j);
    }
  }

  lemma TrialShrinks(base: string, context: Context, used: set<string>, i: nat)
    requires Candidate(base, context, i) in used
    ensures |used - Tried(base, context, i + 1)| < |used - Tried(base, context, i)|
  {
    TrialIsNew(base, context, i);
    assert used - Tried(base, context, i) == (used - Tried(base, context, i + 1)) + {Candidate(base, context, i)};
  }

  function FirstUnused(base: string, context: Context, used: set<string>, i: nat): (name: string)
    ensures name !in used && name != ""
    decreases |used - Tried(base, context, i)|
  {
    if Candidate(base, context, i) !in used then Candidate(base, context, i)
    else
      TrialShrinks(base, context, used, i);
      FirstUnused(base, context, used, i + 1)
  }

  function FreshName(base: string, context: Context, used: set<string>): (name: string)
    ensures name !in used
    ensures base != "" ==> name != ""
  {
    if !context.inEmployeeByID && base !in used then base else FirstUnused(base, context, used, 0)
  }

  /** How a variant is called: as the fragment, outside employeeByID and if that is free; or else with the first suffix
      that makes it new. */
  lemma FreshNameIs(base: string, context: Context, used: set<string>) returns (i: nat)
    ensures !context.inEmployeeByID && base !in used ==> FreshName(base, context, used) == base
    ensures context.inEmployeeByID || base in used ==>
      && FreshName(base, context, used) == Candidate(base, context, i)
      && forall j | 0 <= j < i :: Candidate(base, context, j) in used
    ensures Candidate(base, context, 0) == base + if context.salaryAllowed then "__authz_allow" else "__authz_deny"
    ensures forall j | j > 0 :: Candidate(base, context, j) == Candidate(base, context, 0) + "_" + Decimal(j)
  {
    i := FirstUnusedIs(base, context, used, 0);
    assert base + "__authz_" + "allow" == base + "__authz_allow" && base + "__authz_" + "deny" == base + "__authz_deny";
    forall j | j > 0
      ensures Candidate(base, context, j) == Candidate(base, context, 0) + "_" + Decimal(j)
    {
      assert Candidate(base, context, 0) + "" == Candidate(base, context, 0);
    }
  }

  lemma {:induction false} FirstUnusedIs(base: string, context: Context, used: set<string>, i: nat) returns (k: nat)
    ensures k >= i && FirstUnused(base, context, used, i) == Candidate(base, context, k)
    ensures forall j | i <= j < k :: Candidate(base, context, j) in used
    decreases |used - Tried(base, context, i)|
  {
    if Candidate(base, context, i) !in used {
      k := i;
    } else {
      TrialShrinks(base, context, used, i);
      k := FirstUnusedIs(base, context, used, i + 1);
    }
  }

  // ------------------------------------------------------------------------ filtering

  /** A key claimed: its clone is registered under a fresh name, not yet filtered. */
  function Claim(env: Env, state: State, key: Key): State
    requires key.name in env.originals
  {
    ClaimAs(env, state, key, FreshName(key.name, key.context, state.used))
  }

  function ClaimAs(env: Env, state: State, key: Key, variant: string): State
    requires key.name in env.originals
  {
    State(state.variants[key := variant],
          state.bodies[variant := env.originals[key.name].(name := variant)],
          state.used + {variant},
          state.order + [variant],
          state.removed)
  }

  lemma KeyIsCandidate(env: Env, key: Key)
    requires key.name in env.originals
    ensures key in AllKeys(env)
  {
    var Context(inside, allowed) := key.context;
    assert Context(inside, allowed) in CONTEXTS by {
      if inside { if allowed {} else {} } else { if allowed {} else {} }
    }
    assert key == Key(key.name, key.context);
  }

  lemma ClaimShrinks(env: Env, state: State, key: Key)
    requires key.name in env.originals && key !in state.variants
    ensures |Unclaimed(env, Claim(env, state, key))| < |Unclaimed(env, state)|
  {
    KeyIsCandidate(env, key);
    var before, after := Unclaimed(env, state), Unclaimed(env, Claim(env, state, key));
    assert Claim(env, state, key).variants.Keys == state.variants.Keys + {key};
    SubsetCard(after, before - {key});
  }

  lemma MoreClaimed(env: Env, s: State, t: State)
    requires s.variants.Keys <= t.variants.Keys
    ensures |Unclaimed(env, t)| <= |Unclaimed(env, s)|
  {
    SubsetCard(Unclaimed(env, t), Unclaimed(env, s));
  }

  lemma {:induction false} SubsetCard<T>(a: set<T>, b: set<T>)
    requires a <= b
    ensures |a| <= |b|
  {
    assert b == a + (b - a);
  }

  /** filterSelectionSet: None when the policy fails. */
  function Filter(env: Env, state: State, sels: SelectionSet, context: Context): (r: Option<Filtered>)
    ensures r.Some? ==> state.variants.Keys <= r.value.state.variants.Keys
    decreases |Unclaimed(env, state)|, Size(sels)
  {
    match sels
    case End => Some(Filtered(state, End))
    case Field(name, id, attrs, sub, rest) =>
      if Hidden(context, name) then
        Filter(env, state.(removed := state.removed + {REMOVED_SALARY}), rest, context)
      else if CheckFails(env.policy, name, id) then None
      else if sub.End? then
        var f :- Filter(env, state, rest, context);
        Some(Filtered(f.state, Field(name, id, attrs, End, f.sels)))
      else
        var child :- Filter(env, state, sub, Enter(env.policy, context, name, id));
        MoreClaimed(env, state, child.state);
        var f :- Filter(env, child.state, rest, context);
        Some(Filtered(f.state, if child.sels.End? then f.sels else Field(name, id, attrs, child.sels, f.sels)))
    case Inline(attrs, sub, rest) =>
      var child :- Filter(env, state, sub, context);
      MoreClaimed(env, state, child.state);
      var f :- Filter(env, child.state, rest, context);
      Some(Filtered(f.state, if child.sels.End? then f.sels else Inline(attrs, child.sels, f.sels)))
    case Spread(name, attrs, rest) =>
      var e :- EnsureVariant(env, state, name, context);
      MoreClaimed(env, state, e.state);
      var f :- Filter(env, e.state, rest, context);
      Some(Filtered(f.state, if e.keep then Spread(e.variant, attrs, f.sels) else f.sels))
  }

  /** ensureFragmentVariant: the variant for a spread, and whether the spread is kept. */
  function EnsureVariant(env: Env, state: State, name: string, context: Context): (r: Option<Ensured>)
    ensures r.Some? ==> state.variants.Keys <= r.value.state.variants.Keys
    decreases |Unclaimed(env, state)|, 0
  {
    var key := Key(name, context);
    if name !in env.originals then Some(Ensured(state, name, true))
    else if key in state.variants then
      var variant := state.variants[key];
      Some(Ensured(state, variant, variant in state.bodies && !state.bodies[variant].body.End?))
    else
      var claimed := Claim(env, state, key);
      ClaimShrinks(env, state, key);
      var f :- Filter(env, claimed, env.originals[name].body, context);
      var variant := claimed.variants[key];
      var done := env.originals[name].(name := variant, body := f.sels);
      Some(Ensured(f.state.(bodies := f.state.bodies[variant := done]), variant, !f.sels.End?))
  }

  // ------------------------------------------------------------------------ documents

  datatype FilteredAll = FilteredAll(state: State, bodies: seq<SelectionSet>)

  /** All operations filtered in order, from the same state onwards. */
  function FilterAll(env: Env, state: State, operations: seq<Operation>): (r: Option<FilteredAll>)
    ensures r.Some? ==> |r.value.bodies| == |operations|
  {
    if operations == [] then Some(FilteredAll(state, []))
    else
      var last := |operations| - 1;
      var before :- FilterAll(env, state, operations[..last]);
      var f :- Filter(env, before.state, operations[last].body, TOP);
      Some(FilteredAll(f.state, before.bodies + [f.sels]))
  }

  /** The operations that still have content. */
  function Kept(operations: seq<Operation>, bodies: seq<SelectionSet>): seq<Operation>
    requires |operations| == |bodies|
  {
    if operations == [] then []
    else
      var last := |operations| - 1;
      Kept(operations[..last], bodies[..last])
      + if bodies[last].End? then [] else [operations[last].(body := bodies[last])]
  }

  function OperationSpreads(operations: seq<Operation>): set<string> {
    set operation <- operations, name <- Spreads(operation.body) :: name
  }

  /** The clones that are used and have content, in the order they were made. */
  function Retained(bodies: Fragments, order: seq<string>, used: set<string>): seq<Fragment>
    requires forall v <- order :: v in bodies
  {
    if order == [] then []
    else
      var last := |order| - 1;
      Retained(bodies, order[..last], used)
      + if order[last] in used && !bodies[order[last]].body.End? then [bodies[order[last]]] else []
  }

  /** A set of names is closed when it holds what its fragments spread; nothing is named "". */
  predicate Closed(bodies: Fragments, names: set<string>) {
    forall v <- names :: v in bodies ==> Spreads(bodies[v].body) - {""} <= names
  }

  /** The names reachable from seeds: the least closed set that holds them. */
  ghost predicate Reachable(bodies: Fragments, seeds: set<string>, names: set<string>) {
    var held :=
      && seeds - {""} <= names
      && Closed(bodies, names)
      && forall other: set<string> :: Closed(bodies, other) && seeds - {""} <= other ==> names <= other;
    held
  }

  /** out is the document filtered, removed the list of removed fields; there is none when the policy fails. */
  ghost predicate FiltersTo(doc: Document, policy: Policy, out: Document, removed: set<string>) {
    var env := Env(ByName(doc.fragments), policy);
    var all := FilterAll(env, INITIAL, doc.operations);
    && all.Some?
    && out.operations == Kept(doc.operations, all.value.bodies)
    && removed == all.value.state.removed
    && (forall v <- all.value.state.order :: v in all.value.state.bodies)
    && exists used ::
         && Reachable(all.value.state.bodies, OperationSpreads(out.operations), used)
         && out.fragments == Retained(all.value.state.bodies, all.value.state.order, used)
  }
}
