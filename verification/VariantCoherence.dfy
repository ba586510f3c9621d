// What the memoised filter builds: a finite system of fragment bodies in which each variant is exactly the
// translation of its original body, all spreads pointing at variants of that same system.
// This holds for cyclic fragments too.
module VariantCoherence {
  import opened Document
  import opened SalaryPolicy
  import opened VariantFilter
  import opened Wrappers

  // ------------------------------------------------------------------ local translation

  /** A body filtered in a context, given the variants' names and which of them have content. */
  function Translate(env: Env, variants: map<Key, string>, live: set<Key>, sels: SelectionSet,
      context: Context): SelectionSet {
    match sels
    case End => End
    case Field(name, id, attrs, sub, rest) =>
      var rest' := Translate(env, variants, live, rest, context);
      if Hidden(context, name) then rest'
      else if sub.End? then Field(name, id, attrs, End, rest')
      else
        var sub' := Translate(env, variants, live, sub, Enter(env.policy, context, name, id));
        if sub'.End? then rest' else Field(name, id, attrs, sub', rest')
    case Inline(attrs, sub, rest) =>
      var rest' := Translate(env, variants, live, rest, context);
      var sub' := Translate(env, variants, live, sub, context);
      if sub'.End? then rest' else Inline(attrs, sub', rest')
    case Spread(name, attrs, rest) =>
      var rest' := Translate(env, variants, live, rest, context);
      var key := Key(name, context);
      if name !in env.originals then Spread(name, attrs, rest')
      else if key in live && key in variants then Spread(variants[key], attrs, rest')
      else rest'
  }

  /** Every variant the translation asks about has been claimed. */
  predicate Covered(env: Env, claimed: set<Key>, sels: SelectionSet, context: Context) {
    match sels
    case End => true
    case Field(name, id, _, sub, rest) =>
      && Covered(env, claimed, rest, context)
      && (Hidden(context, name) || Covered(env, claimed, sub, Enter(env.policy, context, name, id)))
    case Inline(_, sub, rest) => Covered(env, claimed, sub, context) && Covered(env, claimed, rest, context)
    case Spread(name, _, rest) =>
      (name in env.originals ==> Key(name, context) in claimed) && Covered(env, claimed, rest, context)
  }

  /** The policy answers on every field of the body that is visited; spreads are not followed. */
  predicate ChecksPass(policy: Policy, sels: SelectionSet, context: Context) {
    match sels
    case End => true
    case Field(name, id, _, sub, rest) =>
      && ChecksPass(policy, rest, context)
      && (Hidden(context, name) ||
          (!CheckFails(policy, name, id) && ChecksPass(policy, sub, Enter(policy, context, name, id))))
    case Inline(_, sub, rest) => ChecksPass(policy, sub, context) && ChecksPass(policy, rest, context)
    case Spread(_, _, rest) => ChecksPass(policy, rest, context)
  }

  /** The body itself holds a refused salary; spreads are not followed. */
  predicate HidesSalary(policy: Policy, sels: SelectionSet, context: Context) {
    match sels
    case End => false
    case Field(name, id, _, sub, rest) =>
      || Hidden(context, name)
      || HidesSalary(policy, sub, Enter(policy, context, name, id))
      || HidesSalary(policy, rest, context)
    case Inline(_, sub, rest) => HidesSalary(policy, sub, context) || HidesSalary(policy, rest, context)
    case Spread(_, _, rest) => HidesSalary(policy, rest, context)
  }

  // ------------------------------------------------------------------ the invariant

  /** Every key names a clone of its fragment. */
  ghost predicate Named(env: Env, s: State) {
    && s.bodies.Keys == s.used
    && (forall v <- s.bodies :: s.bodies[v].name == v)
    && forall k <- s.variants ::
          k.name in env.originals && s.variants[k] in s.bodies && (k.name != "" ==> s.variants[k] != "")
  }

  /** Different keys have different names. */
  ghost predicate Distinct(s: State) {
    forall j <- s.variants, k <- s.variants :: s.variants[j] == s.variants[k] ==> j == k
  }

  function Body(s: State, key: Key): SelectionSet
    requires key in s.variants && s.variants[key] in s.bodies
  {
    s.bodies[s.variants[key]].body
  }

  /** Variants that count as having content: those under way, and those whose body is not empty. */
  ghost function Live(env: Env, s: State, open: set<Key>): set<Key>
    requires Named(env, s)
  {
    set k <- s.variants.Keys | k in open || !Body(s, k).End?
  }

  ghost predicate Coherent(env: Env, s: State, live: set<Key>, key: Key)
    requires Named(env, s) && key in s.variants
  {
    var body := env.originals[key.name].body;
    var held :=
      && Covered(env, s.variants.Keys, body, key.context)
      && s.bodies[s.variants[key]]
         == Fragment(s.variants[key], env.originals[key.name].attrs,
             Translate(env, s.variants, live, body, key.context))
      && ChecksPass(env.policy, body, key.context)
      && (HidesSalary(env.policy, body, key.context) ==> REMOVED_SALARY in s.removed);
    held
  }

  /** Between any two steps: variants under way still have their original body, all others are coherent. */
  ghost predicate Inv(env: Env, s: State, open: set<Key>) {
    && Named(env, s)
    && Distinct(s)
    && s.removed <= {REMOVED_SALARY}
    && open <= s.variants.Keys
    && (forall k <- open ::
          s.bodies[s.variants[k]] == env.originals[k.name].(name := s.variants[k]) && !Body(s, k).End?)
    && (forall k <- s.variants :: k !in open ==> Coherent(env, s, Live(env, s, open), k))
  }

  /** t comes after s: everything registered in s is still there, unchanged. */
  ghost predicate Extends(s: State, t: State) {
    && s.variants.Keys <= t.variants.Keys
    && (forall k <- s.variants :: t.variants[k] == s.variants[k])
    && (forall v <- s.bodies :: v in t.bodies && t.bodies[v] == s.bodies[v])
    && s.removed <= t.removed
  }

  ghost predicate NewOnesEmpty(env: Env, s: State, t: State)
    requires Named(env, t)
  {
    forall k <- t.variants :: k !in s.variants ==> Body(t, k).End?
  }

  // ------------------------------------------------------------------ stability

  /** Claiming further keys does not change a translation that is already covered. */
  lemma {:induction false} TranslateStable(env: Env, v: map<Key, string>, live: set<Key>,
                                           v': map<Key, string>, live': set<Key>, sels: SelectionSet, context: Context)
    requires Covered(env, v.Keys, sels, context)
    requires v.Keys <= v'.Keys && forall k <- v :: v'[k] == v[k] && (k in live <==> k in live')
    ensures Covered(env, v'.Keys, sels, context)
    ensures Translate(env, v, live, sels, context) == Translate(env, v', live', sels, context)
  {
    match sels
    case End =>
    case Field(name, id, _, sub, rest) =>
      TranslateStable(env, v, live, v', live', rest, context);
      if !Hidden(context, name) {
        TranslateStable(env, v, live, v', live', sub, Enter(env.policy, context, name, id));
      }
    case Inline(_, sub, rest) =>
      TranslateStable(env, v, live, v', live', sub, context);
      TranslateStable(env, v, live, v', live', rest, context);
    case Spread(_, _, rest) => TranslateStable(env, v, live, v', live', rest, context);
  }

  /** What is empty stays empty when fewer variants have content. */
  lemma {:induction false} EmptyStaysEmpty(env: Env, v: map<Key, string>, live: set<Key>, live': set<Key>,
                                           sels: SelectionSet, context: Context)
    requires live' <= live && Translate(env, v, live, sels, context).End?
    ensures Translate(env, v, live', sels, context).End?
  {
    match sels
    case End =>
    case Field(name, id, _, sub, rest) =>
      EmptyStaysEmpty(env, v, live, live', rest, context);
      if !Hidden(context, name) {
        EmptyStaysEmpty(env, v, live, live', sub, Enter(env.policy, context, name, id));
      }
    case Inline(_, sub, rest) =>
      EmptyStaysEmpty(env, v, live, live', sub, context);
      EmptyStaysEmpty(env, v, live, live', rest, context);
    case Spread(_, _, rest) => EmptyStaysEmpty(env, v, live, live', rest, context);
  }

  lemma LiveStable(env: Env, s: State, t: State, open: set<Key>)
    requires Named(env, s) && Named(env, t) && Extends(s, t) && open <= s.variants.Keys
    ensures forall k <- s.variants :: k in Live(env, s, open) <==> k in Live(env, t, open)
  {
  }

  // ------------------------------------------------------------------ one call

  /** What a call of Filter guarantees. */
  ghost predicate Result(env: Env, s: State, open: set<Key>, sels: SelectionSet, context: Context, f: Filtered) {
    && Inv(env, f.state, open)
    && Extends(s, f.state)
    && Covered(env, f.state.variants.Keys, sels, context)
    && f.sels == Translate(env, f.state.variants, Live(env, f.state, open), sels, context)
    && (f.sels.End? ==> NewOnesEmpty(env, s, f.state))
    && ChecksPass(env.policy, sels, context)
    && (HidesSalary(env.policy, sels, context) ==> REMOVED_SALARY in f.state.removed)
  }

  /** A result stays a result while the run goes on. */
  lemma ResultStable(env: Env, s: State, open: set<Key>, sels: SelectionSet, context: Context, f: Filtered, t: State)
    requires Result(env, s, open, sels, context, f) && Inv(env, t, open) && Extends(f.state, t)
    ensures Covered(env, t.variants.Keys, sels, context)
    ensures f.sels == Translate(env, t.variants, Live(env, t, open), sels, context)
  {
    LiveStable(env, f.state, t, open);
    TranslateStable(env, f.state.variants, Live(env, f.state, open), t.variants, Live(env, t, open), sels, context);
  }

  lemma NotingKeepsInv(env: Env, s: State, open: set<Key>)
    requires Inv(env, s, open)
    ensures Inv(env, s.(removed := s.removed + {REMOVED_SALARY}), open)
    ensures Extends(s, s.(removed := s.removed + {REMOVED_SALARY}))
  {
    var s' := s.(removed := s.removed + {REMOVED_SALARY});
    assert Live(env, s', open) == Live(env, s, open);
    forall k <- s'.variants | k !in open
      ensures Coherent(env, s', Live(env, s', open), k)
    {
      assert Coherent(env, s, Live(env, s, open), k);
    }
  }

  /** Two calls in a row. */
  lemma ResultsChain(env: Env, s: State, open: set<Key>, sub: SelectionSet, inner: Context, child: Filtered,
                     rest: SelectionSet, context: Context, f: Filtered)
    requires Result(env, s, open, sub, inner, child) && Result(env, child.state, open, rest, context, f)
    ensures Extends(s, f.state)
    ensures Covered(env, f.state.variants.Keys, sub, inner)
    ensures child.sels == Translate(env, f.state.variants, Live(env, f.state, open), sub, inner)
    ensures child.sels.End? && f.sels.End? ==> NewOnesEmpty(env, s, f.state)
    ensures HidesSalary(env.policy, sub, inner) ==> REMOVED_SALARY in f.state.removed
  {
    ResultStable(env, s, open, sub, inner, child, f.state);
  }

  lemma NestedFieldResult(env: Env, s: State, open: set<Key>, sels: SelectionSet, context: Context, child: Filtered,
      f: Filtered)
    requires sels.Field? && !sels.sub.End? && !Hidden(context, sels.name) && !CheckFails(env.policy, sels.name, sels.id)
    requires Result(env, s, open, sels.sub, Enter(env.policy, context, sels.name, sels.id), child)
    requires Result(env, child.state, open, sels.rest, context, f)
    ensures Result(env, s, open, sels, context, f.(sels := if child.sels.End? then f.sels else
                                                  Field(sels.name, sels.id, sels.attrs, child.sels, f.sels)))
  {
    ResultsChain(env, s, open, sels.sub, Enter(env.policy, context, sels.name, sels.id), child, sels.rest, context, f);
  }

  lemma InlineResult(env: Env, s: State, open: set<Key>, sels: SelectionSet, context: Context, child: Filtered,
      f: Filtered)
    requires sels.Inline?
    requires Result(env, s, open, sels.sub, context, child)
    requires Result(env, child.state, open, sels.rest, context, f)
    ensures Result(env, s, open, sels, context,
                   f.(sels := if child.sels.End? then f.sels else Inline(sels.attrs, child.sels, f.sels)))
  {
    ResultsChain(env, s, open, sels.sub, context, child, sels.rest, context, f);
  }

  /** What a call of EnsureVariant guarantees. */
  ghost predicate EnsureResult(env: Env, s: State, open: set<Key>, name: string, context: Context, e: Ensured) {
    var key := Key(name, context);
    && Inv(env, e.state, open)
    && Extends(s, e.state)
    && (name !in env.originals ==> e.keep && e.variant == name && e.state == s)
    && (name in env.originals ==>
          && key in e.state.variants && e.variant == e.state.variants[key]
          && (e.keep <==> key in Live(env, e.state, open)))
    && (!e.keep ==> NewOnesEmpty(env, s, e.state))
  }

  lemma SpreadResult(env: Env, s: State, open: set<Key>, sels: SelectionSet, context: Context, e: Ensured, f: Filtered)
    requires sels.Spread?
    requires Inv(env, s, open)
    requires EnsureResult(env, s, open, sels.name, context, e)
    requires Result(env, e.state, open, sels.rest, context, f)
    ensures Result(env, s, open, sels, context,
        f.(sels := if e.keep then Spread(e.variant, sels.attrs, f.sels) else f.sels))
  {
    LiveStable(env, e.state, f.state, open);
  }

  lemma HiddenFieldResult(env: Env, s: State, open: set<Key>, sels: SelectionSet, context: Context, f: Filtered)
    requires sels.Field? && Hidden(context, sels.name)
    requires Inv(env, s, open)
    requires Result(env, s.(removed := s.removed + {REMOVED_SALARY}), open, sels.rest, context, f)
    ensures Result(env, s, open, sels, context, f)
  {
    NotingKeepsInv(env, s, open);
  }

  lemma LeafFieldResult(env: Env, s: State, open: set<Key>, sels: SelectionSet, context: Context, f: Filtered)
    requires sels.Field? && sels.sub.End? && !Hidden(context, sels.name) && !CheckFails(env.policy, sels.name, sels.id)
    requires Result(env, s, open, sels.rest, context, f)
    ensures Result(env, s, open, sels, context, f.(sels := Field(sels.name, sels.id, sels.attrs, End, f.sels)))
  {
    assert !HidesSalary(env.policy, sels.sub, Enter(env.policy, context, sels.name, sels.id));
  }

  /** Every call of Filter keeps the invariant and returns the translation of its argument. */
  lemma {:induction false} FilterIsCoherent(env: Env, s: State, open: set<Key>, sels: SelectionSet, context: Context)
    requires Inv(env, s, open) && Filter(env, s, sels, context).Some?
    ensures Result(env, s, open, sels, context, Filter(env, s, sels, context).value)
    decreases |Unclaimed(env, s)|, Size(sels), 1
  {
    match sels
    case End =>
    case Field(name, id, attrs, sub, rest) => FieldIsCoherent(env, s, open, sels, context);
    case Inline(attrs, sub, rest) => InlineIsCoherent(env, s, open, sels, context);
    case Spread(name, attrs, rest) => SpreadIsCoherent(env, s, open, sels, context);
  }

  lemma {:induction false} InlineIsCoherent(env: Env, s: State, open: set<Key>, sels: SelectionSet, context: Context)
    requires sels.Inline? && Inv(env, s, open) && Filter(env, s, sels, context).Some?
    ensures Result(env, s, open, sels, context, Filter(env, s, sels, context).value)
    decreases |Unclaimed(env, s)|, Size(sels), 0
  {
    FilterIsCoherent(env, s, open, sels.sub, context);
    var child := Filter(env, s, sels.sub, context).value;
    MoreClaimed(env, s, child.state);
    FilterIsCoherent(env, child.state, open, sels.rest, context);
    InlineResult(env, s, open, sels, context, child, Filter(env, child.state, sels.rest, context).value);
  }

  lemma {:induction false} FieldIsCoherent(env: Env, s: State, open: set<Key>, sels: SelectionSet, context: Context)
    requires sels.Field? && Inv(env, s, open) && Filter(env, s, sels, context).Some?
    ensures Result(env, s, open, sels, context, Filter(env, s, sels, context).value)
    decreases |Unclaimed(env, s)|, Size(sels), 0
  {
    var inner := Enter(env.policy, context, sels.name, sels.id);
    if Hidden(context, sels.name) {
      NotingKeepsInv(env, s, open);
      var s' := s.(removed := s.removed + {REMOVED_SALARY});
      FilterIsCoherent(env, s', open, sels.rest, context);
      HiddenFieldResult(env, s, open, sels, context, Filter(env, s', sels.rest, context).value);
    } else if sels.sub.End? {
      FilterIsCoherent(env, s, open, sels.rest, context);
      LeafFieldResult(env, s, open, sels, context, Filter(env, s, sels.rest, context).value);
    } else {
      FilterIsCoherent(env, s, open, sels.sub, inner);
      var child := Filter(env, s, sels.sub, inner).value;
      MoreClaimed(env, s, child.state);
      FilterIsCoherent(env, child.state, open, sels.rest, context);
      NestedFieldResult(env, s, open, sels, context, child, Filter(env, child.state, sels.rest, context).value);
    }
  }

  lemma {:induction false} SpreadIsCoherent(env: Env, s: State, open: set<Key>, sels: SelectionSet, context: Context)
    requires sels.Spread? && Inv(env, s, open) && Filter(env, s, sels, context).Some?
    ensures Result(env, s, open, sels, context, Filter(env, s, sels, context).value)
    decreases |Unclaimed(env, s)|, Size(sels), 0
  {
    EnsureIsCoherent(env, s, open, sels.name, context);
    var e := EnsureVariant(env, s, sels.name, context).value;
    MoreClaimed(env, s, e.state);
    FilterIsCoherent(env, e.state, open, sels.rest, context);
    SpreadResult(env, s, open, sels, context, e, Filter(env, e.state, sels.rest, context).value);
  }

  lemma {:induction false} EnsureIsCoherent(env: Env, s: State, open: set<Key>, name: string, context: Context)
    requires Inv(env, s, open) && EnsureVariant(env, s, name, context).Some?
    ensures EnsureResult(env, s, open, name, context, EnsureVariant(env, s, name, context).value)
    decreases |Unclaimed(env, s)|, 0, 1
  {
    if name in env.originals && Key(name, context) !in s.variants {
      NewVariantIsCoherent(env, s, open, Key(name, context));
    }
  }

  lemma {:induction false} NewVariantIsCoherent(env: Env, s: State, open: set<Key>, key: Key)
    requires Inv(env, s, open) && EnsureVariant(env, s, key.name, key.context).Some?
    requires key.name in env.originals && key !in s.variants
    ensures EnsureResult(env, s, open, key.name, key.context, EnsureVariant(env, s, key.name, key.context).value)
    decreases |Unclaimed(env, s)|, 0, 0
  {
    var claimed, body := Claim(env, s, key), env.originals[key.name].body;
    ClaimShrinks(env, s, key);
    var f := Filter(env, claimed, body, key.context).value;
    EnsureNew(env, s, key, f);
    if body.End? {
      CloseEmptyOriginal(env, s, open, key);
    } else {
      ClaimKeepsInv(env, s, open, key);
      FilterIsCoherent(env, claimed, open + {key}, body, key.context);
      CloseKeepsInv(env, s, open, key, f);
    }
    ClosedResult(env, s, open, key, f);
  }

  lemma ClosedResult(env: Env, s: State, open: set<Key>, key: Key, f: Filtered)
    requires key.name in env.originals && key !in s.variants && key !in open
    requires Inv(env, Close(env, s, key, f), open) && Extends(s, Close(env, s, key, f))
    requires key in f.state.variants && f.state.variants[key] == Claim(env, s, key).variants[key]
    requires f.sels.End? ==> NewOnesEmpty(env, s, Close(env, s, key, f))
    ensures EnsureResult(env, s, open, key.name, key.context,
                         Ensured(Close(env, s, key, f), f.state.variants[key], !f.sels.End?))
  {
  }

  /** The outcome of making a new variant, from the outcome of filtering its body. */
  lemma EnsureNew(env: Env, s: State, key: Key, f: Filtered)
    requires key.name in env.originals && key !in s.variants
    requires Filter(env, Claim(env, s, key), env.originals[key.name].body, key.context) == Some(f)
    ensures EnsureVariant(env, s, key.name, key.context)
            == Some(Ensured(Close(env, s, key, f), Claim(env, s, key).variants[key], !f.sels.End?))
  {
    assert Key(key.name, key.context) == key;
  }

  /** A coherent variant stays coherent when later keys are claimed. */
  lemma CoherentCarries(env: Env, s: State, live: set<Key>, t: State, live': set<Key>, key: Key)
    requires Named(env, s) && Named(env, t) && key in s.variants && Coherent(env, s, live, key)
    requires Extends(s, t) && forall k <- s.variants :: k in live <==> k in live'
    ensures Coherent(env, t, live', key)
  {
    TranslateStable(env, s.variants, live, t.variants, live', env.originals[key.name].body, key.context);
  }

  lemma ClaimExtends(env: Env, s: State, key: Key)
    requires Named(env, s) && key.name in env.originals && key !in s.variants
    ensures Named(env, Claim(env, s, key)) && Extends(s, Claim(env, s, key))
    ensures Distinct(s) ==> Distinct(Claim(env, s, key))
  {
  }

  lemma ClaimKeepsInv(env: Env, s: State, open: set<Key>, key: Key)
    requires Inv(env, s, open) && key.name in env.originals && key !in s.variants
    requires !env.originals[key.name].body.End?
    ensures Inv(env, Claim(env, s, key), open + {key})
    ensures Extends(s, Claim(env, s, key))
  {
    ClaimExtends(env, s, key);
    var c := Claim(env, s, key);
    LiveStable(env, s, c, open);
    forall k <- c.variants | k !in open + {key}
      ensures Coherent(env, c, Live(env, c, open + {key}), k)
    {
      CoherentCarries(env, s, Live(env, s, open), c, Live(env, c, open + {key}), k);
    }
  }

  lemma CloseEmptyOriginal(env: Env, s: State, open: set<Key>, key: Key)
    requires Inv(env, s, open) && key.name in env.originals && key !in s.variants
    requires env.originals[key.name].body.End?
    ensures Inv(env, Claim(env, s, key), open)
    ensures Extends(s, Claim(env, s, key))
    ensures Close(env, s, key, Filtered(Claim(env, s, key), End)) == Claim(env, s, key)
  {
    ClaimExtends(env, s, key);
    var c := Claim(env, s, key);
    LiveStable(env, s, c, open);
    forall k <- c.variants | k !in open && k != key
      ensures Coherent(env, c, Live(env, c, open), k)
    {
      CoherentCarries(env, s, Live(env, s, open), c, Live(env, c, open), k);
    }
    assert Coherent(env, c, Live(env, c, open), key);
  }

  function Close(env: Env, s: State, key: Key, f: Filtered): State
    requires key.name in env.originals
  {
    var variant := Claim(env, s, key).variants[key];
    f.state.(bodies := f.state.bodies[variant := env.originals[key.name].(name := variant, body := f.sels)])
  }

  lemma CloseExtends(env: Env, s: State, open: set<Key>, key: Key, f: Filtered)
    requires Inv(env, s, open) && key.name in env.originals && key !in s.variants
    requires Result(env, Claim(env, s, key), open + {key}, env.originals[key.name].body, key.context, f)
    requires Extends(s, Claim(env, s, key))
    ensures Named(env, Close(env, s, key, f)) && Distinct(Close(env, s, key, f))
    ensures Extends(s, Close(env, s, key, f))
  {
    assert Claim(env, s, key).variants[key] !in s.bodies;
    assert Extends(s, f.state);
  }

  lemma CloseLive(env: Env, s: State, open: set<Key>, key: Key, f: Filtered)
    requires key.name in env.originals && Named(env, f.state) && Distinct(f.state) && Named(env, Close(env, s, key, f))
    requires key in f.state.variants && f.state.variants[key] == Claim(env, s, key).variants[key] && key !in open
    ensures Live(env, Close(env, s, key, f), open)
            == Live(env, f.state, open + {key}) - if f.sels.End? then {key} else {}
  {
    var t := Close(env, s, key, f);
    forall k <- t.variants | k != key
      ensures Body(t, k) == Body(f.state, k)
    {
      assert f.state.variants[k] != f.state.variants[key];
    }
  }

  /** Installing the filtered body of a variant. If it came out empty, nothing refers to it: what was there
      before could not know it, and everything claimed meanwhile is empty as well. */
  lemma CloseKeepsInv(env: Env, s: State, open: set<Key>, key: Key, f: Filtered)
    requires Inv(env, s, open) && key.name in env.originals && key !in s.variants
    requires Result(env, Claim(env, s, key), open + {key}, env.originals[key.name].body, key.context, f)
    requires Extends(s, Claim(env, s, key))
    ensures Inv(env, Close(env, s, key, f), open)
    ensures Extends(s, Close(env, s, key, f))
    ensures f.sels.End? ==> NewOnesEmpty(env, s, Close(env, s, key, f))
  {
    CloseExtends(env, s, open, key, f);
    if f.sels.End? {
      CloseEmpty(env, s, open, key, f);
    } else {
      CloseNonEmpty(env, s, open, key, f);
    }
  }

  lemma CloseNonEmpty(env: Env, s: State, open: set<Key>, key: Key, f: Filtered)
    requires Inv(env, s, open) && key.name in env.originals && key !in s.variants
    requires Result(env, Claim(env, s, key), open + {key}, env.originals[key.name].body, key.context, f)
    requires Extends(s, Claim(env, s, key))
    requires !f.sels.End?
    ensures Inv(env, Close(env, s, key, f), open)
  {
    var t := Close(env, s, key, f);
    CloseExtends(env, s, open, key, f);
    CloseLive(env, s, open, key, f);
    assert Live(env, t, open) == Live(env, f.state, open + {key});
    forall k <- t.variants | k !in open && k != key
      ensures Coherent(env, t, Live(env, t, open), k)
    {
      assert Coherent(env, f.state, Live(env, f.state, open + {key}), k);
    }
    assert Coherent(env, t, Live(env, t, open), key);
  }

  lemma CloseEmpty(env: Env, s: State, open: set<Key>, key: Key, f: Filtered)
    requires Inv(env, s, open) && key.name in env.originals && key !in s.variants
    requires Result(env, Claim(env, s, key), open + {key}, env.originals[key.name].body, key.context, f)
    requires Extends(s, Claim(env, s, key))
    requires f.sels.End?
    ensures Inv(env, Close(env, s, key, f), open)
    ensures NewOnesEmpty(env, s, Close(env, s, key, f))
  {
    var t := Close(env, s, key, f);
    CloseExtends(env, s, open, key, f);
    forall k <- t.variants | k !in open
      ensures Coherent(env, t, Live(env, t, open), k)
    {
      if k in s.variants {
        CloseEmptyOld(env, s, open, t, k);
      } else {
        CloseEmptyNew(env, s, open, key, f, k);
      }
    }
    CloseNewOnesEmpty(env, s, open, key, f);
  }

  lemma CloseNewOnesEmpty(env: Env, s: State, open: set<Key>, key: Key, f: Filtered)
    requires key.name in env.originals && Named(env, f.state) && Distinct(f.state) && Named(env, Close(env, s, key, f))
    requires NewOnesEmpty(env, Claim(env, s, key), f.state) && f.sels.End?
    requires key in f.state.variants && f.state.variants[key] == Claim(env, s, key).variants[key]
    ensures NewOnesEmpty(env, s, Close(env, s, key, f))
  {
    var t := Close(env, s, key, f);
    forall k <- t.variants | k !in s.variants
      ensures Body(t, k).End?
    {
      assert k != key ==> f.state.variants[k] != f.state.variants[key];
    }
  }

  lemma CloseEmptyOld(env: Env, s: State, open: set<Key>, t: State, k: Key)
    requires Inv(env, s, open) && Named(env, t) && Extends(s, t) && k in s.variants && k !in open
    ensures Coherent(env, t, Live(env, t, open), k)
  {
    LiveStable(env, s, t, open);
    CoherentCarries(env, s, Live(env, s, open), t, Live(env, t, open), k);
  }

  lemma CloseEmptyNew(env: Env, s: State, open: set<Key>, key: Key, f: Filtered, k: Key)
    requires Inv(env, s, open) && key.name in env.originals && key !in s.variants
    requires Result(env, Claim(env, s, key), open + {key}, env.originals[key.name].body, key.context, f)
    requires Extends(s, Claim(env, s, key)) && Named(env, Close(env, s, key, f))
    requires f.sels.End? && k in f.state.variants && k !in s.variants && k !in open
    ensures Coherent(env, Close(env, s, key, f), Live(env, Close(env, s, key, f), open), k)
  {
    var t := Close(env, s, key, f);
    var before, after := Live(env, f.state, open + {key}), Live(env, t, open);
    CloseLive(env, s, open, key, f);
    assert k != key ==> Coherent(env, f.state, before, k);
    EmptyStaysEmpty(env, t.variants, before, after, env.originals[k.name].body, k.context);
  }
}
