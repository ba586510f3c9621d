// What a filtered document means: it expands to the plainly filtered expansion of the original.
module VariantTheorems {
  import opened Document
  import opened SalaryPolicy
  import opened VariantFilter
  import opened VariantCoherence
  import opened Wrappers

  // ------------------------------------------------------------------ what one call reaches

  /** Closed, as far as the finished variants go. */
  ghost predicate ClosedSoFar(env: Env, s: State, open: set<Key>, names: set<string>)
    requires Named(env, s)
  {
    forall k <- s.variants :: k !in open && s.variants[k] in names ==> Spreads(Body(s, k)) - {""} <= names
  }

  ghost predicate NewOnesReached(env: Env, s: State, t: State, names: set<string>)
    requires Named(env, t)
  {
    forall k <- t.variants :: k !in s.variants && !Body(t, k).End? ==> t.variants[k] in names
  }

  lemma ClosedBefore(env: Env, s: State, t: State, open: set<Key>, names: set<string>)
    requires Named(env, s) && Named(env, t) && Extends(s, t) && ClosedSoFar(env, t, open, names)
    ensures ClosedSoFar(env, s, open, names)
  {
    forall k <- s.variants
      ensures Body(s, k) == Body(t, k)
    {
    }
  }

  lemma ReachedChain(env: Env, s: State, t: State, u: State, names: set<string>)
    requires Named(env, t) && Named(env, u) && Extends(t, u)
    requires NewOnesReached(env, s, t, names) && NewOnesReached(env, t, u, names)
    ensures NewOnesReached(env, s, u, names)
  {
    forall k <- t.variants
      ensures Body(t, k) == Body(u, k)
    {
    }
  }

  /** Every variant with content that a call makes is reachable from what the call returns. */
  lemma {:induction false} FilterReaches(env: Env, s: State, open: set<Key>, sels: SelectionSet, context: Context,
      names: set<string>)
    requires Inv(env, s, open) && "" !in env.originals && Filter(env, s, sels, context).Some?
    requires Named(env, Filter(env, s, sels, context).value.state)
    requires ClosedSoFar(env, Filter(env, s, sels, context).value.state, open, names)
    requires Spreads(Filter(env, s, sels, context).value.sels) - {""} <= names
    ensures NewOnesReached(env, s, Filter(env, s, sels, context).value.state, names)
    decreases |Unclaimed(env, s)|, Size(sels), 2
  {
    match sels
    case End =>
    case Field(_, _, _, _, _) => FieldReaches(env, s, open, sels, context, names);
    case Inline(_, sub, rest) => PairReaches(env, s, open, sub, context, rest, context, names);
    case Spread(name, _, rest) => SpreadReaches(env, s, open, name, rest, context, names);
  }

  lemma {:induction false} FieldReaches(env: Env, s: State, open: set<Key>, sels: SelectionSet, context: Context,
      names: set<string>)
    requires Inv(env, s, open) && "" !in env.originals && sels.Field? && Filter(env, s, sels, context).Some?
    requires Named(env, Filter(env, s, sels, context).value.state)
    requires ClosedSoFar(env, Filter(env, s, sels, context).value.state, open, names)
    requires Spreads(Filter(env, s, sels, context).value.sels) - {""} <= names
    ensures NewOnesReached(env, s, Filter(env, s, sels, context).value.state, names)
    decreases |Unclaimed(env, s)|, Size(sels), 1
  {
    if Hidden(context, sels.name) {
      NotingKeepsInv(env, s, open);
      FilterReaches(env, s.(removed := s.removed + {REMOVED_SALARY}), open, sels.rest, context, names);
    } else if sels.sub.End? {
      FilterReaches(env, s, open, sels.rest, context, names);
    } else {
      PairReaches(env, s, open, sels.sub, Enter(env.policy, context, sels.name, sels.id), sels.rest, context, names);
    }
  }

  lemma {:induction false} PairReaches(env: Env, s: State, open: set<Key>, sub: SelectionSet, inner: Context,
                                       rest: SelectionSet, context: Context, names: set<string>)
    requires Inv(env, s, open) && "" !in env.originals && Filter(env, s, sub, inner).Some?
    requires Filter(env, Filter(env, s, sub, inner).value.state, rest, context).Some?
    requires Named(env, Filter(env, Filter(env, s, sub, inner).value.state, rest, context).value.state)
    requires ClosedSoFar(env, Filter(env, Filter(env, s, sub, inner).value.state, rest, context).value.state, open,
        names)
    requires Spreads(Filter(env, s, sub, inner).value.sels) - {""} <= names
    requires Spreads(Filter(env, Filter(env, s, sub, inner).value.state, rest, context).value.sels) - {""} <= names
    ensures NewOnesReached(env, s, Filter(env, Filter(env, s, sub, inner).value.state, rest, context).value.state,
        names)
    decreases |Unclaimed(env, s)|, Size(sub) + Size(rest) + 1, 0
  {
    FilterIsCoherent(env, s, open, sub, inner);
    var child := Filter(env, s, sub, inner).value;
    MoreClaimed(env, s, child.state);
    FilterIsCoherent(env, child.state, open, rest, context);
    var f := Filter(env, child.state, rest, context).value;
    ClosedBefore(env, child.state, f.state, open, names);
    FilterReaches(env, s, open, sub, inner, names);
    FilterReaches(env, child.state, open, rest, context, names);
    ReachedChain(env, s, child.state, f.state, names);
  }

  lemma {:induction false} SpreadReaches(env: Env, s: State, open: set<Key>, name: string, rest: SelectionSet,
                                         context: Context, names: set<string>)
    requires Inv(env, s, open) && "" !in env.originals && EnsureVariant(env, s, name, context).Some?
    requires Filter(env, EnsureVariant(env, s, name, context).value.state, rest, context).Some?
    requires Named(env, Filter(env, EnsureVariant(env, s, name, context).value.state, rest, context).value.state)
    requires ClosedSoFar(env, Filter(env, EnsureVariant(env, s, name, context).value.state, rest, context).value.state,
        open, names)
    requires var f := Filter(env, EnsureVariant(env, s, name, context).value.state, rest, context).value;
      Spreads(f.sels) - {""} <= names
    requires EnsureVariant(env, s, name, context).value.keep && EnsureVariant(env, s, name, context).value.variant != ""
             ==> EnsureVariant(env, s, name, context).value.variant in names
    ensures NewOnesReached(env, s,
        Filter(env, EnsureVariant(env, s, name, context).value.state, rest, context).value.state, names)
    decreases |Unclaimed(env, s)|, Size(rest) + 1, 0
  {
    var e := EnsureVariant(env, s, name, context).value;
    EnsureIsCoherent(env, s, open, name, context);
    MoreClaimed(env, s, e.state);
    RestExtends(env, e.state, open, rest, context, names);
    EnsureReaches(env, s, open, name, context, names);
    FilterReaches(env, e.state, open, rest, context, names);
    ReachedChain(env, s, e.state, Filter(env, e.state, rest, context).value.state, names);
  }

  lemma RestExtends(env: Env, s: State, open: set<Key>, rest: SelectionSet, context: Context, names: set<string>)
    requires Inv(env, s, open) && Filter(env, s, rest, context).Some?
    requires Named(env, Filter(env, s, rest, context).value.state)
    requires ClosedSoFar(env, Filter(env, s, rest, context).value.state, open, names)
    ensures Extends(s, Filter(env, s, rest, context).value.state)
    ensures ClosedSoFar(env, s, open, names)
  {
    FilterIsCoherent(env, s, open, rest, context);
    ClosedBefore(env, s, Filter(env, s, rest, context).value.state, open, names);
  }

  lemma {:induction false} EnsureReaches(env: Env, s: State, open: set<Key>, name: string, context: Context,
      names: set<string>)
    requires Inv(env, s, open) && "" !in env.originals && EnsureVariant(env, s, name, context).Some?
    requires EnsureResult(env, s, open, name, context, EnsureVariant(env, s, name, context).value)
    requires ClosedSoFar(env, EnsureVariant(env, s, name, context).value.state, open, names)
    requires EnsureVariant(env, s, name, context).value.keep && name in env.originals
             ==> EnsureVariant(env, s, name, context).value.variant in names
    ensures NewOnesReached(env, s, EnsureVariant(env, s, name, context).value.state, names)
    decreases |Unclaimed(env, s)|, 0, 1
  {
    var e := EnsureVariant(env, s, name, context).value;
    if e.keep && name in env.originals && Key(name, context) !in s.variants {
      NewVariantReaches(env, s, open, Key(name, context), names);
    }
  }

  lemma {:induction false} NewVariantReaches(env: Env, s: State, open: set<Key>, key: Key, names: set<string>)
    requires Inv(env, s, open) && "" !in env.originals && EnsureVariant(env, s, key.name, key.context).Some?
    requires key.name in env.originals && key !in s.variants
    requires EnsureVariant(env, s, key.name, key.context).value.keep
    requires Named(env, EnsureVariant(env, s, key.name, key.context).value.state)
    requires ClosedSoFar(env, EnsureVariant(env, s, key.name, key.context).value.state, open, names)
    requires EnsureVariant(env, s, key.name, key.context).value.variant in names
    ensures NewOnesReached(env, s, EnsureVariant(env, s, key.name, key.context).value.state, names)
    decreases |Unclaimed(env, s)|, 0, 0
  {
    var claimed, body := Claim(env, s, key), env.originals[key.name].body;
    ClaimShrinks(env, s, key);
    var f := Filter(env, claimed, body, key.context).value;
    EnsureNew(env, s, key, f);
    ClaimKeepsInv(env, s, open, key);
    FilterIsCoherent(env, claimed, open + {key}, body, key.context);
    ClosedInside(env, s, open, key, f, names);
    FilterReaches(env, claimed, open + {key}, body, key.context, names);
    ReachedOutside(env, s, key, f, names);
  }

  lemma CloseBodies(env: Env, s: State, key: Key, f: Filtered, k: Key)
    requires key.name in env.originals && Named(env, f.state) && Distinct(f.state)
    requires key in f.state.variants && f.state.variants[key] == Claim(env, s, key).variants[key]
    requires k in f.state.variants
    ensures Close(env, s, key, f).variants[k] in Close(env, s, key, f).bodies
    ensures Body(Close(env, s, key, f), k) == if k == key then f.sels else Body(f.state, k)
  {
    assert k != key ==> f.state.variants[k] != f.state.variants[key];
  }

  lemma ClosedInside(env: Env, s: State, open: set<Key>, key: Key, f: Filtered, names: set<string>)
    requires key.name in env.originals && Named(env, f.state) && Distinct(f.state)
    requires key in f.state.variants && f.state.variants[key] == Claim(env, s, key).variants[key] && key !in open
    requires Named(env, Close(env, s, key, f)) && ClosedSoFar(env, Close(env, s, key, f), open, names)
    requires f.state.variants[key] in names
    ensures ClosedSoFar(env, f.state, open + {key}, names)
    ensures Spreads(f.sels) - {""} <= names
  {
    CloseBodies(env, s, key, f, key);
    forall k <- f.state.variants | k !in open + {key} && f.state.variants[k] in names
      ensures Spreads(Body(f.state, k)) - {""} <= names
    {
      CloseBodies(env, s, key, f, k);
    }
  }

  lemma ReachedOutside(env: Env, s: State, key: Key, f: Filtered, names: set<string>)
    requires key.name in env.originals && Named(env, f.state) && Distinct(f.state)
    requires key in f.state.variants && f.state.variants[key] == Claim(env, s, key).variants[key]
    requires Named(env, Close(env, s, key, f)) && NewOnesReached(env, Claim(env, s, key), f.state, names)
    requires f.state.variants[key] in names
    ensures NewOnesReached(env, s, Close(env, s, key, f), names)
  {
    var t := Close(env, s, key, f);
    forall k <- t.variants | k !in s.variants && !Body(t, k).End?
      ensures t.variants[k] in names
    {
      CloseBodies(env, s, key, f, k);
    }
  }

  // ------------------------------------------------------------------ refinement of one selection set

  /** The retained system: a closed set of names, each naming its finished variant. */
  ghost predicate System(env: Env, s: State, fragments: Fragments, names: set<string>)
    requires Named(env, s)
  {
    && ClosedSoFar(env, s, {}, names)
    && forall v <- names :: v in s.bodies && !s.bodies[v].body.End? ==> v in fragments && fragments[v] == s.bodies[v]
  }

  /** Expanding the translation gives the filtered expansion. */
  lemma {:induction false} TranslationRefines(env: Env, s: State, fragments: Fragments, names: set<string>,
                                              sels: SelectionSet, context: Context, t: Tree)
    requires Inv(env, s, {}) && "" !in env.originals && System(env, s, fragments, names)
    requires Covered(env, s.variants.Keys, sels, context) && ExpandsTo(env.originals, sels, t)
    requires Spreads(Translate(env, s.variants, Live(env, s, {}), sels, context)) - {""} <= names
    ensures ExpandsTo(fragments, Translate(env, s.variants, Live(env, s, {}), sels, context),
                      FilterTree(env.policy, t, context))
    decreases t
  {
    var live := Live(env, s, {});
    match sels
    case End =>
    case Field(name, id, _, sub, rest) =>
      TranslationRefines(env, s, fragments, names, rest, context, t.rest);
      if !Hidden(context, name) {
        TranslationRefines(env, s, fragments, names, sub, Enter(env.policy, context, name, id), t.sub);
      }
    case Inline(_, sub, rest) =>
      TranslationRefines(env, s, fragments, names, sub, context, t.sub);
      TranslationRefines(env, s, fragments, names, rest, context, t.rest);
    case Spread(name, _, rest) =>
      TranslationRefines(env, s, fragments, names, rest, context, t.rest);
      var key := Key(name, context);
      assert Coherent(env, s, live, key);
      assert key in live ==> s.variants[key] in names;
      TranslationRefines(env, s, fragments, names, env.originals[name].body, context, t.sub);
  }

  // ------------------------------------------------------------------ removals and failures of one call

  /** In a finished run a refused salary anywhere in an expansion has been noted, and the policy answered. */
  lemma {:induction false} AllNoted(env: Env, s: State, sels: SelectionSet, context: Context, t: Tree)
    requires Inv(env, s, {}) && Covered(env, s.variants.Keys, sels, context) && ExpandsTo(env.originals, sels, t)
    requires ChecksPass(env.policy, sels, context)
    requires HidesSalary(env.policy, sels, context) ==> REMOVED_SALARY in s.removed
    ensures HoldsRefusedSalary(env.policy, t, context) ==> REMOVED_SALARY in s.removed
    ensures !PolicyFails(env.policy, t, context)
    decreases t
  {
    match sels
    case End =>
    case Field(name, id, _, sub, rest) =>
      AllNoted(env, s, rest, context, t.rest);
      if !Hidden(context, name) {
        AllNoted(env, s, sub, Enter(env.policy, context, name, id), t.sub);
      }
    case Inline(_, sub, rest) =>
      AllNoted(env, s, sub, context, t.sub);
      AllNoted(env, s, rest, context, t.rest);
    case Spread(name, _, rest) =>
      AllNoted(env, s, rest, context, t.rest);
      assert Coherent(env, s, Live(env, s, {}), Key(name, context));
      AllNoted(env, s, env.originals[name].body, context, t.sub);
  }

  /** The filter succeeds, and notes a removal only if there is one. */
  ghost predicate NotesOnly(env: Env, s: State, sels: SelectionSet, context: Context, refused: bool) {
    && Filter(env, s, sels, context).Some?
    && (REMOVED_SALARY in Filter(env, s, sels, context).value.state.removed ==> refused || REMOVED_SALARY in s.removed)
  }

  /** The filter fails only when the policy fails on the expansion, and notes a removal only when the
      expansion holds a refused salary. */
  lemma {:induction false} NothingElseNoted(env: Env, s: State, sels: SelectionSet, context: Context, t: Tree)
    requires ExpandsTo(env.originals, sels, t) && !PolicyFails(env.policy, t, context)
    ensures NotesOnly(env, s, sels, context, HoldsRefusedSalary(env.policy, t, context))
    decreases |Unclaimed(env, s)|, Size(sels), 1
  {
    match sels
    case End =>
    case Field(name, id, _, sub, rest) =>
      if Hidden(context, name) {
        NothingElseNoted(env, s.(removed := s.removed + {REMOVED_SALARY}), rest, context, t.rest);
      } else if sub.End? {
        NothingElseNoted(env, s, rest, context, t.rest);
      } else {
        PairNoted(env, s, sub, Enter(env.policy, context, name, id), t.sub, rest, context, t.rest);
      }
    case Inline(_, sub, rest) => PairNoted(env, s, sub, context, t.sub, rest, context, t.rest);
    case Spread(name, _, rest) => SpreadNoted(env, s, name, t.sub, rest, context, t.rest);
  }

  lemma {:induction false} SpreadNoted(env: Env, s: State, name: string, t: Tree, rest: SelectionSet, context: Context,
      u: Tree)
    requires name in env.originals && ExpandsTo(env.originals, env.originals[name].body, t)
    requires ExpandsTo(env.originals, rest, u)
    requires !PolicyFails(env.policy, t, context) && !PolicyFails(env.policy, u, context)
    ensures EnsureVariant(env, s, name, context).Some?
    ensures REMOVED_SALARY in EnsureVariant(env, s, name, context).value.state.removed
            ==> HoldsRefusedSalary(env.policy, t, context) || REMOVED_SALARY in s.removed
    ensures NotesOnly(env, EnsureVariant(env, s, name, context).value.state, rest, context,
        HoldsRefusedSalary(env.policy, u, context))
    decreases |Unclaimed(env, s)|, Size(rest) + 1, 0
  {
    NothingElseEnsured(env, s, name, context, t);
    var e := EnsureVariant(env, s, name, context).value;
    MoreClaimed(env, s, e.state);
    NothingElseNoted(env, e.state, rest, context, u);
  }

  lemma {:induction false} PairNoted(env: Env, s: State, sub: SelectionSet, inner: Context, t: Tree,
                                     rest: SelectionSet, context: Context, u: Tree)
    requires ExpandsTo(env.originals, sub, t) && !PolicyFails(env.policy, t, inner)
    requires ExpandsTo(env.originals, rest, u) && !PolicyFails(env.policy, u, context)
    ensures NotesOnly(env, s, sub, inner, HoldsRefusedSalary(env.policy, t, inner))
    ensures NotesOnly(env, Filter(env, s, sub, inner).value.state, rest, context,
        HoldsRefusedSalary(env.policy, u, context))
    decreases |Unclaimed(env, s)|, Size(sub) + Size(rest) + 1, 0
  {
    NothingElseNoted(env, s, sub, inner, t);
    MoreClaimed(env, s, Filter(env, s, sub, inner).value.state);
    NothingElseNoted(env, Filter(env, s, sub, inner).value.state, rest, context, u);
  }

  lemma {:induction false} NothingElseEnsured(env: Env, s: State, name: string, context: Context, t: Tree)
    requires name in env.originals && ExpandsTo(env.originals, env.originals[name].body, t)
    requires !PolicyFails(env.policy, t, context)
    ensures EnsureVariant(env, s, name, context).Some?
    ensures REMOVED_SALARY in EnsureVariant(env, s, name, context).value.state.removed
            ==> HoldsRefusedSalary(env.policy, t, context) || REMOVED_SALARY in s.removed
    decreases |Unclaimed(env, s)|, 0, 0
  {
    var key := Key(name, context);
    if key !in s.variants {
      ClaimShrinks(env, s, key);
      NothingElseNoted(env, Claim(env, s, key), env.originals[name].body, context, t);
    }
  }
}
