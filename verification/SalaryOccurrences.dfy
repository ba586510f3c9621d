// What the salary filter does, told field by field: which occurrences of fields in the expanded operations stay, which
// are listed as removed, and on which the filter fails. Nothing here mentions how the filter goes about it.
module SalaryOccurrences {
  import opened Document
  import opened SalaryPolicy
  import opened VariantFilter
  import opened FilteredDocument

  /** A field or a group on the way down an expanded operation. */
  datatype Step = FieldStep(name: string, id: IdArgument, attrs: string) | GroupStep(origin: Origin)

  /** A field, with everything that encloses it, from the operation down. */
  type Occurrence = seq<Step>

  /** The fields without selections, in order; `above` encloses them all. */
  function LeavesOf(t: Tree, above: Occurrence): seq<Occurrence> {
    match t
    case Nil => []
    case Node(name, id, attrs, sub, rest) =>
      var here := above + [FieldStep(name, id, attrs)];
      (if sub.Nil? then [here] else LeavesOf(sub, here)) + LeavesOf(rest, above)
    case Group(origin, sub, rest) => LeavesOf(sub, above + [GroupStep(origin)]) + LeavesOf(rest, above)
  }

  /** All fields, at any depth. */
  function FieldsOf(t: Tree, above: Occurrence): seq<Occurrence> {
    match t
    case Nil => []
    case Node(name, id, attrs, sub, rest) =>
      var here := above + [FieldStep(name, id, attrs)];
      [here] + FieldsOf(sub, here) + FieldsOf(rest, above)
    case Group(origin, sub, rest) => FieldsOf(sub, above + [GroupStep(origin)]) + FieldsOf(rest, above)
  }

  predicate IsField(step: Step, name: string) {
    step.FieldStep? && step.name == name
  }

  /** o[j] is the nearest employeeByID above o[i]. */
  predicate NearestEmployee(o: Occurrence, j: nat, i: nat) {
    j < i <= |o| && IsField(o[j], "employeeByID") && forall k | j < k < i :: !IsField(o[k], "employeeByID")
  }

  /** What the policy says of the employee that the field asks for: by the text of its id, if it has one. */
  function Answer(policy: Policy, employee: Step): Verdict
    requires employee.FieldStep?
  {
    policy.check(policy.user, if employee.id.Text? then employee.id.value else "")
  }

  /** o[i] is a salary, and the policy does not allow it for the nearest employeeByID above. */
  predicate RefusedAt(policy: Policy, o: Occurrence, i: nat) {
    i < |o| && IsField(o[i], "salary") && exists j | 0 <= j < i :: RefusedBy(policy, o, j, i)
  }

  predicate RefusedBy(policy: Policy, o: Occurrence, j: nat, i: nat) {
    NearestEmployee(o, j, i) && !Answer(policy, o[j]).Allowed?
  }

  /** The field itself is. */
  predicate RefusedSalary(policy: Policy, o: Occurrence) {
    o != [] && RefusedAt(policy, o, |o| - 1)
  }

  /** The field or one above it is a refused salary. */
  predicate Refused(policy: Policy, o: Occurrence) {
    exists i | 0 <= i < |o| :: RefusedAt(policy, o, i)
  }

  function Permitted(policy: Policy, os: seq<Occurrence>): seq<Occurrence> {
    if os == [] then [] else (if Refused(policy, os[0]) then [] else [os[0]]) + Permitted(policy, os[1..])
  }

  /** The field is an employeeByID on which the policy fails. */
  predicate FailsOn(policy: Policy, o: Occurrence) {
    o != [] && IsField(o[|o| - 1], "employeeByID") && Answer(policy, o[|o| - 1]).Failed?
  }

  // ------------------------------------------------------------------ the filter's context

  /** The context in which the filter finds what is enclosed. */
  ghost function ContextOf(policy: Policy, above: Occurrence): Context {
    if above == [] then TOP
    else
      var last := above[|above| - 1];
      var outer := ContextOf(policy, above[..|above| - 1]);
      if last.FieldStep? then Enter(policy, outer, last.name, last.id) else outer
  }

  lemma ContextNext(policy: Policy, above: Occurrence, step: Step)
    ensures ContextOf(policy, above + [step])
      == if step.FieldStep? then Enter(policy, ContextOf(policy, above), step.name, step.id)
         else ContextOf(policy, above)
  {
    assert (above + [step])[..|above|] == above;
  }

  /** What the context knows: whether there is an employeeByID above, and what the policy says of the nearest. */
  lemma {:induction false} ContextKnows(policy: Policy, above: Occurrence)
    ensures ContextOf(policy, above).inEmployeeByID <==> exists j: nat :: NearestEmployee(above, j, |above|)
    ensures forall j: nat | NearestEmployee(above, j, |above|) ::
      ContextOf(policy, above).salaryAllowed == Answer(policy, above[j]).Allowed?
  {
    if above != [] {
      var front, last := above[..|above| - 1], |above| - 1;
      ContextKnows(policy, front);
      if IsField(above[last], "employeeByID") {
        assert NearestEmployee(above, last, |above|);
      } else {
        forall j: nat
          ensures NearestEmployee(above, j, |above|) <==> NearestEmployee(front, j, |front|)
        {
        }
      }
    }
  }

  lemma NearestIsAbove(o: Occurrence, j: nat, i: nat)
    requires i <= |o|
    ensures NearestEmployee(o, j, i) <==> NearestEmployee(o[..i], j, i)
  {
  }

  /** A salary is hidden from the filter's context exactly when it is refused. */
  lemma HiddenIffRefused(policy: Policy, above: Occurrence, step: Step)
    requires step.FieldStep?
    ensures Hidden(ContextOf(policy, above), step.name) <==> RefusedAt(policy, above + [step], |above|)
  {
    var o := above + [step];
    ContextKnows(policy, above);
    assert o[..|above|] == above;
    forall j: nat
      ensures NearestEmployee(o, j, |above|) <==> NearestEmployee(above, j, |above|)
    {
      NearestIsAbove(o, j, |above|);
    }
    if Hidden(ContextOf(policy, above), step.name) {
      var j: nat :| NearestEmployee(above, j, |above|);
      assert RefusedBy(policy, o, j, |above|);
    }
  }

  /** What is refused stays so further down. */
  lemma RefusedAtPrefix(policy: Policy, a: Occurrence, b: Occurrence, i: nat)
    requires i < |a| <= |b| && b[..|a|] == a
    ensures RefusedAt(policy, a, i) <==> RefusedAt(policy, b, i)
  {
    forall j: nat
      ensures RefusedBy(policy, a, j, i) <==> RefusedBy(policy, b, j, i)
    {
      assert forall k | 0 <= k <= i :: a[k] == b[..|a|][k] == b[k];
    }
  }

  lemma RefusedNext(policy: Policy, above: Occurrence, step: Step)
    ensures Refused(policy, above + [step]) <==> Refused(policy, above) || RefusedAt(policy, above + [step], |above|)
  {
    var o := above + [step];
    assert o[..|above|] == above;
    forall i: nat | i < |above|
      ensures RefusedAt(policy, above, i) <==> RefusedAt(policy, o, i)
    {
      RefusedAtPrefix(policy, above, o, i);
    }
    if i :| 0 <= i < |above| && RefusedAt(policy, above, i) {
      assert RefusedAt(policy, o, i);
    }
  }

  lemma PermittedAppend(policy: Policy, a: seq<Occurrence>, b: seq<Occurrence>)
    ensures Permitted(policy, a + b) == Permitted(policy, a) + Permitted(policy, b)
  {
    if a == [] {
      assert a + b == b;
    } else {
      PermittedAppend(policy, a[1..], b);
      assert (a + b)[1..] == a[1..] + b;
    }
  }

  lemma PermittedOne(policy: Policy, o: Occurrence)
    ensures Permitted(policy, [o]) == if Refused(policy, o) then [] else [o]
  {
    assert [o][1..] == [];
  }

  /** Below a refused salary nothing is permitted. */
  lemma {:induction false} NothingBelowRefused(policy: Policy, t: Tree, above: Occurrence)
    requires Refused(policy, above)
    ensures Permitted(policy, LeavesOf(t, above)) == []
    ensures forall o <- FieldsOf(t, above) :: Refused(policy, o)
    decreases t
  {
    match t
    case Nil =>
    case Node(name, id, attrs, sub, rest) =>
      var here := above + [FieldStep(name, id, attrs)];
      RefusedNext(policy, above, FieldStep(name, id, attrs));
      NothingBelowRefused(policy, sub, here);
      NothingBelowRefused(policy, rest, above);
      PermittedOne(policy, here);
      PermittedAppend(policy, if sub.Nil? then [here] else LeavesOf(sub, here), LeavesOf(rest, above));
    case Group(origin, sub, rest) =>
      RefusedNext(policy, above, GroupStep(origin));
      NothingBelowRefused(policy, sub, above + [GroupStep(origin)]);
      NothingBelowRefused(policy, rest, above);
      PermittedAppend(policy, LeavesOf(sub, above + [GroupStep(origin)]), LeavesOf(rest, above));
  }

  /** The filter leaves nothing without fields. */
  lemma {:induction false} FilterLeavesNothingEmpty(policy: Policy, t: Tree, context: Context, above: Occurrence)
    ensures LeavesOf(FilterTree(policy, t, context), above) == [] <==> FilterTree(policy, t, context).Nil?
    decreases t
  {
    match t
    case Nil =>
    case Node(name, id, attrs, sub, rest) =>
      FilterLeavesNothingEmpty(policy, rest, context, above);
      FilterLeavesNothingEmpty(policy, sub, Enter(policy, context, name, id), above + [FieldStep(name, id, attrs)]);
    case Group(origin, sub, rest) =>
      FilterLeavesNothingEmpty(policy, rest, context, above);
      FilterLeavesNothingEmpty(policy, sub, context, above + [GroupStep(origin)]);
  }

  /** The leaves left are, in order, exactly those with no refused salary at or above. */
  lemma {:induction false} LeavesLeft(policy: Policy, t: Tree, above: Occurrence)
    requires !Refused(policy, above)
    ensures LeavesOf(FilterTree(policy, t, ContextOf(policy, above)), above) == Permitted(policy, LeavesOf(t, above))
    decreases t, 0
  {
    match t
    case Nil =>
    case Node(name, id, attrs, sub, rest) =>
      LeavesLeft(policy, rest, above);
      FieldLeavesLeft(policy, name, id, attrs, sub, above);
      var here := above + [FieldStep(name, id, attrs)];
      PermittedAppend(policy, if sub.Nil? then [here] else LeavesOf(sub, here), LeavesOf(rest, above));
    case Group(origin, sub, rest) =>
      var step := GroupStep(origin);
      LeavesLeft(policy, rest, above);
      RefusedNext(policy, above, step);
      ContextNext(policy, above, step);
      LeavesLeft(policy, sub, above + [step]);
      FilterLeavesNothingEmpty(policy, sub, ContextOf(policy, above), above + [step]);
      PermittedAppend(policy, LeavesOf(sub, above + [step]), LeavesOf(rest, above));
  }

  lemma {:induction false} FieldLeavesLeft(policy: Policy, name: string, id: IdArgument, attrs: string, sub: Tree,
      above: Occurrence)
    requires !Refused(policy, above)
    ensures var context, here := ContextOf(policy, above), above + [FieldStep(name, id, attrs)];
      var sub' := FilterTree(policy, sub, Enter(policy, context, name, id));
      Permitted(policy, if sub.Nil? then [here] else LeavesOf(sub, here))
      == if Hidden(context, name) then [] else if sub.Nil? then [here] else LeavesOf(sub', here)
    ensures var context, here := ContextOf(policy, above), above + [FieldStep(name, id, attrs)];
      var sub' := FilterTree(policy, sub, Enter(policy, context, name, id));
      LeavesOf(sub', here) == [] <==> sub'.Nil?
    decreases sub, 1
  {
    var step := FieldStep(name, id, attrs);
    var here := above + [step];
    HiddenIffRefused(policy, above, step);
    RefusedNext(policy, above, step);
    ContextNext(policy, above, step);
    PermittedOne(policy, here);
    FilterLeavesNothingEmpty(policy, sub, Enter(policy, ContextOf(policy, above), name, id), here);
    if Refused(policy, here) {
      NothingBelowRefused(policy, sub, here);
    } else {
      LeavesLeft(policy, sub, here);
    }
  }

  /** The filter sees a refused salary exactly when there is one. */
  lemma {:induction false} RefusedSalaries(policy: Policy, t: Tree, above: Occurrence)
    ensures HoldsRefusedSalary(policy, t, ContextOf(policy, above))
      <==> exists o <- FieldsOf(t, above) :: RefusedSalary(policy, o)
    decreases t
  {
    match t
    case Nil =>
    case Node(name, id, attrs, sub, rest) =>
      var step := FieldStep(name, id, attrs);
      HiddenIffRefused(policy, above, step);
      ContextNext(policy, above, step);
      var here := above + [step];
      RefusedSalaries(policy, sub, here);
      RefusedSalaries(policy, rest, above);
      assert RefusedSalary(policy, here) <==> RefusedAt(policy, here, |above|);
      SomeOfThree(policy, here, FieldsOf(sub, here), FieldsOf(rest, above));
    case Group(origin, sub, rest) =>
      ContextNext(policy, above, GroupStep(origin));
      RefusedSalaries(policy, sub, above + [GroupStep(origin)]);
      RefusedSalaries(policy, rest, above);
  }

  lemma SomeOfThree(policy: Policy, x: Occurrence, a: seq<Occurrence>, b: seq<Occurrence>)
    ensures (exists o <- [x] + a + b :: RefusedSalary(policy, o))
      <==> RefusedSalary(policy, x) || (exists o <- a :: RefusedSalary(policy, o)) || exists o <- b ::
        RefusedSalary(policy, o)
  {
    InThree(x, a, b);
  }

  lemma InThree<T>(x: T, a: seq<T>, b: seq<T>)
    ensures forall y :: y in [x] + a + b <==> y == x || y in a || y in b
  {
  }

  /** The filter fails exactly when the policy does, on an employeeByID with no refused salary at or above. */
  lemma {:induction false} Failures(policy: Policy, t: Tree, above: Occurrence)
    requires !Refused(policy, above)
    ensures PolicyFails(policy, t, ContextOf(policy, above))
      <==> exists o <- FieldsOf(t, above) :: FailsOn(policy, o) && !Refused(policy, o)
    decreases t
  {
    match t
    case Nil =>
    case Node(name, id, attrs, sub, rest) =>
      var step := FieldStep(name, id, attrs);
      var here := above + [step];
      HiddenIffRefused(policy, above, step);
      RefusedNext(policy, above, step);
      ContextNext(policy, above, step);
      Failures(policy, rest, above);
      if Refused(policy, here) {
        NothingBelowRefused(policy, sub, here);
      } else {
        Failures(policy, sub, here);
      }
      InThree(here, FieldsOf(sub, here), FieldsOf(rest, above));
    case Group(origin, sub, rest) =>
      RefusedNext(policy, above, GroupStep(origin));
      ContextNext(policy, above, GroupStep(origin));
      Failures(policy, sub, above + [GroupStep(origin)]);
      Failures(policy, rest, above);
  }

  // ------------------------------------------------------------------ whole documents

  /** An operation as the list of its leaves. */
  datatype Listing = Listing(attrs: string, leaves: seq<Occurrence>)

  function Listings(meanings: seq<Meaning>): (listings: seq<Listing>)
    ensures |listings| == |meanings|
  {
    if meanings == [] then []
    else
      var last := meanings[|meanings| - 1];
      Listings(meanings[..|meanings| - 1]) + [Listing(last.attrs, LeavesOf(last.tree, []))]
  }

  /** Each operation with its permitted leaves; those with none are dropped. */
  function Left(policy: Policy, listings: seq<Listing>): seq<Listing> {
    if listings == [] then []
    else
      var last := listings[|listings| - 1];
      var leaves := Permitted(policy, last.leaves);
      Left(policy, listings[..|listings| - 1]) + if leaves == [] then [] else [Listing(last.attrs, leaves)]
  }

  /** Some operation has a refused salary. */
  ghost predicate SomeSalaryRefused(policy: Policy, meanings: seq<Meaning>) {
    exists m <- meanings, o | o in FieldsOf(m.tree, []) :: RefusedSalary(policy, o)
  }

  /** The policy fails on some employeeByID that has no refused salary at or above. */
  ghost predicate SomeAnswerFails(policy: Policy, meanings: seq<Meaning>) {
    exists m <- meanings, o | o in FieldsOf(m.tree, []) :: FailsOn(policy, o) && !Refused(policy, o)
  }

  lemma {:induction false} ListingsLeft(policy: Policy, meanings: seq<Meaning>)
    ensures Listings(FilterMeanings(policy, meanings)) == Left(policy, Listings(meanings))
  {
    if meanings != [] {
      var front, last := meanings[..|meanings| - 1], meanings[|meanings| - 1];
      ListingsLeft(policy, front);
      LeavesLeft(policy, last.tree, []);
      FilterLeavesNothingEmpty(policy, last.tree, TOP, []);
      assert ContextOf(policy, []) == TOP;
      var left := FilterTree(policy, last.tree, TOP);
      ListingsNext(FilterMeanings(policy, front), Meaning(last.attrs, left));
      var listing := Listing(last.attrs, LeavesOf(last.tree, []));
      LeftNext(policy, Listings(front), listing);
      assert Listings(meanings) == Listings(front) + [listing];
      assert FilterMeanings(policy, front) + [] == FilterMeanings(policy, front);
    }
  }

  lemma LeftNext(policy: Policy, listings: seq<Listing>, listing: Listing)
    ensures var leaves := Permitted(policy, listing.leaves);
      Left(policy, listings + [listing])
      == Left(policy, listings) + if leaves == [] then [] else [Listing(listing.attrs, leaves)]
  {
    assert (listings + [listing])[..|listings|] == listings;
  }

  lemma ListingsNext(meanings: seq<Meaning>, m: Meaning)
    ensures Listings(meanings + [m]) == Listings(meanings) + [Listing(m.attrs, LeavesOf(m.tree, []))]
  {
    assert (meanings + [m])[..|meanings|] == meanings;
  }

  lemma SomeOccurrence(policy: Policy, meanings: seq<Meaning>)
    ensures SomeRefused(policy, meanings) <==> SomeSalaryRefused(policy, meanings)
    ensures SomeFailing(policy, meanings) <==> SomeAnswerFails(policy, meanings)
  {
    forall m <- meanings
      ensures HoldsRefusedSalary(policy, m.tree, TOP)
        <==> exists o <- FieldsOf(m.tree, []) :: RefusedSalary(policy, o)
      ensures PolicyFails(policy, m.tree, TOP)
        <==> exists o <- FieldsOf(m.tree, []) :: FailsOn(policy, o) && !Refused(policy, o)
    {
      RefusedSalaries(policy, m.tree, []);
      Failures(policy, m.tree, []);
    }
  }

  /** Main theorem. If filtering succeeds: the filtered document's operations have, in order, exactly the leaves with no
      refused salary at or above; and the salary is listed as removed exactly when some salary is refused. */
  lemma LeavesExactly(doc: Document, policy: Policy, out: Document, removed: set<string>, meanings: seq<Meaning>)
    returns (meanings': seq<Meaning>)
    requires FiltersTo(doc, policy, out, removed) && "" !in ByName(doc.fragments) && Means(doc, meanings)
    ensures Means(out, meanings') && Listings(meanings') == Left(policy, Listings(meanings))
    ensures removed == if SomeSalaryRefused(policy, meanings) then {"employeeByID.salary"} else {}
    ensures !SomeAnswerFails(policy, meanings)
  {
    DocumentRefines(doc, policy, out, removed, meanings);
    RemovedExactly(doc, policy, out, removed, meanings);
    FailsExactly(doc, policy, meanings);
    ListingsLeft(policy, meanings);
    SomeOccurrence(policy, meanings);
    meanings' := FilterMeanings(policy, meanings);
  }

  /** Filtering fails exactly when the policy fails on an employeeByID with no refused salary at or above. */
  lemma FailsOnOccurrence(doc: Document, policy: Policy, meanings: seq<Meaning>)
    requires Means(doc, meanings)
    ensures FilterAll(Env(ByName(doc.fragments), policy), INITIAL, doc.operations).None?
      <==> SomeAnswerFails(policy, meanings)
  {
    FailsExactly(doc, policy, meanings);
    SomeOccurrence(policy, meanings);
  }

  // ------------------------------------------------------------------ as said of a run

  /** Whatever the document means: out means the same, but for the leaves with a refused salary at or above; and the
      salary is listed as removed exactly when some salary is refused. */
  ghost predicate LeavesPermitted(doc: Document, policy: Policy, out: Document, removed: set<string>) {
    (forall f <- doc.fragments :: f.name != "") ==>
      forall meanings | Means(doc, meanings) ::
        && (exists meanings' :: Means(out, meanings') && Listings(meanings') == Left(policy, Listings(meanings)))
        && removed == if SomeSalaryRefused(policy, meanings) then {"employeeByID.salary"} else {}
  }

  /** Whatever the document means: filtering fails exactly when the policy fails on a permitted employeeByID. */
  ghost predicate FailsWhereAsked(doc: Document, policy: Policy, failed: bool) {
    forall meanings | Means(doc, meanings) :: failed <==> SomeAnswerFails(policy, meanings)
  }

  lemma NoEmptyName(fragments: seq<Fragment>)
    requires forall f <- fragments :: f.name != ""
    ensures "" !in ByName(fragments)
  {
    ByNameIsLast(fragments, "");
  }

  lemma FilteredIsPermitted(doc: Document, policy: Policy, out: Document, removed: set<string>)
    requires FiltersTo(doc, policy, out, removed)
    ensures LeavesPermitted(doc, policy, out, removed)
  {
    if forall f <- doc.fragments :: f.name != "" {
      NoEmptyName(doc.fragments);
      forall meanings | Means(doc, meanings)
        ensures exists meanings' :: Means(out, meanings') && Listings(meanings') == Left(policy, Listings(meanings))
        ensures removed == if SomeSalaryRefused(policy, meanings) then {"employeeByID.salary"} else {}
      {
        var meanings' := LeavesExactly(doc, policy, out, removed, meanings);
      }
    }
  }

  lemma FailureIsAsked(doc: Document, policy: Policy)
    ensures FailsWhereAsked(doc, policy,
      FilterAll(Env(ByName(doc.fragments), policy), INITIAL, doc.operations).None?)
  {
    forall meanings | Means(doc, meanings)
      ensures FilterAll(Env(ByName(doc.fragments), policy), INITIAL, doc.operations).None?
        <==> SomeAnswerFails(policy, meanings)
    {
      FailsOnOccurrence(doc, policy, meanings);
    }
  }
}
