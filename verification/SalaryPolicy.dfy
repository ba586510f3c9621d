// The permission rule of the salary filter, and the filter it asks for on an expanded operation.
module SalaryPolicy {
  import opened Document

  datatype User = User(id: string, role: string)

  datatype Verdict = Allowed | Denied | Failed

  /** The policy engine, as an arbitrary function of the user and the target. */
  datatype Policy = Policy(user: User, check: (User, string) -> Verdict)

  datatype Context = Context(inEmployeeByID: bool, salaryAllowed: bool)

  const TOP := Context(false, false)

  const REMOVED_SALARY := "employeeByID.salary"

  function ResolveTargetID(id: IdArgument): string {
    if id.Text? then id.value else ""
  }

  function CheckField(policy: Policy, id: IdArgument): Verdict {
    policy.check(policy.user, ResolveTargetID(id))
  }

  predicate Hidden(context: Context, name: string) {
    context.inEmployeeByID && name == "salary" && !context.salaryAllowed
  }

  /** Entering this field asks the policy, and the policy fails. */
  predicate CheckFails(policy: Policy, name: string, id: IdArgument) {
    name == "employeeByID" && CheckField(policy, id).Failed?
  }

  /** The context of a field's children. */
  function Enter(policy: Policy, context: Context, name: string, id: IdArgument): Context {
    if name == "employeeByID" then Context(true, CheckField(policy, id).Allowed?) else context
  }

  // ------------------------------------------------- the filter on expanded operations

  /** What is left of an expanded operation. */
  function FilterTree(policy: Policy, t: Tree, context: Context): Tree {
    match t
    case Nil => Nil
    case Node(name, id, attrs, sub, rest) =>
      var rest' := FilterTree(policy, rest, context);
      if Hidden(context, name) then rest'
      else if sub.Nil? then Node(name, id, attrs, Nil, rest')
      else
        var sub' := FilterTree(policy, sub, Enter(policy, context, name, id));
        if sub'.Nil? then rest' else Node(name, id, attrs, sub', rest')
    case Group(origin, sub, rest) =>
      var rest' := FilterTree(policy, rest, context);
      var sub' := FilterTree(policy, sub, context);
      if sub'.Nil? then rest' else Group(origin, sub', rest')
  }

  /** Some salary in t lies below a nearest employeeByID that was refused. */
  predicate HoldsRefusedSalary(policy: Policy, t: Tree, context: Context) {
    match t
    case Nil => false
    case Node(name, id, attrs, sub, rest) =>
      || Hidden(context, name)
      || HoldsRefusedSalary(policy, sub, Enter(policy, context, name, id))
      || HoldsRefusedSalary(policy, rest, context)
    case Group(_, sub, rest) =>
      HoldsRefusedSalary(policy, sub, context) || HoldsRefusedSalary(policy, rest, context)
  }

  /** The policy fails on some employeeByID of t that is not below a refused salary. */
  predicate PolicyFails(policy: Policy, t: Tree, context: Context) {
    match t
    case Nil => false
    case Node(name, id, attrs, sub, rest) =>
      || PolicyFails(policy, rest, context)
      || (!Hidden(context, name) &&
          (CheckFails(policy, name, id) || PolicyFails(policy, sub, Enter(policy, context, name, id))))
    case Group(_, sub, rest) =>
      PolicyFails(policy, sub, context) || PolicyFails(policy, rest, context)
  }

  /** Every group has content, as the grammar demands of inline fragments and fragment definitions. */
  predicate NoEmptyGroup(t: Tree) {
    match t
    case Nil => true
    case Node(_, _, _, sub, rest) => NoEmptyGroup(sub) && NoEmptyGroup(rest)
    case Group(_, sub, rest) => !sub.Nil? && NoEmptyGroup(sub) && NoEmptyGroup(rest)
  }

  function Fields(t: Tree): nat {
    match t
    case Nil => 0
    case Node(_, _, _, sub, rest) => 1 + Fields(sub) + Fields(rest)
    case Group(_, sub, rest) => Fields(sub) + Fields(rest)
  }

  lemma {:induction false} FilterShrinks(policy: Policy, t: Tree, context: Context)
    ensures Fields(FilterTree(policy, t, context)) <= Fields(t)
    ensures HoldsRefusedSalary(policy, t, context) ==> Fields(FilterTree(policy, t, context)) < Fields(t)
  {
    match t
    case Nil =>
    case Node(name, id, _, sub, rest) =>
      FilterShrinks(policy, rest, context);
      FilterShrinks(policy, sub, Enter(policy, context, name, id));
    case Group(_, sub, rest) =>
      FilterShrinks(policy, rest, context);
      FilterShrinks(policy, sub, context);
  }

  /** The filter changes an operation exactly when it holds a refused salary. */
  lemma {:induction false} FilterChangesIffRefused(policy: Policy, t: Tree, context: Context)
    requires NoEmptyGroup(t)
    ensures FilterTree(policy, t, context) == t <==> !HoldsRefusedSalary(policy, t, context)
  {
    FilterShrinks(policy, t, context);
    match t
    case Nil =>
    case Node(name, id, _, sub, rest) =>
      FilterChangesIffRefused(policy, rest, context);
      FilterChangesIffRefused(policy, sub, Enter(policy, context, name, id));
    case Group(_, sub, rest) =>
      FilterChangesIffRefused(policy, rest, context);
      FilterChangesIffRefused(policy, sub, context);
  }

  /** What is left holds no refused salary and no empty group, so filtering it again changes nothing. */
  lemma {:induction false} FilteredIsClean(policy: Policy, t: Tree, context: Context)
    ensures !HoldsRefusedSalary(policy, FilterTree(policy, t, context), context)
    ensures NoEmptyGroup(FilterTree(policy, t, context))
    ensures FilterTree(policy, FilterTree(policy, t, context), context) == FilterTree(policy, t, context)
    ensures !PolicyFails(policy, t, context) ==> !PolicyFails(policy, FilterTree(policy, t, context), context)
  {
    match t
    case Nil =>
    case Node(name, id, _, sub, rest) =>
      FilteredIsClean(policy, rest, context);
      FilteredIsClean(policy, sub, Enter(policy, context, name, id));
    case Group(_, sub, rest) =>
      FilteredIsClean(policy, rest, context);
      FilteredIsClean(policy, sub, context);
  }
}
