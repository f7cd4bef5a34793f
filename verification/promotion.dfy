/**
  Which `promotion_check` overload of `type_promotion_traits<T1, T2>` is
  enabled, and the type it names.

  The source declares four overloads, each enabled by its own condition on
  the operand types. An enabled overload is viable only if its return type,
  the type of `a + b` for the two contributed types, can be formed. That type
  is whatever C++'s own arithmetic conversions make of the sum; the rule is
  not part of this repository and is taken here as the parameter `plus`,
  which yields the type of the sum, or `None` when the two cannot be added
  and the enabled overload drops out.
*/
module Promotion {
  import opened Wrappers
  import opened Traits

  /** The four `promotion_check` overloads, in the order they are declared. */
  datatype Branch =
    | BothElements   // both operands declare `value_type`
    | ScalarLeft     // a bare arithmetic left operand, a `value_type` on the right
    | ScalarRight    // a `value_type` on the left, a bare arithmetic right operand
    | BothScalars    // two bare arithmetic operands

  /**
    The `enable_if` condition of each overload. Whichever is enabled, each
    operand contributes a `value_type` or is itself arithmetic.
  */
  function Enabled(b: Branch, t1: TypeDesc, t2: TypeDesc): (e: bool)
    ensures e ==> (HasValueType(t1) || IsScalar(t1)) && (HasValueType(t2) || IsScalar(t2))
    ensures e && b != BothElements ==> IsScalar(t1) || IsScalar(t2)
  {
    match b
    case BothElements => HasValueType(t1) && HasValueType(t2)
    case ScalarLeft => !HasValueType(t1) && HasValueType(t2) && IsScalar(t1)
    case ScalarRight => HasValueType(t1) && !HasValueType(t2) && IsScalar(t2)
    case BothScalars => !HasValueType(t1) && !HasValueType(t2) && IsScalar(t1) && IsScalar(t2)
  }

  /** No two overloads are ever enabled for the same pair, so the call is never ambiguous. */
  lemma EnabledExclusive(b1: Branch, b2: Branch, t1: TypeDesc, t2: TypeDesc)
    requires Enabled(b1, t1, t2) && Enabled(b2, t1, t2)
    ensures b1 == b2
  {
  }

  /** The overload that overload resolution picks, if any is enabled. */
  function SelectBranch(t1: TypeDesc, t2: TypeDesc): (r: Option<Branch>)
    ensures r.Some? ==> Enabled(r.value, t1, t2)
    ensures r.None? ==> forall b :: !Enabled(b, t1, t2)
    ensures r.Some? <==> (HasValueType(t1) || IsScalar(t1)) && (HasValueType(t2) || IsScalar(t2))
  {
    if HasValueType(t1) && HasValueType(t2) then Some(BothElements)
    else if !HasValueType(t1) && HasValueType(t2) && IsScalar(t1) then Some(ScalarLeft)
    else if HasValueType(t1) && !HasValueType(t2) && IsScalar(t2) then Some(ScalarRight)
    else if !HasValueType(t1) && !HasValueType(t2) && IsScalar(t1) && IsScalar(t2) then Some(BothScalars)
    else None
  }

  /** An operand that neither declares `value_type` nor is arithmetic leaves no overload. */
  lemma NoBranchForNonNumeric(t1: TypeDesc, t2: TypeDesc)
    requires (!HasValueType(t1) && !IsScalar(t1)) || (!HasValueType(t2) && !IsScalar(t2))
    ensures SelectBranch(t1, t2) == None
    ensures forall b :: !Enabled(b, t1, t2)
  {
  }

  /**
    The type one operand contributes to the sum: the `value_type` of an
    operand that has one, the arithmetic type itself otherwise.
  */
  function Contributed(t: TypeDesc): (c: TypeId)
    ensures HasValueType(t) ==> c == t.valueType.value.name
    ensures t.WellFormed() && IsScalar(t) ==> c == t.name
  {
    match t.valueType
    case Some(v) => if v.kind.Passable? then v.name else t.name
    case None => t.name
  }

  /**
    `type_promotion_t<T1, T2>`: the type of the selected overload's
    `decltype(... + ...)`; `None` where the alias cannot be formed.
  */
  function PromotedType(t1: TypeDesc, t2: TypeDesc, plus: (TypeId, TypeId) -> Option<TypeId>): (r: Option<TypeId>)
    ensures r.Some? ==> SelectBranch(t1, t2).Some?
    ensures SelectBranch(t1, t2) == Some(BothElements) ==> r == plus(t1.valueType.value.name, t2.valueType.value.name)
    ensures SelectBranch(t1, t2) == Some(ScalarLeft) ==> r == plus(t1.name, t2.valueType.value.name)
    ensures SelectBranch(t1, t2) == Some(ScalarRight) ==> r == plus(t1.valueType.value.name, t2.name)
    ensures SelectBranch(t1, t2) == Some(BothScalars) ==> r == plus(t1.name, t2.name)
  {
    match SelectBranch(t1, t2)
    case None => None
    case Some(_) => plus(Contributed(t1), Contributed(t2))
  }
}
