/** `PasswordMatchesValidator`: the class-level check that a form's new
    password and its confirmation agree, null-aware as `Objects.equals`. */
module PasswordMatches {
  import opened Wrappers

  /** The two property values the validator reads from the bean; `None`
      stands for a null value. */
  datatype PasswordPair = PasswordPair(newValue: Option<string>, confirmValue: Option<string>)

  /** `isValid`: a null bean is valid; otherwise both values null, or both
      present and equal. */
  predicate IsValid(bean: Option<PasswordPair>) {
    match bean
    case None => true
    case Some(p) =>
      match (p.newValue, p.confirmValue)
      case (None, None) => true
      case (Some(a), Some(b)) => a == b
      case _ => false
  }

  /** The validator is `Objects.equals` on the two values, so it cannot tell
      which field is which. */
  lemma {:induction false} IsValidFacts(a: Option<string>, b: Option<string>)
    ensures IsValid(Some(PasswordPair(a, b))) <==> a == b
    ensures IsValid(Some(PasswordPair(a, b))) <==> IsValid(Some(PasswordPair(b, a)))
    ensures a.None? != b.None? ==> !IsValid(Some(PasswordPair(a, b)))
  {
    match (a, b)
    case (None, None) =>
    case (Some(x), Some(y)) =>
    case _ =>
  }
}
