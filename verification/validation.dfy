/**
 * The declarative request checks (`#[validate(...)]`) the handlers run before
 * doing anything else.  Lengths are counted in characters.  Email syntax is
 * the validation library's own grammar and arrives as a predicate.
 */
module Validation {
  import opened Wrappers

  /** The request fields that carry a validation rule. */
  datatype Field = Title | Description | LocationCell | Email | Username | Password

  /** Which rule a field broke. */
  datatype Rule = Length | EmailSyntax

  /**
   * One failed rule.  The library's report of it also carries the submitted
   * value of the field (beside the rule's fixed parameters), so the value is
   * part of the error here.
   */
  datatype FieldError = FieldError(field: Field, rule: Rule, value: string)

  /**
   * The failures a `validate()` call reports.  The library keeps them keyed by
   * field, in no particular order, so they are a set here.
   */
  type ValidationErrors = set<FieldError>

  /** Renders a failed validation as the text carried by `InvalidInput`. */
  type Describe = ValidationErrors -> string

  /** `length(min = .., max = .., equal = ..)`; `equal`, when present, overrides the other two. */
  datatype LengthRule = LengthRule(min: Option<nat>, max: Option<nat>, equal: Option<nat>)

  function Between(min: nat, max: nat): LengthRule {
    LengthRule(Some(min), Some(max), None)
  }

  function AtLeast(min: nat): LengthRule {
    LengthRule(Some(min), None, None)
  }

  function AtMost(max: nat): LengthRule {
    LengthRule(None, Some(max), None)
  }

  function Exactly(n: nat): LengthRule {
    LengthRule(None, None, Some(n))
  }

  /** Whether the character count of `s` satisfies `rule`. */
  function LengthOk(s: string, rule: LengthRule): (ok: bool)
    ensures rule.equal.Some? ==> (ok <==> |s| == rule.equal.value)
    ensures rule.equal.None? && rule.min.Some? && |s| < rule.min.value ==> !ok
    ensures rule.equal.None? && rule.max.Some? && |s| > rule.max.value ==> !ok
    ensures rule.equal.None? && (rule.min.None? || rule.min.value <= |s|) && (rule.max.None? || |s| <= rule.max.value) ==> ok
  {
    match rule.equal
    case Some(n) => |s| == n
    case None =>
      && (rule.min.None? || rule.min.value <= |s|)
      && (rule.max.None? || |s| <= rule.max.value)
  }

  /** The error a single check contributes: none when it holds. */
  function Check(holds: bool, field: Field, rule: Rule, value: string): (errs: ValidationErrors)
    ensures FieldError(field, rule, value) in errs <==> !holds
    ensures errs <= {FieldError(field, rule, value)}
  {
    if holds then {} else {FieldError(field, rule, value)}
  }
}
