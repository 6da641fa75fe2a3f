/** The request-side data the compiler consumes: conditions, filter
    groups and the operator constants they are compared with. The
    constant values are the upper-case operator names; the compiler relies
    only on their being distinct and unchanged by upper-casing. */
module Filters {

  const OPERATOR_EQ := "EQ"
  const OPERATOR_LIKE := "LIKE"
  const OPERATOR_LESS_EQ := "LESS_EQ"
  const OPERATOR_BETWEEN := "BETWEEN"
  const OPERATOR_IN := "IN"
  const RELATION_AND := "AND"

  /** A condition's value: one request parameter value, or the array of
      values of a multi-valued parameter (the bounds of BETWEEN, the
      members of IN). */
  datatype RawValue =
    | Scalar(text: string)
    | Multi(items: seq<string>)

  /** One comparison. The operator string doubles as the combinator that
      joins the condition to the ones before it in its group. */
  datatype Condition = Condition(fieldName: string, operator: string, value: RawValue)

  /** A filter group, or the `Filter.EMPTY` sentinel. */
  datatype Filter =
    | Empty
    | Group(conditions: seq<Condition>)

  /** `Object.toString()` of a `String[]`: the class name, `@` and an
      identity hash that only exists at run time, so the model keeps the
      fixed part. */
  const ARRAY_TEXT := "[Ljava.lang.String;@"

  /** `condition.getValue().toString()` */
  function ValueText(v: RawValue): string {
    match v
    case Scalar(s) => s
    case Multi(_) => ARRAY_TEXT
  }
}
