/**
 * dgo values, as far as the modelled core needs them: nil, booleans,
 * integers, strings, ordered maps (a sequence of key/value entries) and the
 * three type-error values. A Go `interface{}` argument is one of these.
 */
module Values {
  import opened Types
  import opened Format
  import opened TypeStringSpec

  datatype Value =
    | NilValue
    | BoolValue(b: bool)
    | IntValue(i: int)
    | StrValue(s: string)
    | MapValue(entries: seq<Entry>)
    | ErrorVal(err: ErrorValue)

  /** A key/value association of a Map. */
  datatype Entry = Entry(key: Value, value: Value)

  /** The errors of internal/typeerror_test.go; structurally equal when built from equal parts. */
  datatype ErrorValue =
    | IllegalAssignment(expected: ValidType, value: Value)
    | IllegalSize(sized: ValidType, size: int)
    | IllegalMapKey(structType: ValidType, key: Value)

  /** The String() form of a value: strings are unquoted at the top, quoted inside a map. */
  function ValueString(v: Value): string
    decreases v, 1
  {
    match v
    case NilValue => "nil"
    case BoolValue(b) => if b then "true" else "false"
    case IntValue(i) => FormatInt(i)
    case StrValue(s) => s
    case MapValue(es) => "{" + EntriesString(v, es) + "}"
    case ErrorVal(e) => Message(e)
  }

  /** A value as it appears inside a map: strings are quoted. */
  function Literal(v: Value): string
    decreases v, 2
  {
    if v.StrValue? then Quote(v.s) else ValueString(v)
  }

  function EntriesString(m: Value, es: seq<Entry>): string
    requires forall e :: e in es ==> e < m
    decreases m, 0, |es|
  {
    if es == [] then ""
    else
      var k := |es| - 1;
      assert es[k] in es;
      assert forall e :: e in es[..k] ==> e in es;
      EntriesString(m, es[..k]) + (if k == 0 then "" else ",") + Literal(es[k].key) + ":" + Literal(es[k].value)
  }

  /** The message template of each error value, with the type text from the type printer. */
  function Message(e: ErrorValue): string
    decreases ErrorVal(e), 0
  {
    match e
    case IllegalAssignment(t, v) =>
      "the value " + ValueString(v) + " cannot be assigned to a variable of type " + TypeText(t)
    case IllegalSize(t, n) =>
      "size constraint violation on type " + TypeText(t) + " when attempting resize to " + FormatInt(n)
    case IllegalMapKey(t, k) =>
      "key " + Quote(ValueString(k)) + " cannot added to type " + TypeText(t)
  }
}
