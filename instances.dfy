/**
 * The instance relation (Type.Instance) for the kinds whose instances are
 * plain values of this model. The instance relation of the other kinds
 * (composites, patterns, meta types) is not part of this model and enters as
 * the parameter `others`.
 */
module Instances {
  import opened Wrappers
  import opened Identifiers
  import opened Types
  import opened Values

  /** The values of a kind the printer renders by name. */
  predicate AtomicInstance(ti: SimpleId, v: Value) {
    match ti
    case TiAny => true
    case TiBoolean => v.BoolValue?
    case TiTrue => v == BoolValue(true)
    case TiFalse => v == BoolValue(false)
    case TiInteger => v.IntValue?
    case TiString => v.StrValue?
    case TiNil => v == NilValue
    case TiError => v.ErrorVal?
    case TiFloat => false   // no float values in this model
    case TiRegexp => false  // no regexp values in this model
  }

  /** `v` is an instance of the type node `n`. */
  predicate InstanceOf(n: Node, v: Value, others: (Node, Value) -> bool) {
    match n
    case Atomic(ti) => AtomicInstance(ti, v)
    case IntegerExact(i) => v == IntValue(i)
    case IntegerRange(min, max, inclusive) => v.IntValue? && min <= v.i && (if inclusive then v.i <= max else v.i < max)
    case StringExact(s) => v == StrValue(s)
    case StringSized(min, max) => v.StrValue? && min <= |v.s| <= max
    case _ => others(n, v)
  }

  /**
   * The one value an exact type wraps (ExactType.Value), for the
   * exact kinds whose values this model holds: exact integers and strings,
   * true, false and nil.
   */
  function ExactValue(n: Node): Option<Value> {
    match n
    case IntegerExact(i) => Some(IntValue(i))
    case StringExact(s) => Some(StrValue(s))
    case Atomic(ti) =>
      if ti == TiTrue then Some(BoolValue(true))
      else if ti == TiFalse then Some(BoolValue(false))
      else if ti == TiNil then Some(NilValue)
      else None
    case _ => None
  }

  /** An exact type is the singleton of its value: its only instance is its exact value. */
  lemma ExactTypeIsSingleton(n: Node, v: Value, w: Value, others: (Node, Value) -> bool)
    requires ExactValue(n) == Some(v)
    ensures InstanceOf(n, w, others) <==> w == v
  {
  }
}
