/**
 * The Any type (internal/any.go): the unconstrained type. It accepts every
 * type and every value, its identifier is TiAny, its hash is the ordinal of
 * that identifier, and it prints as "any".
 */
module AnyType {
  import opened Identifiers
  import opened Types
  import opened Values
  import opened Wrappers
  import opened TypeStringSpec
  import opened Instances

  /** DefaultAnyType: a graph holding the one any node. */
  const DefaultAnyType: ValidType := TypeRef(map[0 := Atomic(TiAny)], 0)

  /** Every type is assignable to any. */
  function Assignable(other: ValidType): (r: bool)
    ensures r
  {
    true
  }

  /** Every value is an instance of any. */
  function Instance(v: Value): (r: bool)
    ensures r
  {
    true
  }

  /** Equals: `other` is the any type. */
  function Equals(other: ValidType): (r: bool)
    ensures r <==> TypeIdentifierOf(other) == TiAny
  {
    other.graph[other.root] == Atomic(TiAny)
  }

  function TypeIdentifier(): (ti: TypeId)
    ensures !HasTableEntry(ti) && Label(ti) == "any"
  {
    TiAny
  }

  /** The hash is the integer value of the identifier. */
  function HashCode(): (h: int)
    ensures h == Ordinal(TypeIdentifier())
  {
    Ordinal(TiAny)
  }

  /** String: the type printer's text, which for a kind without a table entry is its bare name. */
  function String(): (s: string)
    ensures s == "any"
  {
    TypeText(DefaultAnyType)
  }

  /** Type: the meta type over any, which prints as just "type". */
  function Type(): (t: ValidType)
    ensures t.graph[t.root].Meta? && t.graph[t.root].described.Some?
    ensures Equals(TypeRef(t.graph, t.graph[t.root].described.value))
    ensures TypeText(t) == "type"
  {
    var t := TypeRef(map[0 := Meta(Some(1)), 1 := Atomic(TiAny)], 0);
    assert [] + [0] == [0];
    assert Render(t.graph, [], 0, CommaPrio) == TableEntry(t.graph, [0], t.graph[0], CommaPrio);
    assert TableEntry(t.graph, [0], t.graph[0], CommaPrio) == MetaText(t.graph, [0], Some(1), CommaPrio);
    t
  }

  /** Types equal to any are indistinguishable from it: same identifier, hash and text. */
  lemma EqualsAgreesWithHashAndText(other: ValidType)
    requires Equals(other)
    ensures TypeIdentifierOf(other) == TypeIdentifier()
    ensures Ordinal(TypeIdentifierOf(other)) == HashCode()
    ensures TypeText(other) == String()
  {
  }

  /** Any admits every value under the general instance relation too, whatever the other kinds do. */
  lemma InstanceAgrees(v: Value, others: (Node, Value) -> bool)
    ensures InstanceOf(DefaultAnyType.graph[DefaultAnyType.root], v, others) == Instance(v)
  {
  }
}
