/**
 * The type graph. A dgo type is a tree of objects that may refer back to an
 * ancestor, so it is modelled as a map from node identities to nodes: a node
 * names its operands by identity, and a cycle is a node that is reachable from
 * itself. Exact types of values (valueAsType) are nodes of the same graph.
 */
module Types {
  import opened Identifiers
  import opened Wrappers

  type NodeId = nat

  /** One declared entry of a struct type: key type, value type, required flag. */
  datatype StructEntry = StructEntry(key: NodeId, value: NodeId, required: bool)

  datatype Node =
    | Atomic(ti: SimpleId)                                    // any, bool, int, string, ...
    | Meta(described: Option<NodeId>)                         // type, type[T]; None is a nil operand
    | AnyOf(operands: seq<NodeId>)                            // a|b
    | OneOf(operands: seq<NodeId>)                            // a^b
    | AllOf(operands: seq<NodeId>)                            // a&b
    | AllOfValue(operands: seq<NodeId>)                       // a&b over the exact types of values
    | ArrayExact(elements: seq<NodeId>)                       // exact types of the elements
    | Array(min: int, max: int, element: NodeId)
    | Binary(min: int, max: int)
    | Tuple(elements: seq<NodeId>)
    | MapType(keyType: NodeId, min: int, max: int, valueType: NodeId)
    | MapExact(entryTypes: seq<NodeId>)                       // exact types of the entries
    | Struct(entries: seq<StructEntry>, additional: bool)
    | MapEntryExact(key: NodeId, value: NodeId)               // exact types of key and value
    | IntegerExact(intValue: int)
    | IntegerRange(min: int, max: int, inclusive: bool)
    | RegexpExact(pattern: string)
    | StringExact(text: string)
    | StringPattern(pattern: string)
    | StringSized(min: int, max: int)
    | Not(operand: NodeId)

  type Graph = map<NodeId, Node>

  /** The kind of a node (TypeIdentifier()). */
  function Identifier(n: Node): (ti: TypeId)
    ensures HasTableEntry(ti) <==> !n.Atomic?
  {
    match n
    case Atomic(t) => t
    case Meta(_) => TiMeta
    case AnyOf(_) => TiAnyOf
    case OneOf(_) => TiOneOf
    case AllOf(_) => TiAllOf
    case AllOfValue(_) => TiAllOfValue
    case ArrayExact(_) => TiArrayExact
    case Array(_, _, _) => TiArray
    case Binary(_, _) => TiBinary
    case Tuple(_) => TiTuple
    case MapType(_, _, _, _) => TiMap
    case MapExact(_) => TiMapExact
    case Struct(_, _) => TiStruct
    case MapEntryExact(_, _) => TiMapEntryExact
    case IntegerExact(_) => TiIntegerExact
    case IntegerRange(_, _, _) => TiIntegerRange
    case RegexpExact(_) => TiRegexpExact
    case StringExact(_) => TiStringExact
    case StringPattern(_) => TiStringPattern
    case StringSized(_, _) => TiStringSized
    case Not(_) => TiNot
  }

  /** Sized types: Unbounded() holds when the bounds are the defaults 0 and MaxInt. */
  predicate Unbounded(min: int, max: int) {
    min == 0 && max == 0x7FFF_FFFF_FFFF_FFFF
  }

  predicate AllIn(ids: seq<NodeId>, g: Graph) {
    forall i :: 0 <= i < |ids| ==> ids[i] in g
  }

  predicate EntriesIn(es: seq<StructEntry>, g: Graph) {
    forall i :: 0 <= i < |es| ==> es[i].key in g && es[i].value in g
  }

  /** Every node the node refers to exists: pointers never dangle. */
  predicate ChildrenIn(n: Node, g: Graph) {
    match n
    case Meta(op) => op.Some? ==> op.value in g
    case AnyOf(ops) => AllIn(ops, g)
    case OneOf(ops) => AllIn(ops, g)
    case AllOf(ops) => AllIn(ops, g)
    case AllOfValue(ops) => AllIn(ops, g)
    case ArrayExact(els) => AllIn(els, g)
    case Array(_, _, e) => e in g
    case Tuple(els) => AllIn(els, g)
    case MapType(k, _, _, v) => k in g && v in g
    case MapExact(es) => AllIn(es, g)
    case Struct(es, _) => EntriesIn(es, g)
    case MapEntryExact(k, v) => k in g && v in g
    case Not(op) => op in g
    case _ => true
  }

  predicate WellFormed(g: Graph) {
    forall id :: id in g ==> ChildrenIn(g[id], g)
  }

  /** A type value: a graph and the node that is the type itself. */
  datatype TypeRef = TypeRef(graph: Graph, root: NodeId) {
    predicate Valid() {
      WellFormed(graph) && root in graph
    }
  }

  /** A type whose graph is well formed. */
  type ValidType = t: TypeRef | t.Valid() witness TypeRef(map[0 := Atomic(TiAny)], 0)

  /** The kind of a type. */
  function TypeIdentifierOf(t: ValidType): TypeId {
    Identifier(t.graph[t.root])
  }
}
