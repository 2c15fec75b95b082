/**
 * What the type printer writes, as pure functions (internal/typestring.go).
 * `Render(g, seen, id, prio)` is the text `buildTypeString(seen, typ, prio, sb)`
 * appends for node `id` of graph `g`, where `seen` is the list of composite
 * ancestors on the current path and `prio` the priority of the context.
 */
module TypeStringSpec {
  import opened Identifiers
  import opened Types
  import opened Format
  import opened Wrappers

  // The priority ladder: commaPrio < orPrio < xorPrio < andPrio < typePrio.
  const CommaPrio: int := 0
  const OrPrio: int := 1
  const XorPrio: int := 2
  const AndPrio: int := 3
  const TypePrio: int := 4

  /** writeSizeBoundaries: min, then ",max" unless max is MaxInt64. */
  function SizeBoundaries(min: int, max: int): string {
    FormatInt(min) + (if max != MaxInt64 then "," + FormatInt(max) else "")
  }

  /** writeIntRange: min unless MinInt64, ".." or "...", max unless MaxInt64. */
  function IntRange(min: int, max: int, inclusive: bool): string {
    (if min != MinInt64 then FormatInt(min) else "")
    + (if inclusive then ".." else "...")
    + (if max != MaxInt64 then FormatInt(max) else "")
  }

  /** The "[min,max]" section of a sized kind, empty when unbounded. */
  function OptionalBounds(min: int, max: int): string {
    if Unbounded(min, max) then "" else "[" + SizeBoundaries(min, max) + "]"
  }

  function Placeholder(ti: TypeId): string {
    "<recursive self reference to " + Label(ti) + " type>"
  }

  function SeenSet(seen: seq<NodeId>): set<NodeId> {
    set x | x in seen
  }

  /** The nodes not yet on the path: shrinks at every descent, so printing terminates. */
  function Unvisited(g: Graph, seen: seq<NodeId>): set<NodeId> {
    g.Keys - SeenSet(seen)
  }

  /** buildTypeString */
  function Render(g: Graph, seen: seq<NodeId>, id: NodeId, prio: int): string
    requires WellFormed(g) && id in g
    decreases Unvisited(g, seen), 0, 0
  {
    var n := g[id];
    if n.Atomic? then Label(n.ti)
    else if id in seen then Placeholder(Identifier(n))
    else
      assert Unvisited(g, seen + [id]) < Unvisited(g, seen) by {
        assert id in Unvisited(g, seen) && id !in Unvisited(g, seen + [id]);
      }
      TableEntry(g, seen + [id], n, prio)
  }

  /** joinX: the operands in order, separated by `sep`, each at priority `prio`. */
  function Join(g: Graph, seen: seq<NodeId>, ops: seq<NodeId>, sep: string, prio: int): string
    requires WellFormed(g) && AllIn(ops, g)
    decreases Unvisited(g, seen), 1, |ops|
  {
    if ops == [] then ""
    else
      var k := |ops| - 1;
      Join(g, seen, ops[..k], sep, prio) + (if k == 0 then "" else sep) + Render(g, seen, ops[k], prio)
  }

  /** One struct entry: key, '?' when optional, ':', value type. */
  function StructEntryText(g: Graph, seen: seq<NodeId>, e: StructEntry): string
    requires WellFormed(g) && e.key in g && e.value in g
    decreases Unvisited(g, seen), 1, 0
  {
    Render(g, seen, e.key, CommaPrio) + (if e.required then "" else "?") + ":" + Render(g, seen, e.value, CommaPrio)
  }

  /** joinStructEntries: the entries in declaration order, separated by ','. */
  function JoinEntries(g: Graph, seen: seq<NodeId>, es: seq<StructEntry>): string
    requires WellFormed(g) && EntriesIn(es, g)
    decreases Unvisited(g, seen), 2, |es|
  {
    if es == [] then ""
    else
      var k := |es| - 1;
      JoinEntries(g, seen, es[..k]) + (if k == 0 then "" else ",") + StructEntryText(g, seen, es[k])
  }

  /** writeTernary: the joined operands, in parentheses when the context priority is at least orPrio. */
  function Ternary(g: Graph, seen: seq<NodeId>, ops: seq<NodeId>, prio: int, op: string, opPrio: int): string
    requires WellFormed(g) && AllIn(ops, g)
    decreases Unvisited(g, seen), 2, 0
  {
    (if prio >= OrPrio then "(" else "") + Join(g, seen, ops, op, opPrio) + (if prio >= OrPrio then ")" else "")
  }

  /** TiArray: "[]" or "[bounds]", then the element type at typePrio. */
  function ArrayText(g: Graph, seen: seq<NodeId>, min: int, max: int, e: NodeId): string
    requires WellFormed(g) && e in g
    decreases Unvisited(g, seen), 3, 0
  {
    (if Unbounded(min, max) then "[]" else "[" + SizeBoundaries(min, max) + "]") + Render(g, seen, e, TypePrio)
  }

  /** TiMap: "map[" key, ",bounds" when bounded, "]" and the value type at typePrio. */
  function MapText(g: Graph, seen: seq<NodeId>, k: NodeId, min: int, max: int, v: NodeId): string
    requires WellFormed(g) && k in g && v in g
    decreases Unvisited(g, seen), 3, 0
  {
    "map[" + Render(g, seen, k, CommaPrio)
    + (if Unbounded(min, max) then "" else "," + SizeBoundaries(min, max))
    + "]" + Render(g, seen, v, TypePrio)
  }

  /** TiStruct: the entries in braces, then "..." (after a ',' when there are entries) if additional. */
  function StructText(g: Graph, seen: seq<NodeId>, es: seq<StructEntry>, additional: bool): string
    requires WellFormed(g) && EntriesIn(es, g)
    decreases Unvisited(g, seen), 3, 0
  {
    "{" + JoinEntries(g, seen, es)
    + (if additional then (if |es| > 0 then "," else "") + "..." else "")
    + "}"
  }

  /** TiMapEntryExact: key, ':', value. */
  function MapEntryText(g: Graph, seen: seq<NodeId>, k: NodeId, v: NodeId): string
    requires WellFormed(g) && k in g && v in g
    decreases Unvisited(g, seen), 3, 0
  {
    Render(g, seen, k, CommaPrio) + ":" + Render(g, seen, v, CommaPrio)
  }

  /** TiMeta: "type", then nothing for the any type, "[type]" for a nil operand, else the operand in brackets. */
  function MetaText(g: Graph, seen: seq<NodeId>, op: Option<NodeId>, prio: int): string
    requires WellFormed(g) && (op.Some? ==> op.value in g)
    decreases Unvisited(g, seen), 3, 0
  {
    "type" + (match op
              case None => "[type]"
              case Some(o) => if g[o] == Atomic(TiAny) then "" else "[" + Render(g, seen, o, prio) + "]")
  }

  /** The table entry (complexTypes) for a composite node; `seen` already ends with the node. */
  function TableEntry(g: Graph, seen: seq<NodeId>, n: Node, prio: int): string
    requires WellFormed(g) && ChildrenIn(n, g) && !n.Atomic?
    decreases Unvisited(g, seen), 4, 0
  {
    match n
    case AnyOf(ops) => Ternary(g, seen, ops, prio, "|", OrPrio)
    case OneOf(ops) => Ternary(g, seen, ops, prio, "^", XorPrio)
    case AllOf(ops) => Ternary(g, seen, ops, prio, "&", AndPrio)
    case AllOfValue(ops) => Ternary(g, seen, ops, prio, "&", AndPrio)
    case ArrayExact(els) => "{" + Join(g, seen, els, ",", CommaPrio) + "}"
    case Array(min, max, e) => ArrayText(g, seen, min, max, e)
    case Binary(min, max) => "binary" + OptionalBounds(min, max)
    case Tuple(els) => "{" + Join(g, seen, els, ",", CommaPrio) + "}"
    case MapType(k, min, max, v) => MapText(g, seen, k, min, max, v)
    case MapExact(es) => "{" + Join(g, seen, es, ",", CommaPrio) + "}"
    case Struct(es, additional) => StructText(g, seen, es, additional)
    case MapEntryExact(k, v) => MapEntryText(g, seen, k, v)
    case IntegerExact(i) => FormatInt(i)
    case IntegerRange(min, max, inclusive) => IntRange(min, max, inclusive)
    case RegexpExact(p) => "regexp[" + Quote(p) + "]"
    case StringExact(s) => Quote(s)
    case StringPattern(p) => SlashQuote(p)
    case StringSized(min, max) => "string" + OptionalBounds(min, max)
    case Not(op) => "!" + Render(g, seen, op, TypePrio)
    case Meta(op) => MetaText(g, seen, op, prio)
  }

  /** TypeString: the text of a whole type, started with no ancestors at priority 0. */
  function TypeText(t: ValidType): string {
    Render(t.graph, [], t.root, CommaPrio)
  }
}
