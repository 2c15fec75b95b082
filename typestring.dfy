/**
 * The type printer as the source runs it (internal/typestring.go): every
 * renderer appends, step by step, to one shared string builder. Each method
 * is proved to append exactly the text the pure specification in
 * TypeStringSpec describes.
 */
module TypeString {
  import opened Identifiers
  import opened Types
  import opened Format
  import opened Wrappers
  import opened TypeStringSpec

  /** strings.Builder: text that only ever grows at the end. */
  class StringBuilder {
    var text: string

    constructor ()
      ensures text == ""
    {
      text := "";
    }

    method WriteString(s: string)
      modifies this
      ensures text == old(text) + s
    {
      text := text + s;
    }

    method WriteByte(c: char)
      modifies this
      ensures text == old(text) + [c]
    {
      text := text + [c];
    }
  }

  /** TypeString: a fresh builder, no ancestors, priority 0. */
  method TypeString(g: Graph, id: NodeId) returns (s: string)
    requires WellFormed(g) && id in g
    ensures s == TypeText(TypeRef(g, id))
  {
    var sb := new StringBuilder();
    BuildTypeString(g, [], id, CommaPrio, sb);
    s := sb.text;
  }

  method WriteSizeBoundaries(min: int, max: int, sb: StringBuilder)
    modifies sb
    ensures sb.text == old(sb.text) + SizeBoundaries(min, max)
  {
    sb.WriteString(FormatInt(min));
    if max != MaxInt64 {
      sb.WriteByte(',');
      sb.WriteString(FormatInt(max));
    }
  }

  method WriteIntRange(min: int, max: int, inclusive: bool, sb: StringBuilder)
    modifies sb
    ensures sb.text == old(sb.text) + IntRange(min, max, inclusive)
  {
    ghost var t0 := sb.text;
    ghost var lo := if min != MinInt64 then FormatInt(min) else "";
    ghost var hi := if max != MaxInt64 then FormatInt(max) else "";
    if min != MinInt64 {
      sb.WriteString(FormatInt(min));
    }
    assert sb.text == t0 + lo;
    var op := "...";
    if inclusive {
      op := "..";
    }
    sb.WriteString(op);
    Assoc(t0, lo, op);
    ghost var t1 := sb.text;
    if max != MaxInt64 {
      sb.WriteString(FormatInt(max));
    }
    assert sb.text == t1 + hi;
    Assoc(t0, lo + op, hi);
  }

  // Proof helpers: re-associating concatenations, not properties of the printer.
  lemma Assoc(a: string, b: string, c: string)
    ensures a + b + c == a + (b + c)
  {
  }

  lemma AppendAssoc(a: string, b: string, c: string, d: string)
    ensures a + (b + c + d) == a + b + c + d
  {
  }

  lemma JoinSnoc(g: Graph, seen: seq<NodeId>, ops: seq<NodeId>, i: nat, s: string, prio: int)
    requires WellFormed(g) && AllIn(ops, g) && i < |ops|
    ensures Join(g, seen, ops[..i + 1], s, prio)
         == Join(g, seen, ops[..i], s, prio) + (if i == 0 then "" else s) + Render(g, seen, ops[i], prio)
  {
    assert ops[..i + 1][..i] == ops[..i];
  }

  /** joinX (and joinTypes/joinValueTypes, whose type conversions are the identity here). */
  method JoinX(g: Graph, seen: seq<NodeId>, ops: seq<NodeId>, s: string, prio: int, sb: StringBuilder)
    requires WellFormed(g) && AllIn(ops, g)
    modifies sb
    ensures sb.text == old(sb.text) + Join(g, seen, ops, s, prio)
    decreases Unvisited(g, seen), 1, |ops|
  {
    ghost var start := sb.text;
    var first := true;
    var i := 0;
    while i < |ops|
      invariant 0 <= i <= |ops|
      invariant first <==> i == 0
      invariant sb.text == start + Join(g, seen, ops[..i], s, prio)
    {
      ghost var before := start + Join(g, seen, ops[..i], s, prio);
      ghost var sep := if i == 0 then "" else s;
      if first {
        first := false;
      } else {
        sb.WriteString(s);
      }
      ghost var r := Render(g, seen, ops[i], prio);
      BuildTypeString(g, seen, ops[i], prio, sb);
      assert sb.text == before + sep + r;
      JoinSnoc(g, seen, ops, i, s, prio);
      AppendAssoc(start, Join(g, seen, ops[..i], s, prio), sep, r);
      i := i + 1;
    }
    assert ops[..i] == ops;
  }

  lemma JoinEntriesSnoc(g: Graph, seen: seq<NodeId>, es: seq<StructEntry>, i: nat)
    requires WellFormed(g) && EntriesIn(es, g) && i < |es|
    ensures JoinEntries(g, seen, es[..i + 1])
         == JoinEntries(g, seen, es[..i]) + (if i == 0 then "" else ",") + StructEntryText(g, seen, es[i])
  {
    assert es[..i + 1][..i] == es[..i];
  }

  /** Writes one struct entry (the body of joinStructEntries' loop, after the separator). */
  method WriteStructEntry(g: Graph, seen: seq<NodeId>, e: StructEntry, sb: StringBuilder)
    requires WellFormed(g) && e.key in g && e.value in g
    modifies sb
    ensures sb.text == old(sb.text) + StructEntryText(g, seen, e)
    decreases Unvisited(g, seen), 1, 0
  {
    ghost var t0 := sb.text;
    ghost var k := Render(g, seen, e.key, CommaPrio);
    ghost var q := if e.required then "" else "?";
    ghost var v := Render(g, seen, e.value, CommaPrio);
    BuildTypeString(g, seen, e.key, CommaPrio, sb);
    if !e.required {
      sb.WriteByte('?');
    }
    Assoc(t0, k, q);
    sb.WriteByte(':');
    Assoc(t0, k + q, ":");
    BuildTypeString(g, seen, e.value, CommaPrio, sb);
    Assoc(t0, k + q + ":", v);
  }

  method JoinStructEntries(g: Graph, seen: seq<NodeId>, es: seq<StructEntry>, sb: StringBuilder)
    requires WellFormed(g) && EntriesIn(es, g)
    modifies sb
    ensures sb.text == old(sb.text) + JoinEntries(g, seen, es)
    decreases Unvisited(g, seen), 2, |es|
  {
    ghost var start := sb.text;
    var first := true;
    var i := 0;
    while i < |es|
      invariant 0 <= i <= |es|
      invariant first <==> i == 0
      invariant sb.text == start + JoinEntries(g, seen, es[..i])
    {
      ghost var before := start + JoinEntries(g, seen, es[..i]);
      ghost var sep := if i == 0 then "" else ",";
      if first {
        first := false;
      } else {
        sb.WriteByte(',');
      }
      ghost var r := StructEntryText(g, seen, es[i]);
      WriteStructEntry(g, seen, es[i], sb);
      assert sb.text == before + sep + r;
      JoinEntriesSnoc(g, seen, es, i);
      AppendAssoc(start, JoinEntries(g, seen, es[..i]), sep, r);
      i := i + 1;
    }
    assert es[..i] == es;
  }

  method WriteTernary(g: Graph, seen: seq<NodeId>, ops: seq<NodeId>, prio: int, op: string, opPrio: int, sb: StringBuilder)
    requires WellFormed(g) && AllIn(ops, g)
    modifies sb
    ensures sb.text == old(sb.text) + Ternary(g, seen, ops, prio, op, opPrio)
    decreases Unvisited(g, seen), 2, 0
  {
    ghost var t0 := sb.text;
    ghost var open := if prio >= OrPrio then "(" else "";
    ghost var j := Join(g, seen, ops, op, opPrio);
    if prio >= OrPrio {
      sb.WriteByte('(');
    }
    JoinX(g, seen, ops, op, opPrio, sb);
    Assoc(t0, open, j);
    if prio >= OrPrio {
      sb.WriteByte(')');
    }
    Assoc(t0, open + j, open);
  }

  /** The TiArrayExact, TiTuple and TiMapExact entries: the elements in braces, separated by ','. */
  method WriteBraced(g: Graph, seen: seq<NodeId>, els: seq<NodeId>, sb: StringBuilder)
    requires WellFormed(g) && AllIn(els, g)
    modifies sb
    ensures sb.text == old(sb.text) + ("{" + Join(g, seen, els, ",", CommaPrio) + "}")
    decreases Unvisited(g, seen), 2, 0
  {
    ghost var t0 := sb.text;
    ghost var j := Join(g, seen, els, ",", CommaPrio);
    sb.WriteByte('{');
    JoinX(g, seen, els, ",", CommaPrio, sb);
    Assoc(t0, "{", j);
    sb.WriteByte('}');
    Assoc(t0, "{" + j, "}");
  }

  /** Writes "[" bounds "]" unless the bounds are the defaults. */
  method WriteOptionalBounds(min: int, max: int, sb: StringBuilder)
    modifies sb
    ensures sb.text == old(sb.text) + OptionalBounds(min, max)
  {
    if !Unbounded(min, max) {
      ghost var t0 := sb.text;
      sb.WriteByte('[');
      WriteSizeBoundaries(min, max, sb);
      Assoc(t0, "[", SizeBoundaries(min, max));
      sb.WriteByte(']');
      Assoc(t0, "[" + SizeBoundaries(min, max), "]");
    }
  }

  /** The TiArray entry. */
  method WriteArray(g: Graph, seen: seq<NodeId>, min: int, max: int, e: NodeId, sb: StringBuilder)
    requires WellFormed(g) && e in g
    modifies sb
    ensures sb.text == old(sb.text) + ArrayText(g, seen, min, max, e)
    decreases Unvisited(g, seen), 3, 0
  {
    ghost var t0 := sb.text;
    ghost var bounds := if Unbounded(min, max) then "[]" else "[" + SizeBoundaries(min, max) + "]";
    if Unbounded(min, max) {
      sb.WriteString("[]");
    } else {
      WriteOptionalBounds(min, max, sb);
    }
    assert sb.text == t0 + bounds;
    BuildTypeString(g, seen, e, TypePrio, sb);
    Assoc(t0, bounds, Render(g, seen, e, TypePrio));
  }

  /** The TiMap entry. */
  method WriteMap(g: Graph, seen: seq<NodeId>, k: NodeId, min: int, max: int, v: NodeId, sb: StringBuilder)
    requires WellFormed(g) && k in g && v in g
    modifies sb
    ensures sb.text == old(sb.text) + MapText(g, seen, k, min, max, v)
    decreases Unvisited(g, seen), 3, 0
  {
    ghost var t0 := sb.text;
    ghost var key := Render(g, seen, k, CommaPrio);
    ghost var bounds := if Unbounded(min, max) then "" else "," + SizeBoundaries(min, max);
    ghost var value := Render(g, seen, v, TypePrio);
    sb.WriteString("map[");
    BuildTypeString(g, seen, k, CommaPrio, sb);
    Assoc(t0, "map[", key);
    if !Unbounded(min, max) {
      sb.WriteByte(',');
      WriteSizeBoundaries(min, max, sb);
      Assoc(t0 + "map[" + key, ",", SizeBoundaries(min, max));
    }
    Assoc(t0, "map[" + key, bounds);
    sb.WriteByte(']');
    Assoc(t0, "map[" + key + bounds, "]");
    BuildTypeString(g, seen, v, TypePrio, sb);
    Assoc(t0, "map[" + key + bounds + "]", value);
  }

  /** The TiStruct entry. */
  method WriteStruct(g: Graph, seen: seq<NodeId>, es: seq<StructEntry>, additional: bool, sb: StringBuilder)
    requires WellFormed(g) && EntriesIn(es, g)
    modifies sb
    ensures sb.text == old(sb.text) + StructText(g, seen, es, additional)
    decreases Unvisited(g, seen), 3, 0
  {
    ghost var t0 := sb.text;
    ghost var body := JoinEntries(g, seen, es);
    ghost var tail := if additional then (if |es| > 0 then "," else "") + "..." else "";
    sb.WriteByte('{');
    JoinStructEntries(g, seen, es, sb);
    Assoc(t0, "{", body);
    if additional {
      ghost var t1 := sb.text;
      if |es| > 0 {
        sb.WriteByte(',');
      }
      sb.WriteString("...");
      Assoc(t1, if |es| > 0 then "," else "", "...");
    }
    Assoc(t0, "{" + body, tail);
    sb.WriteByte('}');
    Assoc(t0, "{" + body + tail, "}");
  }

  /** The TiMapEntryExact entry. */
  method WriteMapEntry(g: Graph, seen: seq<NodeId>, k: NodeId, v: NodeId, sb: StringBuilder)
    requires WellFormed(g) && k in g && v in g
    modifies sb
    ensures sb.text == old(sb.text) + MapEntryText(g, seen, k, v)
    decreases Unvisited(g, seen), 3, 0
  {
    ghost var t0 := sb.text;
    ghost var key := Render(g, seen, k, CommaPrio);
    BuildTypeString(g, seen, k, CommaPrio, sb);
    sb.WriteByte(':');
    Assoc(t0, key, ":");
    BuildTypeString(g, seen, v, CommaPrio, sb);
    Assoc(t0, key + ":", Render(g, seen, v, CommaPrio));
  }

  /** The TiMeta entry. */
  method WriteMeta(g: Graph, seen: seq<NodeId>, op: Option<NodeId>, prio: int, sb: StringBuilder)
    requires WellFormed(g) && (op.Some? ==> op.value in g)
    modifies sb
    ensures sb.text == old(sb.text) + MetaText(g, seen, op, prio)
    decreases Unvisited(g, seen), 3, 0
  {
    ghost var t0 := sb.text;
    sb.WriteString("type");
    var isDefaultAny := op.Some? && g[op.value] == Atomic(TiAny);
    if !isDefaultAny {
      if op == None {
        sb.WriteString("[type]");
        Assoc(t0, "type", "[type]");
      } else {
        ghost var inner := Render(g, seen, op.value, prio);
        sb.WriteByte('[');
        BuildTypeString(g, seen, op.value, prio, sb);
        Assoc(t0 + "type", "[", inner);
        sb.WriteByte(']');
        Assoc(t0 + "type", "[" + inner, "]");
        Assoc(t0, "type", "[" + inner + "]");
      }
    } else {
      assert "type" + "" == "type";
    }
  }

  /** The TiNot entry. */
  method WriteNot(g: Graph, seen: seq<NodeId>, op: NodeId, sb: StringBuilder)
    requires WellFormed(g) && op in g
    modifies sb
    ensures sb.text == old(sb.text) + ("!" + Render(g, seen, op, TypePrio))
    decreases Unvisited(g, seen), 3, 0
  {
    ghost var t0 := sb.text;
    sb.WriteByte('!');
    BuildTypeString(g, seen, op, TypePrio, sb);
    Assoc(t0, "!", Render(g, seen, op, TypePrio));
  }

  /** The TiBinary and TiStringSized entries: the name, then the bounds unless unbounded. */
  method WriteSized(name: string, min: int, max: int, sb: StringBuilder)
    modifies sb
    ensures sb.text == old(sb.text) + (name + OptionalBounds(min, max))
  {
    ghost var t0 := sb.text;
    sb.WriteString(name);
    WriteOptionalBounds(min, max, sb);
    Assoc(t0, name, OptionalBounds(min, max));
  }

  /** The TiRegexpExact entry: the quoted pattern inside "regexp[...]". */
  method WriteRegexpExact(p: string, sb: StringBuilder)
    modifies sb
    ensures sb.text == old(sb.text) + ("regexp[" + Quote(p) + "]")
  {
    ghost var t0 := sb.text;
    sb.WriteString("regexp[");
    sb.WriteString(Quote(p));
    Assoc(t0, "regexp[", Quote(p));
    sb.WriteByte(']');
    Assoc(t0, "regexp[" + Quote(p), "]");
  }

  /** The complexTypes table: dispatch on the node's kind. */
  method WriteTableEntry(g: Graph, seen: seq<NodeId>, n: Node, prio: int, sb: StringBuilder)
    requires WellFormed(g) && ChildrenIn(n, g) && !n.Atomic?
    modifies sb
    ensures sb.text == old(sb.text) + TableEntry(g, seen, n, prio)
    decreases Unvisited(g, seen), 4, 0
  {
    match n {
      case AnyOf(ops) => WriteTernary(g, seen, ops, prio, "|", OrPrio, sb);
      case OneOf(ops) => WriteTernary(g, seen, ops, prio, "^", XorPrio, sb);
      case AllOf(ops) => WriteTernary(g, seen, ops, prio, "&", AndPrio, sb);
      case AllOfValue(ops) => WriteTernary(g, seen, ops, prio, "&", AndPrio, sb);
      case ArrayExact(els) => WriteBraced(g, seen, els, sb);
      case Array(min, max, e) => WriteArray(g, seen, min, max, e, sb);
      case Binary(min, max) => WriteSized("binary", min, max, sb);
      case Tuple(els) => WriteBraced(g, seen, els, sb);
      case MapType(k, min, max, v) => WriteMap(g, seen, k, min, max, v, sb);
      case MapExact(es) => WriteBraced(g, seen, es, sb);
      case Struct(es, additional) => WriteStruct(g, seen, es, additional, sb);
      case MapEntryExact(k, v) => WriteMapEntry(g, seen, k, v, sb);
      case IntegerExact(i) => sb.WriteString(FormatInt(i));
      case IntegerRange(min, max, inclusive) => WriteIntRange(min, max, inclusive, sb);
      case RegexpExact(p) => WriteRegexpExact(p, sb);
      case StringExact(s) => sb.WriteString(Quote(s));
      case StringPattern(p) => sb.WriteString(SlashQuote(p));
      case StringSized(min, max) => WriteSized("string", min, max, sb);
      case Not(op) => WriteNot(g, seen, op, sb);
      case Meta(op) => WriteMeta(g, seen, op, prio, sb);
    }
  }

  /** buildTypeString: bare name, recursion placeholder, or the table entry with the node pushed on `seen`. */
  method BuildTypeString(g: Graph, seen: seq<NodeId>, id: NodeId, prio: int, sb: StringBuilder)
    requires WellFormed(g) && id in g
    modifies sb
    ensures sb.text == old(sb.text) + Render(g, seen, id, prio)
    decreases Unvisited(g, seen), 0, 0
  {
    var n := g[id];
    var ti := Identifier(n);
    if HasTableEntry(ti) {
      if id in seen {
        ghost var t0 := sb.text;
        sb.WriteString("<recursive self reference to ");
        sb.WriteString(Label(ti));
        Assoc(t0, "<recursive self reference to ", Label(ti));
        sb.WriteString(" type>");
        Assoc(t0, "<recursive self reference to " + Label(ti), " type>");
        return;
      }
      assert id in Unvisited(g, seen) && id !in Unvisited(g, seen + [id]);
      WriteTableEntry(g, seen + [id], n, prio, sb);
    } else {
      sb.WriteString(Label(ti));
    }
  }
}
