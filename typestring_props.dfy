/**
 * Properties of the type printer (internal/typestring.go), stated about the
 * pure specification in TypeStringSpec.
 */
module TypeStringProps {
  import opened Identifiers
  import opened Types
  import opened Format
  import opened Wrappers
  import opened TypeStringSpec

  // ---- dispatch and the ancestor guard ----

  /** A kind without a table entry prints as its bare name, whatever the ancestors and priority. */
  lemma AbsentKindPrintsName(g: Graph, seen: seq<NodeId>, id: NodeId, prio: int)
    requires WellFormed(g) && id in g && !HasTableEntry(Identifier(g[id]))
    ensures Render(g, seen, id, prio) == Label(Identifier(g[id]))
    ensures Render(g, seen, id, prio) == Render(g, [], id, CommaPrio)
  {
  }

  /**
   * A composite node already on the path prints the fixed placeholder and
   * nothing else; otherwise its table entry runs with the node pushed on the path.
   */
  lemma SeenGuard(g: Graph, seen: seq<NodeId>, id: NodeId, prio: int)
    requires WellFormed(g) && id in g && HasTableEntry(Identifier(g[id]))
    ensures id in seen ==>
      Render(g, seen, id, prio) == "<recursive self reference to " + Label(Identifier(g[id])) + " type>"
    ensures id !in seen ==>
      Render(g, seen, id, prio) == TableEntry(g, seen + [id], g[id], prio)
      && |Unvisited(g, seen + [id])| < |Unvisited(g, seen)|
  {
    if id !in seen {
      assert Unvisited(g, seen + [id]) + {id} == Unvisited(g, seen);
    }
  }

  // ---- joins ----

  /** joinX read front to back: the first operand, then the separator and the rest. */
  lemma {:induction false} JoinCons(g: Graph, seen: seq<NodeId>, ops: seq<NodeId>, sep: string, prio: int)
    requires WellFormed(g) && AllIn(ops, g) && |ops| > 0
    ensures Join(g, seen, ops, sep, prio)
         == Render(g, seen, ops[0], prio) + (if |ops| == 1 then "" else sep + Join(g, seen, ops[1..], sep, prio))
    decreases |ops|
  {
    if |ops| > 1 {
      var k := |ops| - 1;
      var r0, rk := Render(g, seen, ops[0], prio), Render(g, seen, ops[k], prio);
      var front := Join(g, seen, ops[..k], sep, prio);
      assert Join(g, seen, ops, sep, prio) == front + sep + rk;
      JoinCons(g, seen, ops[..k], sep, prio);
      assert ops[..k][0] == ops[0];
      if k == 1 {
        assert front == r0;
        assert ops[1..] == [ops[k]] && [ops[k]][..0] == [];
        assert Join(g, seen, ops[1..], sep, prio) == "" + "" + rk;
        StringAssoc(r0, sep, rk);
      } else {
        var mid := Join(g, seen, ops[1..][..k - 1], sep, prio);
        assert ops[..k][1..] == ops[1..][..k - 1];
        assert front == r0 + (sep + mid);
        assert ops[1..][k - 1] == ops[k];
        assert Join(g, seen, ops[1..], sep, prio) == mid + sep + rk;
        JoinAssoc(r0, sep, mid, rk);
      }
    }
  }

  // Proof helpers: re-associating concatenations, not properties of the printer.
  lemma StringAssoc(a: string, b: string, c: string)
    ensures a + b + c == a + (b + ("" + "" + c))
  {
  }

  lemma JoinAssoc(r0: string, sep: string, mid: string, rk: string)
    ensures r0 + (sep + mid) + sep + rk == r0 + (sep + (mid + sep + rk))
  {
  }

  // ---- the table entries, one kind at a time ----

  lemma TernaryEntries(g: Graph, seen: seq<NodeId>, ops: seq<NodeId>, prio: int)
    requires WellFormed(g) && AllIn(ops, g)
    ensures TableEntry(g, seen, AnyOf(ops), prio) == Ternary(g, seen, ops, prio, "|", OrPrio)
    ensures TableEntry(g, seen, OneOf(ops), prio) == Ternary(g, seen, ops, prio, "^", XorPrio)
    ensures TableEntry(g, seen, AllOf(ops), prio) == Ternary(g, seen, ops, prio, "&", AndPrio)
    ensures TableEntry(g, seen, AllOfValue(ops), prio) == Ternary(g, seen, ops, prio, "&", AndPrio)
  {
  }

  lemma ExactEntries(g: Graph, seen: seq<NodeId>, prio: int, i: int, text: string)
    requires WellFormed(g)
    ensures TableEntry(g, seen, IntegerExact(i), prio) == FormatInt(i)
    ensures TableEntry(g, seen, StringExact(text), prio) == Quote(text)
    ensures TableEntry(g, seen, RegexpExact(text), prio) == "regexp[" + Quote(text) + "]"
  {
  }

  lemma StructEntryOf(g: Graph, seen: seq<NodeId>, es: seq<StructEntry>, additional: bool, prio: int)
    requires WellFormed(g) && EntriesIn(es, g)
    ensures TableEntry(g, seen, Struct(es, additional), prio) == StructText(g, seen, es, additional)
  {
  }

  lemma MetaEntry(g: Graph, seen: seq<NodeId>, op: Option<NodeId>, prio: int)
    requires WellFormed(g) && (op.Some? ==> op.value in g)
    ensures TableEntry(g, seen, Meta(op), prio) == MetaText(g, seen, op, prio)
  {
  }

  // ---- operator priorities ----

  predicate IsTernary(n: Node) {
    n.AnyOf? || n.OneOf? || n.AllOf? || n.AllOfValue?
  }

  function Operator(n: Node): string
    requires IsTernary(n)
  {
    if n.AnyOf? then "|" else if n.OneOf? then "^" else "&"
  }

  function OperatorPrio(n: Node): int
    requires IsTernary(n)
  {
    if n.AnyOf? then OrPrio else if n.OneOf? then XorPrio else AndPrio
  }

  /**
   * Union, one-of and all-of are parenthesised exactly when the context
   * priority is at least orPrio; their operands are printed at the operator's
   * own priority.
   */
  lemma TernaryParentheses(g: Graph, seen: seq<NodeId>, id: NodeId, prio: int)
    requires WellFormed(g) && id in g && IsTernary(g[id]) && id !in seen
    ensures var body := Join(g, seen + [id], g[id].operands, Operator(g[id]), OperatorPrio(g[id]));
      Render(g, seen, id, prio) == if prio >= OrPrio then "(" + body + ")" else body
  {
    var n := g[id];
    SeenGuard(g, seen, id, prio);
    TernaryEntries(g, seen + [id], n.operands, prio);
    if n.AnyOf? {
      assert n == AnyOf(n.operands);
    } else if n.OneOf? {
      assert n == OneOf(n.operands);
    } else if n.AllOf? {
      assert n == AllOf(n.operands);
    } else {
      assert n == AllOfValue(n.operands);
    }
  }

  /** At the top (TypeString starts at priority 0) a union, one-of or all-of is never parenthesised. */
  lemma TopLevelTernaryBare(t: ValidType)
    requires IsTernary(t.graph[t.root])
    ensures var n := t.graph[t.root];
      TypeText(t) == Join(t.graph, [t.root], n.operands, Operator(n), OperatorPrio(n))
  {
    assert [] + [t.root] == [t.root];
    TernaryParentheses(t.graph, [], t.root, CommaPrio);
  }

  /** A union, one-of or all-of that is a direct operand of another one is always parenthesised. */
  lemma NestedTernaryParenthesised(g: Graph, seen: seq<NodeId>, id: NodeId, prio: int, i: nat)
    requires WellFormed(g) && id in g && IsTernary(g[id]) && id !in seen
    requires i < |g[id].operands| && IsTernary(g[g[id].operands[i]]) && g[id].operands[i] !in seen + [id]
    ensures var child := Render(g, seen + [id], g[id].operands[i], OperatorPrio(g[id]));
      |child| >= 2 && child[0] == '(' && child[|child| - 1] == ')'
  {
    TernaryParentheses(g, seen + [id], g[id].operands[i], OperatorPrio(g[id]));
  }

  // ---- bounds and ranges read back ----

  /** The position of the first `c` in `s`, or |s| when there is none. */
  function FirstIndex(s: string, c: char): (i: nat)
    ensures i <= |s|
    ensures forall j :: 0 <= j < i ==> s[j] != c
    ensures i < |s| ==> s[i] == c
  {
    if s == [] then 0 else if s[0] == c then 0 else 1 + FirstIndex(s[1..], c)
  }

  /** Reads "min" or "min,max" back; a missing max is MaxInt64. */
  function ParseSizeBoundaries(s: string): Option<(int, int)> {
    var i := FirstIndex(s, ',');
    if i == |s| then
      match ParseInt(s)
      case Some(min) => Some((min, MaxInt64))
      case None => None
    else
      match (ParseInt(s[..i]), ParseInt(s[i + 1..]))
      case (Some(min), Some(max)) => Some((min, max))
      case _ => None
  }

  /** Reads a sized kind back: the bare name means the default bounds 0 and MaxInt64. */
  function ParseSized(name: string, s: string): Option<(int, int)> {
    if s == name then Some((0, MaxInt64))
    else if |s| >= |name| + 2 && s[..|name| + 1] == name + "[" && s[|s| - 1] == ']' then
      ParseSizeBoundaries(s[|name| + 1..|s| - 1])
    else None
  }

  /** Reads "min..max" or "min...max" back; a missing min is MinInt64, a missing max MaxInt64. */
  function ParseIntRange(s: string): Option<(int, int, bool)> {
    var i := FirstIndex(s, '.');
    if i + 3 <= |s| && s[i..i + 3] == "..." then RangeOf(ParseBound(s[..i], MinInt64), ParseBound(s[i + 3..], MaxInt64), false)
    else if i + 2 <= |s| && s[i..i + 2] == ".." then RangeOf(ParseBound(s[..i], MinInt64), ParseBound(s[i + 2..], MaxInt64), true)
    else None
  }

  function ParseBound(t: string, omitted: int): Option<int> {
    if t == "" then Some(omitted) else ParseInt(t)
  }

  function RangeOf(lo: Option<int>, hi: Option<int>, inclusive: bool): Option<(int, int, bool)> {
    if lo.Some? && hi.Some? then Some((lo.value, hi.value, inclusive)) else None
  }

  lemma NoCharOfInt(n: int, c: char)
    requires c != '-' && !IsDigit(c)
    ensures forall j :: 0 <= j < |FormatInt(n)| ==> FormatInt(n)[j] != c
  {
    forall j | 0 <= j < |FormatInt(n)| ensures FormatInt(n)[j] != c {
      FormatIntChars(n, j);
    }
  }

  /** The text of the bounds determines the bounds. */
  lemma SizeBoundariesRoundTrip(min: int, max: int)
    ensures ParseSizeBoundaries(SizeBoundaries(min, max)) == Some((min, max))
  {
    var lo := FormatInt(min);
    var s := SizeBoundaries(min, max);
    NoCharOfInt(min, ',');
    FormatIntRoundTrip(min);
    if max != MaxInt64 {
      NoCharOfInt(max, ',');
      FormatIntRoundTrip(max);
      assert s == lo + "," + FormatInt(max);
      assert s[|lo|] == ',';
      assert FirstIndex(s, ',') == |lo|;
      assert s[..|lo|] == lo && s[|lo| + 1..] == FormatInt(max);
    } else {
      assert s == lo;
    }
  }

  /** A sized string or binary type reads back to its bounds. */
  lemma SizedRoundTrip(name: string, min: int, max: int)
    requires name != "" && name[|name| - 1] != ']'
    ensures ParseSized(name, name + OptionalBounds(min, max)) == Some((min, max))
  {
    if Unbounded(min, max) {
      assert name + OptionalBounds(min, max) == name;
    } else {
      var b := SizeBoundaries(min, max);
      BracketedSized(name, b);
      SizeBoundariesRoundTrip(min, max);
    }
  }

  /** A name followed by a bracketed section is read as that section. */
  lemma BracketedSized(name: string, b: string)
    requires name != ""
    ensures ParseSized(name, name + ("[" + b + "]")) == ParseSizeBoundaries(b)
  {
    var s := name + ("[" + b + "]");
    assert |s| > |name|;
    assert s[..|name| + 1] == name + "[";
    assert s[|name| + 1..|s| - 1] == b;
  }


  /** The first dot of a text whose head has none is where the head ends. */
  lemma DotSplit(lo: string, rest: string)
    requires forall j :: 0 <= j < |lo| ==> lo[j] != '.'
    requires rest != [] && rest[0] == '.'
    ensures FirstIndex(lo + rest, '.') == |lo|
    ensures (lo + rest)[..|lo|] == lo && (lo + rest)[|lo|..] == rest
  {
    var s := lo + rest;
    assert s[|lo|] == '.';
    assert forall j :: 0 <= j < |lo| ==> s[j] == lo[j];
  }

  lemma RangeSplit(lo: string, op: string, hi: string)
    requires forall j :: 0 <= j < |lo| ==> lo[j] != '.'
    requires op == ".." || op == "..."
    requires hi == "" || hi[0] != '.'
    ensures ParseIntRange(lo + op + hi) == RangeOf(ParseBound(lo, MinInt64), ParseBound(hi, MaxInt64), op == "..")
  {
    var rest := op + hi;
    var s := lo + rest;
    var n := |lo|;
    assert lo + op + hi == s;
    DotSplit(lo, rest);
    assert s[n..] == rest;
    if op == "..." {
      assert s[n..n + 3] == rest[..3] == op;
      assert s[n + 3..] == rest[3..] == hi;
    } else {
      assert s[n..n + 2] == rest[..2] == op;
      assert s[n + 2..] == rest[2..] == hi;
      if n + 3 <= |s| {
        assert s[n + 2] == rest[2] == hi[0];
      }
    }
  }

  /** The text of an integer range determines its bounds and inclusiveness. */
  lemma IntRangeRoundTrip(min: int, max: int, inclusive: bool)
    ensures ParseIntRange(IntRange(min, max, inclusive)) == Some((min, max, inclusive))
  {
    var lo := if min != MinInt64 then FormatInt(min) else "";
    var op := if inclusive then ".." else "...";
    var hi := if max != MaxInt64 then FormatInt(max) else "";
    if min != MinInt64 {
      NoCharOfInt(min, '.');
      FormatIntRoundTrip(min);
    }
    if max != MaxInt64 {
      FormatIntRoundTrip(max);
      FormatIntChars(max, 0);
    }
    RangeSplit(lo, op, hi);
    assert IntRange(min, max, inclusive) == lo + op + hi;
  }

  /** The table entries of the leaf kinds with bounds. */
  lemma LeafEntries(g: Graph, seen: seq<NodeId>, prio: int, min: int, max: int, inclusive: bool)
    requires WellFormed(g)
    ensures TableEntry(g, seen, StringSized(min, max), prio) == "string" + OptionalBounds(min, max)
    ensures TableEntry(g, seen, Binary(min, max), prio) == "binary" + OptionalBounds(min, max)
    ensures TableEntry(g, seen, IntegerRange(min, max, inclusive), prio) == IntRange(min, max, inclusive)
  {
  }

  /** What a sized string or binary node prints when it is not on the path. */
  lemma SizedRender(g: Graph, seen: seq<NodeId>, id: NodeId, prio: int)
    requires WellFormed(g) && id in g && (g[id].StringSized? || g[id].Binary?) && id !in seen
    ensures Render(g, seen, id, prio)
         == (if g[id].StringSized? then "string" else "binary") + OptionalBounds(g[id].min, g[id].max)
  {
    var n := g[id];
    SeenGuard(g, seen, id, prio);
    LeafEntries(g, seen + [id], prio, n.min, n.max, false);
    if n.StringSized? {
      assert n == StringSized(n.min, n.max);
    } else {
      assert n == Binary(n.min, n.max);
    }
  }

  /** What an integer range node prints when it is not on the path. */
  lemma RangeRender(g: Graph, seen: seq<NodeId>, id: NodeId, prio: int)
    requires WellFormed(g) && id in g && g[id].IntegerRange? && id !in seen
    ensures Render(g, seen, id, prio) == IntRange(g[id].min, g[id].max, g[id].inclusive)
  {
    var n := g[id];
    SeenGuard(g, seen, id, prio);
    LeafEntries(g, seen + [id], prio, n.min, n.max, n.inclusive);
    assert n == IntegerRange(n.min, n.max, n.inclusive);
  }

  /** A sized string node reads back to its bounds ("string[1,10]", or "string" when unbounded). */
  lemma StringSizedReadsBack(g: Graph, seen: seq<NodeId>, id: NodeId, prio: int)
    requires WellFormed(g) && id in g && g[id].StringSized? && id !in seen
    ensures ParseSized("string", Render(g, seen, id, prio)) == Some((g[id].min, g[id].max))
  {
    SizedRender(g, seen, id, prio);
    SizedRoundTrip("string", g[id].min, g[id].max);
  }

  /** A sized binary node reads back to its bounds. */
  lemma BinaryReadsBack(g: Graph, seen: seq<NodeId>, id: NodeId, prio: int)
    requires WellFormed(g) && id in g && g[id].Binary? && id !in seen
    ensures ParseSized("binary", Render(g, seen, id, prio)) == Some((g[id].min, g[id].max))
  {
    SizedRender(g, seen, id, prio);
    SizedRoundTrip("binary", g[id].min, g[id].max);
  }

  /** An integer range node reads back to its bounds and inclusiveness. */
  lemma IntegerRangeReadsBack(g: Graph, seen: seq<NodeId>, id: NodeId, prio: int)
    requires WellFormed(g) && id in g && g[id].IntegerRange? && id !in seen
    ensures ParseIntRange(Render(g, seen, id, prio)) == Some((g[id].min, g[id].max, g[id].inclusive))
  {
    RangeRender(g, seen, id, prio);
    IntRangeRoundTrip(g[id].min, g[id].max, g[id].inclusive);
  }

  /** Exact integer and exact string nodes print literals that read back to their values. */
  lemma ExactLiteralsReadBack(g: Graph, seen: seq<NodeId>, id: NodeId, prio: int)
    requires WellFormed(g) && id in g && id !in seen
    ensures g[id].IntegerExact? ==> ParseInt(Render(g, seen, id, prio)) == Some(g[id].intValue)
    ensures g[id].StringExact? ==> Unquote(Render(g, seen, id, prio)) == Some(g[id].text)
    ensures g[id].RegexpExact? ==>
      var s := Render(g, seen, id, prio);
      |s| >= 8 && s[..7] == "regexp[" && s[|s| - 1] == ']' && Unquote(s[7..|s| - 1]) == Some(g[id].pattern)
  {
    if g[id].IntegerExact? || g[id].StringExact? || g[id].RegexpExact? {
      SeenGuard(g, seen, id, prio);
    }
    match g[id]
    case IntegerExact(i) =>
      ExactEntries(g, seen + [id], prio, i, "");
      FormatIntRoundTrip(i);
    case StringExact(t) =>
      ExactEntries(g, seen + [id], prio, 0, t);
      QuoteRoundTrip(t);
    case RegexpExact(p) =>
      ExactEntries(g, seen + [id], prio, 0, p);
      var s := Render(g, seen, id, prio);
      assert s == "regexp[" + Quote(p) + "]";
      assert s[7..|s| - 1] == Quote(p);
      QuoteRoundTrip(p);
    case _ =>
  }

  // ---- the seen list only matters on cycles ----

  /** `id` has a rank below `r`. */
  predicate Below(rank: map<NodeId, nat>, id: NodeId, r: nat) {
    id in rank && rank[id] < r
  }

  predicate AllBelow(rank: map<NodeId, nat>, ids: seq<NodeId>, r: nat) {
    forall i :: 0 <= i < |ids| ==> Below(rank, ids[i], r)
  }

  predicate EntriesBelow(rank: map<NodeId, nat>, es: seq<StructEntry>, r: nat) {
    forall i :: 0 <= i < |es| ==> Below(rank, es[i].key, r) && Below(rank, es[i].value, r)
  }

  /** Every operand of `n` has a rank below `r`. */
  predicate ChildrenBelow(rank: map<NodeId, nat>, n: Node, r: nat) {
    match n
    case Meta(op) => op.Some? ==> Below(rank, op.value, r)
    case AnyOf(ops) => AllBelow(rank, ops, r)
    case OneOf(ops) => AllBelow(rank, ops, r)
    case AllOf(ops) => AllBelow(rank, ops, r)
    case AllOfValue(ops) => AllBelow(rank, ops, r)
    case ArrayExact(els) => AllBelow(rank, els, r)
    case Array(_, _, e) => Below(rank, e, r)
    case Tuple(els) => AllBelow(rank, els, r)
    case MapType(k, _, _, v) => Below(rank, k, r) && Below(rank, v, r)
    case MapExact(es) => AllBelow(rank, es, r)
    case Struct(es, _) => EntriesBelow(rank, es, r)
    case MapEntryExact(k, v) => Below(rank, k, r) && Below(rank, v, r)
    case Not(op) => Below(rank, op, r)
    case _ => true
  }

  /** `rank` witnesses that the graph has no cycle: every operand ranks below its parent. */
  predicate Ranked(g: Graph, rank: map<NodeId, nat>) {
    forall id :: id in g ==> id in rank && ChildrenBelow(rank, g[id], rank[id])
  }

  /** Every node of `seen` ranks at least `r`, so none of them is reachable from a node below `r`. */
  predicate AtLeast(rank: map<NodeId, nat>, seen: seq<NodeId>, r: nat) {
    forall i :: 0 <= i < |seen| ==> seen[i] in rank && rank[seen[i]] >= r
  }

  /**
   * On an acyclic part of the graph the recursion guard never fires: two paths
   * whose ancestors cannot be reached again print a node the same way.
   */
  lemma {:induction false} RenderSeenFree(g: Graph, rank: map<NodeId, nat>, s1: seq<NodeId>, s2: seq<NodeId>,
                                           id: NodeId, prio: int, r: nat)
    requires WellFormed(g) && Ranked(g, rank) && id in g && Below(rank, id, r)
    requires AtLeast(rank, s1, r) && AtLeast(rank, s2, r)
    ensures Render(g, s1, id, prio) == Render(g, s2, id, prio)
    decreases r, 0, 0
  {
    var n := g[id];
    if !n.Atomic? {
      var q := rank[id];
      assert id !in s1 && id !in s2;
      TableEntrySeenFree(g, rank, s1 + [id], s2 + [id], n, prio, q);
    }
  }

  lemma {:induction false} JoinSeenFree(g: Graph, rank: map<NodeId, nat>, s1: seq<NodeId>, s2: seq<NodeId>,
                                         ops: seq<NodeId>, sep: string, prio: int, r: nat)
    requires WellFormed(g) && Ranked(g, rank) && AllIn(ops, g) && AllBelow(rank, ops, r)
    requires AtLeast(rank, s1, r) && AtLeast(rank, s2, r)
    ensures Join(g, s1, ops, sep, prio) == Join(g, s2, ops, sep, prio)
    decreases r, 1, |ops|
  {
    if ops != [] {
      var k := |ops| - 1;
      JoinSeenFree(g, rank, s1, s2, ops[..k], sep, prio, r);
      RenderSeenFree(g, rank, s1, s2, ops[k], prio, r);
    }
  }

  lemma {:induction false} JoinEntriesSeenFree(g: Graph, rank: map<NodeId, nat>, s1: seq<NodeId>, s2: seq<NodeId>,
                                                es: seq<StructEntry>, r: nat)
    requires WellFormed(g) && Ranked(g, rank) && EntriesIn(es, g) && EntriesBelow(rank, es, r)
    requires AtLeast(rank, s1, r) && AtLeast(rank, s2, r)
    ensures JoinEntries(g, s1, es) == JoinEntries(g, s2, es)
    decreases r, 2, |es|
  {
    if es != [] {
      var k := |es| - 1;
      JoinEntriesSeenFree(g, rank, s1, s2, es[..k], r);
      RenderSeenFree(g, rank, s1, s2, es[k].key, CommaPrio, r);
      RenderSeenFree(g, rank, s1, s2, es[k].value, CommaPrio, r);
    }
  }

  lemma {:induction false} TableEntrySeenFree(g: Graph, rank: map<NodeId, nat>, s1: seq<NodeId>, s2: seq<NodeId>,
                                               n: Node, prio: int, r: nat)
    requires WellFormed(g) && Ranked(g, rank) && ChildrenIn(n, g) && !n.Atomic? && ChildrenBelow(rank, n, r)
    requires AtLeast(rank, s1, r) && AtLeast(rank, s2, r)
    ensures TableEntry(g, s1, n, prio) == TableEntry(g, s2, n, prio)
    decreases r, 4, 0
  {
    match n
    case AnyOf(ops) => JoinSeenFree(g, rank, s1, s2, ops, "|", OrPrio, r);
    case OneOf(ops) => JoinSeenFree(g, rank, s1, s2, ops, "^", XorPrio, r);
    case AllOf(ops) => JoinSeenFree(g, rank, s1, s2, ops, "&", AndPrio, r);
    case AllOfValue(ops) => JoinSeenFree(g, rank, s1, s2, ops, "&", AndPrio, r);
    case ArrayExact(els) => JoinSeenFree(g, rank, s1, s2, els, ",", CommaPrio, r);
    case Tuple(els) => JoinSeenFree(g, rank, s1, s2, els, ",", CommaPrio, r);
    case MapExact(es) => JoinSeenFree(g, rank, s1, s2, es, ",", CommaPrio, r);
    case Array(_, _, e) => RenderSeenFree(g, rank, s1, s2, e, TypePrio, r);
    case MapType(k, _, _, v) =>
      RenderSeenFree(g, rank, s1, s2, k, CommaPrio, r);
      RenderSeenFree(g, rank, s1, s2, v, TypePrio, r);
    case Struct(es, _) => JoinEntriesSeenFree(g, rank, s1, s2, es, r);
    case MapEntryExact(k, v) =>
      RenderSeenFree(g, rank, s1, s2, k, CommaPrio, r);
      RenderSeenFree(g, rank, s1, s2, v, CommaPrio, r);
    case Not(op) => RenderSeenFree(g, rank, s1, s2, op, TypePrio, r);
    case Meta(op) =>
      if op.Some? {
        RenderSeenFree(g, rank, s1, s2, op.value, prio, r);
      }
    case _ =>
  }

  /**
   * On an acyclic graph a node prints the same under any path of ancestors as it
   * does on its own: the recursion guard changes nothing.
   */
  lemma AcyclicIgnoresAncestors(g: Graph, rank: map<NodeId, nat>, seen: seq<NodeId>, id: NodeId, prio: int)
    requires WellFormed(g) && Ranked(g, rank) && id in g
    requires forall i :: 0 <= i < |seen| ==> seen[i] in g && rank[seen[i]] > rank[id]
    ensures Render(g, seen, id, prio) == Render(g, [], id, prio)
  {
    RenderSeenFree(g, rank, seen, [], id, prio, rank[id] + 1);
  }

  // ---- examples: a node of the given shape, in any graph, printed from outside any cycle ----

  lemma Join2(g: Graph, seen: seq<NodeId>, a: NodeId, b: NodeId, sep: string, prio: int)
    requires WellFormed(g) && a in g && b in g
    ensures Join(g, seen, [a, b], sep, prio) == Render(g, seen, a, prio) + sep + Render(g, seen, b, prio)
  {
    assert [a, b][..1] == [a] && [a][..0] == [];
    assert Join(g, seen, [a], sep, prio) == "" + "" + Render(g, seen, a, prio);
    assert Join(g, seen, [a, b], sep, prio) == Join(g, seen, [a], sep, prio) + sep + Render(g, seen, b, prio);
  }

  /** string[1,10] */
  lemma SizedStringExample(g: Graph, seen: seq<NodeId>, id: NodeId, prio: int)
    requires WellFormed(g) && id in g && id !in seen && g[id] == StringSized(1, 10)
    ensures Render(g, seen, id, prio) == "string[1,10]"
  {
    SizedRender(g, seen, id, prio);
    assert FormatInt(1) == "1" && FormatInt(10) == "10";
    assert OptionalBounds(1, 10) == "[1,10]";
  }

  /** string[3]: the max is left out when it is MaxInt64. */
  lemma MinOnlyExample(g: Graph, seen: seq<NodeId>, id: NodeId, prio: int)
    requires WellFormed(g) && id in g && id !in seen && g[id] == StringSized(3, MaxInt64)
    ensures Render(g, seen, id, prio) == "string[3]"
  {
    SizedRender(g, seen, id, prio);
    assert FormatInt(3) == "3";
    assert OptionalBounds(3, MaxInt64) == "[3]";
  }

  /** The default bounds print as plain "string". */
  lemma DefaultBoundsExample(g: Graph, seen: seq<NodeId>, id: NodeId, prio: int)
    requires WellFormed(g) && id in g && id !in seen && g[id] == StringSized(0, MaxInt64)
    ensures Render(g, seen, id, prio) == "string"
  {
    SizedRender(g, seen, id, prio);
  }

  /** What a struct prints: its entries in braces, then "...", after a ',' when there are entries, if it is open. */
  lemma StructShape(g: Graph, seen: seq<NodeId>, id: NodeId, prio: int)
    requires WellFormed(g) && id in g && g[id].Struct? && id !in seen
    ensures var es := g[id].entries;
      Render(g, seen, id, prio)
      == "{" + JoinEntries(g, seen + [id], es)
         + (if g[id].additional then (if |es| > 0 then "," else "") + "..." else "") + "}"
  {
    var n := g[id];
    SeenGuard(g, seen, id, prio);
    StructEntryOf(g, seen + [id], n.entries, n.additional, prio);
    assert n == Struct(n.entries, n.additional);
  }

  /** An array prints "[]" or "[bounds]", then its element at type priority. */
  lemma ArrayShape(g: Graph, seen: seq<NodeId>, id: NodeId, prio: int)
    requires WellFormed(g) && id in g && g[id].Array? && id !in seen
    ensures var n := g[id];
      Render(g, seen, id, prio)
      == (if Unbounded(n.min, n.max) then "[]" else "[" + SizeBoundaries(n.min, n.max) + "]")
         + Render(g, seen + [id], n.element, TypePrio)
  {
    var n := g[id];
    SeenGuard(g, seen, id, prio);
    assert n == Array(n.min, n.max, n.element);
  }

  /** A map type prints "map[", its key, ",bounds" when bounded, "]", then its value at type priority. */
  lemma MapShape(g: Graph, seen: seq<NodeId>, id: NodeId, prio: int)
    requires WellFormed(g) && id in g && g[id].MapType? && id !in seen
    ensures var n := g[id];
      Render(g, seen, id, prio)
      == "map[" + Render(g, seen + [id], n.keyType, CommaPrio)
         + (if Unbounded(n.min, n.max) then "" else "," + SizeBoundaries(n.min, n.max))
         + "]" + Render(g, seen + [id], n.valueType, TypePrio)
  {
    var n := g[id];
    SeenGuard(g, seen, id, prio);
    assert n == MapType(n.keyType, n.min, n.max, n.valueType);
  }

  /** Tuples, exact arrays and exact maps print their elements in braces, separated by ',' at comma priority. */
  lemma BracedShape(g: Graph, seen: seq<NodeId>, id: NodeId, prio: int)
    requires WellFormed(g) && id in g && id !in seen
    requires g[id].Tuple? || g[id].ArrayExact? || g[id].MapExact?
    ensures var els := if g[id].Tuple? || g[id].ArrayExact? then g[id].elements else g[id].entryTypes;
      Render(g, seen, id, prio) == "{" + Join(g, seen + [id], els, ",", CommaPrio) + "}"
  {
    var n := g[id];
    SeenGuard(g, seen, id, prio);
    if n.Tuple? {
      assert n == Tuple(n.elements);
    } else if n.ArrayExact? {
      assert n == ArrayExact(n.elements);
    } else {
      assert n == MapExact(n.entryTypes);
    }
  }

  /** A negation prints '!' and its operand at type priority. */
  lemma NotShape(g: Graph, seen: seq<NodeId>, id: NodeId, prio: int)
    requires WellFormed(g) && id in g && g[id].Not? && id !in seen
    ensures Render(g, seen, id, prio) == "!" + Render(g, seen + [id], g[id].operand, TypePrio)
  {
    SeenGuard(g, seen, id, prio);
    assert g[id] == Not(g[id].operand);
  }

  /** []string: an unbounded array of strings. */
  lemma ArrayExample(g: Graph, seen: seq<NodeId>, id: NodeId, e: NodeId, prio: int)
    requires WellFormed(g) && id in g && e in g && id !in seen
    requires g[id] == Array(0, MaxInt64, e) && g[e] == Atomic(TiString)
    ensures Render(g, seen, id, prio) == "[]string"
  {
    ArrayShape(g, seen, id, prio);
    AbsentKindPrintsName(g, seen + [id], e, TypePrio);
  }

  /** map[string]int: an unbounded map from strings to integers. */
  lemma MapExample(g: Graph, seen: seq<NodeId>, id: NodeId, k: NodeId, v: NodeId, prio: int)
    requires WellFormed(g) && id in g && k in g && v in g && id !in seen
    requires g[id] == MapType(k, 0, MaxInt64, v) && g[k] == Atomic(TiString) && g[v] == Atomic(TiInteger)
    ensures Render(g, seen, id, prio) == "map[string]int"
  {
    MapShape(g, seen, id, prio);
    AbsentKindPrintsName(g, seen + [id], k, CommaPrio);
    AbsentKindPrintsName(g, seen + [id], v, TypePrio);
    assert "map[" + "string" + "" + "]" + "int" == "map[string]int";
  }

  /** {int,string}: a tuple of an integer and a string. */
  lemma TupleExample(g: Graph, seen: seq<NodeId>, id: NodeId, a: NodeId, b: NodeId, prio: int)
    requires WellFormed(g) && id in g && a in g && b in g && id !in seen
    requires g[id] == Tuple([a, b]) && g[a] == Atomic(TiInteger) && g[b] == Atomic(TiString)
    ensures Render(g, seen, id, prio) == "{int,string}"
  {
    BracedShape(g, seen, id, prio);
    Join2(g, seen + [id], a, b, ",", CommaPrio);
    AbsentKindPrintsName(g, seen + [id], a, CommaPrio);
    AbsentKindPrintsName(g, seen + [id], b, CommaPrio);
    assert "{" + ("int" + "," + "string") + "}" == "{int,string}";
  }

  /** !string: the negation of string. */
  lemma NotExample(g: Graph, seen: seq<NodeId>, id: NodeId, o: NodeId, prio: int)
    requires WellFormed(g) && id in g && o in g && id !in seen
    requires g[id] == Not(o) && g[o] == Atomic(TiString)
    ensures Render(g, seen, id, prio) == "!string"
  {
    NotShape(g, seen, id, prio);
    AbsentKindPrintsName(g, seen + [id], o, TypePrio);
  }

  lemma OneEntry(g: Graph, seen: seq<NodeId>, e: StructEntry)
    requires WellFormed(g) && e.key in g && e.value in g
    ensures JoinEntries(g, seen, [e]) == StructEntryText(g, seen, e)
  {
    assert [e][..0] == [];
  }

  /** The entry "a":string, with a '?' when it is optional. */
  lemma EntryExample(g: Graph, seen: seq<NodeId>, k: NodeId, v: NodeId, required: bool)
    requires WellFormed(g) && k in g && v in g && k !in seen
    requires g[k] == StringExact("a") && g[v] == Atomic(TiString)
    ensures StructEntryText(g, seen, StructEntry(k, v, required)) == "\"a\"" + (if required then "" else "?") + ":string"
  {
    SeenGuard(g, seen, k, CommaPrio);
    ExactEntries(g, seen + [k], CommaPrio, 0, "a");
    assert Escape("a") == "a";
    assert Render(g, seen, k, CommaPrio) == "\"a\"";
    AbsentKindPrintsName(g, seen, v, CommaPrio);
  }

  // Proof helper: the texts the struct examples assemble, spelled out.
  lemma StructTexts()
    ensures "{" + ("\"a\"" + "" + ":string") + "" + "}" == "{\"a\":string}"
    ensures "{" + ("\"a\"" + "?" + ":string") + ("," + "...") + "}" == "{\"a\"?:string,...}"
  {
  }

  /** {"a":string}: a closed struct with one required entry. */
  lemma ClosedStructExample(g: Graph, seen: seq<NodeId>, id: NodeId, k: NodeId, v: NodeId, prio: int)
    requires WellFormed(g) && id in g && k in g && v in g && id !in seen && k !in seen && k != id
    requires g[id] == Struct([StructEntry(k, v, true)], false)
    requires g[k] == StringExact("a") && g[v] == Atomic(TiString)
    ensures Render(g, seen, id, prio) == "{\"a\":string}"
  {
    StructShape(g, seen, id, prio);
    OneEntry(g, seen + [id], StructEntry(k, v, true));
    EntryExample(g, seen + [id], k, v, true);
    StructTexts();
  }

  /** {"a"?:string,...}: an open struct with one optional entry. */
  lemma OpenStructExample(g: Graph, seen: seq<NodeId>, id: NodeId, k: NodeId, v: NodeId, prio: int)
    requires WellFormed(g) && id in g && k in g && v in g && id !in seen && k !in seen && k != id
    requires g[id] == Struct([StructEntry(k, v, false)], true)
    requires g[k] == StringExact("a") && g[v] == Atomic(TiString)
    ensures Render(g, seen, id, prio) == "{\"a\"?:string,...}"
  {
    StructShape(g, seen, id, prio);
    OneEntry(g, seen + [id], StructEntry(k, v, false));
    EntryExample(g, seen + [id], k, v, false);
    StructTexts();
  }

  /** An open struct with no entries prints "{...}". */
  lemma EmptyOpenStructExample(g: Graph, seen: seq<NodeId>, id: NodeId, prio: int)
    requires WellFormed(g) && id in g && id !in seen && g[id] == Struct([], true)
    ensures Render(g, seen, id, prio) == "{...}"
  {
    StructShape(g, seen, id, prio);
  }

  // Proof helper: the texts the union examples assemble, spelled out.
  lemma ExampleTexts()
    ensures "<recursive self reference to " + "any of" + " type>" + "|" + "string"
         == "<recursive self reference to any of type>|string"
    ensures ("(" + ("int" + "|" + "string") + ")") + "&" + "int" == "(int|string)&int"
  {
  }

  /** A union that contains itself prints the placeholder where the cycle closes. */
  lemma RecursiveUnionExample(g: Graph, id: NodeId, sid: NodeId)
    requires WellFormed(g) && id in g && sid in g && g[id] == AnyOf([id, sid]) && g[sid] == Atomic(TiString)
    ensures Render(g, [], id, CommaPrio) == "<recursive self reference to any of type>|string"
  {
    assert [] + [id] == [id];
    TernaryParentheses(g, [], id, CommaPrio);
    SeenGuard(g, [id], id, OrPrio);
    Join2(g, [id], id, sid, "|", OrPrio);
    AbsentKindPrintsName(g, [id], sid, OrPrio);
    ExampleTexts();
  }

  /** The meta type of any is "type", of int "type[int]"; a nil operand prints "type[type]". */
  lemma MetaExample(g: Graph, seen: seq<NodeId>, id: NodeId, o: NodeId, prio: int)
    requires WellFormed(g) && id in g && id !in seen && o in g && g[id] == Meta(Some(o))
    ensures g[o] == Atomic(TiAny) ==> Render(g, seen, id, prio) == "type"
    ensures g[o] == Atomic(TiInteger) ==> Render(g, seen, id, prio) == "type[int]"
  {
    SeenGuard(g, seen, id, prio);
    MetaEntry(g, seen + [id], Some(o), prio);
  }

  lemma NilMetaExample(g: Graph, seen: seq<NodeId>, id: NodeId, prio: int)
    requires WellFormed(g) && id in g && id !in seen && g[id] == Meta(None)
    ensures Render(g, seen, id, prio) == "type[type]"
  {
    SeenGuard(g, seen, id, prio);
    MetaEntry(g, seen + [id], None, prio);
  }

  /** A union inside an intersection is parenthesised: (int|string)&int. */
  lemma PrecedenceExample(g: Graph, id: NodeId, u: NodeId, i: NodeId, s: NodeId)
    requires WellFormed(g) && id in g && u in g && i in g && s in g && id != u
    requires g[id] == AllOf([u, i]) && g[u] == AnyOf([i, s])
    requires g[i] == Atomic(TiInteger) && g[s] == Atomic(TiString)
    ensures Render(g, [], id, CommaPrio) == "(int|string)&int"
  {
    assert [] + [id] == [id];
    TernaryParentheses(g, [], id, CommaPrio);
    Join2(g, [id], u, i, "&", AndPrio);
    TernaryParentheses(g, [id], u, AndPrio);
    Join2(g, [id] + [u], i, s, "|", OrPrio);
    AbsentKindPrintsName(g, [id] + [u], i, OrPrio);
    AbsentKindPrintsName(g, [id] + [u], s, OrPrio);
    AbsentKindPrintsName(g, [id], i, AndPrio);
    assert Render(g, [id] + [u], i, OrPrio) == "int" && Render(g, [id] + [u], s, OrPrio) == "string";
    assert Render(g, [id], u, AndPrio) == "(" + ("int" + "|" + "string") + ")";
    ExampleTexts();
  }
}
