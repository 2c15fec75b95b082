/**
 * The three type-error values (IllegalAssignment, IllegalSize, IllegalMapKey)
 * as internal/typeerror_test.go asserts them: structural equality, a
 * deterministic non-zero hash, their own type (the error type) and the
 * message templates, whose type part comes from the type printer.
 */
module TypeErrors {
  import opened Wrappers
  import opened Identifiers
  import opened Types
  import opened Format
  import opened TypeStringSpec
  import opened TypeStringProps
  import opened Values
  import opened Instances

  /** The type of every error value: the error type, which prints as "error". */
  function TypeOf(e: ErrorValue): (t: ValidType)
    ensures TypeIdentifierOf(t) == TiError
    ensures TypeText(t) == "error"
  {
    var t: ValidType := TypeRef(map[0 := Atomic(TiError)], 0);
    AbsentKindPrintsName(t.graph, [], 0, CommaPrio);
    t
  }

  /** Each error value is an instance of its own type. */
  lemma InstanceOfOwnType(e: ErrorValue, others: (Node, Value) -> bool)
    ensures InstanceOf(TypeOf(e).graph[TypeOf(e).root], ErrorVal(e), others)
  {
    assert TypeOf(e).graph[TypeOf(e).root] == Atomic(TiError);
  }

  /** Equality: the same kind of error, built from equal parts; never equal to a non-error. */
  function Equals(e: ErrorValue, other: Value): (r: bool)
    ensures r <==> other == ErrorVal(e)
  {
    match other
    case ErrorVal(o) =>
      (match (e, o)
       case (IllegalAssignment(t1, v1), IllegalAssignment(t2, v2)) => t1 == t2 && v1 == v2
       case (IllegalSize(t1, n1), IllegalSize(t2, n2)) => t1 == t2 && n1 == n2
       case (IllegalMapKey(t1, k1), IllegalMapKey(t2, k2)) => t1 == t2 && k1 == k2
       case _ => false)
    case _ => false
  }

  /** A small number telling the three kinds apart. */
  function KindCode(e: ErrorValue): (k: int)
    ensures 1 <= k <= 3
  {
    match e
    case IllegalAssignment(_, _) => 1
    case IllegalSize(_, _) => 2
    case IllegalMapKey(_, _) => 3
  }

  /**
   * The hash: computed from the parts only (so equal errors hash alike), never
   * zero, and different for errors of different kinds.
   */
  function HashCode(e: ErrorValue): (h: int)
    ensures h > 0
    ensures h % 31 == KindCode(e)
  {
    var parts := match e
      case IllegalAssignment(t, v) => Ordinal(TypeIdentifierOf(t)) + |ValueString(v)|
      case IllegalSize(t, n) => Ordinal(TypeIdentifierOf(t)) + |FormatInt(n)|
      case IllegalMapKey(t, k) => Ordinal(TypeIdentifierOf(t)) + |ValueString(k)|;
    31 * parts + KindCode(e)
  }

  /** Equal errors have equal hashes; errors of different kinds have different hashes. */
  lemma HashAgreesWithEquals(e: ErrorValue, other: ErrorValue)
    ensures Equals(e, ErrorVal(other)) ==> HashCode(e) == HashCode(other)
    ensures KindCode(e) != KindCode(other) ==> HashCode(e) != HashCode(other) && !Equals(e, ErrorVal(other))
  {
  }

  // ---- reading the size back out of an IllegalSize message ----

  /** The text after the last space (all of it when there is no space). */
  function LastWord(s: string): (w: string)
    ensures |w| <= |s| && w == s[|s| - |w|..]
    ensures forall j :: 0 <= j < |w| ==> w[j] != ' '
  {
    if s == [] || s[|s| - 1] == ' ' then ""
    else LastWord(s[..|s| - 1]) + [s[|s| - 1]]
  }

  lemma {:induction false} LastWordAfterSpace(p: string, w: string)
    requires forall j :: 0 <= j < |w| ==> w[j] != ' '
    ensures LastWord(p + " " + w) == w
    decreases |w|
  {
    var s := p + " " + w;
    if w == [] {
      assert s[|s| - 1] == ' ';
    } else {
      var k := |w| - 1;
      assert s[..|s| - 1] == p + " " + w[..k];
      LastWordAfterSpace(p, w[..k]);
      assert w == w[..k] + [w[k]];
    }
  }

  /** The size an IllegalSize message reports is the one it was built with. */
  lemma SizeReadsBack(t: ValidType, n: int)
    ensures ParseInt(LastWord(Message(IllegalSize(t, n)))) == Some(n)
  {
    var p := "size constraint violation on type " + TypeText(t) + " when attempting resize to";
    assert Message(IllegalSize(t, n)) == p + " " + FormatInt(n);
    NoCharOfInt(n, ' ');
    LastWordAfterSpace(p, FormatInt(n));
    FormatIntRoundTrip(n);
  }

  // ---- the three asserted errors ----

  // Each expected message is written as the pieces of its template, so that
  // the asserted text is compared piece by piece.

  /** IllegalAssignment(string, 3): its equalities, hash, type and message. */
  lemma IllegalAssignmentExample(t: ValidType, others: (Node, Value) -> bool)
    requires t.graph[t.root] == Atomic(TiString)
    ensures var e := IllegalAssignment(t, IntValue(3));
      && Equals(e, ErrorVal(IllegalAssignment(t, IntValue(3))))
      && !Equals(e, ErrorVal(IllegalAssignment(t, IntValue(4))))
      && !Equals(e, StrValue("oops"))
      && InstanceOf(TypeOf(e).graph[TypeOf(e).root], ErrorVal(e), others)
      && HashCode(e) != 0
      && Message(e) == "the value " + "3" + " cannot be assigned to a variable of type " + "string"
  {
    var e := IllegalAssignment(t, IntValue(3));
    InstanceOfOwnType(e, others);
    AbsentKindPrintsName(t.graph, [], t.root, CommaPrio);
    assert TypeText(t) == "string";
    assert ValueString(IntValue(3)) == "3";
    assert Message(e) == "the value " + "3" + " cannot be assigned to a variable of type " + "string";
  }

  /** IllegalSize(string[1,10], 12): its equalities, hash, type and message. */
  lemma IllegalSizeExample(t: ValidType, others: (Node, Value) -> bool)
    requires t.graph[t.root] == StringSized(1, 10)
    ensures var e := IllegalSize(t, 12);
      && Equals(e, ErrorVal(IllegalSize(t, 12)))
      && !Equals(e, ErrorVal(IllegalSize(t, 11)))
      && !Equals(e, StrValue("oops"))
      && InstanceOf(TypeOf(e).graph[TypeOf(e).root], ErrorVal(e), others)
      && HashCode(e) != 0
      && Message(e) == "size constraint violation on type " + "string[1,10]" + " when attempting resize to " + "12"
  {
    var e := IllegalSize(t, 12);
    InstanceOfOwnType(e, others);
    SizedStringExample(t.graph, [], t.root, CommaPrio);
    assert TypeText(t) == "string[1,10]";
    assert FormatInt(12) == "12";
    assert Message(e) == "size constraint violation on type " + "string[1,10]" + " when attempting resize to " + "12";
  }

  /** IllegalMapKey({"a":string}, "b"): its equalities, hash, type and message. */
  lemma IllegalMapKeyExample(t: ValidType, k: NodeId, v: NodeId, others: (Node, Value) -> bool)
    requires k in t.graph && v in t.graph && k != t.root
    requires t.graph[t.root] == Struct([StructEntry(k, v, true)], false)
    requires t.graph[k] == StringExact("a") && t.graph[v] == Atomic(TiString)
    ensures var e := IllegalMapKey(t, StrValue("b"));
      && Equals(e, ErrorVal(IllegalMapKey(t, StrValue("b"))))
      && !Equals(e, ErrorVal(IllegalMapKey(t, StrValue("c"))))
      && !Equals(e, StrValue("oops"))
      && InstanceOf(TypeOf(e).graph[TypeOf(e).root], ErrorVal(e), others)
      && HashCode(e) != 0
      && Message(e) == "key " + "\"b\"" + " cannot added to type " + "{\"a\":string}"
  {
    var e := IllegalMapKey(t, StrValue("b"));
    InstanceOfOwnType(e, others);
    ClosedStructExample(t.graph, [], t.root, k, v, CommaPrio);
    assert TypeText(t) == "{\"a\":string}";
    assert Quote("b") == "\"b\"";
    assert Message(e) == "key " + "\"b\"" + " cannot added to type " + "{\"a\":string}";
  }
}
