/**
 * StructType.Validate (dgo/map.go): checks a value against a struct type and
 * reports, in order, every declared entry whose key is missing while
 * required or whose value is not an instance of the entry's type, and then,
 * unless the struct admits additional entries, every key of the value that
 * the struct does not declare. Reports carry the key's label; the default
 * label of a key is "parameter '<key>'".
 */
module Structs {
  import opened Wrappers
  import opened Identifiers
  import opened Types
  import opened Values
  import opened Maps
  import opened Instances

  datatype Violation =
    | NotAMap(value: Value)
    | MissingRequired(key: Value, name: string)
    | NotRecognized(key: Value, name: string)
    | NotAnInstance(key: Value, name: string, expected: NodeId, value: Value)

  /** Struct keys are exact types: each declared key stands for one value. */
  predicate ExactKeys(g: Graph, es: seq<StructEntry>) {
    forall i :: 0 <= i < |es| ==> es[i].key in g && es[i].value in g && ExactValue(g[es[i].key]).Some?
  }

  /** The key a declared entry matches: the exact value of its key type. */
  function KeyOf(g: Graph, e: StructEntry): Value
    requires e.key in g && ExactValue(g[e.key]).Some?
  {
    ExactValue(g[e.key]).value
  }

  /** The label of a key in a report: the caller's function, or "parameter '<key>'". */
  function KeyLabel(keyLabel: Option<Value -> string>, k: Value): string {
    match keyLabel
    case Some(f) => f(k)
    case None => "parameter '" + ValueString(k) + "'"
  }

  predicate Declared(g: Graph, es: seq<StructEntry>, k: Value)
    requires ExactKeys(g, es)
  {
    exists i :: 0 <= i < |es| && KeyOf(g, es[i]) == k
  }

  /** The report for one declared entry against the map's entries. */
  function EntryCheck(g: Graph, e: StructEntry, m: seq<Entry>, keyLabel: Option<Value -> string>,
                      others: (Node, Value) -> bool): seq<Violation>
    requires e.key in g && e.value in g && ExactValue(g[e.key]).Some?
  {
    var k := KeyOf(g, e);
    match Lookup(m, k)
    case Some(v) => if InstanceOf(g[e.value], v, others) then [] else [NotAnInstance(k, KeyLabel(keyLabel, k), e.value, v)]
    case None => if e.required then [MissingRequired(k, KeyLabel(keyLabel, k))] else []
  }

  /** The reports for the declared entries, in declaration order. */
  function EntryViolations(g: Graph, es: seq<StructEntry>, m: seq<Entry>, keyLabel: Option<Value -> string>,
                           others: (Node, Value) -> bool): seq<Violation>
    requires ExactKeys(g, es)
  {
    if es == [] then []
    else
      var n := |es| - 1;
      EntryViolations(g, es[..n], m, keyLabel, others) + EntryCheck(g, es[n], m, keyLabel, others)
  }

  /** The reports for the keys of the map that the struct does not declare, in the map's order. */
  function ExtraViolations(g: Graph, es: seq<StructEntry>, m: seq<Entry>, keyLabel: Option<Value -> string>): seq<Violation>
    requires ExactKeys(g, es)
  {
    if m == [] then []
    else
      var n := |m| - 1;
      var k := m[n].key;
      ExtraViolations(g, es, m[..n], keyLabel) + (if Declared(g, es, k) then [] else [NotRecognized(k, KeyLabel(keyLabel, k))])
  }

  /** What Validate answers for a struct node and a value. */
  function Violations(g: Graph, s: Node, value: Value, keyLabel: Option<Value -> string>,
                      others: (Node, Value) -> bool): seq<Violation>
    requires s.Struct? && ExactKeys(g, s.entries)
  {
    if !value.MapValue? then [NotAMap(value)]
    else
      EntryViolations(g, s.entries, value.entries, keyLabel, others)
      + (if s.additional then [] else ExtraViolations(g, s.entries, value.entries, keyLabel))
  }

  /** The value conforms: a map with every required key, every present declared value an instance, and no stranger keys unless admitted. */
  predicate Conforms(g: Graph, s: Node, value: Value, others: (Node, Value) -> bool)
    requires s.Struct? && ExactKeys(g, s.entries)
  {
    value.MapValue?
    && (forall i :: 0 <= i < |s.entries| ==> EntryConforms(g, s.entries[i], value.entries, others))
    && (!s.additional ==> forall j :: 0 <= j < |value.entries| ==> Declared(g, s.entries, value.entries[j].key))
  }

  predicate EntryConforms(g: Graph, e: StructEntry, m: seq<Entry>, others: (Node, Value) -> bool)
    requires e.key in g && e.value in g && ExactValue(g[e.key]).Some?
  {
    match Lookup(m, KeyOf(g, e))
    case Some(v) => InstanceOf(g[e.value], v, others)
    case None => !e.required
  }

  // ---- the validator ----

  /** Validate: the reports in order; empty exactly when the value conforms (ValidateEmptyIffConforms). */
  method Validate(g: Graph, s: Node, keyLabel: Option<Value -> string>, value: Value, others: (Node, Value) -> bool)
    returns (errs: seq<Violation>)
    requires s.Struct? && ExactKeys(g, s.entries)
    ensures errs == Violations(g, s, value, keyLabel, others)
  {
    if !value.MapValue? {
      return [NotAMap(value)];
    }
    errs := CheckEntries(g, s.entries, value.entries, keyLabel, others);
    if !s.additional {
      var extra := CheckExtras(g, s.entries, value.entries, keyLabel);
      errs := errs + extra;
    }
  }

  /** The first pass of Validate: each declared entry, in order. */
  method CheckEntries(g: Graph, es: seq<StructEntry>, m: seq<Entry>, keyLabel: Option<Value -> string>,
                      others: (Node, Value) -> bool) returns (errs: seq<Violation>)
    requires ExactKeys(g, es)
    ensures errs == EntryViolations(g, es, m, keyLabel, others)
  {
    errs := [];
    var i := 0;
    while i < |es|
      invariant 0 <= i <= |es|
      invariant errs == EntryViolations(g, es[..i], m, keyLabel, others)
    {
      assert es[..i + 1][..i] == es[..i];
      ghost var prev := errs;
      var k := ExactValue(g[es[i].key]).value;
      var found := Lookup(m, k);
      if found.Some? {
        if !InstanceOf(g[es[i].value], found.value, others) {
          errs := errs + [NotAnInstance(k, KeyLabel(keyLabel, k), es[i].value, found.value)];
        }
      } else if es[i].required {
        errs := errs + [MissingRequired(k, KeyLabel(keyLabel, k))];
      }
      assert errs == prev + EntryCheck(g, es[i], m, keyLabel, others);
      i := i + 1;
    }
    assert es[..i] == es;
  }

  /** The second pass of Validate: each key of the map the struct does not declare, in the map's order. */
  method CheckExtras(g: Graph, es: seq<StructEntry>, m: seq<Entry>, keyLabel: Option<Value -> string>)
    returns (errs: seq<Violation>)
    requires ExactKeys(g, es)
    ensures errs == ExtraViolations(g, es, m, keyLabel)
  {
    errs := [];
    var j := 0;
    while j < |m|
      invariant 0 <= j <= |m|
      invariant errs == ExtraViolations(g, es, m[..j], keyLabel)
    {
      assert m[..j + 1][..j] == m[..j];
      var known := IsDeclared(g, es, m[j].key);
      if !known {
        errs := errs + [NotRecognized(m[j].key, KeyLabel(keyLabel, m[j].key))];
      }
      j := j + 1;
    }
    assert m[..j] == m;
  }

  /** Struct.Get(key) != nil: a linear search of the declared keys. */
  method IsDeclared(g: Graph, es: seq<StructEntry>, k: Value) returns (r: bool)
    requires ExactKeys(g, es)
    ensures r <==> Declared(g, es, k)
  {
    var i := 0;
    while i < |es|
      invariant 0 <= i <= |es|
      invariant forall j :: 0 <= j < i ==> KeyOf(g, es[j]) != k
    {
      if ExactValue(g[es[i].key]).value == k {
        return true;
      }
      i := i + 1;
    }
    return false;
  }

  // ---- what the reports mean ----

  lemma EntryCheckEmpty(g: Graph, e: StructEntry, m: seq<Entry>, keyLabel: Option<Value -> string>,
                        others: (Node, Value) -> bool)
    requires e.key in g && e.value in g && ExactValue(g[e.key]).Some?
    ensures EntryCheck(g, e, m, keyLabel, others) == [] <==> EntryConforms(g, e, m, others)
  {
  }

  /** Every declared entry conforms, stated in the order EntryViolations walks the entries. */
  predicate AllConform(g: Graph, es: seq<StructEntry>, m: seq<Entry>, others: (Node, Value) -> bool)
    requires ExactKeys(g, es)
  {
    es == [] || (AllConform(g, es[..|es| - 1], m, others) && EntryConforms(g, es[|es| - 1], m, others))
  }

  lemma {:induction false} AllConformEach(g: Graph, es: seq<StructEntry>, m: seq<Entry>, others: (Node, Value) -> bool)
    requires ExactKeys(g, es)
    ensures AllConform(g, es, m, others) <==> forall i :: 0 <= i < |es| ==> EntryConforms(g, es[i], m, others)
    decreases |es|
  {
    if es != [] {
      var n := |es| - 1;
      AllConformEach(g, es[..n], m, others);
      assert forall i :: 0 <= i < n ==> es[..n][i] == es[i];
    }
  }

  lemma {:induction false} EntryViolationsEmpty(g: Graph, es: seq<StructEntry>, m: seq<Entry>,
                                                keyLabel: Option<Value -> string>, others: (Node, Value) -> bool)
    requires ExactKeys(g, es)
    ensures EntryViolations(g, es, m, keyLabel, others) == [] <==> AllConform(g, es, m, others)
    decreases |es|
  {
    if es != [] {
      var n := |es| - 1;
      var front := EntryViolations(g, es[..n], m, keyLabel, others);
      var last := EntryCheck(g, es[n], m, keyLabel, others);
      assert EntryViolations(g, es, m, keyLabel, others) == front + last;
      assert front + last == [] <==> front == [] && last == [];
      EntryViolationsEmpty(g, es[..n], m, keyLabel, others);
      EntryCheckEmpty(g, es[n], m, keyLabel, others);
    }
  }

  lemma {:induction false} ExtraViolationsEmpty(g: Graph, es: seq<StructEntry>, m: seq<Entry>, keyLabel: Option<Value -> string>)
    requires ExactKeys(g, es)
    ensures ExtraViolations(g, es, m, keyLabel) == [] <==> forall j :: 0 <= j < |m| ==> Declared(g, es, m[j].key)
    decreases |m|
  {
    if m != [] {
      var n := |m| - 1;
      ExtraViolationsEmpty(g, es, m[..n], keyLabel);
      assert forall j :: 0 <= j < n ==> m[..n][j] == m[j];
    }
  }

  /** An empty report means exactly that the value conforms. */
  lemma ValidateEmptyIffConforms(g: Graph, s: Node, value: Value, keyLabel: Option<Value -> string>,
                                 others: (Node, Value) -> bool)
    requires s.Struct? && ExactKeys(g, s.entries)
    ensures Violations(g, s, value, keyLabel, others) == [] <==> Conforms(g, s, value, others)
  {
    if value.MapValue? {
      EntryViolationsEmpty(g, s.entries, value.entries, keyLabel, others);
      AllConformEach(g, s.entries, value.entries, others);
      ExtraViolationsEmpty(g, s.entries, value.entries, keyLabel);
    }
  }

  /** Every report of the declared entries names a declared entry and says what is wrong with it. */
  lemma {:induction false} EntryReportsExplained(g: Graph, es: seq<StructEntry>, m: seq<Entry>,
                                                 keyLabel: Option<Value -> string>, others: (Node, Value) -> bool,
                                                 x: Violation)
    requires ExactKeys(g, es)
    requires x in EntryViolations(g, es, m, keyLabel, others)
    ensures x.MissingRequired? || x.NotAnInstance?
    ensures exists i :: (0 <= i < |es| && KeyOf(g, es[i]) == x.key && x.name == KeyLabel(keyLabel, x.key)
      && (x.MissingRequired? ==> es[i].required && Lookup(m, x.key).None?)
      && (x.NotAnInstance? ==> Lookup(m, x.key) == Some(x.value) && x.expected == es[i].value
                               && !InstanceOf(g[es[i].value], x.value, others)))
    decreases |es|
  {
    var n := |es| - 1;
    assert ExactKeys(g, es[..n]);
    if x in EntryViolations(g, es[..n], m, keyLabel, others) {
      EntryReportsExplained(g, es[..n], m, keyLabel, others, x);
      var i :| 0 <= i < n && KeyOf(g, es[..n][i]) == x.key && x.name == KeyLabel(keyLabel, x.key)
        && (x.MissingRequired? ==> es[..n][i].required && Lookup(m, x.key).None?)
        && (x.NotAnInstance? ==> Lookup(m, x.key) == Some(x.value) && x.expected == es[..n][i].value
                                 && !InstanceOf(g[es[..n][i].value], x.value, others));
      assert es[..n][i] == es[i];
    } else {
      assert KeyOf(g, es[n]) == x.key;
    }
  }

  /** A required entry whose key the map lacks is reported missing, under its label. */
  lemma {:induction false} MissingReported(g: Graph, es: seq<StructEntry>, m: seq<Entry>,
                                           keyLabel: Option<Value -> string>, others: (Node, Value) -> bool, i: nat)
    requires ExactKeys(g, es) && i < |es| && es[i].required && Lookup(m, KeyOf(g, es[i])).None?
    ensures MissingRequired(KeyOf(g, es[i]), KeyLabel(keyLabel, KeyOf(g, es[i]))) in EntryViolations(g, es, m, keyLabel, others)
    decreases |es|
  {
    var n := |es| - 1;
    if i < n {
      assert ExactKeys(g, es[..n]) && es[..n][i] == es[i];
      MissingReported(g, es[..n], m, keyLabel, others, i);
    }
  }

  /** A present value that is not an instance of its entry's type is reported, with the expected type. */
  lemma {:induction false} WrongTypeReported(g: Graph, es: seq<StructEntry>, m: seq<Entry>,
                                             keyLabel: Option<Value -> string>, others: (Node, Value) -> bool, i: nat, v: Value)
    requires ExactKeys(g, es) && i < |es| && Lookup(m, KeyOf(g, es[i])) == Some(v) && !InstanceOf(g[es[i].value], v, others)
    ensures NotAnInstance(KeyOf(g, es[i]), KeyLabel(keyLabel, KeyOf(g, es[i])), es[i].value, v)
            in EntryViolations(g, es, m, keyLabel, others)
    decreases |es|
  {
    var n := |es| - 1;
    if i < n {
      assert ExactKeys(g, es[..n]) && es[..n][i] == es[i];
      WrongTypeReported(g, es[..n], m, keyLabel, others, i, v);
    }
  }

  /** A key of the map that the struct does not declare is reported as not recognised. */
  lemma {:induction false} StrangerReported(g: Graph, es: seq<StructEntry>, m: seq<Entry>,
                                            keyLabel: Option<Value -> string>, j: nat)
    requires ExactKeys(g, es) && j < |m| && !Declared(g, es, m[j].key)
    ensures NotRecognized(m[j].key, KeyLabel(keyLabel, m[j].key)) in ExtraViolations(g, es, m, keyLabel)
    decreases |m|
  {
    var n := |m| - 1;
    if j < n {
      assert m[..n][j] == m[j];
      StrangerReported(g, es, m[..n], keyLabel, j);
    }
  }

  /** An entry typed any never reports a wrong type. */
  lemma AnyEntryNeverWrong(g: Graph, e: StructEntry, m: seq<Entry>, keyLabel: Option<Value -> string>,
                           others: (Node, Value) -> bool)
    requires e.key in g && e.value in g && ExactValue(g[e.key]).Some? && g[e.value] == Atomic(TiAny)
    ensures forall x :: x in EntryCheck(g, e, m, keyLabel, others) ==> x.MissingRequired?
  {
  }

  /** A struct keyed by an exact integer, {1:string}: a conforming map passes and an empty one lacks the key. */
  lemma IntKeyExample(g: Graph, s: Node, k: NodeId, v: NodeId, others: (Node, Value) -> bool)
    requires k in g && v in g && g[k] == IntegerExact(1) && g[v] == Atomic(TiString)
    requires s == Struct([StructEntry(k, v, true)], false)
    ensures Violations(g, s, MapValue([Entry(IntValue(1), StrValue("x"))]), None, others) == []
    ensures Violations(g, s, MapValue([]), None, others) == [MissingRequired(IntValue(1), "parameter '1'")]
  {
    var es := s.entries;
    var one := [Entry(IntValue(1), StrValue("x"))];
    assert es[..0] == [] && one[..0] == [];
    assert KeyOf(g, es[0]) == IntValue(1);
    assert Lookup(one, IntValue(1)) == Some(StrValue("x"));
    assert EntryViolations(g, es, one, None, others) == EntryCheck(g, es[0], one, None, others) == [];
    assert Declared(g, es, IntValue(1));
    assert ExtraViolations(g, es, one, None) == [];
    assert Format.FormatInt(1) == "1";
    assert KeyLabel(None, IntValue(1)) == "parameter '1'";
    assert EntryViolations(g, es, [], None, others) == EntryCheck(g, es[0], [], None, others);
    assert Lookup([], IntValue(1)).None?;
    assert ExtraViolations(g, es, [], None) == [];
  }

  /** The default label of a key. */
  lemma DefaultLabelExample()
    ensures KeyLabel(None, StrValue("a")) == "parameter 'a'"
    ensures KeyLabel(None, IntValue(7)) == "parameter '7'"
  {
    assert Format.FormatInt(7) == "7";
  }
}
