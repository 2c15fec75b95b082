/**
 * Type identifiers: the closed enumeration of type kinds (dgo.TypeIdentifier),
 * their printed names and ordinals.
 *
 * The kinds are split in two: the simple kinds, which the type printer has no
 * table entry for and prints by name, and the kinds that have an entry in the
 * printer's table (internal/typestring.go, `complexTypes`). Float kinds and the
 * native kind are not part of this model.
 */
module Identifiers {

  datatype TypeId =
    // simple kinds: no entry in the printer's table
    | TiAny | TiBoolean | TiTrue | TiFalse | TiInteger | TiFloat | TiString | TiNil | TiRegexp | TiError
    // kinds with an entry in the printer's table
    | TiMeta | TiAnyOf | TiOneOf | TiAllOf | TiAllOfValue | TiArrayExact | TiArray | TiBinary | TiTuple
    | TiMap | TiMapExact | TiStruct | TiMapEntryExact | TiIntegerExact | TiIntegerRange
    | TiRegexpExact | TiStringExact | TiStringPattern | TiStringSized | TiNot

  /** True for the kinds that have an entry in the printer's dispatch table. */
  predicate HasTableEntry(ti: TypeId) {
    !(ti.TiAny? || ti.TiBoolean? || ti.TiTrue? || ti.TiFalse? || ti.TiInteger? || ti.TiFloat?
      || ti.TiString? || ti.TiNil? || ti.TiRegexp? || ti.TiError?)
  }

  /** The identifier of a kind the printer renders as its bare name. */
  type SimpleId = ti: TypeId | !HasTableEntry(ti) witness TiAny

  /** The printed name of a kind (TypeIdentifier.String()). */
  function Label(ti: TypeId): string {
    match ti
    case TiAny => "any"
    case TiBoolean => "bool"
    case TiTrue => "true"
    case TiFalse => "false"
    case TiInteger => "int"
    case TiFloat => "float"
    case TiString => "string"
    case TiNil => "nil"
    case TiRegexp => "regexp"
    case TiError => "error"
    case TiMeta => "type"
    case TiAnyOf => "any of"
    case TiOneOf => "one of"
    case TiAllOf => "all of"
    case TiAllOfValue => "all of value"
    case TiArrayExact => "exact slice"
    case TiArray => "slice"
    case TiBinary => "binary"
    case TiTuple => "tuple"
    case TiMap => "map"
    case TiMapExact => "exact map"
    case TiStruct => "struct"
    case TiMapEntryExact => "exact map entry"
    case TiIntegerExact => "exact int"
    case TiIntegerRange => "int range"
    case TiRegexpExact => "exact regexp"
    case TiStringExact => "exact string"
    case TiStringPattern => "pattern"
    case TiStringSized => "sized string"
    case TiNot => "not"
  }

  /** The integer value of an identifier (`int(ti)` in Go). */
  function Ordinal(ti: TypeId): nat {
    match ti
    case TiAny => 0
    case TiBoolean => 1
    case TiTrue => 2
    case TiFalse => 3
    case TiInteger => 4
    case TiFloat => 5
    case TiString => 6
    case TiNil => 7
    case TiRegexp => 8
    case TiError => 9
    case TiMeta => 10
    case TiAnyOf => 11
    case TiOneOf => 12
    case TiAllOf => 13
    case TiAllOfValue => 14
    case TiArrayExact => 15
    case TiArray => 16
    case TiBinary => 17
    case TiTuple => 18
    case TiMap => 19
    case TiMapExact => 20
    case TiStruct => 21
    case TiMapEntryExact => 22
    case TiIntegerExact => 23
    case TiIntegerRange => 24
    case TiRegexpExact => 25
    case TiStringExact => 26
    case TiStringPattern => 27
    case TiStringSized => 28
    case TiNot => 29
  }
}
