# dgo core in Dafny

This project models the core of dgo, a dynamic type system for Go values, and proves properties of that model:

- **The type printer** (`internal/typestring.go`). It turns a type into the Go-like text the library shows, such as `string[1,10]`, `map[string]int`, `{"a"?:string,...}`, `(int|string)&int` and `type[int]`.
  - A type is a graph of nodes, so a type can refer to itself. The printer keeps the path of composite types it is inside. A composite type met again on that path prints `<recursive self reference to … type>`.
  - Unions, one-ofs and all-ofs are parenthesised according to a priority level.
  - The pure specification is `TypeStringSpec.Render`. The imperative printer (module `TypeString`) appends to a `StringBuilder` the way the Go code appends to a `strings.Builder`. Every writer method is proved to append exactly the specification's text.
  - The lemmas in `TypeStringProps` show that the printed bounds, ranges and literals can be read back. They also pin down parenthesisation, the recursion guard and the printer's documented example outputs.
- **The any type** (`internal/any.go`). It accepts every type and every value. Its identifier is `TiAny`, its hash is that identifier's number, it prints as `any`, and its type is the meta type that prints as `type`.
- **The ordered map** (`dgo/map.go`).
  - `OrderedMap` is a class whose entry sequence keeps insertion order. Replacing a value leaves its key where it was.
  - `Put`, `PutAll`, `Remove` and `RemoveAll` change the map in place and refuse a frozen map.
  - `With`, `Without`, `WithoutAll`, `Merge` and `Map` build a new map.
  - Each method is proved against a function on entry sequences, and lemmas state the lookup behaviour of those functions.
  - `Structs.Validate` checks a value against a struct type.
- **Binary** (`dgo/binary.go`). A byte buffer whose string form is strict base64, as in section 4 of RFC 4648.
  - Decoding inverts encoding.
  - Every string that decodes is the encoding of what it decodes to, so the form is canonical.
  - `GoBytes` hands out a defensive copy, and `Copy` follows the frozen-copy rule.
- **The type-error values** of `internal/typeerror_test.go` (IllegalAssignment, IllegalSize, IllegalMapKey). The model covers:
  - structural equality, with the type parts compared as whole type graphs;
  - a deterministic, non-zero hash;
  - the error type, of which each error is an instance;
  - the message templates, whose type part comes from the type printer.

Module layout:
- `wrappers` (Option)
- `identifiers` (type identifiers)
- `format` (decimal text and double quoting)
- `types` (the type graph)
- `values`
- `instances` (the instance relation of the atomic kinds)
- `typestring_spec`, `typestring` and `typestring_props`
- `any`, `maps`, `structs`, `binary` and `typeerror`

## Model

| member | source | states |
|---|---|---|
| TypeString.TypeString | internal/typestring.go:23-27 | the text built from an empty builder, at priority 0 with no ancestors, is the specified text of the type |
| TypeString.StringBuilder.constructor | internal/typestring.go:24 | a new builder holds the empty text |
| TypeString.StringBuilder.WriteString | internal/typestring.go:43 | the string is appended and nothing else changes |
| TypeString.StringBuilder.WriteByte | internal/typestring.go:55 | the one character is appended |
| TypeString.WriteSizeBoundaries | internal/typestring.go:66-72 | appends exactly the minimum, plus ",max" unless max is MaxInt64 (read back by SizeBoundariesRoundTrip) |
| TypeString.WriteIntRange | internal/typestring.go:74-86 | appends the range text: the bounds are omitted at MinInt64/MaxInt64, and ".." means inclusive and "..." exclusive (read back by IntRangeRoundTrip) |
| TypeString.JoinX | internal/typestring.go:37-47 | appends the operands' texts at the given priority, with the separator between consecutive operands only |
| TypeString.WriteStructEntry | internal/typestring.go:57-62 | appends the key, "?" when the entry is optional, ":" and the value |
| TypeString.JoinStructEntries | internal/typestring.go:49-64 | appends the struct entries separated by ',' |
| TypeString.WriteTernary | internal/typestring.go:102-110 | appends the operands joined by the operator, wrapped in parentheses exactly when the priority is at least orPrio |
| TypeString.WriteBraced | internal/typestring.go:155-159 | appends the elements in braces, separated by ',' at comma priority |
| TypeString.WriteOptionalBounds | internal/typestring.go:149-153 | appends "[bounds]" unless the bounds are the defaults 0 and MaxInt64 |
| TypeString.WriteArray | internal/typestring.go:135-145 | appends "[]" or "[bounds]", then the element at type priority |
| TypeString.WriteMap | internal/typestring.go:160-170 | appends "map[", the key, ",bounds" when bounded, "]", then the value at type priority |
| TypeString.WriteStruct | internal/typestring.go:176-187 | appends the entries in braces, then "..." when open, after a ',' only when there are entries |
| TypeString.WriteMapEntry | internal/typestring.go:188-193 | appends the key, ':' and the value, both at comma priority |
| TypeString.WriteMeta | internal/typestring.go:236-248 | appends "type"; over any nothing more, with no operand "[type]", otherwise the operand in brackets |
| TypeString.WriteNot | internal/typestring.go:228-232 | appends '!' and the operand at type priority |
| TypeString.WriteSized | internal/typestring.go:219-227 | appends the name and the optional bounds |
| TypeString.WriteRegexpExact | internal/typestring.go:208-212 | appends "regexp[", the quoted pattern and "]" |
| TypeString.WriteTableEntry | internal/typestring.go:116-250 | for every composite kind, appends exactly that kind's specified text |
| TypeString.BuildTypeString | internal/typestring.go:252-265 | appends the specified text: the placeholder for a composite already on the path, the bare name for a kind without a table entry, otherwise the table entry with the node pushed on the path |
| TypeStringSpec.Render | internal/typestring.go:252-265 | the text buildTypeString appends for a node, given the path of composite ancestors and the context priority; what it promises is proved by SeenGuard, AbsentKindPrintsName, TernaryParentheses, the Shape lemmas and the round trips below |
| TypeStringSpec.TableEntry | internal/typestring.go:116-250 | the complexTypes table, one arm per composite kind; its arms are read at the level of Render by the Shape, Render and ReadsBack lemmas below |
| TypeStringProps.AbsentKindPrintsName | internal/typestring.go:262-264 | a kind without a table entry prints as its name, whatever the path and priority |
| TypeStringProps.SeenGuard | internal/typestring.go:254-261 | a composite on the path prints "<recursive self reference to NAME type>"; otherwise its entry runs with the node added to the path, which shrinks the unvisited set |
| TypeStringProps.JoinCons | internal/typestring.go:37-47 | a join is the first operand followed by separator-and-rest, so the separator never leads or trails |
| TypeStringProps.TernaryParentheses | internal/typestring.go:102-110 | a union, one-of or all-of is parenthesised if and only if the priority is at least orPrio, and its operands print at the operator's priority |
| TypeStringProps.TopLevelTernaryBare | internal/typestring.go:23-27 | at the top level a union, one-of or all-of is never parenthesised |
| TypeStringProps.NestedTernaryParenthesised | internal/typestring.go:118-129 | a union, one-of or all-of directly inside another is always parenthesised |
| TypeStringProps.SizeBoundariesRoundTrip | internal/typestring.go:66-72 | the size boundaries text reads back as exactly the minimum and maximum |
| TypeStringProps.SizedRoundTrip | internal/typestring.go:219-227 | a name followed by its optional bounds reads back as exactly the bounds |
| TypeStringProps.IntRangeRoundTrip | internal/typestring.go:74-86 | the range text reads back as the bounds and the inclusive flag |
| TypeStringProps.SizedRender | internal/typestring.go:146-154 | a sized string or binary prints its name and its optional bounds |
| TypeStringProps.RangeRender | internal/typestring.go:204-207 | an integer range prints its range text |
| TypeStringProps.StringSizedReadsBack | internal/typestring.go:219-227 | the printed sized string reads back as its bounds |
| TypeStringProps.BinaryReadsBack | internal/typestring.go:146-154 | the printed binary type reads back as its bounds |
| TypeStringProps.IntegerRangeReadsBack | internal/typestring.go:204-207 | the printed integer range reads back as its bounds and inclusiveness |
| TypeStringProps.ExactLiteralsReadBack | internal/typestring.go:201-215 | printed exact integers, strings and regexps read back as their values |
| TypeStringProps.RenderSeenFree | internal/typestring.go:252-261 | in an acyclic graph the text does not depend on the path of ancestors |
| TypeStringProps.JoinSeenFree | internal/typestring.go:37-47 | the same for a join of operands |
| TypeStringProps.JoinEntriesSeenFree | internal/typestring.go:49-64 | the same for struct entries |
| TypeStringProps.TableEntrySeenFree | internal/typestring.go:116-250 | the same for every table entry |
| TypeStringProps.AcyclicIgnoresAncestors | internal/typestring.go:252-261 | below ancestors of higher rank, a node prints as it does at the top |
| TypeStringProps.Join2 | internal/typestring.go:37-47 | two operands join as first, separator, second |
| TypeStringProps.OneEntry | internal/typestring.go:49-64 | one struct entry joins to its own text |
| TypeStringProps.EntryExample | internal/typestring.go:57-62 | the entry "a" of type string prints "a":string, or "a"?:string when optional |
| TypeStringProps.SizedStringExample | internal/typestring.go:219-227 | string with bounds 1 and 10 prints string[1,10] |
| TypeStringProps.MinOnlyExample | internal/typestring.go:66-72 | string with minimum 3 and no maximum prints string[3] |
| TypeStringProps.DefaultBoundsExample | internal/typestring.go:222 | string with the default bounds prints string |
| TypeStringProps.StructShape | internal/typestring.go:176-187 | a struct prints its entries in braces, and "..." when open, after a ',' only when there are entries |
| TypeStringProps.ArrayShape | internal/typestring.go:135-145 | an array prints "[]" when unbounded, else "[bounds]", then its element at type priority |
| TypeStringProps.MapShape | internal/typestring.go:160-170 | a map type prints "map[", its key at comma priority, ",bounds" only when bounded, "]", then its value at type priority |
| TypeStringProps.BracedShape | internal/typestring.go:130-175 | tuples, exact arrays and exact maps print their elements in braces, separated by ',' at comma priority |
| TypeStringProps.NotShape | internal/typestring.go:228-232 | a negation prints '!' and its operand at type priority |
| TypeStringProps.ArrayExample | internal/typestring.go:137-138 | the unbounded array of strings prints []string |
| TypeStringProps.MapExample | internal/typestring.go:160-170 | the unbounded map from string to int prints map[string]int |
| TypeStringProps.TupleExample | internal/typestring.go:155-159 | the tuple of int and string prints {int,string} |
| TypeStringProps.NotExample | internal/typestring.go:228-232 | the negation of string prints !string |
| TypeStringProps.ClosedStructExample | internal/typestring.go:176-187 | the closed struct with required "a" of type string prints {"a":string} |
| TypeStringProps.OpenStructExample | internal/typestring.go:180-185 | the open struct with optional "a" prints {"a"?:string,...} |
| TypeStringProps.EmptyOpenStructExample | internal/typestring.go:180-185 | the open struct without entries prints {...} |
| TypeStringProps.RecursiveUnionExample | internal/typestring.go:255-259 | a union containing itself and string prints the placeholder for "any of", a bar and string |
| TypeStringProps.MetaExample | internal/typestring.go:236-248 | the meta type over any prints type; over int it prints type[int] |
| TypeStringProps.NilMetaExample | internal/typestring.go:240-241 | the meta type without an operand prints type[type] |
| TypeStringProps.PrecedenceExample | internal/typestring.go:102-110 | all-of over the union of int and string, and int, prints the union in parentheses followed by &int |
| Types.Identifier | internal/typestring.go:253-254 | a kind has a table entry exactly when the node is not atomic |
| Format.FormatIntRoundTrip | internal/typestring.go:67-70 | the decimal text of any integer parses back to it |
| Format.FormatIntChars | internal/typestring.go:67-70 | the decimal text is digits and a leading '-' exactly for negatives |
| Format.NatToStringValue | internal/typestring.go:67-70 | the digits of a natural number evaluate back to it |
| Format.QuoteRoundTrip | internal/typestring.go:214 | a quoted string unquotes back to itself |
| Format.UnescapeEscape | internal/typestring.go:214 | unescaping undoes escaping |
| AnyType.Assignable | internal/any.go:11-13 | every type is assignable to any |
| AnyType.Equals | internal/any.go:15-17 | a type equals any exactly when its identifier is TiAny |
| AnyType.HashCode | internal/any.go:19-21 | the hash is the number of the TiAny identifier |
| AnyType.Instance | internal/any.go:23-25 | every value is an instance |
| AnyType.String | internal/any.go:27-29 | the printer's text of any is "any" |
| AnyType.Type | internal/any.go:31-33 | the type of any is the meta type over any, which prints as "type" |
| AnyType.TypeIdentifier | internal/any.go:35-37 | TiAny: a kind without a table entry, named "any" |
| AnyType.EqualsAgreesWithHashAndText | internal/any.go:15-29 | a type equal to any has the same identifier, hash and text |
| AnyType.InstanceAgrees | internal/any.go:23-25 | the general instance relation agrees that any admits every value |
| Maps.IndexOf | dgo/map.go:90-92 | the position of the first entry with the key, or -1 when no entry has it |
| Maps.LookupIsMembership | dgo/map.go:90-92 | with distinct keys, Get answers v for k exactly when the entry k:v is in the map |
| Maps.PutSpec | dgo/map.go:108-110 | Put binds the key, leaves every other key's value alone, keeps the key order (new keys last), and keeps the keys distinct |
| Maps.RemoveEntryLookup | dgo/map.go:116-118 | after Remove the key has no value and every other key keeps its value |
| Maps.RemoveEntryKeys | dgo/map.go:116-118 | Remove keeps exactly the entries of the other keys, and keeps the keys distinct |
| Maps.RemoveEntryAt | dgo/map.go:116-118 | with distinct keys, Remove deletes the one entry of the key and keeps the others in order |
| Maps.RemoveAllSpec | dgo/map.go:120-122 | after RemoveAll no given key has a value, and every other key keeps its value |
| Maps.MergeLookup | dgo/map.go:104-106 | after Merge the argument's value wins for its keys; every other key keeps the receiver's value |
| Maps.MergeKeepsOrder | dgo/map.go:104-106 | Merge keeps the receiver's keys first, in their order |
| Maps.MapValuesSpec | dgo/map.go:100-102 | Map keeps the keys and their order, and binds each key to the mapper's result for its entry |
| Maps.NilBoundIsNotAbsent | dgo/map.go:90-92 | a key bound to nil is present, unlike an absent key |
| Maps.LookupAtEach | dgo/map.go:128-129 | with distinct keys, Get of the i-th key answers the i-th value |
| Maps.LookupIsMembershipAll | dgo/map.go:87-88 | with distinct keys, the entries are exactly the associations Get answers |
| Maps.OrderedMap.constructor | dgo/map.go:37-40 | a map holds the given entries with distinct keys and the given frozen state |
| Maps.OrderedMap.Get | dgo/map.go:90-92 | a value exactly when the key is among the keys; that value is bound to the key |
| Maps.OrderedMap.Len | dgo/map.go:97-98 | the number of associations equals the number of keys and of values |
| Maps.OrderedMap.Keys | dgo/map.go:94-95 | the keys of the entries, in order |
| Maps.OrderedMap.Values | dgo/map.go:128-129 | one value per key, in key order; the i-th is what Get answers for the i-th key |
| Maps.OrderedMap.Entries | dgo/map.go:87-88 | the entries in insertion order, one per association; with distinct keys, exactly the pairs Get answers |
| Maps.OrderedMap.Find | dgo/map.go:90-92 | finds the position of the key's entry, or -1 |
| Maps.OrderedMap.Put | dgo/map.go:108-110 | requires a mutable map; the entries become the Put of the old entries, and the old value (or none) is returned |
| Maps.OrderedMap.PutAll | dgo/map.go:112-114 | requires a mutable map; the argument's entries are put in order, which is Merge of the old entries |
| Maps.OrderedMap.Remove | dgo/map.go:116-118 | requires a mutable map; the key's entry goes and the old value (or none) is returned |
| Maps.OrderedMap.RemoveAll | dgo/map.go:120-122 | requires a mutable map; every given key's entry goes |
| Maps.OrderedMap.Copy | dgo/map.go:67-72 | a frozen copy of a frozen map is the receiver; otherwise a new map with the same entries and the requested frozen state |
| Maps.OrderedMap.With | dgo/map.go:131-132 | a new map equal to the receiver with the key put; the receiver is unchanged |
| Maps.OrderedMap.Without | dgo/map.go:134-135 | a new map with the key removed |
| Maps.OrderedMap.WithoutAll | dgo/map.go:137-138 | a new map with every given key removed |
| Maps.OrderedMap.Merge | dgo/map.go:104-106 | a new map: the receiver's entries with the argument's put over them |
| Maps.OrderedMap.Map | dgo/map.go:100-102 | a new map with the same keys and the mapper's values |
| Maps.OrderedMap.All | dgo/map.go:49-50 | true exactly when the predicate holds for every entry |
| Maps.OrderedMap.Any | dgo/map.go:58-59 | true exactly when the predicate holds for some entry |
| Structs.Validate | dgo/map.go:169-178 | the reports: not a map; each declared entry missing while required or of the wrong type; then, for a closed struct, each undeclared key |
| Structs.Violations | dgo/map.go:169-178 | the reports Validate answers; ValidateEmptyIffConforms, EntryReportsExplained and the Reported lemmas state when each is produced |
| Structs.KeyLabel | dgo/map.go:173-175 | the caller's label function, or the default "parameter '<key>'" (DefaultLabelExample) |
| Structs.CheckEntries | dgo/map.go:169-171 | the reports for the declared entries, in declaration order |
| Structs.CheckExtras | dgo/map.go:169-171 | the reports for the keys the struct does not declare, in map order |
| Structs.IsDeclared | dgo/map.go:163-164 | true exactly when some declared entry has the key |
| Structs.EntryCheckEmpty | dgo/map.go:169-171 | an entry produces no report exactly when it conforms |
| Structs.AllConformEach | dgo/map.go:169-171 | every declared entry conforms, stated one entry at a time |
| Structs.EntryViolationsEmpty | dgo/map.go:169-171 | no entry report exactly when every declared entry conforms |
| Structs.ExtraViolationsEmpty | dgo/map.go:169-171 | no report of a stranger key exactly when every key of the map is declared |
| Structs.ValidateEmptyIffConforms | dgo/map.go:177 | an empty result exactly when the value conforms to the struct |
| Structs.EntryReportsExplained | dgo/map.go:169-175 | every entry report is a missing or wrong-typed declared key, with the key's label |
| Structs.MissingReported | dgo/map.go:170-171 | a missing required key is reported |
| Structs.WrongTypeReported | dgo/map.go:170-171 | a value of the wrong type is reported |
| Structs.StrangerReported | dgo/map.go:170-171 | an undeclared key is reported |
| Structs.AnyEntryNeverWrong | dgo/map.go:170-171 | an entry of type any can only be reported as missing |
| Structs.DefaultLabelExample | dgo/map.go:173-175 | the default label is parameter '<key>' |
| Structs.IntKeyExample | dgo/map.go:169-178 | a struct keyed by the exact integer 1 accepts a map binding 1 to a string and reports the key missing, labelled "parameter '1'", from an empty map |
| Instances.ExactTypeIsSingleton | internal/typestring.go:201-214 | an exact integer, string, true, false or nil type has exactly one instance: the value it wraps, which is also the key a struct entry of that type matches |
| Binaries.SymInverse | dgo/binary.go:11 | each 6-bit group's symbol decodes back to it |
| Binaries.SymValueInverse | dgo/binary.go:11 | each alphabet symbol re-encodes to itself |
| Binaries.Encode | dgo/binary.go:11 | the standard base64 alphabet with '=' padding; DecodeEncode, EncodeInjective and EncodeLength state what it promises |
| Binaries.Decode | dgo/binary.go:11 | strict decoding, None for anything that is not canonical base64; EncodeDecode states that every accepted string is the encoding of its result |
| Binaries.EncodeLength | dgo/binary.go:11 | the encoding has 4 * ceil(n / 3) characters |
| Binaries.DecodeEncode | dgo/binary.go:11 | decoding the base64 form gives back the bytes |
| Binaries.EncodeInjective | dgo/binary.go:11-15 | two buffers have the same string form exactly when they hold the same bytes |
| Binaries.EncodeDecode | dgo/binary.go:11 | strictness: every string that decodes is the encoding of its bytes |
| Binaries.Binary.constructor | dgo/binary.go:11-15 | a new binary over its own array holding the given bytes, frozen as asked |
| Binaries.Binary.String | dgo/binary.go:11 | the string form is base64 that decodes back to exactly the bytes |
| Binaries.Binary.Equals | dgo/binary.go:13-15 | equal exactly when the string forms agree |
| Binaries.Binary.GoBytes | dgo/binary.go:22-23 | a new array holding the bytes |
| Binaries.Binary.Copy | dgo/binary.go:17-20 | a frozen copy of a frozen binary is the receiver; otherwise a new binary over new bytes with the requested frozen state |
| Binaries.WriteThroughGoBytes | dgo/binary.go:22-23 | writing to the array GoBytes returned leaves the binary's bytes and string form unchanged |
| TypeErrors.TypeOf | internal/typeerror_test.go:21 | the type of an error value has identifier TiError and prints "error" |
| Values.Message | internal/typeerror_test.go:24-51 | the three message templates, whose type part is the printer's text; SizeReadsBack and the three example lemmas state the texts the test expects |
| TypeErrors.InstanceOfOwnType | internal/typeerror_test.go:21 | each error is an instance of its own type |
| TypeErrors.Equals | internal/typeerror_test.go:17-19 | equal exactly to the error value built from equal parts |
| TypeErrors.HashCode | internal/typeerror_test.go:22-23 | the hash is positive, depends only on the parts, and its remainder mod 31 is the kind's code |
| TypeErrors.HashAgreesWithEquals | internal/typeerror_test.go:17-23 | equal errors hash alike; errors of different kinds hash differently and are unequal |
| TypeErrors.SizeReadsBack | internal/typeerror_test.go:37 | the size in an IllegalSize message parses back to the size |
| TypeErrors.IllegalAssignmentExample | internal/typeerror_test.go:14-25 | IllegalAssignment(string, 3): equal to itself, unequal to other values, an instance of its type, non-zero hash, the message "the value 3 cannot be assigned to a variable of type string" |
| TypeErrors.IllegalSizeExample | internal/typeerror_test.go:27-38 | IllegalSize(string[1,10], 12): the same facts, with the message "size constraint violation on type string[1,10] when attempting resize to 12" |
| TypeErrors.IllegalMapKeyExample | internal/typeerror_test.go:40-52 | IllegalMapKey({"a":string}, "b"): the same facts, with the message key "b" cannot added to type {"a":string} |

## Left out

- Floating-point types (writeFloatRange, TiFloatExact, TiFloatRange) and TiNative: Go floats and reflect types have no counterpart here.
- Format.Quote: escapes only '"' and '\', not the full escaping of strconv.Quote (control characters, non-printable runes). RegexpSlashQuote likewise escapes only '/'.
- The type identifier table (identifier.go) and the error implementation (error.go) are not part of this model.
  - The labels and numbers of the identifiers are a chosen table that agrees with the texts the core prints.
  - TypeErrors.HashCode uses a chosen formula. It keeps the promised properties (deterministic, non-zero, computed from the parts) but does not reproduce Go's value.
- Type identity uses a different notion in each place:
  - the recursion guard compares node identities (`id in seen`), as Go compares the type objects on its path;
  - the DefaultAnyType test of the meta entry compares the node's value (the operand node is the atomic any);
  - error equality compares the whole `TypeRef` (graph and root).
- valueAsType and typeAsType are modelled as nodes already in the graph, so an exact value's type is its exact-type node.
- TypeErrors.Equals: compares the type parts as whole `TypeRef` values, which is finer than Go's deep type equality. Two graphs that describe the same type but differ in node identities or in unreachable nodes are unequal here and equal in Go. For example, `string[1,10]` at root 0 and the same node at root 5 differ. Deep equality of type graphs (a bisimulation over reachable nodes) is not modelled.
- AnyType.Equals: takes a type, while Go's Equals accepts any value. The model does not state that any differs from every non-type value.
- The instance relation of kinds other than the atomic ones is a parameter (`others`): the type system's full Instance rules are outside this core.
- Maps.OrderedMap.Put, PutAll, Remove and RemoveAll: the panic on a frozen map is a precondition (!frozen), not a modelled panic.
- Maps.OrderedMap.Copy: the recursive freezing of non-frozen keys and values is not modelled, because the model's values are immutable. The stack overflow on a map that contains itself is left out too: a value cannot contain itself.
- Maps.OrderedMap.With, Without, WithoutAll, Merge and Map: the new map keeps the receiver's frozen state. The interface text does not say what it should be.
- Each, EachKey, EachValue, AllKeys, AllValues, AnyKey, AnyValue and SetType are left out: they are callback or typing variants of the modelled operations. The JSON/YAML marshalling, Indentable and ValidateVerbose are left out because they are I/O and formatting.
- Maps.OrderedMap.Keys, Values and Entries return snapshots as sequences rather than frozen Array values.
- Structs.Validate: only its interface text exists in the core, so the order of the reports is the model's. Go error messages are represented by the Violation datatype (kind, key, label, expected type, value) rather than by their text.
- Structs.Validate: a declared key must be an exact type whose value the model holds: an exact integer or string, true, false or nil. Exact regexp, slice, map and map-entry keys are not modelled, because the model's values include no regexps or slices and do not unfold a map from its exact type. A struct type whose key is not an exact type is not modelled either: a key type stands for the one value that a map's key must equal.
- Values.Message and Structs.KeyLabel: the map-key message quotes the key's string form and the default label does not. For string keys this is the text of the tests and of the Validate documentation. For other keys, such as the integer 1, the text is the model's choice: the source shows no example.
- BinaryType.IsInstance is only declared in dgo/binary.go. The binary type's instance test is not modelled beyond the atomic kinds.
- Binaries.Binary: it has no mutating method in the interface, so its frozen flag is recorded and checked only by Copy.
- newtype/map.go (constructors of map values from Go maps) is left out: it is outside this core.
- TypeErrors.IllegalAssignmentExample, IllegalSizeExample and IllegalMapKeyExample: each expected message is stated as the concatenation of its template's pieces (for example "the value " + "3" + " cannot be assigned to a variable of type " + "string"). Each piece is proved separately, so the whole text is the expected one.
