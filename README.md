# Manifest literalizer model

This project models `translateRecursive` from `hack/generategomanifests.go` in
cluster-api-provider-aws. The function takes a decoded Kubernetes object graph and
prints it as Go literal text. It returns a `TypeSig` pair: the text, and an `empty`
flag that says the whole subtree is a zero value. The rules are:

- A nil pointer prints `T(nil)`. Any other pointer prints `&` and then its target.
- An interface prints the value it holds.
- A struct or slice drops every child that renders empty. When no child is left, it
  prints the `T{nil}` marker.
- A map prints every entry.
- Strings, bools and integers are empty when they hold their zero value.
- Floats are never empty.
- Any other kind panics.

Modules:

- `Wrappers` (`wrappers.dfy`): `Option`, and `Result`, whose `Panic(kind)` stands
  for the source's `panic`.
- `Values` (`values.dfy`): the node datatype `Value`, with one constructor per kind
  the source handles and `Other(kind)` for the rest. It also holds two reference
  predicates that do not depend on the renderer:
  - `CountsAsZero`: the nodes the literalizer flags empty. A nil interface counts
    as zero only so that the predicate is total; rendering it always panics.
  - `Translatable`: the nodes it renders without panicking.
  The order-preserving filters `KeptFields` and `KeptElems` are defined from
  `CountsAsZero`.
- `Decimal` (`decimal.dfy`): the decimal text that `%v` gives for `int64` and
  `uint64` values, with a parser that reads it back.
- `Literal` (`literal.dfy`): `Render`, the pure recursive specification of
  `translateRecursive`, and the helpers that build the struct, slice and map item
  lists.
- `LiteralProperties` (`properties.dfy`): what the renderer promises for each kind.
- `Translator` (`translator.dfy`): `Translate`, a recursive method shaped like the
  source. Its struct, slice and map cases are loops that append to `items`; the
  struct and slice loops also clear an `empty` flag, while the map loop, like the
  source, has none. It is proved to return exactly what `Render` returns.

Two behaviours of the code are worth noting:

- A map with no keys returns the `{nil}` marker, flagged empty
  (hack/generategomanifests.go:104-106).
- A nil interface is not guarded. `Elem()` returns an invalid value, and that value
  reaches the panicking `default` branch (hack/generategomanifests.go:51, 158-160).
  The model returns `Panic("invalid")`.

## Model

| member | source | states |
|---|---|---|
| `Literal.Render` | hack/generategomanifests.go:23-163 | The render succeeds exactly when no nil interface and no unsupported kind can be reached from the node. A successful render is flagged empty exactly when the node counts as a zero value, so the flag never depends on the indentation. |
| `Literal.FieldLines` | hack/generategomanifests.go:64-73 | The field loop succeeds exactly when every field is translatable. It yields no line exactly when every field counts as zero. |
| `Literal.ElemLines` | hack/generategomanifests.go:85-94 | The element loop succeeds exactly when every element is translatable. It yields no line exactly when every element counts as zero. |
| `Literal.EntryLines` | hack/generategomanifests.go:107-113 | The map loop succeeds exactly when every value is translatable. It yields exactly one line per entry. |
| `Translator.Translate` | hack/generategomanifests.go:23-163 | The loop-based procedure returns the same text, flag or panic as `Render` for every node and indentation. |
| `Values.KeptFields` | hack/generategomanifests.go:66-73 | Every kept field is one of the fields and does not count as zero. Nothing is kept exactly when every field counts as zero. |
| `Values.KeptFieldsComplete` | hack/generategomanifests.go:66-73 | Every field that does not count as zero is kept: the loop drops only fields that render empty. |
| `Values.KeptFieldsAppend` | hack/generategomanifests.go:66-73 | Pruning goes field by field: the fields kept from `a + b` are those kept from `a` followed by those kept from `b`, so survivors keep their declaration order and multiplicity. |
| `Values.KeptElems` | hack/generategomanifests.go:87-94 | Every kept element is one of the elements and does not count as zero. Nothing is kept exactly when every element counts as zero. |
| `Values.KeptElemsComplete` | hack/generategomanifests.go:87-94 | Every element that does not count as zero is kept: the loop drops only elements that render empty. |
| `Values.KeptElemsAppend` | hack/generategomanifests.go:87-94 | Pruning goes element by element: the elements kept from `a + b` are those kept from `a` followed by those kept from `b`, so survivors keep their relative order and multiplicity. |
| `LiteralProperties.FieldLinesKeepNonZero` | hack/generategomanifests.go:66-73 | There is one struct line per surviving field, in declaration order. Each line is `tabs(depth) + Name + ": " + text + ","`. Pruned fields leave no line. |
| `LiteralProperties.StructRendering` | hack/generategomanifests.go:60-77 | A struct is empty exactly when no field survives, which includes having no fields; it then prints `T{nil}`. Otherwise it prints `T{`, a newline, the surviving fields' lines at indent+1 (one per field, in order), a newline, `indent` tabs and `}`. |
| `LiteralProperties.ElemLinesKeepNonZero` | hack/generategomanifests.go:87-94 | There is one slice line per surviving element, in the original relative order. Each line is `tabs(depth) + text + ","`. |
| `LiteralProperties.SliceRendering` | hack/generategomanifests.go:80-100 | A slice is empty exactly when no element survives, which includes length 0; it then prints `T{nil}`. Otherwise it lists exactly the surviving elements, in order, at indent+1, and is not empty. |
| `LiteralProperties.EntryLinesEveryEntry` | hack/generategomanifests.go:108-113 | There is one `"key": text,` line for every entry, in the given key order, whether or not the entry's value counts as zero. |
| `LiteralProperties.MapRendering` | hack/generategomanifests.go:103-114 | A map with no entries prints `T{nil}` and is empty. Any other map is never empty and has one line per entry. Both the lines and the values are rendered at the map's own indent, not indent+1. |
| `LiteralProperties.PointerRendering` | hack/generategomanifests.go:28-43 | A nil pointer prints exactly `T(nil)` and is empty. A non-nil pointer prints `&` followed by its target's text at indent+1. It is empty exactly when the target counts as zero. When the target panics, the pointer yields that same panic. |
| `LiteralProperties.InterfaceRendering` | hack/generategomanifests.go:49-56 | An interface renders exactly as the value it holds, at indent+1. A nil interface aborts with a panic. |
| `LiteralProperties.ScalarRendering` | hack/generategomanifests.go:119-160 | A string prints quoted and unescaped, and is empty iff it is `""`. A bool prints `true`/`false` and is empty iff false. An integer's text reads back as the same integer, and the integer is empty iff zero. A float prints its own text and is never empty. Any other kind panics. |
| `LiteralProperties.EmptinessIgnoresIndent` | hack/generategomanifests.go:23-162 | Whether a render panics, and its empty flag, are the same at every indentation. |
| `LiteralProperties.FieldLinesPanicIsFinal` | hack/generategomanifests.go:66-67 | A panic in one field aborts the whole struct with that same panic. |
| `LiteralProperties.ElemLinesPanicIsFinal` | hack/generategomanifests.go:87-88 | A panic in one element aborts the whole slice with that same panic. |
| `LiteralProperties.EntryLinesPanicIsFinal` | hack/generategomanifests.go:108-111 | A panic in one map value aborts the whole map with that same panic. |
| `Decimal.NatToDecimal` | hack/generategomanifests.go:148-151 | An unsigned value prints as one or more digits. It starts with `0` only when it is `0`, which happens exactly for zero. |
| `Decimal.IntToDecimal` | hack/generategomanifests.go:137-140 | A signed value prints as canonical decimal. A negative value prints as `-` followed by one or more digits, with no leading zero. A positive value prints as digits only, with no leading zero. The text is `"0"` exactly when the value is zero. |
| `Decimal.NatToDecimalRoundTrip` | hack/generategomanifests.go:148-151 | Reading the digits of an unsigned value back gives that value. |
| `Decimal.IntToDecimalRoundTrip` | hack/generategomanifests.go:137-140 | Parsing the text of a signed value gives that value. |

## Left out

- `main` (hack/generategomanifests.go:165-191) is not modelled: it reads stdin, registers schemes, decodes with the Kubernetes universal decoder and prints the result. The model starts from an already-decoded `Value`.
- Go reflection is replaced by the explicit `Value` datatype. This covers `Kind()`, `Elem()`, `Field`, `Index` and `MapKeys`. A type's `Type().String()` is an opaque `typeName` string.
- Float formatting (`%v` of a float, line 155) is floating-point numerics. A float is its already-printed text, and the only fact kept about it is that it is never empty.
- Map key order is whatever `MapKeys()` yields (line 108), and Go leaves it unspecified. Entries are a given sequence, and the model claims nothing about their order across runs. A map key is the text it prints as under `%v`.
- Values are finite trees, because `Value` is an inductive datatype. Cyclic pointer graphs are not modelled. On such a graph the source recurses without end (lines 40, 56, 67, 88, 111), whereas `Render` always terminates.
- The trace `fmt.Printf` calls (lines 55 and 159) are output only and do not affect the result, so they are not modelled.
- A panic is `Panic(kind)`, which keeps only the kind name. The formatted message text is not kept.
- The panic after the `switch` (line 162) cannot be reached, because every branch returns or panics.
- The pointer case changes `typeSig.str` in place (line 42) on a `TypeSig` the recursive call has just allocated. Nothing else refers to that object, so the model builds a new value instead. Aliasing of the returned pointers is not modelled.
- Integer kinds narrower than 64 bits are read as `int64`/`uint64`, as `Int()`/`Uint()` do. Their values are only read, so no wrap-around arises.
- test/utils/manifests.go is not part of this model. It holds fixed fixtures and codec and environment calls.
- pkg/cloud/aws/actuators/machine/config.go is not part of this model. It is status-update glue around the cluster API client and EC2 types.
- pkg/controller/add_machine.go is not part of this model. It is controller wiring.
