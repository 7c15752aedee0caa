/** The manifest literalizer (`translateRecursive` in hack/generategomanifests.go):
    renders a decoded value as Go literal text, together with a flag saying
    whether the whole subtree was pruned as a zero value. */
module Literal {
  import opened Wrappers
  import opened Values
  import opened Decimal

  /** The pair the renderer returns for every node. */
  datatype TypeSig = TypeSig(str: string, empty: bool)

  /** `n` tab characters. */
  function Tabs(n: nat): string {
    seq(n, _ => '\t')
  }

  /** The items separated by `sep`, as Go's `strings.Join` builds them. */
  function Join(items: seq<string>, sep: string): string {
    if |items| == 0 then ""
    else if |items| == 1 then items[0]
    else Join(items[..|items| - 1], sep) + sep + items[|items| - 1]
  }

  /** The marker a pruned struct, slice or map renders as. */
  function NilMarker(typeName: string): TypeSig {
    TypeSig(typeName + "{nil}", true)
  }

  /** A braced literal: the type, one item per line, the closing brace at `indent` tabs. */
  function Block(typeName: string, items: seq<string>, indent: nat): string {
    typeName + "{\n" + Join(items, "\n") + "\n" + Tabs(indent) + "}"
  }

  function FieldLine(depth: nat, name: string, text: string): string {
    Tabs(depth) + name + ": " + text + ","
  }

  function ElemLine(depth: nat, text: string): string {
    Tabs(depth) + text + ","
  }

  function EntryLine(depth: nat, key: string, text: string): string {
    Tabs(depth) + "\"" + key + "\": " + text + ","
  }

  /** Renders `v` at `indent` tabs. The render succeeds exactly when nothing in
      `v` makes the source panic, and a successful render is flagged empty
      exactly when `v` counts as a zero value, whatever the indentation. */
  function Render(v: Value, indent: nat): (r: Result<TypeSig>)
    ensures r.Ok? <==> Translatable(v)
    ensures r.Ok? ==> r.value.empty == CountsAsZero(v)
    decreases v
  {
    match v
    case Ptr(typeName, target) =>
      (match target
       case None => Ok(TypeSig(typeName + "(nil)", true))
       case Some(t) =>
         (match Render(t, indent + 1)
          case Panic(kind) => Panic(kind)
          case Ok(sig) => Ok(TypeSig("&" + sig.str, sig.empty))))
    case Iface(inner) =>
      (match inner
       case None => Panic("invalid")
       case Some(x) => Render(x, indent + 1))
    case Struct(typeName, fields) =>
      if |fields| == 0 then Ok(NilMarker(typeName))
      else
        (match FieldLines(fields, indent + 1)
         case Panic(kind) => Panic(kind)
         case Ok(items) =>
           if items == [] then Ok(NilMarker(typeName))
           else Ok(TypeSig(Block(typeName, items, indent), false)))
    case Slice(typeName, elems) =>
      if |elems| == 0 then Ok(NilMarker(typeName))
      else
        (match ElemLines(elems, indent + 1)
         case Panic(kind) => Panic(kind)
         case Ok(items) =>
           if items == [] then Ok(NilMarker(typeName))
           else Ok(TypeSig(Block(typeName, items, indent), false)))
    case Map(typeName, entries) =>
      if |entries| == 0 then Ok(NilMarker(typeName))
      else
        (match EntryLines(entries, indent)
         case Panic(kind) => Panic(kind)
         case Ok(items) => Ok(TypeSig(Block(typeName, items, indent), false)))
    case Str(s) => Ok(TypeSig("\"" + s + "\"", s == ""))
    case Bool(b) => if b then Ok(TypeSig("true", false)) else Ok(TypeSig("false", true))
    case Int(i) => Ok(TypeSig(IntToDecimal(i), i == 0))
    case Uint(u) => Ok(TypeSig(NatToDecimal(u), u == 0))
    case Float(text) => Ok(TypeSig(text, false))
    case Other(kind) => Panic(kind)
  }

  /** The text of a value that renders without panicking. */
  function Text(v: Value, indent: nat): string
    requires Translatable(v)
  {
    Render(v, indent).value.str
  }

  /** The lines of the struct fields that are not pruned, each child rendered
      at `depth`; the first field that panics aborts the whole list. */
  function FieldLines(fields: seq<Field>, depth: nat): (r: Result<seq<string>>)
    ensures r.Ok? <==> forall k :: 0 <= k < |fields| ==> Translatable(fields[k].value)
    ensures r.Ok? ==> (r.value == [] <==> forall k :: 0 <= k < |fields| ==> CountsAsZero(fields[k].value))
    decreases fields
  {
    if fields == [] then Ok([])
    else
      var last := fields[|fields| - 1];
      match FieldLines(fields[..|fields| - 1], depth)
      case Panic(kind) => Panic(kind)
      case Ok(items) =>
        match Render(last.value, depth)
        case Panic(kind) => Panic(kind)
        case Ok(sig) => if sig.empty then Ok(items) else Ok(items + [FieldLine(depth, last.name, sig.str)])
  }

  /** The lines of the slice elements that are not pruned, each rendered at `depth`. */
  function ElemLines(elems: seq<Value>, depth: nat): (r: Result<seq<string>>)
    ensures r.Ok? <==> forall k :: 0 <= k < |elems| ==> Translatable(elems[k])
    ensures r.Ok? ==> (r.value == [] <==> forall k :: 0 <= k < |elems| ==> CountsAsZero(elems[k]))
    decreases elems
  {
    if elems == [] then Ok([])
    else
      var last := elems[|elems| - 1];
      match ElemLines(elems[..|elems| - 1], depth)
      case Panic(kind) => Panic(kind)
      case Ok(items) =>
        match Render(last, depth)
        case Panic(kind) => Panic(kind)
        case Ok(sig) => if sig.empty then Ok(items) else Ok(items + [ElemLine(depth, sig.str)])
  }

  /** One line per map entry, pruned or not, each value rendered at `depth`. */
  function EntryLines(entries: seq<Entry>, depth: nat): (r: Result<seq<string>>)
    ensures r.Ok? <==> forall k :: 0 <= k < |entries| ==> Translatable(entries[k].value)
    ensures r.Ok? ==> |r.value| == |entries|
    decreases entries
  {
    if entries == [] then Ok([])
    else
      var last := entries[|entries| - 1];
      match EntryLines(entries[..|entries| - 1], depth)
      case Panic(kind) => Panic(kind)
      case Ok(items) =>
        match Render(last.value, depth)
        case Panic(kind) => Panic(kind)
        case Ok(sig) => Ok(items + [EntryLine(depth, last.key, sig.str)])
  }
}
