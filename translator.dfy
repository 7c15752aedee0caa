/** `translateRecursive` as the source runs it: a recursive procedure whose
    struct, slice and map cases loop over the children, collect the item lines
    in a growing list and keep an `empty` flag. */
module Translator {
  import opened Wrappers
  import opened Values
  import opened Decimal
  import opened Literal
  import opened LiteralProperties

  /** Renders `v` at `indent` tabs, with the same result as the specification
      Render: the same text and flag, or the same panic. */
  method Translate(v: Value, indent: nat) returns (r: Result<TypeSig>)
    ensures r == Render(v, indent)
    decreases v
  {
    match v {
      case Ptr(typeName, target) =>
        if target.None? {
          return Ok(TypeSig(typeName + "(nil)", true));
        }
        var sig := Translate(target.value, indent + 1);
        if sig.Panic? {
          return Panic(sig.kind);
        }
        r := Ok(TypeSig("&" + sig.value.str, sig.value.empty));

      case Iface(inner) =>
        if inner.None? {
          return Panic("invalid");
        }
        r := Translate(inner.value, indent + 1);

      case Struct(typeName, fields) =>
        if |fields| == 0 {
          return Ok(NilMarker(typeName));
        }
        var items: seq<string> := [];
        var empty := true;
        for i := 0 to |fields|
          invariant FieldLines(fields[..i], indent + 1) == Ok(items)
          invariant empty == (items == [])
        {
          assert fields[..i + 1][..i] == fields[..i];
          var item := Translate(fields[i].value, indent + 1);
          if item.Panic? {
            FieldLinesPanicIsFinal(fields, i + 1, indent + 1);
            return Panic(item.kind);
          }
          if item.value.empty {
            continue;
          }
          empty := false;
          items := items + [FieldLine(indent + 1, fields[i].name, item.value.str)];
        }
        assert fields[..|fields|] == fields;
        if empty {
          return Ok(NilMarker(typeName));
        }
        r := Ok(TypeSig(Block(typeName, items, indent), false));

      case Slice(typeName, elems) =>
        if |elems| == 0 {
          return Ok(NilMarker(typeName));
        }
        var items: seq<string> := [];
        var empty := true;
        for i := 0 to |elems|
          invariant ElemLines(elems[..i], indent + 1) == Ok(items)
          invariant empty == (items == [])
        {
          assert elems[..i + 1][..i] == elems[..i];
          var item := Translate(elems[i], indent + 1);
          if item.Panic? {
            ElemLinesPanicIsFinal(elems, i + 1, indent + 1);
            return Panic(item.kind);
          }
          if item.value.empty {
            continue;
          }
          empty := false;
          items := items + [ElemLine(indent + 1, item.value.str)];
        }
        assert elems[..|elems|] == elems;
        if empty {
          return Ok(NilMarker(typeName));
        }
        r := Ok(TypeSig(Block(typeName, items, indent), false));

      case Map(typeName, entries) =>
        if |entries| == 0 {
          return Ok(NilMarker(typeName));
        }
        var items: seq<string> := [];
        for i := 0 to |entries|
          invariant EntryLines(entries[..i], indent) == Ok(items)
        {
          assert entries[..i + 1][..i] == entries[..i];
          var item := Translate(entries[i].value, indent);
          if item.Panic? {
            EntryLinesPanicIsFinal(entries, i + 1, indent);
            return Panic(item.kind);
          }
          items := items + [EntryLine(indent, entries[i].key, item.value.str)];
        }
        assert entries[..|entries|] == entries;
        r := Ok(TypeSig(Block(typeName, items, indent), false));

      case Str(s) =>
        r := Ok(TypeSig("\"" + s + "\"", s == ""));

      case Bool(b) =>
        if b {
          return Ok(TypeSig("true", false));
        }
        r := Ok(TypeSig("false", true));

      case Int(i) =>
        if i == 0 {
          return Ok(TypeSig(IntToDecimal(i), true));
        }
        r := Ok(TypeSig(IntToDecimal(i), false));

      case Uint(u) =>
        if u == 0 {
          return Ok(TypeSig(NatToDecimal(u), true));
        }
        r := Ok(TypeSig(NatToDecimal(u), false));

      case Float(text) =>
        r := Ok(TypeSig(text, false));

      case Other(kind) =>
        r := Panic(kind);
    }
  }
}
