/** What the literalizer promises about each kind of node, stated against the
    zero-value and pruning definitions of module Values. */
module LiteralProperties {
  import opened Wrappers
  import opened Values
  import opened Decimal
  import opened Literal

  /** The struct lines are exactly the lines of the kept fields, one per field,
      in declaration order. */
  lemma {:induction false} FieldLinesKeepNonZero(fields: seq<Field>, depth: nat)
    requires forall k :: 0 <= k < |fields| ==> Translatable(fields[k].value)
    ensures FieldLines(fields, depth).Ok?
    ensures var lines := FieldLines(fields, depth).value;
            var kept := KeptFields(fields);
            |lines| == |kept| &&
            forall k :: 0 <= k < |kept| ==>
              Translatable(kept[k].value) &&
              lines[k] == FieldLine(depth, kept[k].name, Text(kept[k].value, depth))
    decreases fields
  {
    if fields != [] {
      var init := fields[..|fields| - 1];
      FieldLinesKeepNonZero(init, depth);
    }
  }

  /** A struct is flagged empty exactly when no field survives pruning, and then
      renders as the `{nil}` marker; otherwise it lists one `Name: value,` line
      per surviving field at one more tab than the struct, in declaration order,
      and closes its brace at the struct's own indentation. */
  lemma StructRendering(typeName: string, fields: seq<Field>, indent: nat)
    requires Translatable(Struct(typeName, fields))
    ensures var sig := Render(Struct(typeName, fields), indent).value;
            var kept := KeptFields(fields);
            (sig.empty <==> kept == []) &&
            (sig.empty ==> sig.str == typeName + "{nil}") &&
            var lines := FieldLines(fields, indent + 1).value;
            (!sig.empty ==>
               sig.str == Block(typeName, lines, indent) && |lines| == |kept| &&
               forall k :: 0 <= k < |kept| ==>
                 Translatable(kept[k].value) &&
                 lines[k] == FieldLine(indent + 1, kept[k].name, Text(kept[k].value, indent + 1)))
  {
    if |fields| > 0 {
      FieldLinesKeepNonZero(fields, indent + 1);
    }
  }

  /** The slice lines are exactly the lines of the kept elements, in order. */
  lemma {:induction false} ElemLinesKeepNonZero(elems: seq<Value>, depth: nat)
    requires forall k :: 0 <= k < |elems| ==> Translatable(elems[k])
    ensures ElemLines(elems, depth).Ok?
    ensures var lines := ElemLines(elems, depth).value;
            var kept := KeptElems(elems);
            |lines| == |kept| &&
            forall k :: 0 <= k < |kept| ==>
              Translatable(kept[k]) && lines[k] == ElemLine(depth, Text(kept[k], depth))
    decreases elems
  {
    if elems != [] {
      var init := elems[..|elems| - 1];
      ElemLinesKeepNonZero(init, depth);
    }
  }

  /** A slice is flagged empty exactly when no element survives pruning, and
      then renders as the `{nil}` marker; otherwise it lists exactly the
      surviving elements, in their original relative order, one per line. */
  lemma SliceRendering(typeName: string, elems: seq<Value>, indent: nat)
    requires Translatable(Slice(typeName, elems))
    ensures var sig := Render(Slice(typeName, elems), indent).value;
            var kept := KeptElems(elems);
            (sig.empty <==> kept == []) &&
            (sig.empty ==> sig.str == typeName + "{nil}") &&
            var lines := ElemLines(elems, indent + 1).value;
            (!sig.empty ==>
               sig.str == Block(typeName, lines, indent) && |lines| == |kept| &&
               forall k :: 0 <= k < |kept| ==>
                 Translatable(kept[k]) && lines[k] == ElemLine(indent + 1, Text(kept[k], indent + 1)))
  {
    if |elems| > 0 {
      ElemLinesKeepNonZero(elems, indent + 1);
    }
  }

  /** Every map entry gets its line, whether or not its value counts as zero. */
  lemma {:induction false} EntryLinesEveryEntry(entries: seq<Entry>, depth: nat)
    requires forall k :: 0 <= k < |entries| ==> Translatable(entries[k].value)
    ensures EntryLines(entries, depth).Ok?
    ensures var lines := EntryLines(entries, depth).value;
            |lines| == |entries| &&
            forall k :: 0 <= k < |entries| ==>
              lines[k] == EntryLine(depth, entries[k].key, Text(entries[k].value, depth))
    decreases entries
  {
    if entries != [] {
      var init := entries[..|entries| - 1];
      EntryLinesEveryEntry(init, depth);
      assert forall k :: 0 <= k < |init| ==> entries[k] == init[k];
    }
  }

  /** A map without entries renders as the `{nil}` marker and is flagged empty;
      any other map is never flagged empty and has one `"key": value,` line per
      entry, both the lines and the values at the map's own indentation. */
  lemma MapRendering(typeName: string, entries: seq<Entry>, indent: nat)
    requires Translatable(Map(typeName, entries))
    ensures var sig := Render(Map(typeName, entries), indent).value;
            (sig.empty <==> entries == []) &&
            (sig.empty ==> sig.str == typeName + "{nil}") &&
            (!sig.empty ==> exists lines: seq<string> ::
               sig.str == Block(typeName, lines, indent) && |lines| == |entries| &&
               forall k :: 0 <= k < |entries| ==>
                 lines[k] == EntryLine(indent, entries[k].key, Text(entries[k].value, indent)))
  {
    if |entries| > 0 {
      EntryLinesEveryEntry(entries, indent);
    }
  }

  /** A nil pointer renders as `T(nil)` and is empty; any other pointer renders
      as `&` followed by its target's text one tab deeper, and is empty exactly
      when its target counts as zero. */
  lemma PointerRendering(typeName: string, target: Option<Value>, indent: nat)
    ensures target.None? ==> Render(Ptr(typeName, target), indent) == Ok(TypeSig(typeName + "(nil)", true))
    ensures target.Some? && Translatable(target.value) ==>
              Render(Ptr(typeName, target), indent)
                == Ok(TypeSig("&" + Text(target.value, indent + 1), CountsAsZero(target.value)))
    ensures target.Some? && !Translatable(target.value) ==>
              Render(Ptr(typeName, target), indent) == Render(target.value, indent + 1)
  {
  }

  /** An interface renders exactly as the value it holds, one tab deeper; a nil
      interface aborts the rendering. */
  lemma InterfaceRendering(inner: Option<Value>, indent: nat)
    ensures inner.None? ==> Render(Iface(inner), indent) == Panic("invalid")
    ensures inner.Some? ==> Render(Iface(inner), indent) == Render(inner.value, indent + 1)
  {
  }

  /** Scalars: a string is quoted as is and empty when it is `""`; a bool
      prints `true`/`false` and is empty when false; an integer prints as
      decimal text that reads back as the same integer and is empty when zero;
      a float prints its own text and is never empty; any other kind aborts. */
  lemma ScalarRendering(v: Value, indent: nat)
    ensures v.Str? ==> Render(v, indent) == Ok(TypeSig("\"" + v.s + "\"", v.s == ""))
    ensures v.Bool? ==> Render(v, indent) == Ok(TypeSig(if v.b then "true" else "false", !v.b))
    ensures v.Int? ==> Render(v, indent).Ok? && ParseInt(Text(v, indent)) == Some(v.i as int) &&
                       (Render(v, indent).value.empty <==> v.i == 0)
    ensures v.Uint? ==> Render(v, indent).Ok? && ParseInt(Text(v, indent)) == Some(v.u as int) &&
                        (Render(v, indent).value.empty <==> v.u == 0)
    ensures v.Float? ==> Render(v, indent) == Ok(TypeSig(v.text, false))
    ensures v.Other? ==> Render(v, indent) == Panic(v.kind)
  {
    match v
    case Int(i) => IntToDecimalRoundTrip(i);
    case Uint(u) => IntToDecimalRoundTrip(u);
    case _ =>
  }

  /** Indentation changes only whitespace: whether a render aborts and whether
      it is flagged empty are the same at every depth. */
  lemma EmptinessIgnoresIndent(v: Value, indent1: nat, indent2: nat)
    ensures Render(v, indent1).Ok? == Render(v, indent2).Ok?
    ensures Render(v, indent1).Ok? ==> Render(v, indent1).value.empty == Render(v, indent2).value.empty
  {
  }

  /** The first field that panics aborts the whole struct with that panic:
      nothing after it is rendered. */
  lemma {:induction false} FieldLinesPanicIsFinal(fields: seq<Field>, i: nat, depth: nat)
    requires i <= |fields| && FieldLines(fields[..i], depth).Panic?
    ensures FieldLines(fields, depth) == FieldLines(fields[..i], depth)
    decreases |fields| - i
  {
    if i < |fields| {
      assert fields[..i + 1][..i] == fields[..i];
      FieldLinesPanicIsFinal(fields, i + 1, depth);
    } else {
      assert fields[..i] == fields;
    }
  }

  /** The first slice element that panics aborts the whole slice with that panic. */
  lemma {:induction false} ElemLinesPanicIsFinal(elems: seq<Value>, i: nat, depth: nat)
    requires i <= |elems| && ElemLines(elems[..i], depth).Panic?
    ensures ElemLines(elems, depth) == ElemLines(elems[..i], depth)
    decreases |elems| - i
  {
    if i < |elems| {
      assert elems[..i + 1][..i] == elems[..i];
      ElemLinesPanicIsFinal(elems, i + 1, depth);
    } else {
      assert elems[..i] == elems;
    }
  }

  /** The first map value that panics aborts the whole map with that panic. */
  lemma {:induction false} EntryLinesPanicIsFinal(entries: seq<Entry>, i: nat, depth: nat)
    requires i <= |entries| && EntryLines(entries[..i], depth).Panic?
    ensures EntryLines(entries, depth) == EntryLines(entries[..i], depth)
    decreases |entries| - i
  {
    if i < |entries| {
      assert entries[..i + 1][..i] == entries[..i];
      EntryLinesPanicIsFinal(entries, i + 1, depth);
    } else {
      assert entries[..i] == entries;
    }
  }
}
