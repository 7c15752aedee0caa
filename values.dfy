/** The decoded object graph that the manifest literalizer walks, with the kind
    of each node made explicit instead of discovered by reflection. */
module Values {
  import opened Wrappers

  /** Every signed integer kind (`int`, `int8` … `int64`) is read as an `int64`. */
  type Int64 = i: int | -0x8000_0000_0000_0000 <= i < 0x8000_0000_0000_0000

  /** Every unsigned integer kind (`uint`, `uint8` … `uint64`, `uintptr`) is read as a `uint64`. */
  type Uint64 = u: int | 0 <= u < 0x1_0000_0000_0000_0000

  /** One node of the graph. `typeName` is the text the reflected type prints as
      (for example `*v1beta1.CustomResourceDefinition`); it is opaque here. */
  datatype Value =
    | Ptr(typeName: string, target: Option<Value>)   // None is a nil pointer
    | Iface(inner: Option<Value>)                    // None is a nil interface
    | Struct(typeName: string, fields: seq<Field>)   // fields in declaration order
    | Slice(typeName: string, elems: seq<Value>)
    | Map(typeName: string, entries: seq<Entry>)     // entries in the order the map yields its keys
    | Str(s: string)
    | Bool(b: bool)
    | Int(i: Int64)
    | Uint(u: Uint64)
    | Float(text: string)                            // the float's `%v` text, taken as given
    | Other(kind: string)                            // arrays, channels, functions, complex numbers, …

  datatype Field = Field(name: string, value: Value)

  /** A map entry; `key` is the text the key prints as under `%v`. */
  datatype Entry = Entry(key: string, value: Value)

  /** The nodes the literalizer flags empty, and so prunes from a struct or a
      slice: a nil pointer, a pointer to such a node, an interface holding such
      a node, a struct or slice all of
      whose children are pruned (in particular one with none), a map without
      entries, the empty string, `false` and integer zero. A float is never
      pruned. `Iface(None)` is given a value here only so that the predicate is
      total: a nil interface is never pruned, because rendering it panics. */
  ghost predicate CountsAsZero(v: Value) {
    match v
    case Ptr(_, target) =>
      (match target
       case None => true
       case Some(t) => CountsAsZero(t))
    case Iface(inner) =>
      (match inner
       case None => true
       case Some(x) => CountsAsZero(x))
    case Struct(_, fields) => forall k :: 0 <= k < |fields| ==> CountsAsZero(fields[k].value)
    case Slice(_, elems) => forall k :: 0 <= k < |elems| ==> CountsAsZero(elems[k])
    case Map(_, entries) => |entries| == 0
    case Str(s) => s == ""
    case Bool(b) => !b
    case Int(i) => i == 0
    case Uint(u) => u == 0
    case Float(_) => false
    case Other(_) => false
  }

  /** The nodes the literalizer can render without panicking: nothing reachable
      from the node is a nil interface or a kind outside the handled set. */
  ghost predicate Translatable(v: Value) {
    match v
    case Ptr(_, target) =>
      (match target
       case None => true
       case Some(t) => Translatable(t))
    case Iface(inner) =>
      (match inner
       case None => false
       case Some(x) => Translatable(x))
    case Struct(_, fields) => forall k :: 0 <= k < |fields| ==> Translatable(fields[k].value)
    case Slice(_, elems) => forall k :: 0 <= k < |elems| ==> Translatable(elems[k])
    case Map(_, entries) => forall k :: 0 <= k < |entries| ==> Translatable(entries[k].value)
    case Other(_) => false
    case _ => true
  }

  /** The fields that survive pruning, in declaration order. */
  ghost function KeptFields(fields: seq<Field>): (kept: seq<Field>)
    ensures |kept| <= |fields|
    ensures forall k :: 0 <= k < |kept| ==> kept[k] in fields && !CountsAsZero(kept[k].value)
    ensures kept == [] <==> forall k :: 0 <= k < |fields| ==> CountsAsZero(fields[k].value)
  {
    if fields == [] then []
    else
      var init := fields[..|fields| - 1];
      var last := fields[|fields| - 1];
      if CountsAsZero(last.value) then KeptFields(init) else KeptFields(init) + [last]
  }

  /** The slice elements that survive pruning, in their original relative order. */
  ghost function KeptElems(elems: seq<Value>): (kept: seq<Value>)
    ensures |kept| <= |elems|
    ensures forall k :: 0 <= k < |kept| ==> kept[k] in elems && !CountsAsZero(kept[k])
    ensures kept == [] <==> forall k :: 0 <= k < |elems| ==> CountsAsZero(elems[k])
  {
    if elems == [] then []
    else
      var init := elems[..|elems| - 1];
      var last := elems[|elems| - 1];
      if CountsAsZero(last) then KeptElems(init) else KeptElems(init) + [last]
  }

  /** No field that does not count as zero is dropped. */
  lemma {:induction false} KeptFieldsComplete(fields: seq<Field>)
    ensures forall k :: 0 <= k < |fields| && !CountsAsZero(fields[k].value) ==> fields[k] in KeptFields(fields)
    decreases |fields|
  {
    if fields != [] {
      var init := fields[..|fields| - 1];
      KeptFieldsComplete(init);
      assert forall k :: 0 <= k < |init| ==> fields[k] == init[k];
    }
  }

  /** No element that does not count as zero is dropped. */
  lemma {:induction false} KeptElemsComplete(elems: seq<Value>)
    ensures forall k :: 0 <= k < |elems| && !CountsAsZero(elems[k]) ==> elems[k] in KeptElems(elems)
    decreases |elems|
  {
    if elems != [] {
      var init := elems[..|elems| - 1];
      KeptElemsComplete(init);
      assert forall k :: 0 <= k < |init| ==> elems[k] == init[k];
    }
  }

  /** Pruning works piece by piece: the fields kept from `a + b` are those kept
      from `a` followed by those kept from `b`. With the one-field case of the
      definition this fixes both the order and the multiplicity of the survivors. */
  lemma {:induction false} KeptFieldsAppend(a: seq<Field>, b: seq<Field>)
    ensures KeptFields(a + b) == KeptFields(a) + KeptFields(b)
    decreases |b|
  {
    if b == [] {
      assert a + b == a;
    } else {
      var init := b[..|b| - 1];
      assert (a + b)[..|a + b| - 1] == a + init;
      assert (a + b)[|a + b| - 1] == b[|b| - 1];
      KeptFieldsAppend(a, init);
    }
  }

  /** The elements kept from `a + b` are those kept from `a` followed by those
      kept from `b`. */
  lemma {:induction false} KeptElemsAppend(a: seq<Value>, b: seq<Value>)
    ensures KeptElems(a + b) == KeptElems(a) + KeptElems(b)
    decreases |b|
  {
    if b == [] {
      assert a + b == a;
    } else {
      var init := b[..|b| - 1];
      assert (a + b)[..|a + b| - 1] == a + init;
      assert (a + b)[|a + b| - 1] == b[|b| - 1];
      KeptElemsAppend(a, init);
    }
  }
}
