/** Decoding what was encoded gives the value back, exactly when decoding may go deep enough. */
module AbiRoundTrip {
  import opened Basics
  import opened AbiModel

  // ---------------------------------------------------------------- values that can come back

  /** The entries that decoding a struct produces: the fields present, those of its base first. */
  ghost function Expected(w: Serializer, fuel: nat, st: Struct, entries: seq<Entry>): seq<Entry>
    decreases fuel
  {
    (if st.base.Some? && fuel > 0 && NamesStruct(w, st.base.value)
     then Expected(w, fuel - 1, StructOf(w, st.base.value), entries) else [])
    + ExpectedFields(st.fields, 0, entries)
  }

  ghost function ExpectedFields(fields: seq<Field>, i: nat, entries: seq<Entry>): seq<Entry>
    requires i <= |fields|
    decreases |fields| - i
  {
    if i == |fields| then []
    else (match Lookup(entries, fields[i].name)
          case Some(v) => [Entry(fields[i].name, v)]
          case None => []) + ExpectedFields(fields, i + 1, entries)
  }

  /** What validate asks of a base. */
  ghost predicate NamesStruct(w: Serializer, t: Type) {
    var rt := Resolve(w.typedefs, t);
    rt.Plain? && rt.name in w.structs
  }

  ghost function StructOf(w: Serializer, t: Type): Struct
    requires NamesStruct(w, t)
  {
    w.structs[Resolve(w.typedefs, t).name]
  }

  /** The values of type t that decoding can give: built-in values as unpacked, arrays without null
      elements, and objects that are not empty and list just the fields of the struct, in order. */
  ghost predicate Canonical(w: Serializer, fuel: nat, t: Type, v: Value)
    decreases fuel, 1, 0
  {
    fuel > 0 ==>
      var rt := Resolve(w.typedefs, t);
      if IsBuiltin(w, rt) then w.codec.plain(Fundamental(rt).name, ShapeOf(rt), v)
      else match rt {
        case ArrayOf(elem) =>
          v.List? ==> |v.items| < TWO32 && forall i | 0 <= i < |v.items| ::
                        v.items[i] != Null && Canonical(w, fuel - 1, elem, v.items[i])
        case OptionalOf(elem) => v != Null ==> Canonical(w, fuel - 1, elem, v)
        case Plain(name) =>
          if name in w.variants then
            v.List? && |v.items| == 2 && v.items[0].Text? && v.items[0].typ in w.variants[name] ==>
              |w.variants[name]| < TWO32 && Canonical(w, fuel - 1, v.items[0].typ, v.items[1])
          else if name in w.structs then
            && v.Object? && v.entries != [] && v.entries == Expected(w, fuel - 1, w.structs[name], v.entries)
            && CanonicalStruct(w, fuel - 1, w.structs[name], v.entries)
          else true
      }
  }

  ghost predicate CanonicalStruct(w: Serializer, fuel: nat, st: Struct, entries: seq<Entry>)
    decreases fuel, 2, 0
  {
    && (st.base.Some? ==> NamesStruct(w, st.base.value))
    && (st.base.Some? && fuel > 0 ==> CanonicalStruct(w, fuel - 1, StructOf(w, st.base.value), entries))
    && CanonicalFields(w, fuel, st.fields, entries)
  }

  ghost predicate CanonicalFields(w: Serializer, fuel: nat, fields: seq<Field>, entries: seq<Entry>)
    decreases fuel, 1, 1
  {
    forall i | 0 <= i < |fields| ::
      match Lookup(entries, fields[i].name)
      case Some(v) => Canonical(w, fuel, fields[i].typ, v)
      case None => true
  }

  // ---------------------------------------------------------------- bases and built-in types

  /** Each entry is the one found under its name. */
  ghost predicate Consistent(entries: seq<Entry>) {
    forall i | 0 <= i < |entries| :: Lookup(entries, entries[i].name) == Some(entries[i].value)
  }

  /** The packing function of a built-in type refuses every object that a struct could decode to. */
  ghost predicate TakesNoObject(c: Codec, n: nat) {
    forall entries: seq<Entry> | entries != [] && Consistent(entries) :: c.pack(n, One, Object(entries)).None?
  }

  /** Encoding takes a base that shares its name with a built-in type for that type, and decoding
      takes it for the struct. That does no harm if the built-in type takes no objects. */
  ghost predicate BasesSafe(w: Serializer) {
    forall s | s in w.structs && w.structs[s].base.Some? ::
      var rt := Resolve(w.typedefs, w.structs[s].base.value);
      rt.Plain? && rt.name in w.codec.known ==> TakesNoObject(w.codec, rt.name)
  }

  ghost predicate Sound(w: Serializer) { Lawful(w.codec) && BasesSafe(w) }

  lemma {:induction false} ExpectedListed(w: Serializer, fuel: nat, st: Struct, entries: seq<Entry>, e: Entry)
    requires e in Expected(w, fuel, st, entries)
    ensures Lookup(entries, e.name) == Some(e.value)
    decreases fuel
  {
    if e in ExpectedFields(st.fields, 0, entries) {
      ExpectedFieldListed(st.fields, 0, entries, e);
    } else {
      ExpectedListed(w, fuel - 1, StructOf(w, st.base.value), entries, e);
    }
  }

  lemma {:induction false} ExpectedFieldListed(fields: seq<Field>, i: nat, entries: seq<Entry>, e: Entry)
    requires i <= |fields| && e in ExpectedFields(fields, i, entries)
    ensures Lookup(entries, e.name) == Some(e.value)
    decreases |fields| - i
  {
    if e in ExpectedFields(fields, i + 1, entries) { ExpectedFieldListed(fields, i + 1, entries, e); }
  }

  lemma ExpectedConsistent(w: Serializer, fuel: nat, st: Struct, entries: seq<Entry>)
    requires entries == Expected(w, fuel, st, entries)
    ensures Consistent(entries)
  {
    hide Expected;
    forall i | 0 <= i < |entries| ensures Lookup(entries, entries[i].name) == Some(entries[i].value) {
      ExpectedListed(w, fuel, st, entries, entries[i]);
    }
  }

  // ---------------------------------------------------------------- how deep decoding goes

  ghost function Max(a: nat, b: nat): nat { if a < b then b else a }

  /** The number of nested scopes that decoding the encoding of v enters. A struct value takes two. */
  ghost function Need(w: Serializer, fuel: nat, t: Type, v: Value): nat
    decreases fuel, 1, 0
  {
    if fuel == 0 then 0
    else
      var rt := Resolve(w.typedefs, t);
      if IsBuiltin(w, rt) then 1
      else match rt {
        case ArrayOf(elem) => if v.List? then 1 + NeedItems(w, fuel - 1, elem, v.items, 0) else 1
        case OptionalOf(elem) => if v.Null? then 1 else 1 + Need(w, fuel - 1, elem, v)
        case Plain(name) =>
          if name in w.variants then
            if v.List? && |v.items| == 2 && v.items[0].Text? then 1 + Need(w, fuel - 1, v.items[0].typ, v.items[1]) else 1
          else if name in w.structs && v.Object? then 1 + NeedStruct(w, fuel - 1, w.structs[name], v.entries)
          else 1
      }
  }

  ghost function NeedItems(w: Serializer, fuel: nat, elem: Type, items: seq<Value>, i: nat): nat
    requires i <= |items|
    decreases fuel, 2, |items| - i
  {
    if i == |items| then 0 else Max(Need(w, fuel, elem, items[i]), NeedItems(w, fuel, elem, items, i + 1))
  }

  ghost function NeedStruct(w: Serializer, fuel: nat, st: Struct, entries: seq<Entry>): nat
    decreases fuel, 3, 0
  {
    1 + Max(if st.base.Some? && fuel > 0 && NamesStruct(w, st.base.value)
            then NeedStruct(w, fuel - 1, StructOf(w, st.base.value), entries) else 0,
            NeedFields(w, fuel, st.fields, 0, entries))
  }

  ghost function NeedFields(w: Serializer, fuel: nat, fields: seq<Field>, i: nat, entries: seq<Entry>): nat
    requires i <= |fields|
    decreases fuel, 2, |fields| - i
  {
    if i == |fields| then 0
    else Max(match Lookup(entries, fields[i].name)
             case Some(v) => Need(w, fuel, fields[i].typ, v)
             case None => 0,
             NeedFields(w, fuel, fields, i + 1, entries))
  }

  // ---------------------------------------------------------------- there and back

  function Outcome<T>(deepEnough: bool, v: T, rest: Bytes): Result<(T, Bytes)> {
    if deepEnough then Ok((v, rest)) else Err(Depth)
  }

  /** What can be encoded and decoded with `rest` behind it. Where extension fields may be left out
      nothing may follow. */
  ghost predicate Encodable(w: Serializer, fuel: nat, t: Type, v: Value, ext: bool, rest: Bytes) {
    Sound(w) && Encode(w, fuel, t, v, ext).Ok? && Canonical(w, fuel, t, v) && (ext ==> rest == [])
  }

  /** Decoding the bytes of v, with `rest` behind them, gives v and leaves the rest if it may enter as
      many scopes as v needs. It fails on the depth otherwise. */
  ghost predicate ComesBack(w: Serializer, fuel: nat, t: Type, v: Value, ext: bool, rest: Bytes, depth: nat)
    requires Encode(w, fuel, t, v, ext).Ok?
  {
    var b := Encode(w, fuel, t, v, ext).value;
    b != [] && Decode(w, depth, t, b + rest) == Outcome(depth >= Need(w, fuel, t, v), v, rest)
  }

  lemma {:induction false} ValueTrip(w: Serializer, fuel: nat, t: Type, v: Value, ext: bool, rest: Bytes, depth: nat)
    requires Encodable(w, fuel, t, v, ext, rest)
    ensures ComesBack(w, fuel, t, v, ext, rest, depth)
    decreases fuel, 2, 0
  {
    var rt := Resolve(w.typedefs, t);
    if IsBuiltin(w, rt) {
      BuiltinTrip(w, fuel, t, v, ext, rest, depth);
    } else {
      hide Resolve, Canonical, Need, Encode, Decode, Encodable, ComesBack;
      match rt
      case ArrayOf(elem) => ArrayTrip(w, fuel, t, v, ext, rest, depth);
      case OptionalOf(elem) => OptionalTrip(w, fuel, t, v, ext, rest, depth);
      case Plain(name) =>
        if name in w.variants {
          VariantTrip(w, fuel, t, v, ext, rest, depth);
        } else {
          StructValueTrip(w, fuel, t, v, ext, rest, depth);
        }
    }
  }

  lemma BuiltinTrip(w: Serializer, fuel: nat, t: Type, v: Value, ext: bool, rest: Bytes, depth: nat)
    requires Encodable(w, fuel, t, v, ext, rest) && IsBuiltin(w, Resolve(w.typedefs, t))
    ensures ComesBack(w, fuel, t, v, ext, rest, depth)
  {
    hide Resolve;
    var rt := Resolve(w.typedefs, t);
    var n, shape := Fundamental(rt).name, ShapeOf(rt);
    var packed := w.codec.pack(n, shape, v);
    assert Encode(w, fuel, t, v, ext) == if packed.Some? then Ok(packed.value) else Err(Bad);
    assert w.codec.plain(n, shape, v) && w.codec.unpack(n, shape, packed.value + rest) == Some((v, rest));
  }

  lemma {:induction false} OptionalTrip(w: Serializer, fuel: nat, t: Type, v: Value, ext: bool, rest: Bytes, depth: nat)
    requires Encodable(w, fuel, t, v, ext, rest)
    requires var rt := Resolve(w.typedefs, t); rt.OptionalOf? && !IsBuiltin(w, rt)
    ensures ComesBack(w, fuel, t, v, ext, rest, depth)
    decreases fuel, 1, 0
  {
    hide Resolve;
    var elem := Resolve(w.typedefs, t).elem;
    var s := Encode(w, fuel, t, v, ext).value + rest;
    if v.Null? {
      assert s[1..] == rest;
    } else {
      var b := Encode(w, fuel - 1, elem, v, ext).value;
      assert s[0] == 1 && s[1..] == b + rest;
      if depth > 0 { ValueTrip(w, fuel - 1, elem, v, ext, rest, depth - 1); }
    }
  }

  lemma {:induction false} ArrayTrip(w: Serializer, fuel: nat, t: Type, v: Value, ext: bool, rest: Bytes, depth: nat)
    requires Encodable(w, fuel, t, v, ext, rest)
    requires var rt := Resolve(w.typedefs, t); rt.ArrayOf? && !IsBuiltin(w, rt)
    ensures ComesBack(w, fuel, t, v, ext, rest, depth)
    decreases fuel, 1, 0
  {
    hide Resolve, PackSize, UnpackSize;
    var elem := Resolve(w.typedefs, t).elem;
    assert v.List? && EncodeItems(w, fuel - 1, elem, v.items, 0).Ok?;
    hide EncodeItems, DecodeItems, NeedItems;
    var size, b := PackSize(|v.items|), EncodeItems(w, fuel - 1, elem, v.items, 0).value;
    SizeRoundTrip(|v.items|, b + rest);
    assert size + b + rest == size + (b + rest);
    if depth > 0 {
      ItemsTrip(w, fuel - 1, elem, v.items, 0, rest, depth - 1, []);
      assert [] + v.items[0..] == v.items;
    }
  }

  lemma {:induction false} ItemsTrip(
      w: Serializer, fuel: nat, elem: Type, items: seq<Value>, i: nat, rest: Bytes, depth: nat, done: seq<Value>)
    requires Sound(w) && i <= |items| && EncodeItems(w, fuel, elem, items, i).Ok?
    requires forall j | 0 <= j < |items| :: items[j] != Null && Canonical(w, fuel, elem, items[j])
    ensures DecodeItems(w, depth, elem, |items| - i, EncodeItems(w, fuel, elem, items, i).value + rest, done)
            == Outcome(depth >= NeedItems(w, fuel, elem, items, i), List(done + items[i..]), rest)
    decreases fuel, 3, |items| - i
  {
    hide Encode, Decode, Need, Canonical;
    if i == |items| {
      assert done + items[i..] == done && [] + rest == rest;
    } else {
      var a, b := Encode(w, fuel, elem, items[i], false).value, EncodeItems(w, fuel, elem, items, i + 1).value;
      ValueTrip(w, fuel, elem, items[i], false, b + rest, depth);
      assert a + b + rest == a + (b + rest);
      ItemsTrip(w, fuel, elem, items, i + 1, rest, depth, done + [items[i]]);
      assert done + [items[i]] + items[i+1..] == done + items[i..];
    }
  }

  lemma {:induction false} VariantTrip(w: Serializer, fuel: nat, t: Type, v: Value, ext: bool, rest: Bytes, depth: nat)
    requires Encodable(w, fuel, t, v, ext, rest)
    requires var rt := Resolve(w.typedefs, t); rt.Plain? && rt.name in w.variants && !IsBuiltin(w, rt)
    ensures ComesBack(w, fuel, t, v, ext, rest, depth)
    decreases fuel, 1, 0
  {
    hide Resolve, PackSize, UnpackSize;
    var types := w.variants[Resolve(w.typedefs, t).name];
    assert Encode(w, fuel, t, v, ext) == EncodeVariant(w, fuel - 1, types, v, ext);
    var i := IndexOf(types, v.items[0].typ);
    var tag, b := PackSize(i), Encode(w, fuel - 1, types[i], v.items[1], ext).value;
    SizeRoundTrip(i, b + rest);
    assert tag + b + rest == tag + (b + rest);
    if depth > 0 {
      ValueTrip(w, fuel - 1, types[i], v.items[1], ext, rest, depth - 1);
      assert v.items == [Text(types[i]), v.items[1]];
      assert Decode(w, depth, t, tag + (b + rest)) == DecodeVariant(w, depth - 1, types, tag + (b + rest));
    }
  }

  lemma {:induction false} StructValueTrip(w: Serializer, fuel: nat, t: Type, v: Value, ext: bool, rest: Bytes, depth: nat)
    requires Encodable(w, fuel, t, v, ext, rest)
    requires var rt := Resolve(w.typedefs, t); rt.Plain? && rt.name !in w.variants && !IsBuiltin(w, rt)
    ensures ComesBack(w, fuel, t, v, ext, rest, depth)
    decreases fuel, 1, 0
  {
    hide Resolve, EncodeStruct, DecodeStruct, Expected, CanonicalStruct, NeedStruct;
    var rt := Resolve(w.typedefs, t);
    ExpectedConsistent(w, fuel - 1, w.structs[rt.name], v.entries);
    StructTrip(w, fuel - 1, rt.name, v.entries, ext, rest, if depth > 0 then depth - 1 else 0, []);
    assert [] + v.entries == v.entries;
  }

  /** The struct part of decoding appends the expected entries. */
  lemma {:induction false} StructTrip(w: Serializer, fuel: nat, name: nat, entries: seq<Entry>, ext: bool,
      rest: Bytes, depth: nat, done: seq<Entry>)
    requires Sound(w) && name in w.structs && EncodeStruct(w, fuel, w.structs[name], Object(entries), ext).Ok?
    requires CanonicalStruct(w, fuel, w.structs[name], entries) && (ext ==> rest == [])
    requires entries != [] && Consistent(entries)
    ensures var st := w.structs[name];
            var b := EncodeStruct(w, fuel, st, Object(entries), ext).value;
            && (Expected(w, fuel, st, entries) != [] ==> b != [])
            && DecodeStruct(w, depth, Plain(name), b + rest, done)
               == Outcome(depth >= NeedStruct(w, fuel, st, entries), done + Expected(w, fuel, st, entries), rest)
    decreases fuel, 4, 0
  {
    hide Resolve, EncodeFields, DecodeFields, ExpectedFields, CanonicalFields, NeedFields, Encode;
    var st := w.structs[name];
    var b := EncodeFields(w, fuel, st.fields, 0, entries, ext, false).value;
    if st.base.None? {
      FieldsTrip(w, fuel, st.fields, 0, entries, ext, false, rest, if depth > 0 then depth - 1 else 0, done);
      assert [] + b == b && [] + ExpectedFields(st.fields, 0, entries) == ExpectedFields(st.fields, 0, entries);
    } else {
      var base := st.base.value;
      assert Encode(w, fuel, Resolve(w.typedefs, base), Object(entries), false).Ok?;
      BaseEncoded(w, fuel, name, entries);
      var baseName := Resolve(w.typedefs, base).name;
      var a := EncodeStruct(w, fuel - 1, StructOf(w, base), Object(entries), false).value;
      var down := if depth > 0 then depth - 1 else 0;
      StructTrip(w, fuel - 1, baseName, entries, false, b + rest, down, done);
      assert a + b + rest == a + (b + rest);
      var first := done + Expected(w, fuel - 1, StructOf(w, base), entries);
      FieldsTrip(w, fuel, st.fields, 0, entries, ext, false, rest, down, first);
      assert first + ExpectedFields(st.fields, 0, entries) == done + Expected(w, fuel, st, entries);
    }
  }

  /** Encoding a base is encoding its struct, one scope further down. */
  lemma BaseEncoded(w: Serializer, fuel: nat, name: nat, entries: seq<Entry>)
    requires BasesSafe(w) && name in w.structs && w.structs[name].base.Some? && NamesStruct(w, w.structs[name].base.value)
    requires entries != [] && Consistent(entries)
    ensures var base := w.structs[name].base.value;
            var b := Encode(w, fuel, Resolve(w.typedefs, base), Object(entries), false);
            b.Ok? ==> fuel > 0 && b == EncodeStruct(w, fuel - 1, StructOf(w, base), Object(entries), false)
  {
    hide EncodeStruct, Consistent, Resolve;
    ResolveTwice(w.typedefs, w.structs[name].base.value);
  }

  lemma {:induction false} FieldsTrip(w: Serializer, fuel: nat, fields: seq<Field>, i: nat, entries: seq<Entry>,
      ext: bool, omitting: bool, rest: Bytes, depth: nat, done: seq<Entry>)
    requires Sound(w) && i <= |fields| && EncodeFields(w, fuel, fields, i, entries, ext, omitting).Ok?
    requires CanonicalFields(w, fuel, fields, entries) && (ext ==> rest == []) && (omitting ==> ext)
    ensures var b := EncodeFields(w, fuel, fields, i, entries, ext, omitting).value;
            && (ExpectedFields(fields, i, entries) != [] ==> b != []) && (omitting ==> b == [])
            && DecodeFields(w, depth, fields, i, b + rest, done)
               == Outcome(depth >= NeedFields(w, fuel, fields, i, entries), done + ExpectedFields(fields, i, entries), rest)
    decreases fuel, 3, |fields| - i
  {
    hide Encode, Decode, Need, Canonical, Resolve, Lookup;
    if i == |fields| {
      assert done + [] == done && [] + rest == rest;
    } else {
      match Lookup(entries, fields[i].name) {
        case None =>
          FieldsTrip(w, fuel, fields, i + 1, entries, ext, true, rest, depth, done);
          assert [] + ExpectedFields(fields, i + 1, entries) == ExpectedFields(fields, i + 1, entries);
        case Some(v) =>
          var last := ext && i == |fields| - 1;
          var a, b := Encode(w, fuel, fields[i].typ, v, last).value, EncodeFields(w, fuel, fields, i + 1, entries, ext, false).value;
          ValueTrip(w, fuel, fields[i].typ, v, last, b + rest, depth);
          ResolvedSame(w, depth, fields[i].typ, a + (b + rest));
          assert a + b + rest == a + (b + rest);
          var e := Entry(fields[i].name, v);
          FieldsTrip(w, fuel, fields, i + 1, entries, ext, false, rest, depth, done + [e]);
          assert done + [e] + ExpectedFields(fields, i + 1, entries) == done + ([e] + ExpectedFields(fields, i + 1, entries));
      }
    }
  }

  lemma ResolvedSame(w: Serializer, depth: nat, t: Type, s: Bytes)
    ensures Decode(w, depth, Resolve(w.typedefs, t), s) == Decode(w, depth, t, s)
  {
    ResolveTwice(w.typedefs, t);
  }

  // ---------------------------------------------------------------- structs given as arrays

  ghost predicate DistinctNames(fields: seq<Field>) {
    forall i, j | 0 <= i < j < |fields| :: fields[i].name != fields[j].name
  }

  /** The object that an array of field values stands for; surplus values stand for nothing. */
  ghost function Named(fields: seq<Field>, items: seq<Value>, i: nat): seq<Entry>
    requires i <= |fields|
    decreases |fields| - i
  {
    if i == |fields| || i >= |items| then [] else [Entry(fields[i].name, items[i])] + Named(fields, items, i + 1)
  }

  lemma {:induction false} NamedLookup(fields: seq<Field>, items: seq<Value>, i: nat, k: nat)
    requires DistinctNames(fields) && i <= |fields| && k < |fields|
    ensures Lookup(Named(fields, items, i), fields[k].name)
            == if i <= k && k < |items| then Some(items[k]) else None
    decreases |fields| - i
  {
    if i < |fields| && i < |items| {
      NamedLookup(fields, items, i + 1, k);
      var all, rest := Named(fields, items, i), Named(fields, items, i + 1);
      assert all == [Entry(fields[i].name, items[i])] + rest;
      hide Named;
      assert all[1..] == rest;
      assert fields[i].name == fields[k].name <==> i == k;
    }
  }

  ghost predicate OnlyExtensions(fields: seq<Field>, i: nat) {
    forall j | i <= j < |fields| :: fields[j].extension
  }

  lemma {:induction false} PositionsSame(w: Serializer, fuel: nat, fields: seq<Field>, i: nat, items: seq<Value>,
      ext: bool, omitting: bool)
    requires DistinctNames(fields) && i <= |fields| && (omitting <==> i > |items|) && (omitting ==> ext)
    ensures var named := EncodeFields(w, fuel, fields, i, Named(fields, items, 0), ext, omitting);
            if i <= |items|
            then var byPosition := EncodeByPosition(w, fuel, fields, i, items, ext);
                 && (named.Ok? <==> byPosition.Ok? && OnlyExtensions(fields, |items|))
                 && (named.Ok? ==> named == byPosition)
            else if OnlyExtensions(fields, i) then named == Ok([]) else named.Err?
    decreases |fields| - i
  {
    hide Encode, Lookup, Named;
    if i < |fields| {
      NamedLookup(fields, items, 0, i);
      if i < |items| || (fields[i].extension && ext) {
        PositionsSame(w, fuel, fields, i + 1, items, ext, i >= |items|);
      }
    }
  }

  /** A struct given as an array of field values encodes like the object it stands for, except that
      the array may also leave out fields after an omitted extension that are no extensions. */
  lemma ArrayFormSame(w: Serializer, fuel: nat, st: Struct, items: seq<Value>, ext: bool)
    requires st.base.None? && DistinctNames(st.fields)
    ensures var named := EncodeStruct(w, fuel, st, Object(Named(st.fields, items, 0)), ext);
            var listed := EncodeStruct(w, fuel, st, List(items), ext);
            && (named.Ok? <==> listed.Ok? && OnlyExtensions(st.fields, |items|))
            && (named.Ok? ==> named == listed)
  {
    hide EncodeFields, EncodeByPosition, Named;
    PositionsSame(w, fuel, st.fields, 0, items, ext, false);
    var b := EncodeFields(w, fuel, st.fields, 0, Named(st.fields, items, 0), ext, false);
    assert b.Ok? ==> [] + b.value == b.value;
  }

  // ---------------------------------------------------------------- the depth limit

  /** Decoding never goes more than twice as deep as encoding did. */
  lemma {:induction false} NeedBound(w: Serializer, fuel: nat, t: Type, v: Value)
    ensures Need(w, fuel, t, v) <= 2 * fuel
    decreases fuel, 1, 0
  {
    if fuel > 0 {
      var rt := Resolve(w.typedefs, t);
      if !IsBuiltin(w, rt) {
        match rt
        case ArrayOf(elem) => if v.List? { NeedItemsBound(w, fuel - 1, elem, v.items, 0); }
        case OptionalOf(elem) => NeedBound(w, fuel - 1, elem, v);
        case Plain(name) =>
          if name in w.variants {
            if v.List? && |v.items| == 2 && v.items[0].Text? { NeedBound(w, fuel - 1, v.items[0].typ, v.items[1]); }
          } else if name in w.structs && v.Object? {
            NeedStructBound(w, fuel - 1, w.structs[name], v.entries);
          }
      }
    }
  }

  lemma {:induction false} NeedItemsBound(w: Serializer, fuel: nat, elem: Type, items: seq<Value>, i: nat)
    requires i <= |items|
    ensures NeedItems(w, fuel, elem, items, i) <= 2 * fuel
    decreases fuel, 2, |items| - i
  {
    hide Need;
    if i < |items| {
      NeedBound(w, fuel, elem, items[i]);
      NeedItemsBound(w, fuel, elem, items, i + 1);
    }
  }

  lemma {:induction false} NeedStructBound(w: Serializer, fuel: nat, st: Struct, entries: seq<Entry>)
    ensures NeedStruct(w, fuel, st, entries) <= 2 * fuel + 1
    decreases fuel, 3, 0
  {
    hide NeedFields;
    NeedFieldsBound(w, fuel, st.fields, 0, entries);
    if st.base.Some? && fuel > 0 && NamesStruct(w, st.base.value) {
      NeedStructBound(w, fuel - 1, StructOf(w, st.base.value), entries);
    }
  }

  lemma {:induction false} NeedFieldsBound(w: Serializer, fuel: nat, fields: seq<Field>, i: nat, entries: seq<Entry>)
    requires i <= |fields|
    ensures NeedFields(w, fuel, fields, i, entries) <= 2 * fuel
    decreases fuel, 2, |fields| - i
  {
    hide Need;
    if i < |fields| {
      match Lookup(entries, fields[i].name) {
        case None =>
        case Some(v) => NeedBound(w, fuel, fields[i].typ, v);
      }
      NeedFieldsBound(w, fuel, fields, i + 1, entries);
    }
  }

  /** So with twice the depth that encoding was allowed, decoding succeeds. */
  lemma TwiceIsEnough(w: Serializer, fuel: nat, t: Type, v: Value, ext: bool, rest: Bytes, depth: nat)
    requires Encodable(w, fuel, t, v, ext, rest) && depth >= 2 * fuel
    ensures Decode(w, depth, t, Encode(w, fuel, t, v, ext).value + rest) == Ok((v, rest))
  {
    hide Encode, Decode, Need, Canonical, Sound;
    ValueTrip(w, fuel, t, v, ext, rest, depth);
    NeedBound(w, fuel, t, v);
  }

  /** max_recursion_depth. The public functions enter one scope of their own. */
  const MAX_DEPTH := 32

  /** A type that is not defined is taken for bytes. */
  function VariantToBinary(w: Serializer, t: Type, v: Value): Result<Bytes> {
    match IsType(w, MAX_DEPTH - 2, t)
    case Err(e) => Err(e)
    case Ok(defined) =>
      if defined then Encode(w, MAX_DEPTH - 2, t, v, true)
      else match w.codec.raw(v)
        case Some(b) => Ok(b)
        case None => Err(Bad)
  }

  function BinaryToVariant(w: Serializer, t: Type, b: Bytes): Result<Value> {
    match Decode(w, MAX_DEPTH - 2, t, b)
    case Ok((v, _)) => Ok(v)
    case Err(e) => Err(e)
  }

  /** The round trip of the public functions: a canonical value comes back if and only if decoding it
      stays within the limit. */
  lemma RoundTrip(w: Serializer, t: Type, v: Value)
    requires Sound(w) && Canonical(w, MAX_DEPTH - 2, t, v)
    requires VariantToBinary(w, t, v).Ok? && IsType(w, MAX_DEPTH - 2, t) == Ok(true)
    ensures BinaryToVariant(w, t, VariantToBinary(w, t, v).value)
            == if Need(w, MAX_DEPTH - 2, t, v) <= MAX_DEPTH - 2 then Ok(v) else Err(Depth)
  {
    hide Encode, Decode, Need, Canonical, Sound;
    var b := VariantToBinary(w, t, v).value;
    ValueTrip(w, MAX_DEPTH - 2, t, v, true, [], MAX_DEPTH - 2);
    assert b + [] == b;
  }

  // ---------------------------------------------------------------- values that encode but do not decode

  /** A struct whose only field is optionally another one of its kind. */
  ghost function Chain(c: Codec): Serializer {
    Serializer(map[], map[1 := Struct(None, [Field(0, OptionalOf(Plain(1)), false)])], map[], c)
  }

  ghost function Nested(n: nat): Value { Object([Entry(0, if n == 0 then Null else Nested(n - 1))]) }

  lemma StructLevel(c: Codec, fuel: nat, x: Value, ext: bool)
    requires 1 !in c.known && fuel > 0
    ensures var w, v, o := Chain(c), Object([Entry(0, x)]), OptionalOf(Plain(1));
            && (Encode(w, fuel, Plain(1), v, ext).Ok? <==> Encode(w, fuel - 1, o, x, ext).Ok?)
            && Need(w, fuel, Plain(1), v) == 2 + Need(w, fuel - 1, o, x)
            && (Canonical(w, fuel, Plain(1), v) <==> Canonical(w, fuel - 1, o, x))
  {
    var w, es, st := Chain(c), [Entry(0, x)], Chain(c).structs[1];
    var f := fuel - 1;
    assert Resolve(w.typedefs, Plain(1)) == Plain(1) && Lookup(es, 0) == Some(x);
    assert EncodeFields(w, f, st.fields, 1, es, ext, false) == Ok([]);
    assert EncodeFields(w, f, st.fields, 0, es, ext, false).Ok? <==> Encode(w, f, OptionalOf(Plain(1)), x, ext).Ok?;
    assert EncodeStruct(w, f, st, Object(es), ext).Ok? <==> EncodeFields(w, f, st.fields, 0, es, ext, false).Ok?;
    assert NeedFields(w, f, st.fields, 1, es) == 0;
    assert NeedStruct(w, f, st, es) == 1 + NeedFields(w, f, st.fields, 0, es);
    assert ExpectedFields(st.fields, 1, es) == [] && ExpectedFields(st.fields, 0, es) == es;
    assert Expected(w, f, st, es) == es;
    assert CanonicalFields(w, f, st.fields, es) <==> Canonical(w, f, OptionalOf(Plain(1)), x);
  }

  lemma OptionalLevel(c: Codec, fuel: nat, x: Value, ext: bool)
    requires 1 !in c.known && fuel > 0
    ensures var w, o := Chain(c), OptionalOf(Plain(1));
            && (Encode(w, fuel, o, x, ext).Ok? <==> x.Null? || Encode(w, fuel - 1, Plain(1), x, ext).Ok?)
            && Need(w, fuel, o, x) == (if x.Null? then 1 else 1 + Need(w, fuel - 1, Plain(1), x))
            && (Canonical(w, fuel, o, x) <==> x.Null? || Canonical(w, fuel - 1, Plain(1), x))
  {
    assert Resolve(Chain(c).typedefs, OptionalOf(Plain(1))) == OptionalOf(Plain(1));
  }

  /** Each level takes two scopes to encode and three to decode. */
  lemma {:induction false} NestedDepth(c: Codec, fuel: nat, n: nat, ext: bool)
    requires 1 !in c.known
    ensures Encode(Chain(c), fuel, Plain(1), Nested(n), ext).Ok? <==> fuel >= 2 * (n + 1)
    ensures fuel >= 2 * (n + 1) ==> Canonical(Chain(c), fuel, Plain(1), Nested(n))
    ensures fuel >= 2 * (n + 1) ==> Need(Chain(c), fuel, Plain(1), Nested(n)) == 3 * (n + 1)
    decreases n
  {
    hide Canonical, Need;
    var x := if n == 0 then Null else Nested(n - 1);
    if fuel > 0 {
      StructLevel(c, fuel, x, ext);
      if fuel > 1 {
        OptionalLevel(c, fuel - 1, x, ext);
        if n > 0 { NestedDepth(c, fuel - 2, n - 1, ext); }
      }
    }
  }

  /** With the limit of 32, nesting ten to fourteen deep encodes, and the bytes do not decode. */
  lemma EncodesButDoesNotDecode(c: Codec, n: nat)
    requires Lawful(c) && 1 !in c.known
    ensures VariantToBinary(Chain(c), Plain(1), Nested(n)).Ok? <==> n < 15
    ensures n < 15 ==>
              BinaryToVariant(Chain(c), Plain(1), VariantToBinary(Chain(c), Plain(1), Nested(n)).value)
              == if n < 10 then Ok(Nested(n)) else Err(Depth)
  {
    hide Canonical, Need, Encode, Decode, Lawful;
    assert IsType(Chain(c), MAX_DEPTH - 2, Plain(1)) == Ok(true);
    NestedDepth(c, MAX_DEPTH - 2, n, true);
    if n < 15 { RoundTrip(Chain(c), Plain(1), Nested(n)); }
  }
}
