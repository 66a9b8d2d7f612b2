/** What every ABI type reads from a stream, as a relation between the stream before, the value and the
    stream after it. Decoding is exactly this relation. */
module AbiRead {
  import opened Basics
  import opened AbiModel
  import opened AbiWire

  /** A type, a value of it, the stream before and the stream after. */
  type Reading = (Type, Value, Bytes, Bytes) -> bool

  /** A struct name, its entries, the stream before and the stream after. */
  type EntryReading = (Type, seq<Entry>, Bytes, Bytes) -> bool

  // ---------------------------------------------------------------- the relation

  ghost predicate Read(w: Serializer, fuel: nat, t: Type, v: Value, s: Bytes, rest: Bytes)
    decreases fuel, 0
  {
    fuel > 0 && ReadOne(w, Values(w, fuel - 1), Structs(w, fuel - 1), Resolve(w.typedefs, t), v, s, rest)
  }

  ghost predicate ReadStruct(w: Serializer, fuel: nat, t: Type, entries: seq<Entry>, s: Bytes, rest: Bytes)
    decreases fuel, 0
  {
    && fuel > 0 && t.Plain? && t.name in w.structs
    && AsFields(w, Values(w, fuel - 1), Structs(w, fuel - 1), w.structs[t.name], entries, s, rest)
  }

  ghost function Values(w: Serializer, fuel: nat): Reading
    decreases fuel, 1
  {
    (t: Type, v: Value, s: Bytes, rest: Bytes) => Read(w, fuel, t, v, s, rest)
  }

  ghost function Structs(w: Serializer, fuel: nat): EntryReading
    decreases fuel, 1
  {
    (t: Type, entries: seq<Entry>, s: Bytes, rest: Bytes) => ReadStruct(w, fuel, t, entries, s, rest)
  }

  /** A zero byte is an absent optional; any other byte comes before a present one. An object has at
      least one field. */
  ghost predicate ReadOne(w: Serializer, values: Reading, structs: EntryReading, rt: Type, v: Value, s: Bytes, rest: Bytes) {
    if IsBuiltin(w, rt) then w.codec.unpack(Fundamental(rt).name, ShapeOf(rt), s) == Some((v, rest))
    else match rt {
      case ArrayOf(elem) => v.List? && AsItems(values, elem, v.items, s, rest)
      case OptionalOf(elem) =>
        s != [] && if s[0] == 0 then v == Null && rest == s[1..] else values(elem, v, s[1..], rest)
      case Plain(name) =>
        if name in w.variants then AsChoice(values, w.variants[name], v, s, rest)
        else v.Object? && v.entries != [] && structs(rt, v.entries, s, rest)
    }
  }

  ghost predicate SizeRead(n: int, s: Bytes, rest: Bytes) { exists b :: SizeDigits(n, b) && s == b + rest }

  /** The items in order, none of them null; streams[i] is what lies before item i. */
  ghost predicate ItemsRead(values: Reading, elem: Type, items: seq<Value>, streams: seq<Bytes>) {
    && |streams| == |items| + 1
    && forall i | 0 <= i < |items| :: items[i] != Null && values(elem, items[i], streams[i], streams[i+1])
  }

  ghost predicate AsItems(values: Reading, elem: Type, items: seq<Value>, s: Bytes, rest: Bytes) {
    exists streams :: ItemsRead(values, elem, items, streams) && SizeRead(|items|, s, streams[0]) && streams[|items|] == rest
  }

  ghost predicate ChoiceRead(values: Reading, types: seq<Type>, v: Value, s: Bytes, rest: Bytes, i: int, start: Bytes) {
    && 0 <= i < |types| && SizeRead(i, s, start)
    && v.List? && |v.items| == 2 && v.items[0] == Text(types[i]) && values(types[i], v.items[1], start, rest)
  }

  ghost predicate AsChoice(values: Reading, types: seq<Type>, v: Value, s: Bytes, rest: Bytes) {
    exists i, start :: ChoiceRead(values, types, v, s, rest, i, start)
  }

  /** The entries of the fields that were read, in order. */
  ghost function Entries(fields: seq<Field>, read: seq<Option<Value>>, i: nat): seq<Entry>
    requires i <= |fields| == |read|
    decreases |fields| - i
  {
    if i == |fields| then []
    else (if read[i].Some? then [Entry(fields[i].name, read[i].value)] else []) + Entries(fields, read, i + 1)
  }

  /** A field is read from whatever is left; at the end of the stream it must be an extension field. */
  ghost predicate FieldRead(values: Reading, field: Field, read: Option<Value>, s: Bytes, rest: Bytes) {
    if s == [] then field.extension && read == None && rest == []
    else read.Some? && values(field.typ, read.value, s, rest)
  }

  ghost predicate FieldsRead(values: Reading, fields: seq<Field>, read: seq<Option<Value>>, streams: seq<Bytes>) {
    && |read| == |fields| && |streams| == |fields| + 1
    && forall i | 0 <= i < |fields| :: FieldRead(values, fields[i], read[i], streams[i], streams[i+1])
  }

  ghost predicate FromBase(structs: EntryReading, st: Struct, typedefs: map<Type, Type>, base: seq<Entry>, s: Bytes, start: Bytes) {
    if st.base.None? then base == [] && start == s else structs(Resolve(typedefs, st.base.value), base, s, start)
  }

  /** The entries of the base, then those of the fields in the order of their declaration. */
  ghost predicate AsFields(w: Serializer, values: Reading, structs: EntryReading, st: Struct, entries: seq<Entry>,
      s: Bytes, rest: Bytes)
  {
    exists base, read, streams :: StructRead(w, values, structs, st, entries, s, rest, base, read, streams)
  }

  ghost predicate StructRead(w: Serializer, values: Reading, structs: EntryReading, st: Struct, entries: seq<Entry>,
      s: Bytes, rest: Bytes, base: seq<Entry>, read: seq<Option<Value>>, streams: seq<Bytes>)
  {
    && FieldsRead(values, st.fields, read, streams) && FromBase(structs, st, w.typedefs, base, s, streams[0])
    && streams[|st.fields|] == rest && entries == base + Entries(st.fields, read, 0)
  }

  // ---------------------------------------------------------------- sizes

  lemma SizeUnpacked(s: Bytes, n: int, rest: Bytes)
    ensures SizeRead(n, s, rest) <==> n >= 0 && UnpackSize(s) == Some((n as nat, rest))
  {
    if SizeRead(n, s, rest) {
      var b :| SizeDigits(n, b) && s == b + rest;
      WeightedSign(b, |b|);
      UnpackAny(n, b, rest);
    }
    if UnpackSize(s).Some? {
      var b := UnpackOnly(s);
    }
  }

  // ---------------------------------------------------------------- arrays

  lemma {:induction false} ItemsDecoded(w: Serializer, fuel: nat, elem: Type, n: nat, s: Bytes, done: seq<Value>)
    returns (items: seq<Value>, streams: seq<Bytes>)
    requires DecodeItems(w, fuel, elem, n, s, done).Ok?
    ensures |items| == n && |streams| == n + 1 && streams[0] == s
    ensures DecodeItems(w, fuel, elem, n, s, done) == Ok((List(done + items), streams[n]))
    ensures forall i | 0 <= i < n :: items[i] != Null && Decode(w, fuel, elem, streams[i]) == Ok((items[i], streams[i+1]))
    decreases n
  {
    hide Decode;
    if n == 0 {
      items, streams := [], [s];
      assert done + [] == done;
    } else {
      var (v, rest) := Decode(w, fuel, elem, s).value;
      var more, after := ItemsDecoded(w, fuel, elem, n - 1, rest, done + [v]);
      items, streams := [v] + more, [s] + after;
      assert done + [v] + more == done + items;
      forall i | 0 <= i < n ensures items[i] != Null && Decode(w, fuel, elem, streams[i]) == Ok((items[i], streams[i+1])) {
        if i > 0 { assert items[i] == more[i-1] && streams[i] == after[i-1] && streams[i+1] == after[i-1+1]; }
      }
    }
  }

  lemma {:induction false} DecodesItems(w: Serializer, fuel: nat, elem: Type, items: seq<Value>, streams: seq<Bytes>,
      k: nat, done: seq<Value>)
    requires k <= |items| && |streams| == |items| + 1
    requires forall i | 0 <= i < |items| :: items[i] != Null && Decode(w, fuel, elem, streams[i]) == Ok((items[i], streams[i+1]))
    ensures DecodeItems(w, fuel, elem, |items| - k, streams[k], done) == Ok((List(done + items[k..]), streams[|items|]))
    decreases |items| - k
  {
    hide Decode;
    if k == |items| {
      assert done + items[k..] == done;
    } else {
      DecodesItems(w, fuel, elem, items, streams, k + 1, done + [items[k]]);
      assert done + [items[k]] + items[k+1..] == done + items[k..];
    }
  }

  // ---------------------------------------------------------------- fields

  /** Field i as decoding reads it. */
  ghost predicate Decoded(w: Serializer, fuel: nat, field: Field, read: Option<Value>, s: Bytes, rest: Bytes) {
    if s == [] then field.extension && read == None && rest == []
    else read.Some? && Decode(w, fuel, field.typ, s) == Ok((read.value, rest))
  }

  lemma ResolvedDecode(w: Serializer, fuel: nat, t: Type, s: Bytes)
    ensures Decode(w, fuel, Resolve(w.typedefs, t), s) == Decode(w, fuel, t, s)
  {
    ResolveTwice(w.typedefs, t);
  }

  lemma {:induction false} FieldsDecoded(w: Serializer, fuel: nat, fields: seq<Field>, k: nat, s: Bytes, done: seq<Entry>)
    returns (read: seq<Option<Value>>, streams: seq<Bytes>)
    requires k <= |fields| && DecodeFields(w, fuel, fields, k, s, done).Ok?
    ensures |read| == |fields| - k && |streams| == |read| + 1 && streams[0] == s
    ensures forall i | 0 <= i < |read| :: Decoded(w, fuel, fields[k+i], read[i], streams[i], streams[i+1])
    ensures DecodeFields(w, fuel, fields, k, s, done) == Ok((done + Entries(fields[k..], read, 0), streams[|read|]))
    decreases |fields| - k
  {
    hide Decode, Resolve;
    if k == |fields| {
      read, streams := [], [s];
      assert done + [] == done;
    } else {
      var here: Option<Value>, next, after: seq<Entry>;
      if s == [] {
        here, next, after := None, s, done;
      } else {
        ResolvedDecode(w, fuel, fields[k].typ, s);
        var (v, rest) := Decode(w, fuel, fields[k].typ, s).value;
        here, next, after := Some(v), rest, done + [Entry(fields[k].name, v)];
      }
      var more, later := FieldsDecoded(w, fuel, fields, k + 1, next, after);
      read, streams := [here] + more, [s] + later;
      forall i | 0 <= i < |read| ensures Decoded(w, fuel, fields[k+i], read[i], streams[i], streams[i+1]) {
        if i > 0 {
          assert read[i] == more[i-1] && streams[i] == later[i-1] && streams[i+1] == later[i-1+1] && k + i == k + 1 + (i - 1);
        }
      }
      EntriesFirst(fields[k..], read);
      assert fields[k..][1..] == fields[k+1..] && read[1..] == more;
      assert after + Entries(fields[k+1..], more, 0) == done + Entries(fields[k..], read, 0);
    }
  }

  lemma {:induction false} EntriesTail(fields: seq<Field>, read: seq<Option<Value>>, i: nat)
    requires 0 < i <= |fields| == |read|
    ensures Entries(fields, read, i) == Entries(fields[1..], read[1..], i - 1)
    decreases |fields| - i
  {
    if i < |fields| { EntriesTail(fields, read, i + 1); }
  }

  lemma EntriesFirst(fields: seq<Field>, read: seq<Option<Value>>)
    requires 0 < |fields| == |read|
    ensures Entries(fields, read, 0) == (if read[0].Some? then [Entry(fields[0].name, read[0].value)] else [])
                                        + Entries(fields[1..], read[1..], 0)
  {
    EntriesTail(fields, read, 1);
  }

  lemma {:induction false} DecodesFields(w: Serializer, fuel: nat, fields: seq<Field>, k: nat, read: seq<Option<Value>>,
      streams: seq<Bytes>, done: seq<Entry>)
    requires k <= |fields| == |read| && |streams| == |read| + 1
    requires forall i | 0 <= i < |read| :: Decoded(w, fuel, fields[i], read[i], streams[i], streams[i+1])
    ensures DecodeFields(w, fuel, fields, k, streams[k], done) == Ok((done + Entries(fields, read, k), streams[|read|]))
    decreases |fields| - k
  {
    hide Decode, Resolve;
    if k == |fields| {
      assert done + [] == done;
    } else {
      assert Decoded(w, fuel, fields[k], read[k], streams[k], streams[k+1]);
      ResolvedDecode(w, fuel, fields[k].typ, streams[k]);
      var here := if read[k].Some? then [Entry(fields[k].name, read[k].value)] else [];
      DecodesFields(w, fuel, fields, k + 1, read, streams, done + here);
      assert done + [] == done;
      assert done + here + Entries(fields, read, k + 1) == done + (here + Entries(fields, read, k + 1));
    }
  }

  // ---------------------------------------------------------------- decoding is the relation

  /** Decoding gives exactly the value and the rest of the stream that the relation names, and fails
      where it names none. */
  lemma {:induction false} DecodesRead(w: Serializer, fuel: nat, t: Type, v: Value, s: Bytes, rest: Bytes)
    ensures Decode(w, fuel, t, s) == Ok((v, rest)) <==> Read(w, fuel, t, v, s, rest)
    decreases fuel, 0
  {
    if fuel > 0 {
      hide AsItems, AsChoice, AsFields, DecodeItems, DecodeVariant, DecodeStruct, UnpackSize, Resolve, Values, Structs;
      var f, rt := fuel - 1, Resolve(w.typedefs, t);
      if !IsBuiltin(w, rt) {
        match rt
        case ArrayOf(elem) => ArrayRead(w, f, elem, v, s, rest);
        case OptionalOf(elem) => if s != [] { ValuesRead(w, f, elem, v, s[1..], rest); }
        case Plain(name) =>
          if name in w.variants {
            VariantRead(w, f, w.variants[name], v, s, rest);
          } else {
            ObjectRead(w, f, rt, v, s, rest);
          }
      }
    }
  }

  lemma ValuesRead(w: Serializer, fuel: nat, t: Type, v: Value, s: Bytes, rest: Bytes)
    ensures Decode(w, fuel, t, s) == Ok((v, rest)) <==> Values(w, fuel)(t, v, s, rest)
    decreases fuel, 2
  {
    DecodesRead(w, fuel, t, v, s, rest);
    hide Decode, Read;
  }

  ghost function ItemsOf(w: Serializer, fuel: nat, elem: Type, s: Bytes): Result<(Value, Bytes)> {
    match UnpackSize(s)
    case None => Err(Bad)
    case Some((n, start)) => DecodeItems(w, fuel, elem, n, start, [])
  }

  lemma ArrayRead(w: Serializer, fuel: nat, elem: Type, v: Value, s: Bytes, rest: Bytes)
    ensures ItemsOf(w, fuel, elem, s) == Ok((v, rest)) <==> v.List? && AsItems(Values(w, fuel), elem, v.items, s, rest)
    decreases fuel, 4
  {
    hide Decode, Read, Values, UnpackSize, DecodeItems, SizeRead;
    if ItemsOf(w, fuel, elem, s) == Ok((v, rest)) {
      var (n, start) := UnpackSize(s).value;
      SizeUnpacked(s, n, start);
      var items, streams := ItemsDecoded(w, fuel, elem, n, start, []);
      assert [] + items == items;
      DecodedItems(w, fuel, elem, items, streams);
    }
    if v.List? && AsItems(Values(w, fuel), elem, v.items, s, rest) {
      var streams :| ItemsRead(Values(w, fuel), elem, v.items, streams)
                     && SizeRead(|v.items|, s, streams[0]) && streams[|v.items|] == rest;
      SizeUnpacked(s, |v.items|, streams[0]);
      ReadItems(w, fuel, elem, v.items, streams);
      assert [] + v.items[0..] == v.items;
    }
  }

  lemma DecodedItems(w: Serializer, fuel: nat, elem: Type, items: seq<Value>, streams: seq<Bytes>)
    requires |streams| == |items| + 1
    requires forall i | 0 <= i < |items| :: items[i] != Null && Decode(w, fuel, elem, streams[i]) == Ok((items[i], streams[i+1]))
    ensures ItemsRead(Values(w, fuel), elem, items, streams)
    decreases fuel, 3
  {
    hide Decode, Read, Values;
    forall i | 0 <= i < |items| ensures items[i] != Null && Values(w, fuel)(elem, items[i], streams[i], streams[i+1]) {
      ValuesRead(w, fuel, elem, items[i], streams[i], streams[i+1]);
    }
  }

  lemma ReadItems(w: Serializer, fuel: nat, elem: Type, items: seq<Value>, streams: seq<Bytes>)
    requires ItemsRead(Values(w, fuel), elem, items, streams)
    ensures DecodeItems(w, fuel, elem, |items|, streams[0], []) == Ok((List([] + items[0..]), streams[|items|]))
    decreases fuel, 3
  {
    hide Decode, Read, Values, DecodeItems;
    forall i | 0 <= i < |items| ensures items[i] != Null && Decode(w, fuel, elem, streams[i]) == Ok((items[i], streams[i+1])) {
      ValuesRead(w, fuel, elem, items[i], streams[i], streams[i+1]);
    }
    DecodesItems(w, fuel, elem, items, streams, 0, []);
  }

  lemma VariantRead(w: Serializer, fuel: nat, types: seq<Type>, v: Value, s: Bytes, rest: Bytes)
    ensures DecodeVariant(w, fuel, types, s) == Ok((v, rest)) <==> AsChoice(Values(w, fuel), types, v, s, rest)
    decreases fuel, 4
  {
    hide Decode, Read, Values, UnpackSize, SizeRead;
    if DecodeVariant(w, fuel, types, s) == Ok((v, rest)) {
      var (i, start) := UnpackSize(s).value;
      SizeUnpacked(s, i, start);
      var x := Decode(w, fuel, types[i], start).value.0;
      ValuesRead(w, fuel, types[i], x, start, rest);
      assert ChoiceRead(Values(w, fuel), types, v, s, rest, i, start);
    }
    if AsChoice(Values(w, fuel), types, v, s, rest) {
      var i, start :| ChoiceRead(Values(w, fuel), types, v, s, rest, i, start);
      SizeUnpacked(s, i, start);
      ValuesRead(w, fuel, types[i], v.items[1], start, rest);
      assert v.items == [Text(types[i]), v.items[1]];
    }
  }

  ghost function ObjectOf(w: Serializer, fuel: nat, rt: Type, s: Bytes): Result<(Value, Bytes)> {
    match DecodeStruct(w, fuel, rt, s, [])
    case Err(e) => Err(e)
    case Ok((entries, rest)) => if entries == [] then Err(Bad) else Ok((Object(entries), rest))
  }

  lemma ObjectRead(w: Serializer, fuel: nat, rt: Type, v: Value, s: Bytes, rest: Bytes)
    ensures ObjectOf(w, fuel, rt, s) == Ok((v, rest)) <==> v.Object? && v.entries != [] && Structs(w, fuel)(rt, v.entries, s, rest)
    decreases fuel, 2
  {
    hide DecodeStruct, ReadStruct, Structs;
    var entries := if v.Object? then v.entries else [];
    StructsRead(w, fuel, rt, entries, s, rest, []);
    assert [] + entries == entries;
  }

  lemma StructsRead(w: Serializer, fuel: nat, t: Type, entries: seq<Entry>, s: Bytes, rest: Bytes, done: seq<Entry>)
    ensures DecodeStruct(w, fuel, t, s, done) == Ok((done + entries, rest)) <==> Structs(w, fuel)(t, entries, s, rest)
    decreases fuel, 1
  {
    StructDecodes(w, fuel, t, entries, s, rest, done);
    hide DecodeStruct, ReadStruct;
  }

  /** Decoding a struct appends to the entries it is given. */
  lemma {:induction false} StructAppends(w: Serializer, fuel: nat, t: Type, s: Bytes, done: seq<Entry>) returns (more: seq<Entry>)
    requires DecodeStruct(w, fuel, t, s, done).Ok?
    ensures DecodeStruct(w, fuel, t, s, done).value.0 == done + more
    decreases fuel
  {
    hide Resolve, DecodeFields;
    var st := w.structs[t.name];
    var base, mid := [], s;
    if st.base.Some? {
      base := StructAppends(w, fuel - 1, Resolve(w.typedefs, st.base.value), s, done);
      mid := DecodeStruct(w, fuel - 1, Resolve(w.typedefs, st.base.value), s, done).value.1;
    }
    assert done + [] == done;
    var read, streams := FieldsDecoded(w, fuel - 1, st.fields, 0, mid, done + base);
    more := base + Entries(st.fields[0..], read, 0);
    assert done + base + Entries(st.fields[0..], read, 0) == done + more;
  }

  lemma {:induction false} StructDecodes(w: Serializer, fuel: nat, t: Type, entries: seq<Entry>,
      s: Bytes, rest: Bytes, done: seq<Entry>)
    ensures DecodeStruct(w, fuel, t, s, done) == Ok((done + entries, rest)) <==> ReadStruct(w, fuel, t, entries, s, rest)
    decreases fuel, 0
  {
    if fuel > 0 && t.Plain? && t.name in w.structs {
      hide Resolve, DecodeFields, Values, Structs, StructRead;
      if DecodeStruct(w, fuel, t, s, done) == Ok((done + entries, rest)) {
        StructForward(w, fuel, t, entries, s, rest, done);
      }
      if ReadStruct(w, fuel, t, entries, s, rest) {
        var base, read, streams :|
          StructRead(w, Values(w, fuel - 1), Structs(w, fuel - 1), w.structs[t.name], entries, s, rest, base, read, streams);
        StructBackward(w, fuel, t, entries, s, rest, done, base, read, streams);
      }
    }
  }

  lemma StructForward(w: Serializer, fuel: nat, t: Type, entries: seq<Entry>, s: Bytes, rest: Bytes, done: seq<Entry>)
    requires fuel > 0 && t.Plain? && t.name in w.structs && DecodeStruct(w, fuel, t, s, done) == Ok((done + entries, rest))
    ensures AsFields(w, Values(w, fuel - 1), Structs(w, fuel - 1), w.structs[t.name], entries, s, rest)
    decreases fuel - 1, 4
  {
    hide Resolve, DecodeFields, Values, Structs, FieldsRead;
    var f, st := fuel - 1, w.structs[t.name];
    var base, mid := [], s;
    if st.base.Some? {
      var name := Resolve(w.typedefs, st.base.value);
      base := StructAppends(w, f, name, s, done);
      mid := DecodeStruct(w, f, name, s, done).value.1;
      StructsRead(w, f, name, base, s, mid, done);
    }
    assert done + [] == done;
    var read, streams := FieldsDecoded(w, f, st.fields, 0, mid, done + base);
    assert st.fields[0..] == st.fields;
    DecodedFields(w, f, st.fields, read, streams);
    var own := Entries(st.fields, read, 0);
    assert done + base + own == done + (base + own);
    SameTail(done, entries, base + own);
    assert StructRead(w, Values(w, f), Structs(w, f), st, entries, s, rest, base, read, streams);
  }

  lemma SameTail(a: seq<Entry>, b: seq<Entry>, c: seq<Entry>)
    requires a + b == a + c
    ensures b == c
  {
    assert (a + b)[|a|..] == b && (a + c)[|a|..] == c;
  }

  lemma DecodedFields(w: Serializer, fuel: nat, fields: seq<Field>, read: seq<Option<Value>>, streams: seq<Bytes>)
    requires |read| == |fields| && |streams| == |fields| + 1
    requires forall i | 0 <= i < |read| :: Decoded(w, fuel, fields[0+i], read[i], streams[i], streams[i+1])
    ensures FieldsRead(Values(w, fuel), fields, read, streams)
    decreases fuel, 3
  {
    hide Decode, Values, Read;
    forall i | 0 <= i < |fields| ensures FieldRead(Values(w, fuel), fields[i], read[i], streams[i], streams[i+1]) {
      assert Decoded(w, fuel, fields[0+i], read[i], streams[i], streams[i+1]);
      if read[i].Some? { ValuesRead(w, fuel, fields[i].typ, read[i].value, streams[i], streams[i+1]); }
    }
  }

  lemma ReadFields(w: Serializer, fuel: nat, fields: seq<Field>, read: seq<Option<Value>>, streams: seq<Bytes>)
    requires FieldsRead(Values(w, fuel), fields, read, streams)
    ensures forall i | 0 <= i < |read| :: Decoded(w, fuel, fields[i], read[i], streams[i], streams[i+1])
    decreases fuel, 3
  {
    hide Decode, Values, Read;
    forall i | 0 <= i < |read| ensures Decoded(w, fuel, fields[i], read[i], streams[i], streams[i+1]) {
      assert FieldRead(Values(w, fuel), fields[i], read[i], streams[i], streams[i+1]);
      if read[i].Some? { ValuesRead(w, fuel, fields[i].typ, read[i].value, streams[i], streams[i+1]); }
    }
  }

  lemma StructBackward(w: Serializer, fuel: nat, t: Type, entries: seq<Entry>, s: Bytes, rest: Bytes, done: seq<Entry>,
      base: seq<Entry>, read: seq<Option<Value>>, streams: seq<Bytes>)
    requires fuel > 0 && t.Plain? && t.name in w.structs
    requires StructRead(w, Values(w, fuel - 1), Structs(w, fuel - 1), w.structs[t.name], entries, s, rest, base, read, streams)
    ensures DecodeStruct(w, fuel, t, s, done) == Ok((done + entries, rest))
    decreases fuel - 1, 4
  {
    hide Resolve, DecodeFields, Values, Structs, Decoded;
    var f, st := fuel - 1, w.structs[t.name];
    ReadFields(w, f, st.fields, read, streams);
    hide FieldsRead;
    if st.base.Some? { StructsRead(w, f, Resolve(w.typedefs, st.base.value), base, s, streams[0], done); }
    assert done + [] == done;
    DecodesFields(w, f, st.fields, 0, read, streams, done + base);
    assert done + base + Entries(st.fields, read, 0) == done + (base + Entries(st.fields, read, 0));
  }
}
