/** The bytes of every ABI type, as a relation between a value and its bytes. Encoding gives exactly
    these bytes. */
module AbiWire {
  import opened Basics
  import opened AbiModel

  // ---------------------------------------------------------------- sizes and tags

  ghost function Pow128(k: nat): nat { if k == 0 then 1 else 128 * Pow128(k - 1) }

  /** The seven low bits of each byte as a digit, the first byte being the least significant. */
  ghost function Weighted(b: Bytes, k: nat): int
    requires k <= |b|
  {
    if k == 0 then 0 else Weighted(b, k - 1) + b[k-1] % 128 * Pow128(k - 1)
  }

  /** The top bit is set on all bytes but the last. */
  ghost predicate TopBits(b: Bytes) {
    forall i | 0 <= i < |b| :: 0 <= b[i] < 256 && (b[i] >= 128 <==> i < |b| - 1)
  }

  ghost predicate SizeDigits(n: int, b: Bytes) { b != [] && n == Weighted(b, |b|) && TopBits(b) }

  /** The shortest such bytes. */
  ghost predicate SizeBytes(n: int, b: Bytes) { SizeDigits(n, b) && (|b| > 1 ==> b[|b|-1] != 0) }

  lemma {:induction false} WeightedTail(b: Bytes, k: nat)
    requires 0 < k <= |b|
    ensures Weighted(b, k) == b[0] % 128 + 128 * Weighted(b[1..], k - 1)
    decreases k
  {
    if k == 1 {
      assert Pow128(0) == 1 && Weighted(b, 0) == 0;
    } else {
      WeightedTail(b, k - 1);
      var d, p := b[k-1] % 128, Pow128(k - 2);
      assert b[1..][k-2] == b[k-1] && Pow128(k - 1) == 128 * p;
      Shift(d, p);
    }
  }

  lemma Shift(d: int, p: int)
    ensures d * (128 * p) == 128 * (d * p)
  {
  }

  lemma {:induction false} WeightedSign(b: Bytes, k: nat)
    requires k <= |b| && forall i | 0 <= i < |b| :: b[i] >= 0
    ensures Weighted(b, k) >= 0 && (k > 0 && b[k-1] % 128 > 0 ==> Weighted(b, k) > 0)
  {
    if k > 0 {
      WeightedSign(b, k - 1);
      PowPositive(k - 1);
      Product(b[k-1] % 128, Pow128(k - 1));
    }
  }

  lemma {:induction false} PowPositive(k: nat)
    ensures Pow128(k) > 0
  {
    if k > 0 { PowPositive(k - 1); }
  }

  lemma Product(d: int, p: int)
    requires d >= 0 && p > 0
    ensures d * p >= 0 && (d > 0 ==> d * p > 0)
  {
  }

  lemma DigitsTail(n: int, b: Bytes)
    requires |b| > 1
    ensures SizeDigits(n, b) ==> 128 <= b[0] < 256 && SizeDigits(Weighted(b[1..], |b| - 1), b[1..])
                                 && n == b[0] - 128 + 128 * Weighted(b[1..], |b| - 1)
    ensures 128 <= b[0] < 256 && SizeDigits(Weighted(b[1..], |b| - 1), b[1..]) ==>
              SizeDigits(b[0] - 128 + 128 * Weighted(b[1..], |b| - 1), b)
  {
    WeightedTail(b, |b|);
    TopBitsTail(b);
    hide Weighted, TopBits;
    assert 128 <= b[0] < 256 ==> b[0] % 128 == b[0] - 128;
  }

  lemma TopBitsTail(b: Bytes)
    requires |b| > 1
    ensures TopBits(b) <==> 128 <= b[0] < 256 && TopBits(b[1..])
  {
    var c := b[1..];
    assert forall i | 0 <= i < |c| :: c[i] == b[i+1];
    if 128 <= b[0] < 256 && TopBits(c) {
      forall i | 1 <= i < |b| ensures 0 <= b[i] < 256 && (b[i] >= 128 <==> i < |b| - 1) { assert b[i] == c[i-1]; }
    }
  }

  /** What packing writes is that, and nothing else is. */
  lemma {:induction false} PackSizeExact(n: nat, b: Bytes)
    ensures b == PackSize(n) <==> SizeBytes(n, b)
    decreases n
  {
    if n < 128 {
      OneByte(n, b);
    } else if |b| > 1 {
      PackSizeExact(n / 128, b[1..]);
      DigitsTail(n, b);
      TailSize(n, b);
      if b == PackSize(n) { assert b[1..] == PackSize(n / 128); }
      if SizeBytes(n, b) { assert b == [b[0]] + b[1..]; }
    } else {
      PackSizeExact(n / 128, PackSize(n / 128));
      assert SizeDigits(n, b) ==> n < 128 by { if |b| == 1 { OneDigit(b); } }
    }
  }

  lemma OneDigit(b: Bytes)
    requires |b| == 1
    ensures Weighted(b, 1) == b[0] % 128
  {
    assert Pow128(0) == 1 && Weighted(b, 0) == 0;
  }

  lemma OneByte(n: nat, b: Bytes)
    requires n < 128
    ensures b == [n] <==> SizeBytes(n, b)
  {
    if |b| == 1 {
      OneDigit(b);
    } else if |b| > 1 && SizeBytes(n, b) {
      WeightedTail(b, |b|);
      WeightedSign(b[1..], |b| - 1);
    }
  }

  lemma TailSize(n: nat, b: Bytes)
    requires n >= 128 && |b| > 1
    ensures SizeBytes(n, b) <==> b[0] == n % 128 + 128 && SizeBytes(n / 128, b[1..])
  {
    DigitsTail(n, b);
    WeightedTail(b, |b|);
    var c := b[1..];
    assert c[|c|-1] == b[|b|-1];
    hide Weighted;
    if SizeBytes(n, b) {
      Split(n, b[0] - 128, Weighted(c, |c|));
    }
  }

  lemma Split(n: int, low: int, high: int)
    requires n == low + 128 * high && 0 <= low < 128
    ensures n % 128 == low && n / 128 == high
  {
  }

  /** Reading takes any such bytes, not only the shortest. */
  lemma {:induction false} UnpackAny(n: nat, b: Bytes, rest: Bytes)
    requires SizeDigits(n, b)
    ensures UnpackSize(b + rest) == Some((n, rest))
    decreases |b|
  {
    var s := b + rest;
    if |b| == 1 {
      OneDigit(b);
      assert s[1..] == rest;
    } else {
      DigitsTail(n, b);
      WeightedTail(b, |b|);
      var m := Weighted(b[1..], |b| - 1);
      WeightedSign(b[1..], |b| - 1);
      hide Weighted;
      UnpackAny(m, b[1..], rest);
      assert s[1..] == b[1..] + rest;
    }
  }

  /** And nothing else. */
  lemma {:induction false} UnpackOnly(s: Bytes) returns (b: Bytes)
    requires UnpackSize(s).Some?
    ensures var (n, rest) := UnpackSize(s).value; SizeDigits(n, b) && s == b + rest
    decreases |s|
  {
    if s[0] < 128 {
      b := [s[0]];
      OneDigit(b);
      assert s == b + s[1..];
    } else {
      var c := UnpackOnly(s[1..]);
      b := [s[0]] + c;
      assert b[1..] == c;
      WeightedTail(b, |b|);
      DigitsTail(Weighted(b, |b|), b);
      hide Weighted;
      assert s == [s[0]] + s[1..];
      assert b + UnpackSize(s).value.1 == [s[0]] + (c + UnpackSize(s).value.1);
    }
  }

  // ---------------------------------------------------------------- values

  /** The parts, one after the other. */
  ghost function Flat(parts: seq<Bytes>): Bytes {
    if parts == [] then [] else parts[0] + Flat(parts[1..])
  }

  /** The value listed first under a name. */
  ghost predicate Found(entries: seq<Entry>, name: nat, v: Value) {
    exists i :: 0 <= i < |entries| && entries[i] == Entry(name, v) && forall j | 0 <= j < i :: entries[j].name != name
  }

  ghost predicate Present(entries: seq<Entry>, name: nat) {
    exists i :: 0 <= i < |entries| && entries[i].name == name
  }

  /** Relates a type, a value of it, whether extension fields may be missing, and bytes. */
  type Relation = (Type, Value, bool, Bytes) -> bool

  /** v as type t, at most `fuel` scopes deep, is the bytes b. */
  ghost predicate Wire(w: Serializer, fuel: nat, t: Type, v: Value, ext: bool, b: Bytes)
    decreases fuel, 1
  {
    fuel > 0 && Bytewise(w, Inside(w, fuel - 1), Resolve(w.typedefs, t), v, ext, b)
  }

  /** The relation for everything inside a value, one scope further down. */
  ghost function Inside(w: Serializer, fuel: nat): Relation
    decreases fuel, 2
  {
    (t: Type, v: Value, ext: bool, b: Bytes) => Wire(w, fuel, t, v, ext, b)
  }

  /** An absent optional is a zero byte, and a present one a byte 1 before its value. */
  ghost predicate Bytewise(w: Serializer, inside: Relation, rt: Type, v: Value, ext: bool, b: Bytes) {
    if IsBuiltin(w, rt) then w.codec.pack(Fundamental(rt).name, ShapeOf(rt), v) == Some(b)
    else match rt {
      case ArrayOf(elem) => v.List? && AsArray(inside, elem, v.items, b)
      case OptionalOf(elem) => if v.Null? then b == [0] else b != [] && b[0] == 1 && inside(elem, v, ext, b[1..])
      case Plain(name) =>
        if name in w.variants then AsVariant(inside, w.variants[name], v, ext, b)
        else name in w.structs && AsStruct(inside, w.structs[name], v, ext, b)
    }
  }

  ghost predicate AsArray(inside: Relation, elem: Type, items: seq<Value>, b: Bytes) {
    exists size, parts :: ArrayBytes(inside, elem, items, b, size, parts)
  }

  ghost predicate AsVariant(inside: Relation, types: seq<Type>, v: Value, ext: bool, b: Bytes) {
    exists i, tag, rest :: VariantBytes(inside, types, v, ext, b, i, tag, rest)
  }

  /** The number of items, as 32 bits hold it, then the items in order. */
  ghost predicate ArrayBytes(inside: Relation, elem: Type, items: seq<Value>, b: Bytes, size: Bytes, parts: seq<Bytes>) {
    && SizeBytes(|items| % TWO32, size) && |parts| == |items| && b == size + Flat(parts)
    && forall i | 0 <= i < |items| :: inside(elem, items[i], false, parts[i])
  }

  /** The first position of the named type in the list, then the value. */
  ghost predicate VariantBytes(inside: Relation, types: seq<Type>, v: Value, ext: bool, b: Bytes, i: int, tag: Bytes, rest: Bytes) {
    && v.List? && |v.items| == 2 && v.items[0].Text? && 0 <= i < |types|
    && types[i] == v.items[0].typ && (forall j | 0 <= j < i :: types[j] != types[i])
    && SizeBytes(i % TWO32, tag) && b == tag + rest && inside(types[i], v.items[1], ext, rest)
  }

  /** A struct is given as an object, or as an array of field values. */
  ghost predicate AsStruct(inside: Relation, st: Struct, v: Value, ext: bool, b: Bytes) {
    match v
    case Object(entries) => exists base, parts :: ObjectBytes(inside, st, entries, ext, b, base, parts)
    case List(items) => exists parts :: ListBytes(inside, st, items, ext, b, parts)
    case _ => false
  }

  /** The base, then the fields in the order of their declaration; none is present behind one that is
      missing. */
  ghost predicate ObjectBytes(inside: Relation, st: Struct, entries: seq<Entry>, ext: bool, b: Bytes, base: Bytes, parts: seq<Bytes>) {
    && b == base + Flat(parts) && |parts| == |st.fields|
    && (if st.base.None? then base == [] else inside(st.base.value, Object(entries), false, base))
    && (forall i | 0 <= i < |parts| :: FieldBytes(inside, st.fields, entries, ext, i, parts[i]))
    && (forall i, j | 0 <= i < j < |parts| :: Present(entries, st.fields[j].name) ==> Present(entries, st.fields[i].name))
  }

  /** A field that is present, or an extension field left out where that is allowed. */
  ghost predicate FieldBytes(inside: Relation, fields: seq<Field>, entries: seq<Entry>, ext: bool, i: int, part: Bytes)
    requires 0 <= i < |fields|
  {
    if Present(entries, fields[i].name) then
      exists v :: Found(entries, fields[i].name, v) && inside(fields[i].typ, v, ext && i == |fields| - 1, part)
    else fields[i].extension && ext && part == []
  }

  /** The fields of a struct without a base, by position; surplus items are ignored. */
  ghost predicate ListBytes(inside: Relation, st: Struct, items: seq<Value>, ext: bool, b: Bytes, parts: seq<Bytes>) {
    && st.base.None? && b == Flat(parts) && |parts| == (if |items| < |st.fields| then |items| else |st.fields|)
    && (|items| < |st.fields| ==> st.fields[|items|].extension && ext)
    && forall i | 0 <= i < |parts| :: inside(st.fields[i].typ, items[i], ext && i == |st.fields| - 1, parts[i])
  }

  // ---------------------------------------------------------------- encoding in parts

  lemma {:induction false} ItemsApart(w: Serializer, fuel: nat, elem: Type, items: seq<Value>, i: nat) returns (parts: seq<Bytes>)
    requires i <= |items| && EncodeItems(w, fuel, elem, items, i).Ok?
    ensures |parts| == |items| - i && EncodeItems(w, fuel, elem, items, i).value == Flat(parts)
    ensures forall j | 0 <= j < |parts| :: Encode(w, fuel, elem, items[i+j], false) == Ok(parts[j])
    decreases |items| - i
  {
    hide Encode;
    if i == |items| {
      parts := [];
    } else {
      var rest := ItemsApart(w, fuel, elem, items, i + 1);
      var b := Encode(w, fuel, elem, items[i], false).value;
      parts := [b] + rest;
      assert parts[1..] == rest;
      forall j | 0 <= j < |parts| ensures Encode(w, fuel, elem, items[i+j], false) == Ok(parts[j]) {
        if j > 0 { assert parts[j] == rest[j-1] && items[i+j] == items[i+1+(j-1)]; }
      }
    }
  }

  lemma {:induction false} ItemsTogether(w: Serializer, fuel: nat, elem: Type, items: seq<Value>, i: nat, parts: seq<Bytes>)
    requires i <= |items| && |parts| == |items| - i
    requires forall j | 0 <= j < |parts| :: Encode(w, fuel, elem, items[i+j], false) == Ok(parts[j])
    ensures EncodeItems(w, fuel, elem, items, i) == Ok(Flat(parts))
    decreases |items| - i
  {
    hide Encode;
    if i < |items| {
      var rest := parts[1..];
      assert Encode(w, fuel, elem, items[i+0], false) == Ok(parts[0]);
      forall j | 0 <= j < |rest| ensures Encode(w, fuel, elem, items[i+1+j], false) == Ok(rest[j]) {
        assert rest[j] == parts[j+1] && items[i+1+j] == items[i+(j+1)];
      }
      ItemsTogether(w, fuel, elem, items, i + 1, rest);
    }
  }

  /** Field k as encoding writes it. */
  ghost predicate Part(w: Serializer, fuel: nat, fields: seq<Field>, entries: seq<Entry>, ext: bool, k: int, part: Bytes)
    requires 0 <= k < |fields|
  {
    match Lookup(entries, fields[k].name)
    case Some(v) => Encode(w, fuel, fields[k].typ, v, ext && k == |fields| - 1) == Ok(part)
    case None => fields[k].extension && ext && part == []
  }

  /** From i on no field is present behind one that is not, and none at all after an omission. */
  ghost predicate InFront(fields: seq<Field>, entries: seq<Entry>, i: int, omitting: bool)
    requires 0 <= i <= |fields|
  {
    && (forall j, k | i <= j < k < |fields| :: Lookup(entries, fields[k].name).Some? ==> Lookup(entries, fields[j].name).Some?)
    && (omitting ==> forall k | i <= k < |fields| :: Lookup(entries, fields[k].name).None?)
  }

  lemma InFrontNext(fields: seq<Field>, entries: seq<Entry>, i: nat, omitting: bool)
    requires i < |fields|
    ensures InFront(fields, entries, i, omitting)
            <==> if Lookup(entries, fields[i].name).Some? then !omitting && InFront(fields, entries, i + 1, false)
                 else InFront(fields, entries, i + 1, true)
  {
    hide Lookup;
  }

  lemma {:induction false} FieldsApart(w: Serializer, fuel: nat, fields: seq<Field>, i: nat, entries: seq<Entry>,
      ext: bool, omitting: bool) returns (parts: seq<Bytes>)
    requires i <= |fields| && EncodeFields(w, fuel, fields, i, entries, ext, omitting).Ok?
    ensures |parts| == |fields| - i && EncodeFields(w, fuel, fields, i, entries, ext, omitting).value == Flat(parts)
    ensures (forall j | 0 <= j < |parts| :: Part(w, fuel, fields, entries, ext, i + j, parts[j]))
            && InFront(fields, entries, i, omitting)
    decreases |fields| - i
  {
    hide Encode, Lookup, InFront;
    if i == |fields| {
      parts := [];
      NoneInFront(fields, entries, omitting);
    } else {
      InFrontNext(fields, entries, i, omitting);
      var rest;
      match Lookup(entries, fields[i].name) {
        case Some(v) =>
          rest := FieldsApart(w, fuel, fields, i + 1, entries, ext, false);
          parts := [Encode(w, fuel, fields[i].typ, v, ext && i == |fields| - 1).value] + rest;
        case None =>
          rest := FieldsApart(w, fuel, fields, i + 1, entries, ext, true);
          parts := [[]] + rest;
          assert [] + Flat(rest) == Flat(rest);
      }
      assert parts[1..] == rest;
      forall j | 0 <= j < |parts| ensures Part(w, fuel, fields, entries, ext, i + j, parts[j]) {
        if j > 0 { assert parts[j] == rest[j-1] && Part(w, fuel, fields, entries, ext, i + 1 + (j - 1), rest[j-1]); }
      }
    }
  }

  lemma NoneInFront(fields: seq<Field>, entries: seq<Entry>, omitting: bool)
    ensures InFront(fields, entries, |fields|, omitting)
  {
  }

  lemma {:induction false} FieldsTogether(w: Serializer, fuel: nat, fields: seq<Field>, i: nat, entries: seq<Entry>,
      ext: bool, omitting: bool, parts: seq<Bytes>)
    requires i <= |fields| && |parts| == |fields| - i && InFront(fields, entries, i, omitting)
    requires forall j | 0 <= j < |parts| :: Part(w, fuel, fields, entries, ext, i + j, parts[j])
    ensures EncodeFields(w, fuel, fields, i, entries, ext, omitting) == Ok(Flat(parts))
    decreases |fields| - i
  {
    hide Encode, Lookup, InFront;
    if i < |fields| {
      InFrontNext(fields, entries, i, omitting);
      var rest := parts[1..];
      assert Part(w, fuel, fields, entries, ext, i + 0, parts[0]);
      forall j | 0 <= j < |rest| ensures Part(w, fuel, fields, entries, ext, i + 1 + j, rest[j]) {
        assert rest[j] == parts[j+1] && Part(w, fuel, fields, entries, ext, i + (j + 1), parts[j+1]);
      }
      match Lookup(entries, fields[i].name) {
        case Some(v) => FieldsTogether(w, fuel, fields, i + 1, entries, ext, false, rest);
        case None =>
          FieldsTogether(w, fuel, fields, i + 1, entries, ext, true, rest);
          assert [] + Flat(rest) == Flat(rest);
      }
    }
  }

  ghost function Least(a: nat, b: nat): nat { if a < b then a else b }

  lemma {:induction false} PositionsApart(w: Serializer, fuel: nat, fields: seq<Field>, i: nat, items: seq<Value>, ext: bool)
    returns (parts: seq<Bytes>)
    requires i <= |fields| && i <= |items| && EncodeByPosition(w, fuel, fields, i, items, ext).Ok?
    ensures |parts| == Least(|items|, |fields|) - i && EncodeByPosition(w, fuel, fields, i, items, ext).value == Flat(parts)
    ensures |items| < |fields| ==> fields[|items|].extension && ext
    ensures forall j | 0 <= j < |parts| ::
              Encode(w, fuel, fields[i+j].typ, items[i+j], ext && i + j == |fields| - 1) == Ok(parts[j])
    decreases |fields| - i
  {
    hide Encode;
    if i == |fields| || i == |items| {
      parts := [];
    } else {
      var rest := PositionsApart(w, fuel, fields, i + 1, items, ext);
      parts := [Encode(w, fuel, fields[i].typ, items[i], ext && i == |fields| - 1).value] + rest;
      assert parts[1..] == rest;
      forall j | 0 <= j < |parts|
        ensures Encode(w, fuel, fields[i+j].typ, items[i+j], ext && i + j == |fields| - 1) == Ok(parts[j])
      {
        if j > 0 { assert parts[j] == rest[j-1] && i + j == i + 1 + (j - 1); }
      }
    }
  }

  lemma {:induction false} PositionsTogether(w: Serializer, fuel: nat, fields: seq<Field>, i: nat, items: seq<Value>,
      ext: bool, parts: seq<Bytes>)
    requires i <= |fields| && i <= |items| && |parts| == Least(|items|, |fields|) - i
    requires |items| < |fields| ==> fields[|items|].extension && ext
    requires forall j | 0 <= j < |parts| ::
               Encode(w, fuel, fields[i+j].typ, items[i+j], ext && i + j == |fields| - 1) == Ok(parts[j])
    ensures EncodeByPosition(w, fuel, fields, i, items, ext) == Ok(Flat(parts))
    decreases |fields| - i
  {
    hide Encode;
    if i < |fields| && i < |items| {
      var rest := parts[1..];
      assert Encode(w, fuel, fields[i+0].typ, items[i+0], ext && i + 0 == |fields| - 1) == Ok(parts[0]);
      forall j | 0 <= j < |rest|
        ensures Encode(w, fuel, fields[i+1+j].typ, items[i+1+j], ext && i + 1 + j == |fields| - 1) == Ok(rest[j])
      {
        assert rest[j] == parts[j+1] && i + 1 + j == i + (j + 1);
      }
      PositionsTogether(w, fuel, fields, i + 1, items, ext, rest);
    }
  }

  lemma {:induction false} LookupFound(entries: seq<Entry>, name: nat)
    ensures Lookup(entries, name).Some? <==> Present(entries, name)
    ensures forall v :: Lookup(entries, name) == Some(v) <==> Found(entries, name, v)
  {
    if entries != [] {
      LookupFound(entries[1..], name);
      FoundNext(entries, name);
    }
  }

  lemma FoundNext(entries: seq<Entry>, name: nat)
    requires entries != []
    ensures Present(entries, name) <==> entries[0].name == name || Present(entries[1..], name)
    ensures forall v :: Found(entries, name, v)
                        <==> if entries[0].name == name then entries[0].value == v else Found(entries[1..], name, v)
  {
    var rest := entries[1..];
    assert forall i | 0 <= i < |rest| :: rest[i] == entries[i+1];
    if Present(rest, name) {
      var i :| 0 <= i < |rest| && rest[i].name == name;
      assert entries[i+1].name == name;
    }
    if Present(entries, name) && entries[0].name != name {
      var i :| 0 <= i < |entries| && entries[i].name == name;
      assert rest[i-1].name == name;
    }
    forall v ensures Found(entries, name, v)
                     <==> if entries[0].name == name then entries[0].value == v else Found(rest, name, v)
    {
      FoundFirst(entries, name, v);
    }
  }

  lemma FoundFirst(entries: seq<Entry>, name: nat, v: Value)
    requires entries != []
    ensures Found(entries, name, v)
            <==> if entries[0].name == name then entries[0].value == v else Found(entries[1..], name, v)
  {
    var rest := entries[1..];
    if Found(entries, name, v) {
      var i :| 0 <= i < |entries| && entries[i] == Entry(name, v) && forall j | 0 <= j < i :: entries[j].name != name;
      if entries[0].name != name {
        assert rest[i-1] == entries[i];
        assert forall j | 0 <= j < i - 1 :: rest[j] == entries[j+1];
      }
    }
    if entries[0].name == name {
      if entries[0].value == v { assert entries[0] == Entry(name, v); }
    } else if Found(rest, name, v) {
      var i :| 0 <= i < |rest| && rest[i] == Entry(name, v) && forall j | 0 <= j < i :: rest[j].name != name;
      assert entries[i+1] == rest[i];
      assert forall j | 1 <= j < i + 1 :: entries[j] == rest[j-1];
    }
  }

  // ---------------------------------------------------------------- encoding is the relation

  /** Encoding a value gives exactly the bytes the relation names, and fails where it names none. */
  lemma {:induction false} EncodesWire(w: Serializer, fuel: nat, t: Type, v: Value, ext: bool, b: Bytes)
    ensures Encode(w, fuel, t, v, ext) == Ok(b) <==> Wire(w, fuel, t, v, ext, b)
    decreases fuel, 0
  {
    if fuel > 0 {
      hide AsStruct, AsArray, AsVariant, EncodeVariant, EncodeStruct, EncodeItems, PackSize, Resolve, Inside;
      var f, rt := fuel - 1, Resolve(w.typedefs, t);
      if !IsBuiltin(w, rt) {
        match rt
        case ArrayOf(elem) =>
          if v.List? {
            assert Encode(w, fuel, t, v, ext) == Append(Ok(PackSize(|v.items| % TWO32)), EncodeItems(w, f, elem, v.items, 0));
            ArrayWire(w, f, elem, v.items, b);
          }
        case OptionalOf(elem) => OptionalWire(w, f, elem, v, ext, b);
        case Plain(name) =>
          if name in w.variants {
            VariantWire(w, f, w.variants[name], v, ext, b);
          } else if name in w.structs {
            if v.Object? { ObjectWire(w, f, w.structs[name], v.entries, ext, b); }
            if v.List? { ListWire(w, f, w.structs[name], v.items, ext, b); }
            StructOnly(w, f, w.structs[name], v, ext, b);
          }
      }
    }
  }

  /** Nothing else is taken for a struct. */
  lemma StructOnly(w: Serializer, fuel: nat, st: Struct, v: Value, ext: bool, b: Bytes)
    ensures !v.Object? && !v.List? ==> EncodeStruct(w, fuel, st, v, ext).Err? && !AsStruct(Inside(w, fuel), st, v, ext, b)
  {
  }

  /** The same for what is inside. */
  lemma InsideWire(w: Serializer, fuel: nat, t: Type, v: Value, ext: bool, b: Bytes)
    ensures Encode(w, fuel, t, v, ext) == Ok(b) <==> Inside(w, fuel)(t, v, ext, b)
    decreases fuel, 1
  {
    EncodesWire(w, fuel, t, v, ext, b);
    hide Encode, Wire;
  }

  lemma OptionalWire(w: Serializer, fuel: nat, elem: Type, v: Value, ext: bool, b: Bytes)
    ensures Append(Ok([1]), Encode(w, fuel, elem, v, ext)) == Ok(b)
            <==> b != [] && b[0] == 1 && Inside(w, fuel)(elem, v, ext, b[1..])
    decreases fuel, 2
  {
    hide Encode, Wire, Inside;
    var e := Encode(w, fuel, elem, v, ext);
    if b != [] { InsideWire(w, fuel, elem, v, ext, b[1..]); }
    if e.Ok? && b == [1] + e.value { assert b[1..] == e.value; }
    if b != [] && b[0] == 1 { assert b == [1] + b[1..]; }
  }

  lemma ArrayWire(w: Serializer, fuel: nat, elem: Type, items: seq<Value>, b: Bytes)
    ensures Append(Ok(PackSize(|items| % TWO32)), EncodeItems(w, fuel, elem, items, 0)) == Ok(b)
            <==> AsArray(Inside(w, fuel), elem, items, b)
    decreases fuel, 4
  {
    hide Encode, Wire, Inside, PackSize, SizeBytes, EncodeItems, Flat, ArrayBytes;
    var size := PackSize(|items| % TWO32);
    if EncodeItems(w, fuel, elem, items, 0).Ok? && b == size + EncodeItems(w, fuel, elem, items, 0).value {
      var parts := ItemsApart(w, fuel, elem, items, 0);
      ItemsWire(w, fuel, elem, items, b, size, parts);
    }
    if AsArray(Inside(w, fuel), elem, items, b) {
      var size', parts :| ArrayBytes(Inside(w, fuel), elem, items, b, size', parts);
      WireItems(w, fuel, elem, items, b, size', parts);
    }
  }

  lemma ItemsWire(w: Serializer, fuel: nat, elem: Type, items: seq<Value>, b: Bytes, size: Bytes, parts: seq<Bytes>)
    requires size == PackSize(|items| % TWO32) && |parts| == |items| && b == size + Flat(parts)
    requires forall j | 0 <= j < |parts| :: Encode(w, fuel, elem, items[0+j], false) == Ok(parts[j])
    ensures ArrayBytes(Inside(w, fuel), elem, items, b, size, parts)
    decreases fuel, 2
  {
    hide Encode, Wire, Inside, PackSize, SizeBytes, Flat;
    PackSizeExact(|items| % TWO32, size);
    forall i | 0 <= i < |items| ensures Inside(w, fuel)(elem, items[i], false, parts[i]) {
      assert Encode(w, fuel, elem, items[0+i], false) == Ok(parts[i]);
      InsideWire(w, fuel, elem, items[i], false, parts[i]);
    }
  }

  lemma WireItems(w: Serializer, fuel: nat, elem: Type, items: seq<Value>, b: Bytes, size: Bytes, parts: seq<Bytes>)
    requires ArrayBytes(Inside(w, fuel), elem, items, b, size, parts)
    ensures Append(Ok(PackSize(|items| % TWO32)), EncodeItems(w, fuel, elem, items, 0)) == Ok(b)
    decreases fuel, 2
  {
    hide Encode, Wire, Inside, PackSize, SizeBytes, EncodeItems, Flat;
    PackSizeExact(|items| % TWO32, size);
    forall j | 0 <= j < |parts| ensures Encode(w, fuel, elem, items[0+j], false) == Ok(parts[j]) {
      InsideWire(w, fuel, elem, items[j], false, parts[j]);
    }
    ItemsTogether(w, fuel, elem, items, 0, parts);
  }

  lemma {:induction false} IndexOfFirst(types: seq<Type>, t: Type)
    ensures var i := IndexOf(types, t);
            (i < |types| ==> types[i] == t) && forall j | 0 <= j < i :: types[j] != t
  {
    if types != [] && types[0] != t {
      IndexOfFirst(types[1..], t);
      var i := IndexOf(types, t);
      forall j | 0 <= j < i ensures types[j] != t { if j > 0 { assert types[j] == types[1..][j-1]; } }
    }
  }

  lemma VariantWire(w: Serializer, fuel: nat, types: seq<Type>, v: Value, ext: bool, b: Bytes)
    ensures EncodeVariant(w, fuel, types, v, ext) == Ok(b)
            <==> AsVariant(Inside(w, fuel), types, v, ext, b)
    decreases fuel, 2
  {
    hide Encode, Wire, Inside, PackSize, SizeBytes;
    if v.List? && |v.items| == 2 && v.items[0].Text? {
      var i := IndexOf(types, v.items[0].typ);
      IndexOfFirst(types, v.items[0].typ);
      hide IndexOf;
      if i < |types| {
        var e, tag := Encode(w, fuel, types[i], v.items[1], ext), PackSize(i % TWO32);
        PackSizeExact(i % TWO32, tag);
        if e.Ok? && b == tag + e.value {
          InsideWire(w, fuel, types[i], v.items[1], ext, e.value);
          assert VariantBytes(Inside(w, fuel), types, v, ext, b, i, tag, e.value);
        }
      }
      if AsVariant(Inside(w, fuel), types, v, ext, b) {
        var i', tag, rest :| VariantBytes(Inside(w, fuel), types, v, ext, b, i', tag, rest);
        assert i' == i;
        PackSizeExact(i % TWO32, tag);
        InsideWire(w, fuel, types[i], v.items[1], ext, rest);
      }
    }
  }

  /** The two ways to say what a field becomes. */
  lemma FieldWire(w: Serializer, fuel: nat, fields: seq<Field>, entries: seq<Entry>, ext: bool, k: nat, part: Bytes)
    requires k < |fields|
    ensures Part(w, fuel, fields, entries, ext, k, part) <==> FieldBytes(Inside(w, fuel), fields, entries, ext, k, part)
    decreases fuel, 2
  {
    hide Encode, Wire, Inside, Lookup, Found, Present;
    LookupFound(entries, fields[k].name);
    match Lookup(entries, fields[k].name)
    case None =>
    case Some(v) => InsideWire(w, fuel, fields[k].typ, v, ext && k == |fields| - 1, part);
  }

  lemma InFrontPresent(fields: seq<Field>, entries: seq<Entry>)
    ensures InFront(fields, entries, 0, false)
            <==> forall i, j | 0 <= i < j < |fields| :: Present(entries, fields[j].name) ==> Present(entries, fields[i].name)
  {
    hide Lookup, Present;
    forall i | 0 <= i < |fields| ensures Lookup(entries, fields[i].name).Some? <==> Present(entries, fields[i].name) {
      LookupFound(entries, fields[i].name);
    }
  }

  /** Encoding a base by its resolved name is encoding it by its name. */
  lemma BaseWire(w: Serializer, fuel: nat, base: Type, v: Value, b: Bytes)
    ensures Encode(w, fuel, Resolve(w.typedefs, base), v, false) == Ok(b) <==> Inside(w, fuel)(base, v, false, b)
    decreases fuel, 2
  {
    ResolveTwice(w.typedefs, base);
    InsideWire(w, fuel, base, v, false, b);
    hide Resolve, Wire, Inside;
  }

  lemma ObjectWire(w: Serializer, fuel: nat, st: Struct, entries: seq<Entry>, ext: bool, b: Bytes)
    ensures EncodeStruct(w, fuel, st, Object(entries), ext) == Ok(b)
            <==> AsStruct(Inside(w, fuel), st, Object(entries), ext, b)
    decreases fuel, 4
  {
    hide Encode, Wire, Inside, Resolve, InFront, EncodeFields, Part, FieldBytes, Present;
    InFrontPresent(st.fields, entries);
    var fields := EncodeFields(w, fuel, st.fields, 0, entries, ext, false);
    var base: Result<Bytes> :=
      if st.base.None? then Ok([]) else Encode(w, fuel, Resolve(w.typedefs, st.base.value), Object(entries), false);
    if base.Ok? && fields.Ok? && b == base.value + fields.value {
      var parts := FieldsApart(w, fuel, st.fields, 0, entries, ext, false);
      forall i | 0 <= i < |parts| ensures FieldBytes(Inside(w, fuel), st.fields, entries, ext, i, parts[i]) {
        assert Part(w, fuel, st.fields, entries, ext, 0 + i, parts[i]);
        FieldWire(w, fuel, st.fields, entries, ext, i, parts[i]);
      }
      if st.base.Some? { BaseWire(w, fuel, st.base.value, Object(entries), base.value); }
      assert ObjectBytes(Inside(w, fuel), st, entries, ext, b, base.value, parts);
    }
    if AsStruct(Inside(w, fuel), st, Object(entries), ext, b) {
      var base', parts :| ObjectBytes(Inside(w, fuel), st, entries, ext, b, base', parts);
      forall i | 0 <= i < |parts| ensures Part(w, fuel, st.fields, entries, ext, 0 + i, parts[i]) {
        FieldWire(w, fuel, st.fields, entries, ext, i, parts[i]);
      }
      FieldsTogether(w, fuel, st.fields, 0, entries, ext, false, parts);
      if st.base.Some? { BaseWire(w, fuel, st.base.value, Object(entries), base'); }
    }
  }

  lemma ListWire(w: Serializer, fuel: nat, st: Struct, items: seq<Value>, ext: bool, b: Bytes)
    ensures EncodeStruct(w, fuel, st, List(items), ext) == Ok(b)
            <==> AsStruct(Inside(w, fuel), st, List(items), ext, b)
    decreases fuel, 4
  {
    hide Encode, Wire, Inside, EncodeByPosition, ListBytes, Flat;
    if st.base.None? && EncodeByPosition(w, fuel, st.fields, 0, items, ext) == Ok(b) {
      var parts := PositionsApart(w, fuel, st.fields, 0, items, ext);
      PositionsWire(w, fuel, st, items, ext, b, parts);
    }
    if AsStruct(Inside(w, fuel), st, List(items), ext, b) {
      var parts :| ListBytes(Inside(w, fuel), st, items, ext, b, parts);
      WirePositions(w, fuel, st, items, ext, b, parts);
    }
  }

  lemma PositionsWire(w: Serializer, fuel: nat, st: Struct, items: seq<Value>, ext: bool, b: Bytes, parts: seq<Bytes>)
    requires st.base.None? && |parts| == Least(|items|, |st.fields|) && b == Flat(parts)
    requires |items| < |st.fields| ==> st.fields[|items|].extension && ext
    requires forall j | 0 <= j < |parts| ::
               Encode(w, fuel, st.fields[0+j].typ, items[0+j], ext && 0 + j == |st.fields| - 1) == Ok(parts[j])
    ensures ListBytes(Inside(w, fuel), st, items, ext, b, parts)
    decreases fuel, 2
  {
    hide Encode, Wire, Inside, Flat;
    forall i | 0 <= i < |parts| ensures Inside(w, fuel)(st.fields[i].typ, items[i], ext && i == |st.fields| - 1, parts[i]) {
      assert Encode(w, fuel, st.fields[0+i].typ, items[0+i], ext && 0 + i == |st.fields| - 1) == Ok(parts[i]);
      InsideWire(w, fuel, st.fields[i].typ, items[i], ext && i == |st.fields| - 1, parts[i]);
    }
  }

  lemma WirePositions(w: Serializer, fuel: nat, st: Struct, items: seq<Value>, ext: bool, b: Bytes, parts: seq<Bytes>)
    requires ListBytes(Inside(w, fuel), st, items, ext, b, parts)
    ensures st.base.None? && EncodeByPosition(w, fuel, st.fields, 0, items, ext) == Ok(b)
    decreases fuel, 2
  {
    hide Encode, Wire, Inside, EncodeByPosition, Flat;
    forall j | 0 <= j < |parts|
      ensures Encode(w, fuel, st.fields[0+j].typ, items[0+j], ext && 0 + j == |st.fields| - 1) == Ok(parts[j])
    {
      InsideWire(w, fuel, st.fields[j].typ, items[j], ext && j == |st.fields| - 1, parts[j]);
    }
    PositionsTogether(w, fuel, st.fields, 0, items, ext, parts);
  }
}
