/** libraries/chain/abi_serializer.cpp: encoding a value to bytes by its ABI type, and back. */
module AbiModel {
  import opened Basics

  datatype Error = Depth | Bad

  datatype Result<+T> = Ok(value: T) | Err(error: Error)

  // ---------------------------------------------------------------- types and values

  /** A type name: a plain name, or another type name followed by [] or ? */
  datatype Type = Plain(name: nat) | ArrayOf(elem: Type) | OptionalOf(elem: Type)

  /** A field; `extension` says that its type is marked with $ */
  datatype Field = Field(name: nat, typ: Type, extension: bool)

  datatype Struct = Struct(base: Option<Type>, fields: seq<Field>)

  datatype Entry = Entry(name: nat, value: Value)

  datatype Value = Null | Atom(data: nat) | Text(typ: Type) | List(items: seq<Value>) | Object(entries: seq<Entry>)

  datatype Shape = One | Many | Maybe

  /** The built-in types, each with a packing and an unpacking function for itself, its arrays and
      its optionals; `plain` says which values the unpacking function gives. `raw` reads a value as
      bytes, for types that are not defined. */
  datatype Codec = Codec(
    known: set<nat>,
    pack: (nat, Shape, Value) -> Option<Bytes>,
    unpack: (nat, Shape, Bytes) -> Option<(Value, Bytes)>,
    plain: (nat, Shape, Value) -> bool,
    raw: Value -> Option<Bytes>)

  datatype Serializer = Serializer(
    typedefs: map<Type, Type>, structs: map<nat, Struct>, variants: map<nat, seq<Type>>, codec: Codec)

  /** Packing a built-in value gives at least one byte, and unpacking gives the value back. */
  ghost predicate Lawful(c: Codec) {
    forall n, shape, v, rest: Bytes | c.plain(n, shape, v) && c.pack(n, shape, v).Some? ::
      var b := c.pack(n, shape, v).value;
      b != [] && c.unpack(n, shape, b + rest) == Some((v, rest))
  }

  // ---------------------------------------------------------------- resolving type names

  /** At most n typedefs further; None if that is not enough. */
  function Follow(typedefs: map<Type, Type>, t: Type, n: nat): Option<Type>
    decreases n
  {
    if t !in typedefs then Some(t) else if n == 0 then None else Follow(typedefs, typedefs[t], n - 1)
  }

  function Resolve(typedefs: map<Type, Type>, t: Type): Type {
    match Follow(typedefs, t, |typedefs|)
    case Some(r) => r
    case None => t
  }

  lemma {:induction false} FollowEnds(typedefs: map<Type, Type>, t: Type, n: nat)
    requires Follow(typedefs, t, n).Some?
    ensures Follow(typedefs, t, n).value !in typedefs
    decreases n
  {
    if t in typedefs { FollowEnds(typedefs, typedefs[t], n - 1); }
  }

  lemma ResolveTwice(typedefs: map<Type, Type>, t: Type)
    ensures Resolve(typedefs, Resolve(typedefs, t)) == Resolve(typedefs, t)
  {
    if Follow(typedefs, t, |typedefs|).Some? { FollowEnds(typedefs, t, |typedefs|); }
  }

  function Fundamental(t: Type): Type { if t.Plain? then t else t.elem }

  function ShapeOf(t: Type): Shape { if t.Plain? then One else if t.ArrayOf? then Many else Maybe }

  predicate IsBuiltin(w: Serializer, t: Type) { Fundamental(t).Plain? && Fundamental(t).name in w.codec.known }

  /** _is_type, which enters one scope for each typedef it follows. */
  function IsType(w: Serializer, fuel: nat, t: Type): Result<bool>
    decreases fuel
  {
    var f := Fundamental(t);
    if fuel == 0 then Err(Depth)
    else if f.Plain? && f.name in w.codec.known then Ok(true)
    else if f in w.typedefs then IsType(w, fuel - 1, w.typedefs[f])
    else Ok(f.Plain? && (f.name in w.structs || f.name in w.variants))
  }

  // ---------------------------------------------------------------- variable-length numbers

  function PackSize(n: nat): (b: Bytes) {
    if n < 128 then [n] else [n % 128 + 128] + PackSize(n / 128)
  }

  function UnpackSize(s: Bytes): Option<(nat, Bytes)> {
    if s == [] || s[0] < 0 || s[0] > 255 then None
    else if s[0] < 128 then Some((s[0], s[1..]))
    else match UnpackSize(s[1..])
      case None => None
      case Some((n, rest)) => Some((n * 128 + s[0] % 128, rest))
  }

  lemma {:induction false} SizeRoundTrip(n: nat, rest: Bytes)
    ensures PackSize(n) != [] && UnpackSize(PackSize(n) + rest) == Some((n, rest))
  {
    var s := PackSize(n) + rest;
    if n < 128 {
      assert s[1..] == rest;
    } else {
      SizeRoundTrip(n / 128, rest);
      assert s[1..] == PackSize(n / 128) + rest;
    }
  }

  // ---------------------------------------------------------------- encoding

  function Append(a: Result<Bytes>, b: Result<Bytes>): Result<Bytes> {
    if a.Err? then a else if b.Err? then b else Ok(a.value + b.value)
  }

  function Lookup(entries: seq<Entry>, name: nat): Option<Value> {
    if entries == [] then None
    else if entries[0].name == name then Some(entries[0].value)
    else Lookup(entries[1..], name)
  }

  function IndexOf(types: seq<Type>, t: Type): (i: nat)
    ensures i <= |types| && (i < |types| ==> types[i] == t)
  {
    if types == [] then 0 else if types[0] == t then 0 else 1 + IndexOf(types[1..], t)
  }

  /** _variant_to_binary. `ext` says that extension fields may be left out here; fuel is the number
      of scopes that may still be entered. */
  function Encode(w: Serializer, fuel: nat, t: Type, v: Value, ext: bool): Result<Bytes>
    decreases fuel, 2, 0
  {
    if fuel == 0 then Err(Depth)
    else
      var rt := Resolve(w.typedefs, t);
      if IsBuiltin(w, rt) then
        match w.codec.pack(Fundamental(rt).name, ShapeOf(rt), v) {
          case Some(b) => Ok(b)
          case None => Err(Bad)
        }
      else match rt {
        case ArrayOf(elem) =>
          if !v.List? then Err(Bad)
          else Append(Ok(PackSize(|v.items| % TWO32)), EncodeItems(w, fuel - 1, elem, v.items, 0))
        case OptionalOf(elem) =>
          if v.Null? then Ok([0]) else Append(Ok([1]), Encode(w, fuel - 1, elem, v, ext))
        case Plain(name) =>
          if name in w.variants then EncodeVariant(w, fuel - 1, w.variants[name], v, ext)
          else if name in w.structs then EncodeStruct(w, fuel - 1, w.structs[name], v, ext)
          else Err(Bad)
      }
  }

  function EncodeItems(w: Serializer, fuel: nat, elem: Type, items: seq<Value>, i: nat): Result<Bytes>
    requires i <= |items|
    decreases fuel, 3, |items| - i
  {
    if i == |items| then Ok([])
    else Append(Encode(w, fuel, elem, items[i], false), EncodeItems(w, fuel, elem, items, i + 1))
  }

  /** A two-item array: the name of one of the types, and a value of it. */
  function EncodeVariant(w: Serializer, fuel: nat, types: seq<Type>, v: Value, ext: bool): Result<Bytes>
    decreases fuel, 3, 0
  {
    if !v.List? || |v.items| != 2 || !v.items[0].Text? then Err(Bad)
    else
      var i := IndexOf(types, v.items[0].typ);
      if i == |types| then Err(Bad)
      else Append(Ok(PackSize(i % TWO32)), Encode(w, fuel, types[i], v.items[1], ext))
  }

  function EncodeStruct(w: Serializer, fuel: nat, st: Struct, v: Value, ext: bool): Result<Bytes>
    decreases fuel, 4, 0
  {
    match v
    case Object(entries) =>
      Append(if st.base.None? then Ok([]) else Encode(w, fuel, Resolve(w.typedefs, st.base.value), v, false),
             EncodeFields(w, fuel, st.fields, 0, entries, ext, false))
    case List(items) =>
      if st.base.Some? then Err(Bad) else EncodeByPosition(w, fuel, st.fields, 0, items, ext)
    case _ => Err(Bad)
  }

  /** The fields from i on; `omitting` says that an extension field was left out. */
  function EncodeFields(w: Serializer, fuel: nat, fields: seq<Field>, i: nat, entries: seq<Entry>,
      ext: bool, omitting: bool): Result<Bytes>
    requires i <= |fields|
    decreases fuel, 3, |fields| - i
  {
    if i == |fields| then Ok([])
    else
      match Lookup(entries, fields[i].name)
      case Some(v) =>
        if omitting then Err(Bad)
        else Append(Encode(w, fuel, fields[i].typ, v, ext && i == |fields| - 1),
                    EncodeFields(w, fuel, fields, i + 1, entries, ext, false))
      case None =>
        if fields[i].extension && ext then EncodeFields(w, fuel, fields, i + 1, entries, ext, true) else Err(Bad)
  }

  /** The fields of a struct without a base, given as an array. */
  function EncodeByPosition(w: Serializer, fuel: nat, fields: seq<Field>, i: nat, items: seq<Value>, ext: bool): Result<Bytes>
    requires i <= |fields|
    decreases fuel, 3, |fields| - i
  {
    if i == |fields| then Ok([])
    else if i < |items| then
      Append(Encode(w, fuel, fields[i].typ, items[i], ext && i == |fields| - 1),
             EncodeByPosition(w, fuel, fields, i + 1, items, ext))
    else if fields[i].extension && ext then Ok([])
    else Err(Bad)
  }

  // ---------------------------------------------------------------- decoding

  /** _binary_to_variant for a value. */
  function Decode(w: Serializer, fuel: nat, t: Type, s: Bytes): Result<(Value, Bytes)>
    decreases fuel, 2, 0
  {
    if fuel == 0 then Err(Depth)
    else
      var rt := Resolve(w.typedefs, t);
      if IsBuiltin(w, rt) then
        match w.codec.unpack(Fundamental(rt).name, ShapeOf(rt), s) {
          case Some(r) => Ok(r)
          case None => Err(Bad)
        }
      else match rt {
        case ArrayOf(elem) =>
          match UnpackSize(s) {
            case None => Err(Bad)
            case Some((n, rest)) => DecodeItems(w, fuel - 1, elem, n, rest, [])
          }
        case OptionalOf(elem) =>
          if s == [] then Err(Bad)
          else if s[0] == 0 then Ok((Null, s[1..]))
          else Decode(w, fuel - 1, elem, s[1..])
        case Plain(name) =>
          if name in w.variants then DecodeVariant(w, fuel - 1, w.variants[name], s)
          else match DecodeStruct(w, fuel - 1, rt, s, []) {
            case Err(e) => Err(e)
            case Ok((entries, rest)) => if entries == [] then Err(Bad) else Ok((Object(entries), rest))
          }
      }
  }

  function DecodeItems(w: Serializer, fuel: nat, elem: Type, n: nat, s: Bytes, done: seq<Value>): Result<(Value, Bytes)>
    decreases fuel, 3, n
  {
    if n == 0 then Ok((List(done), s))
    else match Decode(w, fuel, elem, s)
      case Err(e) => Err(e)
      case Ok((v, rest)) => if v.Null? then Err(Bad) else DecodeItems(w, fuel, elem, n - 1, rest, done + [v])
  }

  function DecodeVariant(w: Serializer, fuel: nat, types: seq<Type>, s: Bytes): Result<(Value, Bytes)>
    decreases fuel, 3, 0
  {
    match UnpackSize(s)
    case None => Err(Bad)
    case Some((i, rest)) =>
      if i >= |types| then Err(Bad)
      else match Decode(w, fuel, types[i], rest)
        case Err(e) => Err(e)
        case Ok((v, rest')) => Ok((List([Text(types[i]), v]), rest'))
  }

  /** _binary_to_variant for the fields of a struct, which are appended to those of its base. */
  function DecodeStruct(w: Serializer, fuel: nat, t: Type, s: Bytes, done: seq<Entry>): Result<(seq<Entry>, Bytes)>
    decreases fuel, 4, 0
  {
    if fuel == 0 then Err(Depth)
    else if !t.Plain? || t.name !in w.structs then Err(Bad)
    else
      var st := w.structs[t.name];
      var base: Result<(seq<Entry>, Bytes)> := if st.base.None? then Ok((done, s))
                  else DecodeStruct(w, fuel - 1, Resolve(w.typedefs, st.base.value), s, done);
      match base
      case Err(e) => Err(e)
      case Ok((entries, rest)) => DecodeFields(w, fuel - 1, st.fields, 0, rest, entries)
  }

  function DecodeFields(w: Serializer, fuel: nat, fields: seq<Field>, i: nat, s: Bytes, done: seq<Entry>)
    : Result<(seq<Entry>, Bytes)>
    requires i <= |fields|
    decreases fuel, 3, |fields| - i
  {
    if i == |fields| then Ok((done, s))
    else if s == [] then
      if fields[i].extension then DecodeFields(w, fuel, fields, i + 1, s, done) else Err(Bad)
    else match Decode(w, fuel, Resolve(w.typedefs, fields[i].typ), s)
      case Err(e) => Err(e)
      case Ok((v, rest)) => DecodeFields(w, fuel, fields, i + 1, rest, done + [Entry(fields[i].name, v)])
  }
}
