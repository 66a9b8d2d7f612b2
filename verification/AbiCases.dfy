/** Type definitions on which encoding and decoding part ways. */
module AbiCases {
  import opened Basics
  import opened AbiModel
  import opened AbiRoundTrip
  import opened AbiValidate

  // ---------------------------------------------------------------- a base named like a built-in type

  lemma {:induction false} Unused(used: set<nat>) returns (n: nat)
    ensures forall m | m in used :: m < n
    decreases |used|
  {
    if used == {} {
      n := 0;
    } else {
      var m :| m in used;
      n := Unused(used - {m});
      assert forall k | k in used :: k == m || k in used - {m};
      if n <= m { n := m + 1; }
    }
  }

  /** Struct n lists the names of the entries; its fields are of the variant u, which has no types.
      Struct d only inherits it. */
  ghost function Inheriting(c: Codec, n: nat, d: nat, u: nat, entries: seq<Entry>): Serializer {
    Serializer(map[], map[n := Struct(None, Impossible(u, entries)), d := Struct(Some(Plain(n)), [])], map[u := []], c)
  }

  ghost function Impossible(u: nat, entries: seq<Entry>): (fields: seq<Field>)
    ensures |fields| == |entries|
  {
    seq(|entries|, i requires 0 <= i < |entries| => Field(entries[i].name, Plain(u), false))
  }

  lemma {:induction false} ListsEntries(u: nat, entries: seq<Entry>, i: nat)
    requires Consistent(entries) && i <= |entries|
    ensures ExpectedFields(Impossible(u, entries), i, entries) == entries[i..]
    decreases |entries| - i
  {
    hide Lookup;
    if i < |entries| {
      ListsEntries(u, entries, i + 1);
      assert entries[i..] == [entries[i]] + entries[i+1..];
    }
  }

  ghost predicate Clash(c: Codec, n: nat, d: nat, u: nat) {
    n in c.known && d !in c.known && u !in c.known && d != n && u != n && u != d
  }

  lemma ClashEncodes(c: Codec, n: nat, d: nat, u: nat, entries: seq<Entry>, fuel: nat, ext: bool)
    requires Clash(c, n, d, u) && c.pack(n, One, Object(entries)).Some? && fuel >= 2
    ensures Encode(Inheriting(c, n, d, u, entries), fuel, Plain(d), Object(entries), ext).Ok?
  {
    var w := Inheriting(c, n, d, u, entries);
    assert Resolve(w.typedefs, Plain(d)) == Plain(d) && Resolve(w.typedefs, Plain(n)) == Plain(n);
    assert Encode(w, fuel - 1, Plain(n), Object(entries), false).Ok?;
    assert EncodeFields(w, fuel - 1, [], 0, entries, ext, false) == Ok([]);
  }

  lemma ClashCanonical(c: Codec, n: nat, d: nat, u: nat, entries: seq<Entry>, fuel: nat)
    requires Clash(c, n, d, u) && entries != [] && Consistent(entries) && fuel >= 2
    ensures Canonical(Inheriting(c, n, d, u, entries), fuel, Plain(d), Object(entries))
  {
    var w := Inheriting(c, n, d, u, entries);
    var fields := Impossible(u, entries);
    assert Resolve(w.typedefs, Plain(d)) == Plain(d) && Resolve(w.typedefs, Plain(n)) == Plain(n);
    ListsEntries(u, entries, 0);
    assert entries[0..] == entries;
    hide Lookup, Consistent;
    assert Expected(w, fuel - 2, w.structs[n], entries) == [] + entries == entries;
    assert ExpectedFields([], 0, entries) == [] && entries + [] == entries;
    assert Expected(w, fuel - 1, w.structs[d], entries) == entries;
    assert Resolve(w.typedefs, Plain(u)) == Plain(u);
    assert CanonicalFields(w, fuel - 2, fields, entries);
    assert CanonicalStruct(w, fuel - 2, w.structs[n], entries);
    assert CanonicalStruct(w, fuel - 1, w.structs[d], entries);
  }

  lemma ClashDoesNotDecode(c: Codec, n: nat, d: nat, u: nat, entries: seq<Entry>, depth: nat, s: Bytes)
    requires Clash(c, n, d, u) && entries != []
    ensures Decode(Inheriting(c, n, d, u, entries), depth, Plain(d), s).Err?
  {
    var w := Inheriting(c, n, d, u, entries);
    assert Resolve(w.typedefs, Plain(d)) == Plain(d) && Resolve(w.typedefs, Plain(n)) == Plain(n);
    assert Resolve(w.typedefs, Plain(u)) == Plain(u);
    if depth >= 3 {
      assert Decode(w, depth - 3, Plain(u), s).Err?;
      assert DecodeFields(w, depth - 3, Impossible(u, entries), 0, s, []).Err?;
      assert DecodeStruct(w, depth - 2, Plain(n), s, []).Err?;
    }
    assert depth > 0 ==> DecodeStruct(w, depth - 1, Plain(d), s, []).Err?;
  }

  lemma ClashRefused(c: Codec, n: nat, d: nat, u: nat, entries: seq<Entry>, fuel: nat, ext: bool)
    requires Clash(c, n, d, u) && entries != [] && Consistent(entries)
    ensures EncodeStruct(Inheriting(c, n, d, u, entries), fuel, Struct(None, Impossible(u, entries)), Object(entries), ext).Err?
  {
    var w := Inheriting(c, n, d, u, entries);
    assert Resolve(w.typedefs, Plain(u)) == Plain(u);
    assert Encode(w, fuel, Plain(u), entries[0].value, ext && 0 == |entries| - 1).Err?;
    assert Lookup(entries, entries[0].name) == Some(entries[0].value);
  }

  lemma ClashAccepted(c: Codec, n: nat, d: nat, u: nat, entries: seq<Entry>)
    requires Clash(c, n, d, u)
    ensures Accepted(Inheriting(c, n, d, u, entries))
  {
    var w := Inheriting(c, n, d, u, entries);
    assert Resolve(w.typedefs, Plain(n)) == Plain(n);
    assert w.structs.Keys == {n, d} && |w.structs| == |w.structs.Keys| == 2;
    assert BasesEnd(w, Plain(n), 1) && BasesEnd(w, Plain(n), 2) && BasesEnd(w, Plain(d), 2);
    assert Defined(w, Plain(u));
  }

  /** Every built-in type that takes an object gives such a case: an ABI that passes validate, with a
      struct that inherits from a struct of that name, and a value that encodes, although the base
      struct refuses it. No bytes at all decode. So `TakesNoObject` is exactly what makes a built-in
      name safe to inherit from. */
  lemma BuiltinBaseBreaks(c: Codec, n: nat) returns (w: Serializer, d: nat, v: Value)
    requires n in c.known && !TakesNoObject(c, n)
    ensures w.codec == c && d in w.structs && w.structs[d].base == Some(Plain(n)) && n in w.structs
    ensures Accepted(w) && !BasesSafe(w)
    ensures forall fuel: nat, ext | fuel >= 2 :: Encode(w, fuel, Plain(d), v, ext).Ok? && Canonical(w, fuel, Plain(d), v)
    ensures forall fuel, ext :: EncodeStruct(w, fuel, w.structs[n], v, ext).Err?
    ensures forall depth, s :: Decode(w, depth, Plain(d), s).Err?
  {
    hide Canonical, Encode, Decode, EncodeStruct, Accepted;
    var entries: seq<Entry> :| entries != [] && Consistent(entries) && c.pack(n, One, Object(entries)).Some?;
    var top := Unused(c.known);
    d, v := top, Object(entries);
    var u := top + 1;
    w := Inheriting(c, n, d, u, entries);
    assert Resolve(w.typedefs, Plain(n)) == Plain(n);
    ClashAccepted(c, n, d, u, entries);
    forall fuel: nat, ext | fuel >= 2 ensures Encode(w, fuel, Plain(d), v, ext).Ok? && Canonical(w, fuel, Plain(d), v) {
      ClashEncodes(c, n, d, u, entries, fuel, ext);
      ClashCanonical(c, n, d, u, entries, fuel);
    }
    forall fuel, ext ensures EncodeStruct(w, fuel, w.structs[n], v, ext).Err? {
      ClashRefused(c, n, d, u, entries, fuel, ext);
    }
    forall depth, s ensures Decode(w, depth, Plain(d), s).Err? { ClashDoesNotDecode(c, n, d, u, entries, depth, s); }
  }

  // ---------------------------------------------------------------- long chains of type definitions

  /** Name i stands for name i + 1, up to n. */
  ghost function Renaming(n: nat): map<Type, Type> {
    if n == 0 then map[] else Renaming(n - 1)[Plain(n - 1) := Plain(n)]
  }

  lemma {:induction false} RenamingAt(n: nat, i: nat)
    ensures Plain(i) in Renaming(n) <==> i < n
    ensures i < n ==> Renaming(n)[Plain(i)] == Plain(i + 1)
  {
    if n > 0 { RenamingAt(n - 1, i); }
  }

  lemma {:induction false} RenamingSize(n: nat)
    ensures |Renaming(n)| == n
  {
    if n > 0 {
      RenamingSize(n - 1);
      RenamingAt(n - 1, n - 1);
    }
  }

  lemma {:induction false} RenamingFollow(n: nat, i: nat, k: nat)
    requires i <= n <= i + k
    ensures Follow(Renaming(n), Plain(i), k) == Some(Plain(n))
    decreases n - i
  {
    RenamingAt(n, i);
    if i < n { RenamingFollow(n, i + 1, k - 1); }
  }

  lemma {:induction false} RenamingIsType(w: Serializer, n: nat, i: nat, fuel: nat)
    requires w.typedefs == Renaming(n) && i <= n && n in w.codec.known && forall j | 0 <= j < n :: j !in w.codec.known
    ensures IsType(w, fuel, Plain(i)) == if n - i < fuel then Ok(true) else Err(Depth)
    decreases n - i
  {
    RenamingAt(n, i);
    if i < n && fuel > 0 { RenamingIsType(w, n, i + 1, fuel - 1); }
  }

  lemma {:induction false} RenamingKeys(n: nat, t: Type)
    requires t in Renaming(n)
    ensures t.Plain? && t.name < n && Renaming(n)[t] == Plain(t.name + 1)
  {
    if t != Plain(n - 1) { RenamingKeys(n - 1, t); }
  }

  /** validate follows each definition from its second name on. */
  lemma RenamingDefined(w: Serializer, n: nat)
    requires w.typedefs == Renaming(n) && n in w.codec.known && forall j | 0 <= j < n :: j !in w.codec.known
    ensures (forall t | t in w.typedefs :: Defined(w, w.typedefs[t])) <==> n <= VALIDATE_DEPTH
  {
    hide IsType, Renaming;
    forall t | t in w.typedefs ensures t.Plain? && (Defined(w, w.typedefs[t]) <==> n - (t.name + 1) < VALIDATE_DEPTH) {
      RenamingKeys(n, t);
      RenamingIsType(w, n, t.name + 1, VALIDATE_DEPTH);
    }
    RenamingAt(n, 0);
    assert n > 0 ==> Plain(0) in w.typedefs;
  }

  /** A built-in type behind a chain of n definitions: its values always decode, but encode only while
      the chain has fewer than thirty links. The definitions pass validate up to thirty-one links. */
  lemma LongRenaming(w: Serializer, n: nat, v: Value, b: Bytes)
    requires Lawful(w.codec) && w.typedefs == Renaming(n)
    requires n in w.codec.known && forall j | 0 <= j < n :: j !in w.codec.known
    requires w.codec.plain(n, One, v) && w.codec.pack(n, One, v) == Some(b)
    ensures VariantToBinary(w, Plain(0), v) == if n < MAX_DEPTH - 2 then Ok(b) else Err(Depth)
    ensures BinaryToVariant(w, Plain(0), b) == Ok(v)
    ensures (forall t | t in w.typedefs :: Defined(w, w.typedefs[t])) <==> n <= VALIDATE_DEPTH
  {
    hide IsType;
    RenamingSize(n);
    RenamingFollow(n, 0, n);
    RenamingIsType(w, n, 0, MAX_DEPTH - 2);
    RenamingDefined(w, n);
    assert Resolve(w.typedefs, Plain(0)) == Plain(n);
    hide Resolve, Renaming, Defined;
    assert w.codec.unpack(n, One, b + []) == Some((v, []));
    assert b + [] == b;
  }

  // ---------------------------------------------------------------- structs given as arrays

  /** An extension field before one that is not: as an array nothing is needed, as an object the
      second field is missing. */
  lemma ArrayFormOmits(w: Serializer, fuel: nat, t: Type)
    ensures var st := Struct(None, [Field(0, t, true), Field(1, t, false)]);
            && EncodeStruct(w, fuel, st, List([]), true) == Ok([])
            && EncodeStruct(w, fuel, st, Object([]), true).Err?
  {
    var st := Struct(None, [Field(0, t, true), Field(1, t, false)]);
    assert EncodeFields(w, fuel, st.fields, 1, [], true, true).Err?;
    assert EncodeFields(w, fuel, st.fields, 0, [], true, false).Err?;
  }
}
