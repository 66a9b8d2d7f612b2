/** The check of libraries/chain/abi_serializer.cpp against circular type definitions. */
module AbiValidate {
  import opened Basics
  import opened AbiModel

  /** seen starts at t and follows the typedefs, up to its last element. */
  ghost predicate Follows(typedefs: map<Type, Type>, t: Type, seen: seq<Type>) {
    && |seen| >= 2 && seen[0] == t
    && forall i | 0 <= i < |seen| - 1 :: seen[i] in typedefs && typedefs[seen[i]] == seen[i+1]
  }

  /** Nothing twice, except that t itself may be its own definition. */
  ghost predicate NewEach(seen: seq<Type>) {
    forall i, j | 0 <= i < j < |seen| && j >= 2 :: seen[i] != seen[j]
  }

  lemma {:induction false} SeenBound(seen: seq<Type>, n: nat, keys: set<Type>)
    requires n <= |seen| && (forall i, j | 0 <= i < j < n :: seen[i] != seen[j]) && forall i | 0 <= i < n :: seen[i] in keys
    ensures n <= |keys|
    decreases n
  {
    if n > 0 { SeenBound(seen, n - 1, keys - {seen[n-1]}); }
  }

  /** A walk that leaves the typedefs is one that resolve_type can finish. */
  lemma WalkResolves(typedefs: map<Type, Type>, t: Type, seen: seq<Type>)
    requires Follows(typedefs, t, seen) && NewEach(seen) && seen[|seen|-1] !in typedefs
    ensures Follow(typedefs, t, |typedefs|).Some?
  {
    var n := |seen| - 1;
    forall i, j | 0 <= i < j < n ensures seen[i] != seen[j] {
      if j == 1 && seen[0] == seen[1] { StuckAt(typedefs, seen, n); }
    }
    SeenBound(seen, n, typedefs.Keys);
    WalkFollow(typedefs, seen, 0, |typedefs|);
  }

  /** From a type that is its own definition there is no way on. */
  lemma {:induction false} StuckAt(typedefs: map<Type, Type>, seen: seq<Type>, n: nat)
    requires |seen| >= 2 && seen[0] == seen[1] && n < |seen|
    requires forall i | 0 <= i < |seen| - 1 :: seen[i] in typedefs && typedefs[seen[i]] == seen[i+1]
    ensures seen[n] == seen[0]
  {
    if n > 1 {
      StuckAt(typedefs, seen, n - 1);
      assert typedefs[seen[n-1]] == seen[n-1+1];
    }
  }

  lemma {:induction false} WalkFollow(typedefs: map<Type, Type>, seen: seq<Type>, k: nat, n: nat)
    requires k < |seen| && seen[|seen|-1] !in typedefs && n >= |seen| - 1 - k
    requires forall i | 0 <= i < |seen| - 1 :: seen[i] in typedefs && typedefs[seen[i]] == seen[i+1]
    ensures Follow(typedefs, seen[k], n).Some?
    decreases |seen| - k
  {
    if k < |seen| - 1 { WalkFollow(typedefs, seen, k + 1, n - 1); }
  }

  /** A walk that comes back to itself never ends. */
  lemma {:induction false} CircleStays(typedefs: map<Type, Type>, seen: seq<Type>, x: Type, n: nat)
    requires x in seen && forall y | y in seen :: y in typedefs && typedefs[y] in seen
    ensures Follow(typedefs, x, n).None?
    decreases n
  {
    if n > 0 { CircleStays(typedefs, seen, typedefs[x], n - 1); }
  }

  lemma Circle(typedefs: map<Type, Type>, t: Type, seen: seq<Type>)
    requires Follows(typedefs, t, seen) && seen[|seen|-1] in typedefs && typedefs[seen[|seen|-1]] in seen
    ensures Follow(typedefs, t, |typedefs|).None?
  {
    forall y | y in seen ensures y in typedefs && typedefs[y] in seen {
      var i :| 0 <= i < |seen| && seen[i] == y;
      assert i < |seen| - 1 ==> typedefs[seen[i]] == seen[i+1];
    }
    CircleStays(typedefs, seen, t, |typedefs|);
  }

  /** The walk from one type definition. */
  method CheckOne(typedefs: map<Type, Type>, t: Type) returns (ok: bool)
    requires t in typedefs
    ensures ok <==> Follow(typedefs, t, |typedefs|).Some?
  {
    var seen := [t, typedefs[t]];
    var at := typedefs[t];
    while at in typedefs
      invariant Follows(typedefs, t, seen) && NewEach(seen) && at == seen[|seen|-1]
      decreases |typedefs| + 3 - |seen|
    {
      var next := typedefs[at];
      if next in seen {
        Circle(typedefs, t, seen);
        return false;
      }
      SeenLength(typedefs, t, seen);
      seen := seen + [next];
      at := next;
    }
    WalkResolves(typedefs, t, seen);
    return true;
  }

  lemma SeenLength(typedefs: map<Type, Type>, t: Type, seen: seq<Type>)
    requires Follows(typedefs, t, seen) && NewEach(seen) && seen[|seen|-1] in typedefs && typedefs[seen[|seen|-1]] !in seen
    ensures |seen| <= |typedefs|
  {
    forall i, j | 0 <= i < j < |seen| ensures seen[i] != seen[j] {
      if j == 1 && seen[0] == seen[1] { StuckAt(typedefs, seen, |seen| - 1); }
    }
    SeenBound(seen, |seen|, typedefs.Keys);
  }

  /** The first loop of validate. It accepts exactly when resolve_type finds, for every type name, one
      that is not a typedef. */
  method ValidateTypedefs(typedefs: map<Type, Type>) returns (ok: bool)
    ensures ok <==> forall t | t in typedefs :: Resolve(typedefs, t) !in typedefs
  {
    var todo := typedefs.Keys;
    while todo != {}
      invariant todo <= typedefs.Keys
      invariant forall t | t in typedefs && t !in todo :: Follow(typedefs, t, |typedefs|).Some?
      decreases todo
    {
      var t :| t in todo;
      ok := CheckOne(typedefs, t);
      if !ok {
        assert Resolve(typedefs, t) == t;
        return false;
      }
      todo := todo - {t};
    }
    forall t | t in typedefs ensures Resolve(typedefs, t) !in typedefs { FollowEnds(typedefs, t, |typedefs|); }
    return true;
  }

  // ---------------------------------------------------------------- the other checks

  /** The scopes that a call from validate may enter. */
  const VALIDATE_DEPTH := 31

  ghost predicate Defined(w: Serializer, t: Type) { IsType(w, VALIDATE_DEPTH, t) == Ok(true) }

  /** From struct s at most n bases up there is one without a base. */
  ghost predicate BasesEnd(w: Serializer, s: Type, n: nat)
    decreases n
  {
    && s.Plain? && s.name in w.structs
    && var base := w.structs[s.name].base;
       base.Some? ==> n > 0 && BasesEnd(w, Resolve(w.typedefs, base.value), n - 1)
  }

  /** What validate asks for: typedefs, bases, field types and variant types. */
  ghost predicate Accepted(w: Serializer) {
    && (forall t | t in w.typedefs :: Resolve(w.typedefs, t) !in w.typedefs && Defined(w, w.typedefs[t]))
    && (forall s | s in w.structs :: BasesEnd(w, Plain(s), |w.structs|))
    && (forall s, i | s in w.structs && 0 <= i < |w.structs[s].fields| :: Defined(w, w.structs[s].fields[i].typ))
    && (forall s, i | s in w.variants && 0 <= i < |w.variants[s]| :: Defined(w, w.variants[s][i]))
  }
}
