/**
 The isolate-group registry of FFI callback trampolines: a hash set of
 `Function` references with insert-or-get semantics.

 The set's equality lives in a header this model does not include. It is
 taken as an arbitrary equivalence on function records, given as the kernel
 of a key function: two records are equivalent exactly when `key` maps them
 to the same value. The key sees only the record, in which the target and
 the exceptional return are references: objects reached through them count
 as equal only when they are the same reference, never by content.
 */
module CallbackSet {
  import opened Results
  import opened Heap

  /** The capacity the registry is created with on first use. */
  const InitialCapacity: nat := 4

  /**
   The hash set's contents. Probing and rehashing are not modelled: the
   entries are kept in insertion order and `capacity` is the one it was
   created with.
   */
  datatype FunctionSet = FunctionSet(capacity: nat, entries: seq<Ref>)

  /** `e` refers to a function equivalent to one whose key is `k`. */
  predicate Matches<K(==)>(objects: map<Ref, HeapObject>, e: Ref, key: Function -> K, k: K) {
    IsFunction(objects, e) && key(objects[e].func) == k
  }

  /** Some entry of `entries` is equivalent to a function whose key is `k`. */
  ghost predicate Contains<K>(objects: map<Ref, HeapObject>, entries: seq<Ref>, key: Function -> K, k: K) {
    exists i :: 0 <= i < |entries| && Matches(objects, entries[i], key, k)
  }

  /** The set's invariant: every entry is a function and no two entries are equivalent. */
  ghost predicate WellFormed<K>(objects: map<Ref, HeapObject>, s: FunctionSet, key: Function -> K) {
    && (forall i :: 0 <= i < |s.entries| ==> IsFunction(objects, s.entries[i]))
    && (forall i, j :: 0 <= i < j < |s.entries| ==>
          key(objects[s.entries[i]].func) != key(objects[s.entries[j]].func))
  }

  /** The position of the first entry equivalent to key `k`, if there is one. */
  function FindMatch<K(==)>(objects: map<Ref, HeapObject>, entries: seq<Ref>, key: Function -> K, k: K): (r: Option<nat>)
    ensures r.Some? ==> r.value < |entries| && Matches(objects, entries[r.value], key, k)
    ensures r.Some? ==> forall j :: 0 <= j < r.value ==> !Matches(objects, entries[j], key, k)
    ensures r.None? ==> forall j :: 0 <= j < |entries| ==> !Matches(objects, entries[j], key, k)
    decreases |entries|
  {
    if |entries| == 0 then None
    else if Matches(objects, entries[0], key, k) then Some(0)
    else
      match FindMatch(objects, entries[1..], key, k)
      case None => None
      case Some(i) => Some(i + 1)
  }

  datatype Insertion = Insertion(registry: FunctionSet, result: Ref)

  /**
   `InsertOrGet`: the entry equivalent to `f` if the set has one, with the set
   unchanged; otherwise `f` itself, appended to the set.
   */
  function InsertOrGet<K(==)>(objects: map<Ref, HeapObject>, s: FunctionSet, f: Ref, key: Function -> K): (ins: Insertion)
    requires IsFunction(objects, f)
    ensures ins.registry.capacity == s.capacity
    ensures Matches(objects, ins.result, key, key(objects[f].func))
    ensures ins.result in ins.registry.entries
    ensures Contains(objects, s.entries, key, key(objects[f].func)) ==>
              ins.registry == s && ins.result in s.entries
    ensures !Contains(objects, s.entries, key, key(objects[f].func)) ==>
              ins.result == f && ins.registry.entries == s.entries + [f]
  {
    match FindMatch(objects, s.entries, key, key(objects[f].func))
    case Some(i) => Insertion(s, s.entries[i])
    case None => Insertion(s.(entries := s.entries + [f]), f)
  }

  /** Inserting keeps the set free of equivalent duplicates and grows it by at most one entry. */
  lemma InsertOrGetPreservesWellFormed<K>(objects: map<Ref, HeapObject>, s: FunctionSet, f: Ref, key: Function -> K)
    requires IsFunction(objects, f) && WellFormed(objects, s, key)
    ensures WellFormed(objects, InsertOrGet(objects, s, f, key).registry, key)
    ensures |InsertOrGet(objects, s, f, key).registry.entries| <= |s.entries| + 1
  {
  }

  /**
   In a well-formed set an entry equivalent to `g` is the only one: looking up
   any function equivalent to an entry returns that entry and changes nothing.
   */
  lemma InsertOrGetReturnsEquivalentEntry<K>(objects: map<Ref, HeapObject>, s: FunctionSet, e: Ref, g: Ref, key: Function -> K)
    requires WellFormed(objects, s, key)
    requires e in s.entries && IsFunction(objects, g)
    requires key(objects[g].func) == key(objects[e].func)
    ensures InsertOrGet(objects, s, g, key) == Insertion(s, e)
  {
  }

}
