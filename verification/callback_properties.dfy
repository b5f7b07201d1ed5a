/**
 Properties of `NativeCallbackFunction` that relate several calls or hold of
 the registry across calls: the registry's invariant, insert-or-get
 idempotence, isolation of unregistered trampolines, lazy creation of the
 registry, and the independence of the Dart-facing signature from the C one.
 */
module CallbackProperties {
  import opened Results
  import opened Heap
  import opened CallbackSet
  import opened Callback

  /**
   What holds of the isolate group between calls: the heap is well formed,
   no two registered trampolines are equivalent, and each registered entry is
   a trampoline whose exceptional return may be referenced for ever.
   */
  ghost predicate RegistryInvariant<K>(st: State, key: Function -> K) {
    && st.Valid()
    && (st.store.ffiCallbackFunctions.Some? ==>
          WellFormed(st.memory.objects, st.store.ffiCallbackFunctions.value, key))
    && (forall i :: 0 <= i < |Registered(st)| ==> IsCallbackTrampoline(st.memory.objects, Registered(st)[i]))
  }

  /** Growing the heap never changes what an existing trampoline looks like. */
  lemma TrampolineStable(m: Memory, m': Memory, f: Ref)
    requires Extends(m, m') && IsCallbackTrampoline(m.objects, f)
    ensures IsCallbackTrampoline(m'.objects, f)
  {
  }

  /** Growing the heap keeps a set's entries and their keys. */
  lemma WellFormedStable<K>(m: Memory, m': Memory, s: FunctionSet, key: Function -> K)
    requires Extends(m, m') && WellFormed(m.objects, s, key)
    ensures WellFormed(m'.objects, s, key)
  {
  }

  /** Registering or not, every successful call keeps the registry invariant. */
  lemma NativeCallbackFunctionPreservesInvariant<K>(
    st: State, cSignature: FunctionType, dartTarget: Ref, exceptionalReturn: Ref,
    registerFunction: bool, key: Function -> K)
    requires RegistryInvariant(st, key)
    requires IsFunction(st.memory.objects, dartTarget)
    requires IsInstance(st.memory.objects, exceptionalReturn)
    ensures var r := NativeCallbackFunction(st, cSignature, dartTarget, exceptionalReturn, registerFunction, key);
            r.Success? ==> RegistryInvariant(r.value.state, key)
  {
    var r := NativeCallbackFunction(st, cSignature, dartTarget, exceptionalReturn, registerFunction, key);
    if r.Success? {
      var b := Synthesize(st, cSignature, dartTarget, exceptionalReturn);
      BuiltInvariant(st, b, key);
      if registerFunction {
        RegisterInvariant(b.state, b.fnRef, key);
      }
    }
  }

  /** The freshly built, not yet registered, state keeps the invariant. */
  lemma BuiltInvariant<K>(st: State, b: Built, key: Function -> K)
    requires RegistryInvariant(st, key)
    requires b.state.Valid() && Extends(st.memory, b.state.memory) && b.state.store == st.store
    ensures RegistryInvariant(b.state, key)
  {
    if st.store.ffiCallbackFunctions.Some? {
      WellFormedStable(st.memory, b.state.memory, st.store.ffiCallbackFunctions.value, key);
    }
    forall i | 0 <= i < |Registered(b.state)|
      ensures IsCallbackTrampoline(b.state.memory.objects, Registered(b.state)[i])
    {
      TrampolineStable(st.memory, b.state.memory, Registered(st)[i]);
    }
  }

  /** Registering a trampoline keeps the invariant. */
  lemma RegisterInvariant<K>(st: State, f: Ref, key: Function -> K)
    requires RegistryInvariant(st, key) && IsCallbackTrampoline(st.memory.objects, f)
    ensures RegistryInvariant(Register(st, f, key).state, key)
  {
  }

  /**
   Whatever function the call returns, fresh or found in the registry, is a
   trampoline with the degenerate Dart-facing signature and a long-lived
   exceptional return.
   */
  lemma ResultIsCallbackTrampoline<K>(
    st: State, cSignature: FunctionType, dartTarget: Ref, exceptionalReturn: Ref,
    registerFunction: bool, key: Function -> K)
    requires RegistryInvariant(st, key)
    requires IsFunction(st.memory.objects, dartTarget)
    requires IsInstance(st.memory.objects, exceptionalReturn)
    ensures var r := NativeCallbackFunction(st, cSignature, dartTarget, exceptionalReturn, registerFunction, key);
            r.Success? ==> IsCallbackTrampoline(r.value.state.memory.objects, r.value.fnRef)
  {
  }

  /**
   The Dart-facing signature does not depend on the C signature: two C
   signatures of any arities give trampolines that differ only in the C
   signature they carry.
   */
  lemma SignatureIndependentOfCSignature(
    st: State, c1: FunctionType, c2: FunctionType, dartTarget: Ref, exceptionalReturn: Ref)
    requires st.Valid()
    requires IsFunction(st.memory.objects, dartTarget)
    requires IsInstance(st.memory.objects, exceptionalReturn)
    ensures var b1 := Synthesize(st, c1, dartTarget, exceptionalReturn);
            var b2 := Synthesize(st, c2, dartTarget, exceptionalReturn);
            && b1.fnRef == b2.fnRef
            && b1.state.memory.objects[b1.fnRef].func.signature == b2.state.memory.objects[b2.fnRef].func.signature
            && b1.state.memory.objects[b1.fnRef].func.(ffiCSignature := Some(c2))
               == b2.state.memory.objects[b2.fnRef].func
  {
  }

  /**
   Without registration the store is untouched and the function returned is
   the fresh one, never a registered entry, even if an equivalent one exists.
   */
  lemma UnregisteredIsolation<K>(
    st: State, cSignature: FunctionType, dartTarget: Ref, exceptionalReturn: Ref, key: Function -> K)
    requires st.Valid()
    requires IsFunction(st.memory.objects, dartTarget)
    requires IsInstance(st.memory.objects, exceptionalReturn)
    requires Admissible(cSignature, st.memory.objects[exceptionalReturn].instance)
    ensures var r := NativeCallbackFunction(st, cSignature, dartTarget, exceptionalReturn, false, key);
            && r.Success?
            && r.value.state.store == st.store
            && r.value.fnRef !in Registered(st)
            && r.value == Synthesize(st, cSignature, dartTarget, exceptionalReturn)
  {
  }

  /** The first registration creates the registry with capacity 4 holding just the new trampoline. */
  lemma LazyRegistryCreation<K>(
    st: State, cSignature: FunctionType, dartTarget: Ref, exceptionalReturn: Ref, key: Function -> K)
    requires st.Valid() && st.store.ffiCallbackFunctions.None?
    requires IsFunction(st.memory.objects, dartTarget)
    requires IsInstance(st.memory.objects, exceptionalReturn)
    requires Admissible(cSignature, st.memory.objects[exceptionalReturn].instance)
    ensures var r := NativeCallbackFunction(st, cSignature, dartTarget, exceptionalReturn, true, key);
            && r.Success?
            && r.value.fnRef !in st.memory.objects
            && r.value.state.store == ObjectStore(Some(FunctionSet(4, [r.value.fnRef])))
  {
    var b := Synthesize(st, cSignature, dartTarget, exceptionalReturn);
    var ins := InsertOrGet(b.state.memory.objects, FunctionSet(InitialCapacity, []), b.fnRef, key);
    assert !Contains(b.state.memory.objects, [], key, key(b.state.memory.objects[b.fnRef].func));
    assert ins.registry.entries == [b.fnRef];
    assert ins.registry == FunctionSet(4, [b.fnRef]);
  }

  /**
   Registering a trampoline equivalent to a registered one returns the
   registered one and leaves the registry as it was.
   */
  lemma RegisterEquivalentReturnsExisting<K>(
    st: State, cSignature: FunctionType, dartTarget: Ref, exceptionalReturn: Ref,
    e: Ref, key: Function -> K)
    requires RegistryInvariant(st, key)
    requires IsFunction(st.memory.objects, dartTarget)
    requires IsInstance(st.memory.objects, exceptionalReturn)
    requires Admissible(cSignature, st.memory.objects[exceptionalReturn].instance)
    requires e in Registered(st)
    requires var b := Synthesize(st, cSignature, dartTarget, exceptionalReturn);
             key(b.state.memory.objects[b.fnRef].func) == key(st.memory.objects[e].func)
    ensures var r := NativeCallbackFunction(st, cSignature, dartTarget, exceptionalReturn, true, key);
            && r.Success?
            && r.value.fnRef == e
            && r.value.state.store == st.store
  {
  }

  /**
   Registering a trampoline that no registered entry is equivalent to returns
   the freshly built trampoline and appends it to the registry.
   */
  lemma RegisterNewAppends<K>(
    st: State, cSignature: FunctionType, dartTarget: Ref, exceptionalReturn: Ref, key: Function -> K)
    requires RegistryInvariant(st, key)
    requires IsFunction(st.memory.objects, dartTarget)
    requires IsInstance(st.memory.objects, exceptionalReturn)
    requires Admissible(cSignature, st.memory.objects[exceptionalReturn].instance)
    requires var b := Synthesize(st, cSignature, dartTarget, exceptionalReturn);
             forall i :: 0 <= i < |Registered(st)| ==>
               key(st.memory.objects[Registered(st)[i]].func) != key(b.state.memory.objects[b.fnRef].func)
    ensures var b := Synthesize(st, cSignature, dartTarget, exceptionalReturn);
            var r := NativeCallbackFunction(st, cSignature, dartTarget, exceptionalReturn, true, key);
            && r.Success?
            && r.value.fnRef == b.fnRef
            && r.value.fnRef !in st.memory.objects
            && Registered(r.value.state) == Registered(st) + [r.value.fnRef]
  {
  }

  /**
   Insert-or-get idempotence: registering the same callback twice, with an
   exceptional return that needs no copy, returns the identical function the
   second time and leaves the registry as the first call left it.
   */
  lemma RegisterTwiceReturnsSameFunction<K>(
    st: State, cSignature: FunctionType, dartTarget: Ref, exceptionalReturn: Ref, key: Function -> K)
    requires RegistryInvariant(st, key)
    requires IsFunction(st.memory.objects, dartTarget)
    requires IsInstance(st.memory.objects, exceptionalReturn)
    requires Admissible(cSignature, st.memory.objects[exceptionalReturn].instance)
    requires !NeedsCopy(st.memory.objects[exceptionalReturn].instance)
    ensures var r1 := NativeCallbackFunction(st, cSignature, dartTarget, exceptionalReturn, true, key);
            && r1.Success?
            && var st1 := r1.value.state;
            && IsFunction(st1.memory.objects, dartTarget)
            && IsInstance(st1.memory.objects, exceptionalReturn)
            && var r2 := NativeCallbackFunction(st1, cSignature, dartTarget, exceptionalReturn, true, key);
            && r2.Success?
            && r2.value.fnRef == r1.value.fnRef
            && r2.value.state.store == st1.store
  {
  }

  /**
   Two targets with the same name give trampolines with the same name; names
   are not required to be unique and do not make the trampolines the same.
   */
  lemma NamesNeedNotBeUnique(
    st: State, cSignature: FunctionType, t1: Ref, t2: Ref, exceptionalReturn: Ref)
    requires st.Valid()
    requires IsFunction(st.memory.objects, t1) && IsFunction(st.memory.objects, t2) && t1 != t2
    requires st.memory.objects[t1].func.name == st.memory.objects[t2].func.name
    requires IsInstance(st.memory.objects, exceptionalReturn)
    ensures var b1 := Synthesize(st, cSignature, t1, exceptionalReturn);
            var b2 := Synthesize(st, cSignature, t2, exceptionalReturn);
            && b1.state.memory.objects[b1.fnRef].func.name == b2.state.memory.objects[b2.fnRef].func.name
            && b1.state.memory.objects[b1.fnRef].func != b2.state.memory.objects[b2.fnRef].func
  {
  }

  /**
   A shared name never merges trampolines for different targets: under any
   registry equality that tells
   different targets apart (a key pairing the target with anything else),
   registering callbacks for two same-named targets one after the other
   leaves two distinct registered trampolines, one per target.
   */
  lemma SameNamedTargetsStayApart<K>(
    st: State, cSignature: FunctionType, t1: Ref, t2: Ref, exceptionalReturn: Ref, rest: Function -> K)
    requires RegistryInvariant(st, (fn: Function) => (fn.ffiCallbackTarget, rest(fn)))
    requires IsFunction(st.memory.objects, t1) && IsFunction(st.memory.objects, t2) && t1 != t2
    requires st.memory.objects[t1].func.name == st.memory.objects[t2].func.name
    requires IsInstance(st.memory.objects, exceptionalReturn)
    requires Admissible(cSignature, st.memory.objects[exceptionalReturn].instance)
    ensures var key := (fn: Function) => (fn.ffiCallbackTarget, rest(fn));
            var r1 := NativeCallbackFunction(st, cSignature, t1, exceptionalReturn, true, key);
            && r1.Success?
            && var st1 := r1.value.state;
            && IsFunction(st1.memory.objects, t2)
            && IsInstance(st1.memory.objects, exceptionalReturn)
            && var r2 := NativeCallbackFunction(st1, cSignature, t2, exceptionalReturn, true, key);
            && r2.Success?
            && var st2 := r2.value.state;
            && r1.value.fnRef != r2.value.fnRef
            && r1.value.fnRef in Registered(st2) && r2.value.fnRef in Registered(st2)
            && st2.memory.objects[r1.value.fnRef].func.ffiCallbackTarget == Some(t1)
            && st2.memory.objects[r2.value.fnRef].func.ffiCallbackTarget == Some(t2)
  {
  }

  /** Placement is idempotent: the attached value never needs another copy. */
  lemma PlacementStable(m: Memory, exceptionalReturn: Ref)
    requires m.Valid() && IsInstance(m.objects, exceptionalReturn)
    ensures var p := PlaceExceptionalReturn(m, exceptionalReturn);
            PlaceExceptionalReturn(p.memory, p.attached) == p
  {
  }

  /**
   Idempotence depends on the set's equality when the exceptional return had
   to be copied: each call attaches a fresh copy, so under an equality that
   compares every field of the records, including the exceptional return's
   reference, a second registration adds a second trampoline.
   */
  lemma RegisterTwiceWithCopyAddsSecondEntry(
    st: State, cSignature: FunctionType, dartTarget: Ref, exceptionalReturn: Ref)
    requires RegistryInvariant(st, (fn: Function) => fn)
    requires IsFunction(st.memory.objects, dartTarget)
    requires IsInstance(st.memory.objects, exceptionalReturn)
    requires Admissible(cSignature, st.memory.objects[exceptionalReturn].instance)
    requires NeedsCopy(st.memory.objects[exceptionalReturn].instance)
    ensures var key := (fn: Function) => fn;
            var r1 := NativeCallbackFunction(st, cSignature, dartTarget, exceptionalReturn, true, key);
            && r1.Success?
            && var st1 := r1.value.state;
            && IsFunction(st1.memory.objects, dartTarget)
            && IsInstance(st1.memory.objects, exceptionalReturn)
            && var r2 := NativeCallbackFunction(st1, cSignature, dartTarget, exceptionalReturn, true, key);
            && r2.Success?
            && r2.value.fnRef != r1.value.fnRef
            && Registered(r2.value.state) == Registered(st1) + [r2.value.fnRef]
  {
  }

  /**
   Registering the callback `int32_t(int32_t)` for a Dart function `add`, with
   `null` as exceptional return, twice from a fresh isolate group: both calls
   return the same trampoline, the registry holds exactly that one entry, and
   its Dart-facing signature takes nothing and returns `dynamic`.
   */
  lemma AddCallbackRegisteredTwice<K>(key: Function -> K)
    ensures var add := Function("add", RegularFunction, FunctionType([], [Named("int")], Named("int"), true),
                                TopLevelClass("main"), true, false, false, false, false, true, None, None, None);
            var st := State(Memory(map[0 := FunctionObject(add), 1 := InstanceObject(Instance(Null, OldSpace, true))], 2),
                            ObjectStore(None));
            var cSignature := FunctionType([], [Named("Int32")], Named("Int32"), true);
            var r1 := NativeCallbackFunction(st, cSignature, 0, 1, true, key);
            && r1.Success?
            && var r2 := NativeCallbackFunction(r1.value.state, cSignature, 0, 1, true, key);
            && r2.Success?
            && r2.value.fnRef == r1.value.fnRef
            && Registered(r2.value.state) == [r1.value.fnRef]
            && IsDegenerateSignature(r2.value.state.memory.objects[r2.value.fnRef].func.signature)
  {
  }
}
