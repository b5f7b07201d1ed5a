/**
 `NativeCallbackFunction`: builds the `Function` object of kind
 `FfiTrampoline` that native code calls back into Dart through, and, when
 asked, interns it in the isolate group's set of FFI callback functions.

 The operation is a pure transition on the VM state: the heap and the object
 store go in, the new state and the returned function's reference come out.
 A broken debug assertion is a `Failure` that produces no function and no new
 state.
 */
module Callback {
  import opened Results
  import opened Heap
  import opened CallbackSet

  /** The `FfiCallback` symbol that prefixes every trampoline's name. */
  const FfiCallbackSymbol: string := "_FfiCallback"

  /** The top-level class of `dart:ffi`, which owns every trampoline. */
  const FfiTopLevelClass: ClassRef := TopLevelClass("dart:ffi")

  /** The isolate group's object store, reduced to the field this operation uses. */
  datatype ObjectStore = ObjectStore(ffiCallbackFunctions: Option<FunctionSet>)

  datatype State = State(memory: Memory, store: ObjectStore) {
    /** The heap is well formed and every registry entry refers to a function. */
    ghost predicate Valid() {
      && memory.Valid()
      && (store.ffiCallbackFunctions.Some? ==>
            forall i :: 0 <= i < |store.ffiCallbackFunctions.value.entries| ==>
              IsFunction(memory.objects, store.ffiCallbackFunctions.value.entries[i]))
    }
  }

  /** The entries of the registry; none before it is created. */
  function Registered(st: State): seq<Ref> {
    if st.store.ffiCallbackFunctions.Some? then st.store.ffiCallbackFunctions.value.entries else []
  }

  /** The debug assertions of the operation, in the order it makes them. */
  datatype Violation =
    | CSignatureNotCanonical
    | ExceptionalReturnNotCanonical
    | ExceptionalReturnNotNullNumberOrBool

  /** The inputs the operation is defined on. */
  predicate Admissible(cSignature: FunctionType, exceptionalReturn: Instance) {
    && cSignature.canonical
    && (exceptionalReturn.IsSmi() || exceptionalReturn.IsCanonical())
    && (exceptionalReturn.IsNull() || exceptionalReturn.IsNumber() || exceptionalReturn.IsBool())
  }

  /** The first debug assertion the arguments break, if any. */
  function CheckArguments(cSignature: FunctionType, exceptionalReturn: Instance): (v: Option<Violation>)
    ensures v.None? <==> Admissible(cSignature, exceptionalReturn)
    ensures v == Some(CSignatureNotCanonical) <==> !cSignature.canonical
    ensures v == Some(ExceptionalReturnNotCanonical) <==>
              cSignature.canonical && !exceptionalReturn.IsSmi() && !exceptionalReturn.IsCanonical()
  {
    if !cSignature.canonical then Some(CSignatureNotCanonical)
    else if !(exceptionalReturn.IsSmi() || exceptionalReturn.IsCanonical()) then Some(ExceptionalReturnNotCanonical)
    else if !(exceptionalReturn.IsNull() || exceptionalReturn.IsNumber() || exceptionalReturn.IsBool()) then
      Some(ExceptionalReturnNotNullNumberOrBool)
    else None
  }

  /** A boxed value still in new space must be copied before metadata may refer to it. */
  predicate NeedsCopy(e: Instance) {
    !e.IsSmi() && e.IsNew()
  }

  datatype Placement = Placement(memory: Memory, attached: Ref)

  /**
   Chooses the exceptional-return value to attach to the trampoline: a copy in
   old space of a boxed new-space value, otherwise the value itself.
   */
  function PlaceExceptionalReturn(m: Memory, exceptionalReturn: Ref): (p: Placement)
    requires m.Valid() && IsInstance(m.objects, exceptionalReturn)
    ensures p.memory.Valid() && Extends(m, p.memory)
    ensures LongLived(p.memory.objects, p.attached)
    ensures NeedsCopy(m.objects[exceptionalReturn].instance) ==>
              && p.attached !in m.objects
              && p.memory.objects.Keys == m.objects.Keys + {p.attached}
              && p.memory.objects[p.attached].instance.kind == m.objects[exceptionalReturn].instance.kind
              && p.memory.objects[p.attached].instance.space == OldSpace
    ensures !NeedsCopy(m.objects[exceptionalReturn].instance) ==>
              p.attached == exceptionalReturn && p.memory == m
  {
    if NeedsCopy(m.objects[exceptionalReturn].instance) then
      var copy := CopyShallowToOldSpace(m, exceptionalReturn);
      Placement(copy.memory, copy.ref)
    else
      Placement(m, exceptionalReturn)
  }

  /** The Dart-facing signature of every trampoline: nothing in, `dynamic` out, canonical. */
  predicate IsDegenerateSignature(t: FunctionType) {
    t.typeParameters == [] && t.parameterTypes == [] && t.resultType == Dynamic && t.canonical
  }

  /** The name of a trampoline whose target is called `targetName`. */
  function TrampolineName(targetName: string): string {
    FfiCallbackSymbol + targetName
  }

  /**
   What every trampoline looks like: an `FfiTrampoline`, static and nothing
   else, owned by `dart:ffi`, hidden from the debugger, with the degenerate
   signature, a canonical C signature, a target, and a long-lived exceptional
   return.
   */
  ghost predicate IsCallbackTrampoline(objects: map<Ref, HeapObject>, f: Ref) {
    && IsFunction(objects, f)
    && var fn := objects[f].func;
    && fn.kind == FfiTrampoline
    && fn.isStatic && !fn.isConst && !fn.isAbstract && !fn.isExternal && !fn.isNative
    && fn.owner == FfiTopLevelClass
    && !fn.isDebuggable
    && IsDegenerateSignature(fn.signature)
    && fn.ffiCSignature.Some? && fn.ffiCSignature.value.canonical
    && fn.ffiCallbackTarget.Some?
    && fn.ffiExceptionalReturn.Some? && LongLived(objects, fn.ffiExceptionalReturn.value)
  }

  datatype Built = Built(state: State, fnRef: Ref)

  /**
   Creates and fills in the trampoline, without registering it. `Function::New`
   allocates the function before the exceptional return is copied, so the
   function's reference is the one allocated first.
   */
  function Synthesize(st: State, cSignature: FunctionType, dartTarget: Ref, exceptionalReturn: Ref): (b: Built)
    requires st.Valid()
    requires IsFunction(st.memory.objects, dartTarget)
    requires IsInstance(st.memory.objects, exceptionalReturn)
    ensures b.state.Valid() && Extends(st.memory, b.state.memory)
    ensures b.state.store == st.store
    ensures b.fnRef !in st.memory.objects && IsFunction(b.state.memory.objects, b.fnRef)
    ensures var fn := b.state.memory.objects[b.fnRef].func;
      && fn.name == TrampolineName(st.memory.objects[dartTarget].func.name)
      && fn.kind == FfiTrampoline
      && fn.isStatic && !fn.isConst && !fn.isAbstract && !fn.isExternal && !fn.isNative
      && fn.owner == FfiTopLevelClass
      && !fn.isDebuggable
      && fn.ffiCSignature == Some(cSignature)
      && fn.ffiCallbackTarget == Some(dartTarget)
      && IsDegenerateSignature(fn.signature)
      && fn.ffiExceptionalReturn.Some?
      && LongLived(b.state.memory.objects, fn.ffiExceptionalReturn.value)
      && (NeedsCopy(st.memory.objects[exceptionalReturn].instance) ==>
            && fn.ffiExceptionalReturn.value !in st.memory.objects
            && b.state.memory.objects[fn.ffiExceptionalReturn.value].instance.kind
               == st.memory.objects[exceptionalReturn].instance.kind
            && b.state.memory.objects[fn.ffiExceptionalReturn.value].instance.space == OldSpace)
      && (!NeedsCopy(st.memory.objects[exceptionalReturn].instance) ==>
            fn.ffiExceptionalReturn == Some(exceptionalReturn))
  {
    var name := TrampolineName(st.memory.objects[dartTarget].func.name);
    var signature := EmptyFunctionType;
    var fn0 := NewFunction(signature, name, FfiTrampoline, true, false, false, false, false, FfiTopLevelClass);
    var a := Allocate(st.memory, FunctionObject(fn0));
    var fn1 := fn0.(isDebuggable := false, ffiCSignature := Some(cSignature), ffiCallbackTarget := Some(dartTarget));
    var p := PlaceExceptionalReturn(a.memory, exceptionalReturn);
    var fn2 := fn1.(ffiExceptionalReturn := Some(p.attached));
    var finalized := FinalizeType(signature.(resultType := Dynamic));
    var fn3 := fn2.(signature := finalized);
    var m := Memory(p.memory.objects[a.ref := FunctionObject(fn3)], p.memory.next);
    assert Extends(st.memory, m) by {
      forall r | r in st.memory.objects
        ensures r in m.objects && m.objects[r] == st.memory.objects[r]
      {
        assert r != a.ref;
      }
    }
    Built(State(m, st.store), a.ref)
  }

  /**
   Registers `f` in the isolate group's set, creating the set on first use,
   and returns the set's canonical entry for it. The set's backing storage is
   not part of the modelled heap, so neither its creation nor its growth
   allocates there.
   */
  function Register<K(==)>(st: State, f: Ref, key: Function -> K): (b: Built)
    requires st.Valid() && IsFunction(st.memory.objects, f)
    ensures b.state.memory == st.memory && b.state.Valid()
    ensures b.state.store.ffiCallbackFunctions.Some?
    ensures st.store.ffiCallbackFunctions.None? ==>
              b.state.store.ffiCallbackFunctions.value.capacity == InitialCapacity
    ensures st.store.ffiCallbackFunctions.Some? ==>
              b.state.store.ffiCallbackFunctions.value.capacity == st.store.ffiCallbackFunctions.value.capacity
    ensures b.fnRef in Registered(b.state)
    ensures Matches(st.memory.objects, b.fnRef, key, key(st.memory.objects[f].func))
    ensures Contains(st.memory.objects, Registered(st), key, key(st.memory.objects[f].func)) ==>
              Registered(b.state) == Registered(st) && b.fnRef in Registered(st)
    ensures !Contains(st.memory.objects, Registered(st), key, key(st.memory.objects[f].func)) ==>
              Registered(b.state) == Registered(st) + [f] && b.fnRef == f
  {
    var functions := if st.store.ffiCallbackFunctions.None? then FunctionSet(InitialCapacity, [])
               else st.store.ffiCallbackFunctions.value;
    var ins := InsertOrGet(st.memory.objects, functions, f, key);
    Built(State(st.memory, ObjectStore(Some(ins.registry))), ins.result)
  }

  /**
   The whole operation. `key` stands for the registry's equality: two
   trampolines are interchangeable when `key` maps them to the same value.
   */
  function NativeCallbackFunction<K(==)>(st: State, cSignature: FunctionType, dartTarget: Ref,
                                         exceptionalReturn: Ref, registerFunction: bool,
                                         key: Function -> K): (r: Result<Built, Violation>)
    requires st.Valid()
    requires IsFunction(st.memory.objects, dartTarget)
    requires IsInstance(st.memory.objects, exceptionalReturn)
    ensures r.Failure? <==> !Admissible(cSignature, st.memory.objects[exceptionalReturn].instance)
    ensures r.Success? ==>
              && r.value.state.Valid()
              && Extends(st.memory, r.value.state.memory)
              && IsFunction(r.value.state.memory.objects, r.value.fnRef)
    ensures r.Success? && !registerFunction ==>
              && r.value.state.store == st.store
              && r.value.fnRef !in st.memory.objects
    ensures r.Success? && registerFunction ==>
              && r.value.fnRef in Registered(r.value.state)
              && (Registered(r.value.state) == Registered(st)
                  || Registered(r.value.state) == Registered(st) + [r.value.fnRef])
  {
    var guard := CheckArguments(cSignature, st.memory.objects[exceptionalReturn].instance);
    if guard.Some? then
      Failure(guard.value)
    else
      var built := Synthesize(st, cSignature, dartTarget, exceptionalReturn);
      if registerFunction then
        Success(Register(built.state, built.fnRef, key))
      else
        Success(built)
  }
}
