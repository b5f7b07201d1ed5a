/**
 The slice of the Dart VM object model that the FFI callback construction
 touches: instances with a generation tag and a canonical bit, function types,
 `Function` metadata objects, and a bump allocator over a map from references
 to heap records.
 */
module Heap {
  import opened Results

  /** An object pointer. */
  type Ref = nat

  /** The generation an object lives in. */
  datatype Space = NewSpace | OldSpace

  /**
   What an instance is, as far as the exceptional-return checks can tell.
   A `Smi` is an immediate small integer; `Number` is a boxed number (Mint or
   Double) whose content is abstracted as an integer payload; `Other` is any
   other instance (a pointer, a string, a list, ...).
   */
  datatype ValueKind =
    | Smi(smiValue: int)
    | Null
    | Number(payload: int)
    | Bool(boolValue: bool)
    | Other(classId: nat)

  /**
   An instance record. `kind` is its content. For a Smi the space tag stands
   for whatever the VM's generation query reads off the tagged word; the model
   never relies on it.
   */
  datatype Instance = Instance(kind: ValueKind, space: Space, canonical: bool) {
    predicate IsSmi() { kind.Smi? }
    predicate IsNull() { kind.Null? }
    /** Smis are numbers too: Smi, Mint and Double all extend Number. */
    predicate IsNumber() { kind.Smi? || kind.Number? }
    predicate IsBool() { kind.Bool? }
    predicate IsNew() { space == NewSpace }
    predicate IsCanonical() { canonical }
  }

  /** A Dart type as far as function signatures need one. */
  datatype TypeDesc = Unset | Dynamic | Named(typeName: string)

  /** A function type: type parameters, parameter types, result type. */
  datatype FunctionType = FunctionType(
    typeParameters: seq<string>,
    parameterTypes: seq<TypeDesc>,
    resultType: TypeDesc,
    canonical: bool)

  /** The subset of the VM's function kinds this model distinguishes. */
  datatype FunctionKind = RegularFunction | FfiTrampoline

  /** A class, identified by the library whose top-level class it is. */
  datatype ClassRef = TopLevelClass(libraryUrl: string)

  /** A VM `Function` metadata object. The `ffi...` fields are unset (None) until a setter fills them. */
  datatype Function = Function(
    name: string,
    kind: FunctionKind,
    signature: FunctionType,
    owner: ClassRef,
    isStatic: bool,
    isConst: bool,
    isAbstract: bool,
    isExternal: bool,
    isNative: bool,
    isDebuggable: bool,
    ffiCSignature: Option<FunctionType>,
    ffiCallbackTarget: Option<Ref>,
    ffiExceptionalReturn: Option<Ref>)

  datatype HeapObject = InstanceObject(instance: Instance) | FunctionObject(func: Function)

  /** The heap: records by reference, and the next unused reference. */
  datatype Memory = Memory(objects: map<Ref, HeapObject>, next: Ref) {
    ghost predicate Valid() {
      forall r :: r in objects ==> r < next
    }
  }

  predicate IsInstance(objects: map<Ref, HeapObject>, r: Ref) {
    r in objects && objects[r].InstanceObject?
  }

  predicate IsFunction(objects: map<Ref, HeapObject>, r: Ref) {
    r in objects && objects[r].FunctionObject?
  }

  /** `m'` keeps every record of `m` at the same reference with the same content. */
  ghost predicate Extends(m: Memory, m': Memory) {
    forall r :: r in m.objects ==> r in m'.objects && m'.objects[r] == m.objects[r]
  }

  /**
   A value that may be referenced from metadata of unbounded lifetime: a Smi
   (no backing object) or an instance in old space.
   */
  predicate LongLived(objects: map<Ref, HeapObject>, r: Ref) {
    IsInstance(objects, r) && (objects[r].instance.IsSmi() || !objects[r].instance.IsNew())
  }

  datatype Allocation = Allocation(memory: Memory, ref: Ref)

  /** Places `o` at a reference that no existing object uses. */
  function Allocate(m: Memory, o: HeapObject): (a: Allocation)
    requires m.Valid()
    ensures a.memory.Valid()
    ensures a.ref !in m.objects
    ensures Extends(m, a.memory)
    ensures a.memory.objects.Keys == m.objects.Keys + {a.ref}
    ensures a.ref in a.memory.objects && a.memory.objects[a.ref] == o
  {
    Allocation(Memory(m.objects[m.next := o], m.next + 1), m.next)
  }

  /**
   The VM's shallow copy of an instance into old space: a freshly allocated
   object with the same content; its header is new, so it is not canonical.
   */
  function CopyShallowToOldSpace(m: Memory, x: Ref): (a: Allocation)
    requires m.Valid() && IsInstance(m.objects, x)
    ensures a.memory.Valid() && Extends(m, a.memory)
    ensures a.ref !in m.objects && a.ref != x
    ensures a.memory.objects.Keys == m.objects.Keys + {a.ref}
    ensures IsInstance(a.memory.objects, a.ref)
    ensures a.memory.objects[a.ref].instance.kind == m.objects[x].instance.kind
    ensures a.memory.objects[a.ref].instance.space == OldSpace
  {
    var source := m.objects[x].instance;
    Allocate(m, InstanceObject(Instance(source.kind, OldSpace, false)))
  }

  /** `Function::New`: a function with the given header and no FFI fields set yet. */
  function NewFunction(signature: FunctionType, name: string, kind: FunctionKind,
                       isStatic: bool, isConst: bool, isAbstract: bool,
                       isExternal: bool, isNative: bool, owner: ClassRef): Function
  {
    Function(name, kind, signature, owner, isStatic, isConst, isAbstract, isExternal,
             isNative, true, None, None, None)
  }

  /** `FunctionType::New()`: no type parameters, no parameters, result not yet set. */
  const EmptyFunctionType: FunctionType := FunctionType([], [], Unset, false)

  /**
   The class finalizer applied to a function type: the result is the
   canonical instance of the same shape.
   */
  function FinalizeType(t: FunctionType): (r: FunctionType)
    ensures r.canonical
    ensures r.typeParameters == t.typeParameters
    ensures r.parameterTypes == t.parameterTypes
    ensures r.resultType == t.resultType
  {
    t.(canonical := true)
  }
}
