# FFI callback trampolines of the Dart VM, in Dafny

This project models `NativeCallbackFunction` from the Dart VM's FFI compiler
support. The function builds the `Function` object of kind `FfiTrampoline`
that native code calls to enter a Dart function. When asked, it also interns
that object in the isolate group's set of FFI callback functions. The model
is a pure state transition:

    (state, cSignature, dartTarget, exceptionalReturn, registerFunction) -> state', function

- `State` holds the heap and the object store. The heap (`Heap.Memory`) is a map from references to records plus a bump allocator. A record is either an instance (kind, generation, canonical bit) or a `Function`. The object store holds the optional registry.
- Each debug assertion becomes a `Failure` carrying the broken assertion. A failure produces no function and no new state.

## Modules

- `results.dfy` (`Results`): `Option` and `Result`.
- `heap.dfy` (`Heap`): instances, their generation and canonical bit, and function types. It also has the `Function` record, allocation, the shallow copy to old space and the type finalizer. The last two are treated as collaborators and given only the contract the call site relies on.
- `callback_set.dfy` (`CallbackSet`): the registry as a hash set with insert-or-get. The set's equality is defined in a header this model does not include. It is modelled as an arbitrary equivalence on function records. That equivalence is given as the kernel of a key function `key: Function -> K`: two records are equivalent exactly when their keys are equal. The key sees only the record itself, so any equivalence on records can be expressed, but one that compares the objects a record refers to by content cannot.
- `callback.dfy` (`Callback`): the argument checks, the placement of the exceptional return, trampoline construction, registration and `NativeCallbackFunction` itself.
- `callback_properties.dfy` (`CallbackProperties`): the registry invariant and the lemmas that relate several calls.

Where the code and its comments disagree, the model follows the code:

- The comment at `callback.cc:28` names the trampoline `'<target>_FfiCallback'`.
- The code concatenates the `FfiCallback` symbol first and the target's name second, so `Callback.TrampolineName` puts the symbol first.

Insert-or-get returns the identical trampoline on a repeated registration only when the second trampoline is equivalent to the first. That always holds when the exceptional return needs no copy (`RegisterTwiceReturnsSameFunction`). When the exceptional return is a boxed new-space value, each call attaches its own fresh old-space copy. Under an equality that compares the exceptional return by reference, a second registration therefore adds a second entry (`RegisterTwiceWithCopyAddsSecondEntry`). Which case the VM is in depends on the set's equality, which this model does not include.

## Model

| member | source | states |
|---|---|---|
| `Callback.CheckArguments` | runtime/vm/compiler/ffi/callback.cc:25-26 | The call is defined exactly when the C signature is canonical, the exceptional return is a Smi or canonical, and it is null, a number or a bool (the last check is the assertion at lines 58-59). The first broken assertion is reported, in source order. |
| `Callback.NativeCallbackFunction` | runtime/vm/compiler/ffi/callback.cc:18-90 | Fails exactly on inadmissible arguments. On success the heap only grows and the result is a function. Without registration, the object store is untouched and the result is a fresh object. With registration, the result is a registry entry and the registry is unchanged or has gained exactly that entry. |
| `Heap.Allocate` | runtime/vm/compiler/ffi/callback.cc:37-43 | `Function::New` places the new object at a reference no existing object uses and keeps every existing object. |
| `Heap.CopyShallowToOldSpace` | runtime/vm/compiler/ffi/callback.cc:60-62 | The copy is a fresh object, distinct from the original, in old space and with the same content. |
| `Heap.FinalizeType` | runtime/vm/compiler/ffi/callback.cc:73-74 | Finalizing a function type yields a canonical type of the same shape. |
| `Callback.PlaceExceptionalReturn` | runtime/vm/compiler/ffi/callback.cc:51-65 | A non-Smi new-space value is replaced by a fresh old-space object with the same content. Any other value is attached as is, and nothing is allocated. Either way the attached value is a Smi or lives in old space. |
| `CallbackProperties.PlacementStable` | runtime/vm/compiler/ffi/callback.cc:60-65 | Placing an already placed value again copies nothing: the rule is idempotent. |
| `Callback.Synthesize` | runtime/vm/compiler/ffi/callback.cc:28-75 | The new trampoline is named by the `FfiCallback` symbol followed by the target's name. It is of kind `FfiTrampoline`, static and not const, abstract, external or native. It is owned by the top-level class of `dart:ffi` and is not debuggable. It carries the C signature and the target unchanged, and the placed exceptional return. Its Dart signature has no type parameters, no parameters and a `dynamic` result, and is canonical. The object store is not touched. |
| `CallbackProperties.SignatureIndependentOfCSignature` | runtime/vm/compiler/ffi/callback.cc:67-75 | The Dart-facing signature is the same whatever the C signature and its arity. Two C signatures give trampolines that differ only in the C signature they carry. |
| `CallbackProperties.NamesNeedNotBeUnique` | runtime/vm/compiler/ffi/callback.cc:28-33 | Two distinct targets with the same name give trampolines with equal names that are still different functions. |
| `CallbackProperties.SameNamedTargetsStayApart` | runtime/vm/compiler/ffi/callback.cc:28-33 | A shared name never merges trampolines for different targets. Under any registry equality that tells targets apart, registering callbacks for two distinct same-named targets one after the other leaves two distinct registered trampolines, each carrying its own target. |
| `CallbackSet.FindMatch` | runtime/vm/compiler/ffi/callback.cc:85 | The lookup inside `InsertOrGet` finds the first entry equivalent to the key, or reports that no entry is equivalent. |
| `CallbackSet.InsertOrGet` | runtime/vm/compiler/ffi/callback.cc:84-86 | If an equivalent entry exists, it is returned and the set is unchanged. Otherwise the new function is appended and returned. The result is always equivalent to the function offered. |
| `CallbackSet.InsertOrGetPreservesWellFormed` | runtime/vm/compiler/ffi/callback.cc:84-86 | Insert-or-get keeps at most one entry per equivalence class and grows the set by at most one entry. |
| `CallbackSet.InsertOrGetReturnsEquivalentEntry` | runtime/vm/compiler/ffi/callback.cc:85 | In a set with no duplicates, offering a function equivalent to an entry returns that very entry and changes nothing. |
| `Callback.Register` | runtime/vm/compiler/ffi/callback.cc:77-87 | A missing registry is created with capacity 4. The modelled heap is untouched. The result is an entry equivalent to the offered function: the existing one if there is one, otherwise the offered function, which is then appended. |
| `CallbackProperties.LazyRegistryCreation` | runtime/vm/compiler/ffi/callback.cc:78-83 | The first registration in an isolate group leaves a registry of capacity 4 that holds only the new trampoline. |
| `CallbackProperties.RegisterInvariant` | runtime/vm/compiler/ffi/callback.cc:77-87 | Registering a trampoline keeps the registry invariant: no two entries are equivalent, and every entry is a trampoline with a long-lived exceptional return. |
| `CallbackProperties.NativeCallbackFunctionPreservesInvariant` | runtime/vm/compiler/ffi/callback.cc:51-87 | Every successful call, registering or not, keeps the registry invariant. |
| `CallbackProperties.ResultIsCallbackTrampoline` | runtime/vm/compiler/ffi/callback.cc:28-89 | The function returned, fresh or found in the registry, is a trampoline with the degenerate signature and an exceptional return that is a Smi or lives in old space. |
| `CallbackProperties.UnregisteredIsolation` | runtime/vm/compiler/ffi/callback.cc:77-89 | With `registerFunction` false, the call succeeds on admissible arguments and leaves the object store untouched. It returns the freshly built trampoline, never a registered entry, even when an equivalent one is registered. |
| `CallbackProperties.RegisterEquivalentReturnsExisting` | runtime/vm/compiler/ffi/callback.cc:84-86 | Registering a trampoline equivalent to a registered one returns the registered one and leaves the registry as it was. |
| `CallbackProperties.RegisterNewAppends` | runtime/vm/compiler/ffi/callback.cc:84-86 | Registering a trampoline that no registered entry is equivalent to returns the freshly built trampoline, a new object, and the registry gains exactly that entry at its end. |
| `CallbackProperties.RegisterTwiceReturnsSameFunction` | runtime/vm/compiler/ffi/callback.cc:77-89 | Registering the same callback twice returns the identical function the second time and leaves the registry unchanged, when the exceptional return needs no copy. |
| `CallbackProperties.RegisterTwiceWithCopyAddsSecondEntry` | runtime/vm/compiler/ffi/callback.cc:60-86 | Under an equality that compares every field, a new-space boxed exceptional return is copied afresh on each call. A second registration then adds a second, distinct trampoline. |
| `CallbackProperties.AddCallbackRegisteredTwice` | runtime/vm/compiler/ffi/callback.cc:18-89 | Registering `int32_t(int32_t)` for a Dart function `add`, with `null` as exceptional return, twice in a fresh isolate group returns the same trampoline both times. The registry then holds exactly that entry, and the trampoline's Dart signature takes nothing and returns `dynamic`. |

## Left out

- Thread and zone handle management: handles are plain references here.
- The garbage collector: objects never move and are never reclaimed. A generation is only a tag on an instance record, and write barriers are not modelled.
- Locking and concurrent access to the object store: the function takes no lock, and the model is sequential.
- Code generation for the trampoline body, and invocation through the callback at run time.
- The Emscripten test module `tests/web/wasm/ffi_native_test_module.c`: it is a native fixture called across the FFI boundary, not VM logic.
- Release builds: `ASSERT` is compiled out there, and inadmissible arguments then run on unchecked. The model treats every broken assertion as a failure with no effect.
- The text of `Symbols::FfiCallback()`: `symbols.h` is not part of this model. `Callback.FfiCallbackSymbol` is `"_FfiCallback"`, and the properties only use the fact that it is a fixed prefix.
- `TokenPosition::kNoSource` and the default header fields that `Function::New` sets and nothing here reads.
- Floating point and integer width: Mint and Double are merged into one `Number` kind whose content is an unbounded integer payload. Nothing computes on it; it only lets a copy be compared with its original.
- A Smi is an immediate value without a heap object. The model gives it a record whose space tag is arbitrary, and the copy rule never reads that tag for a Smi.
- CallbackSet.InsertOrGet: hash probing and growth/rehash are not modelled. Entries are kept in insertion order, and `capacity` stays the one the set was created with.
- CallbackSet.InsertOrGet: the set's equality (`FfiCallbackFunctionSet` traits) is an arbitrary equivalence given by a key function. Its fields are not modelled.
- CallbackSet.InsertOrGet: the equivalence depends only on the trampoline record. Referenced objects, the target and the exceptional return, count as equal only when they are the same reference. An equality that compares them by content, such as two old-space copies of the same boxed number, is not expressible.
- Callback.Register: the registry's backing array lives outside the modelled heap. Its allocation by `HashTables::New` (callback.cc:80-81) and its reallocation when `InsertOrGet` grows the table (callback.cc:85-86) are not modelled. Registration therefore leaves the modelled heap untouched, and the stored capacity is the one the registry was created with.
- Heap.FinalizeType: the result has the same shape and is canonical. Sharing one object per canonical type is not modelled, because function types are values here.
- Heap.CopyShallowToOldSpace: only the content (`ValueKind`) and the generation of the copy are stated. The copy's canonical bit is cleared, as in a freshly allocated header, and no property depends on it.
