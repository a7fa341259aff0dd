# InstanceManager: keyed instance registry and constructor resolution

A Dafny model of `InstanceManager<K, I>`, a registry that stores at most one
instance per (outer key, instance id) pair. It creates each instance lazily,
on the first `getInstance` call for its pair, by reflectively finding and
invoking a constructor of the declared instance class that fits the given
arguments.

The model has two parts:

- **Registry** (`InstanceManager` module, `registry.dfy`). The state is the
  source's two-level map `K -> (int -> I)`, held as an immutable
  `map<K, map<Int32, I>>`. Each public operation is one atomic step. It maps
  a registry value to a new registry value plus an outcome, which is
  `Success` or `Failure(Error)` (the `Step` datatype). Java's `null` key or
  parameter array becomes `None` of an `Option`. Instance ids are Java
  `int`s, modelled by the `Int32` newtype. Every operation is specified
  against `Entries`, an independent flat map keyed by `(key, id)`.
  `RegistryProperties` (`registry_properties.dfy`) relates operations to
  each other: lookup after creation, idempotence, frames, retry after a
  failure, and the invariant that only valid ids are stored.
- **Constructor resolution** (`Constructors` module, `constructors.dfy`).
  - A declared parameter type is `Prim(kind) | Void | Ref(name)`.
  - A runtime argument is `Null | Val(runtimeClass)`.
  - The subtype relation is a parameter `sub(runtime, declared)`.
  - A class's declared constructors are a `seq<seq<Ty>>` in enumeration
    order.
  - The search is a recursive function, `FindMatchingFrom` /
    `FindMatchingConstructor`. A method, `FindMatchingConstructorLoop`,
    follows the source's nested loops.
  - `CreateInstance` composes resolution with an invocation capability that
    may fail.

`Scenarios` (`scenarios.dfy`) instantiates both parts on concrete classes
and argument lists.

Two behaviours of the code are worth noting:

- **Null arguments.** `Class.isInstance(null)` is false (line 195), so a
  `null` argument never matches any parameter, not even a reference
  parameter, and resolution fails (`NullArgumentNeverMatches`).
- **State after a failed construction.** `getInstance` runs
  `computeIfAbsent` on the outer map (line 72) before constructing. So a
  failed construction for a previously unseen key leaves that key with an
  empty inner map. The flat view of stored instances is unchanged
  (`GetInstance`).

Ids have no upper bound other than `Integer.MAX_VALUE`.

## Model

| member | source | states |
|---|---|---|
| Constructors.WrapperTableCoversPrimitives | src/main/java/de/fiertubehd/InstanceManager.java:18-31 | every primitive class, `void` included, has an entry in the static wrapper table, so the table lookup for a primitive never yields `null`; `void`'s entry is `void` itself, and every other entry is a non-primitive reference class |
| Constructors.PrimitiveToWrapper | src/main/java/de/fiertubehd/InstanceManager.java:220-228 | `null` stays `null`; a non-primitive class is returned unchanged; every primitive is replaced by its own entry in the wrapper table (`int` to `java.lang.Integer`, …), so `void` maps to `void` and each of the eight value primitives maps to a reference (wrapper) class |
| Constructors.PrimitiveWrappersDistinct | src/main/java/de/fiertubehd/InstanceManager.java:22-29 | two different primitives box to two different wrapper classes |
| Constructors.PrimitiveToWrapperIdempotent | src/main/java/de/fiertubehd/InstanceManager.java:220-228 | boxing twice gives the same result as boxing once |
| Constructors.AcceptsCases | src/main/java/de/fiertubehd/InstanceManager.java:195 | after boxing, `null` is accepted by no parameter type and `void` accepts nothing; a reference type accepts exactly its subtypes; a primitive accepts exactly subtypes of its wrapper class |
| Constructors.Accepts | src/main/java/de/fiertubehd/InstanceManager.java:195 | a declared type accepts an argument only if the argument is non-null and the type is not `void`; an accepted argument's runtime class is a subtype of the reference type, or of the primitive's wrapper class |
| Constructors.Matches | src/main/java/de/fiertubehd/InstanceManager.java:189-200 | a matching parameter list has the argument list's arity, and every argument in it is non-null and sits at a non-`void` parameter |
| Constructors.FindMatchingFrom | src/main/java/de/fiertubehd/InstanceManager.java:186-204 | the result is the lowest index at or after the start whose constructor has the right arity and accepts every argument; on failure, no constructor in that range matches |
| Constructors.FindMatchingConstructor | src/main/java/de/fiertubehd/InstanceManager.java:168-215 | returns the first matching constructor in declaration order. It fails with the no-suitable-constructor error exactly when no constructor matches |
| Constructors.FirstMatchIsUnique | src/main/java/de/fiertubehd/InstanceManager.java:186-204 | any index that is a first match is the one the search returns, so the result is determined by the declaration order |
| Constructors.NullArgumentNeverMatches | src/main/java/de/fiertubehd/InstanceManager.java:193-199 | an argument list that contains `null` matches no constructor, whatever the constructors are |
| Constructors.ParametersMatch | src/main/java/de/fiertubehd/InstanceManager.java:192-200 | the inner loop, which stops at the first rejected argument, reports a match exactly when every position accepts its argument |
| Constructors.FindMatchingConstructorLoop | src/main/java/de/fiertubehd/InstanceManager.java:186-206 | the nested-loop search returns the first matching index and fails only when no constructor matches |
| Constructors.CreateInstance | src/main/java/de/fiertubehd/InstanceManager.java:126-145 | fails with no-suitable-constructor exactly when no constructor matches. Otherwise it invokes the first match: its result is the invocation's value, or construction failure when the invocation throws |
| InstanceManager.Empty | src/main/java/de/fiertubehd/InstanceManager.java:36-44 | a new registry has no instance under any (key, id) and satisfies the valid-id invariant |
| InstanceManager.IsValidInstanceId | src/main/java/de/fiertubehd/InstanceManager.java:230-233 | an id is valid exactly when it lies between 0 and `Integer.MAX_VALUE`, so there is no smaller upper bound |
| InstanceManager.GetExistingInstance | src/main/java/de/fiertubehd/InstanceManager.java:48-59 | never throws. A null key or an invalid id yields `null`. Otherwise the result is present exactly when (key, id) is in the flat view, and it is the stored instance |
| InstanceManager.ExistsInstance | src/main/java/de/fiertubehd/InstanceManager.java:111-121 | never throws; false for a null key or an invalid id; true exactly when `getExistingInstance` finds an instance |
| InstanceManager.GetInstance | src/main/java/de/fiertubehd/InstanceManager.java:61-87 | rejects a null key, then an invalid id, then null parameters, without changing the state. A hit returns the stored instance, ignores the parameters and changes nothing. A miss returns exactly the construction's result. A success stores exactly (key, id); a failure stores nothing, and gives an unseen key an empty inner map (a key already present keeps its inner map as it was). No other outer key changes |
| InstanceManager.UnregisterInstance | src/main/java/de/fiertubehd/InstanceManager.java:89-109 | rejects a null key or an invalid id without changing the state. Otherwise it returns true exactly when (key, id) was stored and removes exactly that pair. Inner maps are kept even when emptied. An absent pair, including one under an unknown key, leaves the state unchanged |
| RegistryProperties.LookupAfterGetInstance | src/main/java/de/fiertubehd/InstanceManager.java:72-86 | after a successful `getInstance`, `getExistingInstance` returns the same instance and `existsInstance` is true |
| RegistryProperties.GetInstanceIdempotent | src/main/java/de/fiertubehd/InstanceManager.java:72-86 | a second `getInstance` for the same (key, id), with any non-null parameters and any construction capability, returns the first instance and changes nothing |
| RegistryProperties.GetInstanceFrame | src/main/java/de/fiertubehd/InstanceManager.java:72-84 | `getInstance` leaves what is stored under every other (key', id') unchanged, whatever its outcome |
| RegistryProperties.FailedGetInstanceStoresNothing | src/main/java/de/fiertubehd/InstanceManager.java:74-84 | after a failed `getInstance`, `existsInstance(key, id)` is what it was before the call |
| RegistryProperties.RetryAfterFailedConstruction | src/main/java/de/fiertubehd/InstanceManager.java:74-84 | after a construction failure, the next `getInstance` for the pair constructs afresh from its own parameters |
| RegistryProperties.UnregisterThenAbsent | src/main/java/de/fiertubehd/InstanceManager.java:97-108 | `unregisterInstance` returns whether the entry existed, and afterwards neither probe finds it |
| RegistryProperties.UnregisterFrame | src/main/java/de/fiertubehd/InstanceManager.java:97-108 | `unregisterInstance` leaves every other (key', id') unchanged and never drops an inner map |
| RegistryProperties.GetInstanceAfterUnregister | src/main/java/de/fiertubehd/InstanceManager.java:72-108 | once an entry is unregistered, `getInstance` builds a new instance from the parameters it is given |
| RegistryProperties.OperationsPreserveValidIds | src/main/java/de/fiertubehd/InstanceManager.java:66-95 | `getInstance` and `unregisterInstance` never store an entry with a negative id |
| RegistryProperties.ProbeIsFlatLookup | src/main/java/de/fiertubehd/InstanceManager.java:48-59 | on a registry that keeps the id invariant, `getExistingInstance` with a non-null key is exactly a lookup of (key, id) in the flat view, for every id |
| Scenarios.StringAndIntSelectsSecond | src/main/java/de/fiertubehd/InstanceManager.java:186-204 | with constructors `(String)` and `(String, int)`, the arguments `("a", 5)` select `(String, int)` through the boxed `Integer` |
| Scenarios.StringAloneSelectsFirst | src/main/java/de/fiertubehd/InstanceManager.java:186-204 | the arguments `("a")` select `(String)` |
| Scenarios.IntegerAloneMatchesNothing | src/main/java/de/fiertubehd/InstanceManager.java:186-206 | the arguments `(5)` match neither constructor |
| Scenarios.NullDoesNotSelectStringConstructor | src/main/java/de/fiertubehd/InstanceManager.java:195 | the arguments `(null)` do not select `(String)` |
| Scenarios.ArityMismatchFails | src/main/java/de/fiertubehd/InstanceManager.java:189-190 | two arguments against a single one-`int` constructor find nothing |
| Scenarios.VoidParameterNeverMatches | src/main/java/de/fiertubehd/InstanceManager.java:30 | a `void` parameter accepts no argument |
| Scenarios.BuildFromIntAcceptsInteger | src/main/java/de/fiertubehd/InstanceManager.java:134-139 | a class with a single `(int)` constructor is built from the argument `[42]` |
| Scenarios.GetOrCreateWithPrivateIntConstructor | src/main/java/de/fiertubehd/InstanceManager.java:61-86 | `getInstance(key, 0, [42])` constructs and stores an instance; with a negative id it is rejected and the state is untouched |

## Left out

- Concurrency. The source relies on `ConcurrentHashMap.computeIfAbsent` and
  `computeIfPresent` for atomicity and for "exactly one construction under
  races". Here every public call is a single sequential atomic step.
- Reflection plumbing. `getDeclaredConstructors`, `setAccessible` and
  `newInstance` become inputs: the constructor list, and the `invoke`
  capability in `CreateInstance` or `build` in `GetInstance`.
- The `createInstance(Constructor, Object[])` overload (lines 147-165). It
  is only `setAccessible` plus `newInstance`, which is the `invoke`
  capability itself.
- Exception types and nesting. Argument rejections are bare
  `IllegalArgumentException`s (lines 64, 67, 70, 92, 95) and become
  `InvalidArgument`. The no-match `IllegalArgumentException` (line 206) and
  invocation failures are wrapped in a `RuntimeException` at line 143 and
  again at line 82. They become `NoMatchingConstructor` and
  `ConstructionFailure`, and `GetInstance` passes them through unchanged.
- The diagnostic message (lines 206-215), built with `Class.getName`. The
  failure carries no text.
- The null checks on the class argument (lines 38-39, 128-129, 170-171)
  are left out, because the model has no class object.
- The null-parameter checks of the static helpers (lines 131-132, 173-174)
  are left out, because the model's argument list there is never null.
- A failure of `getDeclaredConstructors` itself (lines 181-184).
- Enumeration order. The JVM's order of declared constructors is
  unspecified, and the model takes the order as given by the input
  sequence.
- Subtyping and runtime classes. Classes are names, and the subtype
  relation is a parameter rather than the JVM's class hierarchy.
- The probes' "state unchanged". `GetExistingInstance` and `ExistsInstance`
  are pure functions that return no new registry. That the state is
  unchanged therefore holds by construction and has no contract of its
  own.
