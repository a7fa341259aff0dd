/** The keyed instance registry: outer key -> (instance id -> instance), with
    a safe lookup, get-or-create, removal and a safe presence test. Each
    public operation is one atomic step from a registry value to a new
    registry value and an outcome. */
module InstanceManager {
  import opened Wrappers
  import opened Failures

  /** Java's `int`, the type of instance ids. */
  newtype Int32 = x: int | -0x8000_0000 <= x < 0x8000_0000

  /** The registry state: the two-level map of the source. Instances are
      opaque values of the registry's declared type `I`. */
  datatype Registry<K(==,!new), I> = Registry(instances: map<K, map<Int32, I>>)

  /** The registry after an operation, and what the operation returned or
      threw. */
  datatype Step<K(==,!new), I, R> = Step(registry: Registry<K, I>, result: Result<R, Error>)

  /** The registry as one flat map keyed by (outer key, instance id): the
      reference view every operation is specified against. */
  function Entries<K(==,!new), I(==)>(reg: Registry<K, I>): (e: map<(K, Int32), I>)
    ensures forall p :: p in e <==> p.0 in reg.instances && p.1 in reg.instances[p.0]
    ensures forall p :: p in e ==> e[p] == reg.instances[p.0][p.1]
  {
    map k, id | k in reg.instances && id in reg.instances[k] :: (k, id) := reg.instances[k][id]
  }

  /** Only valid (non-negative) instance ids are ever stored. */
  predicate ValidIds<K(==,!new), I(==)>(reg: Registry<K, I>) {
    forall p :: p in Entries(reg) ==> p.1 >= 0
  }

  /** A fresh registry, as built by the constructor: nothing is stored. */
  function Empty<K(==,!new), I(==)>(): (reg: Registry<K, I>)
    ensures forall k, id :: !ExistsInstance(reg, Some(k), id)
    ensures ValidIds(reg)
  {
    Registry(map[])
  }

  /** `isValidInstanceId`: every non-negative `int` is a valid id; there is
      no upper bound below `Integer.MAX_VALUE`. */
  function IsValidInstanceId(id: Int32): (valid: bool)
    ensures valid <==> 0 <= id as int <= 0x7fff_ffff
  {
    id >= 0
  }

  /** `getExistingInstance`: a probe that never throws. A null key or an
      invalid id yields `null`; otherwise the stored instance, if any. */
  function GetExistingInstance<K(==,!new), I(==)>(reg: Registry<K, I>, key: Option<K>, id: Int32): (r: Option<I>)
    ensures key.None? || !IsValidInstanceId(id) ==> r.None?
    ensures key.Some? && IsValidInstanceId(id) ==>
      (r.Some? <==> (key.value, id) in Entries(reg))
      && (r.Some? ==> r.value == Entries(reg)[(key.value, id)])
  {
    if key.None? || !IsValidInstanceId(id) then None
    else if key.value !in reg.instances then None
    else if id in reg.instances[key.value] then Some(reg.instances[key.value][id])
    else None
  }

  /** `existsInstance`: a presence probe that never throws, and agrees with
      `getExistingInstance` on every input. */
  function ExistsInstance<K(==,!new), I(==)>(reg: Registry<K, I>, key: Option<K>, id: Int32): (b: bool)
    ensures key.None? || !IsValidInstanceId(id) ==> !b
    ensures b <==> GetExistingInstance(reg, key, id).Some?
  {
    if key.None? || !IsValidInstanceId(id) then false
    else if key.value !in reg.instances then false
    else id in reg.instances[key.value]
  }

  /** The outer maps agree on every key other than `k`. */
  predicate SameOutside<K(==,!new), I(==)>(reg: Registry<K, I>, reg': Registry<K, I>, k: K) {
    reg'.instances - {k} == reg.instances - {k}
  }

  /** `getInstance`: reject a null key, an invalid id or a null parameter
      array, in that order, before touching the state. Otherwise make sure
      `key` has an inner map, return the stored instance if there is one
      (ignoring `params`), and else construct one with `build`, storing it
      only when construction succeeds. `build` is the registry's fixed
      construction capability (constructor resolution plus invocation). */
  function GetInstance<K(==,!new), I(==), A>(reg: Registry<K, I>, key: Option<K>, id: Int32, params: Option<seq<A>>,
      build: seq<A> -> Result<I, Error>): (s: Step<K, I, I>)
    ensures key.None? ==> s == Step(reg, Failure(InvalidArgument(NullKey)))
    ensures key.Some? && !IsValidInstanceId(id) ==> s == Step(reg, Failure(InvalidArgument(NegativeInstanceId)))
    ensures key.Some? && IsValidInstanceId(id) && params.None? ==>
      s == Step(reg, Failure(InvalidArgument(NullParameters)))
    ensures key.Some? && (key.value, id) in Entries(reg) && IsValidInstanceId(id) && params.Some? ==>
      s == Step(reg, Success(Entries(reg)[(key.value, id)]))
    ensures key.Some? && (key.value, id) !in Entries(reg) && IsValidInstanceId(id) && params.Some? ==>
      s.result == build(params.value)
    ensures s.result.Success? ==>
      key.Some? && Entries(s.registry) == Entries(reg)[(key.value, id) := s.result.value]
    ensures s.result.Failure? ==> Entries(s.registry) == Entries(reg)
    ensures s.result.Failure? && key.Some? ==>
      s.registry == reg
      || (key.value !in reg.instances && s.registry.instances == reg.instances[key.value := map[]])
    ensures s.result.Failure? && key.Some? && IsValidInstanceId(id) && params.Some? ==>
      s.registry.instances
      == if key.value in reg.instances then reg.instances else reg.instances[key.value := map[]]
    ensures key.Some? ==> SameOutside(reg, s.registry, key.value)
    ensures reg.instances.Keys <= s.registry.instances.Keys
  {
    if key.None? then Step(reg, Failure(InvalidArgument(NullKey)))
    else if !IsValidInstanceId(id) then Step(reg, Failure(InvalidArgument(NegativeInstanceId)))
    else if params.None? then Step(reg, Failure(InvalidArgument(NullParameters)))
    else
      var k := key.value;
      var withInner := if k in reg.instances then reg else Registry(reg.instances[k := map[]]);
      var inner := withInner.instances[k];
      if id in inner then
        Step(reg, Success(inner[id]))
      else
        match build(params.value)
        case Failure(e) =>
          EntriesAfterNewInner(reg, k);
          Step(withInner, Failure(e))
        case Success(v) =>
          var reg' := Registry(reg.instances[k := inner[id := v]]);
          EntriesAfterStore(reg, k, id, v);
          Step(reg', Success(v))
  }

  /** Giving an unseen key an empty inner map leaves the flat view as it is. */
  lemma EntriesAfterNewInner<K(!new), I>(reg: Registry<K, I>, k: K)
    ensures k !in reg.instances ==> Entries(Registry(reg.instances[k := map[]])) == Entries(reg)
  {
    if k !in reg.instances {
      var lhs := Entries(Registry(reg.instances[k := map[]]));
      var rhs := Entries(reg);
      forall p | p in lhs
        ensures p in rhs && lhs[p] == rhs[p]
      {
      }
      forall p | p in rhs
        ensures p in lhs
      {
        assert p.0 != k;
        assert reg.instances[k := map[]][p.0] == reg.instances[p.0];
      }
    }
  }

  /** Storing `v` at (k, id) changes the flat view at exactly that pair. */
  lemma EntriesAfterStore<K(!new), I>(reg: Registry<K, I>, k: K, id: Int32, v: I)
    ensures var inner := if k in reg.instances then reg.instances[k] else map[];
      Entries(Registry(reg.instances[k := inner[id := v]])) == Entries(reg)[(k, id) := v]
  {
  }

  /** Removing id from the inner map of `k` removes exactly (k, id) from
      the flat view. */
  lemma EntriesAfterRemove<K(!new), I>(reg: Registry<K, I>, k: K, id: Int32)
    requires k in reg.instances
    ensures Entries(Registry(reg.instances[k := reg.instances[k] - {id}])) == Entries(reg) - {(k, id)}
  {
  }

  /** `unregisterInstance`: reject a null key or an invalid id before
      touching the state; otherwise remove the entry if present and report
      whether one was removed. The inner map of `key` is kept, even when it
      becomes empty. */
  function UnregisterInstance<K(==,!new), I(==)>(reg: Registry<K, I>, key: Option<K>, id: Int32): (s: Step<K, I, bool>)
    ensures key.None? ==> s == Step(reg, Failure(InvalidArgument(NullKey)))
    ensures key.Some? && !IsValidInstanceId(id) ==> s == Step(reg, Failure(InvalidArgument(NegativeInstanceId)))
    ensures key.Some? && IsValidInstanceId(id) ==>
      s.result == Success((key.value, id) in Entries(reg))
      && Entries(s.registry) == Entries(reg) - {(key.value, id)}
      && s.registry.instances.Keys == reg.instances.Keys
      && SameOutside(reg, s.registry, key.value)
    ensures key.Some? && (key.value, id) !in Entries(reg) ==> s.registry == reg
  {
    if key.None? then Step(reg, Failure(InvalidArgument(NullKey)))
    else if !IsValidInstanceId(id) then Step(reg, Failure(InvalidArgument(NegativeInstanceId)))
    else
      var k := key.value;
      if k !in reg.instances then Step(reg, Success(false))
      else
        var inner := reg.instances[k];
        if id in inner then
          EntriesAfterRemove(reg, k, id);
          Step(Registry(reg.instances[k := inner - {id}]), Success(true))
        else
          Step(reg, Success(false))
  }
}
