/** Properties that relate several registry operations: what a lookup sees
    after get-or-create or removal, idempotence of get-or-create, the frame
    of each operation, and the id invariant. */
module RegistryProperties {
  import opened Wrappers
  import opened Failures
  import opened InstanceManager

  /** After a successful `getInstance`, both probes see the returned
      instance at (key, id). */
  lemma LookupAfterGetInstance<K(!new), I, A>(reg: Registry<K, I>, key: Option<K>, id: Int32,
      params: Option<seq<A>>, build: seq<A> -> Result<I, Error>)
    ensures var s := GetInstance(reg, key, id, params, build);
      s.result.Success? ==>
        GetExistingInstance(s.registry, key, id) == Some(s.result.value)
        && ExistsInstance(s.registry, key, id)
  {
  }

  /** A second `getInstance` for the same (key, id) returns the instance of
      the first and changes nothing, whatever its parameters and even with a
      different construction capability. */
  lemma GetInstanceIdempotent<K(!new), I, A>(reg: Registry<K, I>, key: Option<K>, id: Int32,
      params1: Option<seq<A>>, build1: seq<A> -> Result<I, Error>,
      params2: seq<A>, build2: seq<A> -> Result<I, Error>)
    ensures var s1 := GetInstance(reg, key, id, params1, build1);
      s1.result.Success? ==> GetInstance(s1.registry, key, id, Some(params2), build2) == s1
  {
  }

  /** `getInstance` never changes what is stored under any other
      (key', id'), whatever its outcome. */
  lemma GetInstanceFrame<K(!new), I, A>(reg: Registry<K, I>, key: Option<K>, id: Int32,
      params: Option<seq<A>>, build: seq<A> -> Result<I, Error>,
      key': K, id': Int32)
    requires key != Some(key') || id != id'
    ensures GetExistingInstance(GetInstance(reg, key, id, params, build).registry, Some(key'), id')
         == GetExistingInstance(reg, Some(key'), id')
  {
  }

  /** A failed `getInstance` stores nothing: presence at (key, id) is what
      it was before the call. */
  lemma FailedGetInstanceStoresNothing<K(!new), I, A>(reg: Registry<K, I>, key: Option<K>, id: Int32,
      params: Option<seq<A>>, build: seq<A> -> Result<I, Error>)
    ensures var s := GetInstance(reg, key, id, params, build);
      s.result.Failure? ==> ExistsInstance(s.registry, key, id) == ExistsInstance(reg, key, id)
  {
  }

  /** After a construction failure a later call constructs afresh, with its
      own parameters. */
  lemma RetryAfterFailedConstruction<K(!new), I, A>(reg: Registry<K, I>, key: K, id: Int32,
      params1: seq<A>, build1: seq<A> -> Result<I, Error>,
      params2: seq<A>, build2: seq<A> -> Result<I, Error>)
    requires IsValidInstanceId(id)
    requires !ExistsInstance(reg, Some(key), id)
    ensures var s1 := GetInstance(reg, Some(key), id, Some(params1), build1);
      s1.result.Failure? ==>
        GetInstance(s1.registry, Some(key), id, Some(params2), build2).result == build2(params2)
  {
  }

  /** `unregisterInstance` on valid input reports whether the entry was
      there, and afterwards neither probe finds it. */
  lemma UnregisterThenAbsent<K(!new), I>(reg: Registry<K, I>, key: K, id: Int32)
    requires IsValidInstanceId(id)
    ensures var s := UnregisterInstance(reg, Some(key), id);
      s.result == Success(ExistsInstance(reg, Some(key), id))
      && !ExistsInstance(s.registry, Some(key), id)
      && GetExistingInstance(s.registry, Some(key), id).None?
  {
  }

  /** `unregisterInstance` never changes what is stored under any other
      (key', id'), and never drops an inner map. */
  lemma UnregisterFrame<K(!new), I>(reg: Registry<K, I>, key: Option<K>, id: Int32, key': K, id': Int32)
    requires key != Some(key') || id != id'
    ensures var s := UnregisterInstance(reg, key, id);
      GetExistingInstance(s.registry, Some(key'), id') == GetExistingInstance(reg, Some(key'), id')
      && s.registry.instances.Keys == reg.instances.Keys
  {
  }

  /** Once an instance is unregistered, `getInstance` builds a new one from
      the parameters it is given. */
  lemma GetInstanceAfterUnregister<K(!new), I, A>(reg: Registry<K, I>, key: K, id: Int32,
      params: seq<A>, build: seq<A> -> Result<I, Error>)
    requires IsValidInstanceId(id)
    ensures var s := UnregisterInstance(reg, Some(key), id);
      GetInstance(s.registry, Some(key), id, Some(params), build).result == build(params)
  {
  }

  /** Every operation keeps the invariant that only valid ids are stored. */
  lemma OperationsPreserveValidIds<K(!new), I, A>(reg: Registry<K, I>, key: Option<K>, id: Int32,
      params: Option<seq<A>>, build: seq<A> -> Result<I, Error>)
    requires ValidIds(reg)
    ensures ValidIds(GetInstance(reg, key, id, params, build).registry)
    ensures ValidIds(UnregisterInstance(reg, key, id).registry)
  {
  }

  /** On a registry that keeps the id invariant, `getExistingInstance` with
      a non-null key is exactly a lookup in the flat view, for every id. */
  lemma ProbeIsFlatLookup<K(!new), I>(reg: Registry<K, I>, key: K, id: Int32)
    requires ValidIds(reg)
    ensures GetExistingInstance(reg, Some(key), id)
         == if (key, id) in Entries(reg) then Some(Entries(reg)[(key, id)]) else None
  {
  }
}
