/** Constructor resolution: the primitive-to-wrapper table, `Class.isInstance`
    on a (possibly boxed) declared parameter type, and the first-match search
    over a class's declared constructors. */
module Constructors {
  import opened Wrappers
  import opened Failures

  /** The eight primitive value types of Java other than `void`. */
  datatype PrimKind = Boolean | Byte | Char | Short | Int | Long | Double | Float

  /** A declared parameter type (a `Class<?>` object): a primitive value type,
      `void` (also a primitive class in Java), or a reference class by name. */
  datatype Ty = Prim(kind: PrimKind) | Void | Ref(name: string)

  /** A runtime argument: `null`, or an object whose runtime class has the
      given name (runtime classes of objects are never primitive). */
  datatype Arg = Null | Val(runtimeClass: string)

  /** `Class.isPrimitive`: true for the eight value types and for `void`. */
  predicate IsPrimitive(t: Ty) {
    t.Prim? || t.Void?
  }

  /** The static wrapper table: each primitive to its boxed class, `void`
      to itself. */
  const PrimitiveWrapperMap: map<Ty, Ty> := map[
    Prim(Boolean) := Ref("java.lang.Boolean"),
    Prim(Byte)    := Ref("java.lang.Byte"),
    Prim(Char)    := Ref("java.lang.Character"),
    Prim(Short)   := Ref("java.lang.Short"),
    Prim(Int)     := Ref("java.lang.Integer"),
    Prim(Long)    := Ref("java.lang.Long"),
    Prim(Double)  := Ref("java.lang.Double"),
    Prim(Float)   := Ref("java.lang.Float"),
    Void          := Void
  ]

  /** Every primitive class, `void` included, has an entry in the table,
      so the lookup for a primitive never yields `null`; `void` is its own
      entry and every other primitive's entry is a non-primitive class. */
  lemma WrapperTableCoversPrimitives(t: Ty)
    requires IsPrimitive(t)
    ensures t in PrimitiveWrapperMap
    ensures t.Void? ==> PrimitiveWrapperMap[t] == Void
    ensures t.Prim? ==> PrimitiveWrapperMap[t].Ref? && !IsPrimitive(PrimitiveWrapperMap[t])
  {
    match t
    case Void =>
    case Prim(k) =>
      match k
      case Boolean =>
      case Byte =>
      case Char =>
      case Short =>
      case Int =>
      case Long =>
      case Double =>
      case Float =>
  }

  /** `primitiveToWrapper`: a primitive class is replaced by its table entry;
      `null` and every non-primitive class come back unchanged. */
  function PrimitiveToWrapper(c: Option<Ty>): (r: Option<Ty>)
    ensures r.None? <==> c.None?
    ensures c.Some? && !IsPrimitive(c.value) ==> r == c
    ensures c == Some(Void) ==> r == Some(Void)
    ensures c.Some? && c.value.Prim? ==> r.Some? && r.value.Ref?
    ensures c.Some? && IsPrimitive(c.value) ==>
      c.value in PrimitiveWrapperMap && r == Some(PrimitiveWrapperMap[c.value])
  {
    if c.Some? && IsPrimitive(c.value) then
      WrapperTableCoversPrimitives(c.value);
      Some(PrimitiveWrapperMap[c.value])
    else
      c
  }

  /** Distinct primitives box to distinct wrapper classes. */
  lemma PrimitiveWrappersDistinct(k1: PrimKind, k2: PrimKind)
    requires k1 != k2
    ensures PrimitiveToWrapper(Some(Prim(k1))) != PrimitiveToWrapper(Some(Prim(k2)))
  {
  }

  /** Boxing twice is boxing once: no wrapper class is itself primitive,
      and `void` is a fixed point of the table. */
  lemma PrimitiveToWrapperIdempotent(c: Option<Ty>)
    ensures PrimitiveToWrapper(PrimitiveToWrapper(c)) == PrimitiveToWrapper(c)
  {
  }

  /** `Class.isInstance(arg)` for the class `t`: false for `null`, false for
      every primitive class and `void` (no object is an instance of them),
      and the subtype test `sub(runtime, declared)` for a reference class. */
  predicate IsInstance(t: Ty, a: Arg, sub: (string, string) -> bool) {
    match a
    case Null => false
    case Val(c) => t.Ref? && sub(c, t.name)
  }

  /** Whether a declared parameter type accepts an argument once it has been
      boxed (the check at the innermost loop of `findMatchingConstructor`). */
  predicate Accepts(decl: Ty, a: Arg, sub: (string, string) -> bool)
    ensures Accepts(decl, a, sub) ==> a.Val? && !decl.Void?
    ensures Accepts(decl, a, sub) && decl.Ref? ==> sub(a.runtimeClass, decl.name)
    ensures Accepts(decl, a, sub) && decl.Prim? ==>
      decl in PrimitiveWrapperMap && sub(a.runtimeClass, PrimitiveWrapperMap[decl].name)
  {
    IsInstance(PrimitiveToWrapper(Some(decl)).value, a, sub)
  }

  /** What `Accepts` means, case by case: `null` is never accepted, `void`
      accepts nothing, a primitive accepts exactly the objects of its
      wrapper class (or a subtype of it), and a reference type accepts its
      subtypes. */
  lemma AcceptsCases(decl: Ty, a: Arg, sub: (string, string) -> bool)
    ensures a.Null? ==> !Accepts(decl, a, sub)
    ensures decl.Void? ==> !Accepts(decl, a, sub)
    ensures decl.Ref? && a.Val? ==> (Accepts(decl, a, sub) <==> sub(a.runtimeClass, decl.name))
    ensures decl.Prim? && a.Val? ==>
      decl in PrimitiveWrapperMap
      && (Accepts(decl, a, sub) <==> sub(a.runtimeClass, PrimitiveWrapperMap[decl].name))
  {
    if decl.Prim? {
      WrapperTableCoversPrimitives(decl);
    }
  }

  /** A constructor's declared parameter list fits the argument list: same
      arity, and every position accepts the argument at that position. */
  predicate Matches(decl: seq<Ty>, args: seq<Arg>, sub: (string, string) -> bool)
    ensures Matches(decl, args, sub) ==> |decl| == |args|
    ensures Matches(decl, args, sub) ==> forall i :: 0 <= i < |args| ==> args[i].Val? && !decl[i].Void?
  {
    |decl| == |args| && forall i :: 0 <= i < |decl| ==> Accepts(decl[i], args[i], sub)
  }

  /** `k` is the lowest-index constructor at or after `from` that matches. */
  predicate IsFirstMatchFrom(ctors: seq<seq<Ty>>, args: seq<Arg>, sub: (string, string) -> bool, from: nat, k: int) {
    from <= k < |ctors|
    && Matches(ctors[k], args, sub)
    && forall j :: from <= j < k ==> !Matches(ctors[j], args, sub)
  }

  /** The first-match search from index `from` on: the recursive form of the
      loop over `getDeclaredConstructors()`. */
  function FindMatchingFrom(ctors: seq<seq<Ty>>, args: seq<Arg>, sub: (string, string) -> bool, from: nat): (r: Result<nat, Error>)
    requires from <= |ctors|
    ensures r.Success? ==> IsFirstMatchFrom(ctors, args, sub, from, r.value)
    ensures r.Failure? ==>
      r.error == NoMatchingConstructor
      && forall j :: from <= j < |ctors| ==> !Matches(ctors[j], args, sub)
    decreases |ctors| - from
  {
    if from == |ctors| then Failure(NoMatchingConstructor)
    else if Matches(ctors[from], args, sub) then Success(from)
    else FindMatchingFrom(ctors, args, sub, from + 1)
  }

  /** `findMatchingConstructor`: the index, in declaration order, of the
      first constructor whose parameter list matches `args`, or the
      "no suitable constructor" failure when none does. */
  function FindMatchingConstructor(ctors: seq<seq<Ty>>, args: seq<Arg>, sub: (string, string) -> bool): (r: Result<nat, Error>)
    ensures r.Success? ==> IsFirstMatchFrom(ctors, args, sub, 0, r.value)
    ensures r.Failure? <==> forall j :: 0 <= j < |ctors| ==> !Matches(ctors[j], args, sub)
    ensures r.Failure? ==> r.error == NoMatchingConstructor
  {
    FindMatchingFrom(ctors, args, sub, 0)
  }

  /** The first match is unique: any index that is a first match is the one
      the search returns. */
  lemma FirstMatchIsUnique(ctors: seq<seq<Ty>>, args: seq<Arg>, sub: (string, string) -> bool, k: int)
    requires IsFirstMatchFrom(ctors, args, sub, 0, k)
    ensures FindMatchingConstructor(ctors, args, sub) == Success(k)
  {
  }

  /** A `null` anywhere in the argument list makes resolution fail, whatever
      the constructors are: `Class.isInstance(null)` is false. */
  lemma NullArgumentNeverMatches(ctors: seq<seq<Ty>>, args: seq<Arg>, sub: (string, string) -> bool, i: int)
    requires 0 <= i < |args| && args[i].Null?
    ensures FindMatchingConstructor(ctors, args, sub) == Failure(NoMatchingConstructor)
  {
  }

  /** The inner loop of the search, for a constructor whose arity already
      equals the argument count: walk the positions and stop at the first
      parameter that rejects its argument. */
  method ParametersMatch(decl: seq<Ty>, args: seq<Arg>, sub: (string, string) -> bool) returns (matched: bool)
    requires |decl| == |args|
    ensures matched <==> Matches(decl, args, sub)
  {
    var i := 0;
    while i < |decl|
      invariant 0 <= i <= |decl|
      invariant forall p :: 0 <= p < i ==> Accepts(decl[p], args[p], sub)
    {
      if !Accepts(decl[i], args[i], sub) {
        return false;
      }
      i := i + 1;
    }
    return true;
  }

  /** The search as the source writes it: an outer loop over the declared
      constructors that skips wrong arities and returns the first whose
      parameters all accept their arguments. */
  method FindMatchingConstructorLoop(ctors: seq<seq<Ty>>, args: seq<Arg>, sub: (string, string) -> bool) returns (r: Result<nat, Error>)
    ensures r.Success? ==> IsFirstMatchFrom(ctors, args, sub, 0, r.value)
    ensures r.Failure? ==>
      r.error == NoMatchingConstructor
      && forall j :: 0 <= j < |ctors| ==> !Matches(ctors[j], args, sub)
  {
    var c := 0;
    while c < |ctors|
      invariant 0 <= c <= |ctors|
      invariant forall j :: 0 <= j < c ==> !Matches(ctors[j], args, sub)
    {
      if |ctors[c]| == |args| {
        var matched := ParametersMatch(ctors[c], args, sub);
        if matched {
          return Success(c);
        }
      }
      c := c + 1;
    }
    return Failure(NoMatchingConstructor);
  }

  /** `createInstance(Class, Object[])`: resolve the constructor, then invoke
      it. `invoke(k, args)` is the reflective call of constructor `k`; `None`
      means its body (or the reflective machinery) threw. */
  function CreateInstance<I>(ctors: seq<seq<Ty>>, args: seq<Arg>, sub: (string, string) -> bool,
      invoke: (nat, seq<Arg>) -> Option<I>): (r: Result<I, Error>)
    ensures r == Failure(NoMatchingConstructor) <==>
      forall j :: 0 <= j < |ctors| ==> !Matches(ctors[j], args, sub)
    ensures r.Success? ==>
      exists k :: IsFirstMatchFrom(ctors, args, sub, 0, k) && invoke(k, args) == Some(r.value)
    ensures r == Failure(ConstructionFailure) ==>
      exists k :: IsFirstMatchFrom(ctors, args, sub, 0, k) && invoke(k, args).None?
    ensures r.Failure? ==> r.error == NoMatchingConstructor || r.error == ConstructionFailure
  {
    match FindMatchingConstructor(ctors, args, sub)
    case Failure(e) => Failure(e)
    case Success(k) =>
      match invoke(k, args)
      case None => Failure(ConstructionFailure)
      case Some(v) => Success(v)
  }
}
