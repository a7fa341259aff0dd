/** Concrete resolution and registry scenarios, stated over the general
    model. */
module Scenarios {
  import opened Wrappers
  import opened Failures
  import opened Constructors
  import opened InstanceManager
  import opened RegistryProperties

  const StringClass := "java.lang.String"
  const IntegerClass := "java.lang.Integer"

  /** The subtype relation used in the scenarios: every class is a subtype
      of itself and of `java.lang.Object`. */
  function Subtype(runtime: string, declared: string): bool {
    runtime == declared || declared == "java.lang.Object"
  }

  /** A class with constructors `(String)` and `(String, int)`, in that
      declaration order. */
  const TwoConstructors: seq<seq<Ty>> := [[Ref(StringClass)], [Ref(StringClass), Prim(Int)]]

  /** `("a", 5)` selects `(String, int)`: the boxed `Integer` accepts 5. */
  lemma StringAndIntSelectsSecond()
    ensures FindMatchingConstructor(TwoConstructors, [Val(StringClass), Val(IntegerClass)], Subtype) == Success(1)
  {
    var args := [Val(StringClass), Val(IntegerClass)];
    assert !Matches(TwoConstructors[0], args, Subtype);
    assert Accepts(Prim(Int), Val(IntegerClass), Subtype) by {
      AcceptsCases(Prim(Int), Val(IntegerClass), Subtype);
    }
    assert Matches(TwoConstructors[1], args, Subtype);
    FirstMatchIsUnique(TwoConstructors, args, Subtype, 1);
  }

  /** `("a")` selects `(String)`. */
  lemma StringAloneSelectsFirst()
    ensures FindMatchingConstructor(TwoConstructors, [Val(StringClass)], Subtype) == Success(0)
  {
  }

  /** `(5)` matches neither constructor: an `Integer` is not a `String`. */
  lemma IntegerAloneMatchesNothing()
    ensures FindMatchingConstructor(TwoConstructors, [Val(IntegerClass)], Subtype) == Failure(NoMatchingConstructor)
  {
    assert IntegerClass[10] != StringClass[10];
    var decl, args := TwoConstructors[0], [Val(IntegerClass)];
    assert !Accepts(decl[0], args[0], Subtype) by {
      AcceptsCases(decl[0], args[0], Subtype);
    }
    assert !Matches(TwoConstructors[1], args, Subtype);
  }

  /** `(null)` matches neither constructor, although `(String)` is a
      reference parameter: `isInstance(null)` is false. */
  lemma NullDoesNotSelectStringConstructor()
    ensures FindMatchingConstructor(TwoConstructors, [Null], Subtype) == Failure(NoMatchingConstructor)
  {
    NullArgumentNeverMatches(TwoConstructors, [Null], Subtype, 0);
  }

  /** A class whose only constructor takes one `int`, given two arguments,
      has no matching constructor. */
  lemma ArityMismatchFails()
    ensures FindMatchingConstructor([[Prim(Int)]], [Val(IntegerClass), Val(IntegerClass)], Subtype)
         == Failure(NoMatchingConstructor)
  {
  }

  /** A `void` parameter accepts no argument at all. */
  lemma VoidParameterNeverMatches(a: Arg)
    ensures FindMatchingConstructor([[Void]], [a], Subtype) == Failure(NoMatchingConstructor)
  {
    var decl, args := [Void], [a];
    AcceptsCases(decl[0], args[0], Subtype);
    assert !Matches(decl, args, Subtype);
  }

  /** The construction capability of a registry over a class with a single
      private constructor `(int)`: the reflective call always succeeds and
      yields the boxed argument's class name. */
  function BuildFromInt(args: seq<Arg>): Result<string, Error> {
    CreateInstance([[Prim(Int)]], args, Subtype, (k: nat, a: seq<Arg>) => Some(IntegerClass))
  }

  /** The single `(int)` constructor accepts `[42]` and is invoked. */
  lemma BuildFromIntAcceptsInteger()
    ensures BuildFromInt([Val(IntegerClass)]) == Success(IntegerClass)
  {
  }

  /** `getInstance(key, 0, [42])` on a registry where (key, 0) is empty
      constructs and stores an instance; `getInstance(key, -1, [42])` is
      rejected and leaves the registry alone. */
  lemma GetOrCreateWithPrivateIntConstructor(reg: Registry<string, string>, key: string, id: Int32)
    requires !ExistsInstance(reg, Some(key), 0)
    ensures var s := GetInstance(reg, Some(key), 0, Some([Val(IntegerClass)]), BuildFromInt);
      s.result == Success(IntegerClass) && ExistsInstance(s.registry, Some(key), 0)
    ensures id < 0 ==>
      GetInstance(reg, Some(key), id, Some([Val(IntegerClass)]), BuildFromInt)
      == Step(reg, Failure(InvalidArgument(NegativeInstanceId)))
  {
    BuildFromIntAcceptsInteger();
    LookupAfterGetInstance(reg, Some(key), 0, Some([Val(IntegerClass)]), BuildFromInt);
  }
}
