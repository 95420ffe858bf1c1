/**
 * The bean-introspection helpers of the dependency-injection container:
 * choosing a class's injection constructor and resolving a requested
 * dependency type to a class drawn from the candidate beans.
 */
module BeanFactoryUtils {
  import opened Wrappers
  import opened Streams
  import opened ClassMetadata

  /** The failure `findConcreteClass` raises: no candidate implements the interface. */
  datatype BeanError = IllegalStateException(missingInterface: ClassName)

  /** `withAnnotation(Inject.class)` on constructors. */
  function WithInject(c: Constructor): bool
  {
    c.hasInject
  }

  /**
   * `getInjectedConstructor`: the first enumerated constructor carrying
   * `@Inject`, or empty when there is none. Several marked constructors are
   * not rejected. The source passes the `@Inject` predicate to the reflection
   * library's `getAllConstructors` rather than calling a stream `filter`;
   * `Filter` stands for that filtering, and `FindFirst` for `findFirst()`.
   */
  function GetInjectedConstructor(clazz: Class): (r: Option<Constructor>)
    ensures r.None? <==> forall i :: 0 <= i < |clazz.constructors| ==> !clazz.constructors[i].hasInject
    ensures r.Some? ==> r.value in clazz.constructors && r.value.hasInject
    ensures r.Some? ==> exists k :: FirstMatchAt(clazz.constructors, WithInject, k) && clazz.constructors[k] == r.value
  {
    var marked := Filter(clazz.constructors, WithInject);
    match FindFirst(marked)
    case Some(c) =>
      FilterHeadIsFirstMatch(clazz.constructors, WithInject);
      assert marked[0] in marked;
      Some(c)
    case None =>
      assert forall i :: 0 <= i < |clazz.constructors| ==> clazz.constructors[i] !in marked;
      None
  }

  /**
   * `isImplementation(injectedClazz)`: the predicate "the class directly
   * declares `injected` among its interfaces". Superinterfaces of the
   * declared interfaces are not consulted.
   */
  function IsImplementation(injected: Class): (p: Class -> bool)
    ensures forall c :: p(c) <==> injected.name in c.interfaces
  {
    (c: Class) => AnyMatch(c.interfaces, injected.name)
  }

  /**
   * `findConcreteClass`: a class that is not an interface is returned as it
   * is; for an interface, the first candidate that directly declares it, or
   * `IllegalStateException` when no candidate does.
   */
  function FindConcreteClass(injected: Class, candidates: seq<Class>): (r: Result<Class, BeanError>)
    ensures !injected.isInterface ==> r == Ok(injected)
    ensures injected.isInterface && r.Ok? ==> r.value in candidates && injected.name in r.value.interfaces
    ensures injected.isInterface && r.Ok? ==>
      exists k :: FirstMatchAt(candidates, IsImplementation(injected), k) && candidates[k] == r.value
    ensures injected.isInterface ==>
      (r.Err? <==> forall i :: 0 <= i < |candidates| ==> injected.name !in candidates[i].interfaces)
    ensures r.Err? ==> r.error == IllegalStateException(injected.name)
  {
    if !injected.isInterface then Ok(injected)
    else
      var implementers := Filter(candidates, IsImplementation(injected));
      match FindFirst(implementers)
      case Some(c) =>
        FilterHeadIsFirstMatch(candidates, IsImplementation(injected));
        assert implementers[0] in implementers;
        Ok(c)
      case None =>
        assert forall i :: 0 <= i < |candidates| ==> candidates[i] !in implementers;
        Err(IllegalStateException(injected.name))
  }

  /** With no candidates at all, every interface fails to resolve. */
  lemma EmptyCandidatesFail(injected: Class)
    requires injected.isInterface
    ensures FindConcreteClass(injected, []) == Err(IllegalStateException(injected.name))
  {
  }

  /** When `c` is the only implementer among the candidates, it is the one resolved. */
  lemma UniqueImplementerResolves(injected: Class, candidates: seq<Class>, c: Class)
    requires injected.isInterface
    requires c in candidates && injected.name in c.interfaces
    requires forall d :: d in candidates && injected.name in d.interfaces ==> d == c
    ensures FindConcreteClass(injected, candidates) == Ok(c)
  {
  }

  /**
   * Resolution against `s + t` is resolution against `s` when that succeeds
   * (always, for a type that is not an interface; otherwise when some class
   * of `s` implements the interface), and resolution against `t` otherwise.
   */
  lemma {:induction false} EarlierCandidatesShadowLater(injected: Class, s: seq<Class>, t: seq<Class>)
    ensures FindConcreteClass(injected, s + t) ==
      if FindConcreteClass(injected, s).Ok? then FindConcreteClass(injected, s)
      else FindConcreteClass(injected, t)
  {
    if injected.isInterface {
      FilterAppend(s, t, IsImplementation(injected));
    }
  }

  /**
   * Two implementers are not rejected: whichever comes first in the
   * candidates' iteration order wins.
   */
  lemma AmbiguityResolvedByOrder(injected: Class, a: Class, b: Class)
    requires injected.isInterface
    requires injected.name in a.interfaces && injected.name in b.interfaces
    ensures FindConcreteClass(injected, [a, b]) == Ok(a)
    ensures FindConcreteClass(injected, [b, a]) == Ok(b)
  {
  }

  /**
   * A class that reaches an interface only through a superinterface does not
   * implement it in the sense of `findConcreteClass`: `Impl` declares `Sub`,
   * `Sub` extends `Base`, and resolving `Base` against `Impl` fails.
   */
  lemma SuperinterfacesNotWalked()
    ensures
      var base := Class("Base", true, [], []);
      var sub := Class("Sub", true, ["Base"], []);
      var impl := Class("Impl", false, ["Sub"], [Constructor(false, [])]);
      FindConcreteClass(sub, [impl]) == Ok(impl) &&
      FindConcreteClass(base, [impl]) == Err(IllegalStateException("Base"))
  {
  }

  /** Several `@Inject` constructors are not rejected: the first one enumerated wins. */
  lemma FirstInjectedConstructorWins(clazz: Class, k: nat)
    requires k < |clazz.constructors| && clazz.constructors[k].hasInject
    requires forall j :: 0 <= j < k ==> !clazz.constructors[j].hasInject
    ensures GetInjectedConstructor(clazz) == Some(clazz.constructors[k])
  {
  }
}
