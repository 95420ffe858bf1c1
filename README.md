# Bean introspection helpers of a small dependency-injection container

This project models `core.di.factory.BeanFactoryUtils`, the two stateless
helpers the container relies on when wiring beans:

- `getInjectedConstructor(clazz)` picks, among the constructors enumerated
  for a class, the first one carrying `@Inject`, or yields an empty
  `Optional` when none does. Several marked constructors are not rejected;
  the source's doc comment only assumes one per class.
- `findConcreteClass(injectedClazz, candidates)` resolves a requested
  dependency type. A type that is not an interface is returned unchanged,
  whatever the candidates are. An interface resolves to the first candidate,
  in iteration order, whose *directly declared* interfaces include it.
  Superinterfaces are not walked. When no candidate matches, the call fails
  with `IllegalStateException`.

Class metadata is a value (`ClassMetadata.Class`): a name, an
`isInterface` flag, the directly declared interfaces, and the constructors,
each with an `@Inject` flag and parameter types. The candidate
`Set<Class<?>>` is a `seq<Class>` in the set's iteration order. `Optional`
becomes `Wrappers.Option`. The thrown exception becomes the `Err` side of
`Wrappers.Result`. The stream steps the helpers are written with (`filter`,
`findFirst`, `anyMatch(isEqual(...))`) are the functions of module
`Streams`, so the model follows the source's pipelines step by step. In
`getInjectedConstructor` the `@Inject` predicate is an argument of the
reflection library's `getAllConstructors` rather than a stream `filter`;
`Streams.Filter` stands for that filtering there.

Files: `wrappers.dfy`, `streams.dfy`, `class_metadata.dfy`,
`bean_factory_utils.dfy`.

## Model

| member | source | states |
|---|---|---|
| `Streams.Filter` | src/main/java/core/di/factory/BeanFactoryUtils.java:47-48 | the filtered stream holds exactly the elements of the input that satisfy the predicate, and is no longer than the input |
| `Streams.AnyMatch` | src/main/java/core/di/factory/BeanFactoryUtils.java:54-55 | `anyMatch(isEqual(x))` is true exactly when `x` occurs in the sequence |
| `Streams.FindFirstOfFilter` | src/main/java/core/di/factory/BeanFactoryUtils.java:47-49 | `filter(p).findFirst()` is empty exactly when no element satisfies `p`, and otherwise holds an element at a position `k` that satisfies `p` with no earlier element satisfying `p` |
| `Streams.FilterHeadIsFirstMatch` | src/main/java/core/di/factory/BeanFactoryUtils.java:47-49 | `filter(p).findFirst()` yields an element at some position `k` that satisfies `p`, with no earlier element satisfying `p` |
| `Streams.FilterAppend` | src/main/java/core/di/factory/BeanFactoryUtils.java:47-48 | filtering `s + t` gives the filtered `s` followed by the filtered `t`, so encounter order is kept |
| `BeanFactoryUtils.GetInjectedConstructor` | src/main/java/core/di/factory/BeanFactoryUtils.java:27-31 | empty exactly when no constructor carries `@Inject`; otherwise the result is one of the enumerated constructors (the class's own and its superclasses'), carries `@Inject`, and is the first such constructor in enumeration order |
| `BeanFactoryUtils.FirstInjectedConstructorWins` | src/main/java/core/di/factory/BeanFactoryUtils.java:24-30 | if the constructor at position `k` is the first marked one, it is the one returned, however many later constructors are also marked |
| `BeanFactoryUtils.IsImplementation` | src/main/java/core/di/factory/BeanFactoryUtils.java:53-56 | the predicate holds of a class exactly when the requested interface is among the class's directly declared interfaces |
| `BeanFactoryUtils.FindConcreteClass` | src/main/java/core/di/factory/BeanFactoryUtils.java:41-51 | a non-interface is returned unchanged for any candidates; for an interface a result is a candidate that directly declares it and is the first such candidate; it fails exactly when no candidate directly declares it, and the failure names the interface |
| `BeanFactoryUtils.EmptyCandidatesFail` | src/main/java/core/di/factory/BeanFactoryUtils.java:47-50 | resolving any interface against no candidates fails with `IllegalStateException` naming it |
| `BeanFactoryUtils.UniqueImplementerResolves` | src/main/java/core/di/factory/BeanFactoryUtils.java:47-49 | when exactly one candidate directly declares the interface, that candidate is the one resolved |
| `BeanFactoryUtils.EarlierCandidatesShadowLater` | src/main/java/core/di/factory/BeanFactoryUtils.java:47-50 | for any requested type, resolving against `s + t` gives the result for `s` when that succeeds (always for a non-interface; for an interface when `s` has an implementer), and the result for `t` otherwise, error included |
| `BeanFactoryUtils.AmbiguityResolvedByOrder` | src/main/java/core/di/factory/BeanFactoryUtils.java:47-49 | two implementers are not rejected: whichever comes first in iteration order is returned, so swapping them swaps the result |
| `BeanFactoryUtils.SuperinterfacesNotWalked` | src/main/java/core/di/factory/BeanFactoryUtils.java:53-55 | a class declaring `Sub`, where `Sub` extends `Base`, resolves `Sub` but does not resolve `Base` |

## Left out

- Reflection is not modelled. `getAllConstructors`, `withAnnotation` (from the org.reflections library), `Class.isInterface` and `Class.getInterfaces` are foreign calls. Their answers are the given fields of `ClassMetadata.Class`. `BeanFactoryUtils.WithInject`, standing for `withAnnotation(Inject.class)`, only reads the given `hasInject` flag. In particular, `constructors` is what the library enumerates for a class. That includes constructors declared by its superclasses, so a superclass's `@Inject` constructor can be the one returned.
- Iteration order: a Java `HashSet` has no specified order. The model fixes one order per input sequence, and every first-match property holds for whatever order it is given.
- Class identity: Java compares `Class` objects. The model compares class names, which assumes one class per name (a single class loader).
- The candidate set is any `seq<Class>`, not only a duplicate-free one. No property of these helpers depends on duplicates.
- `FindConcreteClass`: the exception's message text (the interface's `toString` followed by a fixed sentence) is not modelled. The error carries the interface's name instead.
- Purity: both helpers are Dafny functions over immutable values. Calling one twice on the same inputs gives the same result, and neither can change the class or the candidates. This holds by construction, so no separate lemma states it.
- The bean container that calls these helpers is not part of this model: constructor invocation, singleton caching and cycle detection.
- Request handling in `UserController`, JDBC access in `JdbcAnswerRepository` and the HTTP acceptance test are servlet, database and network I/O. They are outside the modelled core.
