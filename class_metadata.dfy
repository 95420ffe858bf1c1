/**
 * The reflective class metadata the helpers read, taken as given values:
 * what `Class.isInterface`, `Class.getInterfaces` and the constructor
 * enumeration of the reflection library would report.
 */
module ClassMetadata {

  /** A fully qualified class or interface name; one class per name. */
  type ClassName = string

  /** A constructor: whether it carries `@Inject`, and its parameter types. */
  datatype Constructor = Constructor(hasInject: bool, parameterTypes: seq<ClassName>)

  /**
   * A class or interface. `interfaces` are the directly declared interfaces
   * (the superinterfaces, for an interface), in declaration order;
   * `constructors` are the constructors the reflection library enumerates
   * for the class, in its enumeration order: those the class declares and
   * those its superclasses declare.
   */
  datatype Class = Class(
    name: ClassName,
    isInterface: bool,
    interfaces: seq<ClassName>,
    constructors: seq<Constructor>)
}
