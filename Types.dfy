/** The reflected view of a Java record that the codec generator consumes:
    component types, the three unsigned-width annotations, the registry of
    record classes, and the Java exceptions the generator and codecs raise. */
module Types {

  /** The Java primitive types a record component can have (a component is
      never `void`). */
  datatype Primitive = Long | Int | Short | Byte | Double | Float | Char | Boolean

  /** A component's static type. `Class(name)` is any other class by its
      binary name; it is a record exactly when the registry lists it. */
  datatype JType =
    | Prim(prim: Primitive)
    | Enum(enumName: string)
    | Str
    | Array(elem: JType)
    | Class(name: string)

  /** Which of `@UnsignedByte`, `@UnsignedShort` and `@UnsignedInteger` are
      present on a component. Each consumer tests them in that order, so
      several may be present at once and the first one wins. */
  datatype Annotations = Annotations(unsignedByte: bool, unsignedShort: bool, unsignedInteger: bool)

  const NoAnnotations := Annotations(false, false, false)

  /** One record component, in declaration order. */
  datatype Component = Component(ty: JType, ann: Annotations)

  /** What reflection knows: the components of every record class, by name. */
  type Registry = map<string, seq<Component>>

  /** `Class.isPrimitive()` */
  predicate IsPrimitive(t: JType) {
    t.Prim?
  }

  /** The component types the cycle walk never descends into: primitives,
      enums and `String`. */
  predicate IsLeaf(t: JType) {
    t.Prim? || t.Enum? || t.Str?
  }

  /** True when `t` is a record class that the registry describes. */
  predicate IsRecord(reg: Registry, t: JType) {
    t.Class? && t.name in reg
  }

  /** The Java exceptions raised by the modelled code. `VerifyError` is the
      class verifier rejecting a generated method; `Other` stands for any
      further `Throwable` a generated method handle may raise. */
  datatype Exception =
    | IllegalState
    | IllegalArgument
    | UnsupportedOperation
    | NullPointer
    | BufferUnderflow
    | BufferOverflow
    | ReadOnlyBuffer
    | WrongMethodType
    | VerifyError
    | Other

  /** A value, or the exception thrown instead. */
  datatype Result<+T> = Ok(value: T) | Err(error: Exception)

  /** What a decode did: its value or exception, and the bytes it consumed
      from the buffer or stream. */
  datatype Outcome<+T> = Outcome(result: Result<T>, consumed: nat)
}
