/**
 * The constraint vocabulary: the kinds the engine switches on, the validation
 * severity, the reference value and the constraint that carries it, and the
 * exceptions the engine can raise.
 */
module Entities {
  import opened Wrappers

  /** A C# `int`. */
  type int32 = x: int | -0x8000_0000 <= x < 0x8000_0000

  /** The constraint kinds named by the engine's `switch` arms. */
  datatype ConstraintKind =
    | NotNull
    | MaxLength
    | MinLength
    | MaxNotNull
    | Lowercase
    | Uppercase
    | NoWhiteSpace
    | NoSpecialCharacters
    | OnlyDigit
    | ValidDatetime
    | ForceToValidDatetime
    | SingleChar
    | ValidGuid
    | ValidEmail
    | MinValue
    | MaxValue
    | NotNegative
    | MaxDecimalPlaces
    | NoDbNull

  /** Strict raises on invalid data; Relaxed repairs it silently. */
  datatype ValidationSeverity = Strict | Relaxed

  /** The exceptions that can escape `Sanitize`. */
  datatype Error =
    | ConfigError                                             // ArgumentNullException: kind needs a reference value, none set
    | UnsetValue                                              // ArgumentException from IntegerValue on a null backing value
    | ValidationError(kind: ConstraintKind, value: string)    // ArgumentException under Strict, naming the raw value
    | OutOfRange                                              // ArgumentOutOfRangeException from slicing or padding
    | InvalidCast                                             // InvalidCastException from unboxing a short as an int
    | Overflow                                                // OverflowException from decimal arithmetic
    | DivideByZero                                            // DivideByZeroException from a zero decimal step
    | MissingConstructor                                      // Activator.CreateInstance could not build the type

  /** The reference value; `stored` is the nullable, read-only backing field. */
  datatype ConstraintValue = ConstraintValue(stored: Option<int32>)

  /** The `ConstraintValue(int)` constructor. */
  function NewConstraintValue(value: int32): (cv: ConstraintValue)
    ensures IntegerValue(cv) == Success(value)
  {
    ConstraintValue(Some(value))
  }

  /** The `IntegerValue` getter: the stored int, or an ArgumentException when it is null. */
  function IntegerValue(cv: ConstraintValue): (r: Result<int32, Error>)
    ensures r.Failure? <==> cv.stored.None?
    ensures r.Failure? ==> r.error == UnsetValue
    ensures r.Success? ==> cv.stored == Some(r.value)
  {
    match cv.stored
    case None => Failure(UnsetValue)
    case Some(v) => Success(v)
  }

  /** A constraint: a kind and a reference value that may be absent (a null reference). */
  datatype Constraint = Constraint(kind: ConstraintKind, value: Option<ConstraintValue>)

  /** The `Constraint(type)` constructor: no reference value, whatever the kind. */
  function NewConstraint(kind: ConstraintKind): (c: Constraint)
    ensures c.kind == kind && c.value.None?
    ensures RefValue(c) == Success(None)
  {
    Constraint(kind, None)
  }

  /** The `Constraint(type, refValue)` constructor: any kind accepts a reference value. */
  function NewConstraintWithValue(kind: ConstraintKind, refValue: int32): (c: Constraint)
    ensures c.kind == kind && c.value.Some?
    ensures IntegerValue(c.value.value) == Success(refValue)
    ensures RefValue(c) == Success(Some(refValue))
  {
    Constraint(kind, Some(NewConstraintValue(refValue)))
  }

  /** `constraint.ConstraintValue?.IntegerValue`, which every numeric and text transformer evaluates first. */
  function RefValue(c: Constraint): (r: Result<Option<int32>, Error>)
    ensures r.Failure? <==> c.value.Some? && c.value.value.stored.None?
    ensures r == Success(None) <==> c.value.None?
    ensures c.value.Some? && c.value.value.stored.Some? ==> r == Success(c.value.value.stored)
  {
    match c.value
    case None => Success(None)
    case Some(cv) =>
      var v :- IntegerValue(cv);
      Success(Some(v))
  }

  /** The constraints the two constructors can build. */
  predicate Constructed(c: Constraint) {
    c == NewConstraint(c.kind) || exists v: int32 :: c == NewConstraintWithValue(c.kind, v)
  }

  /** The getter's exception cannot be reached from a constraint built by a constructor. */
  lemma ConstructedHasRefValue(c: Constraint)
    requires Constructed(c)
    ensures RefValue(c).Success?
    ensures RefValue(c).value.None? <==> c.value.None?
  {
    if c != NewConstraint(c.kind) {
      var v: int32 :| c == NewConstraintWithValue(c.kind, v);
    }
  }
}
