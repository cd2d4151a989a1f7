/**
 * The four per-category transformers of the engine: each switches on the
 * constraint kind and returns the new value or the exception it raises.
 */
module Transformers {
  import opened Wrappers
  import opened Entities
  import opened Text
  import opened Platform
  import opened Decimals

  /** `n` characters of blanks, as PadRight inserts. */
  function Spaces(n: nat): (r: string)
    ensures |r| == n && forall k :: 0 <= k < n ==> r[k] == ' '
  {
    seq(n, _ => ' ')
  }

  /** `t.Length <= n ? t : t[..n]` (and `t.Substring(0, n)`): a negative n faults. */
  function CutTo(t: string, n: int): (r: Result<string, Error>)
    ensures r.Failure? <==> n < 0
    ensures r.Failure? ==> r.error == OutOfRange
    ensures r.Success? ==> r.value <= t && |r.value| == (if |t| <= n then |t| else n)
  {
    if |t| <= n then Success(t)
    else if n < 0 then Failure(OutOfRange)
    else Success(t[..n])
  }

  /** `t.PadRight(width)`: blanks appended up to `width`; a negative width faults. */
  function PadRight(t: string, width: int): (r: Result<string, Error>)
    ensures r.Failure? <==> width < 0
    ensures r.Failure? ==> r.error == OutOfRange
    ensures r.Success? ==> t <= r.value && |r.value| == (if width <= |t| then |t| else width)
    ensures r.Success? ==> forall k :: |t| <= k < |r.value| ==> r.value[k] == ' '
  {
    if width < 0 then Failure(OutOfRange)
    else if width <= |t| then Success(t)
    else Success(t + Spaces(width - |t|))
  }

  /** The text kinds whose arm raises when the reference value is absent. */
  predicate TextNeedsRefValue(kind: ConstraintKind) {
    kind == MaxLength || kind == MinLength || kind == MaxNotNull
  }

  /** The kinds the text switch has an arm for; every other kind only trims. */
  predicate TextKind(kind: ConstraintKind) {
    !(kind == MinValue || kind == MaxValue || kind == NotNegative || kind == MaxDecimalPlaces || kind == NoDbNull)
  }

  /** ApplyStringConstraint: `value` is the string, `None` when it is null. */
  function ApplyStringConstraint(value: Option<string>, c: Constraint, severity: ValidationSeverity, rt: Runtime)
    : (r: Result<Option<string>, Error>)
    ensures RefValue(c).Failure? ==> r == RefValue(c).PropagateFailure()
    ensures RefValue(c) == Success(None) && TextNeedsRefValue(c.kind) ==> r == Failure(ConfigError)
    ensures r.Success? && r.value.None? ==> value.None?
    ensures r.Failure? && r.error.ValidationError? ==>
      severity == Strict && value.Some? && r.error == ValidationError(c.kind, value.value)
  {
    var refValue :- RefValue(c);
    var ws := rt.isWhiteSpace;
    match c.kind
    case NotNull =>
      Success(Some(if value.None? then [] else Trim(value.value, ws)))
    case MaxLength =>
      if refValue.None? then Failure(ConfigError)
      else if value.None? then Success(None)
      else
        var cut :- CutTo(Trim(value.value, ws), refValue.value);
        Success(Some(cut))
    case MinLength =>
      if refValue.None? then Failure(ConfigError)
      else if value.None? then Success(None)
      else
        var t := Trim(value.value, ws);
        if |t| <= refValue.value then Success(Some(t))
        else
          var padded :- PadRight(t, refValue.value);
          Success(Some(padded))
    case MaxNotNull =>
      if refValue.None? then Failure(ConfigError)
      else if value.None? then Success(Some([]))
      else
        var cut :- CutTo(Trim(value.value, ws), refValue.value);
        Success(Some(cut))
    case Lowercase =>
      Success(Some(if value.None? then [] else MapChars(Trim(value.value, ws), rt.toLower)))
    case Uppercase =>
      Success(Some(if value.None? then [] else MapChars(Trim(value.value, ws), rt.toUpper)))
    case NoWhiteSpace =>
      Success(Some(if value.None? then [] else Filter(value.value, c => !ws(c))))
    case NoSpecialCharacters =>
      Success(Some(if value.None? then [] else Filter(value.value, IsWordOrDot)))
    case OnlyDigit =>
      Success(Some(if value.None? then [] else Trim(Filter(value.value, rt.isDigit), ws)))
    case ValidDatetime =>
      Success(Some(
        if value.None? then []
        else if rt.parsesAsDateTime(value.value) then Trim(value.value, ws)
        else []))
    case ForceToValidDatetime =>
      Success(Some(
        if value.None? then rt.minDateTimeText
        else if rt.parsesAsDateTime(value.value) then Trim(value.value, ws)
        else rt.minDateTimeText))
    case SingleChar =>
      if value.None? then Success(Some([]))
      else
        var t := Trim(value.value, ws);
        if |t| == 0 then Failure(OutOfRange) else Success(Some(t[..1]))
    case ValidGuid =>
      if value.None? then Success(Some([]))
      else if rt.parsesAsGuid(Trim(value.value, ws)) then Success(Some(Trim(value.value, ws)))
      else if severity == Strict then Failure(ValidationError(ValidGuid, value.value))
      else Success(Some(rt.newGuid))
    case ValidEmail =>
      if value.None? then Success(Some([]))
      else if EmailPatternMatch(Trim(value.value, ws), ws) then Success(Some(Trim(value.value, ws)))
      else if severity == Strict then Failure(ValidationError(ValidEmail, value.value))
      else Success(Some([]))
    case _ =>
      Success(if value.None? then None else Some(Trim(value.value, ws)))
  }

  /** The integer kinds whose arm raises when the reference value is absent. */
  predicate IntegerNeedsRefValue(kind: ConstraintKind) {
    kind == MinValue || kind == MaxValue || kind == NotNegative
  }

  /** ApplyIntegerConstraint over a 32-bit int. */
  function ApplyIntegerConstraint(v: int32, c: Constraint): (r: Result<int32, Error>)
    ensures RefValue(c).Failure? ==> r == RefValue(c).PropagateFailure()
    ensures RefValue(c) == Success(None) && IntegerNeedsRefValue(c.kind) ==> r == Failure(ConfigError)
    ensures r.Failure? ==> r.error == ConfigError || r.error == UnsetValue
    ensures !IntegerNeedsRefValue(c.kind) && RefValue(c).Success? ==> r == Success(v)
    // MinValue and MaxValue both yield the smaller of the value and the reference
    ensures r.Success? && (c.kind == MinValue || c.kind == MaxValue) ==>
      var n := RefValue(c).value.value;
      r.value <= v && r.value <= n && (r.value == v || r.value == n)
    // NotNegative replaces a negative value by the reference and keeps the others
    ensures r.Success? && c.kind == NotNegative ==>
      (v >= 0 ==> r.value == v) && (v < 0 ==> r.value == RefValue(c).value.value)
  {
    var refValue :- RefValue(c);
    match c.kind
    case MinValue =>
      if refValue.None? then Failure(ConfigError)
      else Success(if v > refValue.value then refValue.value else v)
    case MaxValue =>
      if refValue.None? then Failure(ConfigError)
      else Success(if v > refValue.value then refValue.value else v)
    case NotNegative =>
      if refValue.None? then Failure(ConfigError)
      else Success(if v < 0 then refValue.value else v)
    case _ =>
      Success(v)
  }

  /** ApplyDecimalConstraint. */
  function ApplyDecimalConstraint(v: decimal, c: Constraint): (r: Result<decimal, Error>)
    ensures RefValue(c).Failure? ==> r == RefValue(c).PropagateFailure()
    ensures RefValue(c) == Success(None) && c.kind == MaxDecimalPlaces ==> r == Failure(ConfigError)
    ensures c.kind != MaxDecimalPlaces && RefValue(c).Success? ==> r == Success(v)
    ensures c.kind == MaxDecimalPlaces && RefValue(c).Success? && RefValue(c).value.Some? ==>
      r == Decimals.MaxDecimalPlaces(v, RefValue(c).value.value)
  {
    var refValue :- RefValue(c);
    match c.kind
    case MaxDecimalPlaces =>
      if refValue.None? then Failure(ConfigError)
      else Decimals.MaxDecimalPlaces(v, refValue.value)
    case _ =>
      Success(v)
  }

  /** ApplyDoubleConstraint, with the floating-point truncation left to the runtime. */
  function ApplyDoubleConstraint(v: float64, c: Constraint, rt: Runtime): (r: Result<float64, Error>)
    ensures RefValue(c).Failure? ==> r == RefValue(c).PropagateFailure()
    ensures RefValue(c) == Success(None) && c.kind == MaxDecimalPlaces ==> r == Failure(ConfigError)
    ensures r.Failure? ==> r.error == ConfigError || r.error == UnsetValue
    ensures c.kind != MaxDecimalPlaces && RefValue(c).Success? ==> r == Success(v)
  {
    var refValue :- RefValue(c);
    match c.kind
    case MaxDecimalPlaces =>
      if refValue.None? then Failure(ConfigError)
      else Success(rt.truncateDouble(v, refValue.value))
    case _ =>
      Success(v)
  }

  /** ApplyObjectConstraint; `declaredType` names the property's type, for Activator.CreateInstance. */
  function ApplyObjectConstraint(v: Obj, declaredType: string, c: Constraint, rt: Runtime): (r: Result<Obj, Error>)
    ensures r.Failure? <==> c.kind == NotNull && v.Null? && rt.createInstance(declaredType).None?
    ensures r.Failure? ==> r.error == MissingConstructor
    ensures r.Success? && c.kind == NotNull && v.Null? ==> Some(r.value) == rt.createInstance(declaredType)
    ensures r.Success? && c.kind == NoDbNull && v.DbNull? ==> r.value == Null
    ensures r.Success? && r.value != v ==> (c.kind == NotNull && v.Null?) || (c.kind == NoDbNull && v.DbNull?)
  {
    match c.kind
    case NotNull =>
      if v.Null? then
        match rt.createInstance(declaredType)
        case None => Failure(MissingConstructor)
        case Some(o) => Success(o)
      else Success(v)
    case NoDbNull =>
      Success(if v.DbNull? then Null else v)
    case _ =>
      Success(v)
  }

  // ----- Reference values -----

  /** A constraint built without a reference value fails, in every category, exactly for the kinds that need one. */
  lemma MissingRefValue(value: Option<string>, v: int32, d: decimal, x: float64, kind: ConstraintKind,
                        severity: ValidationSeverity, rt: Runtime)
    ensures ApplyStringConstraint(value, NewConstraint(kind), severity, rt) == Failure(ConfigError) <==> TextNeedsRefValue(kind)
    ensures ApplyIntegerConstraint(v, NewConstraint(kind)) == Failure(ConfigError) <==> IntegerNeedsRefValue(kind)
    ensures ApplyDecimalConstraint(d, NewConstraint(kind)) == Failure(ConfigError) <==> kind == MaxDecimalPlaces
    ensures ApplyDoubleConstraint(x, NewConstraint(kind), rt) == Failure(ConfigError) <==> kind == MaxDecimalPlaces
  {
  }

  // ----- Length rules -----

  /** MaxLength(n): null stays null; otherwise the trimmed text cut to at most n characters, a prefix of it. */
  lemma MaxLengthRule(value: Option<string>, c: Constraint, severity: ValidationSeverity, rt: Runtime)
    requires c.kind == MaxLength && RefValue(c).Success? && RefValue(c).value.Some?
    ensures value.None? ==> ApplyStringConstraint(value, c, severity, rt) == Success(None)
    ensures value.Some? ==>
      var n, t := RefValue(c).value.value, Trim(value.value, rt.isWhiteSpace);
      var r := ApplyStringConstraint(value, c, severity, rt);
      && (r.Failure? <==> n < 0)
      && (r.Failure? ==> r.error == OutOfRange)
      && (r.Success? ==> r.value.Some? && r.value.value <= t && |r.value.value| == (if |t| <= n then |t| else n))
  {
  }

  /** MaxNotNull(n): as MaxLength(n), except that null becomes the empty string. */
  lemma MaxNotNullRule(value: Option<string>, c: Constraint, severity: ValidationSeverity, rt: Runtime)
    requires c.kind == MaxNotNull && RefValue(c).Success? && RefValue(c).value.Some?
    ensures value.None? ==> ApplyStringConstraint(value, c, severity, rt) == Success(Some([]))
    ensures value.Some? ==>
      var n, t := RefValue(c).value.value, Trim(value.value, rt.isWhiteSpace);
      var r := ApplyStringConstraint(value, c, severity, rt);
      && (r.Failure? <==> n < 0)
      && (r.Failure? ==> r.error == OutOfRange)
      && (r.Success? ==> r.value.Some? && r.value.value <= t && |r.value.value| == (if |t| <= n then |t| else n))
  {
  }

  /** MinLength(n) never pads: PadRight is reached only by text longer than n, so the trimmed text comes back. */
  lemma MinLengthNeverPads(value: Option<string>, c: Constraint, severity: ValidationSeverity, rt: Runtime)
    requires c.kind == MinLength && RefValue(c).Success? && RefValue(c).value.Some?
    ensures var n, r := RefValue(c).value.value, ApplyStringConstraint(value, c, severity, rt);
      && (value.None? ==> r == Success(None))
      && (value.Some? && n >= 0 ==> r == Success(Some(Trim(value.value, rt.isWhiteSpace))))
      && (value.Some? && n < 0 ==> r == Failure(OutOfRange))
  {
    if value.Some? && RefValue(c).value.value >= 0 {
      var t := Trim(value.value, rt.isWhiteSpace);
      if |t| > RefValue(c).value.value {
        var p := PadRight(t, RefValue(c).value.value);
        assert p.value == t by {
          assert t <= p.value && |p.value| == |t|;
        }
      }
    }
  }

  // ----- Case mapping -----

  /** Lowercase and Uppercase: null becomes ""; otherwise the trimmed text, mapped character by character. */
  lemma CaseRule(value: Option<string>, c: Constraint, severity: ValidationSeverity, rt: Runtime, f: char -> char)
    requires (c.kind == Lowercase && f == rt.toLower) || (c.kind == Uppercase && f == rt.toUpper)
    requires RefValue(c).Success?
    ensures var r := ApplyStringConstraint(value, c, severity, rt);
      && r.Success? && r.value.Some?
      && (value.None? ==> r.value.value == [])
      && (value.Some? ==>
            var t := Trim(value.value, rt.isWhiteSpace);
            |r.value.value| == |t| && forall k :: 0 <= k < |t| ==> r.value.value[k] == f(t[k]))
    // with an idempotent mapping that keeps non-white-space, the result is trimmed and maps to itself
    ensures WellFormed(rt) ==>
      var u := ApplyStringConstraint(value, c, severity, rt).value.value;
      Trimmed(u, rt.isWhiteSpace) && forall k :: 0 <= k < |u| ==> f(u[k]) == u[k]
  {
    if value.Some? && WellFormed(rt) {
      MapCharsTrimmed(Trim(value.value, rt.isWhiteSpace), f, rt.isWhiteSpace);
    }
  }

  // ----- Filters -----

  /** NoWhiteSpace: every white-space character deleted, nothing else; the text is not trimmed first. */
  lemma NoWhiteSpaceRule(s: string, c: Constraint, severity: ValidationSeverity, rt: Runtime)
    requires c.kind == NoWhiteSpace && RefValue(c).Success?
    ensures ApplyStringConstraint(None, c, severity, rt) == Success(Some([]))
    ensures var r := ApplyStringConstraint(Some(s), c, severity, rt);
      r.Success? && r.value.Some? &&
      var t := r.value.value;
      && (forall k :: 0 <= k < |t| ==> !rt.isWhiteSpace(t[k]))
      && IsSubsequence(t, s)
      && (forall ch :: !rt.isWhiteSpace(ch) ==> multiset(t)[ch] == multiset(s)[ch])
      && ((forall k :: 0 <= k < |s| ==> !rt.isWhiteSpace(s[k])) ==> t == s)
  {
    FilterFacts(s, (ch: char) => !rt.isWhiteSpace(ch));
  }

  /** NoSpecialCharacters: every character outside `[a-zA-Z0-9_.]` deleted, nothing else. */
  lemma NoSpecialCharactersRule(s: string, c: Constraint, severity: ValidationSeverity, rt: Runtime)
    requires c.kind == NoSpecialCharacters && RefValue(c).Success?
    ensures ApplyStringConstraint(None, c, severity, rt) == Success(Some([]))
    ensures var r := ApplyStringConstraint(Some(s), c, severity, rt);
      r.Success? && r.value.Some? &&
      var t := r.value.value;
      && (forall k :: 0 <= k < |t| ==> IsWordOrDot(t[k]))
      && IsSubsequence(t, s)
      && (forall ch :: IsWordOrDot(ch) ==> multiset(t)[ch] == multiset(s)[ch])
      && ((forall k :: 0 <= k < |s| ==> IsWordOrDot(s[k])) ==> t == s)
  {
    FilterFacts(s, IsWordOrDot);
  }

  /** Digits are not white space, so text made of digits is already trimmed. */
  lemma DigitsAreTrimmed(s: string, rt: Runtime)
    requires WellFormed(rt)
    ensures Trim(Filter(s, rt.isDigit), rt.isWhiteSpace) == Filter(s, rt.isDigit)
  {
    var t := Filter(s, rt.isDigit);
    if t != [] {
      assert rt.isDigit(t[0]) && rt.isDigit(t[|t| - 1]);
    }
    TrimTrimmed(t, rt.isWhiteSpace);
  }

  /** OnlyDigit: every non-digit deleted; the Trim that follows has nothing left to remove. */
  lemma OnlyDigitRule(s: string, c: Constraint, severity: ValidationSeverity, rt: Runtime)
    requires c.kind == OnlyDigit && RefValue(c).Success? && WellFormed(rt)
    ensures ApplyStringConstraint(None, c, severity, rt) == Success(Some([]))
    ensures ApplyStringConstraint(Some(s), c, severity, rt) == Success(Some(Filter(s, rt.isDigit)))
    ensures var t := Filter(s, rt.isDigit);
      && (forall k :: 0 <= k < |t| ==> rt.isDigit(t[k]))
      && IsSubsequence(t, s)
      && (forall ch :: rt.isDigit(ch) ==> multiset(t)[ch] == multiset(s)[ch])
      && ((forall k :: 0 <= k < |s| ==> rt.isDigit(s[k])) ==> t == s)
  {
    DigitsAreTrimmed(s, rt);
    FilterFacts(s, rt.isDigit);
  }

  /** The example of the string tests: `%test&''^@` loses everything but `test`. */
  lemma NoSpecialCharactersExample(c: Constraint, severity: ValidationSeverity, rt: Runtime)
    requires c.kind == NoSpecialCharacters && RefValue(c).Success?
    ensures ApplyStringConstraint(Some("%test" + "&''^@"), c, severity, rt) == Success(Some("test"))
  {
    FilterExample();
  }

  // ----- Validation of dates, Guids and e-mail addresses -----

  /** ValidDatetime and ForceToValidDatetime: the trimmed text if it parses as a date, else the fallback. */
  lemma DateTimeRule(s: string, c: Constraint, severity: ValidationSeverity, rt: Runtime)
    requires (c.kind == ValidDatetime || c.kind == ForceToValidDatetime) && RefValue(c).Success?
    ensures var fallback := if c.kind == ValidDatetime then [] else rt.minDateTimeText;
      && ApplyStringConstraint(None, c, severity, rt) == Success(Some(fallback))
      && (rt.parsesAsDateTime(s) ==> ApplyStringConstraint(Some(s), c, severity, rt) == Success(Some(Trim(s, rt.isWhiteSpace))))
      && (!rt.parsesAsDateTime(s) ==> ApplyStringConstraint(Some(s), c, severity, rt) == Success(Some(fallback)))
    // what comes back is a parseable date, or the fallback
    ensures WellFormed(rt) ==>
      var fallback := if c.kind == ValidDatetime then [] else rt.minDateTimeText;
      var t := ApplyStringConstraint(Some(s), c, severity, rt).value.value;
      t == fallback || (rt.parsesAsDateTime(t) && Trimmed(t, rt.isWhiteSpace))
  {
  }

  /** ValidGuid: the trimmed text if it parses as a Guid, else an error (Strict) or a new Guid (Relaxed). */
  lemma ValidGuidRule(s: string, c: Constraint, severity: ValidationSeverity, rt: Runtime)
    requires c.kind == ValidGuid && RefValue(c).Success?
    ensures ApplyStringConstraint(None, c, severity, rt) == Success(Some([]))
    ensures var t, r := Trim(s, rt.isWhiteSpace), ApplyStringConstraint(Some(s), c, severity, rt);
      && (rt.parsesAsGuid(t) ==> r == Success(Some(t)))
      && (!rt.parsesAsGuid(t) && severity == Strict ==> r == Failure(ValidationError(ValidGuid, s)))
      && (!rt.parsesAsGuid(t) && severity == Relaxed ==> r == Success(Some(rt.newGuid)))
    // a non-null text that gets through is a Guid
    ensures WellFormed(rt) ==>
      var r := ApplyStringConstraint(Some(s), c, severity, rt);
      r.Success? ==> r.value.Some? && rt.parsesAsGuid(r.value.value)
  {
  }

  /**
   * ValidEmail: the trimmed text is kept exactly when it has no white space, one '@' that is not
   * its first character, and a '.' strictly inside the part after the '@'.
   */
  lemma ValidEmailRule(s: string, c: Constraint, severity: ValidationSeverity, rt: Runtime)
    requires c.kind == ValidEmail && RefValue(c).Success? && WellFormed(rt)
    ensures ApplyStringConstraint(None, c, severity, rt) == Success(Some([]))
    ensures var t, r := Trim(s, rt.isWhiteSpace), ApplyStringConstraint(Some(s), c, severity, rt);
      && (PlainAddress(t, rt.isWhiteSpace) ==> r == Success(Some(t)))
      && (!PlainAddress(t, rt.isWhiteSpace) && severity == Strict ==> r == Failure(ValidationError(ValidEmail, s)))
      && (!PlainAddress(t, rt.isWhiteSpace) && severity == Relaxed ==> r == Success(Some([])))
  {
    var t := Trim(s, rt.isWhiteSpace);
    EmailMatchOfTrimmed(t, rt.isWhiteSpace);
    EmailShapeIsPlainAddress(t, rt.isWhiteSpace);
  }

  /** SingleChar: the first non-white-space character; text that is all white space faults. */
  lemma SingleCharRule(s: string, c: Constraint, severity: ValidationSeverity, rt: Runtime)
    requires c.kind == SingleChar && RefValue(c).Success?
    ensures ApplyStringConstraint(None, c, severity, rt) == Success(Some([]))
    ensures var lead, r := LeadingCount(s, rt.isWhiteSpace), ApplyStringConstraint(Some(s), c, severity, rt);
      && (r.Failure? <==> lead == |s|)
      && (r.Failure? ==> r.error == OutOfRange)
      && (r.Success? ==> lead < |s| && r.value == Some([s[lead]]) && !rt.isWhiteSpace(s[lead]))
  {
    var t := Trim(s, rt.isWhiteSpace);
    assert ApplyStringConstraint(Some(s), c, severity, rt) == if t == [] then Failure(OutOfRange) else Success(Some(t[..1]));
    TrimStart(s, rt.isWhiteSpace);
    if t != [] {
      assert t[..1] == [t[0]];
    }
  }

  // ----- Trimming kinds -----

  /** NotNull trims and turns null into ""; a kind the text switch has no arm for only trims. */
  lemma TrimmingRule(value: Option<string>, c: Constraint, severity: ValidationSeverity, rt: Runtime)
    requires (c.kind == NotNull || !TextKind(c.kind)) && RefValue(c).Success?
    ensures var r := ApplyStringConstraint(value, c, severity, rt);
      && r.Success?
      && (c.kind == NotNull ==> r.value.Some?)
      && (value.None? && c.kind != NotNull ==> r.value.None?)
      && (value.None? && c.kind == NotNull ==> r.value == Some([]))
      && (value.Some? ==> r.value == Some(Trim(value.value, rt.isWhiteSpace)))
  {
  }

  // ----- Integers, decimals and objects -----

  /** MinValue(n) and MaxValue(n) both give min(v, n); NotNegative(n) gives n for a negative v. */
  lemma IntegerExamples()
    ensures ApplyIntegerConstraint(1000, NewConstraintWithValue(MaxValue, 100)) == Success(100)
    ensures ApplyIntegerConstraint(100, NewConstraintWithValue(MinValue, 50)) == Success(50)
    ensures ApplyIntegerConstraint(30, NewConstraintWithValue(MinValue, 50)) == Success(30)
    ensures ApplyIntegerConstraint(-5, NewConstraintWithValue(NotNegative, 0)) == Success(0)
    ensures ApplyIntegerConstraint(7, NewConstraintWithValue(NotNegative, 0)) == Success(7)
  {
  }

  /** The decimal test: MaxDecimalPlaces(2) turns 0.123456789 into 0.12. */
  lemma DecimalExample()
    ensures ApplyDecimalConstraint(DecimalNumber(123456789, 9), NewConstraintWithValue(MaxDecimalPlaces, 2))
      == Success(DecimalNumber(12, 2))
  {
    TruncatesToTwoPlaces();
  }

  /** The object test: NotNull on a null field yields an instance when the type has a parameterless constructor. */
  lemma ObjectNotNullExample(declaredType: string, rt: Runtime)
    requires rt.createInstance(declaredType).Some? && rt.createInstance(declaredType).value.Instance?
    ensures var r := ApplyObjectConstraint(Null, declaredType, NewConstraint(NotNull), rt);
      r.Success? && r.value != Null
  {
  }

  // ----- Applying a constraint twice -----

  /**
   * The text inputs on which a second application can differ from the first: a null turned into
   * "" that SingleChar, ValidGuid, Strict ValidEmail or a negative MaxNotNull then rejects or
   * replaces, and a cut that ends in white space, which the second Trim removes.
   */
  predicate TextStable(value: Option<string>, c: Constraint, severity: ValidationSeverity, ws: char -> bool) {
    && (c.kind == SingleChar || c.kind == ValidGuid ==> value.Some?)
    && (c.kind == ValidEmail && severity == Strict ==> value.Some?)
    && (c.kind == MaxNotNull && value.None? && RefValue(c).Success? && RefValue(c).value.Some? ==> RefValue(c).value.value >= 0)
    && ((c.kind == MaxLength || c.kind == MaxNotNull) && value.Some? && RefValue(c).Success? && RefValue(c).value.Some? ==>
          var n, t := RefValue(c).value.value, Trim(value.value, ws);
          0 < n < |t| ==> !ws(t[n - 1]))
  }

  /** A cut of trimmed text is trimmed when it is whole, empty, or ends on a non-white-space character. */
  lemma CutTrimmed(t: string, n: int, ws: char -> bool)
    requires Trimmed(t, ws) && CutTo(t, n).Success?
    requires 0 < n < |t| ==> !ws(t[n - 1])
    ensures Trim(CutTo(t, n).value, ws) == CutTo(t, n).value
    ensures CutTo(CutTo(t, n).value, n) == CutTo(t, n)
  {
    var u := CutTo(t, n).value;
    if |t| > n && n > 0 {
      assert u[0] == t[0] && u[|u| - 1] == t[n - 1];
    }
    TrimTrimmed(u, ws);
  }

  /** The length rules, applied to their own result, give it back. */
  lemma LengthIdempotent(value: Option<string>, c: Constraint, severity: ValidationSeverity, rt: Runtime)
    requires c.kind == MaxLength || c.kind == MinLength || c.kind == MaxNotNull
    requires TextStable(value, c, severity, rt.isWhiteSpace)
    requires ApplyStringConstraint(value, c, severity, rt).Success?
    ensures var once := ApplyStringConstraint(value, c, severity, rt).value;
      ApplyStringConstraint(once, c, severity, rt) == Success(once)
  {
    var once := ApplyStringConstraint(value, c, severity, rt).value;
    var n := RefValue(c).value.value;
    if once.Some? {
      var u := once.value;
      if value.None? {
        assert c.kind == MaxNotNull && u == [] && n >= 0;
        assert CutTo(u, n) == Success(u);
      } else {
        var t := Trim(value.value, rt.isWhiteSpace);
        if c.kind == MinLength {
          MinLengthNeverPads(value, c, severity, rt);
          TrimIdempotent(value.value, rt.isWhiteSpace);
          MinLengthNeverPads(once, c, severity, rt);
        } else {
          assert u == CutTo(t, n).value;
          CutTrimmed(t, n, rt.isWhiteSpace);
        }
      }
    }
  }

  /** Lowercase and Uppercase, applied to their own result, give it back. */
  lemma CaseIdempotent(value: Option<string>, c: Constraint, severity: ValidationSeverity, rt: Runtime)
    requires c.kind == Lowercase || c.kind == Uppercase
    requires WellFormed(rt) && RefValue(c).Success?
    ensures var once := ApplyStringConstraint(value, c, severity, rt).value;
      ApplyStringConstraint(once, c, severity, rt) == Success(once)
  {
    var f := if c.kind == Lowercase then rt.toLower else rt.toUpper;
    CaseRule(value, c, severity, rt, f);
    var u := ApplyStringConstraint(value, c, severity, rt).value.value;
    CaseArm(Some(u), c, severity, rt, f);
    TrimTrimmed(u, rt.isWhiteSpace);
    MapCharsFixed(u, f);
  }

  /** The Lowercase and Uppercase arm: the trimmed text mapped character by character. */
  lemma CaseArm(value: Option<string>, c: Constraint, severity: ValidationSeverity, rt: Runtime, f: char -> char)
    requires (c.kind == Lowercase && f == rt.toLower) || (c.kind == Uppercase && f == rt.toUpper)
    requires RefValue(c).Success?
    ensures ApplyStringConstraint(value, c, severity, rt) ==
      Success(Some(if value.None? then [] else MapChars(Trim(value.value, rt.isWhiteSpace), f)))
  {
  }

  /** The three filters, applied to their own result, give it back. */
  lemma FilterRulesIdempotent(value: Option<string>, c: Constraint, severity: ValidationSeverity, rt: Runtime)
    requires c.kind == NoWhiteSpace || c.kind == NoSpecialCharacters || c.kind == OnlyDigit
    requires WellFormed(rt) && RefValue(c).Success?
    ensures var once := ApplyStringConstraint(value, c, severity, rt).value;
      ApplyStringConstraint(once, c, severity, rt) == Success(once)
  {
    var u := ApplyStringConstraint(value, c, severity, rt).value.value;
    var ws := rt.isWhiteSpace;
    if c.kind == NoWhiteSpace {
      FilterKeepsAllowed(u, (ch: char) => !ws(ch));
    } else if c.kind == NoSpecialCharacters {
      FilterKeepsAllowed(u, IsWordOrDot);
    } else {
      if value.Some? {
        OnlyDigitRule(value.value, c, severity, rt);
        FilterKeepsAllowed(u, rt.isDigit);
      }
      OnlyDigitRule(u, c, severity, rt);
    }
  }

  /** ValidDatetime and ForceToValidDatetime, applied to their own result, give it back. */
  lemma DateTimeIdempotent(value: Option<string>, c: Constraint, severity: ValidationSeverity, rt: Runtime)
    requires c.kind == ValidDatetime || c.kind == ForceToValidDatetime
    requires WellFormed(rt) && RefValue(c).Success?
    ensures var once := ApplyStringConstraint(value, c, severity, rt).value;
      ApplyStringConstraint(once, c, severity, rt) == Success(once)
  {
    var u := ApplyStringConstraint(value, c, severity, rt).value.value;
    DateTimeRule(u, c, severity, rt);
    if value.Some? {
      DateTimeRule(value.value, c, severity, rt);
    }
    TrimTrimmed(u, rt.isWhiteSpace);
  }

  /** SingleChar, applied to its own result on a non-null text, gives it back. */
  lemma SingleCharIdempotent(s: string, c: Constraint, severity: ValidationSeverity, rt: Runtime)
    requires c.kind == SingleChar && RefValue(c).Success?
    requires ApplyStringConstraint(Some(s), c, severity, rt).Success?
    ensures var once := ApplyStringConstraint(Some(s), c, severity, rt).value;
      ApplyStringConstraint(once, c, severity, rt) == Success(once)
  {
    var u := ApplyStringConstraint(Some(s), c, severity, rt).value.value;
    SingleCharRule(s, c, severity, rt);
    SingleCharRule(u, c, severity, rt);
    assert LeadingCount(u, rt.isWhiteSpace) == 0;
  }

  /** ValidGuid, applied to its own result on a non-null text, gives it back. */
  lemma ValidGuidIdempotent(s: string, c: Constraint, severity: ValidationSeverity, rt: Runtime)
    requires c.kind == ValidGuid && RefValue(c).Success? && WellFormed(rt)
    requires ApplyStringConstraint(Some(s), c, severity, rt).Success?
    ensures var once := ApplyStringConstraint(Some(s), c, severity, rt).value;
      ApplyStringConstraint(once, c, severity, rt) == Success(once)
  {
    var u := ApplyStringConstraint(Some(s), c, severity, rt).value.value;
    ValidGuidRule(s, c, severity, rt);
    ValidGuidRule(u, c, severity, rt);
    TrimIdempotent(s, rt.isWhiteSpace);
    TrimTrimmed(rt.newGuid, rt.isWhiteSpace);
  }

  /** ValidEmail, applied to its own result, gives it back, unless a null meets Strict. */
  lemma ValidEmailIdempotent(value: Option<string>, c: Constraint, severity: ValidationSeverity, rt: Runtime)
    requires c.kind == ValidEmail && RefValue(c).Success? && WellFormed(rt)
    requires severity == Strict ==> value.Some?
    requires ApplyStringConstraint(value, c, severity, rt).Success?
    ensures var once := ApplyStringConstraint(value, c, severity, rt).value;
      ApplyStringConstraint(once, c, severity, rt) == Success(once)
  {
    var u := ApplyStringConstraint(value, c, severity, rt).value.value;
    ValidEmailRule(u, c, severity, rt);
    TrimTrimmed([], rt.isWhiteSpace);
    if value.Some? {
      ValidEmailRule(value.value, c, severity, rt);
      TrimIdempotent(value.value, rt.isWhiteSpace);
    }
  }

  /** NotNull and the kinds without an arm of their own, applied to their own result, give it back. */
  lemma TrimmingIdempotent(value: Option<string>, c: Constraint, severity: ValidationSeverity, rt: Runtime)
    requires (c.kind == NotNull || !TextKind(c.kind)) && RefValue(c).Success?
    ensures var once := ApplyStringConstraint(value, c, severity, rt).value;
      ApplyStringConstraint(once, c, severity, rt) == Success(once)
  {
    var once := ApplyStringConstraint(value, c, severity, rt).value;
    TrimmingRule(value, c, severity, rt);
    TrimmingRule(once, c, severity, rt);
    if value.Some? {
      TrimIdempotent(value.value, rt.isWhiteSpace);
    } else if once.Some? {
      TrimTrimmed([], rt.isWhiteSpace);
    }
  }

  /** A text constraint applied to its own successful result gives it back, wherever TextStable holds. */
  lemma StringIdempotent(value: Option<string>, c: Constraint, severity: ValidationSeverity, rt: Runtime)
    requires WellFormed(rt) && TextStable(value, c, severity, rt.isWhiteSpace)
    requires ApplyStringConstraint(value, c, severity, rt).Success?
    ensures var once := ApplyStringConstraint(value, c, severity, rt).value;
      ApplyStringConstraint(once, c, severity, rt) == Success(once)
  {
    if c.kind in {MaxLength, MinLength, MaxNotNull} {
      LengthIdempotent(value, c, severity, rt);
    } else if c.kind in {Lowercase, Uppercase} {
      CaseIdempotent(value, c, severity, rt);
    } else if c.kind in {NoWhiteSpace, NoSpecialCharacters, OnlyDigit} {
      FilterRulesIdempotent(value, c, severity, rt);
    } else if c.kind in {ValidDatetime, ForceToValidDatetime} {
      DateTimeIdempotent(value, c, severity, rt);
    } else if c.kind == SingleChar {
      SingleCharIdempotent(value.value, c, severity, rt);
    } else if c.kind == ValidGuid {
      ValidGuidIdempotent(value.value, c, severity, rt);
    } else if c.kind == ValidEmail {
      ValidEmailIdempotent(value, c, severity, rt);
    } else {
      TrimmingIdempotent(value, c, severity, rt);
    }
  }

  /** An integer constraint applied to its own result gives it back. */
  lemma IntegerIdempotent(v: int32, c: Constraint)
    requires ApplyIntegerConstraint(v, c).Success?
    ensures ApplyIntegerConstraint(ApplyIntegerConstraint(v, c).value, c) == ApplyIntegerConstraint(v, c)
  {
  }

  /** A decimal constraint applied to its own result gives it back. */
  lemma DecimalIdempotent(v: decimal, c: Constraint)
    requires ApplyDecimalConstraint(v, c).Success?
    ensures ApplyDecimalConstraint(ApplyDecimalConstraint(v, c).value, c) == ApplyDecimalConstraint(v, c)
  {
    if c.kind == MaxDecimalPlaces {
      MaxDecimalPlacesIdempotent(v, RefValue(c).value.value);
    }
  }

  /** An object constraint applied to its own result gives it back. */
  lemma ObjectIdempotent(v: Obj, declaredType: string, c: Constraint, rt: Runtime)
    requires ApplyObjectConstraint(v, declaredType, c, rt).Success?
    ensures var once := ApplyObjectConstraint(v, declaredType, c, rt).value;
      ApplyObjectConstraint(once, declaredType, c, rt) == Success(once)
  {
  }

  // ----- Where a second application differs -----

  /** SingleChar turns null into "", and then faults on that "". */
  lemma SingleCharNotIdempotent(severity: ValidationSeverity, rt: Runtime)
    ensures ApplyStringConstraint(None, NewConstraint(SingleChar), severity, rt) == Success(Some([]))
    ensures ApplyStringConstraint(Some([]), NewConstraint(SingleChar), severity, rt) == Failure(OutOfRange)
  {
    TrimTrimmed([], rt.isWhiteSpace);
  }

  /** Strict ValidEmail turns null into "", and then rejects that "". */
  lemma ValidEmailNotIdempotent(rt: Runtime)
    ensures ApplyStringConstraint(None, NewConstraint(ValidEmail), Strict, rt) == Success(Some([]))
    ensures ApplyStringConstraint(Some([]), NewConstraint(ValidEmail), Strict, rt) == Failure(ValidationError(ValidEmail, []))
  {
    TrimTrimmed([], rt.isWhiteSpace);
  }

  /** ValidGuid turns null into "", and then replaces that "" by a new Guid (Relaxed) or rejects it (Strict). */
  lemma ValidGuidNotIdempotent(rt: Runtime)
    requires !rt.parsesAsGuid([])
    ensures ApplyStringConstraint(None, NewConstraint(ValidGuid), Relaxed, rt) == Success(Some([]))
    ensures ApplyStringConstraint(Some([]), NewConstraint(ValidGuid), Relaxed, rt) == Success(Some(rt.newGuid))
    ensures ApplyStringConstraint(Some([]), NewConstraint(ValidGuid), Strict, rt) == Failure(ValidationError(ValidGuid, []))
    ensures WellFormed(rt) ==> rt.newGuid != []
  {
    TrimTrimmed([], rt.isWhiteSpace);
  }

  /** MaxNotNull with a negative length turns null into "", and then faults on that "". */
  lemma MaxNotNullNotIdempotent(n: int32, severity: ValidationSeverity, rt: Runtime)
    requires n < 0
    ensures ApplyStringConstraint(None, NewConstraintWithValue(MaxNotNull, n), severity, rt) == Success(Some([]))
    ensures ApplyStringConstraint(Some([]), NewConstraintWithValue(MaxNotNull, n), severity, rt) == Failure(OutOfRange)
  {
    TrimTrimmed([], rt.isWhiteSpace);
  }

  /**
   * MaxLength(3) cuts "ab cd" to "ab ", whose trailing blank the second Trim removes. The text
   * is a parameter fixed by the requires, so that Dafny does not evaluate the switch on a literal.
   */
  lemma MaxLengthNotIdempotent(s: string, severity: ValidationSeverity, rt: Runtime)
    requires s == "ab cd" && WellFormed(rt)
    ensures ApplyStringConstraint(Some(s), NewConstraintWithValue(MaxLength, 3), severity, rt) == Success(Some("ab "))
    ensures ApplyStringConstraint(Some("ab "), NewConstraintWithValue(MaxLength, 3), severity, rt) == Success(Some("ab"))
  {
    CutEndsInBlank(s, rt);
  }

  /** MaxNotNull(3) cuts "ab cd" to "ab " just as MaxLength(3) does, and the second Trim removes the blank. */
  lemma MaxNotNullCutNotIdempotent(s: string, severity: ValidationSeverity, rt: Runtime)
    requires s == "ab cd" && WellFormed(rt)
    ensures ApplyStringConstraint(Some(s), NewConstraintWithValue(MaxNotNull, 3), severity, rt) == Success(Some("ab "))
    ensures ApplyStringConstraint(Some("ab "), NewConstraintWithValue(MaxNotNull, 3), severity, rt) == Success(Some("ab"))
  {
    CutEndsInBlank(s, rt);
  }

  /** The trimming facts both cut counterexamples rest on: "ab cd" is trimmed, and "ab " trims to "ab". */
  lemma CutEndsInBlank(s: string, rt: Runtime)
    requires s == "ab cd" && WellFormed(rt)
    ensures Trim(s, rt.isWhiteSpace) == s && s[..3] == "ab "
    ensures Trim("ab ", rt.isWhiteSpace) == "ab"
  {
    var ws := rt.isWhiteSpace;
    assert IsWordOrDot('a') && IsWordOrDot('b') && IsWordOrDot('d');
    TrimTrimmed(s, ws);
    assert s[..3] == "ab ";
    assert LeadingCount("ab ", ws) == 0;
    assert TrailingCount("ab ", ws) == 1 by {
      assert ("ab ")[..2] == "ab";
    }
  }
}
