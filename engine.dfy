/**
 * The engine: a record's properties walked in order, each one that has a
 * constraint classified by its type code and handed to the matching
 * transformer, its value written back in place; an exception ends the walk.
 */
module Engine {
  import opened Wrappers
  import opened Entities
  import opened Text
  import opened Platform
  import opened Decimals
  import opened Transformers

  /** System.TypeCode, the classification of a property's declared type. */
  datatype TypeCode =
    | Empty | Object | DBNull | Boolean | Char | SByte | Byte | Int16 | UInt16
    | Int32 | UInt32 | Int64 | UInt64 | Single | Double | Decimal | DateTime | String

  /** A public property as reflection reports it: name, type code and declared type. */
  datatype Property = Property(name: string, code: TypeCode, declaredType: string)

  /** The boxed value a property holds. */
  datatype Value =
    | TextValue(text: Option<string>)
    | ShortValue(short: int)
    | IntValue(integer: int32)
    | DoubleValue(double: float64)
    | DecimalValue(dec: decimal)
    | ObjectValue(obj: Obj)
    | OtherValue(raw: nat)

  /** The value has the shape the property's type code implies. */
  predicate Fits(p: Property, v: Value) {
    match p.code
    case String => v.TextValue?
    case Object => v.ObjectValue?
    case Int16 => v.ShortValue? && -0x8000 <= v.short < 0x8000
    case Int32 => v.IntValue?
    case Double => v.DoubleValue?
    case Decimal => v.DecimalValue?
    case _ => v.OtherValue?
  }

  /** One value per property, each of the property's shape. */
  predicate Conforms(props: seq<Property>, vals: seq<Value>) {
    |props| == |vals| && forall i :: 0 <= i < |props| ==> Fits(props[i], vals[i])
  }

  /** What a sanitizer is built from, together with the runtime it calls into. */
  datatype Settings = Settings(constraints: map<string, Constraint>, severity: ValidationSeverity, runtime: Runtime)

  /** The type codes whose arm of the switch writes a value back. */
  predicate Rewritten(code: TypeCode) {
    code == String || code == Object || code == Int32 || code == Double || code == Decimal
  }

  /**
   * One iteration of the loop over properties: the dictionary lookup and the switch on the
   * type code. The Int16 arm unboxes a boxed `short` as `int`, which raises InvalidCastException.
   */
  function SanitizeProperty(s: Settings, p: Property, v: Value): (r: Result<Value, Error>)
    requires Fits(p, v)
    ensures p.name !in s.constraints ==> r == Success(v)
    ensures r.Success? ==> Fits(p, r.value)
    // only a constrained property of a rewritten type code can change
    ensures r.Success? && r.value != v ==> p.name in s.constraints && Rewritten(p.code)
    ensures r.Failure? <==> (p.name in s.constraints && (
      || (p.code == Int16)
      || (p.code == String && ApplyStringConstraint(v.text, s.constraints[p.name], s.severity, s.runtime).Failure?)
      || (p.code == Object && ApplyObjectConstraint(v.obj, p.declaredType, s.constraints[p.name], s.runtime).Failure?)
      || (p.code == Int32 && ApplyIntegerConstraint(v.integer, s.constraints[p.name]).Failure?)
      || (p.code == Double && ApplyDoubleConstraint(v.double, s.constraints[p.name], s.runtime).Failure?)
      || (p.code == Decimal && ApplyDecimalConstraint(v.dec, s.constraints[p.name]).Failure?)))
    ensures r.Failure? && p.code == Int16 ==> r.error == InvalidCast
    // a constrained property of a rewritten type code receives its transformer's result or exception
    ensures p.name in s.constraints && p.code == String ==>
      var t := ApplyStringConstraint(v.text, s.constraints[p.name], s.severity, s.runtime);
      r == if t.Success? then Success(TextValue(t.value)) else Failure(t.error)
    ensures p.name in s.constraints && p.code == Object ==>
      var t := ApplyObjectConstraint(v.obj, p.declaredType, s.constraints[p.name], s.runtime);
      r == if t.Success? then Success(ObjectValue(t.value)) else Failure(t.error)
    ensures p.name in s.constraints && p.code == Int32 ==>
      var t := ApplyIntegerConstraint(v.integer, s.constraints[p.name]);
      r == if t.Success? then Success(IntValue(t.value)) else Failure(t.error)
    ensures p.name in s.constraints && p.code == Double ==>
      var t := ApplyDoubleConstraint(v.double, s.constraints[p.name], s.runtime);
      r == if t.Success? then Success(DoubleValue(t.value)) else Failure(t.error)
    ensures p.name in s.constraints && p.code == Decimal ==>
      var t := ApplyDecimalConstraint(v.dec, s.constraints[p.name]);
      r == if t.Success? then Success(DecimalValue(t.value)) else Failure(t.error)
  {
    if p.name !in s.constraints then Success(v)
    else
      var c := s.constraints[p.name];
      match p.code
      case String =>
        var t :- ApplyStringConstraint(v.text, c, s.severity, s.runtime);
        Success(TextValue(t))
      case Object =>
        var o :- ApplyObjectConstraint(v.obj, p.declaredType, c, s.runtime);
        Success(ObjectValue(o))
      case Int16 =>
        Failure(InvalidCast)
      case Int32 =>
        var n :- ApplyIntegerConstraint(v.integer, c);
        Success(IntValue(n))
      case Double =>
        var x :- ApplyDoubleConstraint(v.double, c, s.runtime);
        Success(DoubleValue(x))
      case Decimal =>
        var d :- ApplyDecimalConstraint(v.dec, c);
        Success(DecimalValue(d))
      case _ =>
        Success(v)
  }

  /** The index of the first property, from `from` on, whose sanitization raises; |props| if none does. */
  function FirstFailure(s: Settings, props: seq<Property>, vals: seq<Value>, from: nat): (k: nat)
    requires Conforms(props, vals) && from <= |props|
    decreases |props| - from
    ensures from <= k <= |props|
    ensures forall j :: from <= j < k ==> SanitizeProperty(s, props[j], vals[j]).Success?
    ensures k < |props| ==> SanitizeProperty(s, props[k], vals[k]).Failure?
  {
    if from == |props| then from
    else if SanitizeProperty(s, props[from], vals[from]).Failure? then from
    else FirstFailure(s, props, vals, from + 1)
  }

  /** The values Sanitize leaves behind: those before the first failing property rewritten, the rest untouched. */
  function Sanitized(s: Settings, props: seq<Property>, vals: seq<Value>): (r: seq<Value>)
    requires Conforms(props, vals)
    ensures Conforms(props, r)
  {
    var k := FirstFailure(s, props, vals, 0);
    seq(|vals|, j requires 0 <= j < |vals| =>
      if j < k then SanitizeProperty(s, props[j], vals[j]).value else vals[j])
  }

  /** How Sanitize ends: normally, or with the exception of the first failing property. */
  function SanitizeOutcome(s: Settings, props: seq<Property>, vals: seq<Value>): (o: Outcome<Error>)
    requires Conforms(props, vals)
    ensures o.Fail? ==> var k := FirstFailure(s, props, vals, 0);
      k < |props| && SanitizeProperty(s, props[k], vals[k]) == Failure(o.error)
  {
    var k := FirstFailure(s, props, vals, 0);
    if k == |props| then Pass else Fail(SanitizeProperty(s, props[k], vals[k]).error)
  }

  /** Sanitize completes without an exception exactly when every property sanitizes without one. */
  lemma OutcomePass(s: Settings, props: seq<Property>, vals: seq<Value>)
    requires Conforms(props, vals)
    ensures SanitizeOutcome(s, props, vals) == Pass <==>
      forall j :: 0 <= j < |props| ==> SanitizeProperty(s, props[j], vals[j]).Success?
  {
  }

  /** When Sanitize raises, the exception is that of a property before which every property went through. */
  lemma OutcomeFail(s: Settings, props: seq<Property>, vals: seq<Value>)
    requires Conforms(props, vals)
    ensures SanitizeOutcome(s, props, vals).Fail? ==>
      exists j :: 0 <= j < |props| && SanitizeProperty(s, props[j], vals[j]) == Failure(SanitizeOutcome(s, props, vals).error) &&
        forall i :: 0 <= i < j ==> SanitizeProperty(s, props[i], vals[i]).Success?
  {
    var k := FirstFailure(s, props, vals, 0);
    if k < |props| {
      assert forall i :: 0 <= i < k ==> SanitizeProperty(s, props[i], vals[i]).Success?;
    }
  }

  /**
   * The walk stops at the first property that raises: when the properties before `k` go through
   * and the one at `k`, if any, raises, Sanitize ends with that exception, the properties before
   * `k` hold their sanitized values and the others keep theirs.
   */
  lemma StopsAtFirstFailure(s: Settings, props: seq<Property>, vals: seq<Value>, k: nat)
    requires Conforms(props, vals) && k <= |props|
    requires forall j :: 0 <= j < k ==> SanitizeProperty(s, props[j], vals[j]).Success?
    requires k < |props| ==> SanitizeProperty(s, props[k], vals[k]).Failure?
    ensures SanitizeOutcome(s, props, vals) ==
      if k == |props| then Pass else Fail(SanitizeProperty(s, props[k], vals[k]).error)
    ensures forall j :: 0 <= j < |props| ==>
      Sanitized(s, props, vals)[j] == if j < k then SanitizeProperty(s, props[j], vals[j]).value else vals[j]
  {
    assert FirstFailure(s, props, vals, 0) == k;
  }

  /**
   * A property Sanitize changes has a constraint, a type code whose arm writes back, and comes
   * before the property that raised.
   */
  lemma SanitizedFrame(s: Settings, props: seq<Property>, vals: seq<Value>, j: nat)
    requires Conforms(props, vals) && j < |props|
    requires Sanitized(s, props, vals)[j] != vals[j]
    ensures props[j].name in s.constraints && Rewritten(props[j].code)
    ensures j < FirstFailure(s, props, vals, 0)
  {
  }

  /** A record none of whose property names has a constraint is left exactly as it was. */
  lemma {:induction false} Unconstrained(s: Settings, props: seq<Property>, vals: seq<Value>)
    requires Conforms(props, vals)
    requires forall j :: 0 <= j < |props| ==> props[j].name !in s.constraints
    ensures Sanitized(s, props, vals) == vals
    ensures SanitizeOutcome(s, props, vals) == Pass
  {
    StopsAtFirstFailure(s, props, vals, |props|);
  }

  /**
   * A string property whose constraint needs a value and was built without one aborts the
   * record with ArgumentNullException (ConfigError) once the walk reaches it; the properties from
   * it on keep their values.
   */
  lemma MissingValueAborts(s: Settings, props: seq<Property>, vals: seq<Value>, k: nat)
    requires Conforms(props, vals) && k < |props|
    requires forall j :: 0 <= j < k ==> SanitizeProperty(s, props[j], vals[j]).Success?
    requires props[k].code == String && props[k].name in s.constraints
    requires TextNeedsRefValue(s.constraints[props[k].name].kind) && s.constraints[props[k].name].value.None?
    ensures SanitizeOutcome(s, props, vals) == Fail(ConfigError)
    ensures forall j :: k <= j < |props| ==> Sanitized(s, props, vals)[j] == vals[j]
  {
    StopsAtFirstFailure(s, props, vals, k);
  }

  /** A constrained Int16 property aborts the record with InvalidCastException once the walk reaches it. */
  lemma Int16Aborts(s: Settings, props: seq<Property>, vals: seq<Value>, k: nat)
    requires Conforms(props, vals) && k < |props|
    requires forall j :: 0 <= j < k ==> SanitizeProperty(s, props[j], vals[j]).Success?
    requires props[k].code == Int16 && props[k].name in s.constraints
    ensures SanitizeOutcome(s, props, vals) == Fail(InvalidCast)
    ensures forall j :: k <= j < |props| ==> Sanitized(s, props, vals)[j] == vals[j]
  {
    StopsAtFirstFailure(s, props, vals, k);
  }

  /**
   * The value is one whose transformer gives a value it leaves alone: for strings the conditions
   * of TextStable, for doubles anything but MaxDecimalPlaces (floating-point truncation is a
   * runtime call the model knows nothing about).
   */
  predicate FieldStable(s: Settings, p: Property, v: Value)
    requires Fits(p, v)
  {
    p.name in s.constraints ==>
      match p.code
      case String => TextStable(v.text, s.constraints[p.name], s.severity, s.runtime.isWhiteSpace)
      case Double => s.constraints[p.name].kind != MaxDecimalPlaces
      case _ => true
  }

  /** Sanitizing a stable property a second time leaves what the first time produced. */
  lemma PropertyIdempotent(s: Settings, p: Property, v: Value)
    requires Fits(p, v) && WellFormed(s.runtime) && FieldStable(s, p, v)
    requires SanitizeProperty(s, p, v).Success?
    ensures var once := SanitizeProperty(s, p, v).value;
      SanitizeProperty(s, p, once) == Success(once)
  {
    if p.name in s.constraints {
      var c := s.constraints[p.name];
      match p.code
      case String => StringIdempotent(v.text, c, s.severity, s.runtime);
      case Object => ObjectIdempotent(v.obj, p.declaredType, c, s.runtime);
      case Int32 => IntegerIdempotent(v.integer, c);
      case Decimal => DecimalIdempotent(v.dec, c);
      case _ =>
    }
  }

  /** Every property of the record is stable. */
  predicate RecordStable(s: Settings, props: seq<Property>, vals: seq<Value>)
    requires Conforms(props, vals)
  {
    forall j :: 0 <= j < |props| ==> FieldStable(s, props[j], vals[j])
  }

  /**
   * Sanitizing twice is sanitizing once: a stable record that sanitizes without an exception
   * sanitizes again without one and is left as the first pass left it.
   */
  lemma SanitizeIdempotent(s: Settings, props: seq<Property>, vals: seq<Value>)
    requires Conforms(props, vals) && WellFormed(s.runtime) && RecordStable(s, props, vals)
    requires SanitizeOutcome(s, props, vals) == Pass
    ensures var once := Sanitized(s, props, vals);
      Sanitized(s, props, once) == once && SanitizeOutcome(s, props, once) == Pass
  {
    var once := Sanitized(s, props, vals);
    StopsAtFirstFailure(s, props, vals, |props|);
    forall j | 0 <= j < |props|
      ensures SanitizeProperty(s, props[j], once[j]) == Success(once[j])
    {
      PropertyIdempotent(s, props[j], vals[j]);
    }
    StopsAtFirstFailure(s, props, once, |props|);
  }

  /** An object whose public properties the engine reads with GetValue and writes with SetValue. */
  class Record {
    const properties: seq<Property>
    var values: seq<Value>

    predicate Valid()
      reads this
    {
      Conforms(properties, values)
    }

    constructor (properties: seq<Property>, values: seq<Value>)
      requires Conforms(properties, values)
      ensures this.properties == properties && this.values == values
      ensures Valid()
    {
      this.properties := properties;
      this.values := values;
    }
  }

  /** The values of the records of a list, as they stand; [] for a null element. */
  function Snapshot(list: seq<Record?>): (r: seq<seq<Value>>)
    reads list
    ensures |r| == |list|
  {
    seq(|list|, i requires 0 <= i < |list| reads list => if list[i] == null then [] else list[i].values)
  }

  /** Sanitizing the record raises. */
  predicate Fails(s: Settings, props: seq<Property>, vals: seq<Value>)
    requires Conforms(props, vals)
  {
    FirstFailure(s, props, vals, 0) < |props|
  }

  /** Every non-null record of the list has values that fit its properties. */
  predicate ListConforms(list: seq<Record?>, before: seq<seq<Value>>) {
    |before| == |list| && forall i :: 0 <= i < |list| && list[i] != null ==> Conforms(list[i].properties, before[i])
  }

  /** The index of the first record, from `from` on, whose sanitization raises; |list| if none does. */
  function FirstFailingRecord(s: Settings, list: seq<Record?>, before: seq<seq<Value>>, from: nat): (k: nat)
    requires ListConforms(list, before) && from <= |list|
    decreases |list| - from
    ensures from <= k <= |list|
    ensures forall i :: from <= i < k && list[i] != null ==> !Fails(s, list[i].properties, before[i])
    ensures k < |list| ==> list[k] != null && Fails(s, list[k].properties, before[k])
  {
    if from == |list| then from
    else if list[from] != null && Fails(s, list[from].properties, before[from]) then from
    else FirstFailingRecord(s, list, before, from + 1)
  }

  /** SharpSanitizer<T>: a constraint per property name and a validation severity. */
  class Sanitizer {
    const constraints: map<string, Constraint>
    const severity: ValidationSeverity
    const runtime: Runtime

    /** The settings the pure functions take. */
    function Config(): (s: Settings)
      ensures s.constraints == constraints && s.severity == severity && s.runtime == runtime
    {
      Settings(constraints, severity, runtime)
    }

    /** The constructor without a severity: Relaxed. */
    constructor (constraints: map<string, Constraint>, runtime: Runtime)
      ensures this.constraints == constraints && this.runtime == runtime
      ensures severity == Relaxed
    {
      this.constraints := constraints;
      this.severity := Relaxed;
      this.runtime := runtime;
    }

    constructor WithSeverity(constraints: map<string, Constraint>, severity: ValidationSeverity, runtime: Runtime)
      ensures this.constraints == constraints && this.severity == severity && this.runtime == runtime
    {
      this.constraints := constraints;
      this.severity := severity;
      this.runtime := runtime;
    }

    /** Sanitize(T obj): nothing for null; otherwise each property in turn, until one raises. */
    method Sanitize(obj: Record?) returns (outcome: Outcome<Error>)
      requires obj != null ==> obj.Valid()
      modifies obj
      ensures obj == null ==> outcome == Pass
      ensures obj != null ==> obj.Valid()
      ensures obj != null ==> obj.values == Sanitized(Config(), obj.properties, old(obj.values))
      ensures obj != null ==> outcome == SanitizeOutcome(Config(), obj.properties, old(obj.values))
    {
      if obj == null {
        return Pass;
      }
      ghost var before := obj.values;
      ghost var s := Config();
      var i := 0;
      while i < |obj.properties|
        invariant 0 <= i <= |obj.properties|
        invariant obj.Valid()
        invariant FirstFailure(s, obj.properties, before, 0) == FirstFailure(s, obj.properties, before, i)
        invariant forall j :: 0 <= j < i ==> obj.values[j] == SanitizeProperty(s, obj.properties[j], before[j]).value
        invariant forall j :: i <= j < |before| ==> obj.values[j] == before[j]
      {
        var p := obj.properties[i];
        if p.name in constraints {
          var r := SanitizeProperty(Config(), p, obj.values[i]);
          if r.Failure? {
            assert obj.values == Sanitized(s, obj.properties, before);
            return Fail(r.error);
          }
          obj.values := obj.values[i := r.value];
        }
        i := i + 1;
      }
      assert obj.values == Sanitized(s, obj.properties, before);
      return Pass;
    }

    /** One pass of the list loop: Sanitize the record at `i`, leaving every other record as it was. */
    method SanitizeAt(list: seq<Record?>, i: nat, ghost before: seq<seq<Value>>) returns (o: Outcome<Error>)
      requires i < |list| && ListConforms(list, before)
      requires forall a, b :: 0 <= a < b < |list| && list[a] != null ==> list[a] != list[b]
      requires list[i] != null ==> list[i].values == before[i]
      modifies list[i]
      ensures forall j :: 0 <= j < |list| && j != i && list[j] != null ==> list[j].values == old(list[j].values)
      ensures list[i] != null ==> list[i].values == Sanitized(Config(), list[i].properties, before[i])
      ensures o.Fail? <==> list[i] != null && Fails(Config(), list[i].properties, before[i])
      ensures o.Fail? ==> o == SanitizeOutcome(Config(), list[i].properties, before[i])
    {
      o := Sanitize(list[i]);
      if list[i] != null {
        assert o == SanitizeOutcome(Config(), list[i].properties, before[i]);
      }
    }

    /** Sanitize(IEnumerable<T> list): the records in order, until one raises. */
    method SanitizeAll(list: seq<Record?>) returns (outcome: Outcome<Error>)
      requires forall i :: 0 <= i < |list| && list[i] != null ==> list[i].Valid()
      requires forall i, j :: 0 <= i < j < |list| && list[i] != null ==> list[i] != list[j]
      modifies list
      ensures forall i :: 0 <= i < |list| && list[i] != null ==> list[i].Valid()
      ensures var before := old(Snapshot(list));
        ListConforms(list, before) &&
        var k := FirstFailingRecord(Config(), list, before, 0);
        && (outcome == Pass <==> k == |list|)
        && (k < |list| ==> outcome == SanitizeOutcome(Config(), list[k].properties, before[k]))
        && (forall i :: 0 <= i < |list| && list[i] != null ==>
              list[i].values == if i <= k then Sanitized(Config(), list[i].properties, before[i]) else before[i])
    {
      ghost var before := Snapshot(list);
      ghost var s := Config();
      ghost var k := FirstFailingRecord(s, list, before, 0);
      outcome := Pass;
      var i := 0;
      while i < |list|
        invariant i <= k
        invariant outcome == Pass
        invariant ListConforms(list, before)
        invariant forall j :: 0 <= j < i && list[j] != null ==> list[j].values == Sanitized(s, list[j].properties, before[j])
        invariant forall j :: i <= j < |list| && list[j] != null ==> list[j].values == before[j]
      {
        var o := SanitizeAt(list, i, before);
        if o.Fail? {
          outcome := o;
          break;
        }
        i := i + 1;
      }
      assert i == k;
    }
  }
}
