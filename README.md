# SharpSanitizer, modelled in Dafny

SharpSanitizer rewrites the public properties of a .NET object according to a
dictionary that maps property names to constraints. `Sanitize(obj)` walks the
object's properties in order. Each property whose name has a constraint is
classified by its type code (String, Object, Int16, Int32, Double, Decimal,
…) and handed to the matching transformer. The result is written back into
the property. `Sanitize(list)` does the same for every element of a list in
turn. A constraint is a kind (MaxLength, Lowercase, ValidEmail, MinValue,
MaxDecimalPlaces, NotNull, …) with an optional integer reference value. The
sanitizer's validation severity (Strict or Relaxed) decides whether invalid
Guids and e-mail addresses raise or are replaced.

The model has seven modules. The first six are these:

- `Wrappers`: `Option`, `Result` (with `:-` propagation) and `Outcome`, which says how a walk ended.
- `Entities`: the constraint kinds, in the engine's own set and not the enum file's; `ValidationSeverity`; the exceptions the engine can raise, as an `Error` datatype; `ConstraintValue`, `Constraint` and their constructors and getter.
- `Text`: `String.Trim`, the three regular-expression deletions (`\s+`, `[^a-zA-Z0-9_.]+`, `[^\d]+`), per-character case mapping, and the e-mail pattern `^[^@\s]+@[^@\s]+\.[^@\s]+$`.
- `Platform`: the calls into .NET that the engine makes. Each is a field of a `Runtime` value, and `WellFormed` states what the proofs assume about them.
- `Decimals`: `System.Decimal` as an exact mantissa and scale.
- `Transformers`: `ApplyStringConstraint`, `ApplyIntegerConstraint`, `ApplyDecimalConstraint`, `ApplyDoubleConstraint` and `ApplyObjectConstraint`, each a function that returns the new value or the exception.

The seventh, the engine itself (`Engine`), has these parts:

- A record is a `Record` class. It holds a fixed sequence of properties (`const properties`) and their values (`var values`), which the engine updates in place.
- `Sanitizer` is a class holding the dictionary and the severity.
- `Sanitizer.Sanitize` and `Sanitizer.SanitizeAll` are methods with loops. The body of `SanitizeAll`'s loop, one call of `Sanitize` on one record of the list, is the method `Sanitizer.SanitizeAt`. Each is proved against pure specification functions:
  - `FirstFailure` is the index of the first property that raises.
  - `Sanitized` gives the values left behind.
  - `SanitizeOutcome` says how the walk ended.
  - `FirstFailingRecord` is the index of the first record that raises.

An exception is a `Failure` result inside a transformer, and a `Fail` outcome of the walk. Its effect on the state is what the code does:

- in a record, the properties before the one that raised keep their new values, that one and the ones after it keep their old values;
- in a list, the records before the failing one have been sanitized, the failing record is partly sanitized, and the records after it are untouched.

Behaviour as the code has it, kept in the model even where a name suggests something else:

- `MinValue(n)` clamps downward exactly like `MaxValue(n)`: its result is min(v, n).
- `MinLength(n)` never pads. `PadRight(n)` is reached only by text longer than n, so it has nothing to add.
- `MaxNotNull(n)` checks for a reference value before it checks for null. So a value-less MaxNotNull raises even on a null string.
- `SingleChar` on text that is empty after trimming raises `ArgumentOutOfRangeException`. It is modelled as the error `OutOfRange`, not as an empty result.
- The Int16 arm unboxes a boxed `short` as `int`, which raises `InvalidCastException`. A constrained Int16 property therefore always stops the walk.
- `Sanitize(list)` does not catch exceptions. The first record that raises ends the loop, and the exception reaches the caller.
- Sanitizing twice is not the same as sanitizing once for every kind:
  - SingleChar, ValidGuid, Strict ValidEmail and a negative MaxNotNull turn null into "", and then reject "" or replace it;
  - a MaxLength or MaxNotNull cut that ends in white space loses that white space to the second `Trim`.

  The model proves idempotence under the conditions that exclude exactly these cases, and it gives a concrete counterexample for each.

## Model

| member | source | states |
|---|---|---|
| Entities.NewConstraintValue | src/SharpSanitizer/Entity/ConstraintValue.cs:24-27 | a constructed value's IntegerValue is the int given to the constructor |
| Entities.IntegerValue | src/SharpSanitizer/Entity/ConstraintValue.cs:12-21 | the getter fails (ArgumentException) exactly when the read-only backing field is null; otherwise it returns that field |
| Entities.NewConstraint | src/SharpSanitizer/Entity/Constraint.cs:20-23 | any kind is accepted; no reference value is stored, so the engine sees an absent value |
| Entities.NewConstraintWithValue | src/SharpSanitizer/Entity/Constraint.cs:30-34 | any kind is accepted; the stored ConstraintValue's IntegerValue is the given int |
| Entities.RefValue | src/SharpSanitizer/SharpSanitizer.cs:133 | `constraint.ConstraintValue?.IntegerValue` fails exactly when a value object is present but unset, is absent exactly when no value object is present, and is the stored int when a set value object is present |
| Entities.ConstructedHasRefValue | src/SharpSanitizer/Entity/ConstraintValue.cs:17-27 | for a constraint either constructor built, the getter's exception is unreachable, and the reference value is absent only when it was built without one |
| Text.Trim | src/SharpSanitizer/SharpSanitizer.cs:137 | the result is the contiguous slice of the input after the leading white space and before the trailing white space, and neither of its ends is white space |
| Text.TrimIdempotent | src/SharpSanitizer/SharpSanitizer.cs:137 | trimming a trimmed string changes nothing |
| Text.Filter | src/SharpSanitizer/SharpSanitizer.cs:185-195 | `Regex.Replace(t, "[…]+", "")` for a character class: the result is no longer than the input, and every character in it belongs to the class that is kept |
| Text.FilterIsSubsequence | src/SharpSanitizer/SharpSanitizer.cs:185-195 | deleting the matches of a character-class regex leaves a subsequence of the input |
| Text.FilterKeepsCounts | src/SharpSanitizer/SharpSanitizer.cs:185-195 | every allowed character occurs in the result as often as in the input |
| Text.FilterKeepsAllowed | src/SharpSanitizer/SharpSanitizer.cs:185-195 | an input made only of allowed characters comes back unchanged |
| Text.FilterIdempotent | src/SharpSanitizer/SharpSanitizer.cs:185-195 | deleting again deletes nothing |
| Text.FilterAppend | src/SharpSanitizer/SharpSanitizer.cs:185-195 | deletion works piece by piece: the deletion of a concatenation is the concatenation of the deletions |
| Text.FilterExample | src/SharpSanitizer.Test/StringSanitizerTest.cs:44-52 | `%test&''^@` keeps only `test` under `[a-zA-Z0-9_.]` |
| Text.MapChars | src/SharpSanitizer/SharpSanitizer.cs:175-180 | `ToLowerInvariant` / `ToUpperInvariant` as a per-character mapping: the result has the input's length, and its k-th character is the mapping of the input's k-th character |
| Text.MapCharsTrimmed | src/SharpSanitizer/SharpSanitizer.cs:175-180 | a case mapping that keeps non-white-space characters non-white-space keeps trimmed text trimmed |
| Text.EmailPatternMatch | src/SharpSanitizer/SharpSanitizer.cs:232 | `Regex.IsMatch(t, "^[^@\s]+@[^@\s]+\.[^@\s]+$")`, with `$` also matching before one final newline: a matching text has at least five characters and contains an '@' and a '.' |
| Text.EmailShapeIsPlainAddress | src/SharpSanitizer/SharpSanitizer.cs:231-232 | a full match of `[^@\s]+@[^@\s]+\.[^@\s]+` is, in both directions, text with no white space, exactly one '@' that is not first, and a '.' strictly inside the part after it |
| Text.EmailMatchOfTrimmed | src/SharpSanitizer/SharpSanitizer.cs:231-232 | on trimmed text, the allowance of `$` for one final newline never applies |
| Decimals.ScaledTrunc | src/SharpSanitizer/SharpSanitizer.cs:308 | `Math.Truncate(step * v)` with step = 10^n, as an integer q: \|q\| is the largest whole number with \|q\| ≤ \|v\|·10^n, and q never has the opposite sign of v |
| Decimals.MaxDecimalPlaces | src/SharpSanitizer/SharpSanitizer.cs:307-309 | `trunc(step·v)/step` with step = 10^n. The result is no larger in magnitude than v and never of the opposite sign. For n ≥ 0 it has n decimal places and lies within 10^-n of v; for n < 0 it is a whole multiple of 10^-n within 10^-n of v. n > 28, or a result that does not fit a decimal, overflows; n < -28 divides by zero |
| Decimals.MaxDecimalPlacesIdempotent | src/SharpSanitizer/SharpSanitizer.cs:300-310 | truncating again at the same place gives the same decimal |
| Decimals.TruncatesToTwoPlaces | src/SharpSanitizer.Test/DecimalSanitizerTest.cs:34-39 | 0.123456789 with two places is 0.12 |
| Decimals.TruncatesTowardZero | src/SharpSanitizer/SharpSanitizer.cs:308 | 0.129 gives 0.12 and -0.129 gives -0.12: truncation toward zero, not rounding, for either sign |
| Transformers.CutTo | src/SharpSanitizer/SharpSanitizer.cs:146-147 | `t.Length <= n ? t : t[..n]` fails with OutOfRange exactly when n < 0, and otherwise is a prefix of t of length min(\|t\|, n) |
| Transformers.PadRight | src/SharpSanitizer/SharpSanitizer.cs:158 | `PadRight(width)` fails exactly when width < 0; otherwise t followed by blanks up to width |
| Transformers.ApplyStringConstraint | src/SharpSanitizer/SharpSanitizer.cs:131-244 | an unset reference value propagates; a value-less MaxLength, MinLength or MaxNotNull raises ArgumentNullException; a null result comes only from a null input; a validation error arises only under Strict, for a non-null input, and carries that input |
| Transformers.MissingRefValue | src/SharpSanitizer/SharpSanitizer.cs:140-142 | with a value-less constraint, each transformer raises ArgumentNullException exactly for the kinds whose arm needs a value, and for MaxNotNull even on null |
| Transformers.MaxLengthRule | src/SharpSanitizer/SharpSanitizer.cs:138-148 | null stays null; otherwise the trimmed text cut to at most n characters, a prefix of it; a negative n raises |
| Transformers.MaxNotNullRule | src/SharpSanitizer/SharpSanitizer.cs:160-171 | as MaxLength, except that null becomes "" |
| Transformers.MinLengthNeverPads | src/SharpSanitizer/SharpSanitizer.cs:149-159 | null stays null; otherwise the trimmed text itself for n ≥ 0, never padded; a negative n raises |
| Transformers.CaseRule | src/SharpSanitizer/SharpSanitizer.cs:172-181 | null becomes ""; otherwise the trimmed text mapped character by character, which is trimmed and fixed by the mapping |
| Transformers.NoWhiteSpaceRule | src/SharpSanitizer/SharpSanitizer.cs:182-186 | null becomes ""; otherwise a subsequence with no white space that keeps every other character, unchanged if there was none |
| Transformers.NoSpecialCharactersRule | src/SharpSanitizer/SharpSanitizer.cs:187-191 | null becomes ""; otherwise a subsequence of `[a-zA-Z0-9_.]` characters that keeps every one of them, unchanged if nothing else occurred |
| Transformers.OnlyDigitRule | src/SharpSanitizer/SharpSanitizer.cs:192-196 | null becomes ""; otherwise exactly the digits of the text, in order, since the trailing Trim has nothing left to remove |
| Transformers.NoSpecialCharactersExample | src/SharpSanitizer.Test/StringSanitizerTest.cs:44-52 | the property `%test&''^@` is sanitized to `test` |
| Transformers.DateTimeRule | src/SharpSanitizer/SharpSanitizer.cs:197-210 | the trimmed text if it parses as a date, else "" (ValidDatetime) or `DateTime.MinValue.ToString()` (ForceToValidDatetime), including for null |
| Transformers.ValidGuidRule | src/SharpSanitizer/SharpSanitizer.cs:216-227 | null becomes ""; the trimmed text if it parses as a Guid; otherwise an error under Strict and a new Guid under Relaxed; text that gets through parses |
| Transformers.ValidEmailRule | src/SharpSanitizer/SharpSanitizer.cs:228-240 | null becomes ""; the trimmed text exactly when it is a plain address; otherwise an error under Strict and "" under Relaxed |
| Transformers.SingleCharRule | src/SharpSanitizer/SharpSanitizer.cs:211-215 | null becomes ""; otherwise the first non-white-space character, and OutOfRange exactly when there is none |
| Transformers.TrimmingRule | src/SharpSanitizer/SharpSanitizer.cs:136-137 | NotNull trims and turns null into ""; a kind without a text arm (the default arm, lines 241-242) trims and keeps null |
| Transformers.ApplyIntegerConstraint | src/SharpSanitizer/SharpSanitizer.cs:252-287 | MinValue and MaxValue both give the smaller of v and n; NotNegative gives n for negative v and v otherwise; other kinds keep v; a value-less MinValue, MaxValue or NotNegative raises |
| Transformers.IntegerExamples | src/SharpSanitizer.Test/IntegerSanitizerTest.cs:37-44 | 1000 under MaxValue(100) gives 100; 100 under MinValue(50) gives 50; 30 under MinValue(50) stays 30; NotNegative(0) turns -5 into 0 and keeps 7. The test builds these constraints with the kinds `Max` and `Min` (IntegerSanitizerTest.cs lines 25-26), which the engine's switch does not have; the lemma reads them as MaxValue and MinValue. The 30 ↦ 30 case is not in the test: it follows from the engine's clamping arm |
| Transformers.ApplyDecimalConstraint | src/SharpSanitizer/SharpSanitizer.cs:295-314 | MaxDecimalPlaces(n) is the exact truncation at n places, a value-less one raises, and every other kind keeps the value |
| Transformers.DecimalExample | src/SharpSanitizer.Test/DecimalSanitizerTest.cs:34-39 | the decimal test's property becomes 0.12 |
| Transformers.ApplyDoubleConstraint | src/SharpSanitizer/SharpSanitizer.cs:322-340 | only MaxDecimalPlaces changes a double, and a value-less one raises; every other kind keeps the value |
| Transformers.ApplyObjectConstraint | src/SharpSanitizer/SharpSanitizer.cs:348-367 | fails exactly when NotNull meets null and the declared type cannot be instantiated; NotNull turns null into the new instance; NoDbNull turns DBNull into null; nothing else changes |
| Transformers.ObjectNotNullExample | src/SharpSanitizer.Test/ObjectSanitizerTest.cs:32-37 | a null field under NotNull becomes non-null when its type can be instantiated |
| Transformers.StringIdempotent | src/SharpSanitizer/SharpSanitizer.cs:131-244 | on stable input, applying a text constraint to its own result gives that result back |
| Transformers.IntegerIdempotent | src/SharpSanitizer/SharpSanitizer.cs:252-287 | applying an integer constraint to its own result gives that result back |
| Transformers.DecimalIdempotent | src/SharpSanitizer/SharpSanitizer.cs:295-314 | applying a decimal constraint to its own result gives that result back |
| Transformers.ObjectIdempotent | src/SharpSanitizer/SharpSanitizer.cs:348-367 | applying an object constraint to its own result gives that result back |
| Transformers.SingleCharNotIdempotent | src/SharpSanitizer/SharpSanitizer.cs:213-214 | null gives "", and "" then raises |
| Transformers.ValidEmailNotIdempotent | src/SharpSanitizer/SharpSanitizer.cs:230-237 | under Strict, null gives "", and "" is then rejected |
| Transformers.ValidGuidNotIdempotent | src/SharpSanitizer/SharpSanitizer.cs:218-225 | null gives "", which is then replaced by a new Guid (Relaxed) or rejected (Strict) |
| Transformers.MaxNotNullNotIdempotent | src/SharpSanitizer/SharpSanitizer.cs:167-170 | with a negative length, null gives "", and "" then raises |
| Transformers.MaxNotNullCutNotIdempotent | src/SharpSanitizer/SharpSanitizer.cs:167-170 | MaxNotNull(3) cuts "ab cd" to "ab ", which a second pass trims to "ab" |
| Transformers.MaxLengthNotIdempotent | src/SharpSanitizer/SharpSanitizer.cs:145-147 | MaxLength(3) cuts "ab cd" to "ab ", which a second pass trims to "ab" |
| Engine.SanitizeProperty | src/SharpSanitizer/SharpSanitizer.cs:40-108 | a property without a constraint is kept; only a constrained String, Object, Int32, Double or Decimal property can change, and what it becomes has its type's shape; it raises exactly when its transformer raises or it is a constrained Int16, which raises InvalidCastException; a constrained String, Object, Int32, Double or Decimal property receives exactly its transformer's result, or raises exactly its transformer's exception |
| Engine.FirstFailure | src/SharpSanitizer/SharpSanitizer.cs:38-109 | every property before the index sanitizes without an exception, and the one at the index raises |
| Engine.Sanitized | src/SharpSanitizer/SharpSanitizer.cs:38-109 | the values left behind still fit the record's properties |
| Engine.SanitizeOutcome | src/SharpSanitizer/SharpSanitizer.cs:34-110 | how Sanitize ends: when an exception escapes, it is the exception of the property at `FirstFailure`, which lies inside the record |
| Engine.OutcomePass | src/SharpSanitizer/SharpSanitizer.cs:38-109 | Sanitize completes normally exactly when every property sanitizes without an exception |
| Engine.OutcomeFail | src/SharpSanitizer/SharpSanitizer.cs:34-110 | when Sanitize raises, the exception is that of some property, and every property before that one sanitizes without an exception |
| Engine.StopsAtFirstFailure | src/SharpSanitizer/SharpSanitizer.cs:38-109 | the walk ends with the first property's exception; the properties before it are rewritten, each from its own old value and constraint alone; the rest are untouched |
| Engine.SanitizedFrame | src/SharpSanitizer/SharpSanitizer.cs:40-108 | a property that changes has a constraint, a String/Object/Int32/Double/Decimal type code, and comes before the property that raised |
| Engine.Unconstrained | src/SharpSanitizer/SharpSanitizer.cs:41-42 | a record none of whose property names has a constraint is left as it was, without an exception |
| Engine.MissingValueAborts | src/SharpSanitizer/SharpSanitizer.cs:140-142 | a value-less length constraint (this throw and its twins at lines 151-153 and 162-164) ends the walk with ArgumentNullException when the walk reaches it, and leaves that property and those after it untouched |
| Engine.Int16Aborts | src/SharpSanitizer/SharpSanitizer.cs:72-77 | a constrained Int16 property ends the walk with InvalidCastException, leaving it and those after it untouched |
| Engine.PropertyIdempotent | src/SharpSanitizer/SharpSanitizer.cs:44-107 | sanitizing a stable property a second time gives back what the first time produced |
| Engine.SanitizeIdempotent | src/SharpSanitizer/SharpSanitizer.cs:34-110 | a stable record that sanitizes without an exception sanitizes again without one and is left as the first pass left it |
| Engine.FirstFailingRecord | src/SharpSanitizer/SharpSanitizer.cs:116-122 | every record before the index sanitizes without an exception, and the record at the index raises |
| Engine.Record.constructor | src/SharpSanitizer/SharpSanitizer.cs:38 | a record holds one value per property, of that property's shape |
| Engine.Sanitizer.constructor | src/SharpSanitizer/SharpSanitizer.cs:18-22 | the sanitizer keeps the dictionary, and its severity is Relaxed |
| Engine.Sanitizer.WithSeverity | src/SharpSanitizer/SharpSanitizer.cs:24-28 | the sanitizer keeps the dictionary and the given severity |
| Engine.Sanitizer.Sanitize | src/SharpSanitizer/SharpSanitizer.cs:34-110 | null is left alone without an exception; otherwise the record ends holding `Sanitized` of its old values, and the outcome is `SanitizeOutcome`: the first property's exception, or normal completion |
| Engine.Sanitizer.SanitizeAt | src/SharpSanitizer/SharpSanitizer.cs:118-121 | one pass of the list loop: the record at i ends holding `Sanitized` of its old values, every other record is untouched, and the pass raises exactly when that record's walk fails, with that walk's exception |
| Engine.Sanitizer.SanitizeAll | src/SharpSanitizer/SharpSanitizer.cs:116-122 | the records are sanitized in order up to and including the first that raises, and every later record is untouched; the outcome is normal exactly when no record raises, and otherwise is that record's exception |

## Left out

- Reflection is not modelled. A record is given as its sequence of properties (name, type code, declared type) and their values. `GetProperties`, `GetValue`, `SetValue` and `Type.GetTypeCode` do not appear, and neither does `SetValue` raising on a property without a setter.
- The record type is taken to be a class whose properties are instance properties. For a struct, `SetValue` writes to a boxed copy, so the caller's value would not change. `GetProperties()` also returns public static properties, which all records would share. An enum property has type code Int32, so it takes the Int32 arm, and `SetValue` with a plain int then raises ArgumentException. None of these three cases is modelled.
- Foreign calls are not implemented. Each is a field of `Runtime`: `Char.IsWhiteSpace` / `\s`, `\d`, invariant case mapping per character, `DateTime.TryParse`, `DateTime.MinValue.ToString()`, `Guid.TryParse`, `Activator.CreateInstance` and floating-point truncation. The proofs assume only what `WellFormed` states about them. Culture dependence and multi-character case mappings are not modelled.
- `Guid.NewGuid()` is one fixed text in the model, rather than a fresh value on each call.
- Strings are sequences of `char`. UTF-16 surrogate pairs and culture-sensitive behaviour of `ToLowerInvariant` / `ToUpperInvariant` on them are not modelled.
- Transformers.ApplyDoubleConstraint: binary floating-point arithmetic (`Math.Pow`, `Math.Truncate`, the division) is left to `Runtime.truncateDouble`, an abstract function, so nothing is proved about the truncated double.
- Decimals.MaxDecimalPlaces: decimals are compared as mantissa and scale. Trailing zeros that .NET strips or keeps in the scale of a result are not modelled, except that the result's scale is n for n ≥ 0.
- Engine.Sanitizer.SanitizeAll: the records of the list must be distinct objects. A list that holds the same object twice, which would sanitize it twice, is not modelled. A null list and lazy or infinite `IEnumerable` sources are not modelled either.
- Engine.SanitizeIdempotent: it holds only for stable records (`RecordStable`), because the counterexamples above show that the unconditional property is false for six cases. Doubles under MaxDecimalPlaces are excluded, because nothing is known about the runtime's truncation.
- Null values of value-typed properties (`int?` and the like) are not modelled. Their type code is Object, and the model's Object arm holds references only.
- A null constraint dictionary and a null constraint in it are not modelled (they raise NullReferenceException in the code).
- src/SharpSanitizer/Helper/GenericsHelper.cs is not part of this model: the engine never calls it.
- src/SharpSanitizer/ISharpSanitizer.cs is not part of this model: it only declares the two `Sanitize` signatures.
- src/SharpSanitizer/Enum/ConstraintType.cs is not part of this model: it lists an older set of kinds. The kinds are taken from the engine's switch arms.
- The test projects are used only as evidence for the example lemmas. Their use of kinds `Max` and `Min`, which the engine does not have, is not modelled.
