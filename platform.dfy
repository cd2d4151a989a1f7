/**
 * What the engine takes from the .NET runtime, as parameters rather than
 * implementations: character classes, invariant case mapping, date and Guid
 * parsing, the two generated strings, object construction and double truncation.
 */
module Platform {
  import opened Wrappers
  import opened Entities
  import opened Text

  /** The bits of an IEEE 754 double; its arithmetic is not modelled. */
  type float64 = bv64

  /** A value of a property declared as a reference type other than string. */
  datatype Obj = Null | DbNull | Instance(id: nat)

  datatype Runtime = Runtime(
    isWhiteSpace: char -> bool,                // Char.IsWhiteSpace, the same set as `\s` in .NET regular expressions
    isDigit: char -> bool,                     // `\d`
    toLower: char -> char,                     // ToLowerInvariant, per character
    toUpper: char -> char,                     // ToUpperInvariant, per character
    parsesAsDateTime: string -> bool,          // DateTime.TryParse(s, InvariantCulture, DateTimeStyles.None, out _)
    parsesAsGuid: string -> bool,              // Guid.TryParse(s, out _)
    minDateTimeText: string,                   // DateTime.MinValue.ToString()
    newGuid: string,                           // Guid.NewGuid().ToString()
    createInstance: string -> Option<Obj>,     // Activator.CreateInstance(type); None when it throws
    truncateDouble: (float64, int32) -> float64  // Math.Truncate(v * Math.Pow(10, n)) / Math.Pow(10, n)
  )

  /** Facts about the .NET runtime that the properties of the text rules rely on. */
  ghost predicate WellFormed(rt: Runtime) {
    && !rt.isWhiteSpace('@') && !rt.isWhiteSpace('.') && rt.isWhiteSpace('\n') && rt.isWhiteSpace(' ')
    && (forall c :: IsWordOrDot(c) ==> !rt.isWhiteSpace(c))
    && (forall c :: rt.isDigit(c) ==> !rt.isWhiteSpace(c))
    && (forall c {:trigger rt.toLower(c)} :: !rt.isWhiteSpace(c) ==> !rt.isWhiteSpace(rt.toLower(c)))
    && (forall c {:trigger rt.toUpper(c)} :: !rt.isWhiteSpace(c) ==> !rt.isWhiteSpace(rt.toUpper(c)))
    && (forall c :: rt.toLower(rt.toLower(c)) == rt.toLower(c))
    && (forall c :: rt.toUpper(rt.toUpper(c)) == rt.toUpper(c))
    && (forall s {:trigger Trim(s, rt.isWhiteSpace)} :: rt.parsesAsDateTime(s) ==> rt.parsesAsDateTime(Trim(s, rt.isWhiteSpace)))
    && Trimmed(rt.minDateTimeText, rt.isWhiteSpace)
    && rt.parsesAsGuid(rt.newGuid) && Trimmed(rt.newGuid, rt.isWhiteSpace)
  }
}
