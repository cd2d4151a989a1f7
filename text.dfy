/**
 * The string primitives the text rules are built from: `String.Trim`,
 * deletion of the characters a regular expression class rejects, per-character
 * case mapping, and the e-mail pattern. Character classes that depend on the
 * Unicode tables of the runtime are parameters (`ws`, `keep`, `f`).
 */
module Text {

  /** The number of leading characters of `s` that satisfy `ws`. */
  function LeadingCount(s: string, ws: char -> bool): (n: nat)
    ensures n <= |s|
    ensures forall k :: 0 <= k < n ==> ws(s[k])
    ensures n < |s| ==> !ws(s[n])
  {
    if |s| == 0 || !ws(s[0]) then 0 else 1 + LeadingCount(s[1..], ws)
  }

  /** The number of trailing characters of `s` that satisfy `ws`. */
  function TrailingCount(s: string, ws: char -> bool): (n: nat)
    ensures n <= |s|
    ensures forall k :: |s| - n <= k < |s| ==> ws(s[k])
    ensures n < |s| ==> !ws(s[|s| - 1 - n])
  {
    if |s| == 0 || !ws(s[|s| - 1]) then 0 else 1 + TrailingCount(s[..|s| - 1], ws)
  }

  /** `String.Trim()`: `s` without its longest white-space prefix and suffix. */
  function Trim(s: string, ws: char -> bool): (r: string)
    ensures LeadingCount(s, ws) + |r| <= |s|
    ensures r == s[LeadingCount(s, ws)..LeadingCount(s, ws) + |r|]
    ensures forall k :: LeadingCount(s, ws) + |r| <= k < |s| ==> ws(s[k])
    ensures r != [] ==> !ws(r[0]) && !ws(r[|r| - 1])
  {
    var front := s[LeadingCount(s, ws)..];
    front[..|front| - TrailingCount(front, ws)]
  }

  /** The trimmed text is empty exactly when all of it is white space, and otherwise starts at the first other character. */
  lemma TrimStart(s: string, ws: char -> bool)
    ensures Trim(s, ws) == [] <==> LeadingCount(s, ws) == |s|
    ensures Trim(s, ws) != [] ==> Trim(s, ws)[0] == s[LeadingCount(s, ws)]
  {
  }

  /** A string that neither starts nor ends with white space. */
  predicate Trimmed(s: string, ws: char -> bool) {
    s == [] || (!ws(s[0]) && !ws(s[|s| - 1]))
  }

  /** Trimming a string that is already trimmed changes nothing. */
  lemma TrimTrimmed(s: string, ws: char -> bool)
    requires Trimmed(s, ws)
    ensures Trim(s, ws) == s
  {
    assert LeadingCount(s, ws) == 0;
    assert TrailingCount(s, ws) == 0;
  }

  /** Trimming is idempotent. */
  lemma TrimIdempotent(s: string, ws: char -> bool)
    ensures Trim(Trim(s, ws), ws) == Trim(s, ws)
  {
    TrimTrimmed(Trim(s, ws), ws);
  }

  /** `r` can be obtained from `s` by deleting characters. */
  predicate IsSubsequence(r: string, s: string)
    decreases |s|
  {
    if r == [] then true
    else if s == [] then false
    else if r[0] == s[0] then IsSubsequence(r[1..], s[1..])
    else IsSubsequence(r, s[1..])
  }

  /** `Regex.Replace(s, "[^K]+", "")`: every character outside the class `keep` deleted. */
  function Filter(s: string, keep: char -> bool): (r: string)
    ensures |r| <= |s|
    ensures forall k :: 0 <= k < |r| ==> keep(r[k])
  {
    if s == [] then []
    else if keep(s[0]) then [s[0]] + Filter(s[1..], keep)
    else Filter(s[1..], keep)
  }

  /** Filter only deletes: its result is a subsequence of its input. */
  lemma {:induction false} FilterIsSubsequence(s: string, keep: char -> bool)
    ensures IsSubsequence(Filter(s, keep), s)
  {
    if s != [] {
      FilterIsSubsequence(s[1..], keep);
      var rest := Filter(s[1..], keep);
      if keep(s[0]) {
        assert ([s[0]] + rest)[1..] == rest;
      } else {
        assert rest != [] ==> rest[0] != s[0];
      }
    }
  }

  /** Filter deletes no character of the class: each occurs as often as in the input. */
  lemma {:induction false} FilterKeepsCounts(s: string, keep: char -> bool)
    ensures forall c :: keep(c) ==> multiset(Filter(s, keep))[c] == multiset(s)[c]
  {
    if s != [] {
      FilterKeepsCounts(s[1..], keep);
      assert s == [s[0]] + s[1..];
    }
  }

  /** Filter works piecewise: the filter of a concatenation is the concatenation of the filters. */
  lemma {:induction false} FilterAppend(a: string, b: string, keep: char -> bool)
    ensures Filter(a + b, keep) == Filter(a, keep) + Filter(b, keep)
  {
    if a == [] {
      assert a + b == b;
    } else {
      FilterAppend(a[1..], b, keep);
      assert (a + b)[0] == a[0] && (a + b)[1..] == a[1..] + b;
    }
  }

  /** `[^a-zA-Z0-9_.]+` replaced by "" in `%test` leaves `test` ... */
  lemma FilterExampleWord()
    ensures Filter("%test", IsWordOrDot) == "test"
  {
  }

  /** ... and in `&''^@` leaves nothing. */
  lemma FilterExampleJunk()
    ensures Filter("&''^@", IsWordOrDot) == []
  {
  }

  /** So in `%test&''^@` it leaves `test`. */
  lemma FilterExample()
    ensures Filter("%test" + "&''^@", IsWordOrDot) == "test"
  {
    FilterExampleWord();
    FilterExampleJunk();
    FilterAppend("%test", "&''^@", IsWordOrDot);
  }

  /** A string whose every character is in the class is left as it is. */
  lemma {:induction false} FilterKeepsAllowed(s: string, keep: char -> bool)
    requires forall k :: 0 <= k < |s| ==> keep(s[k])
    ensures Filter(s, keep) == s
  {
    if s != [] {
      FilterKeepsAllowed(s[1..], keep);
    }
  }

  /** Deleting the characters outside a class twice deletes nothing more. */
  lemma FilterIdempotent(s: string, keep: char -> bool)
    ensures Filter(Filter(s, keep), keep) == Filter(s, keep)
  {
    FilterKeepsAllowed(Filter(s, keep), keep);
  }

  /** What deleting the characters outside a class does: only they go, and text without them is untouched. */
  lemma FilterFacts(s: string, keep: char -> bool)
    ensures var t := Filter(s, keep);
      && (forall k :: 0 <= k < |t| ==> keep(t[k]))
      && IsSubsequence(t, s)
      && (forall ch :: keep(ch) ==> multiset(t)[ch] == multiset(s)[ch])
      && ((forall k :: 0 <= k < |s| ==> keep(s[k])) ==> t == s)
  {
    FilterIsSubsequence(s, keep);
    FilterKeepsCounts(s, keep);
    if forall k :: 0 <= k < |s| ==> keep(s[k]) {
      FilterKeepsAllowed(s, keep);
    }
  }

  /** `[a-zA-Z0-9_.]`, the characters NoSpecialCharacters keeps. */
  predicate IsWordOrDot(c: char) {
    ('a' <= c <= 'z') || ('A' <= c <= 'Z') || ('0' <= c <= '9') || c == '_' || c == '.'
  }

  /** The result of an invariant case mapping, applied character by character. */
  function MapChars(s: string, f: char -> char): (r: string)
    ensures |r| == |s|
    ensures forall k :: 0 <= k < |s| ==> r[k] == f(s[k])
  {
    if s == [] then [] else [f(s[0])] + MapChars(s[1..], f)
  }

  /** A mapping that keeps non-white-space characters as such keeps trimmed text trimmed. */
  lemma MapCharsTrimmed(t: string, f: char -> char, ws: char -> bool)
    requires Trimmed(t, ws)
    requires forall c {:trigger f(c)} :: !ws(c) ==> !ws(f(c))
    ensures Trimmed(MapChars(t, f), ws)
  {
    if t != [] {
      assert MapChars(t, f)[0] == f(t[0]);
      assert MapChars(t, f)[|t| - 1] == f(t[|t| - 1]);
    }
  }

  /** A mapping that fixes every character of `s` leaves `s` as it is. */
  lemma MapCharsFixed(s: string, f: char -> char)
    requires forall k :: 0 <= k < |s| ==> f(s[k]) == s[k]
    ensures MapChars(s, f) == s
  {
    assert forall k :: 0 <= k < |s| ==> MapChars(s, f)[k] == s[k];
  }

  /** `[^@\s]`: a character allowed in each part of an e-mail address. */
  predicate AddressChar(c: char, ws: char -> bool) {
    c != '@' && !ws(c)
  }

  predicate AllAddressChars(s: string, ws: char -> bool) {
    forall k :: 0 <= k < |s| ==> AddressChar(s[k], ws)
  }

  /** `s` is matched in full by `[^@\s]+@[^@\s]+\.[^@\s]+`: split at the '@' (index `a`) and a '.' (index `d`). */
  predicate EmailShape(s: string, ws: char -> bool) {
    exists a, d :: 0 < a < |s| && a + 1 < d < |s| - 1 && s[a] == '@' && s[d] == '.' &&
      AllAddressChars(s[..a], ws) && AllAddressChars(s[a + 1..d], ws) && AllAddressChars(s[d + 1..], ws)
  }

  /** `Regex.IsMatch(s, "^[^@\s]+@[^@\s]+\.[^@\s]+$")`; `$` also matches before a final newline. */
  function EmailPatternMatch(s: string, ws: char -> bool): (b: bool)
    ensures b ==> 5 <= |s| && '@' in s && '.' in s
  {
    EmailShape(s, ws) || (|s| > 0 && s[|s| - 1] == '\n' && EmailShape(s[..|s| - 1], ws))
  }

  /** No white space, exactly one '@', not at the start, and a '.' strictly inside the part after it. */
  predicate PlainAddress(s: string, ws: char -> bool) {
    (forall k :: 0 <= k < |s| ==> !ws(s[k])) &&
    exists a :: 0 < a < |s| && s[a] == '@' &&
      (forall k :: 0 <= k < |s| && k != a ==> s[k] != '@') &&
      (exists d :: a + 1 < d < |s| - 1 && s[d] == '.')
  }

  /** A match of the e-mail pattern has the shape of a plain address. */
  lemma EmailShapeToPlain(s: string, ws: char -> bool)
    requires !ws('@') && !ws('.')
    requires EmailShape(s, ws)
    ensures PlainAddress(s, ws)
  {
    var a, d :| 0 < a < |s| && a + 1 < d < |s| - 1 && s[a] == '@' && s[d] == '.' &&
      AllAddressChars(s[..a], ws) && AllAddressChars(s[a + 1..d], ws) && AllAddressChars(s[d + 1..], ws);
    forall k | 0 <= k < |s| && k != a
      ensures s[k] != '@' && !ws(s[k])
    {
      if k < a {
        assert s[k] == s[..a][k];
      } else if a < k < d {
        assert s[k] == s[a + 1..d][k - a - 1];
      } else if k > d {
        assert s[k] == s[d + 1..][k - d - 1];
      }
    }
    assert a + 1 < d < |s| - 1 && s[d] == '.';
  }

  /** A plain address matches the e-mail pattern. */
  lemma PlainToEmailShape(s: string, ws: char -> bool)
    requires PlainAddress(s, ws)
    ensures EmailShape(s, ws)
  {
    var a :| 0 < a < |s| && s[a] == '@' &&
      (forall k :: 0 <= k < |s| && k != a ==> s[k] != '@') &&
      (exists d :: a + 1 < d < |s| - 1 && s[d] == '.');
    var d :| a + 1 < d < |s| - 1 && s[d] == '.';
    var local, host, top := s[..a], s[a + 1..d], s[d + 1..];
    forall k | 0 <= k < |local| ensures AddressChar(local[k], ws) {
      assert local[k] == s[k];
    }
    forall k | 0 <= k < |host| ensures AddressChar(host[k], ws) {
      assert host[k] == s[a + 1 + k];
    }
    forall k | 0 <= k < |top| ensures AddressChar(top[k], ws) {
      assert top[k] == s[d + 1 + k];
    }
  }

  /** The e-mail pattern, read character by character. */
  lemma EmailShapeIsPlainAddress(s: string, ws: char -> bool)
    requires !ws('@') && !ws('.')
    ensures EmailShape(s, ws) <==> PlainAddress(s, ws)
  {
    if EmailShape(s, ws) {
      EmailShapeToPlain(s, ws);
    }
    if PlainAddress(s, ws) {
      PlainToEmailShape(s, ws);
    }
  }

  /** On a trimmed string the final-newline allowance of `$` never applies, when '\n' is white space. */
  lemma EmailMatchOfTrimmed(s: string, ws: char -> bool)
    requires Trimmed(s, ws) && ws('\n')
    ensures EmailPatternMatch(s, ws) <==> EmailShape(s, ws)
  {
  }
}
