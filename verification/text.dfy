/** Text as the routes measure and match it: the two string lengths the
    length limits compare, and case-insensitive substring matching, the
    reading given here to the user search's `{ $regex: search, $options: 'i' }`
    filter on a literal query. */
module Text {

  /** ASCII lower-casing. */
  function Lower(c: char): char {
    if 'A' <= c <= 'Z' then (c as int + 32) as char else c
  }

  /** Lower-cases every character of `s`. */
  function LowerAll(s: string): (r: string)
    ensures |r| == |s|
    ensures forall i :: 0 <= i < |s| ==> r[i] == Lower(s[i])
  {
    seq(|s|, i requires 0 <= i < |s| => Lower(s[i]))
  }

  /** `q` occurs in `s` starting at position `i`. */
  ghost predicate OccursAt(s: string, q: string, i: int) {
    0 <= i && i + |q| <= |s| && s[i..i + |q|] == q
  }

  /** An occurrence in the tail of `s` is an occurrence in `s`, one position later. */
  lemma OccursInTail(s: string, q: string, i: int)
    requires |s| > 0
    requires 0 <= i
    ensures OccursAt(s[1..], q, i) <==> OccursAt(s, q, i + 1)
  {
    if 0 <= i && i + |q| <= |s[1..]| {
      assert s[1..][i..i + |q|] == s[i + 1..i + 1 + |q|];
    }
  }

  /** `q` is a contiguous part of `s`, found by trying each start position in turn. */
  function Contains(s: string, q: string): (b: bool)
    ensures b <==> exists i :: OccursAt(s, q, i)
    decreases |s|
  {
    if |q| > |s| then false
    else if s[..|q|] == q then
      assert OccursAt(s, q, 0);
      true
    else
      var b := Contains(s[1..], q);
      TailOccurrences(s, q);
      b
  }

  /** When `q` does not start `s`, its occurrences in `s` are exactly those in
      the tail of `s`, shifted by one. */
  lemma TailOccurrences(s: string, q: string)
    requires |q| <= |s|
    requires s[..|q|] != q
    ensures |s| > 0
    ensures (exists i :: OccursAt(s, q, i)) <==> (exists i :: OccursAt(s[1..], q, i))
  {
    if i :| OccursAt(s, q, i) {
      assert i > 0;
      OccursInTail(s, q, i - 1);
    }
    if i :| OccursAt(s[1..], q, i) {
      OccursInTail(s, q, i);
    }
  }

  /** Case-insensitive containment: `q` occurs in `s` once both are lower-cased. */
  function ContainsIgnoringCase(s: string, q: string): (b: bool)
    ensures b <==> exists i :: OccursAt(LowerAll(s), LowerAll(q), i)
  {
    Contains(LowerAll(s), LowerAll(q))
  }

  /** Lower-casing twice is lower-casing once. */
  lemma LowerAllIdempotent(s: string)
    ensures LowerAll(LowerAll(s)) == LowerAll(s)
  {
  }

  /** The match ignores the case of both the text and the query. */
  lemma {:induction false} MatchIgnoresCase(s: string, q: string)
    ensures ContainsIgnoringCase(s, q) == ContainsIgnoringCase(LowerAll(s), q)
    ensures ContainsIgnoringCase(s, q) == ContainsIgnoringCase(s, LowerAll(q))
  {
    LowerAllIdempotent(s);
    LowerAllIdempotent(q);
  }
  // ---------------------------------------------------------------------------
  // Lengths

  /** The UTF-16 code units of one character: a character outside the Basic
      Multilingual Plane is a surrogate pair. */
  function Utf16Units(c: char): nat {
    if c as int < 0x1_0000 then 1 else 2
  }

  /** `String.prototype.length`, which the schema's `maxlength` compares: the
      number of UTF-16 code units. */
  function Utf16Length(s: string): (n: nat)
    ensures |s| <= n <= 2 * |s|
  {
    if s == [] then 0 else Utf16Units(s[0]) + Utf16Length(s[1..])
  }

  /** The variation selectors U+FE0E and U+FE0F. */
  predicate IsPresentationSelector(c: char) {
    c == '\U{FE0E}' || c == '\U{FE0F}'
  }

  /** The length the request validator's `isLength` compares: a surrogate pair
      counts once and presentation selectors do not count. */
  function ValidatorLength(s: string): (n: nat)
    ensures n <= |s|
  {
    if s == [] then 0
    else (if IsPresentationSelector(s[0]) then 0 else 1) + ValidatorLength(s[1..])
  }

  /** The UTF-16 length is the number of characters exactly when none lies
      outside the Basic Multilingual Plane, and twice that number exactly
      when all do. */
  lemma {:induction false} Utf16LengthExtremes(s: string)
    ensures Utf16Length(s) == |s| <==> forall i :: 0 <= i < |s| ==> s[i] as int < 0x1_0000
    ensures Utf16Length(s) == 2 * |s| <==> forall i :: 0 <= i < |s| ==> s[i] as int >= 0x1_0000
  {
    if s != [] {
      Utf16LengthExtremes(s[1..]);
      assert forall i :: 0 < i < |s| ==> s[i] == s[1..][i - 1];
    }
  }

  /** The validator's length is the number of characters exactly when there
      is no presentation selector, and zero exactly when there is nothing else. */
  lemma {:induction false} ValidatorLengthExtremes(s: string)
    ensures ValidatorLength(s) == |s| <==> forall i :: 0 <= i < |s| ==> !IsPresentationSelector(s[i])
    ensures ValidatorLength(s) == 0 <==> forall i :: 0 <= i < |s| ==> IsPresentationSelector(s[i])
  {
    if s != [] {
      ValidatorLengthExtremes(s[1..]);
      assert forall i :: 0 < i < |s| ==> s[i] == s[1..][i - 1];
    }
  }

  /** Text inside the Basic Multilingual Plane without presentation
      selectors, such as ASCII text: both lengths count its characters. */
  predicate PlainText(s: string) {
    forall i :: 0 <= i < |s| ==> s[i] as int < 0x1_0000 && !IsPresentationSelector(s[i])
  }

  lemma PlainTextLengths(s: string)
    requires PlainText(s)
    ensures Utf16Length(s) == ValidatorLength(s) == |s|
  {
    Utf16LengthExtremes(s);
    ValidatorLengthExtremes(s);
  }

  /** Both lengths add up over a concatenation. */
  lemma {:induction false} LengthsOfConcat(a: string, b: string)
    ensures Utf16Length(a + b) == Utf16Length(a) + Utf16Length(b)
    ensures ValidatorLength(a + b) == ValidatorLength(a) + ValidatorLength(b)
  {
    if a == [] {
      assert a + b == b;
    } else {
      assert (a + b)[1..] == a[1..] + b;
      LengthsOfConcat(a[1..], b);
    }
  }
}
