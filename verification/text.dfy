/** String primitives the contact code relies on: whitespace trimming, lower
    casing, substring search and the numeric parse of a phone field. Whitespace
    and case are ASCII-only here. */
module Text {
  import opened ContactTypes

  /** ASCII white space: space, tab, line feed, vertical tab, form feed,
      carriage return. */
  predicate IsSpace(c: char) {
    c == ' ' || c == '\t' || c == '\n' || c == '\U{0B}' || c == '\U{0C}' || c == '\r'
  }

  /** Every character is white space (the empty string is blank). */
  predicate IsBlank(s: string) {
    forall i | 0 <= i < |s| :: IsSpace(s[i])
  }

  /** No character is white space. */
  predicate NoSpace(s: string) {
    forall i | 0 <= i < |s| :: !IsSpace(s[i])
  }

  /** `r` is `s` with a blank prefix and a blank suffix removed, and neither end
      of `r` is white space: this pins down exactly one `r` for each `s`. */
  ghost predicate IsTrimOf(r: string, s: string) {
    && (r == [] || (!IsSpace(r[0]) && !IsSpace(r[|r| - 1])))
    && exists i, j | 0 <= i <= j <= |s| :: s[i..j] == r && IsBlank(s[..i]) && IsBlank(s[j..])
  }

  /** The first position at or after `i` that is not white space, or `|s|`
      when there is none. */
  function SkipBlanks(s: string, i: nat): (r: nat)
    requires i <= |s|
    ensures i <= r <= |s|
    ensures forall k | i <= k < r :: IsSpace(s[k])
    ensures r == |s| || !IsSpace(s[r])
    decreases |s| - i
  {
    if i == |s| || !IsSpace(s[i]) then i else SkipBlanks(s, i + 1)
  }

  /** The position just after the last character before `j` that is not
      white space, or 0 when there is none. */
  function SkipBlanksBack(s: string, j: nat): (r: nat)
    requires j <= |s|
    ensures r <= j
    ensures forall k | r <= k < j :: IsSpace(s[k])
    ensures r == 0 || !IsSpace(s[r - 1])
  {
    if j == 0 || !IsSpace(s[j - 1]) then j else SkipBlanksBack(s, j - 1)
  }

  /** JavaScript's `String.prototype.trim`: the text from the first to the
      last character that is not white space. */
  function Trim(s: string): (r: string)
    ensures |r| <= |s|
    ensures r == [] <==> IsBlank(s)
  {
    var i := SkipBlanks(s, 0);
    var j := SkipBlanksBack(s, |s|);
    assert i < j <==> !IsBlank(s) by {
      if !IsBlank(s) {
        var p :| 0 <= p < |s| && !IsSpace(s[p]);
        assert i <= p < j;
      }
    }
    if i < j then s[i..j] else []
  }

  /** Neither end of `s` is white space. */
  predicate IsTrimmed(s: string) {
    s == [] || (!IsSpace(s[0]) && !IsSpace(s[|s| - 1]))
  }

  /** `Trim(s)` is `s` without a blank prefix and a blank suffix, and neither
      of its ends is white space. */
  lemma TrimCharacterized(s: string)
    ensures IsTrimOf(Trim(s), s)
  {
    var i := SkipBlanks(s, 0);
    var j := SkipBlanksBack(s, |s|);
    if i < j {
      assert s[i..j] == Trim(s) && IsBlank(s[..i]) && IsBlank(s[j..]);
    } else {
      assert s[i..i] == Trim(s) && IsBlank(s[..i]) && IsBlank(s[i..]);
    }
  }

  /** The result of `Trim` has no white space at either end. */
  lemma TrimIsTrimmed(s: string)
    ensures IsTrimmed(Trim(s))
  {
  }

  /** A string with no white space at either end is its own trim. */
  lemma TrimmedIsOwnTrim(s: string)
    requires IsTrimmed(s)
    ensures Trim(s) == s
  {
    if s != [] {
      assert SkipBlanks(s, 0) == 0;
      assert SkipBlanksBack(s, |s|) == |s|;
    }
  }

  /** Trimming twice trims nothing more. */
  lemma TrimIdempotent(s: string)
    ensures Trim(Trim(s)) == Trim(s)
  {
    TrimIsTrimmed(s);
    TrimmedIsOwnTrim(Trim(s));
  }

  /** A string without white space is its own trim. */
  lemma TrimNoSpace(s: string)
    requires NoSpace(s)
    ensures Trim(s) == s
  {
    TrimmedIsOwnTrim(s);
  }

  /** Blank padding in front of a word without white space is trimmed away. */
  lemma TrimPadded(pad: string, t: string)
    requires IsBlank(pad) && NoSpace(t)
    ensures Trim(pad + t) == t
  {
    var s := pad + t;
    if t != [] {
      assert forall k | 0 <= k < |pad| :: IsSpace(s[k]);
      assert !IsSpace(s[|pad|]) && !IsSpace(s[|s| - 1]);
      assert SkipBlanks(s, 0) == |pad|;
      assert SkipBlanksBack(s, |s|) == |s|;
      assert s[|pad|..|s|] == t;
    } else {
      assert IsBlank(s);
    }
  }

  /** ASCII lower casing of one character. */
  function LowerChar(c: char): char {
    if 'A' <= c <= 'Z' then (c as int + 32) as char else c
  }

  /** `toLowerCase` / SQL `LOWER`, character by character. */
  function ToLower(s: string): (r: string)
    ensures |r| == |s|
    ensures forall i | 0 <= i < |s| :: r[i] == LowerChar(s[i])
  {
    seq(|s|, i requires 0 <= i < |s| => LowerChar(s[i]))
  }

  /** Lower casing a lower-cased string changes nothing. */
  lemma ToLowerIdempotent(s: string)
    ensures ToLower(ToLower(s)) == ToLower(s)
  {
  }

  /** No character of `s` changes under lower casing. */
  predicate IsLowerCase(s: string) {
    forall i | 0 <= i < |s| :: LowerChar(s[i]) == s[i]
  }

  /** Lower-cased text is lower case, and lower case text is its own lower
      casing. */
  lemma LowerCaseCharacterized(s: string)
    ensures IsLowerCase(ToLower(s))
    ensures IsLowerCase(s) <==> ToLower(s) == s
  {
    if ToLower(s) == s {
      assert forall i | 0 <= i < |s| :: LowerChar(s[i]) == ToLower(s)[i];
    }
  }

  /** `needle` occurs in `hay` starting at index `i`. */
  ghost predicate OccursAt(hay: string, needle: string, i: int) {
    0 <= i && i + |needle| <= |hay| && hay[i..i + |needle|] == needle
  }

  /** `hay` contains `needle` as a contiguous substring. */
  function Contains(hay: string, needle: string): (b: bool)
    ensures b <==> exists i :: OccursAt(hay, needle, i)
    decreases |hay|
  {
    if |needle| > |hay| then
      false
    else if hay[..|needle|] == needle then
      assert OccursAt(hay, needle, 0);
      true
    else
      var b := Contains(hay[1..], needle);
      assert forall i :: OccursAt(hay[1..], needle, i) ==> OccursAt(hay, needle, i + 1) by {
        forall i | OccursAt(hay[1..], needle, i)
          ensures OccursAt(hay, needle, i + 1)
        {
          assert hay[1..][i..i + |needle|] == hay[i + 1..i + 1 + |needle|];
        }
      }
      assert forall i :: OccursAt(hay, needle, i) ==> i == 0 || OccursAt(hay[1..], needle, i - 1) by {
        forall i | OccursAt(hay, needle, i) && i != 0
          ensures OccursAt(hay[1..], needle, i - 1)
        {
          assert hay[1..][i - 1..i - 1 + |needle|] == hay[i..i + |needle|];
        }
      }
      b
  }

  /** Case-insensitive substring test, as SQL `x LIKE '%term%'` performs it for
      a term without wildcard characters. */
  function ContainsIgnoreCase(hay: string, needle: string): (b: bool)
    ensures b <==> exists i :: OccursAt(ToLower(hay), ToLower(needle), i)
  {
    Contains(ToLower(hay), ToLower(needle))
  }

  predicate IsDigit(c: char) { '0' <= c <= '9' }

  predicate AllDigits(s: string) {
    forall i | 0 <= i < |s| :: IsDigit(s[i])
  }

  /** Some digit of `s` is not `0`. */
  predicate HasNonZeroDigit(s: string) {
    exists i | 0 <= i < |s| :: '1' <= s[i] <= '9'
  }

  /** The value of a decimal numeral (the empty numeral is 0). */
  function Numeral(s: string): nat
    requires AllDigits(s)
  {
    if s == [] then 0 else Numeral(s[..|s| - 1]) * 10 + (s[|s| - 1] as int - '0' as int)
  }

  /** A numeral is positive exactly when one of its digits is not `0`. */
  lemma {:induction false} NumeralPositive(s: string)
    requires AllDigits(s)
    ensures Numeral(s) > 0 <==> HasNonZeroDigit(s)
  {
    if s != [] {
      var p := s[..|s| - 1];
      NumeralPositive(p);
      if HasNonZeroDigit(p) {
        var i :| 0 <= i < |p| && '1' <= p[i] <= '9';
        assert s[i] == p[i];
      }
      assert forall k | 0 <= k < |p| :: s[k] == p[k];
    }
  }

  /** JavaScript's `Number(text)` restricted to integers: surrounding white
      space is ignored, blank text is 0, and an optional sign followed by
      decimal digits is read as its exact integer value (JavaScript rounds
      values above 2^53 to the nearest double). Anything else is `NaN`
      (`None`). */
  function NumberOf(s: string): (r: Option<int>)
    ensures IsBlank(s) ==> r == Some(0)
    ensures r.Some? && r.value < 0 ==> |Trim(s)| > 1 && Trim(s)[0] == '-'
  {
    var t := Trim(s);
    if t == [] then
      Some(0)
    else if (t[0] == '+' || t[0] == '-') && |t| > 1 && AllDigits(t[1..]) then
      Some(if t[0] == '-' then -(Numeral(t[1..]) as int) else Numeral(t[1..]))
    else if AllDigits(t) then
      Some(Numeral(t))
    else
      None
  }

  /** `Number(text)` is a positive number exactly when the trimmed text is a
      numeral, optionally preceded by `+`, with a digit other than `0`. */
  lemma NumberOfPositive(s: string)
    ensures (NumberOf(s).Some? && NumberOf(s).value > 0) <==>
      var t := Trim(s);
      || (AllDigits(t) && HasNonZeroDigit(t))
      || (|t| > 1 && t[0] == '+' && AllDigits(t[1..]) && HasNonZeroDigit(t[1..]))
  {
    var t := Trim(s);
    if t != [] && AllDigits(t) {
      NumeralPositive(t);
    }
    if |t| > 1 && AllDigits(t[1..]) {
      NumeralPositive(t[1..]);
    }
  }
}
