/** The handful of Ruby / ActiveSupport / PostgreSQL string operations the
    application relies on, over `string` = `seq<char>` (one char per code
    point; case folding is ASCII-only, whitespace is Unicode's). */
module Text {
  import opened Wrappers

  /** A whitespace character as `[[:space:]]` sees it in a UTF-8 string:
      the Unicode White_Space property (ASCII tab to carriage return and
      space, NEL, no-break space, the Ogham mark, the typographic spaces
      U+2000 to U+200A, the line and paragraph separators, the narrow and
      medium mathematical spaces and the ideographic space). */
  predicate IsSpace(c: char) {
    || '\U{0009}' <= c <= '\U{000D}' || c == ' '
    || c == '\U{0085}' || c == '\U{00A0}' || c == '\U{1680}'
    || '\U{2000}' <= c <= '\U{200A}'
    || c == '\U{2028}' || c == '\U{2029}' || c == '\U{202F}' || c == '\U{205F}' || c == '\U{3000}'
  }

  /** ActiveSupport `blank?` on a string: empty or whitespace only. */
  predicate Blank(s: string) {
    forall i :: 0 <= i < |s| ==> IsSpace(s[i])
  }

  /** ActiveSupport `blank?` on a possibly-nil string: nil is blank. */
  predicate BlankOpt(s: Option<string>) {
    s.None? || Blank(s.value)
  }

  predicate IsDigit(c: char) {
    '0' <= c <= '9'
  }

  predicate AllDigits(s: string) {
    forall i :: 0 <= i < |s| ==> IsDigit(s[i])
  }

  /** `s` begins with `p` (Ruby `start_with?`). */
  predicate StartsWith(s: string, p: string) {
    |p| <= |s| && s[..|p|] == p
  }

  /** `needle` occurs in `hay` starting at index `i`. */
  predicate OccursAt(hay: string, needle: string, i: int) {
    0 <= i && i + |needle| <= |hay| && hay[i..i + |needle|] == needle
  }

  predicate Occurs(hay: string, needle: string) {
    exists i :: 0 <= i <= |hay| - |needle| && OccursAt(hay, needle, i)
  }

  // ---------------------------------------------------------------------
  // String#split with a string separator, followed by Array#last
  // ---------------------------------------------------------------------

  /** The fields of `s` between left-to-right, non-overlapping occurrences of
      `sep`, before Ruby drops trailing empty fields. */
  function Fields(s: string, sep: string): (fields: seq<string>)
    requires sep != []
    ensures |fields| >= 1
    decreases |s|
  {
    if StartsWith(s, sep) then [""] + Fields(s[|sep|..], sep)
    else if s == [] then [""]
    else
      var rest := Fields(s[1..], sep);
      [[s[0]] + rest[0]] + rest[1..]
  }

  /** The position of the last non-empty element, -1 when there is none. */
  function LastNonEmptyIndex(fields: seq<string>): (k: int)
    ensures -1 <= k < |fields|
    ensures k >= 0 ==> fields[k] != []
    ensures forall j :: k < j < |fields| ==> fields[j] == []
  {
    if fields == [] then -1
    else if fields[|fields| - 1] != [] then |fields| - 1
    else
      var front := fields[..|fields| - 1];
      assert forall j :: 0 <= j < |front| ==> front[j] == fields[j];
      LastNonEmptyIndex(front)
  }

  /** The last non-empty element, or nil. Since Ruby's `split` drops trailing
      empty fields, `s.split(sep).last` is the last non-empty field. */
  function LastNonEmpty(fields: seq<string>): (r: Option<string>)
    ensures r.Some? ==> r.value != []
    ensures r.Some? ==> exists i :: 0 <= i < |fields| && fields[i] == r.value &&
                          forall j :: i < j < |fields| ==> fields[j] == []
    ensures r.None? <==> forall i :: 0 <= i < |fields| ==> fields[i] == []
  {
    var k := LastNonEmptyIndex(fields);
    if k < 0 then None else Some(fields[k])
  }

  /** Ruby `s.split(sep).last`. */
  function SplitLast(s: string, sep: string): Option<string>
    requires sep != []
  {
    LastNonEmpty(Fields(s, sep))
  }

  /** A string in which the separator never occurs is a single field. */
  lemma {:induction false} FieldsWithoutSeparator(s: string, sep: string)
    requires sep != []
    requires !Occurs(s, sep)
    ensures Fields(s, sep) == [s]
    decreases |s|
  {
    assert !OccursAt(s, sep, 0);
    if s != [] {
      if Occurs(s[1..], sep) {
        var i :| 0 <= i <= |s[1..]| - |sep| && OccursAt(s[1..], sep, i);
        assert s[1..][i..i + |sep|] == s[i + 1..i + 1 + |sep|];
        assert OccursAt(s, sep, i + 1);
      }
      FieldsWithoutSeparator(s[1..], sep);
      assert [s[0]] + s[1..] == s;
    }
  }

  /** The text after a leading separator is what `split(sep).last` yields,
      provided it is non-empty and holds no further separator. */
  lemma SplitLastAfterPrefix(sep: string, t: string)
    requires sep != [] && t != []
    requires !Occurs(t, sep)
    ensures SplitLast(sep + t, sep) == Some(t)
  {
    var s := sep + t;
    assert StartsWith(s, sep);
    assert s[|sep|..] == t;
    FieldsWithoutSeparator(t, sep);
    assert Fields(s, sep) == ["", t];
  }

  // ---------------------------------------------------------------------
  // Case-insensitive matching (PostgreSQL ILIKE and ~*)
  // ---------------------------------------------------------------------

  /** ASCII lower-casing of one character. */
  function Lower(c: char): (r: char)
    ensures 'A' <= c <= 'Z' ==> 'a' <= r <= 'z' && r as int == c as int + 32
    ensures !('A' <= c <= 'Z') ==> r == c
  {
    if 'A' <= c <= 'Z' then (c as int + 32) as char else c
  }

  /** Lower-casing a whole string: same length, no capital left, and
      characters other than capitals untouched. */
  function LowerString(s: string): (r: string)
    ensures |r| == |s|
    ensures forall i :: 0 <= i < |r| ==> !('A' <= r[i] <= 'Z')
    ensures forall i :: 0 <= i < |s| && 'A' <= s[i] <= 'Z' ==> r[i] as int == s[i] as int + 32
    ensures forall i :: 0 <= i < |s| && !('A' <= s[i] <= 'Z') ==> r[i] == s[i]
  {
    seq(|s|, i requires 0 <= i < |s| => Lower(s[i]))
  }

  /** `hay ILIKE '%needle%'` with `needle` taken literally. */
  predicate ContainsIgnoringCase(hay: string, needle: string) {
    Occurs(LowerString(hay), LowerString(needle))
  }

  /** Lower-casing commutes with taking a slice. */
  lemma LowerSlice(s: string, i: int, j: int)
    requires 0 <= i <= j <= |s|
    ensures LowerString(s)[i..j] == LowerString(s[i..j])
  {
    assert forall k :: 0 <= k < j - i ==> LowerString(s)[i..j][k] == Lower(s[i + k]) == LowerString(s[i..j])[k];
  }

  /** An exact occurrence is also a case-insensitive one: ILIKE never
      misses a title that contains the query verbatim. */
  lemma ExactMatchIgnoringCase(hay: string, needle: string)
    requires Occurs(hay, needle)
    ensures ContainsIgnoringCase(hay, needle)
  {
    var i :| 0 <= i <= |hay| - |needle| && OccursAt(hay, needle, i);
    LowerSlice(hay, i, i + |needle|);
    assert OccursAt(LowerString(hay), LowerString(needle), i);
  }

  /** Case does not matter on either side: folding the title or the query
      beforehand does not change whether ILIKE matches. */
  lemma ContainsIgnoringCaseFolds(hay: string, needle: string)
    ensures ContainsIgnoringCase(LowerString(hay), needle) <==> ContainsIgnoringCase(hay, needle)
    ensures ContainsIgnoringCase(hay, LowerString(needle)) <==> ContainsIgnoringCase(hay, needle)
  {
    LowerTwice(hay);
    LowerTwice(needle);
  }

  /** Strings equal up to case match each other. */
  lemma EqualUpToCaseMatches(a: string, b: string)
    requires LowerString(a) == LowerString(b)
    ensures ContainsIgnoringCase(a, b) && ContainsIgnoringCase(b, a)
  {
    assert OccursAt(LowerString(a), LowerString(b), 0);
    assert OccursAt(LowerString(b), LowerString(a), 0);
  }

  /** A query in capitals finds a title written in lower case and vice
      versa: "MATRIX" and "matrix" match each other. */
  lemma MatrixMatchesIgnoringCase()
    ensures ContainsIgnoringCase("matrix", "MATRIX") && ContainsIgnoringCase("MATRIX", "matrix")
  {
    assert LowerString("MATRIX") == "matrix" == LowerString("matrix");
    EqualUpToCaseMatches("matrix", "MATRIX");
  }

  /** Lower-casing is idempotent. */
  lemma LowerTwice(s: string)
    ensures LowerString(LowerString(s)) == LowerString(s)
  {
    assert forall i :: 0 <= i < |s| ==> LowerString(LowerString(s))[i] == Lower(Lower(s[i])) == Lower(s[i]);
  }

  /** A string with no capital letter is its own lower-case form. */
  lemma LowerOfLower(s: string)
    requires forall i :: 0 <= i < |s| ==> !('A' <= s[i] <= 'Z')
    ensures LowerString(s) == s
  {
  }

  // ---------------------------------------------------------------------
  // String#strip
  // ---------------------------------------------------------------------

  /** What Ruby's `strip` removes: NUL, tab, line feed, vertical tab, form
      feed, carriage return and space. */
  predicate IsStripSpace(c: char) {
    c == '\0' || '\U{0009}' <= c <= '\U{000D}' || c == ' '
  }

  /** The number of strip spaces `s` starts with. */
  function LeadingSpaces(s: string): (n: nat)
    ensures n <= |s|
    ensures forall k :: 0 <= k < n ==> IsStripSpace(s[k])
    ensures n < |s| ==> !IsStripSpace(s[n])
  {
    if s == [] || !IsStripSpace(s[0]) then 0 else 1 + LeadingSpaces(s[1..])
  }

  /** `lstrip`: the longest suffix that does not start with a strip space. */
  function TrimStart(s: string): (r: string)
    ensures |r| <= |s| && r == s[|s| - |r|..]
    ensures forall k :: 0 <= k < |s| - |r| ==> IsStripSpace(s[k])
    ensures r != [] ==> !IsStripSpace(r[0])
  {
    s[LeadingSpaces(s)..]
  }

  /** `rstrip`: the longest prefix that does not end with a strip space. */
  function TrimEnd(s: string): (r: string)
    ensures |r| <= |s| && r == s[..|r|]
    ensures forall k :: |r| <= k < |s| ==> IsStripSpace(s[k])
    ensures r != [] ==> !IsStripSpace(r[|r| - 1])
  {
    if s == [] || !IsStripSpace(s[|s| - 1]) then s
    else
      var r := TrimEnd(s[..|s| - 1]);
      assert s[..|s| - 1][..|r|] == s[..|r|];
      r
  }

  predicate AllStripSpace(t: string) {
    forall k :: 0 <= k < |t| ==> IsStripSpace(t[k])
  }

  /** `r` is `s` without the strip spaces at either end: it occurs in `s`
      with only strip spaces around it, and itself neither starts nor ends
      with one. */
  predicate StripOf(r: string, s: string) {
    && (r != [] ==> !IsStripSpace(r[0]) && !IsStripSpace(r[|r| - 1]))
    && exists a :: 0 <= a <= |s| && OccursAt(s, r, a) && AllStripSpace(s[..a]) && AllStripSpace(s[a + |r|..])
  }

  /** Ruby's `strip`. */
  function Strip(s: string): (r: string)
    ensures StripOf(r, s)
  {
    var t := TrimStart(s);
    var r := TrimEnd(t);
    TrimBothEnds(s, t, r);
    r
  }

  /** Trimming the end of what `lstrip` left gives `strip`. */
  lemma TrimBothEnds(s: string, t: string, r: string)
    requires |t| <= |s| && t == s[|s| - |t|..] && (t != [] ==> !IsStripSpace(t[0]))
    requires forall k :: 0 <= k < |s| - |t| ==> IsStripSpace(s[k])
    requires |r| <= |t| && r == t[..|r|] && (r != [] ==> !IsStripSpace(r[|r| - 1]))
    requires forall k :: |r| <= k < |t| ==> IsStripSpace(t[k])
    ensures StripOf(r, s)
  {
    var a := |s| - |t|;
    assert s[a..a + |r|] == r;
    assert AllStripSpace(s[..a]) by {
      var head := s[..a];
      forall k | 0 <= k < |head| ensures IsStripSpace(head[k]) {
        assert head[k] == s[k];
      }
    }
    assert AllStripSpace(s[a + |r|..]) by {
      var tail := t[|r|..];
      assert s[a + |r|..] == tail;
      forall k | 0 <= k < |tail| ensures IsStripSpace(tail[k]) {
        assert tail[k] == t[|r| + k];
      }
    }
    if r != [] {
      assert r[0] == t[0];
    }
    assert OccursAt(s, r, a);
  }

  /** Stripping a string without capitals leaves none. */
  lemma StripKeepsLowerCase(r: string, s: string)
    requires StripOf(r, s)
    requires forall i :: 0 <= i < |s| ==> !('A' <= s[i] <= 'Z')
    ensures forall i :: 0 <= i < |r| ==> !('A' <= r[i] <= 'Z')
  {
    var a :| 0 <= a <= |s| && OccursAt(s, r, a) && AllStripSpace(s[..a]) && AllStripSpace(s[a + |r|..]);
    forall i | 0 <= i < |r| ensures !('A' <= r[i] <= 'Z') {
      assert r[i] == s[a..a + |r|][i] == s[a + i];
    }
  }

  /** A string without strip spaces at its ends is left as it is. */
  lemma StripUnchanged(s: string)
    requires s != [] ==> !IsStripSpace(s[0]) && !IsStripSpace(s[|s| - 1])
    ensures Strip(s) == s
  {
  }

  /** Stripping twice is stripping once. */
  lemma StripTwice(s: string)
    ensures Strip(Strip(s)) == Strip(s)
  {
    StripUnchanged(Strip(s));
  }

  /** One space on either side of a string without strip spaces at its
      ends is stripped away. */
  lemma StripPadded(t: string)
    requires t != [] && !IsStripSpace(t[0]) && !IsStripSpace(t[|t| - 1])
    ensures Strip(" " + t + " ") == t
  {
    var s := " " + t + " ";
    var u := s[1..];
    assert u == t + " " && u[0] == t[0];
    assert TrimStart(u) == u;
    assert TrimStart(s) == u;
    assert u[..|u| - 1] == t;
    assert TrimEnd(t) == t;
    assert TrimEnd(u) == t;
  }

  /** Only strip spaces are removed, and only at the ends: " a b\n" strips
      to "a b". */
  lemma StripExample()
    ensures Strip(" a b\n") == "a b"
  {
    var s := " a b\n";
    var s1 := s[1..];
    assert s1 == "a b\n" && IsStripSpace(s[0]) && !IsStripSpace(s1[0]);
    assert TrimStart(s1) == s1;
    assert TrimStart(s) == s1;
    var s2 := s1[..|s1| - 1];
    assert s2 == "a b" && IsStripSpace(s1[|s1| - 1]) && !IsStripSpace(s2[|s2| - 1]);
    assert TrimEnd(s2) == s2;
    assert TrimEnd(s1) == s2;
  }

  /** A word character for PostgreSQL's `\m` / `\M` (alphanumeric or `_`). */
  predicate IsWordChar(c: char) {
    'a' <= c <= 'z' || 'A' <= c <= 'Z' || IsDigit(c) || c == '_'
  }

  /** `\m` holds at position `i`: a word starts there. */
  predicate WordStartAt(s: string, i: int) {
    0 <= i < |s| && IsWordChar(s[i]) && (i == 0 || !IsWordChar(s[i - 1]))
  }

  /** `\M` holds at position `j`: a word ends there. */
  predicate WordEndAt(s: string, j: int) {
    0 < j <= |s| && IsWordChar(s[j - 1]) && (j == |s| || !IsWordChar(s[j]))
  }

  /** `hay ~* '\m<escaped needle>\M'`: the needle occurs, ignoring case,
      starting at a word start and ending at a word end. */
  predicate ContainsWordIgnoringCase(hay: string, needle: string) {
    var h := LowerString(hay);
    exists i :: 0 <= i <= |h| - |needle| && OccursAt(h, LowerString(needle), i) && WordStartAt(h, i) && WordEndAt(h, i + |needle|)
  }

  /** A genre equal to the query up to case matches it, provided the query
      starts and ends with a word character as `\m` and `\M` demand. */
  lemma EqualUpToCaseMatchesWord(hay: string, needle: string)
    requires LowerString(hay) == LowerString(needle)
    requires needle != [] && IsWordChar(needle[0]) && IsWordChar(needle[|needle| - 1])
    ensures ContainsWordIgnoringCase(hay, needle)
  {
    var h := LowerString(hay);
    assert h[0] == Lower(needle[0]) && h[|h| - 1] == Lower(needle[|needle| - 1]);
    assert OccursAt(h, LowerString(needle), 0) && WordStartAt(h, 0) && WordEndAt(h, |needle|);
  }

  /** A whole word of a longer genre matches: "drama" is found in
      "Crime, Drama". */
  lemma WordOfGenreMatches()
    ensures ContainsWordIgnoringCase("Crime, Drama", "drama")
  {
    var h := LowerString("Crime, Drama");
    assert h == "crime, drama";
    assert LowerString("drama") == "drama";
    assert OccursAt(h, "drama", 7) && WordStartAt(h, 7) && WordEndAt(h, 12);
  }

  /** A query that is only part of a word does not match: "Fi" is not
      found in "Sci-Fin", although ILIKE would find it. */
  lemma PartOfWordDoesNotMatch()
    ensures !ContainsWordIgnoringCase("Sci-Fin", "Fi")
    ensures ContainsIgnoringCase("Sci-Fin", "Fi")
  {
    var h := LowerString("Sci-Fin");
    assert h == "sci-fin";
    assert LowerString("Fi") == "fi";
    assert OccursAt(h, "fi", 4);
    forall i | 0 <= i <= |h| - 2 && OccursAt(h, "fi", i)
      ensures !WordEndAt(h, i + 2)
    {
      assert h[i] == 'f';
      assert i == 4;
    }
  }

  // ---------------------------------------------------------------------
  // Integer#to_s
  // ---------------------------------------------------------------------

  function DigitChar(d: nat): (c: char)
    requires d < 10
    ensures IsDigit(c)
  {
    "0123456789"[d]
  }

  function DigitValue(c: char): nat
    requires IsDigit(c)
  {
    (c as int - '0' as int) as nat
  }

  /** Ruby `Integer#to_s` for a non-negative integer: its decimal digits. */
  function NatToString(n: nat): (s: string)
    ensures s != [] && AllDigits(s)
    ensures s[0] == '0' <==> n == 0
    ensures |s| == 1 || s[0] != '0'
    decreases n
  {
    if n < 10 then [DigitChar(n)] else NatToString(n / 10) + [DigitChar(n % 10)]
  }

  /** The value of a string of decimal digits (Ruby `to_i` on such a string). */
  function DigitsValue(s: string): nat
    requires AllDigits(s)
  {
    if s == [] then 0 else 10 * DigitsValue(s[..|s| - 1]) + DigitValue(s[|s| - 1])
  }

  /** Printing an id and reading it back gives the same id. */
  lemma {:induction false} NatToStringRoundTrip(n: nat)
    ensures DigitsValue(NatToString(n)) == n
    decreases n
  {
    var s := NatToString(n);
    if n < 10 {
      assert DigitValue(DigitChar(n)) == n;
    } else {
      NatToStringRoundTrip(n / 10);
      assert s[..|s| - 1] == NatToString(n / 10);
      assert DigitValue(DigitChar(n % 10)) == n % 10;
    }
  }
}
