/**
  The date-shape pattern used by format validation,

    \d{1,2}D\d{1,2}D\d{2,4}( \d{1,2}:\d{2}( )?(PM|AM))?

  where D is the default delimiter class `[/|-]{1}`, applied as an unanchored
  search. The pattern is stated as a language (`InPattern`) and a search
  (`ContainsMatch`); `Matches` is the same search by start position, and
  `MatchIndex` is the scanning loop that finds the leftmost match, the index
  Ruby's `=~` returns.
 */
module DateFormat {
  import opened Values

  /** `\d`: an ASCII decimal digit. */
  predicate IsDigit(c: char) {
    '0' <= c <= '9'
  }

  /** The delimiter class `[/|-]{1}`: one slash, pipe or hyphen. */
  predicate IsDelimiter(c: char) {
    c == '/' || c == '|' || c == '-'
  }

  /** `t[lo..hi]` is a run of digits. */
  predicate DigitsIn(t: string, lo: int, hi: int) {
    0 <= lo <= hi <= |t| && forall k :: lo <= k < hi ==> IsDigit(t[k])
  }

  /**
    `t` is exactly `\d{m}D\d{d}D\d{y}` for some year width 2 <= y <= 4; the
    month field has `m` digits and the day field `d` digits, each 1 or 2.
   */
  predicate DateShape(t: string, m: int, d: int) {
    && 1 <= m <= 2 && 1 <= d <= 2
    && m + d + 4 <= |t| <= m + d + 6
    && DigitsIn(t, 0, m) && IsDelimiter(t[m])
    && DigitsIn(t, m + 1, m + 1 + d) && IsDelimiter(t[m + 1 + d])
    && DigitsIn(t, m + d + 2, |t|)
  }

  /** `t` is exactly the date part `\d{1,2}D\d{1,2}D\d{2,4}`. */
  ghost predicate IsDatePart(t: string) {
    exists m, d :: DateShape(t, m, d)
  }

  /** `t` is exactly ` \d{h}:\d{2}( )?(PM|AM)` with an hour field of `h` digits, 1 or 2. */
  predicate TimeShape(t: string, h: int) {
    && 1 <= h <= 2
    && h + 6 <= |t| <= h + 7
    && t[0] == ' ' && DigitsIn(t, 1, 1 + h) && t[1 + h] == ':'
    && DigitsIn(t, h + 2, h + 4)
    && t[h + 4..] in {"AM", "PM", " AM", " PM"}
  }

  /** `t` is exactly the optional time-of-day group. */
  ghost predicate IsTimeTail(t: string) {
    exists h :: TimeShape(t, h)
  }

  /** `t` is exactly a word of the whole pattern: the date part, with or without the time group. */
  ghost predicate InPattern(t: string) {
    || IsDatePart(t)
    || exists k :: 0 <= k <= |t| && IsDatePart(t[..k]) && IsTimeTail(t[k..])
  }

  /** Unanchored search: some substring of `s` is a word of the pattern. */
  ghost predicate ContainsMatch(s: string) {
    exists i, j :: 0 <= i <= j <= |s| && InPattern(s[i..j])
  }

  /**
    The date part with month width `m`, day width `d` and the shortest year
    (two digits) occupies `s[i..i + m + d + 4]`.
   */
  predicate DateAt(s: string, i: nat, m: int, d: int) {
    1 <= m <= 2 && 1 <= d <= 2 && i + m + d + 4 <= |s| && DateShape(s[i..i + m + d + 4], m, d)
  }

  /** A match of the pattern begins at position `i`. */
  predicate DateStartsAt(s: string, i: nat) {
    DateAt(s, i, 1, 1) || DateAt(s, i, 1, 2) || DateAt(s, i, 2, 1) || DateAt(s, i, 2, 2)
  }

  /** `s =~ date_format` succeeds: a match begins at some position. */
  predicate Matches(s: string) {
    exists i | 0 <= i <= |s| :: DateStartsAt(s, i)
  }

  /** A date part keeps its shape when the year is cut to its first two digits. */
  lemma ShortestYear(u: string, m: int, d: int)
    requires DateShape(u, m, d)
    ensures DateShape(u[..m + d + 4], m, d)
  {
  }

  /** `DateAt` read position by position in `s` itself. */
  lemma DateAtIff(s: string, i: nat, m: int, d: int)
    ensures DateAt(s, i, m, d) <==>
      && 1 <= m <= 2 && 1 <= d <= 2 && i + m + d + 4 <= |s|
      && DigitsIn(s, i, i + m) && IsDelimiter(s[i + m])
      && DigitsIn(s, i + m + 1, i + m + 1 + d) && IsDelimiter(s[i + m + 1 + d])
      && DigitsIn(s, i + m + d + 2, i + m + d + 4)
  {
    if 1 <= m <= 2 && 1 <= d <= 2 && i + m + d + 4 <= |s| {
      var t := s[i..i + m + d + 4];
      assert forall k :: 0 <= k < |t| ==> t[k] == s[i + k];
    }
  }

  /** A date part that is a substring starting at `i` puts a match start at `i`. */
  lemma DatePartStarts(s: string, i: int, j: int)
    requires 0 <= i <= j <= |s| && IsDatePart(s[i..j])
    ensures DateStartsAt(s, i)
  {
    var m, d :| DateShape(s[i..j], m, d);
    ShortestYear(s[i..j], m, d);
    assert s[i..j][..m + d + 4] == s[i..i + m + d + 4];
  }

  /** The shortest-year date part at `i` is itself a word of the pattern. */
  lemma DateAtInPattern(s: string, i: nat, m: int, d: int)
    requires DateAt(s, i, m, d)
    ensures InPattern(s[i..i + m + d + 4])
  {
    assert IsDatePart(s[i..i + m + d + 4]);
  }

  /** Every word of the pattern begins with a date part: the word itself, or the word without its time group. */
  lemma DatePartPrefix(t: string) returns (k: nat)
    requires InPattern(t)
    ensures k <= |t| && IsDatePart(t[..k])
    ensures k == |t| || IsTimeTail(t[k..])
  {
    if IsDatePart(t) {
      k := |t|;
      assert t[..k] == t;
    } else {
      k :| 0 <= k <= |t| && IsDatePart(t[..k]) && IsTimeTail(t[k..]);
    }
  }

  /** A word of the pattern that starts at `i`, with or without the time group, puts a match start at `i`. */
  lemma InPatternStarts(s: string, i: int, j: int)
    requires 0 <= i <= j <= |s| && InPattern(s[i..j])
    ensures DateStartsAt(s, i)
  {
    var k := DatePartPrefix(s[i..j]);
    assert s[i..j][..k] == s[i..i + k];
    DatePartStarts(s, i, i + k);
  }

  /** A match starts at `i` exactly when some substring starting at `i` is a word of the pattern. */
  lemma StartsIff(s: string, i: nat)
    requires i <= |s|
    ensures DateStartsAt(s, i) <==> exists j :: i <= j <= |s| && InPattern(s[i..j])
  {
    if DateAt(s, i, 1, 1) {
      DateAtInPattern(s, i, 1, 1);
    } else if DateAt(s, i, 1, 2) {
      DateAtInPattern(s, i, 1, 2);
    } else if DateAt(s, i, 2, 1) {
      DateAtInPattern(s, i, 2, 1);
    } else if DateAt(s, i, 2, 2) {
      DateAtInPattern(s, i, 2, 2);
    }
    if j :| i <= j <= |s| && InPattern(s[i..j]) {
      InPatternStarts(s, i, j);
    }
  }

  /** The position-wise search agrees with the substring search. */
  lemma MatchesIff(s: string)
    ensures Matches(s) <==> ContainsMatch(s)
  {
    if Matches(s) {
      var i :| 0 <= i <= |s| && DateStartsAt(s, i);
      StartsIff(s, i);
    }
    if ContainsMatch(s) {
      var i, j :| 0 <= i <= j <= |s| && InPattern(s[i..j]);
      StartsIff(s, i);
    }
  }

  /**
    `s =~ date_format`: scans the start positions from the left and returns the
    first one at which a match begins, or None when the search fails.
   */
  method MatchIndex(s: string) returns (r: Option<nat>)
    ensures r.Some? <==> ContainsMatch(s)
    ensures r.Some? ==> r.value <= |s| && exists j :: r.value <= j <= |s| && InPattern(s[r.value..j])
    ensures r.Some? ==> forall i, j :: 0 <= i < r.value && i <= j <= |s| ==> !InPattern(s[i..j])
  {
    var i := 0;
    while i <= |s|
      invariant 0 <= i <= |s| + 1
      invariant forall k :: 0 <= k < i ==> !DateStartsAt(s, k)
    {
      if DateStartsAt(s, i) {
        StartsIff(s, i);
        forall k, j | 0 <= k < i && k <= j <= |s| ensures !InPattern(s[k..j]) {
          StartsIff(s, k);
        }
        MatchesIff(s);
        return Some(i);
      }
      i := i + 1;
    }
    MatchesIff(s);
    return None;
  }

  /**
    The time-of-day group is optional, so it never decides the search: a
    string matches exactly when some substring is the date part alone.
   */
  lemma DatePartSuffices(s: string)
    ensures ContainsMatch(s) <==> exists i, j :: 0 <= i <= j <= |s| && IsDatePart(s[i..j])
  {
    if ContainsMatch(s) {
      var i, j :| 0 <= i <= j <= |s| && InPattern(s[i..j]);
      var k := DatePartPrefix(s[i..j]);
      assert s[i..j][..k] == s[i..i + k];
    }
    if i, j :| 0 <= i <= j <= |s| && IsDatePart(s[i..j]) {
      assert InPattern(s[i..j]);
    }
  }

  /** The search is unanchored: text around a matching string never prevents the match. */
  lemma SurroundingText(a: string, t: string, b: string)
    requires ContainsMatch(t)
    ensures ContainsMatch(a + t + b)
  {
    var i, j :| 0 <= i <= j <= |t| && InPattern(t[i..j]);
    assert (a + t + b)[|a| + i..|a| + j] == t[i..j];
  }

  /** The shortest word of the pattern, `d/d/dd`, has six characters. */
  lemma ShortTextNeverMatches(s: string)
    requires |s| < 6
    ensures !ContainsMatch(s)
  {
    MatchesIff(s);
  }

  /** Without a delimiter character nothing matches, however many digits there are. */
  lemma NoDelimiterNeverMatches(s: string)
    requires forall k :: 0 <= k < |s| ==> !IsDelimiter(s[k])
    ensures !ContainsMatch(s)
  {
    forall i, m, d | 0 <= i <= |s| ensures !DateAt(s, i, m, d) {
      DateAtIff(s, i, m, d);
    }
    MatchesIff(s);
  }

  /** The date part found at a position is a match of the search. */
  lemma DateAtMatches(s: string, i: nat, m: int, d: int)
    requires DateAt(s, i, m, d)
    ensures ContainsMatch(s)
  {
    DateAtInPattern(s, i, m, d);
  }

  /**
    `12D25D2012` matches for every choice of the two delimiters; they are
    matched independently, so they need not be the same character.
   */
  lemma AnyDelimiters(c1: char, c2: char)
    requires IsDelimiter(c1) && IsDelimiter(c2)
    ensures ContainsMatch("12" + [c1] + "25" + [c2] + "2012")
  {
    var s := "12" + [c1] + "25" + [c2] + "2012";
    DateAtIff(s, 0, 2, 2);
    DateAtMatches(s, 0, 2, 2);
  }

  /** Strings the validation tests expect the search to accept, with each of the three delimiters. */
  lemma MatchingExamples()
    ensures ContainsMatch("12/25/2012")
    ensures ContainsMatch("12-25-2012")
    ensures ContainsMatch("12|25|2012")
  {
    AnyDelimiters('/', '/');
    assert "12" + ['/'] + "25" + ['/'] + "2012" == "12/25/2012";
    AnyDelimiters('-', '-');
    assert "12" + ['-'] + "25" + ['-'] + "2012" == "12-25-2012";
    AnyDelimiters('|', '|');
    assert "12" + ['|'] + "25" + ['|'] + "2012" == "12|25|2012";
  }

  /** A date embedded in other text is found. */
  lemma EmbeddedDate()
    ensures ContainsMatch("due 1/2/34!")
  {
    DateAtIff("due 1/2/34!", 4, 1, 1);
    DateAtMatches("due 1/2/34!", 4, 1, 1);
  }

  /** Words of the pattern, with and without the time-of-day group. */
  lemma PatternWords()
    ensures InPattern("12/25/2012 3:45 PM")
    ensures InPattern("1/2/34")
  {
    var s := "12/25/2012 3:45 PM";
    assert DateShape(s[..10], 2, 2);
    assert TimeShape(s[10..], 1);
    assert DateShape("1/2/34", 1, 1);
  }

  /**
    Every matching string holds a digit where its match begins, so it is
    never blank: the presence check and a successful search never meet.
   */
  lemma MatchIsPresent(s: string)
    requires ContainsMatch(s)
    ensures !IsBlankText(s)
  {
    MatchesIff(s);
    var i :| 0 <= i <= |s| && DateStartsAt(s, i);
    DateAtIff(s, i, 1, 1);
    DateAtIff(s, i, 1, 2);
    DateAtIff(s, i, 2, 1);
    DateAtIff(s, i, 2, 2);
    assert IsDigit(s[i]);
  }

  /** Strings the validation tests expect the search to reject. */
  lemma RejectedExamples()
    ensures !ContainsMatch("12252012")
    ensures !ContainsMatch("cats")
  {
    NoDelimiterNeverMatches("12252012");
    ShortTextNeverMatches("cats");
  }

  /** An extra delimiter between day and year breaks the shape. */
  lemma DoubledDelimiterRejected()
    ensures !ContainsMatch("12/25//2012")
  {
    var s := "12/25//2012";
    assert forall k :: 0 <= k < |s| && k != 2 && k != 5 && k != 6 ==> IsDigit(s[k]);
    assert forall k :: 0 <= k < |s| && IsDelimiter(s[k]) ==> k == 2 || k == 5 || k == 6;
    assert !IsDigit(s[6]);
    forall i, m, d | 0 <= i <= |s| ensures !DateAt(s, i, m, d) {
      // the only delimiters one or two digits apart sit at 2 and 5, and 6 is not a digit
      DateAtIff(s, i, m, d);
    }
    MatchesIff(s);
  }

  /** A missing delimiter between day and year breaks the shape. */
  lemma MissingDelimiterRejected()
    ensures !ContainsMatch("12/252012")
  {
    var s := "12/252012";
    assert forall k :: 0 <= k < |s| && k != 2 ==> IsDigit(s[k]);
    assert forall k :: 0 <= k < |s| && IsDelimiter(s[k]) ==> k == 2;
    forall i, m, d | 0 <= i <= |s| ensures !DateAt(s, i, m, d) {
      DateAtIff(s, i, m, d);
    }
    MatchesIff(s);
  }
}
