/**
 * `DATE_RE` and `extract_date_utc` (src/time_eval.py): find the first line
 * of an email that starts with `Date:` (in any letter case), take the rest
 * of it, hand it to the email date parser, normalise the result to UTC and
 * keep it only when its UTC year lies in 1990 .. 2010.
 *
 * The grammar of the date parser (section 3.3 of RFC 5322 as read by
 * `email.utils._parsedate_tz`) is a parameter `parse`; what
 * `parsedate_to_datetime` does with the fields it yields is modelled.
 */
module DateHeader {
  import opened Options
  import opened Calendar

  // ---------------------------------------------------------------------------
  // Whitespace, as `str.isspace`, the `\s` class of a `str` regex and `str.strip` agree on it
  // ---------------------------------------------------------------------------

  predicate IsSpace(c: char) {
    var n := c as int;
    (0x09 <= n <= 0x0D) || (0x1C <= n <= 0x20) || n == 0x85 || n == 0xA0 || n == 0x1680
    || (0x2000 <= n <= 0x200A) || n == 0x2028 || n == 0x2029 || n == 0x202F || n == 0x205F
    || n == 0x3000
  }

  /** Every character of s[lo..hi] is whitespace. */
  predicate SpacesBetween(s: string, lo: nat, hi: nat)
    requires lo <= hi <= |s|
  {
    forall i :: lo <= i < hi ==> IsSpace(s[i])
  }

  /** The end of the whitespace run starting at a. */
  function SpaceEnd(s: string, a: nat): (q: nat)
    requires a <= |s|
    ensures a <= q <= |s| && SpacesBetween(s, a, q)
    ensures q < |s| ==> !IsSpace(s[q])
    decreases |s| - a
  {
    if a < |s| && IsSpace(s[a]) then SpaceEnd(s, a + 1) else a
  }

  /** The start of the whitespace run ending at j. */
  function SpaceStart(s: string, j: nat): (b: nat)
    requires j <= |s|
    ensures b <= j && SpacesBetween(s, b, j)
    ensures b > 0 ==> !IsSpace(s[b - 1])
  {
    if j > 0 && IsSpace(s[j - 1]) then SpaceStart(s, j - 1) else j
  }

  /**
   * `str.strip()`: the result is a slice of `s` that neither starts nor ends
   * with whitespace, and only whitespace was cut off on either side.
   */
  function Strip(s: string): (r: string)
    ensures exists i, j :: 0 <= i <= j <= |s| && SpacesBetween(s, 0, i) && SpacesBetween(s, j, |s|) && r == s[i..j]
    ensures r != [] ==> !IsSpace(r[0]) && !IsSpace(r[|r| - 1])
  {
    var j := SpaceStart(s, |s|);
    var i := if SpaceEnd(s, 0) <= j then SpaceEnd(s, 0) else j;
    assert SpacesBetween(s, 0, i) && SpacesBetween(s, j, |s|);
    s[i..j]
  }

  // ---------------------------------------------------------------------------
  // The pattern  ^Date:\s*(.+)$  with re.IGNORECASE | re.MULTILINE
  // ---------------------------------------------------------------------------

  /** `^` under MULTILINE: the start of the text or just after a newline. */
  predicate LineStart(s: string, p: int) {
    0 <= p <= |s| && (p == 0 || s[p - 1] == '\n')
  }

  /** `Date:` under IGNORECASE, at position p. */
  predicate DatePrefixAt(s: string, p: int)
    requires 0 <= p
  {
    p + 5 <= |s|
    && (s[p] == 'D' || s[p] == 'd') && (s[p + 1] == 'A' || s[p + 1] == 'a')
    && (s[p + 2] == 'T' || s[p + 2] == 't') && (s[p + 3] == 'E' || s[p + 3] == 'e')
    && s[p + 4] == ':'
  }

  /** The first newline at or after k, or the end of the text: where `$` holds after `.+` from k. */
  function LineEnd(s: string, k: nat): (e: nat)
    requires k <= |s|
    ensures k <= e <= |s| && (e == |s| || s[e] == '\n')
    ensures forall i :: k <= i < e ==> s[i] != '\n'
    decreases |s| - k
  {
    if k == |s| || s[k] == '\n' then k else LineEnd(s, k + 1)
  }

  /**
   * With `Date:` at p, `\s*` may take s[p+5..k] and `(.+)$` can then start
   * at k: everything in between is whitespace and s[k] is a character `.`
   * accepts.
   */
  predicate GroupCanStart(s: string, p: nat, k: nat) {
    p + 5 <= k < |s| && s[k] != '\n' && forall i :: p + 5 <= i < k ==> IsSpace(s[i])
  }

  /** Greedy `\s*`: the group starts at the last place it can. */
  ghost predicate IsGroupStart(s: string, p: nat, k: nat) {
    GroupCanStart(s, p, k) && forall k' :: k < k' ==> !GroupCanStart(s, p, k')
  }

  /**
   * The pattern matches at p with capture group g, as Python's backtracking
   * matcher finds it: `^` and `Date:` at p, the greedy `\s*` leaves the
   * group to start at the last admissible place, and the greedy `.+` runs to
   * the end of that line, where `$` holds.
   */
  ghost predicate RegexMatchAt(s: string, p: nat, g: string) {
    LineStart(s, p) && DatePrefixAt(s, p)
    && exists k: nat :: IsGroupStart(s, p, k) && g == s[k..LineEnd(s, k)]
  }

  /** The last position in a .. j-1 that is not a newline: where backtracking `\s*` stops. */
  function LastNonNewline(s: string, a: nat, j: nat): (r: Option<nat>)
    requires j <= |s|
    ensures r.Some? ==> a <= r.value < j && s[r.value] != '\n'
    ensures r.Some? ==> forall i :: r.value < i < j ==> s[i] == '\n'
    ensures r.None? ==> forall i :: a <= i < j ==> s[i] == '\n'
    decreases j
  {
    if j <= a then None
    else if s[j - 1] != '\n' then Some(j - 1)
    else LastNonNewline(s, a, j - 1)
  }

  /** Where the capture group starts when `Date:` stands at p, if the rest of the pattern can match. */
  function GroupStart(s: string, p: nat): (r: Option<nat>)
    requires p + 5 <= |s|
    ensures r.Some? ==> IsGroupStart(s, p, r.value)
    ensures r.None? ==> forall k :: !GroupCanStart(s, p, k)
  {
    var q := SpaceEnd(s, p + 5);
    if q < |s| then Some(q)
    else LastNonNewline(s, p + 5, q)
  }

  /** The capture group of a match at p, if the pattern matches there. */
  function MatchAt(s: string, p: nat): Option<string>
    requires p <= |s|
  {
    if LineStart(s, p) && DatePrefixAt(s, p) then
      match GroupStart(s, p)
      case Some(k) => Some(s[k..LineEnd(s, k)])
      case None => None
    else None
  }

  /**
   * MatchAt is the pattern's match at p: it succeeds exactly when `^` and
   * `Date:` hold at p and some place after them can start the group, and
   * then its value is the group the backtracking matcher captures.
   */
  lemma MatchAtSpec(s: string, p: nat)
    requires p <= |s|
    ensures MatchAt(s, p).Some? <==> LineStart(s, p) && DatePrefixAt(s, p) && exists k :: GroupCanStart(s, p, k)
    ensures forall g :: MatchAt(s, p) == Some(g) <==> RegexMatchAt(s, p, g)
  {
    if LineStart(s, p) && DatePrefixAt(s, p) {
      var r := GroupStart(s, p);
      if r.Some? {
        assert GroupCanStart(s, p, r.value);
        forall g | RegexMatchAt(s, p, g) ensures g == s[r.value..LineEnd(s, r.value)] {
          var k: nat :| IsGroupStart(s, p, k) && g == s[k..LineEnd(s, k)];
          assert !(k < r.value) && !(r.value < k);
        }
      }
    }
  }

  /** Where `DATE_RE.search` finds its match looking from `from` on: the leftmost match position. */
  function FirstMatch(s: string, from: nat): (r: Option<nat>)
    requires from <= |s| + 1
    ensures r.Some? ==> from <= r.value <= |s| && MatchAt(s, r.value).Some?
    ensures r.Some? ==> forall p :: from <= p < r.value ==> MatchAt(s, p).None?
    ensures r.None? ==> forall p :: from <= p <= |s| ==> MatchAt(s, p).None?
    decreases |s| + 1 - from
  {
    if from > |s| then None
    else if MatchAt(s, from).Some? then Some(from)
    else FirstMatch(s, from + 1)
  }

  /** `DATE_RE.search(s)`: the capture group of the leftmost match. */
  function Search(s: string): Option<string> {
    match FirstMatch(s, 0)
    case None => None
    case Some(p) => MatchAt(s, p)
  }

  /** `m.group(1).strip()`, or None when the pattern does not match. */
  function RawDate(text: string): Option<string> {
    match Search(text)
    case None => None
    case Some(g) => Some(Strip(g))
  }

  // ---------------------------------------------------------------------------
  // From the parsed fields to a UTC date-time
  // ---------------------------------------------------------------------------

  /**
   * What the date grammar yields: the first six fields of the time tuple and
   * the zone offset in seconds east of UTC, None when the header names no
   * zone, gives `-0000`, or names a zone the parser does not know (such as
   * `CEST`).
   */
  datatype DateTuple = DateTuple(year: int, month: int, day: int, hour: int, minute: int, second: int,
                                 offset: Option<int>)

  /** A header date parser: None when the text is not a date it understands. */
  type Parser = string -> Option<DateTuple>

  function LocalOf(t: DateTuple): DateTime {
    DateTime(t.year, t.month, t.day, t.hour, t.minute, t.second)
  }

  /**
   * The tuple becomes a `datetime`: its fields must be in range and an
   * offset must be strictly within one day (`timezone` rejects the rest).
   */
  predicate Constructible(t: DateTuple) {
    Valid(LocalOf(t)) && (t.offset.Some? ==> -SECONDS_PER_DAY < t.offset.value < SECONDS_PER_DAY)
  }

  /**
   * u is the UTC reading of a parsed local time: a zoneless value keeps its
   * wall clock, a zoned one denotes the same instant.
   */
  ghost predicate IsUtcOf(u: DateTime, local: DateTime, offset: Option<int>)
    requires Valid(local)
  {
    Valid(u) && match offset
      case None => u == local
      case Some(o) => Seconds(u) == Seconds(local) - o
  }

  /**
   * `parsedate_to_datetime` on the tuple, then `replace(tzinfo=utc)` or
   * `astimezone(utc)`; None stands for the ValueError or OverflowError raised
   * on the way.
   */
  function ToUtc(t: DateTuple): (r: Option<DateTime>)
    ensures r.Some? ==> Constructible(t) && IsUtcOf(r.value, LocalOf(t), t.offset)
  {
    var local := LocalOf(t);
    if !Valid(local) then None
    else match t.offset
      case None => Some(local)
      case Some(o) => if !(-SECONDS_PER_DAY < o < SECONDS_PER_DAY) then None else Shift(local, -o)
  }

  /**
   * The conversion fails only when there is nothing to return: the tuple is
   * not a `datetime`, or no date-time of years 1 .. 9999 is its UTC reading.
   */
  lemma ToUtcFails(t: DateTuple)
    ensures ToUtc(t).None? <==> !Constructible(t) || forall u :: !IsUtcOf(u, LocalOf(t), t.offset)
  {
    if Constructible(t) {
      var local := LocalOf(t);
      match t.offset {
        case None =>
          assert IsUtcOf(local, local, None);
        case Some(o) =>
          var r := Shift(local, -o);
          if r.None? {
            forall u | Valid(u) ensures !IsUtcOf(u, local, t.offset) { SecondsBounds(u); }
          } else {
            assert IsUtcOf(r.value, local, t.offset);
          }
      }
    }
  }

  /** The years `extract_date_utc` keeps. */
  predicate InYearWindow(u: DateTime) {
    1990 <= u.year <= 2010
  }

  /** `extract_date_utc`: the UTC date of the email's `Date:` header, or None. */
  function ExtractDateUtc(text: string, parse: Parser): (r: Option<DateTime>)
    ensures r.Some? ==> Valid(r.value) && InYearWindow(r.value)
  {
    match RawDate(text)
    case None => None
    case Some(raw) =>
      match parse(raw)
      case None => None
      case Some(t) =>
        match ToUtc(t)
        case None => None
        case Some(u) => if u.year < 1990 || u.year > 2010 then None else Some(u)
  }

  // ---------------------------------------------------------------------------
  // Properties
  // ---------------------------------------------------------------------------

  /**
   * `extract_date_utc` returns u exactly when the header's raw value parses
   * to a constructible date-time whose UTC reading is u and u's year is in
   * the window; every other case, including every failure, is None.
   */
  lemma ExtractDateUtcSpec(text: string, parse: Parser, u: DateTime)
    ensures ExtractDateUtc(text, parse) == Some(u) <==>
      && RawDate(text).Some?
      && parse(RawDate(text).value).Some?
      && Constructible(parse(RawDate(text).value).value)
      && IsUtcOf(u, LocalOf(parse(RawDate(text).value).value), parse(RawDate(text).value).value.offset)
      && InYearWindow(u)
  {
    if RawDate(text).Some? && parse(RawDate(text).value).Some? {
      var t := parse(RawDate(text).value).value;
      var r := ToUtc(t);
      ToUtcFails(t);
      assert ExtractDateUtc(text, parse) == if r.None? || !InYearWindow(r.value) then None else r;
      if r.Some? && Constructible(t) && IsUtcOf(u, LocalOf(t), t.offset) {
        UtcReadingUnique(r.value, u, LocalOf(t), t.offset);
      }
    }
  }

  /** A parsed local time has at most one UTC reading. */
  lemma UtcReadingUnique(u: DateTime, v: DateTime, local: DateTime, offset: Option<int>)
    requires Valid(local) && IsUtcOf(u, local, offset) && IsUtcOf(v, local, offset)
    ensures u == v
  {
    if offset.Some? {
      SecondsInjective(u, v);
    }
  }

  /** A text none of whose lines starts with `Date:` has no date. */
  lemma NoDateLine(text: string, parse: Parser)
    requires forall p :: LineStart(text, p) ==> !DatePrefixAt(text, p)
    ensures RawDate(text) == None && ExtractDateUtc(text, parse) == None
  {
  }

  /**
   * The usual case: the first line that starts with `Date:` decides, and
   * the raw value is the stripped text from the first non-blank character
   * after the colon to the end of that character's line. (`\s*` also runs
   * over newlines, so after a bare `Date:` line this is the next non-blank
   * line.)
   */
  lemma FirstDateLine(text: string, p: nat)
    requires LineStart(text, p) && DatePrefixAt(text, p)
    requires forall p' :: 0 <= p' < p && LineStart(text, p') ==> !DatePrefixAt(text, p')
    requires SpaceEnd(text, p + 5) < |text|
    ensures RawDate(text) == Some(Strip(text[SpaceEnd(text, p + 5)..LineEnd(text, SpaceEnd(text, p + 5))]))
  {
    assert GroupStart(text, p) == Some(SpaceEnd(text, p + 5));
    assert MatchAt(text, p).Some?;
    var q := FirstMatch(text, 0);
    assert q.Some?;
    assert MatchAt(text, q.value).Some?;
    assert LineStart(text, q.value) && DatePrefixAt(text, q.value);
    assert q.value == p;
  }

  /** A header value on its own line: `Date: v` with nothing after v on that line. */
  lemma SingleLineHeader(text: string, p: nat, v: string)
    requires LineStart(text, p) && p + 6 + |v| <= |text| && text[p..p + 6 + |v|] == "Date: " + v
    requires forall p' :: 0 <= p' < p && LineStart(text, p') ==> !DatePrefixAt(text, p')
    requires v != [] && !IsSpace(v[0]) && !IsSpace(v[|v| - 1]) && '\n' !in v
    requires p + 6 + |v| == |text| || text[p + 6 + |v|] == '\n'
    ensures RawDate(text) == Some(v)
  {
    HeaderLineLayout(text, p, v);
    var q := SpaceEnd(text, p + 5);
    assert text[q..LineEnd(text, q)] == v;
    FirstDateLine(text, p);
    StripOfTrimmed(v);
  }

  /** Where the pieces of a `Date: v` line lie: the prefix, the value after one space, the line end. */
  lemma HeaderLineLayout(text: string, p: nat, v: string)
    requires p + 6 + |v| <= |text| && text[p..p + 6 + |v|] == "Date: " + v
    requires v != [] && !IsSpace(v[0]) && '\n' !in v
    requires p + 6 + |v| == |text| || text[p + 6 + |v|] == '\n'
    ensures DatePrefixAt(text, p) && SpaceEnd(text, p + 5) == p + 6
    ensures LineEnd(text, p + 6) == p + 6 + |v| && text[p + 6..p + 6 + |v|] == v
  {
    var n, w := p + 6 + |v|, "Date: " + v;
    ElementsOfSlice(text, p, w);
    assert text[p + 6..n] == v by {
      assert text[p..n][6..] == text[p + 6..n];
      assert w[6..] == v;
    }
    assert SpaceEnd(text, p + 5) == p + 6 by {
      assert text[p + 5] == ' ' && text[p + 6] == v[0];
    }
    forall i | p + 6 <= i < n ensures text[i] != '\n' {
      assert text[i] == v[i - (p + 6)];
    }
    LineEndOfLine(text, p + 6, n);
  }

  /**
   * A bare `Date:` line: since `\s*` also takes the newline, the value is
   * read from the next line, whatever that line holds.
   */
  lemma BareDateLine(text: string, p: nat)
    requires LineStart(text, p) && p + 7 <= |text| && text[p..p + 6] == "Date:\n" && !IsSpace(text[p + 6])
    requires forall p' :: 0 <= p' < p && LineStart(text, p') ==> !DatePrefixAt(text, p')
    ensures RawDate(text) == Some(Strip(text[p + 6..LineEnd(text, p + 6)]))
  {
    ElementsOfSlice(text, p, "Date:\n");
    assert IsSpace(text[p + 5]);
    assert SpaceEnd(text, p + 6) == p + 6;
    assert SpaceEnd(text, p + 5) == p + 6;
    FirstDateLine(text, p);
  }

  lemma ElementsOfSlice(s: string, p: nat, w: string)
    requires p + |w| <= |s| && s[p..p + |w|] == w
    ensures forall i :: 0 <= i < |w| ==> s[p + i] == w[i]
  {
    forall i | 0 <= i < |w| ensures s[p + i] == w[i] {
      assert s[p..p + |w|][i] == s[p + i];
    }
  }

  /** LineEnd finds the newline that ends a newline-free stretch. */
  lemma {:induction false} LineEndOfLine(s: string, k: nat, e: nat)
    requires k <= e <= |s| && (e == |s| || s[e] == '\n')
    requires forall i :: k <= i < e ==> s[i] != '\n'
    ensures LineEnd(s, k) == e
    decreases e - k
  {
    if k < e {
      LineEndOfLine(s, k + 1, e);
    }
  }

  /** Strip leaves a value alone that neither starts nor ends with whitespace. */
  lemma StripOfTrimmed(v: string)
    requires v != [] && !IsSpace(v[0]) && !IsSpace(v[|v| - 1])
    ensures Strip(v) == v
  {
    var r := Strip(v);
    var i, j :| 0 <= i <= j <= |v| && SpacesBetween(v, 0, i) && SpacesBetween(v, j, |v|) && r == v[i..j];
    assert i == 0 && j == |v|;
  }

  /** The example of a header with a zone: 15 Jan 2003 08:30 at -0500 is 13:30 UTC. */
  lemma EasternOffsetExample()
    ensures ToUtc(DateTuple(2003, 1, 15, 8, 30, 0, Some(-18000))) == Some(DateTime(2003, 1, 15, 13, 30, 0))
  {
  }

  /**
   * The year window is applied to the UTC reading: 31 Dec 2010 23:00 at
   * -0500 is 2011 in UTC, so the email gets no date.
   */
  lemma YearWindowAfterConversion(text: string, parse: Parser)
    requires RawDate(text).Some? && parse(RawDate(text).value) == Some(DateTuple(2010, 12, 31, 23, 0, 0, Some(-18000)))
    ensures ExtractDateUtc(text, parse) == None
  {
    NewYearEveInUtc();
  }

  /** 31 Dec 2010 23:00 at -0500 is 1 Jan 2011 04:00 UTC: the conversion crosses into the next year. */
  lemma NewYearEveInUtc()
    ensures ToUtc(DateTuple(2010, 12, 31, 23, 0, 0, Some(-18000))) == Some(DateTime(2011, 1, 1, 4, 0, 0))
  {
    var local := DateTime(2010, 12, 31, 23, 0, 0);
    assert LocalOf(DateTuple(2010, 12, 31, 23, 0, 0, Some(-18000))) == local;
    assert Valid(local) && SecondOfDay(local) == 82800;
    assert NextDay(2010, 12, 31) == (2011, 1, 1);
    assert AtSecond(2011, 1, 1, 14400) == DateTime(2011, 1, 1, 4, 0, 0);
    assert Shift(local, 18000) == Some(DateTime(2011, 1, 1, 4, 0, 0));
  }
}
