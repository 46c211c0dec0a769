/**
 * The pure helpers behind the JSON that JATOS' GUI shows: the HTML-escaped
 * and truncated result data of a component result, the duration of a
 * component result as text, the group result id of a study result, and the
 * sidebar's study list sorted by title regardless of case.
 */
module JsonUtil {
  import opened Common

  // ---------------------------------------------------------------------
  // HTML escaping of result data

  /** String.replace with a one-character target: every `c` becomes `rep`. */
  function ReplaceChar(s: string, c: char, rep: string): (r: string)
    ensures forall x :: x in r ==> (x in s && x != c) || x in rep
    ensures c !in s ==> r == s
  {
    if s == [] then []
    else (if s[0] == c then rep else [s[0]]) + ReplaceChar(s[1..], c, rep)
  }

  /** Replacing distributes over concatenation. */
  lemma {:induction false} ReplaceCharConcat(a: string, b: string, c: char, rep: string)
    ensures ReplaceChar(a + b, c, rep) == ReplaceChar(a, c, rep) + ReplaceChar(b, c, rep)
  {
    if a == [] {
      assert a + b == b;
    } else {
      assert (a + b)[1..] == a[1..] + b;
      ReplaceCharConcat(a[1..], b, c, rep);
    }
  }

  /** The escaping of componentResultDataForUI: '&', then '<', then '>'. Note
      that '&' becomes "&amp" without a semicolon. */
  function EscapeHtml(s: string): (r: string)
    ensures '<' !in r && '>' !in r
    ensures forall x :: x in r ==> x in s || x in "&amplt;gt;"
  {
    ReplaceChar(ReplaceChar(ReplaceChar(s, '&', "&amp"), '<', "&lt;"), '>', "&gt;")
  }

  /** What one character turns into. */
  function EscapeChar(c: char): string
  {
    if c == '&' then "&amp" else if c == '<' then "&lt;" else if c == '>' then "&gt;" else [c]
  }

  /** Escaping character by character, in a single pass. */
  function EscapeOnePass(s: string): string
  {
    if s == [] then [] else EscapeChar(s[0]) + EscapeOnePass(s[1..])
  }

  /** Escaping distributes over concatenation. */
  lemma EscapeHtmlConcat(a: string, b: string)
    ensures EscapeHtml(a + b) == EscapeHtml(a) + EscapeHtml(b)
  {
    ReplaceCharConcat(a, b, '&', "&amp");
    var a1, b1 := ReplaceChar(a, '&', "&amp"), ReplaceChar(b, '&', "&amp");
    ReplaceCharConcat(a1, b1, '<', "&lt;");
    var a2, b2 := ReplaceChar(a1, '<', "&lt;"), ReplaceChar(b1, '<', "&lt;");
    ReplaceCharConcat(a2, b2, '>', "&gt;");
  }

  /** A single character is escaped as EscapeChar says. */
  lemma EscapeHtmlOneChar(c: char)
    ensures EscapeHtml([c]) == EscapeChar(c)
  {
    var a1 := ReplaceChar([c], '&', "&amp");
    var b1 := ReplaceChar(a1, '<', "&lt;");
    if c == '&' {
      assert a1 == "&amp" && b1 == "&amp";
    } else if c == '<' {
      assert a1 == "<" && b1 == "&lt;";
    } else if c == '>' {
      assert a1 == ">" && b1 == ">";
    } else {
      assert a1 == [c] && b1 == [c];
    }
  }

  /** The three successive replacements escape each character on its own:
      none of them touches what an earlier one inserted. */
  lemma {:induction false} EscapeHtmlIsOnePass(s: string)
    ensures EscapeHtml(s) == EscapeOnePass(s)
  {
    if s != [] {
      assert s == [s[0]] + s[1..];
      EscapeHtmlConcat([s[0]], s[1..]);
      EscapeHtmlOneChar(s[0]);
      EscapeHtmlIsOnePass(s[1..]);
    }
  }

  /** Reads the escaped text back: "&amp", "&lt;" and "&gt;" stand for
      '&', '<' and '>'. */
  function Unescape(s: string): string
    decreases |s|
  {
    if s == [] then []
    else if |s| >= 4 && s[..4] == "&amp" then "&" + Unescape(s[4..])
    else if |s| >= 4 && s[..4] == "&lt;" then "<" + Unescape(s[4..])
    else if |s| >= 4 && s[..4] == "&gt;" then ">" + Unescape(s[4..])
    else [s[0]] + Unescape(s[1..])
  }

  /** Escaping loses nothing: the original data can be read back. */
  lemma {:induction false} UnescapeEscape(s: string)
    ensures Unescape(EscapeHtml(s)) == s
  {
    EscapeHtmlIsOnePass(s);
    UnescapeOnePass(s);
  }

  lemma {:induction false} UnescapeOnePass(s: string)
    ensures Unescape(EscapeOnePass(s)) == s
  {
    if s != [] {
      calc {
        Unescape(EscapeOnePass(s));
        Unescape(EscapeChar(s[0]) + EscapeOnePass(s[1..]));
        { UnescapeEscapedChar(s[0], EscapeOnePass(s[1..])); }
        [s[0]] + Unescape(EscapeOnePass(s[1..]));
        { UnescapeOnePass(s[1..]); }
        [s[0]] + s[1..];
        s;
      }
    }
  }

  /** Reading back an escaped character consumes exactly its escape. */
  lemma UnescapeEscapedChar(c: char, rest: string)
    ensures Unescape(EscapeChar(c) + rest) == [c] + Unescape(rest)
  {
    if c == '&' || c == '<' || c == '>' {
      UnescapeEntity(c, rest);
    } else {
      UnescapePlain(c, rest);
    }
  }

  lemma UnescapeEntity(c: char, rest: string)
    requires c == '&' || c == '<' || c == '>'
    ensures Unescape(EscapeChar(c) + rest) == [c] + Unescape(rest)
  {
    var e := EscapeChar(c) + rest;
    assert e[..4] == EscapeChar(c) && e[4..] == rest;
    assert "&lt;"[1] != "&amp"[1] && "&gt;"[1] != "&amp"[1] && "&gt;"[1] != "&lt;"[1];
  }

  lemma UnescapePlain(c: char, rest: string)
    requires c != '&' && c != '<' && c != '>'
    ensures Unescape([c] + rest) == [c] + Unescape(rest)
  {
    var e := [c] + rest;
    assert e[0] == c && e[1..] == rest;
    if |e| >= 4 {
      assert e[..4][0] == c;
    }
  }


  const MaxCharPerResult: nat := 1000

  /**
   * componentResultDataForUI: "none" for missing data; otherwise the escaped
   * data, cut to its first 1000 characters followed by " ..." when it has
   * 1000 characters or more.
   */
  function ComponentResultDataForUI(data: Option<string>): (r: string)
    ensures data.None? ==> r == "none"
    ensures '<' !in r && '>' !in r
    ensures |r| <= MaxCharPerResult + 4
    ensures data.Some? && |EscapeHtml(data.value)| < MaxCharPerResult ==>
      r == EscapeHtml(data.value) && Unescape(r) == data.value
    ensures data.Some? && |EscapeHtml(data.value)| >= MaxCharPerResult ==>
      && |r| == MaxCharPerResult + 4
      && r[..MaxCharPerResult] == EscapeHtml(data.value)[..MaxCharPerResult]
      && r[MaxCharPerResult..] == " ..."
  {
    if data.Some? then
      var escaped := EscapeHtml(data.value);
      UnescapeEscape(data.value);
      if |escaped| < MaxCharPerResult then escaped
      else escaped[..MaxCharPerResult] + " ..."
    else "none"
  }

  /** Missing data and the data "none" look alike in the GUI. */
  lemma NoDataLooksLikeNone()
    ensures ComponentResultDataForUI(None) == ComponentResultDataForUI(Some("none"))
  {
    var none := "none";
    assert '&' !in none && '<' !in none && '>' !in none;
    assert ReplaceChar(none, '&', "&amp") == none;
    assert ReplaceChar(none, '<', "&lt;") == none;
  }

  // ---------------------------------------------------------------------
  // Duration of a component result


  /** String.format("%02d", x): at least two characters, padded with a zero;
      a negative number is written with its sign and not padded further. */
  function Pad2(x: int): (r: string)
    ensures 0 <= x < 100 ==> |r| == 2 && AllDigits(r) && DigitsValue(r) == x
    ensures |r| >= 2 && (x < 0 ==> r[0] == '-')
  {
    if 0 <= x < 10 then ['0', DigitChar(x)]
    else
      NatToStringValue(if x < 0 then 0 else x);
      LongToString(x)
  }

  /** The parts of a duration in milliseconds, each computed as the source
      does, with Java's truncating division and remainder. */
  datatype DurationParts = DurationParts(days: int, hours: int, minutes: int, seconds: int)

  function Parts(duration: int): (p: DurationParts)
    ensures duration >= 0 ==>
      && 0 <= p.seconds < 60 && 0 <= p.minutes < 60 && 0 <= p.hours < 24 && 0 <= p.days
      && p.days * 86_400_000 + p.hours * 3_600_000 + p.minutes * 60_000
         + p.seconds * 1000 + duration % 1000 == duration
  {
    var seconds := JavaRem(JavaDiv(duration, 1000), 60);
    var minutes := JavaRem(JavaDiv(duration, 60_000), 60);
    var hours := JavaRem(JavaDiv(duration, 3_600_000), 24);
    var days := JavaDiv(duration, 86_400_000);
    if duration >= 0 then
      DecomposeDuration(duration);
      DurationParts(days, hours, minutes, seconds)
    else DurationParts(days, hours, minutes, seconds)
  }

  lemma MulAtLeast(k: int, m: int)
    requires k >= 1 && m > 0
    ensures k * m >= m
  {
    assert k * m == (k - 1) * m + m;
    assert (k - 1) * m >= 0;
  }

  /** Quotient and remainder are the only such pair. */
  lemma DivUnique(n: int, m: int, q: int, r: int)
    requires m > 0 && 0 <= r < m && n == q * m + r
    ensures n / m == q && n % m == r
  {
    var q', r' := n / m, n % m;
    assert q * m + r == q' * m + r';
    assert (q - q') * m == r' - r;
    if q > q' {
      MulAtLeast(q - q', m);
    } else if q < q' {
      MulAtLeast(q' - q, m);
    }
  }

  lemma RegroupProduct(q: int, b: int, r2: int, a: int)
    ensures (q * b + r2) * a == q * (a * b) + r2 * a
  {
    assert (q * b + r2) * a == q * b * a + r2 * a;
    assert q * b * a == q * (a * b);
  }

  lemma MixedRemainderBound(r1: int, r2: int, a: int, b: int)
    requires 0 <= r1 < a && 0 <= r2 < b
    ensures 0 <= r2 * a + r1 < a * b
  {
    assert r2 * a <= (b - 1) * a by {
      assert (b - 1) * a - r2 * a == (b - 1 - r2) * a;
    }
    assert (b - 1) * a == a * b - a;
  }

  /** Dividing a non-negative number by a then by b is dividing it by a * b. */
  lemma DivDiv(n: nat, a: nat, b: nat)
    requires a > 0 && b > 0
    ensures n / a / b == n / (a * b)
  {
    var q1, r1 := n / a, n % a;
    var q, r2 := q1 / b, q1 % b;
    RegroupProduct(q, b, r2, a);
    MixedRemainderBound(r1, r2, a, b);
    assert n == q * (a * b) + (r2 * a + r1) by {
      assert n == q1 * a + r1;
      assert q1 == q * b + r2;
    }
    DivUnique(n, a * b, q, r2 * a + r1);
  }

  lemma DecomposeDuration(d: nat)
    ensures (d / 86_400_000) * 86_400_000 + ((d / 3_600_000) % 24) * 3_600_000
      + ((d / 60_000) % 60) * 60_000 + ((d / 1000) % 60) * 1000
      + d % 1000 == d
  {
    var s := d / 1000;
    var m := s / 60;
    var h := m / 60;
    DivDiv(d, 1000, 60);
    DivDiv(d, 60000, 60);
    DivDiv(d, 3600000, 24);
    assert d / 60_000 == m;
    assert d / 3_600_000 == h;
    assert d / 86_400_000 == h / 24;
    assert d == s * 1000 + d % 1000;
    assert s == m * 60 + s % 60;
    assert m == h * 60 + m % 60;
    assert h == (h / 24) * 24 + h % 24;
  }

  /** The HH:MM:SS part of the text. */
  function Clock(p: DurationParts): (c: string)
    ensures 0 <= p.hours < 100 && 0 <= p.minutes < 100 && 0 <= p.seconds < 100 ==> |c| == 8
  {
    Pad2(p.hours) + ":" + Pad2(p.minutes) + ":" + Pad2(p.seconds)
  }

  /** With hours, minutes and seconds in range the clock text is eight
      characters, colons at 2 and 5, two-digit numbers around them. */
  lemma ClockReadsBack(p: DurationParts)
    requires 0 <= p.hours < 24 && 0 <= p.minutes < 60 && 0 <= p.seconds < 60
    ensures var r := Clock(p);
      && |r| == 8 && r[2] == ':' && r[5] == ':'
      && AllDigits(r[0..2]) && AllDigits(r[3..5]) && AllDigits(r[6..8])
      && DigitsValue(r[0..2]) == p.hours && DigitsValue(r[3..5]) == p.minutes
      && DigitsValue(r[6..8]) == p.seconds
  {
    var r := Clock(p);
    assert r[0..2] == Pad2(p.hours) && r[3..5] == Pad2(p.minutes) && r[6..8] == Pad2(p.seconds);
  }

  /** The text of a duration in milliseconds: for a non-negative one, the
      clock text, preceded by the day count and a colon exactly when the
      duration lasts a day or more. */
  function DurationText(duration: int): (r: string)
    ensures duration >= 0 ==> |r| >= 8 && r[|r| - 8..] == Clock(Parts(duration))
    ensures duration >= 0 ==> (|r| == 8 <==> duration < 86_400_000)
  {
    var p := Parts(duration);
    if p.days == 0 then Clock(p) else LongToString(p.days) + ":" + Clock(p)
  }

  /**
   * getDurationPretty: null while the end is unknown; otherwise the time
   * between the two timestamps (milliseconds, `long` subtraction) as
   * HH:MM:SS, preceded by the number of days and a colon when there is at
   * least one.
   */
  function GetDurationPretty(startDate: Long, endDate: Option<Long>): (r: Option<string>)
    ensures r.None? <==> endDate.None?
    ensures endDate.Some? && LongMin <= endDate.value - startDate <= LongMax ==>
      r == Some(DurationText(endDate.value - startDate))
  {
    if endDate.Some? then
      var duration := Wrap64(endDate.value - startDate);
      assert LongMin <= endDate.value - startDate <= LongMax ==> duration == endDate.value - startDate;
      Some(DurationText(duration))
    else None
  }

  /** A duration shorter than a day reads as HH:MM:SS: three two-digit
      numbers that give back hours, minutes and seconds. */
  lemma DurationUnderADay(d: int)
    requires 0 <= d < 86_400_000
    ensures var r := DurationText(d);
      && |r| == 8 && r[2] == ':' && r[5] == ':'
      && AllDigits(r[0..2]) && AllDigits(r[3..5]) && AllDigits(r[6..8])
      && DigitsValue(r[0..2]) < 24 && DigitsValue(r[3..5]) < 60 && DigitsValue(r[6..8]) < 60
      && DigitsValue(r[0..2]) * 3_600_000 + DigitsValue(r[3..5]) * 60_000
         + DigitsValue(r[6..8]) * 1000 + d % 1000 == d
  {
    var p := Parts(d);
    assert p.days == 0 by {
      assert p.days * 86_400_000 <= d;
    }
    ClockReadsBack(p);
  }

  /** From one day on, the number of days comes first, then HH:MM:SS. */
  lemma DurationOfDays(d: int)
    requires 86_400_000 <= d <= LongMax
    ensures var r := DurationText(d);
      var prefix := LongToString(d / 86_400_000);
      && |r| == |prefix| + 9 && r[..|prefix|] == prefix && r[|prefix|] == ':'
      && r[|prefix| + 1..] == Clock(Parts(d))
      && ParseLong(prefix) == Some(d / 86_400_000)
  {
    var days := d / 86_400_000;
    assert Parts(d).days == days;
    ClockReadsBack(Parts(d));
    ParseLongToString(days);
  }

  // ---------------------------------------------------------------------
  // Group result id of a study result

  /**
   * getGroupResultId: the id of the study result's active group result, else
   * that of its history group result, else "none"; the `long` id written as
   * by Long.toString.
   */
  function GetGroupResultId(activeGroupResultId: Option<Long>, historyGroupResultId: Option<Long>): (r: string)
    ensures activeGroupResultId.Some? ==> ParseLong(r) == Some(activeGroupResultId.value)
    ensures activeGroupResultId.None? && historyGroupResultId.Some? ==>
      ParseLong(r) == Some(historyGroupResultId.value)
    ensures activeGroupResultId.None? && historyGroupResultId.None? ==> r == "none"
  {
    if activeGroupResultId.Some? then
      ParseLongToString(activeGroupResultId.value);
      LongToString(activeGroupResultId.value)
    else if historyGroupResultId.Some? then
      ParseLongToString(historyGroupResultId.value);
      LongToString(historyGroupResultId.value)
    else "none"
  }

  /** The text tells the three cases apart: "none" is never an id. */
  lemma GroupResultIdIsUnambiguous(active: Option<Long>, history: Option<Long>)
    ensures GetGroupResultId(active, history) == "none" <==> active.None? && history.None?
  {
    NoneIsNotALong();
  }

  // ---------------------------------------------------------------------
  // The sidebar's study list

  datatype Component = Component(id: Option<Long>, uuid: string, title: string)
  datatype Study = Study(id: Option<Long>, uuid: string, title: string, locked: bool,
                         componentList: seq<Component>)

  datatype SidebarComponent = SidebarComponent(id: Option<Long>, uuid: string, title: string)
  datatype SidebarStudy = SidebarStudy(id: Option<Long>, uuid: string, title: string, locked: bool,
                                       componentList: seq<SidebarComponent>)

  /** The sidebar entry of one component. */
  function SidebarComponentOf(c: Component): SidebarComponent
  {
    SidebarComponent(c.id, c.uuid, c.title)
  }

  function SidebarComponentsOf(cs: seq<Component>): (r: seq<SidebarComponent>)
    ensures |r| == |cs|
    ensures forall i :: 0 <= i < |cs| ==> r[i] == SidebarComponentOf(cs[i])
  {
    seq(|cs|, i requires 0 <= i < |cs| => SidebarComponentOf(cs[i]))
  }

  /** The sidebar entry of one study: its id, uuid, title, lock and its
      components' entries in the study's order. */
  function SidebarStudyOf(study: Study): SidebarStudy
  {
    SidebarStudy(study.id, study.uuid, study.title, study.locked,
                 SidebarComponentsOf(study.componentList))
  }

  function SidebarStudiesOf(studies: seq<Study>): (r: seq<SidebarStudy>)
    ensures |r| == |studies|
    ensures forall i :: 0 <= i < |studies| ==> r[i] == SidebarStudyOf(studies[i])
  {
    seq(|studies|, i requires 0 <= i < |studies| => SidebarStudyOf(studies[i]))
  }

  /** String.compareTo: the difference of the first differing characters,
      or else the difference of the lengths. */
  function CompareTo(a: string, b: string): (r: int)
    ensures r == 0 <==> a == b
  {
    if |a| == 0 || |b| == 0 then |a| - |b|
    else if a[0] != b[0] then a[0] as int - b[0] as int
    else
      assert a == [a[0]] + a[1..] && b == [b[0]] + b[1..];
      CompareTo(a[1..], b[1..])
  }

  /** compareTo is antisymmetric. */
  lemma {:induction false} CompareToAntisymmetric(a: string, b: string)
    ensures CompareTo(b, a) == -CompareTo(a, b)
  {
    if |a| > 0 && |b| > 0 && a[0] == b[0] {
      CompareToAntisymmetric(a[1..], b[1..]);
    }
  }

  /** The sort key: the title in lower case. */
  function Key(s: SidebarStudy): string
  {
    ToLower(s.title)
  }

  /** SidebarStudyComparator.compare. */
  function CompareByTitle(s1: SidebarStudy, s2: SidebarStudy): (r: int)
    ensures r == 0 <==> Key(s1) == Key(s2)
  {
    CompareTo(ToLower(s1.title), ToLower(s2.title))
  }

  /** Titles that differ only in case compare as equal. */
  lemma CompareIgnoresCase(s1: SidebarStudy, s2: SidebarStudy)
    ensures CompareByTitle(s1, s2) == 0 <==> EqualsIgnoreCase(s1.title, s2.title)
  {
    ToLowerSameKey(s1.title, s2.title);
  }

  /** Non-decreasing by lower-cased title. */
  predicate SortedByTitle(s: seq<SidebarStudy>)
  {
    forall i :: 0 < i < |s| ==> CompareByTitle(s[i - 1], s[i]) <= 0
  }

  /** `x` moved in from the back past every entry with a greater title. */
  function InsertByTitle(s: seq<SidebarStudy>, x: SidebarStudy): (r: seq<SidebarStudy>)
    ensures |r| == |s| + 1
  {
    if s == [] || CompareByTitle(s[|s| - 1], x) <= 0 then s + [x]
    else InsertByTitle(s[..|s| - 1], x) + [s[|s| - 1]]
  }

  /** List.sort with SidebarStudyComparator, as a stable insertion sort. */
  function SortByTitle(s: seq<SidebarStudy>): (r: seq<SidebarStudy>)
    ensures |r| == |s|
  {
    if s == [] then [] else InsertByTitle(SortByTitle(s[..|s| - 1]), s[|s| - 1])
  }

  /** The entries with lower-cased title `k`, in order. */
  function WithKey(s: seq<SidebarStudy>, k: string): seq<SidebarStudy>
  {
    if s == [] then []
    else WithKey(s[..|s| - 1], k) + (if Key(s[|s| - 1]) == k then [s[|s| - 1]] else [])
  }

  lemma WithKeyAppend(s: seq<SidebarStudy>, x: SidebarStudy, k: string)
    ensures WithKey(s + [x], k) == WithKey(s, k) + (if Key(x) == k then [x] else [])
  {
    assert (s + [x])[..|s|] == s;
  }

  lemma {:induction false} InsertByTitleSorted(s: seq<SidebarStudy>, x: SidebarStudy)
    requires SortedByTitle(s)
    ensures SortedByTitle(InsertByTitle(s, x))
    ensures |s| > 0 ==> var r := InsertByTitle(s, x);
      r[|r| - 1] == (if CompareByTitle(s[|s| - 1], x) <= 0 then x else s[|s| - 1])
    decreases |s|
  {
    if s == [] || CompareByTitle(s[|s| - 1], x) <= 0 {
      SortedSnoc(s, x);
    } else {
      var init, last := s[..|s| - 1], s[|s| - 1];
      assert SortedByTitle(init);
      InsertByTitleSorted(init, x);
      var r := InsertByTitle(init, x);
      assert CompareByTitle(r[|r| - 1], last) <= 0 by {
        CompareToAntisymmetric(Key(last), Key(x));
      }
      SortedSnoc(r, last);
    }
  }

  /** Appending an entry not smaller than the last keeps the list sorted. */
  lemma SortedSnoc(s: seq<SidebarStudy>, x: SidebarStudy)
    requires SortedByTitle(s)
    requires s != [] ==> CompareByTitle(s[|s| - 1], x) <= 0
    ensures SortedByTitle(s + [x])
  {
  }

  lemma {:induction false} InsertByTitleMultiset(s: seq<SidebarStudy>, x: SidebarStudy)
    ensures multiset(InsertByTitle(s, x)) == multiset(s) + multiset{x}
    decreases |s|
  {
    if s != [] && CompareByTitle(s[|s| - 1], x) > 0 {
      InsertByTitleMultiset(s[..|s| - 1], x);
      assert s == s[..|s| - 1] + [s[|s| - 1]];
    }
  }

  lemma {:induction false} InsertByTitleWithKey(s: seq<SidebarStudy>, x: SidebarStudy, k: string)
    ensures WithKey(InsertByTitle(s, x), k) == WithKey(s, k) + (if Key(x) == k then [x] else [])
    decreases |s|
  {
    if s == [] || CompareByTitle(s[|s| - 1], x) <= 0 {
      WithKeyAppend(s, x, k);
    } else {
      var init, last := s[..|s| - 1], s[|s| - 1];
      var ofX := if Key(x) == k then [x] else [];
      var ofLast := if Key(last) == k then [last] else [];
      assert ofX == [] || ofLast == [];
      calc {
        WithKey(InsertByTitle(s, x), k);
        WithKey(InsertByTitle(init, x) + [last], k);
        { WithKeyAppend(InsertByTitle(init, x), last, k); }
        WithKey(InsertByTitle(init, x), k) + ofLast;
        { InsertByTitleWithKey(init, x, k); }
        WithKey(init, k) + ofX + ofLast;
        WithKey(init, k) + ofLast + ofX;
        { WithKeyAppend(init, last, k); assert s == init + [last]; }
        WithKey(s, k) + ofX;
      }
    }
  }

  /** The sorted list is ordered by lower-cased title. */
  lemma {:induction false} SortByTitleSorted(s: seq<SidebarStudy>)
    ensures SortedByTitle(SortByTitle(s))
  {
    if s != [] {
      SortByTitleSorted(s[..|s| - 1]);
      InsertByTitleSorted(SortByTitle(s[..|s| - 1]), s[|s| - 1]);
    }
  }

  /** The sorted list is a permutation of the input. */
  lemma {:induction false} SortByTitlePermutation(s: seq<SidebarStudy>)
    ensures multiset(SortByTitle(s)) == multiset(s)
  {
    if s != [] {
      var p, x := s[..|s| - 1], s[|s| - 1];
      calc {
        multiset(SortByTitle(s));
        multiset(InsertByTitle(SortByTitle(p), x));
        { InsertByTitleMultiset(SortByTitle(p), x); }
        multiset(SortByTitle(p)) + multiset{x};
        { SortByTitlePermutation(p); }
        multiset(p) + multiset{x};
        { assert s == p + [x]; }
        multiset(s);
      }
    }
  }

  /** The sort is stable: studies whose titles differ only in case keep
      their relative order. */
  lemma {:induction false} SortByTitleStable(s: seq<SidebarStudy>, k: string)
    ensures WithKey(SortByTitle(s), k) == WithKey(s, k)
  {
    if s != [] {
      SortByTitleStable(s[..|s| - 1], k);
      InsertByTitleWithKey(SortByTitle(s[..|s| - 1]), s[|s| - 1], k);
    }
  }

  /** compareTo orders strings transitively. */
  lemma {:induction false} CompareToTransitive(a: string, b: string, c: string)
    requires CompareTo(a, b) <= 0 && CompareTo(b, c) <= 0
    ensures CompareTo(a, c) <= 0
  {
    if |a| > 0 && |b| > 0 && |c| > 0 && a[0] == b[0] && b[0] == c[0] {
      CompareToTransitive(a[1..], b[1..], c[1..]);
    }
  }

  /** In a sorted list every entry is no greater than every later one. */
  lemma {:induction false} SortedByTitleAll(s: seq<SidebarStudy>, i: int, j: int)
    requires SortedByTitle(s) && 0 <= i <= j < |s|
    ensures CompareByTitle(s[i], s[j]) <= 0
    decreases j - i
  {
    if i < j {
      SortedByTitleAll(s, i, j - 1);
      CompareToTransitive(Key(s[i]), Key(s[j - 1]), Key(s[j]));
    }
  }

  /** An entry of WithKey(s, k) is an entry of s with key k. */
  lemma {:induction false} WithKeyFrom(s: seq<SidebarStudy>, k: string, m: int)
    requires 0 <= m < |WithKey(s, k)|
    ensures exists i :: 0 <= i < |s| && s[i] == WithKey(s, k)[m] && Key(s[i]) == k
    decreases |s|
  {
    var init, last := s[..|s| - 1], s[|s| - 1];
    if m < |WithKey(init, k)| {
      WithKeyFrom(init, k, m);
      var i :| 0 <= i < |init| && init[i] == WithKey(init, k)[m] && Key(init[i]) == k;
      assert s[i] == init[i];
    } else {
      assert s[|s| - 1] == WithKey(s, k)[m];
    }
  }

  /** The last entry of a non-empty list is the last one with its key. */
  lemma WithKeyOfLast(s: seq<SidebarStudy>)
    requires |s| > 0
    ensures WithKey(s, Key(s[|s| - 1])) == WithKey(s[..|s| - 1], Key(s[|s| - 1])) + [s[|s| - 1]]
    ensures forall k :: k != Key(s[|s| - 1]) ==> WithKey(s, k) == WithKey(s[..|s| - 1], k)
  {
  }

  /** The last entry of a sorted list has the greatest key: no entry of the
      list with a given key has a greater one. */
  lemma LastHasGreatestKey(s: seq<SidebarStudy>, k: string)
    requires SortedByTitle(s) && |s| > 0 && WithKey(s, k) != []
    ensures CompareTo(k, Key(s[|s| - 1])) <= 0
  {
    WithKeyFrom(s, k, 0);
    var i :| 0 <= i < |s| && s[i] == WithKey(s, k)[0] && Key(s[i]) == k;
    SortedByTitleAll(s, i, |s| - 1);
  }

  /** Two lists with the same entries per key that end in entries of the
      same key end in the same entry, and agree per key without it. */
  lemma DropLastWithKey(ir: seq<SidebarStudy>, xr: SidebarStudy, it: seq<SidebarStudy>, xt: SidebarStudy)
    requires Key(xr) == Key(xt)
    requires forall k :: WithKey(ir + [xr], k) == WithKey(it + [xt], k)
    ensures xr == xt
    ensures forall k :: WithKey(ir, k) == WithKey(it, k)
  {
    var k0 := Key(xr);
    WithKeyAppend(ir, xr, k0);
    WithKeyAppend(it, xt, k0);
    assert WithKey(ir + [xr], k0) == WithKey(it + [xt], k0);
    AppendInjective(WithKey(ir, k0), xr, WithKey(it, k0), xt);
    forall k | k != k0 ensures WithKey(ir, k) == WithKey(it, k) {
      WithKeyAppend(ir, xr, k);
      WithKeyAppend(it, xt, k);
      assert Key(xr) != k && Key(xt) != k;
      assert WithKey(ir, k) + [] == WithKey(ir, k);
      assert WithKey(it, k) + [] == WithKey(it, k);
      assert WithKey(ir + [xr], k) == WithKey(it + [xt], k);
    }
  }

  lemma AppendInjective(a: seq<SidebarStudy>, x: SidebarStudy, b: seq<SidebarStudy>, y: SidebarStudy)
    requires a + [x] == b + [y]
    ensures a == b && x == y
  {
    assert a == (a + [x])[..|a|];
    assert b == (b + [y])[..|b|];
  }

  /** Two sorted lists that hold, for every key, the same entries in the
      same order, are the same list. */
  lemma {:induction false} SortedWithSameKeysEqual(r: seq<SidebarStudy>, t: seq<SidebarStudy>)
    requires SortedByTitle(r) && SortedByTitle(t)
    requires forall k :: WithKey(r, k) == WithKey(t, k)
    ensures r == t
    decreases |r| + |t|
  {
    if r == [] && t != [] {
      WithKeyOfLast(t);
    } else if r != [] && t == [] {
      WithKeyOfLast(r);
    } else if r != [] {
      var ir, xr, it, xt := r[..|r| - 1], r[|r| - 1], t[..|t| - 1], t[|t| - 1];
      LastKeysAgree(r, t);
      assert r == ir + [xr] && t == it + [xt];
      DropLastWithKey(ir, xr, it, xt);
      assert SortedByTitle(ir) && SortedByTitle(it);
      SortedWithSameKeysEqual(ir, it);
    }
  }

  /** Two sorted lists with the same entries per key end in the same key. */
  lemma LastKeysAgree(r: seq<SidebarStudy>, t: seq<SidebarStudy>)
    requires SortedByTitle(r) && SortedByTitle(t) && r != [] && t != []
    requires forall k :: WithKey(r, k) == WithKey(t, k)
    ensures Key(r[|r| - 1]) == Key(t[|t| - 1])
  {
    var xr, xt := r[|r| - 1], t[|t| - 1];
    WithKeyOfLast(r);
    WithKeyOfLast(t);
    assert WithKey(r, Key(xt)) == WithKey(t, Key(xt));
    LastHasGreatestKey(r, Key(xt));
    LastHasGreatestKey(t, Key(xr));
    CompareToAntisymmetric(Key(xt), Key(xr));
  }

  /** List.sort promises a stable sort; every stable sort by lower-cased
      title gives the same list as SortByTitle. */
  lemma StableSortIsSortByTitle(r: seq<SidebarStudy>, s: seq<SidebarStudy>)
    requires SortedByTitle(r)
    requires forall k :: WithKey(r, k) == WithKey(s, k)
    ensures r == SortByTitle(s)
  {
    SortByTitleSorted(s);
    forall k ensures WithKey(SortByTitle(s), k) == WithKey(s, k) {
      SortByTitleStable(s, k);
    }
    SortedWithSameKeysEqual(r, SortByTitle(s));
  }

  /** Where the insertion stops: after the last entry no greater than `x`. */
  lemma {:induction false} InsertByTitleAt(s: seq<SidebarStudy>, x: SidebarStudy, j: nat)
    requires j <= |s|
    requires j > 0 ==> CompareByTitle(s[j - 1], x) <= 0
    requires forall k :: j <= k < |s| ==> CompareByTitle(s[k], x) > 0
    ensures InsertByTitle(s, x) == s[..j] + [x] + s[j..]
    decreases |s|
  {
    if j == |s| {
      assert s[..j] == s && s[j..] == [];
    } else {
      var init, last := s[..|s| - 1], s[|s| - 1];
      assert CompareByTitle(last, x) > 0;
      calc {
        InsertByTitle(s, x);
        InsertByTitle(init, x) + [last];
        { InsertByTitleAt(init, x, j); }
        init[..j] + [x] + init[j..] + [last];
        { assert init[..j] == s[..j] && init[j..] + [last] == s[j..]; }
        s[..j] + [x] + s[j..];
      }
    }
  }

  /** Moves a[i] towards the front past every greater entry of the sorted
      prefix a[..i]. */
  method InsertInPlace(a: array<SidebarStudy>, i: int)
    requires 0 <= i < a.Length
    modifies a
    ensures a[..i + 1] == InsertByTitle(old(a[..i]), old(a[i]))
    ensures a[i + 1..] == old(a[i + 1..])
  {
    var x := a[i];
    var j := i;
    while j > 0 && CompareByTitle(a[j - 1], x) > 0
      invariant 0 <= j <= i
      invariant forall k :: 0 <= k < j ==> a[k] == old(a[k])
      invariant forall k :: j < k <= i ==> a[k] == old(a[k - 1])
      invariant a[i + 1..] == old(a[i + 1..])
      invariant forall k :: j <= k < i ==> CompareByTitle(old(a[k]), x) > 0
    {
      a[j] := a[j - 1];
      j := j - 1;
    }
    a[j] := x;
    ShiftedIsInserted(a[..i + 1], old(a[..i]), x, j);
  }

  /** The prefix the insertion step leaves: the sorted entries before j,
      then `x`, then the rest of them shifted one place to the back. */
  lemma ShiftedIsInserted(r: seq<SidebarStudy>, sorted: seq<SidebarStudy>, x: SidebarStudy, j: nat)
    requires |r| == |sorted| + 1 && j <= |sorted|
    requires j > 0 ==> CompareByTitle(sorted[j - 1], x) <= 0
    requires forall k :: j <= k < |sorted| ==> CompareByTitle(sorted[k], x) > 0
    requires forall k :: 0 <= k < j ==> r[k] == sorted[k]
    requires r[j] == x
    requires forall k :: j < k < |r| ==> r[k] == sorted[k - 1]
    ensures r == InsertByTitle(sorted, x)
  {
    InsertByTitleAt(sorted, x, j);
    assert r == sorted[..j] + [x] + sorted[j..];
  }

  /** Sorting one more entry inserts it into the sorted prefix. */
  lemma SortByTitlePrefix(s: seq<SidebarStudy>, i: nat)
    requires i < |s|
    ensures SortByTitle(s[..i + 1]) == InsertByTitle(SortByTitle(s[..i]), s[i])
  {
    assert s[..i + 1][..i] == s[..i];
  }

  /** Sorts the array in place, stably, by lower-cased title: each entry in
      turn is moved towards the front past every greater one. */
  method SortByTitleInPlace(a: array<SidebarStudy>)
    modifies a
    ensures a[..] == SortByTitle(old(a[..]))
  {
    ghost var input := a[..];
    var i := 0;
    while i < a.Length
      invariant 0 <= i <= a.Length
      invariant a[..i] == SortByTitle(input[..i])
      invariant a[i..] == input[i..]
    {
      assert a[i + 1..] == input[i + 1..];
      InsertInPlace(a, i);
      SortByTitlePrefix(input, i);
      i := i + 1;
    }
    assert a[..] == a[..a.Length];
    assert input[..a.Length] == input;
  }

  /**
   * sidebarStudyList: one sidebar entry per study, each with its
   * components' entries in order, sorted by lower-cased title; the result is
   * ordered, a permutation of the entries, and keeps studies whose titles
   * differ only in case in their original order.
   */
  method SidebarStudyList(studyList: seq<Study>) returns (r: seq<SidebarStudy>)
    ensures r == SortByTitle(SidebarStudiesOf(studyList))
    ensures SortedByTitle(r)
    ensures multiset(r) == multiset(SidebarStudiesOf(studyList))
    ensures forall k :: WithKey(r, k) == WithKey(SidebarStudiesOf(studyList), k)
  {
    var sidebarStudyList: seq<SidebarStudy> := [];
    for i := 0 to |studyList|
      invariant sidebarStudyList == SidebarStudiesOf(studyList[..i])
    {
      var study := studyList[i];
      var components: seq<SidebarComponent> := [];
      for j := 0 to |study.componentList|
        invariant components == SidebarComponentsOf(study.componentList[..j])
      {
        var component := study.componentList[j];
        components := components + [SidebarComponent(component.id, component.uuid, component.title)];
      }
      assert study.componentList[..|study.componentList|] == study.componentList;
      sidebarStudyList := sidebarStudyList + [SidebarStudy(study.id, study.uuid, study.title, study.locked, components)];
    }
    assert studyList[..|studyList|] == studyList;
    var a := new SidebarStudy[|sidebarStudyList|](k requires 0 <= k < |sidebarStudyList| => sidebarStudyList[k]);
    assert a[..] == sidebarStudyList;
    SortByTitleInPlace(a);
    r := a[..];
    SortByTitleSorted(sidebarStudyList);
    SortByTitlePermutation(sidebarStudyList);
    forall k {
      SortByTitleStable(sidebarStudyList, k);
    }
  }
}
