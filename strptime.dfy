/**
 * `datetime.strptime(text, format).date()` for the formats the scripts
 * use. Python turns the format into a regular expression, one group of
 * alternatives per directive and `\s+` per blank, matches it at the
 * start of the text with backtracking, and raises ValueError when there
 * is no match, when the first match found leaves text over ("unconverted
 * data remains"), or when the fields do not form a valid date and time.
 */
module Strptime {

  import opened Wrappers
  import opened Text
  import opened Python
  import opened Dates

  /** One element of a format: a literal character, a blank, or a `%` directive. */
  datatype Piece = Lit(c: char) | Blank | Field(d: char)

  /** A character range of the generated expression, such as `[0-5]` or `\d`. */
  datatype Range = Between(lo: char, hi: char)

  /** One alternative of a directive's group: a fixed sequence of ranges. */
  type Alt = seq<Range>

  const D: Range := Between('0', '9')

  /**
   * The alternatives of each directive's group, in the order the
   * expression tries them: `%d` is `3[0-1]|[1-2]\d|0[1-9]|[1-9]| [1-9]`,
   * `%m` is `1[0-2]|0[1-9]|[1-9]`, `%Y` is `\d\d\d\d`, `%y` is `\d\d`,
   * `%H` is `2[0-3]|[0-1]\d|\d`, `%M` is `[0-5]\d|\d`, `%S` is
   * `6[0-1]|[0-5]\d|\d` and the greedy `%f` is `[0-9]{1,6}`.
   */
  function Alternatives(d: char): seq<Alt>
  {
    match d
    case 'd' => [[Between('3', '3'), Between('0', '1')], [Between('1', '2'), D], [Between('0', '0'), Between('1', '9')],
                 [Between('1', '9')], [Between(' ', ' '), Between('1', '9')]]
    case 'm' => [[Between('1', '1'), Between('0', '2')], [Between('0', '0'), Between('1', '9')], [Between('1', '9')]]
    case 'Y' => [[D, D, D, D]]
    case 'y' => [[D, D]]
    case 'H' => [[Between('2', '2'), Between('0', '3')], [Between('0', '1'), D], [D]]
    case 'M' => [[Between('0', '5'), D], [D]]
    case 'S' => [[Between('6', '6'), Between('0', '1')], [Between('0', '5'), D], [D]]
    case 'f' => [[D, D, D, D, D, D], [D, D, D, D, D], [D, D, D, D], [D, D, D], [D, D], [D]]
    case _ => []
  }

  predicate AltMatches(a: Alt, s: string, i: nat) {
    i + |a| <= |s| && forall k :: 0 <= k < |a| ==> a[k].lo <= s[i + k] <= a[k].hi
  }

  /** The text captured for each directive, in format order. */
  type Captures = seq<(char, string)>

  /** A way to match the format: where it ends, and what it captured. */
  type Parse = (nat, Captures)

  /** The length of the run of blanks starting at `i`. */
  function BlankRun(s: string, i: nat): (n: nat)
    requires i <= |s|
    ensures i + n <= |s|
    decreases |s| - i
  {
    if i < |s| && IsSpace(s[i]) then 1 + BlankRun(s, i + 1) else 0
  }

  /** The places a directive or a blank may end, longest or first alternative first. */
  function Candidates(p: Piece, s: string, i: nat): (r: seq<(nat, Captures)>)
    requires i <= |s|
    ensures forall k :: 0 <= k < |r| ==> i <= r[k].0 <= |s|
  {
    match p
    case Lit(c) => if i < |s| && s[i] == c then [(i + 1, [])] else []
    case Blank =>
      var n := BlankRun(s, i);
      seq(n, k requires 0 <= k < n => (i + n - k, []))
    case Field(d) => FieldCandidates(d, Alternatives(d), s, i)
  }

  function FieldCandidates(d: char, alts: seq<Alt>, s: string, i: nat): (r: seq<(nat, Captures)>)
    requires i <= |s|
    ensures forall k :: 0 <= k < |r| ==> i <= r[k].0 <= |s|
  {
    if |alts| == 0 then []
    else if AltMatches(alts[0], s, i) then [(i + |alts[0]|, [(d, s[i..i + |alts[0]|])])] + FieldCandidates(d, alts[1..], s, i)
    else FieldCandidates(d, alts[1..], s, i)
  }

  /**
   * The first way the format matches the text from `i`, trying each
   * piece's candidates in order and backtracking into the next candidate
   * only when the rest of the format cannot match after it.
   */
  function FirstParse(pieces: seq<Piece>, s: string, i: nat): (r: Option<Parse>)
    requires i <= |s|
    ensures r.Some? ==> i <= r.value.0 <= |s|
    decreases |pieces|, 0
  {
    if |pieces| == 0 then Some((i, []))
    else FirstAfter(pieces[1..], s, i, Candidates(pieces[0], s, i))
  }

  /** The first parse of `rest` after the first candidate that admits one, that candidate's capture in front. */
  function FirstAfter(rest: seq<Piece>, s: string, i: nat, cands: seq<(nat, Captures)>): (r: Option<Parse>)
    requires forall k :: 0 <= k < |cands| ==> i <= cands[k].0 <= |s|
    ensures r.Some? ==> i <= r.value.0 <= |s|
    decreases |rest|, |cands| + 1
  {
    if |cands| == 0 then None
    else match FirstParse(rest, s, cands[0].0)
      case Some(p) => Some((p.0, cands[0].1 + p.1))
      case None => FirstAfter(rest, s, i, cands[1..])
  }

  /** The text captured for directive `d`. */
  function Captured(caps: Captures, d: char): Option<string>
  {
    if |caps| == 0 then None else if caps[0].0 == d then Some(caps[0].1) else Captured(caps[1..], d)
  }

  /** `int(t)` for a capture: digits, possibly after one leading blank (`%d` as ` 5`). */
  function NumberOf(t: string): nat
  {
    if AllDigits(t) then DigitsValue(t)
    else if |t| > 0 && AllDigits(t[1..]) then DigitsValue(t[1..])
    else 0
  }

  function FieldOr(caps: Captures, d: char, default: nat): nat
  {
    match Captured(caps, d)
    case Some(t) => NumberOf(t)
    case None => default
  }

  /** `%y`: 69-99 are 1969-1999 and 00-68 are 2000-2068. */
  function Century(yy: nat): int { if yy <= 68 then 2000 + yy else 1900 + yy }

  /** The date the captured fields name (1900-01-01 for missing ones). */
  function DateOf(caps: Captures): Date
  {
    var year := if Captured(caps, 'Y').Some? then FieldOr(caps, 'Y', 1900)
                else if Captured(caps, 'y').Some? then Century(FieldOr(caps, 'y', 0))
                else 1900;
    Date(year, FieldOr(caps, 'm', 1), FieldOr(caps, 'd', 1))
  }

  /** `datetime.strptime(s, format).date()` */
  function ParseDate(format: seq<Piece>, s: string): (r: Outcome<Date>)
    ensures r.Ok? ==> Valid(r.value)
    ensures r.Raised? ==> r.exc == ValueError
  {
    match FirstParse(format, s, 0)
    case None => Raised(ValueError)
    case Some((n, caps)) =>
      if n != |s| then Raised(ValueError)
      else
        var date := DateOf(caps);
        if Valid(date) && FieldOr(caps, 'S', 0) <= 59 then Ok(date) else Raised(ValueError)
  }

  /** `'%Y-%m-%d %H:%M:%S.%f'` */
  const TimestampMicro: seq<Piece> :=
    [Field('Y'), Lit('-'), Field('m'), Lit('-'), Field('d'), Blank,
     Field('H'), Lit(':'), Field('M'), Lit(':'), Field('S'), Lit('.'), Field('f')]

  /** `'%Y-%m-%d %H:%M:%S'` */
  const Timestamp: seq<Piece> :=
    [Field('Y'), Lit('-'), Field('m'), Lit('-'), Field('d'), Blank,
     Field('H'), Lit(':'), Field('M'), Lit(':'), Field('S')]

  /** `'%d-%m-%Y'` */
  const DayMonthYear: seq<Piece> := [Field('d'), Lit('-'), Field('m'), Lit('-'), Field('Y')]

  /** `'%d.%m.%y'` */
  const DayMonthShortYear: seq<Piece> := [Field('d'), Lit('.'), Field('m'), Lit('.'), Field('y')]

  // ---------------------------------------------------------------------
  // Round trips
  // ---------------------------------------------------------------------

  /** The first candidate of a directive is its first alternative that matches. */
  lemma {:induction false} FirstCandidate(d: char, alts: seq<Alt>, s: string, i: nat, j: nat)
    requires i <= |s| && j < |alts| && AltMatches(alts[j], s, i)
    requires forall k :: 0 <= k < j ==> !AltMatches(alts[k], s, i)
    ensures var c := FieldCandidates(d, alts, s, i); |c| > 0 && c[0] == (i + |alts[j]|, [(d, s[i..i + |alts[j]|])])
    decreases j
  {
    if j > 0 {
      assert !AltMatches(alts[0], s, i);
      FirstCandidate(d, alts[1..], s, i, j - 1);
    }
  }

  /** The first parse of `[p] + rest` continues the first candidate of `p`, when that continuation exists. */
  lemma FirstParseCons(p: Piece, rest: seq<Piece>, s: string, i: nat, c: (nat, Captures), q: Parse)
    requires i <= |s|
    requires |Candidates(p, s, i)| > 0 && Candidates(p, s, i)[0] == c && FirstParse(rest, s, c.0) == Some(q)
    ensures FirstParse([p] + rest, s, i) == Some((q.0, c.1 + q.1))
  {
    assert ([p] + rest)[1..] == rest;
  }

  /** An alternative whose first class rejects the next character does not match. */
  lemma NotAlt(d: char, k: nat, s: string, i: nat)
    requires k < |Alternatives(d)| && |Alternatives(d)[k]| > 0 && i < |s|
    requires s[i] < Alternatives(d)[k][0].lo || Alternatives(d)[k][0].hi < s[i]
    ensures !AltMatches(Alternatives(d)[k], s, i)
  {
  }

  /** The first alternative a two-digit day 01-31 meets is one of two characters. */
  lemma DayCandidate(day: nat, s: string, i: nat)
    requires 1 <= day <= 31 && i + 2 <= |s| && s[i] == DigitChar(day / 10) && s[i + 1] == DigitChar(day % 10)
    ensures var c := Candidates(Field('d'), s, i); |c| > 0 && c[0] == (i + 2, [('d', Pad2(day))])
  {
    var alts := Alternatives('d');
    assert s[i..i + 2] == Pad2(day);
    if day >= 30 {
      FirstCandidate('d', alts, s, i, 0);
    } else if day >= 10 {
      NotAlt('d', 0, s, i);
      FirstCandidate('d', alts, s, i, 1);
    } else {
      NotAlt('d', 0, s, i);
      NotAlt('d', 1, s, i);
      FirstCandidate('d', alts, s, i, 2);
    }
  }

  /** The first alternative a two-digit month 01-12 meets is one of two characters. */
  lemma MonthCandidate(month: nat, s: string, i: nat)
    requires 1 <= month <= 12 && i + 2 <= |s| && s[i] == DigitChar(month / 10) && s[i + 1] == DigitChar(month % 10)
    ensures var c := Candidates(Field('m'), s, i); |c| > 0 && c[0] == (i + 2, [('m', Pad2(month))])
  {
    var alts := Alternatives('m');
    assert s[i..i + 2] == Pad2(month);
    if month >= 10 {
      FirstCandidate('m', alts, s, i, 0);
    } else {
      NotAlt('m', 0, s, i);
      FirstCandidate('m', alts, s, i, 1);
    }
  }

  /** A run of digits is the one candidate of `%Y` (four of them) or `%y` (two). */
  lemma YearCandidate(d: char, t: string, s: string, i: nat)
    requires (d == 'Y' && |t| == 4) || (d == 'y' && |t| == 2)
    requires AllDigits(t) && i + |t| <= |s| && s[i..i + |t|] == t
    ensures var c := Candidates(Field(d), s, i); |c| > 0 && c[0] == (i + |t|, [(d, t)])
  {
    var a: Alt := Alternatives(d)[0];
    forall k | 0 <= k < |a| ensures a[k].lo <= s[i + k] <= a[k].hi {
      assert s[i + k] == t[k];
    }
    FirstCandidate(d, Alternatives(d), s, i, 0);
  }

  /** The text of `'%02d' + sep + '%02d' + sep` followed by the year digits `yt`, character by character. */
  predicate Rendered(s: string, sep: char, day: nat, month: nat, yt: string)
    requires day < 100 && month < 100
  {
    6 + |yt| <= |s| && s[0] == DigitChar(day / 10) && s[1] == DigitChar(day % 10) && s[2] == sep &&
    s[3] == DigitChar(month / 10) && s[4] == DigitChar(month % 10) && s[5] == sep && s[6..6 + |yt|] == yt
  }

  lemma RenderedText(sep: char, day: nat, month: nat, yt: string, rest: string)
    requires day < 100 && month < 100
    ensures Rendered(Pad2(day) + [sep] + Pad2(month) + [sep] + yt + rest, sep, day, month, yt)
  {
    var s := Pad2(day) + [sep] + Pad2(month) + [sep] + yt + rest;
    assert s == Pad2(day) + [sep] + Pad2(month) + [sep] + (yt + rest);
    assert (yt + rest)[..|yt|] == yt;
  }

  /** The first parse of `%m`, the separator and the year from index 3 of a rendered date. */
  lemma MonthYearFirstParse(sep: char, yd: char, day: nat, month: nat, yt: string, s: string)
    requires (yd == 'Y' && |yt| == 4) || (yd == 'y' && |yt| == 2)
    requires AllDigits(yt) && day < 100 && 1 <= month <= 12 && Rendered(s, sep, day, month, yt)
    ensures FirstParse([Field('m'), Lit(sep), Field(yd)], s, 3) == Some((6 + |yt|, [('m', Pad2(month)), (yd, yt)]))
  {
    var n := 6 + |yt|;
    var p5: seq<Piece> := [Field(yd)];
    YearCandidate(yd, yt, s, 6);
    assert [Field(yd)] + [] == p5;
    FirstParseCons(Field(yd), [], s, 6, (n, [(yd, yt)]), (n, []));
    assert [(yd, yt)] + [] == [(yd, yt)];
    var p4 := [Lit(sep)] + p5;
    FirstParseCons(Lit(sep), p5, s, 5, (6, []), (n, [(yd, yt)]));
    assert [] + [(yd, yt)] == [(yd, yt)];
    MonthCandidate(month, s, 3);
    FirstParseCons(Field('m'), p4, s, 3, (5, [('m', Pad2(month))]), (n, [(yd, yt)]));
    assert [('m', Pad2(month))] + [(yd, yt)] == [('m', Pad2(month)), (yd, yt)];
    assert [Field('m')] + p4 == [Field('m'), Lit(sep), Field(yd)];
  }

  /**
   * The first parse of a day, separator, month, separator, year format
   * over a zero-padded rendering of a date, whatever follows it.
   */
  lemma DayMonthYearFirstParse(sep: char, yd: char, day: nat, month: nat, yt: string, s: string)
    requires (yd == 'Y' && |yt| == 4) || (yd == 'y' && |yt| == 2)
    requires AllDigits(yt) && 1 <= day <= 31 && 1 <= month <= 12 && Rendered(s, sep, day, month, yt)
    ensures FirstParse([Field('d'), Lit(sep), Field('m'), Lit(sep), Field(yd)], s, 0)
      == Some((6 + |yt|, [('d', Pad2(day)), ('m', Pad2(month)), (yd, yt)]))
  {
    var n := 6 + |yt|;
    var p3 := [Field('m'), Lit(sep), Field(yd)];
    MonthYearFirstParse(sep, yd, day, month, yt, s);
    var p2 := [Lit(sep)] + p3;
    FirstParseCons(Lit(sep), p3, s, 2, (3, []), (n, [('m', Pad2(month)), (yd, yt)]));
    assert [] + [('m', Pad2(month)), (yd, yt)] == [('m', Pad2(month)), (yd, yt)];
    DayCandidate(day, s, 0);
    FirstParseCons(Field('d'), p2, s, 0, (2, [('d', Pad2(day))]), (n, [('m', Pad2(month)), (yd, yt)]));
    assert [('d', Pad2(day))] + [('m', Pad2(month)), (yd, yt)] == [('d', Pad2(day)), ('m', Pad2(month)), (yd, yt)];
    assert [Field('d')] + p2 == [Field('d'), Lit(sep), Field('m'), Lit(sep), Field(yd)];
  }

  /** What a day, month and year capture list yields for each directive. */
  lemma CapturedOfThree(a: (char, string), b: (char, string), c: (char, string), d: char)
    ensures Captured([a, b, c], d) ==
      if a.0 == d then Some(a.1) else if b.0 == d then Some(b.1) else if c.0 == d then Some(c.1) else None
  {
    assert [c][1..] == [];
    assert Captured([c], d) == if c.0 == d then Some(c.1) else None;
    assert [b, c][1..] == [c];
    assert [a, b, c][1..] == [b, c];
  }

  /**
   * `strptime(d, '%d-%m-%Y')` reads back a date written as `'%02d-%02d-%04d'`,
   * and raises ValueError ("unconverted data remains") when anything follows.
   */
  lemma DayMonthYearRoundTrip(date: Date, rest: string)
    requires Valid(date) && date.year >= 1000
    ensures var text := Pad2(date.day) + "-" + Pad2(date.month) + "-" + Pad4(date.year);
      ParseDate(DayMonthYear, text + rest) == if rest == [] then Ok(date) else Raised(ValueError)
  {
    var yt := Pad4(date.year);
    RenderedText('-', date.day, date.month, yt, rest);
    var s := Pad2(date.day) + "-" + Pad2(date.month) + "-" + yt + rest;
    DayMonthYearFirstParse('-', 'Y', date.day, date.month, yt, s);
    var caps := [('d', Pad2(date.day)), ('m', Pad2(date.month)), ('Y', yt)];
    CapturedOfThree(caps[0], caps[1], caps[2], 'd');
    CapturedOfThree(caps[0], caps[1], caps[2], 'm');
    CapturedOfThree(caps[0], caps[1], caps[2], 'Y');
    CapturedOfThree(caps[0], caps[1], caps[2], 'S');
    assert DateOf(caps) == date;
  }

  /**
   * `strptime(d, '%d.%m.%y')` reads a two-digit year below 69 as 20yy and
   * any other as 19yy.
   */
  lemma ShortYearPivot(day: nat, month: nat, yy: nat)
    requires yy < 100 && Valid(Date(Century(yy), month, day))
    ensures var text := Pad2(day) + "." + Pad2(month) + "." + Pad2(yy);
      ParseDate(DayMonthShortYear, text) == Ok(Date(if yy < 69 then 2000 + yy else 1900 + yy, month, day))
  {
    var yt := Pad2(yy);
    RenderedText('.', day, month, yt, []);
    var s := Pad2(day) + "." + Pad2(month) + "." + yt;
    assert s + [] == s;
    DayMonthYearFirstParse('.', 'y', day, month, yt, s);
    var caps := [('d', Pad2(day)), ('m', Pad2(month)), ('y', yt)];
    CapturedOfThree(caps[0], caps[1], caps[2], 'd');
    CapturedOfThree(caps[0], caps[1], caps[2], 'm');
    CapturedOfThree(caps[0], caps[1], caps[2], 'y');
    CapturedOfThree(caps[0], caps[1], caps[2], 'Y');
    CapturedOfThree(caps[0], caps[1], caps[2], 'S');
  }
}
