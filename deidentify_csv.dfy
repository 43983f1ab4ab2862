/**
 * `psytools/imagen_psytools_deidentify_csv.py`: the CSV-only variant of
 * the legacy pass. It differs from the legacy pass of
 * `imagen_psytools_deidentify.py` in three ways: the birth-date test of
 * the timestamp columns, the NI-data trials, whose result becomes the
 * number of days from the trial's date to the last timestamp converted
 * so far in the file, and the directory walk, which keeps `.csv` files
 * only.
 */
module DeidentifyCsv {

  import opened Wrappers
  import opened Text
  import opened Python
  import opened Dates
  import opened Strptime
  import opened Files
  import opened Rows
  import opened Passes
  import Deidentify

  /** The `timestamp` variable of the row loop: unset, or the last date converted. */
  predicate ValidLast(last: Option<Date>) { last.Some? ==> Valid(last.value) }

  /**
   * The NI-data trials: the Trial result, a DD-MM-YYYY date, becomes the
   * days from that date to `timestamp`; None when it does not parse;
   * UnboundLocalError when no timestamp was ever converted.
   */
  function TrialInterval(row: Row, timestamp: Option<Date>): (r: Outcome<Row>)
    requires ValidLast(timestamp)
  {
    var text :- Get(row, "Trial result");
    match ParseDate(DayMonthYear, text)
    case Raised(_) => Ok(row["Trial result" := ""])
    case Ok(event) =>
      if timestamp.None? then Raised(UnboundLocalError)
      else Ok(row["Trial result" := IntToString(DaysBetween(timestamp.value, event))])
  }

  /**
   * The trials whose result is a date: an age for 'education_end', an
   * interval for the NI-data trials; other rows are kept as they are.
   */
  function TrialResult(trial: string, row: Row, psc2: string, dob: map<string, Date>, timestamp: Option<Date>): (r: Outcome<Row>)
    requires ValidDob(dob) && ValidLast(timestamp)
  {
    if trial == "education_end" then TrialAge(row, if psc2 != "" && psc2 in dob then Some(dob[psc2]) else None)
    else if trial == "ni_period" || trial == "ni_date" then TrialInterval(row, timestamp)
    else Ok(row)
  }

  /** The dated trials' conversion sets their Trial result and changes nothing else. */
  lemma TrialResultKeeps(trial: string, row: Row, psc2: string, dob: map<string, Date>, timestamp: Option<Date>)
    requires ValidDob(dob) && ValidLast(timestamp)
    ensures var r := TrialResult(trial, row, psc2, dob, timestamp);
      && (r.Ok? ==> forall k :: k != "Trial result" ==> (k in r.value <==> k in row) && (k in row ==> r.value[k] == row[k]))
      && (r.Ok? && trial in Deidentify.DateTrials ==> "Trial result" in r.value)
  {
    TrialAgeKeeps(row, if psc2 != "" && psc2 in dob then Some(dob[psc2]) else None);
  }

  /**
   * What the row loop of `_create_psc2_file` does with one row, given the
   * `timestamp` left by earlier rows: None when it drops the row, else
   * the row to write; and the new `timestamp`.
   *
   * `asWritten` selects the test that guards the timestamp columns: as
   * written, whether the subject's PSC1 code is a key of the birth-date
   * table (whose keys are PSC2 codes); otherwise whether its PSC2 code
   * is.
   */
  function CsvRow(psc2FromPsc1: map<string, string>, dob: map<string, Date>, convert: seq<string>, asWritten: bool,
                  row: Row, last: Option<Date>)
    : (r: Outcome<(Option<Row>, Option<Date>)>)
    requires ValidDob(dob) && ValidLast(last)
    ensures r.Ok? ==> ValidLast(r.value.1)
  {
    var trial :- Get(row, "Trial");
    var code :- Get(row, "User code");
    if Deidentify.IsIdCheck(trial) then Ok((None, last))
    else match Recode(psc2FromPsc1, code)
      case None => Ok((None, last))
      case Some((psc2, recoded)) =>
        var converted :- ConvertColumns(row["User code" := recoded], convert, Known(dob, asWritten, code, psc2), psc2, dob, last);
        var dated :- TrialResult(trial, converted.0, psc2, dob, converted.1);
        Ok((Some(dated), converted.1))
  }

  /** Whether the timestamp columns are converted: the test as written, or as corrected. */
  function Known(dob: map<string, Date>, asWritten: bool, code: string, psc2: string): bool
  {
    if asWritten then RSplitOnce(code, '-').0 in dob else psc2 in dob
  }

  /** What the pass makes of each row, in order, up to the first that raises. */
  function CsvResults(psc2FromPsc1: map<string, string>, dob: map<string, Date>, convert: seq<string>, asWritten: bool,
                      rows: seq<Row>, last: Option<Date>)
    : (rs: seq<Outcome<Option<Row>>>)
    requires ValidDob(dob) && ValidLast(last)
    ensures |rs| <= |rows|
    decreases |rows|
  {
    if |rows| == 0 then []
    else match CsvRow(psc2FromPsc1, dob, convert, asWritten, rows[0], last)
      case Raised(e) => [Raised(e)]
      case Ok((kept, next)) => [Ok(kept)] + CsvResults(psc2FromPsc1, dob, convert, asWritten, rows[1..], next)
  }

  /** The lines of the output file and the exception that ended it. */
  function CsvOutput(psc2FromPsc1: map<string, string>, dob: map<string, Date>, asWritten: bool, input: Table)
    : (seq<seq<string>>, Option<Exc>)
    requires ValidDob(dob)
  {
    var convert := Deidentify.LegacyConvert(input.fieldnames);
    Prefixed([input.fieldnames], Written(input.fieldnames, CsvResults(psc2FromPsc1, dob, convert, asWritten, input.rows, None)))
  }

  /** One iteration of the row loop of `_create_psc2_file`, with the timestamp test as written or as corrected. */
  method CsvRowStep(psc2FromPsc1: map<string, string>, dob: map<string, Date>, convert: seq<string>, asWritten: bool,
                    row0: Row, last: Option<Date>)
    returns (r: Outcome<(Option<Row>, Option<Date>)>)
    requires ValidDob(dob) && ValidLast(last)
    ensures r == CsvRow(psc2FromPsc1, dob, convert, asWritten, row0, last)
  {
    if "Trial" !in row0 { return Raised(KeyError); }
    var trial := row0["Trial"];
    if "User code" !in row0 { return Raised(KeyError); }
    if Deidentify.IsIdCheck(trial) { return Ok((None, last)); }
    var (psc1, suffix) := RSplitOnce(row0["User code"], '-');
    if psc1 !in psc2FromPsc1 { return Ok((None, last)); }
    var psc2 := psc2FromPsc1[psc1];
    var row := row0["User code" := if suffix.Some? then psc2 + "-" + suffix.value else psc2];
    var converted := ConvertLoop(row, convert, if asWritten then psc1 in dob else psc2 in dob, psc2, dob, last);
    if converted.Raised? { return Raised(converted.exc); }
    row := converted.value.0;
    var timestamp := converted.value.1;
    var dated := TrialStep(trial, row, psc2, dob, timestamp);
    if dated.Raised? { return Raised(dated.exc); }
    return Ok((Some(dated.value), timestamp));
  }

  /** The `if trial == ...` branches of the row loop, updating the row in place. */
  method TrialStep(trial: string, row0: Row, psc2: string, dob: map<string, Date>, timestamp: Option<Date>)
    returns (r: Outcome<Row>)
    requires ValidDob(dob) && ValidLast(timestamp)
    ensures r == TrialResult(trial, row0, psc2, dob, timestamp)
  {
    var row := row0;
    if trial == "education_end" {
      if psc2 != "" && psc2 in dob {
        if "Trial result" !in row { return Raised(KeyError); }
        var event := ParseDate(DayMonthYear, row["Trial result"]);
        if event.Raised? {
          row := row["Trial result" := ""];
        } else {
          row := row["Trial result" := AgeText(event.value, dob[psc2])];
        }
      } else {
        row := row["Trial result" := ""];
      }
    } else if trial == "ni_period" || trial == "ni_date" {
      if "Trial result" !in row { return Raised(KeyError); }
      var event := ParseDate(DayMonthYear, row["Trial result"]);
      if event.Raised? {
        row := row["Trial result" := ""];
      } else {
        if timestamp.None? { return Raised(UnboundLocalError); }
        row := row["Trial result" := IntToString(DaysBetween(timestamp.value, event.value))];
      }
    }
    return Ok(row);
  }

  /** `_create_psc2_file` on a parsed export, with the timestamp test as written or as corrected. */
  method CsvFile(psc2FromPsc1: map<string, string>, dob: map<string, Date>, asWritten: bool, input: Table)
    returns (lines: seq<seq<string>>, exc: Option<Exc>)
    requires ValidDob(dob)
    ensures (lines, exc) == CsvOutput(psc2FromPsc1, dob, asWritten, input)
    ensures |lines| > 0 && lines[0] == input.fieldnames
  {
    var convert := Deidentify.LegacyConvert(input.fieldnames);
    ghost var total := CsvOutput(psc2FromPsc1, dob, asWritten, input);
    lines := [input.fieldnames];
    var timestamp: Option<Date> := None;
    assert input.rows[0..] == input.rows;
    var i := 0;
    while i < |input.rows|
      invariant 0 <= i <= |input.rows|
      invariant ValidLast(timestamp)
      invariant |lines| > 0 && lines[0] == input.fieldnames
      invariant total == Prefixed(lines, Written(input.fieldnames, CsvResults(psc2FromPsc1, dob, convert, asWritten, input.rows[i..], timestamp)))
    {
      ghost var results := CsvResults(psc2FromPsc1, dob, convert, asWritten, input.rows[i..], timestamp);
      assert input.rows[i..][0] == input.rows[i] && input.rows[i..][1..] == input.rows[i + 1..];
      assert results[0..] == results;
      var r := CsvRowStep(psc2FromPsc1, dob, convert, asWritten, input.rows[i], timestamp);
      lines, exc := WriteNext(input.fieldnames, results, 0, lines, total, if r.Raised? then Raised(r.exc) else Ok(r.value.0));
      if exc.Some? {
        return;
      }
      timestamp := r.value.1;
      assert results[1..] == CsvResults(psc2FromPsc1, dob, convert, asWritten, input.rows[i + 1..], timestamp);
      i := i + 1;
    }
    assert input.rows[i..] == [] && lines + [] == lines;
    return lines, None;
  }

  // ---------------------------------------------------------------------
  // Properties of a row
  // ---------------------------------------------------------------------

  /**
   * A row is dropped exactly when it is an identity check or its User
   * code's PSC1 part is unknown; the timestamp is then left as it was.
   */
  lemma CsvDropped(psc2FromPsc1: map<string, string>, dob: map<string, Date>, convert: seq<string>, asWritten: bool, row: Row, last: Option<Date>)
    requires ValidDob(dob) && ValidLast(last) && "Trial" in row && "User code" in row
    ensures CsvRow(psc2FromPsc1, dob, convert, asWritten, row, last) == Ok((None, last))
      <==> Deidentify.IsIdCheck(row["Trial"]) || RSplitOnce(row["User code"], '-').0 !in psc2FromPsc1
  {
    RecodeKeepsSuffix(psc2FromPsc1, row["User code"]);
  }

  /**
   * A row that is written is no identity check, keeps its Trial, and
   * carries the recoded User code.
   */
  lemma CsvKept(psc2FromPsc1: map<string, string>, dob: map<string, Date>, convert: seq<string>, asWritten: bool,
                row: Row, last: Option<Date>, kept: Row, next: Option<Date>)
    requires ValidDob(dob) && ValidLast(last) && forall f :: f in convert ==> f in Deidentify.AnonymizedColumns
    requires CsvRow(psc2FromPsc1, dob, convert, asWritten, row, last) == Ok((Some(kept), next))
    ensures "Trial" in row && !Deidentify.IsIdCheck(row["Trial"]) && "Trial" in kept && kept["Trial"] == row["Trial"]
    ensures "User code" in row && Recode(psc2FromPsc1, row["User code"]).Some?
    ensures "User code" in kept && kept["User code"] == Recode(psc2FromPsc1, row["User code"]).value.1
  {
    var code := row["User code"];
    var (psc2, recoded) := Recode(psc2FromPsc1, code).value;
    var known := Known(dob, asWritten, code, psc2);
    var start := row["User code" := recoded];
    var converted := ConvertColumns(start, convert, known, psc2, dob, last);
    assert converted.Ok?;
    ConvertColumnsKeeps(start, convert, known, psc2, dob, last);
    var c := ConvertColumns(start, convert, known, psc2, dob, last).value;
    TrialResultKeeps(row["Trial"], c.0, psc2, dob, c.1);
    assert "Trial" !in convert && "User code" !in convert;
    assert "Trial" in converted.value.0 && converted.value.0["Trial"] == row["Trial"];
    assert "User code" in converted.value.0 && converted.value.0["User code"] == recoded;
  }

  /**
   * As corrected, a written row's timestamp columns hold the subject's
   * age in days on each timestamp when its PSC2 has a birth date, None
   * otherwise.
   */
  lemma CsvTimestamps(psc2FromPsc1: map<string, string>, dob: map<string, Date>, convert: seq<string>,
                      row: Row, last: Option<Date>, kept: Row, next: Option<Date>)
    requires ValidDob(dob) && ValidLast(last) && Distinct(convert) && forall f :: f in convert ==> f in Deidentify.AnonymizedColumns
    requires CsvRow(psc2FromPsc1, dob, convert, false, row, last) == Ok((Some(kept), next))
    ensures "User code" in row && Recode(psc2FromPsc1, row["User code"]).Some?
    ensures var psc2 := Recode(psc2FromPsc1, row["User code"]).value.0;
      forall f :: f in convert ==> (f in kept &&
        if psc2 in dob then Readable(row, f) && kept[f] == StampAge(row, f, dob[psc2]) else kept[f] == "")
  {
    var (psc2, recoded) := Recode(psc2FromPsc1, row["User code"]).value;
    var start := row["User code" := recoded];
    assert "User code" !in convert && "Trial result" !in convert;
    ConvertColumnsKeeps(start, convert, psc2 in dob, psc2, dob, last);
    var c := ConvertColumns(start, convert, psc2 in dob, psc2, dob, last).value;
    TrialResultKeeps(row["Trial"], c.0, psc2, dob, c.1);
    if psc2 in dob {
      ConvertColumnsAges(start, convert, psc2, dob, last);
      forall f | f in convert ensures Readable(row, f) && StampAge(start, f, dob[psc2]) == StampAge(row, f, dob[psc2]) {
        assert start[f] == row[f];
      }
    } else {
      ConvertColumnsSkipped(start, convert, psc2, dob, last);
    }
  }

  /**
   * As corrected, the timestamp a row leaves for the rows after it is the
   * date of its last timestamp column when its PSC2 has a birth date,
   * and the one it found otherwise.
   */
  lemma CsvCarriesTimestamp(psc2FromPsc1: map<string, string>, dob: map<string, Date>, convert: seq<string>,
                            row: Row, last: Option<Date>, kept: Row, next: Option<Date>)
    requires ValidDob(dob) && ValidLast(last) && Distinct(convert) && forall f :: f in convert ==> f in Deidentify.AnonymizedColumns
    requires CsvRow(psc2FromPsc1, dob, convert, false, row, last) == Ok((Some(kept), next))
    ensures "User code" in row && Recode(psc2FromPsc1, row["User code"]).Some?
    ensures var psc2 := Recode(psc2FromPsc1, row["User code"]).value.0;
      && (psc2 in dob && |convert| > 0 ==>
            Readable(row, convert[|convert| - 1]) && next == Some(ParseDate(TimestampMicro, row[convert[|convert| - 1]]).value))
      && (psc2 !in dob || |convert| == 0 ==> next == last)
  {
    var (psc2, recoded) := Recode(psc2FromPsc1, row["User code"]).value;
    var start := row["User code" := recoded];
    assert "User code" !in convert;
    if psc2 in dob {
      ConvertColumnsLast(start, convert, psc2, dob, last);
      if |convert| > 0 {
        assert start[convert[|convert| - 1]] == row[convert[|convert| - 1]];
      }
    } else {
      ConvertColumnsSkipped(start, convert, psc2, dob, last);
    }
  }

  /**
   * A written NI-data row's Trial result is the number of days from its
   * DD-MM-YYYY date to the timestamp in force after the row's own
   * conversions, or None when it does not parse.
   */
  lemma CsvInterval(psc2FromPsc1: map<string, string>, dob: map<string, Date>, convert: seq<string>, asWritten: bool,
                    row: Row, last: Option<Date>, kept: Row, next: Option<Date>)
    requires ValidDob(dob) && ValidLast(last) && forall f :: f in convert ==> f in Deidentify.AnonymizedColumns
    requires CsvRow(psc2FromPsc1, dob, convert, asWritten, row, last) == Ok((Some(kept), next))
    requires row["Trial"] in {"ni_period", "ni_date"}
    ensures "Trial result" in row && "Trial result" in kept
    ensures match ParseDate(DayMonthYear, row["Trial result"])
      case Raised(_) => kept["Trial result"] == ""
      case Ok(event) => next.Some? && Valid(next.value) && kept["Trial result"] == IntToString(DaysBetween(next.value, event))
  {
    var code := row["User code"];
    var (psc2, recoded) := Recode(psc2FromPsc1, code).value;
    var known := Known(dob, asWritten, code, psc2);
    var start := row["User code" := recoded];
    ConvertColumnsKeeps(start, convert, known, psc2, dob, last);
    var c := ConvertColumns(start, convert, known, psc2, dob, last).value;
    TrialResultKeeps(row["Trial"], c.0, psc2, dob, c.1);
    assert "Trial result" !in convert && "User code" != "Trial result";
    assert ConvertColumns(start, convert, known, psc2, dob, last).value.0["Trial result"] == row["Trial result"];
  }

  /**
   * An NI-data row whose date parses raises UnboundLocalError when no
   * timestamp was converted before it, in this row or an earlier one.
   */
  lemma CsvIntervalUnbound(psc2FromPsc1: map<string, string>, dob: map<string, Date>, convert: seq<string>, asWritten: bool, row: Row)
    requires ValidDob(dob) && forall f :: f in convert ==> f in Deidentify.AnonymizedColumns
    requires "Trial" in row && row["Trial"] in {"ni_period", "ni_date"} && "User code" in row
    requires Recode(psc2FromPsc1, row["User code"]).Some?
    requires !Known(dob, asWritten, row["User code"], Recode(psc2FromPsc1, row["User code"]).value.0)
    requires "Trial result" in row && ParseDate(DayMonthYear, row["Trial result"]).Ok?
    ensures CsvRow(psc2FromPsc1, dob, convert, asWritten, row, None) == Raised(UnboundLocalError)
  {
    var code := row["User code"];
    var (psc2, recoded) := Recode(psc2FromPsc1, code).value;
    var start := row["User code" := recoded];
    Deidentify.ShortTrialNotIdCheck(row["Trial"]);
    ConvertColumnsSkipped(start, convert, psc2, dob, None);
    ConvertColumnsKeeps(start, convert, false, psc2, dob, None);
    assert "Trial result" !in convert && "Trial" !in convert;
    assert ConvertColumns(start, convert, false, psc2, dob, None).value.0["Trial result"] == row["Trial result"];
  }

  // ---------------------------------------------------------------------
  // The birth-date test of the timestamp columns
  // ---------------------------------------------------------------------

  /**
   * As written, a subject whose PSC2 has a birth date but whose PSC1 is
   * no key of the birth-date table loses its timestamps: each becomes
   * None, where the corrected test gives its age in days on that
   * timestamp.
   */
  lemma AsWrittenBlanksTimestamps(psc2FromPsc1: map<string, string>, dob: map<string, Date>, convert: seq<string>, row: Row, f: string)
    requires ValidDob(dob) && forall g :: g in convert ==> g in Deidentify.AnonymizedColumns
    requires "Trial" in row && !Deidentify.IsIdCheck(row["Trial"]) && row["Trial"] !in Deidentify.DateTrials
    requires "User code" in row
    requires var psc1 := RSplitOnce(row["User code"], '-').0;
      psc1 in psc2FromPsc1 && psc1 !in dob && psc2FromPsc1[psc1] in dob
    requires f in convert
    ensures var asWritten := CsvRow(psc2FromPsc1, dob, convert, true, row, None);
      asWritten.Ok? && asWritten.value.0.Some? && f in asWritten.value.0.value && asWritten.value.0.value[f] == ""
  {
    var code := row["User code"];
    RecodeKeepsSuffix(psc2FromPsc1, code);
    var (psc2, recoded) := Recode(psc2FromPsc1, code).value;
    var start := row["User code" := recoded];
    ConvertColumnsSkipped(start, convert, psc2, dob, None);
  }

  /**
   * As corrected, the same subject's timestamps, when readable, each
   * become its age in days on that timestamp, which is never None.
   */
  lemma CorrectedKeepsTimestamps(psc2FromPsc1: map<string, string>, dob: map<string, Date>, convert: seq<string>, row: Row, f: string)
    requires ValidDob(dob) && Distinct(convert) && forall g :: g in convert ==> g in Deidentify.AnonymizedColumns
    requires "Trial" in row && !Deidentify.IsIdCheck(row["Trial"]) && row["Trial"] !in Deidentify.DateTrials
    requires "User code" in row
    requires var psc1 := RSplitOnce(row["User code"], '-').0;
      psc1 in psc2FromPsc1 && psc2FromPsc1[psc1] in dob
    requires f in convert && forall g :: g in convert ==> Readable(row, g)
    ensures var psc2 := psc2FromPsc1[RSplitOnce(row["User code"], '-').0];
      var corrected := CsvRow(psc2FromPsc1, dob, convert, false, row, None);
      && corrected.Ok? && corrected.value.0.Some? && f in corrected.value.0.value
      && corrected.value.0.value[f] == StampAge(row, f, dob[psc2]) && StampAge(row, f, dob[psc2]) != ""
  {
    var code := row["User code"];
    RecodeKeepsSuffix(psc2FromPsc1, code);
    var (psc2, recoded) := Recode(psc2FromPsc1, code).value;
    var start := row["User code" := recoded];
    assert "User code" !in convert;
    forall g | g in convert ensures Readable(start, g) {
      assert start[g] == row[g];
    }
    ConvertColumnsSucceeds(start, convert, true, psc2, dob, None);
    var c := ConvertColumns(start, convert, true, psc2, dob, None).value;
    assert TrialResult(row["Trial"], c.0, psc2, dob, c.1) == Ok(c.0);
    assert CsvRow(psc2FromPsc1, dob, convert, false, row, None) == Ok((Some(c.0), c.1));
    CsvTimestamps(psc2FromPsc1, dob, convert, row, None, c.0, c.1);
  }

  // ---------------------------------------------------------------------
  // A whole file
  // ---------------------------------------------------------------------

  /** A pass result that, when it keeps a row, keeps one whose Trial item is not an identity check. */
  predicate KeepsTrial(result: Outcome<Option<Row>>)
  {
    result.Ok? && result.value.Some? ==>
      "Trial" in result.value.value && !Deidentify.IsIdCheck(result.value.value["Trial"])
  }

  /** Every row the pass keeps holds a Trial item that is not an identity check. */
  lemma {:induction false} CsvResultsKeepTrial(psc2FromPsc1: map<string, string>, dob: map<string, Date>, convert: seq<string>,
                                               asWritten: bool, rows: seq<Row>, last: Option<Date>)
    requires ValidDob(dob) && ValidLast(last) && forall f :: f in convert ==> f in Deidentify.AnonymizedColumns
    ensures var rs := CsvResults(psc2FromPsc1, dob, convert, asWritten, rows, last);
      forall i :: 0 <= i < |rs| ==> KeepsTrial(rs[i])
    decreases |rows|
  {
    if |rows| > 0 {
      var r := CsvRow(psc2FromPsc1, dob, convert, asWritten, rows[0], last);
      if r.Ok? {
        var rest := CsvResults(psc2FromPsc1, dob, convert, asWritten, rows[1..], r.value.1);
        CsvResultsKeepTrial(psc2FromPsc1, dob, convert, asWritten, rows[1..], r.value.1);
        assert forall i :: (0 <= i < |CsvResults(psc2FromPsc1, dob, convert, asWritten, rows[1..], r.value.1)|
          ==> KeepsTrial(CsvResults(psc2FromPsc1, dob, convert, asWritten, rows[1..], r.value.1)[i]));
        if r.value.0.Some? {
          CsvKept(psc2FromPsc1, dob, convert, asWritten, rows[0], last, r.value.0.value, r.value.1);
        }
        var rs := CsvResults(psc2FromPsc1, dob, convert, asWritten, rows, last);
        assert rs == [Ok(r.value.0)] + rest;
        forall i | 0 < i < |rs| ensures KeepsTrial(rs[i]) {
          assert rs[i] == rest[i - 1];
        }
      }
    }
  }

  /** No line of the output holds an identity-check item in its Trial column. */
  lemma CsvNoIdCheck(psc2FromPsc1: map<string, string>, dob: map<string, Date>, asWritten: bool, input: Table)
    requires ValidDob(dob)
    ensures var lines := CsvOutput(psc2FromPsc1, dob, asWritten, input).0;
      forall k, t :: 1 <= k < |lines| && 0 <= t < |input.fieldnames| && input.fieldnames[t] == "Trial"
        ==> t < |lines[k]| && !Deidentify.IsIdCheck(lines[k][t])
  {
    var convert := Deidentify.LegacyConvert(input.fieldnames);
    var rs := CsvResults(psc2FromPsc1, dob, convert, asWritten, input.rows, None);
    CsvResultsKeepTrial(psc2FromPsc1, dob, convert, asWritten, input.rows, None);
    assert forall i :: (0 <= i < |CsvResults(psc2FromPsc1, dob, convert, asWritten, input.rows, None)|
      ==> KeepsTrial(CsvResults(psc2FromPsc1, dob, convert, asWritten, input.rows, None)[i]));
    forall i | 0 <= i < |rs| && rs[i].Ok? && rs[i].value.Some?
      ensures "Trial" in rs[i].value.value && !Deidentify.IsIdCheck(rs[i].value.value["Trial"])
    {
      assert KeepsTrial(rs[i]);
    }
    WrittenColumn(input.fieldnames, rs, "Trial", s => !Deidentify.IsIdCheck(s));
  }

  // ---------------------------------------------------------------------
  // The directory
  // ---------------------------------------------------------------------

  /**
   * What `create_psc2_files` does with one name of the directory: nothing
   * unless its extension is '.csv'; IOError when it cannot be read;
   * TypeError, before anything is written, when it is empty, since
   * `DictReader.fieldnames` is then None and cannot be iterated;
   * otherwise the output file under the same name in `psc2_dir` and the
   * exception that ended it.
   */
  function CsvRun(psc2FromPsc1: map<string, string>, dob: map<string, Date>, asWritten: bool, masterDir: string, psc2Dir: string,
                  parse: string -> Table, render: seq<seq<string>> -> string, files: map<string, string>, name: string)
    : FileRun
    requires ValidDob(dob)
  {
    var masterPath := PathJoin(masterDir, name);
    if SplitExt(name).1 != ".csv" then (None, None)
    else if masterPath !in files then (None, Some(IOError))
    else if files[masterPath] == "" then (None, Some(TypeError))
    else
      var w := CsvOutput(psc2FromPsc1, dob, asWritten, parse(files[masterPath]));
      (Some((PathJoin(psc2Dir, name), render(w.0))), w.1)
  }

  function CsvStep(psc2FromPsc1: map<string, string>, dob: map<string, Date>, asWritten: bool, masterDir: string, psc2Dir: string,
                   parse: string -> Table, render: seq<seq<string>> -> string)
    : (map<string, string>, string) --> FileRun
    requires ValidDob(dob)
  {
    (files, name) requires ValidDob(dob) => CsvRun(psc2FromPsc1, dob, asWritten, masterDir, psc2Dir, parse, render, files, name)
  }

  /** A file name other than a '.csv' file's writes nothing and raises nothing. */
  lemma CsvOnly(psc2FromPsc1: map<string, string>, dob: map<string, Date>, asWritten: bool, masterDir: string, psc2Dir: string,
                parse: string -> Table, render: seq<seq<string>> -> string, files: map<string, string>, name: string)
    requires ValidDob(dob) && '/' !in name
    requires !EndsWith(name, ".csv") || forall k :: 0 <= k < |name| - 4 ==> name[k] == '.'
    ensures CsvRun(psc2FromPsc1, dob, asWritten, masterDir, psc2Dir, parse, render, files, name) == (None, None)
  {
    SplitExtIs(name, ".csv");
  }

  /** `_create_psc2_file` for one name of the directory. */
  method CsvDirectoryFile(fs: FileSystem, psc2FromPsc1: map<string, string>, dob: map<string, Date>, asWritten: bool, masterDir: string, psc2Dir: string,
                          parse: string -> Table, render: seq<seq<string>> -> string, name: string)
    returns (exc: Option<Exc>)
    requires ValidDob(dob)
    modifies fs
    ensures var run := CsvStep(psc2FromPsc1, dob, asWritten, masterDir, psc2Dir, parse, render)(old(fs.files), name);
      fs.files == ApplyWrites(old(fs.files), WriteOf(run)) && fs.writes == old(fs.writes) + Paths(WriteOf(run)) && exc == run.1
  {
    RunWrites(fs.files, CsvRun(psc2FromPsc1, dob, asWritten, masterDir, psc2Dir, parse, render, fs.files, name));
    exc := None;
    var (_, ext) := SplitExt(name);
    if ext == ".csv" {
      var masterPath := PathJoin(masterDir, name);
      var psc2Path := PathJoin(psc2Dir, name);
      if masterPath !in fs.files {
        exc := Some(IOError);
      } else if fs.files[masterPath] == "" {
        exc := Some(TypeError);
      } else {
        var lines;
        lines, exc := CsvFile(psc2FromPsc1, dob, asWritten, parse(fs.files[masterPath]));
        fs.Write(psc2Path, render(lines));
      }
    }
  }

  /**
   * One turn of the `for basename in os.listdir(master_dir)` loop: when
   * the walk so far made the writes `outs`, the pass over `names[i]`
   * either ends the walk or leaves the rest of it to start at `i + 1`.
   */
  method CsvNext(fs: FileSystem, psc2FromPsc1: map<string, string>, dob: map<string, Date>, asWritten: bool, masterDir: string, psc2Dir: string,
                    parse: string -> Table, render: seq<seq<string>> -> string, names: seq<string>, i: nat,
                    ghost files0: map<string, string>, ghost writes0: seq<string>, ghost outs: seq<(string, string)>)
    returns (exc: Option<Exc>, ghost outs': seq<(string, string)>)
    requires ValidDob(dob) && i < |names|
    requires fs.files == ApplyWrites(files0, outs) && fs.writes == writes0 + Paths(outs)
    requires Walk(files0, names, CsvStep(psc2FromPsc1, dob, asWritten, masterDir, psc2Dir, parse, render)) == Continued(outs, Walk(fs.files, names[i..], CsvStep(psc2FromPsc1, dob, asWritten, masterDir, psc2Dir, parse, render)))
    modifies fs
    ensures fs.files == ApplyWrites(files0, outs') && fs.writes == writes0 + Paths(outs')
    ensures exc.Some? ==> Walk(files0, names, CsvStep(psc2FromPsc1, dob, asWritten, masterDir, psc2Dir, parse, render)) == (outs', exc)
    ensures exc.None? ==> Walk(files0, names, CsvStep(psc2FromPsc1, dob, asWritten, masterDir, psc2Dir, parse, render)) == Continued(outs', Walk(fs.files, names[i + 1..], CsvStep(psc2FromPsc1, dob, asWritten, masterDir, psc2Dir, parse, render)))
  {
    var step := CsvStep(psc2FromPsc1, dob, asWritten, masterDir, psc2Dir, parse, render);
    ghost var run := step(fs.files, names[i]);
    WalkAdvance(files0, outs, fs.files, names, i, step);
    exc := CsvDirectoryFile(fs, psc2FromPsc1, dob, asWritten, masterDir, psc2Dir, parse, render, names[i]);
    outs' := outs + WriteOf(run);
  }

  /** `create_psc2_files(psc2_from_psc1, master_dir, psc2_dir)` over the names `os.listdir(master_dir)` lists. */
  method CreatePsc2Files(fs: FileSystem, psc2FromPsc1: map<string, string>, dob: map<string, Date>, asWritten: bool, masterDir: string, psc2Dir: string,
                         parse: string -> Table, render: seq<seq<string>> -> string, names: seq<string>)
    returns (exc: Option<Exc>)
    requires ValidDob(dob)
    modifies fs
    ensures var w := Walk(old(fs.files), names, CsvStep(psc2FromPsc1, dob, asWritten, masterDir, psc2Dir, parse, render));
      fs.files == ApplyWrites(old(fs.files), w.0) && fs.writes == old(fs.writes) + Paths(w.0) && exc == w.1
  {
    var step := CsvStep(psc2FromPsc1, dob, asWritten, masterDir, psc2Dir, parse, render);
    ghost var outs: seq<(string, string)> := [];
    WalkStart(fs.files, names, step);
    exc := None;
    var i := 0;
    while i < |names|
      invariant 0 <= i <= |names| && exc == None
      invariant fs.files == ApplyWrites(old(fs.files), outs) && fs.writes == old(fs.writes) + Paths(outs)
      invariant Walk(old(fs.files), names, step) == Continued(outs, Walk(fs.files, names[i..], step))
    {
      exc, outs := CsvNext(fs, psc2FromPsc1, dob, asWritten, masterDir, psc2Dir, parse, render, names, i, old(fs.files), old(fs.writes), outs);
      if exc.Some? {
        break;
      }
      i := i + 1;
    }
    if exc.None? {
      WalkDone(old(fs.files), outs, fs.files, names, step);
    }
  }
}
