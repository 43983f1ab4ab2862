/**
 * `psytools/imagen_psytools_deidentify.py`: the pass that turns
 * PSC1-encoded Psytools CSV exports into PSC2-encoded, pseudonymised
 * ones. Legacy exports (long format, one row per trial) lose their
 * identity cross-check rows, get their User code recoded and their
 * timestamps and dated trial results replaced by ages in days. LSRC2
 * exports (wide format, one row per subject) lose their identifying
 * columns and test subjects, get their `id` recoded and their dates
 * replaced by ages in days.
 */
module Deidentify {

  import opened Wrappers
  import opened Text
  import opened Python
  import opened Dates
  import opened Strptime
  import opened Files
  import opened Rows
  import opened Passes

  // ---------------------------------------------------------------------
  // Legacy exports
  // ---------------------------------------------------------------------

  /** The columns of a legacy export that hold a '%Y-%m-%d %H:%M:%S.%f' timestamp. */
  const AnonymizedColumns: set<string> := {"Completed Timestamp", "Processed Timestamp"}

  /** The trials whose result is a DD-MM-YYYY date (FU2 ESPAD child, FU2 NI data). */
  const DateTrials: set<string> := {"education_end", "ni_period", "ni_date"}

  /** `'id_check_' in trial`: the items that cross-check the subject's identity. */
  predicate IsIdCheck(trial: string) { Contains(trial, "id_check_") }

  /**
   * What `_deidentify_legacy` does with one row: None when it drops the
   * row (an identity check, or a User code whose PSC1 is unknown, test
   * subjects included), else the row to write; KeyError for a missing
   * `Trial` or `User code` (the logging call of an identity-check row
   * reads the User code too).
   */
  function LegacyRow(psc2FromPsc1: map<string, string>, dob: map<string, Date>, convert: seq<string>, row: Row)
    : Outcome<Option<Row>>
    requires ValidDob(dob)
  {
    var trial :- Get(row, "Trial");
    var code :- Get(row, "User code");
    if IsIdCheck(trial) then Ok(None)
    else match Recode(psc2FromPsc1, code)
      case None => Ok(None)
      case Some((psc2, recoded)) =>
        var converted :- ConvertColumns(row["User code" := recoded], convert, psc2 in dob, psc2, dob, None);
        if trial in DateTrials then
          var dated :- TrialAge(converted.0, if psc2 != "" && psc2 in dob then Some(dob[psc2]) else None);
          Ok(Some(dated))
        else Ok(Some(converted.0))
  }

  /** A trial name no longer than 'id_check_', and other than it, is no identity check. */
  lemma ShortTrialNotIdCheck(trial: string)
    requires |trial| <= 9 && trial != "id_check_"
    ensures !IsIdCheck(trial)
  {
  }

  /** The timestamp columns of a header, in header order. */
  function LegacyConvert(fieldnames: seq<string>): seq<string>
  {
    Among(fieldnames, AnonymizedColumns)
  }

  function LegacyResults(psc2FromPsc1: map<string, string>, dob: map<string, Date>, input: Table): seq<Outcome<Option<Row>>>
    requires ValidDob(dob)
  {
    var convert := LegacyConvert(input.fieldnames);
    seq(|input.rows|, i requires 0 <= i < |input.rows| => LegacyRow(psc2FromPsc1, dob, convert, input.rows[i]))
  }

  /** The lines of the legacy output file (the header first, then the rows kept), and the exception that ended it. */
  function LegacyOutput(psc2FromPsc1: map<string, string>, dob: map<string, Date>, input: Table): (seq<seq<string>>, Option<Exc>)
    requires ValidDob(dob)
  {
    Prefixed([input.fieldnames], Written(input.fieldnames, LegacyResults(psc2FromPsc1, dob, input)))
  }

  /** One iteration of the row loop of `_deidentify_legacy`, updating the row in place. */
  method LegacyRowStep(psc2FromPsc1: map<string, string>, dob: map<string, Date>, convert: seq<string>, row0: Row)
    returns (r: Outcome<Option<Row>>)
    requires ValidDob(dob)
    ensures r == LegacyRow(psc2FromPsc1, dob, convert, row0)
  {
    if "Trial" !in row0 { return Raised(KeyError); }
    var trial := row0["Trial"];
    if "User code" !in row0 { return Raised(KeyError); }
    if IsIdCheck(trial) { return Ok(None); }
    var (psc1, suffix) := RSplitOnce(row0["User code"], '-');
    if psc1 !in psc2FromPsc1 { return Ok(None); }
    var psc2 := psc2FromPsc1[psc1];
    var row := row0["User code" := if suffix.Some? then psc2 + "-" + suffix.value else psc2];
    var converted := ConvertLoop(row, convert, psc2 in dob, psc2, dob, None);
    if converted.Raised? { return Raised(converted.exc); }
    row := converted.value.0;
    if trial in DateTrials {
      if psc2 != "" && psc2 in dob {
        if "Trial result" !in row { return Raised(KeyError); }
        // ParseDate raises nothing but ValueError, which is caught.
        var event := ParseDate(DayMonthYear, row["Trial result"]);
        if event.Raised? {
          row := row["Trial result" := ""];
        } else {
          row := row["Trial result" := AgeText(event.value, dob[psc2])];
        }
      } else {
        row := row["Trial result" := ""];
      }
    }
    return Ok(Some(row));
  }

  /**
   * `_deidentify_legacy` on a parsed export: the header is the input's
   * field names, then the rows kept, until the first exception.
   */
  method LegacyFile(psc2FromPsc1: map<string, string>, dob: map<string, Date>, input: Table)
    returns (lines: seq<seq<string>>, exc: Option<Exc>)
    requires ValidDob(dob)
    ensures (lines, exc) == LegacyOutput(psc2FromPsc1, dob, input)
    ensures |lines| > 0 && lines[0] == input.fieldnames
  {
    var convert := LegacyConvert(input.fieldnames);
    ghost var results := LegacyResults(psc2FromPsc1, dob, input);
    ghost var total := LegacyOutput(psc2FromPsc1, dob, input);
    lines := [input.fieldnames];
    var i := 0;
    while i < |input.rows|
      invariant 0 <= i <= |input.rows| == |results|
      invariant |lines| > 0 && lines[0] == input.fieldnames
      invariant total == Prefixed(lines, Written(input.fieldnames, results[i..]))
    {
      var r := LegacyRowStep(psc2FromPsc1, dob, convert, input.rows[i]);
      lines, exc := WriteNext(input.fieldnames, results, i, lines, total, r);
      if exc.Some? {
        return;
      }
      i := i + 1;
    }
    WrittenDone(input.fieldnames, results, lines, total);
    return lines, None;
  }

  /**
   * A legacy row is dropped exactly when it is an identity check or its
   * User code's PSC1 part is unknown, test subjects included.
   */
  lemma LegacyDropped(psc2FromPsc1: map<string, string>, dob: map<string, Date>, convert: seq<string>, row: Row)
    requires ValidDob(dob) && "Trial" in row && "User code" in row
    ensures LegacyRow(psc2FromPsc1, dob, convert, row) == Ok(None)
      <==> IsIdCheck(row["Trial"]) || RSplitOnce(row["User code"], '-').0 !in psc2FromPsc1
  {
    RecodeKeepsSuffix(psc2FromPsc1, row["User code"]);
  }

  /**
   * A legacy row that is written is no identity check, keeps its Trial,
   * and carries the recoded User code: the PSC2 of its PSC1, then what
   * followed the PSC1.
   */
  lemma LegacyKept(psc2FromPsc1: map<string, string>, dob: map<string, Date>, convert: seq<string>, row: Row, kept: Row)
    requires ValidDob(dob) && forall f :: f in convert ==> f in AnonymizedColumns
    requires LegacyRow(psc2FromPsc1, dob, convert, row) == Ok(Some(kept))
    ensures "Trial" in row && !IsIdCheck(row["Trial"]) && "Trial" in kept && kept["Trial"] == row["Trial"]
    ensures "User code" in row && Recode(psc2FromPsc1, row["User code"]).Some?
    ensures "User code" in kept && kept["User code"] == Recode(psc2FromPsc1, row["User code"]).value.1
  {
    var (psc2, recoded) := Recode(psc2FromPsc1, row["User code"]).value;
    var start := row["User code" := recoded];
    var converted := ConvertColumns(start, convert, psc2 in dob, psc2, dob, None);
    assert converted.Ok?;
    ConvertColumnsKeeps(start, convert, psc2 in dob, psc2, dob, None);
    TrialAgeKeeps(ConvertColumns(start, convert, psc2 in dob, psc2, dob, None).value.0, if psc2 != "" && psc2 in dob then Some(dob[psc2]) else None);
    assert "Trial" !in convert && "User code" !in convert;
    assert "Trial" in converted.value.0 && converted.value.0["Trial"] == row["Trial"];
    assert "User code" in converted.value.0 && converted.value.0["User code"] == recoded;
  }

  /**
   * In a legacy row that is written, each timestamp column holds the
   * subject's age in days on that date when the PSC2 has a birth date,
   * None otherwise.
   */
  lemma LegacyTimestamps(psc2FromPsc1: map<string, string>, dob: map<string, Date>, convert: seq<string>, row: Row, kept: Row)
    requires ValidDob(dob) && Distinct(convert) && forall f :: f in convert ==> f in AnonymizedColumns
    requires LegacyRow(psc2FromPsc1, dob, convert, row) == Ok(Some(kept))
    ensures "User code" in row && Recode(psc2FromPsc1, row["User code"]).Some?
    ensures var psc2 := Recode(psc2FromPsc1, row["User code"]).value.0;
      forall f :: f in convert ==> (f in kept &&
        if psc2 in dob then Readable(row, f) && kept[f] == StampAge(row, f, dob[psc2]) else kept[f] == "")
  {
    var (psc2, recoded) := Recode(psc2FromPsc1, row["User code"]).value;
    var start := row["User code" := recoded];
    var converted := ConvertColumns(start, convert, psc2 in dob, psc2, dob, None);
    assert "User code" !in convert && "Trial result" !in convert;
    ConvertColumnsKeeps(start, convert, psc2 in dob, psc2, dob, None);
    TrialAgeKeeps(ConvertColumns(start, convert, psc2 in dob, psc2, dob, None).value.0, if psc2 != "" && psc2 in dob then Some(dob[psc2]) else None);
    if psc2 in dob {
      ConvertColumnsAges(start, convert, psc2, dob, None);
      forall f | f in convert ensures Readable(row, f) && StampAge(start, f, dob[psc2]) == StampAge(row, f, dob[psc2]) {
        assert start[f] == row[f];
      }
    } else {
      ConvertColumnsSkipped(start, convert, psc2, dob, None);
    }
  }

  /**
   * In a written legacy row of a dated trial, the Trial result is the age
   * on its DD-MM-YYYY date when the PSC2 is non-empty and has a birth
   * date and the date parses; None otherwise.
   */
  lemma LegacyTrialResult(psc2FromPsc1: map<string, string>, dob: map<string, Date>, convert: seq<string>, row: Row, kept: Row)
    requires ValidDob(dob) && forall f :: f in convert ==> f in AnonymizedColumns
    requires LegacyRow(psc2FromPsc1, dob, convert, row) == Ok(Some(kept))
    requires row["Trial"] in DateTrials
    ensures "User code" in row && Recode(psc2FromPsc1, row["User code"]).Some? && "Trial result" in kept
    ensures var psc2 := Recode(psc2FromPsc1, row["User code"]).value.0;
      if psc2 != "" && psc2 in dob && "Trial result" in row && ParseDate(DayMonthYear, row["Trial result"]).Ok?
      then kept["Trial result"] == AgeText(ParseDate(DayMonthYear, row["Trial result"]).value, dob[psc2])
      else kept["Trial result"] == ""
  {
    var (psc2, recoded) := Recode(psc2FromPsc1, row["User code"]).value;
    var start := row["User code" := recoded];
    ConvertColumnsKeeps(start, convert, psc2 in dob, psc2, dob, None);
    TrialAgeKeeps(ConvertColumns(start, convert, psc2 in dob, psc2, dob, None).value.0, if psc2 != "" && psc2 in dob then Some(dob[psc2]) else None);
    assert "Trial result" !in convert;
  }

  /** No line of a legacy output holds an identity-check item in its Trial column. */
  lemma LegacyNoIdCheck(psc2FromPsc1: map<string, string>, dob: map<string, Date>, input: Table)
    requires ValidDob(dob)
    ensures var lines := LegacyOutput(psc2FromPsc1, dob, input).0;
      forall k, t :: 1 <= k < |lines| && 0 <= t < |input.fieldnames| && input.fieldnames[t] == "Trial"
        ==> t < |lines[k]| && !IsIdCheck(lines[k][t])
  {
    var results := LegacyResults(psc2FromPsc1, dob, input);
    var convert := LegacyConvert(input.fieldnames);
    forall i | 0 <= i < |results| && results[i].Ok? && results[i].value.Some?
      ensures "Trial" in results[i].value.value && !IsIdCheck(results[i].value.value["Trial"])
    {
      LegacyKept(psc2FromPsc1, dob, convert, input.rows[i], results[i].value.value);
    }
    WrittenColumn(input.fieldnames, results, "Trial", s => !IsIdCheck(s));
  }

  // ---------------------------------------------------------------------
  // LSRC2 exports
  // ---------------------------------------------------------------------

  /** The identifying columns removed from LSRC2 exports. */
  const RemovedColumns: seq<string> := ["token", "ipaddr", "IdCheckGender", "IdCheckDob"]

  /** The LSRC2 columns that hold a '%Y-%m-%d %H:%M:%S' date and time. */
  const DateColumns: seq<string> := ["startdate", "datestamp", "submitdate"]

  /**
   * `_psc2`: None for a test subject ('TEST' in any case); otherwise a
   * trailing 'FU2' or 'FU3', or failing that a trailing 'SB', is dropped
   * and the rest looked up.
   */
  function Psc2(psc2FromPsc1: map<string, string>, psc1: string): Option<string>
  {
    if Contains(Upper(psc1), "TEST") then None
    else
      var code := if EndsWith(psc1, "FU2") || EndsWith(psc1, "FU3") then psc1[..|psc1| - 3]
                  else if EndsWith(psc1, "SB") then psc1[..|psc1| - 2]
                  else psc1;
      if code in psc2FromPsc1 then Some(psc2FromPsc1[code]) else None
  }

  /** A test subject has no PSC2. */
  lemma Psc2OfTest(psc2FromPsc1: map<string, string>, psc1: string)
    requires Contains(Upper(psc1), "TEST")
    ensures Psc2(psc2FromPsc1, psc1) == None
  {
  }

  /**
   * A known PSC1 code followed by a follow-up or 'SB' marker, or by no
   * marker when it does not itself end like one, maps to its PSC2.
   */
  lemma Psc2OfMarked(psc2FromPsc1: map<string, string>, psc1: string, marker: string)
    requires psc1 in psc2FromPsc1 && marker in ["", "FU2", "FU3", "SB"]
    requires marker == "" ==> !EndsWith(psc1, "FU2") && !EndsWith(psc1, "FU3") && !EndsWith(psc1, "SB")
    requires !Contains(Upper(psc1 + marker), "TEST")
    ensures Psc2(psc2FromPsc1, psc1 + marker) == Some(psc2FromPsc1[psc1])
  {
    var s := psc1 + marker;
    assert s[..|psc1|] == psc1;
    if marker == "SB" {
      if |s| >= 3 {
        assert s[|s| - 3..][2] == 'B';
      }
      assert !EndsWith(s, "FU2") && !EndsWith(s, "FU3");
      assert EndsWith(s, "SB") && s[..|s| - 2] == psc1;
    } else if marker == "FU2" {
      assert EndsWith(s, "FU2") && s[..|s| - 3] == psc1;
    } else if marker == "FU3" {
      assert EndsWith(s, "FU3") && s[..|s| - 3] == psc1;
    } else {
      assert s == psc1;
    }
  }

  /** A row without the removed columns. */
  function Dropped(row: Row, cols: seq<string>): Row
  {
    map k | k in row && k !in cols :: row[k]
  }

  /** A row without the identifying columns, its `id` the PSC2. */
  function Unidentified(row: Row, psc2: string): (r: Row)
    ensures "id" in r && r["id"] == psc2
    ensures forall c :: c in RemovedColumns ==> c !in r
    ensures forall k :: k != "id" && k !in RemovedColumns ==> (k in r <==> k in row) && (k in row ==> r[k] == row[k])
  {
    Dropped(row, RemovedColumns)["id" := psc2]
  }

  /**
   * One pass of `for x in COLUMNS_WITH_DATE`: a column present and
   * non-empty is read as '%Y-%m-%d %H:%M:%S' (ValueError) and replaced by
   * the age in days of the subject born `dob[psc2]` (KeyError without a
   * birth date).
   */
  function DateAge(row: Row, x: string, psc2: string, dob: map<string, Date>): Outcome<Row>
    requires ValidDob(dob)
  {
    if x in row && row[x] != "" then
      var date :- ParseDate(Timestamp, row[x]);
      if psc2 !in dob then Raised(KeyError)
      else Ok(row[x := AgeText(date, dob[psc2])])
    else Ok(row)
  }

  function DateAges(row: Row, cols: seq<string>, psc2: string, dob: map<string, Date>): Outcome<Row>
    requires ValidDob(dob)
    decreases |cols|
  {
    if |cols| == 0 then Ok(row)
    else
      var next :- DateAge(row, cols[0], psc2, dob);
      DateAges(next, cols[1..], psc2, dob)
  }

  /**
   * What `_deidentify_lsrc2` does with one row: None when it drops the
   * row (no PSC2, or an empty one); else the row without the identifying
   * columns, its `id` the PSC2, its dates ages. KeyError without an `id`.
   */
  function Lsrc2Row(psc2FromPsc1: map<string, string>, dob: map<string, Date>, row: Row): Outcome<Option<Row>>
    requires ValidDob(dob)
  {
    var id :- Get(row, "id");
    match Psc2(psc2FromPsc1, id)
    case None => Ok(None)
    case Some(psc2) =>
      if psc2 == "" then Ok(None)
      else
        var dated :- DateAges(Unidentified(row, psc2), DateColumns, psc2, dob);
        Ok(Some(dated))
  }

  /** The header of an LSRC2 output: the input's field names but the removed ones, in order. */
  function Lsrc2Header(fieldnames: seq<string>): (h: seq<string>)
    ensures forall f :: f in h <==> f in fieldnames && f !in RemovedColumns
  {
    Without(fieldnames, set c | c in RemovedColumns)
  }

  function Lsrc2Results(psc2FromPsc1: map<string, string>, dob: map<string, Date>, input: Table): seq<Outcome<Option<Row>>>
    requires ValidDob(dob)
  {
    seq(|input.rows|, i requires 0 <= i < |input.rows| => Lsrc2Row(psc2FromPsc1, dob, input.rows[i]))
  }

  function Lsrc2Output(psc2FromPsc1: map<string, string>, dob: map<string, Date>, input: Table): (seq<seq<string>>, Option<Exc>)
    requires ValidDob(dob)
  {
    var header := Lsrc2Header(input.fieldnames);
    Prefixed([header], Written(header, Lsrc2Results(psc2FromPsc1, dob, input)))
  }

  /** One iteration of the row loop of `_deidentify_lsrc2`, updating the row in place. */
  method Lsrc2RowStep(psc2FromPsc1: map<string, string>, dob: map<string, Date>, row0: Row) returns (r: Outcome<Option<Row>>)
    requires ValidDob(dob)
    ensures r == Lsrc2Row(psc2FromPsc1, dob, row0)
  {
    if "id" !in row0 { return Raised(KeyError); }
    var psc2 := Psc2(psc2FromPsc1, row0["id"]);
    if psc2.None? || psc2.value == "" { return Ok(None); }
    var row := row0;
    for j := 0 to |RemovedColumns|
      invariant row == Dropped(row0, RemovedColumns[..j])
    {
      var x := RemovedColumns[j];
      assert RemovedColumns[..j + 1] == RemovedColumns[..j] + [x];
      if x in row {
        row := row - {x};
      }
    }
    assert RemovedColumns[..|RemovedColumns|] == RemovedColumns;
    row := row["id" := psc2.value];
    ghost var start := row;
    for j := 0 to |DateColumns|
      invariant DateAges(start, DateColumns, psc2.value, dob) == DateAges(row, DateColumns[j..], psc2.value, dob)
    {
      var x := DateColumns[j];
      assert DateColumns[j..][0] == x && DateColumns[j..][1..] == DateColumns[j + 1..];
      if x in row && row[x] != "" {
        var date := ParseDate(Timestamp, row[x]);
        if date.Raised? { return Raised(date.exc); }
        if psc2.value !in dob { return Raised(KeyError); }
        row := row[x := AgeText(date.value, dob[psc2.value])];
      }
    }
    return Ok(Some(row));
  }

  /**
   * `_deidentify_lsrc2` on a parsed export: the header without the
   * removed columns, then the rows kept, until the first exception.
   */
  method Lsrc2File(psc2FromPsc1: map<string, string>, dob: map<string, Date>, input: Table)
    returns (lines: seq<seq<string>>, exc: Option<Exc>)
    requires ValidDob(dob)
    ensures (lines, exc) == Lsrc2Output(psc2FromPsc1, dob, input)
    ensures |lines| > 0 && forall c :: c in lines[0] ==> c in input.fieldnames && c !in RemovedColumns
  {
    var header := Lsrc2Header(input.fieldnames);
    ghost var results := Lsrc2Results(psc2FromPsc1, dob, input);
    ghost var total := Lsrc2Output(psc2FromPsc1, dob, input);
    lines := [header];
    var i := 0;
    while i < |input.rows|
      invariant 0 <= i <= |input.rows| == |results|
      invariant |lines| > 0 && lines[0] == header
      invariant total == Prefixed(lines, Written(header, results[i..]))
    {
      var r := Lsrc2RowStep(psc2FromPsc1, dob, input.rows[i]);
      lines, exc := WriteNext(header, results, i, lines, total, r);
      if exc.Some? {
        return;
      }
      i := i + 1;
    }
    WrittenDone(header, results, lines, total);
    return lines, None;
  }

  /** An LSRC2 row is dropped exactly when its `id` has no PSC2, or an empty one. */
  lemma Lsrc2Dropped(psc2FromPsc1: map<string, string>, dob: map<string, Date>, row: Row)
    requires ValidDob(dob) && "id" in row
    ensures Lsrc2Row(psc2FromPsc1, dob, row) == Ok(None)
      <==> Psc2(psc2FromPsc1, row["id"]).None? || Psc2(psc2FromPsc1, row["id"]) == Some("")
  {
  }

  /** The date columns' pass changes nothing but the date columns, and keeps them present. */
  lemma {:induction false} DateAgesKeeps(row: Row, cols: seq<string>, psc2: string, dob: map<string, Date>)
    requires ValidDob(dob) && DateAges(row, cols, psc2, dob).Ok?
    ensures var r := DateAges(row, cols, psc2, dob).value;
      forall k :: (k in r <==> k in row) && (k in row && k !in cols ==> r[k] == row[k])
    decreases |cols|
  {
    if |cols| > 0 {
      var next := DateAge(row, cols[0], psc2, dob).value;
      DateAgesKeeps(next, cols[1..], psc2, dob);
      assert forall k :: k in cols[1..] ==> k in cols;
    }
  }

  /**
   * After the date columns' pass over distinct columns, each column that
   * held a non-empty date holds the age on that date of a subject with a
   * birth date; the others are unchanged.
   */
  lemma {:induction false} DateAgesValues(row: Row, cols: seq<string>, psc2: string, dob: map<string, Date>)
    requires ValidDob(dob) && Distinct(cols) && DateAges(row, cols, psc2, dob).Ok?
    ensures var r := DateAges(row, cols, psc2, dob).value;
      forall x :: x in cols && x in row ==> (x in r &&
        if row[x] == "" then r[x] == ""
        else psc2 in dob && ParseDate(Timestamp, row[x]).Ok? && r[x] == AgeText(ParseDate(Timestamp, row[x]).value, dob[psc2]))
    decreases |cols|
  {
    if |cols| > 0 {
      var x := cols[0];
      var rest := cols[1..];
      assert forall g :: g in rest ==> g in cols && g != x;
      var next := DateAge(row, x, psc2, dob).value;
      DateAgesValues(next, rest, psc2, dob);
      DateAgesKeeps(next, rest, psc2, dob);
      assert forall g :: g in rest && g in row ==> g in next && next[g] == row[g];
    }
  }

  /**
   * The date columns' pass fails for a subject without a birth date as
   * soon as one date column is present and non-empty.
   */
  lemma {:induction false} DateAgesMissingDob(row: Row, cols: seq<string>, psc2: string, dob: map<string, Date>)
    requires ValidDob(dob) && psc2 !in dob
    requires exists x :: x in cols && x in row && row[x] != ""
    ensures DateAges(row, cols, psc2, dob).Raised?
    decreases |cols|
  {
    var x := cols[0];
    if !(x in row && row[x] != "") {
      var x' :| x' in cols && x' in row && row[x'] != "";
      assert x' in cols[1..];
      DateAgesMissingDob(row, cols[1..], psc2, dob);
    }
  }

  /**
   * A written LSRC2 row has none of the removed columns; its `id` is the
   * non-empty PSC2 of the input's `id`; each date column that held a
   * non-empty date holds the age on that date, empty ones stay empty;
   * and every other field is kept.
   */
  lemma Lsrc2Kept(psc2FromPsc1: map<string, string>, dob: map<string, Date>, row: Row, kept: Row)
    requires ValidDob(dob) && Lsrc2Row(psc2FromPsc1, dob, row) == Ok(Some(kept))
    ensures "id" in row && "id" in kept && kept["id"] != "" && Psc2(psc2FromPsc1, row["id"]) == Some(kept["id"])
    ensures forall c :: c in RemovedColumns ==> c !in kept
    ensures forall k :: k != "id" && k !in RemovedColumns && k !in DateColumns ==> (k in kept <==> k in row) && (k in row ==> kept[k] == row[k])
  {
    var psc2 := Psc2(psc2FromPsc1, row["id"]).value;
    DateAgesKeeps(Unidentified(row, psc2), DateColumns, psc2, dob);
  }

  /**
   * In a written LSRC2 row, each date column that held a non-empty date
   * holds the age on that date of a subject with a birth date; empty ones
   * stay empty.
   */
  lemma Lsrc2KeptDates(psc2FromPsc1: map<string, string>, dob: map<string, Date>, row: Row, kept: Row)
    requires ValidDob(dob) && Lsrc2Row(psc2FromPsc1, dob, row) == Ok(Some(kept))
    ensures "id" in row && Psc2(psc2FromPsc1, row["id"]).Some?
    ensures var psc2 := Psc2(psc2FromPsc1, row["id"]).value;
      forall x :: x in DateColumns && x in row ==> (x in kept &&
        if row[x] == "" then kept[x] == ""
        else psc2 in dob && ParseDate(Timestamp, row[x]).Ok? && kept[x] == AgeText(ParseDate(Timestamp, row[x]).value, dob[psc2]))
  {
    UnidentifiedDates(row, Psc2(psc2FromPsc1, row["id"]).value, dob);
  }

  lemma UnidentifiedDates(row: Row, psc2: string, dob: map<string, Date>)
    requires ValidDob(dob) && DateAges(Unidentified(row, psc2), DateColumns, psc2, dob).Ok?
    ensures var r := DateAges(Unidentified(row, psc2), DateColumns, psc2, dob).value;
      forall x :: x in DateColumns && x in row ==> (x in r &&
        if row[x] == "" then r[x] == ""
        else psc2 in dob && ParseDate(Timestamp, row[x]).Ok? && r[x] == AgeText(ParseDate(Timestamp, row[x]).value, dob[psc2]))
  {
    var start := Unidentified(row, psc2);
    DateAgesValues(start, DateColumns, psc2, dob);
    forall x | x in DateColumns && x in row ensures x in start && start[x] == row[x] {
      assert x !in RemovedColumns && x != "id";
    }
  }

  /** An LSRC2 row of a subject without a birth date, with a non-empty date, raises. */
  lemma Lsrc2MissingDob(psc2FromPsc1: map<string, string>, dob: map<string, Date>, row: Row)
    requires ValidDob(dob) && "id" in row
    requires Psc2(psc2FromPsc1, row["id"]).Some? && Psc2(psc2FromPsc1, row["id"]).value != ""
    requires Psc2(psc2FromPsc1, row["id"]).value !in dob
    requires exists x :: x in DateColumns && x in row && row[x] != ""
    ensures Lsrc2Row(psc2FromPsc1, dob, row).Raised?
  {
    UnidentifiedMissingDob(row, Psc2(psc2FromPsc1, row["id"]).value, dob);
  }

  lemma UnidentifiedMissingDob(row: Row, psc2: string, dob: map<string, Date>)
    requires ValidDob(dob) && psc2 !in dob
    requires exists x :: x in DateColumns && x in row && row[x] != ""
    ensures DateAges(Unidentified(row, psc2), DateColumns, psc2, dob).Raised?
  {
    var start := Unidentified(row, psc2);
    var x :| x in DateColumns && x in row && row[x] != "";
    assert x !in RemovedColumns && x != "id";
    DateAgesMissingDob(start, DateColumns, psc2, dob);
  }

  /**
   * When every row of an LSRC2 export holds only fields of its header,
   * `writerow` never raises: every kept row is written, and only the
   * pass's own exceptions end the file early.
   */
  lemma Lsrc2WritesEveryKeptRow(psc2FromPsc1: map<string, string>, dob: map<string, Date>, input: Table)
    requires ValidDob(dob)
    requires forall i, k :: 0 <= i < |input.rows| && k in input.rows[i] ==> k in input.fieldnames
    ensures var results := Lsrc2Results(psc2FromPsc1, dob, input);
      Lsrc2Output(psc2FromPsc1, dob, input).1.Some? <==> exists i :: 0 <= i < |results| && results[i].Raised?
  {
    var results := Lsrc2Results(psc2FromPsc1, dob, input);
    var header := Lsrc2Header(input.fieldnames);
    forall i | 0 <= i < |results| && results[i].Ok? && results[i].value.Some?
      ensures forall k :: k in results[i].value.value ==> k in header
    {
      var kept := results[i].value.value;
      Lsrc2Kept(psc2FromPsc1, dob, input.rows[i], kept);
      forall k | k in kept ensures k in header {
        if k != "id" && k !in DateColumns {
          assert k in input.rows[i];
        } else if k in DateColumns {
          DateAgesKeeps(Unidentified(input.rows[i], kept["id"]), DateColumns, kept["id"], dob);
        }
      }
    }
    WrittenAll(header, results);
  }

  // ---------------------------------------------------------------------
  // The directory
  // ---------------------------------------------------------------------

  datatype Format = Legacy | Lsrc2 | Unknown

  /** The export format a file name announces. */
  function FormatOf(name: string): Format
  {
    if StartsWith(name, "IMAGEN-IMGN_") then Legacy
    else if StartsWith(name, "Imagen_") || StartsWith(name, "STRATIFY_") then Lsrc2
    else Unknown
  }

  /**
   * The prefixes do not overlap: a name is a legacy export exactly when
   * it starts with 'IMAGEN-IMGN_', an LSRC2 export exactly when it starts
   * with 'Imagen_' or 'STRATIFY_'.
   */
  lemma FormatByPrefix(name: string)
    ensures FormatOf(name) == Legacy <==> StartsWith(name, "IMAGEN-IMGN_")
    ensures FormatOf(name) == Lsrc2 <==> StartsWith(name, "Imagen_") || StartsWith(name, "STRATIFY_")
  {
    if StartsWith(name, "IMAGEN-IMGN_") {
      assert name[1] == 'M' && name[0] == 'I';
    }
  }

  /**
   * What `deidentify` does with one name of the directory: nothing for
   * an unknown format; IOError when the file cannot be read; TypeError,
   * before anything is written, when it is empty, since
   * `DictReader.fieldnames` is then None and cannot be iterated; otherwise
   * the output file, written under the same name in `psc2_dir` whatever
   * happened, and the exception that ended it. `parse` stands for
   * `csv.DictReader`, `render` for `csv.DictWriter`'s quoting.
   */
  function DeidentifyRun(psc2FromPsc1: map<string, string>, dob: map<string, Date>, masterDir: string, psc2Dir: string,
                         parse: string -> Table, render: seq<seq<string>> -> string, files: map<string, string>, name: string)
    : FileRun
    requires ValidDob(dob)
  {
    var masterPath := PathJoin(masterDir, name);
    var format := FormatOf(name);
    if format == Unknown then (None, None)
    else if masterPath !in files then (None, Some(IOError))
    else if files[masterPath] == "" then (None, Some(TypeError))
    else
      var input := parse(files[masterPath]);
      var w := if format == Legacy then LegacyOutput(psc2FromPsc1, dob, input) else Lsrc2Output(psc2FromPsc1, dob, input);
      (Some((PathJoin(psc2Dir, name), render(w.0))), w.1)
  }

  function DeidentifyStep(psc2FromPsc1: map<string, string>, dob: map<string, Date>, masterDir: string, psc2Dir: string,
                          parse: string -> Table, render: seq<seq<string>> -> string)
    : (map<string, string>, string) --> FileRun
    requires ValidDob(dob)
  {
    (files, name) requires ValidDob(dob) => DeidentifyRun(psc2FromPsc1, dob, masterDir, psc2Dir, parse, render, files, name)
  }

  /** `deidentify` for one name of the directory. */
  method DeidentifyFile(fs: FileSystem, psc2FromPsc1: map<string, string>, dob: map<string, Date>, masterDir: string, psc2Dir: string,
                        parse: string -> Table, render: seq<seq<string>> -> string, name: string)
    returns (exc: Option<Exc>)
    requires ValidDob(dob)
    modifies fs
    ensures var run := DeidentifyStep(psc2FromPsc1, dob, masterDir, psc2Dir, parse, render)(old(fs.files), name);
      fs.files == ApplyWrites(old(fs.files), WriteOf(run)) && fs.writes == old(fs.writes) + Paths(WriteOf(run)) && exc == run.1
  {
    RunWrites(fs.files, DeidentifyRun(psc2FromPsc1, dob, masterDir, psc2Dir, parse, render, fs.files, name));
    var masterPath := PathJoin(masterDir, name);
    var psc2Path := PathJoin(psc2Dir, name);
    var format := FormatOf(name);
    if format == Unknown {
      return None;
    }
    if masterPath !in fs.files {
      return Some(IOError);
    }
    if fs.files[masterPath] == "" {
      return Some(TypeError);
    }
    var input := parse(fs.files[masterPath]);
    var lines;
    if format == Legacy {
      lines, exc := LegacyFile(psc2FromPsc1, dob, input);
    } else {
      lines, exc := Lsrc2File(psc2FromPsc1, dob, input);
    }
    fs.Write(psc2Path, render(lines));
  }

  /**
   * One turn of the `for basename in os.listdir(master_dir)` loop: when
   * the walk so far made the writes `outs`, the pass over `names[i]`
   * either ends the walk or leaves the rest of it to start at `i + 1`.
   */
  method DeidentifyNext(fs: FileSystem, psc2FromPsc1: map<string, string>, dob: map<string, Date>, masterDir: string, psc2Dir: string,
                    parse: string -> Table, render: seq<seq<string>> -> string, names: seq<string>, i: nat,
                    ghost files0: map<string, string>, ghost writes0: seq<string>, ghost outs: seq<(string, string)>)
    returns (exc: Option<Exc>, ghost outs': seq<(string, string)>)
    requires ValidDob(dob) && i < |names|
    requires fs.files == ApplyWrites(files0, outs) && fs.writes == writes0 + Paths(outs)
    requires Walk(files0, names, DeidentifyStep(psc2FromPsc1, dob, masterDir, psc2Dir, parse, render)) == Continued(outs, Walk(fs.files, names[i..], DeidentifyStep(psc2FromPsc1, dob, masterDir, psc2Dir, parse, render)))
    modifies fs
    ensures fs.files == ApplyWrites(files0, outs') && fs.writes == writes0 + Paths(outs')
    ensures exc.Some? ==> Walk(files0, names, DeidentifyStep(psc2FromPsc1, dob, masterDir, psc2Dir, parse, render)) == (outs', exc)
    ensures exc.None? ==> Walk(files0, names, DeidentifyStep(psc2FromPsc1, dob, masterDir, psc2Dir, parse, render)) == Continued(outs', Walk(fs.files, names[i + 1..], DeidentifyStep(psc2FromPsc1, dob, masterDir, psc2Dir, parse, render)))
  {
    var step := DeidentifyStep(psc2FromPsc1, dob, masterDir, psc2Dir, parse, render);
    ghost var run := step(fs.files, names[i]);
    WalkAdvance(files0, outs, fs.files, names, i, step);
    exc := DeidentifyFile(fs, psc2FromPsc1, dob, masterDir, psc2Dir, parse, render, names[i]);
    outs' := outs + WriteOf(run);
  }

  /**
   * `deidentify(psc2_from_psc1, master_dir, psc2_dir)` over the names
   * `os.listdir(master_dir)` lists: the files written and the exception
   * that ended the walk are those of the walk over the names.
   */
  method Deidentify(fs: FileSystem, psc2FromPsc1: map<string, string>, dob: map<string, Date>, masterDir: string, psc2Dir: string,
                    parse: string -> Table, render: seq<seq<string>> -> string, names: seq<string>)
    returns (exc: Option<Exc>)
    requires ValidDob(dob)
    modifies fs
    ensures var w := Walk(old(fs.files), names, DeidentifyStep(psc2FromPsc1, dob, masterDir, psc2Dir, parse, render));
      fs.files == ApplyWrites(old(fs.files), w.0) && fs.writes == old(fs.writes) + Paths(w.0) && exc == w.1
  {
    var step := DeidentifyStep(psc2FromPsc1, dob, masterDir, psc2Dir, parse, render);
    ghost var outs: seq<(string, string)> := [];
    WalkStart(fs.files, names, step);
    exc := None;
    var i := 0;
    while i < |names|
      invariant 0 <= i <= |names| && exc == None
      invariant fs.files == ApplyWrites(old(fs.files), outs) && fs.writes == old(fs.writes) + Paths(outs)
      invariant Walk(old(fs.files), names, step) == Continued(outs, Walk(fs.files, names[i..], step))
    {
      exc, outs := DeidentifyNext(fs, psc2FromPsc1, dob, masterDir, psc2Dir, parse, render, names, i, old(fs.files), old(fs.writes), outs);
      if exc.Some? {
        break;
      }
      i := i + 1;
    }
    if exc.None? {
      WalkDone(old(fs.files), outs, fs.files, names, step);
    }
  }
}
