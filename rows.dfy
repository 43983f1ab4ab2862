/**
 * What the pseudonymisation passes over Psytools CSV exports share: the
 * rows `csv.DictReader` yields, the birth-date table, the age in days
 * that replaces a date, the `User code` recoding from PSC1 to PSC2, the
 * conversion of the timestamp columns, and `csv.DictWriter.writerow`.
 */
module Rows {

  import opened Wrappers
  import opened Text
  import opened Python
  import opened Dates
  import opened Strptime

  /**
   * A row as `csv.DictReader` yields it and the scripts update it: field
   * name to text. A field set to None is kept as the empty text that
   * `csv.DictWriter` writes for it.
   */
  type Row = map<string, string>

  /** A CSV file as `csv.DictReader` presents it: the header's field names, then the rows. */
  datatype Table = Table(fieldnames: seq<string>, rows: seq<Row>)

  /** `DOB_FROM_PSC2`: every birth date is a `datetime.date`, hence a valid one. */
  predicate ValidDob(dob: map<string, Date>) { forall p :: p in dob ==> Valid(dob[p]) }

  /** The birth date of `psc2`, when the table holds one. */
  function Birth(dob: map<string, Date>, psc2: string): (b: Option<Date>)
    requires ValidDob(dob)
    ensures b.Some? <==> psc2 in dob
    ensures b.Some? ==> Valid(b.value) && b.value == dob[psc2]
  {
    if psc2 in dob then Some(dob[psc2]) else None
  }

  /** `str((date - birth).days)` */
  function AgeText(date: Date, birth: Date): string
    requires Valid(date) && Valid(birth)
  {
    IntToString(DaysBetween(date, birth))
  }

  /** `row[k]` */
  function Get(row: Row, k: string): Outcome<string>
  {
    if k in row then Ok(row[k]) else Raised(KeyError)
  }

  predicate Distinct(xs: seq<string>) { forall i, j :: 0 <= i < j < |xs| ==> xs[i] != xs[j] }

  /** `[x for x in xs if x in keep]` */
  function Among(xs: seq<string>, keep: set<string>): (r: seq<string>)
    ensures forall x :: x in r <==> x in xs && x in keep
    ensures Distinct(xs) ==> Distinct(r)
  {
    if |xs| == 0 then []
    else
      var rest := Among(xs[1..], keep);
      assert forall x :: x in xs[1..] ==> x in xs;
      if xs[0] in keep then
        assert Distinct(xs) ==> xs[0] !in rest;
        [xs[0]] + rest
      else rest
  }

  /** `[x for x in xs if x not in drop]`, which keeps the order of `xs`. */
  function Without(xs: seq<string>, drop: set<string>): (r: seq<string>)
    ensures forall x :: x in r <==> x in xs && x !in drop
    ensures |r| <= |xs|
  {
    if |xs| == 0 then []
    else
      var rest := Without(xs[1..], drop);
      assert forall x :: x in xs[1..] ==> x in xs;
      if xs[0] in drop then rest else [xs[0]] + rest
  }

  /**
   * `csv.DictWriter(f, fieldnames).writerow(row)`: the row's values in
   * the order of `fieldnames`, the empty text for a field the row lacks;
   * ValueError when the row holds a field `fieldnames` does not name.
   */
  function WriteRow(fieldnames: seq<string>, row: Row): (r: Outcome<seq<string>>)
    ensures r.Raised? <==> exists k :: k in row && k !in fieldnames
    ensures r.Raised? ==> r.exc == ValueError
    ensures r.Ok? ==> |r.value| == |fieldnames|
    ensures r.Ok? ==> forall i :: 0 <= i < |fieldnames| ==> r.value[i] == if fieldnames[i] in row then row[fieldnames[i]] else ""
  {
    if exists k | k in row :: k !in fieldnames then Raised(ValueError)
    else Ok(seq(|fieldnames|, i requires 0 <= i < |fieldnames| => if fieldnames[i] in row then row[fieldnames[i]] else ""))
  }

  // ---------------------------------------------------------------------
  // The User code
  // ---------------------------------------------------------------------

  /**
   * A `User code` is a PSC1 code, then `-C` (child), `-P` (parent) or
   * `-I` (institute): `code.rsplit('-', 1)`. When the part before the
   * last '-' is a known PSC1 code, the result is its PSC2 code and the
   * new User code, the PSC2 code with the suffix re-attached after '-'
   * when there was one; None for an unknown code.
   */
  function Recode(psc2FromPsc1: map<string, string>, code: string): Option<(string, string)>
  {
    var (psc1, suffix) := RSplitOnce(code, '-');
    if psc1 !in psc2FromPsc1 then None
    else
      var psc2 := psc2FromPsc1[psc1];
      Some((psc2, if suffix.Some? then psc2 + "-" + suffix.value else psc2))
  }

  /**
   * A User code is recoded exactly when its PSC1 part is known; the new
   * code is that PSC1's PSC2 followed by whatever followed the PSC1 part.
   */
  lemma RecodeKeepsSuffix(psc2FromPsc1: map<string, string>, code: string)
    ensures var psc1 := RSplitOnce(code, '-').0;
      && |psc1| <= |code| && code[..|psc1|] == psc1
      && (Recode(psc2FromPsc1, code).Some? <==> psc1 in psc2FromPsc1)
      && (psc1 in psc2FromPsc1 ==>
            var r := Recode(psc2FromPsc1, code).value;
            var psc2 := psc2FromPsc1[psc1];
            r.0 == psc2 && r.1 == psc2 + code[|psc1|..])
  {
    var (psc1, suffix) := RSplitOnce(code, '-');
    if suffix.Some? {
      assert code == psc1 + ("-" + suffix.value);
    }
  }

  /** The last '-' of `a + "-" + b` is the one between them when `b` has none. */
  lemma RSplitAt(a: string, b: string)
    requires '-' !in b
    ensures RSplitOnce(a + "-" + b, '-') == (a, Some(b))
  {
    var s := a + "-" + b;
    assert s[|a|] == '-';
    var (x, y) := RSplitOnce(s, '-');
    var t := y.value;
    assert s == x + "-" + t;
    if |t| != |b| {
      assert false;
    }
    assert s[|s| - |t|..] == t;
    assert s[|s| - |b|..] == b;
    assert |x| == |a|;
    assert s[..|x|] == x && s[..|a|] == a;
  }

  /**
   * Recoding with `PSC1_FROM_PSC2`, the inverse table, gives back the
   * original User code: no subject information is lost.
   */
  lemma RecodeRoundTrip(psc2FromPsc1: map<string, string>, psc1FromPsc2: map<string, string>, code: string)
    requires RSplitOnce(code, '-').0 in psc2FromPsc1
    requires var psc1 := RSplitOnce(code, '-').0; var psc2 := psc2FromPsc1[psc1];
      '-' !in psc2 && psc2 in psc1FromPsc2 && psc1FromPsc2[psc2] == psc1
    ensures var r := Recode(psc2FromPsc1, code).value;
      Recode(psc1FromPsc2, r.1) == Some((RSplitOnce(code, '-').0, code))
  {
    var (psc1, suffix) := RSplitOnce(code, '-');
    var psc2 := psc2FromPsc1[psc1];
    if suffix.Some? {
      RSplitAt(psc2, suffix.value);
    }
  }

  // ---------------------------------------------------------------------
  // Timestamp columns
  // ---------------------------------------------------------------------

  /**
   * One pass of `for fieldname in convert`: when `known`, the column's
   * '%Y-%m-%d %H:%M:%S.%f' timestamp is replaced by the age in days on
   * that date of the subject born `dob[psc2]` (KeyError when `psc2` has
   * no birth date, KeyError for a missing column, ValueError for a bad
   * timestamp); otherwise the column becomes None. Also returns the date
   * parsed, which some scripts reuse.
   */
  function ConvertColumn(row: Row, f: string, known: bool, psc2: string, dob: map<string, Date>): Outcome<(Row, Option<Date>)>
    requires ValidDob(dob)
  {
    if !known then Ok((row[f := ""], None))
    else if psc2 !in dob then Raised(KeyError)
    else
      var text :- Get(row, f);
      var date :- ParseDate(TimestampMicro, text);
      Ok((row[f := AgeText(date, dob[psc2])], Some(date)))
  }

  /**
   * The whole `for fieldname in convert` loop, column by column; `last`
   * is the date the last conversion parsed, carried over from earlier
   * rows.
   */
  function ConvertColumns(row: Row, cols: seq<string>, known: bool, psc2: string, dob: map<string, Date>, last: Option<Date>)
    : (r: Outcome<(Row, Option<Date>)>)
    requires ValidDob(dob)
    ensures r.Ok? && r.value.1.Some? ==> r.value.1 == last || Valid(r.value.1.value)
    decreases |cols|
  {
    if |cols| == 0 then Ok((row, last))
    else
      var step :- ConvertColumn(row, cols[0], known, psc2, dob);
      ConvertColumns(step.0, cols[1..], known, psc2, dob, if step.1.Some? then step.1 else last)
  }

  /** The `for fieldname in convert` loop, updating the row in place. */
  method ConvertLoop(row0: Row, cols: seq<string>, known: bool, psc2: string, dob: map<string, Date>, last: Option<Date>)
    returns (r: Outcome<(Row, Option<Date>)>)
    requires ValidDob(dob)
    ensures r == ConvertColumns(row0, cols, known, psc2, dob, last)
  {
    var row := row0;
    var timestamp := last;
    for j := 0 to |cols|
      invariant ConvertColumns(row0, cols, known, psc2, dob, last) == ConvertColumns(row, cols[j..], known, psc2, dob, timestamp)
    {
      var f := cols[j];
      assert cols[j..][0] == f && cols[j..][1..] == cols[j + 1..];
      if known {
        if psc2 !in dob { return Raised(KeyError); }
        var birth := dob[psc2];
        if f !in row { return Raised(KeyError); }
        var date := ParseDate(TimestampMicro, row[f]);
        if date.Raised? { return Raised(date.exc); }
        timestamp := Some(date.value);
        row := row[f := AgeText(date.value, birth)];
      } else {
        row := row[f := ""];
      }
    }
    assert cols[|cols|..] == [];
    return Ok((row, timestamp));
  }

  /** A timestamp column holds a timestamp Python can read. */
  predicate Readable(row: Row, f: string) { f in row && ParseDate(TimestampMicro, row[f]).Ok? }

  /**
   * One column's conversion succeeds exactly when it is skipped or the
   * column holds a readable timestamp of a subject with a birth date;
   * the column then holds the age at that timestamp, or None when
   * skipped.
   */
  lemma ConvertColumnValue(row: Row, f: string, known: bool, psc2: string, dob: map<string, Date>)
    requires ValidDob(dob)
    ensures var r := ConvertColumn(row, f, known, psc2, dob);
      && (r.Ok? <==> !known || (psc2 in dob && Readable(row, f)))
      && (r.Ok? && !known ==> r.value == (row[f := ""], None))
      && (r.Ok? && known ==>
            var date := ParseDate(TimestampMicro, row[f]).value;
            r.value == (row[f := AgeText(date, dob[psc2])], Some(date)))
  {
  }

  /**
   * The conversion of distinct columns succeeds exactly when it is
   * skipped or every column holds a readable timestamp of a subject with
   * a birth date.
   */
  lemma {:induction false} ConvertColumnsSucceeds(row: Row, cols: seq<string>, known: bool, psc2: string, dob: map<string, Date>, last: Option<Date>)
    requires ValidDob(dob) && Distinct(cols)
    ensures ConvertColumns(row, cols, known, psc2, dob, last).Ok?
      <==> !known || |cols| == 0 || (psc2 in dob && forall f :: f in cols ==> Readable(row, f))
    decreases |cols|
  {
    if |cols| > 0 {
      var f := cols[0];
      var rest := cols[1..];
      assert forall g :: g in rest ==> g in cols && g != f;
      ConvertColumnValue(row, f, known, psc2, dob);
      var step := ConvertColumn(row, f, known, psc2, dob);
      if step.Ok? {
        ConvertColumnsSucceeds(step.value.0, rest, known, psc2, dob, if step.value.1.Some? then step.value.1 else last);
        forall g | g in rest ensures Readable(step.value.0, g) <==> Readable(row, g) {
          assert g != f;
        }
      }
    }
  }

  /**
   * A conversion that succeeds changes no field but the converted
   * columns, and every converted column is then present.
   */
  lemma {:induction false} ConvertColumnsKeeps(row: Row, cols: seq<string>, known: bool, psc2: string, dob: map<string, Date>, last: Option<Date>)
    requires ValidDob(dob)
    requires ConvertColumns(row, cols, known, psc2, dob, last).Ok?
    ensures var r := ConvertColumns(row, cols, known, psc2, dob, last).value.0;
      && (forall k :: k !in cols ==> (k in r <==> k in row) && (k in row ==> r[k] == row[k]))
      && (forall f :: f in cols ==> f in r)
    decreases |cols|
  {
    if |cols| > 0 {
      var f := cols[0];
      ConvertColumnValue(row, f, known, psc2, dob);
      var step := ConvertColumn(row, f, known, psc2, dob).value;
      ConvertColumnsKeeps(step.0, cols[1..], known, psc2, dob, if step.1.Some? then step.1 else last);
      assert forall g :: g in cols[1..] ==> g in cols;
    }
  }

  /** The age on the date of the timestamp in column `f`. */
  function StampAge(row: Row, f: string, birth: Date): string
    requires Readable(row, f) && Valid(birth)
  {
    AgeText(ParseDate(TimestampMicro, row[f]).value, birth)
  }

  /** A skipped conversion never fails: it sets every column to None and carries the date over unchanged. */
  lemma {:induction false} ConvertColumnsSkipped(row: Row, cols: seq<string>, psc2: string, dob: map<string, Date>, last: Option<Date>)
    requires ValidDob(dob)
    ensures ConvertColumns(row, cols, false, psc2, dob, last).Ok?
    ensures var r := ConvertColumns(row, cols, false, psc2, dob, last).value;
      r.1 == last && forall f :: f in cols ==> f in r.0 && r.0[f] == ""
    decreases |cols|
  {
    if |cols| > 0 {
      ConvertColumnsSkipped(row[cols[0] := ""], cols[1..], psc2, dob, last);
      ConvertColumnsKeeps(row[cols[0] := ""], cols[1..], false, psc2, dob, last);
    }
  }

  /**
   * After a conversion of distinct columns that succeeds for a subject
   * with a birth date, each column holds the age at its timestamp.
   */
  lemma {:induction false} ConvertColumnsAges(row: Row, cols: seq<string>, psc2: string, dob: map<string, Date>, last: Option<Date>)
    requires ValidDob(dob) && Distinct(cols) && psc2 in dob
    requires ConvertColumns(row, cols, true, psc2, dob, last).Ok?
    ensures forall f :: f in cols ==> Readable(row, f)
    ensures forall f :: f in cols ==> (f in ConvertColumns(row, cols, true, psc2, dob, last).value.0 &&
      ConvertColumns(row, cols, true, psc2, dob, last).value.0[f] == StampAge(row, f, dob[psc2]))
    decreases |cols|
  {
    if |cols| > 0 {
      var f := cols[0];
      var rest := cols[1..];
      assert forall g :: g in rest ==> g in cols && g != f;
      ConvertColumnValue(row, f, true, psc2, dob);
      var step := ConvertColumn(row, f, true, psc2, dob).value;
      ConvertColumnsAges(step.0, rest, psc2, dob, step.1);
      ConvertColumnsKeeps(step.0, rest, true, psc2, dob, step.1);
      var r := ConvertColumns(row, cols, true, psc2, dob, last).value.0;
      assert r == ConvertColumns(step.0, rest, true, psc2, dob, step.1).value.0;
      forall g | g in cols ensures Readable(row, g) && g in r && r[g] == StampAge(row, g, dob[psc2]) {
        if g != f {
          assert g in rest && step.0[g] == row[g];
        }
      }
    }
  }

  /**
   * The date a conversion carries over is the one parsed from the last
   * column, or the earlier one when there are no columns.
   */
  lemma {:induction false} ConvertColumnsLast(row: Row, cols: seq<string>, psc2: string, dob: map<string, Date>, last: Option<Date>)
    requires ValidDob(dob) && Distinct(cols)
    requires ConvertColumns(row, cols, true, psc2, dob, last).Ok?
    ensures |cols| > 0 ==> Readable(row, cols[|cols| - 1])
    ensures ConvertColumns(row, cols, true, psc2, dob, last).value.1
      == if |cols| == 0 then last else Some(ParseDate(TimestampMicro, row[cols[|cols| - 1]]).value)
    decreases |cols|
  {
    if |cols| > 0 {
      var f := cols[0];
      var rest := cols[1..];
      ConvertColumnValue(row, f, true, psc2, dob);
      var step := ConvertColumn(row, f, true, psc2, dob).value;
      ConvertColumnsLast(step.0, rest, psc2, dob, step.1);
      if |rest| > 0 {
        assert cols[|cols| - 1] == rest[|rest| - 1] != f;
      }
    }
  }

  /**
   * The `Trial result` of a trial that records a date: its DD-MM-YYYY
   * date becomes the age in days on that date of the subject born
   * `birth`; it becomes None when it does not parse (the ValueError is
   * caught) and when there is no birth date. KeyError when the row has no
   * `Trial result` to parse.
   */
  function TrialAge(row: Row, birth: Option<Date>): (r: Outcome<Row>)
    requires birth.Some? ==> Valid(birth.value)
  {
    match birth
    case None => Ok(row["Trial result" := ""])
    case Some(b) =>
      var text :- Get(row, "Trial result");
      match ParseDate(DayMonthYear, text)
      case Ok(event) => Ok(row["Trial result" := AgeText(event, b)])
      case Raised(_) => Ok(row["Trial result" := ""])
  }

  // ---------------------------------------------------------------------
  // The lines written
  // ---------------------------------------------------------------------

  /**
   * The lines `writerow` writes while a pass goes through the rows: a
   * row's result is None when the pass drops it; the first exception,
   * from the pass or from `writerow`, ends the file there (the lines
   * before it stay written).
   */
  function Written(fieldnames: seq<string>, results: seq<Outcome<Option<Row>>>): (w: (seq<seq<string>>, Option<Exc>))
    ensures |w.0| <= |results|
    decreases |results|
  {
    if |results| == 0 then ([], None)
    else match results[0]
      case Raised(e) => ([], Some(e))
      case Ok(None) => Written(fieldnames, results[1..])
      case Ok(Some(row)) =>
        match WriteRow(fieldnames, row)
        case Raised(e) => ([], Some(e))
        case Ok(line) =>
          var rest := Written(fieldnames, results[1..]);
          ([line] + rest.0, rest.1)
  }

  /** Lines already written, in front of what the rest of a pass writes. */
  function Prefixed(lines: seq<seq<string>>, w: (seq<seq<string>>, Option<Exc>)): (seq<seq<string>>, Option<Exc>)
  {
    (lines + w.0, w.1)
  }

  /** A dated trial's conversion sets its Trial result and changes nothing else. */
  lemma TrialAgeKeeps(row: Row, birth: Option<Date>)
    requires birth.Some? ==> Valid(birth.value)
    ensures var r := TrialAge(row, birth);
      r.Ok? ==> "Trial result" in r.value && forall k :: k != "Trial result" ==> (k in r.value <==> k in row) && (k in row ==> r.value[k] == row[k])
  {
  }

  /**
   * One iteration of a row loop: with `lines` written so far and the
   * rest of the pass starting at row `i`, row `i` either ends the pass or
   * adds at most one line and leaves the rest to start at `i + 1`.
   */
  lemma WrittenAdvance(fieldnames: seq<string>, results: seq<Outcome<Option<Row>>>, i: nat,
                       lines: seq<seq<string>>, total: (seq<seq<string>>, Option<Exc>))
    requires i < |results| && total == Prefixed(lines, Written(fieldnames, results[i..]))
    ensures results[i].Raised? ==> total == (lines, Some(results[i].exc))
    ensures results[i] == Ok(None) ==> total == Prefixed(lines, Written(fieldnames, results[i + 1..]))
    ensures results[i].Ok? && results[i].value.Some? ==>
      match WriteRow(fieldnames, results[i].value.value)
      case Raised(e) => total == (lines, Some(e))
      case Ok(line) => total == Prefixed(lines + [line], Written(fieldnames, results[i + 1..]))
  {
    assert results[i..][0] == results[i] && results[i..][1..] == results[i + 1..];
    assert lines + [] == lines;
    if results[i].Ok? && results[i].value.Some? {
      var line := WriteRow(fieldnames, results[i].value.value);
      if line.Ok? {
        var rest := Written(fieldnames, results[i + 1..]);
        assert lines + ([line.value] + rest.0) == (lines + [line.value]) + rest.0;
      }
    }
  }

  /**
   * The `writer.writerow(row)` that ends one iteration of a row loop: with
   * `lines` written so far and the rest of the pass starting at row `i`,
   * whose result is `r`, either the pass ends or the rest of it starts at
   * `i + 1`.
   */
  method WriteNext(fieldnames: seq<string>, ghost results: seq<Outcome<Option<Row>>>, i: nat,
                   lines: seq<seq<string>>, ghost total: (seq<seq<string>>, Option<Exc>), r: Outcome<Option<Row>>)
    returns (lines': seq<seq<string>>, exc: Option<Exc>)
    requires i < |results| && r == results[i] && total == Prefixed(lines, Written(fieldnames, results[i..]))
    ensures |lines| > 0 ==> |lines'| > 0 && lines'[0] == lines[0]
    ensures r.Raised? ==> exc == Some(r.exc)
    ensures exc.Some? ==> total == (lines', exc)
    ensures exc.None? ==> total == Prefixed(lines', Written(fieldnames, results[i + 1..]))
  {
    WrittenAdvance(fieldnames, results, i, lines, total);
    if r.Raised? {
      return lines, Some(r.exc);
    }
    lines' := lines;
    if r.value.Some? {
      var line := WriteRow(fieldnames, r.value.value);
      if line.Raised? {
        return lines, Some(line.exc);
      }
      lines' := lines + [line.value];
    }
    exc := None;
  }

  /** A row loop that has gone through every row has written everything the pass writes. */
  lemma WrittenDone(fieldnames: seq<string>, results: seq<Outcome<Option<Row>>>,
                    lines: seq<seq<string>>, total: (seq<seq<string>>, Option<Exc>))
    requires total == Prefixed(lines, Written(fieldnames, results[|results|..]))
    ensures total == (lines, None)
  {
    assert results[|results|..] == [];
    assert lines + [] == lines;
  }

  /** Every line written is the `writerow` of a row the pass kept. */
  lemma {:induction false} WrittenLine(fieldnames: seq<string>, results: seq<Outcome<Option<Row>>>, k: nat)
    requires k < |Written(fieldnames, results).0|
    ensures exists i :: (0 <= i < |results| && results[i].Ok? && results[i].value.Some?
      && WriteRow(fieldnames, results[i].value.value) == Ok(Written(fieldnames, results).0[k]))
    decreases |results|
  {
    var w := Written(fieldnames, results);
    var rest := Written(fieldnames, results[1..]);
    if results[0] == Ok(None) {
      WrittenLine(fieldnames, results[1..], k);
      var i :| 0 <= i < |results[1..]| && results[1..][i].Ok? && results[1..][i].value.Some?
        && WriteRow(fieldnames, results[1..][i].value.value) == Ok(rest.0[k]);
      assert results[i + 1] == results[1..][i];
    } else if k > 0 {
      assert w.0[k] == rest.0[k - 1];
      WrittenLine(fieldnames, results[1..], k - 1);
      var i :| 0 <= i < |results[1..]| && results[1..][i].Ok? && results[1..][i].value.Some?
        && WriteRow(fieldnames, results[1..][i].value.value) == Ok(rest.0[k - 1]);
      assert results[i + 1] == results[1..][i];
    }
  }

  /**
   * When every row a pass keeps has a field `f` whose value satisfies
   * `p`, every written line satisfies `p` in each column named `f`.
   */
  lemma WrittenColumn(fieldnames: seq<string>, results: seq<Outcome<Option<Row>>>, f: string, p: string -> bool)
    requires forall i :: (0 <= i < |results| && results[i].Ok? && results[i].value.Some?
      ==> f in results[i].value.value && p(results[i].value.value[f]))
    ensures forall k, t :: (0 <= k < |Written(fieldnames, results).0| && 0 <= t < |fieldnames| && fieldnames[t] == f
      ==> t < |Written(fieldnames, results).0[k]| && p(Written(fieldnames, results).0[k][t]))
  {
    var w := Written(fieldnames, results);
    forall k, t | 0 <= k < |w.0| && 0 <= t < |fieldnames| && fieldnames[t] == f
      ensures t < |w.0[k]| && p(w.0[k][t])
    {
      WrittenLine(fieldnames, results, k);
    }
  }

  /**
   * A pass whose kept rows only hold fields of the header writes every
   * kept row: `writerow` raises nothing, so only the pass's own
   * exceptions can end the file early.
   */
  lemma {:induction false} WrittenAll(fieldnames: seq<string>, results: seq<Outcome<Option<Row>>>)
    requires forall i :: (0 <= i < |results| && results[i].Ok? && results[i].value.Some?
      ==> forall k :: k in results[i].value.value ==> k in fieldnames)
    ensures Written(fieldnames, results).1.Some? <==> exists i :: 0 <= i < |results| && results[i].Raised?
    decreases |results|
  {
    if |results| > 0 {
      assert forall i :: 0 <= i < |results[1..]| ==> results[1..][i] == results[i + 1];
      WrittenAll(fieldnames, results[1..]);
      if (exists i :: 0 <= i < |results| && results[i].Raised?) && !results[0].Raised? {
        var i :| 0 <= i < |results| && results[i].Raised?;
        assert results[1..][i - 1].Raised?;
      }
    }
  }
}
