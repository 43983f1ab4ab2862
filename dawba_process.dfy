/**
 * `imagen_dawba_process.py`: the line-based pass that turns a DAWBA
 * export keyed by DAWBA codes into one keyed by PSC2 codes. The header
 * line is copied as read; a line whose first tab-separated field is a
 * DAWBA code missing from the table is dropped; otherwise the first
 * field becomes the PSC2 code and every non-empty column whose header
 * names a start date ('sstartdate' or 'p1startdate') becomes the age in
 * days on that date, or '' when the birth date is unknown. Lines are
 * not stripped: the '\n' ending a line stays in its last field.
 */
module DawbaProcess {

  import opened Wrappers
  import opened Text
  import opened Python
  import opened Dates
  import opened Strptime
  import opened Files
  import opened Rows
  import opened Passes

  /**
   * The tables the pass reads: `psc2_from_dawba`, its argument, and the
   * module-level `PSC1_FROM_PSC2` and `DOB_FROM_PSC2`.
   */
  datatype Tables = Tables(psc2FromDawba: map<string, string>, psc1FromPsc2: map<string, string>, dob: map<string, Date>)

  predicate ValidTables(t: Tables) { ValidDob(t.dob) }

  // ---------------------------------------------------------------------
  // The header
  // ---------------------------------------------------------------------

  /** A header field that names a start date. */
  predicate IsStartDateField(field: string)
  {
    Contains(field, "sstartdate") || Contains(field, "p1startdate")
  }

  /** `convert`: the positions of the fields of the header line that name a start date. */
  function Convert(header: string): seq<nat>
  {
    Positions(Split(header, '\t'), IsStartDateField, 0)
  }

  /** The columns to convert are exactly those whose header names a start date, in increasing order. */
  lemma ConvertPositions(header: string)
    ensures forall i :: i in Convert(header) <==> 0 <= i < |Split(header, '\t')| && IsStartDateField(Split(header, '\t')[i])
    ensures forall a, b :: 0 <= a < b < |Convert(header)| ==> Convert(header)[a] < Convert(header)[b]
  {
    PositionsAre(Split(header, '\t'), IsStartDateField, 0);
  }

  // ---------------------------------------------------------------------
  // One line
  // ---------------------------------------------------------------------

  /**
   * What one start-date field becomes: '' stays ''; without a birth date
   * ''; otherwise `strptime(field, '%d.%m.%y')` and the age in days.
   */
  function StartAge(text: string, birth: Option<Date>): Outcome<string>
    requires birth.Some? ==> Valid(birth.value)
  {
    if text == "" || birth.None? then Ok("")
    else
      var date :- ParseDate(DayMonthShortYear, text);
      Ok(AgeText(date, birth.value))
  }

  /** `for i in convert: ...`, in order, stopping at the first exception. */
  function ConvertDates(items: seq<string>, convert: seq<nat>, birth: Option<Date>): Outcome<seq<string>>
    requires birth.Some? ==> Valid(birth.value)
    decreases |convert|
  {
    if |convert| == 0 then Ok(items)
    else
      var i := convert[0];
      if i >= |items| then Raised(IndexError)
      else
        var value :- StartAge(items[i], birth);
        ConvertDates(items[i := value], convert[1..], birth)
  }

  /**
   * With distinct columns, the conversion succeeds exactly when every
   * column exists and each of its dates converts; then the converted
   * columns hold their ages and the others are untouched.
   */
  lemma {:induction false} ConvertDatesMeaning(items: seq<string>, convert: seq<nat>, birth: Option<Date>)
    requires birth.Some? ==> Valid(birth.value)
    requires forall a, b :: 0 <= a < b < |convert| ==> convert[a] != convert[b]
    ensures ConvertDates(items, convert, birth).Ok? <==> forall i :: i in convert ==> i < |items| && StartAge(items[i], birth).Ok?
    ensures ConvertDates(items, convert, birth).Ok? ==> |ConvertDates(items, convert, birth).value| == |items|
    ensures ConvertDates(items, convert, birth).Ok? ==>
      forall k :: 0 <= k < |items| ==>
        if k in convert then StartAge(items[k], birth) == Ok(ConvertDates(items, convert, birth).value[k])
        else ConvertDates(items, convert, birth).value[k] == items[k]
    decreases |convert|
  {
    if |convert| > 0 {
      var i := convert[0];
      var tail := convert[1..];
      forall a, b | 0 <= a < b < |tail| ensures tail[a] != tail[b] {
        assert tail[a] == convert[a + 1] && tail[b] == convert[b + 1];
      }
      assert forall j :: j in convert <==> j == i || j in tail;
      if i < |items| && StartAge(items[i], birth).Ok? {
        var next := items[i := StartAge(items[i], birth).value];
        ConvertDatesMeaning(next, tail, birth);
        forall j | j in tail && j < |items| ensures next[j] == items[j] {
        }
      }
    }
  }

  /**
   * The line written for one line of the export, if any: `line.split('\t')`;
   * a DAWBA code missing from the table drops the line; a PSC2 code
   * missing from `PSC1_FROM_PSC2` raises KeyError (the log message looks
   * it up); the first field becomes the PSC2 code, the start-date
   * columns are converted and the fields are joined with '\t'.
   */
  function DawbaLine(t: Tables, convert: seq<nat>, line: string): Outcome<Option<string>>
    requires ValidTables(t)
  {
    var items := Split(line, '\t');
    var dawba := items[0];
    if dawba !in t.psc2FromDawba then Ok(None)
    else
      var psc2 := t.psc2FromDawba[dawba];
      if psc2 !in t.psc1FromPsc2 then Raised(KeyError)
      else
        var converted :- ConvertDates(items[0 := psc2], convert, Birth(t.dob, psc2));
        Ok(Some(Join(converted, "\t")))
  }

  /** A line is dropped exactly when its DAWBA code is missing from the table. */
  lemma LineDropped(t: Tables, convert: seq<nat>, line: string)
    requires ValidTables(t)
    ensures DawbaLine(t, convert, line) == Ok(None) <==> Split(line, '\t')[0] !in t.psc2FromDawba
  {
  }

  /** A known DAWBA code whose PSC2 code has no PSC1 code raises KeyError. */
  lemma UnknownPsc2(t: Tables, convert: seq<nat>, line: string)
    requires ValidTables(t)
    requires Split(line, '\t')[0] in t.psc2FromDawba && t.psc2FromDawba[Split(line, '\t')[0]] !in t.psc1FromPsc2
    ensures DawbaLine(t, convert, line) == Raised(KeyError)
  {
  }

  /**
   * A written line has as many fields as the line read (the table's
   * PSC2 codes hold no tab); its first field is the PSC2 code unless
   * converted, each converted column holds its age ('' when empty or
   * without a birth date), and every other field, the last one with its
   * '\n', is copied.
   */
  lemma LineWritten(t: Tables, convert: seq<nat>, line: string, out: string)
    requires ValidTables(t) && forall d :: d in t.psc2FromDawba ==> '\t' !in t.psc2FromDawba[d]
    requires forall a, b :: 0 <= a < b < |convert| ==> convert[a] != convert[b]
    requires DawbaLine(t, convert, line) == Ok(Some(out))
    ensures var items := Split(line, '\t');
      var psc2 := t.psc2FromDawba[items[0]];
      var fields := Split(out, '\t');
      psc2 in t.psc1FromPsc2 && |fields| == |items| &&
      forall k :: 0 <= k < |items| ==>
        var before := if k == 0 then psc2 else items[k];
        if k in convert then StartAge(before, Birth(t.dob, psc2)) == Ok(fields[k]) else fields[k] == before
  {
    var items := Split(line, '\t');
    var psc2 := t.psc2FromDawba[items[0]];
    var birth := Birth(t.dob, psc2);
    var start := items[0 := psc2];
    ConvertDatesMeaning(start, convert, birth);
    var converted := ConvertDates(start, convert, birth).value;
    forall k | 0 <= k < |converted| ensures '\t' !in converted[k] {
      if k in convert && start[k] != "" && birth.Some? {
        NumberWithout(DaysBetween(ParseDate(DayMonthShortYear, start[k]).value, birth.value), '\t');
      }
    }
    SplitJoin(converted, '\t');
  }

  // ---------------------------------------------------------------------
  // A whole file
  // ---------------------------------------------------------------------

  /**
   * The lines written after the header, in order, and the exception
   * that ended the pass: lines written before it stay in the file.
   */
  function DawbaLines(t: Tables, convert: seq<nat>, lines: seq<string>, from: nat): (seq<string>, Option<Exc>)
    requires ValidTables(t) && from <= |lines|
    decreases |lines| - from
  {
    if from == |lines| then ([], None)
    else match DawbaLine(t, convert, lines[from])
      case Raised(e) => ([], Some(e))
      case Ok(None) => DawbaLines(t, convert, lines, from + 1)
      case Ok(Some(out)) =>
        var rest := DawbaLines(t, convert, lines, from + 1);
        ([out] + rest.0, rest.1)
  }

  /**
   * Every line written comes from a line of the export at or after
   * `from`, and there are no more of them than lines read.
   */
  lemma {:induction false} WrittenFromRead(t: Tables, convert: seq<nat>, lines: seq<string>, from: nat)
    requires ValidTables(t) && from <= |lines|
    ensures |DawbaLines(t, convert, lines, from).0| <= |lines| - from
    ensures forall k :: 0 <= k < |DawbaLines(t, convert, lines, from).0| ==>
      exists i :: from <= i < |lines| && DawbaLine(t, convert, lines[i]) == Ok(Some(DawbaLines(t, convert, lines, from).0[k]))
    decreases |lines| - from
  {
    if from < |lines| {
      WrittenFromRead(t, convert, lines, from + 1);
      var rest := DawbaLines(t, convert, lines, from + 1);
      match DawbaLine(t, convert, lines[from])
      case Raised(e) =>
      case Ok(None) =>
        forall k | 0 <= k < |rest.0|
          ensures exists i :: from <= i < |lines| && DawbaLine(t, convert, lines[i]) == Ok(Some(rest.0[k]))
        {
          var i :| from + 1 <= i < |lines| && DawbaLine(t, convert, lines[i]) == Ok(Some(rest.0[k]));
        }
      case Ok(Some(out)) =>
        var w := [out] + rest.0;
        forall k | 0 <= k < |w|
          ensures exists i :: from <= i < |lines| && DawbaLine(t, convert, lines[i]) == Ok(Some(w[k]))
        {
          if k == 0 {
            assert DawbaLine(t, convert, lines[from]) == Ok(Some(w[k]));
          } else {
            assert w[k] == rest.0[k - 1];
            var i :| from + 1 <= i < |lines| && DawbaLine(t, convert, lines[i]) == Ok(Some(rest.0[k - 1]));
          }
        }
    }
  }

  /** When no line from `from` on carries a known DAWBA code, nothing is written and nothing raised. */
  lemma {:induction false} NothingKnown(t: Tables, convert: seq<nat>, lines: seq<string>, from: nat)
    requires ValidTables(t) && from <= |lines|
    requires forall i :: from <= i < |lines| ==> Split(lines[i], '\t')[0] !in t.psc2FromDawba
    ensures DawbaLines(t, convert, lines, from) == ([], None)
    decreases |lines| - from
  {
    if from < |lines| {
      NothingKnown(t, convert, lines, from + 1);
    }
  }

  /** `readline()`: the first line as read, with its '\n' ('' for an empty file). */
  function Header(lines: seq<string>): string
  {
    if |lines| == 0 then "" else lines[0]
  }

  /** `_create_psc2_file` on the text of an export: the text written and the exception that ended it. */
  function DawbaText(t: Tables, text: string): (string, Option<Exc>)
    requires ValidTables(t)
  {
    var lines := Lines(text);
    var header := Header(lines);
    var w := DawbaLines(t, Convert(header), lines, if |lines| == 0 then 0 else 1);
    (header + Concat(w.0), w.1)
  }

  /**
   * The header line is copied as read: it starts both the export and
   * the output; and an export with no known DAWBA code is written as its
   * header line alone.
   */
  lemma HeaderKept(t: Tables, text: string)
    requires ValidTables(t)
    ensures StartsWith(text, Header(Lines(text))) && StartsWith(DawbaText(t, text).0, Header(Lines(text)))
    ensures (forall i :: 1 <= i < |Lines(text)| ==> Split(Lines(text)[i], '\t')[0] !in t.psc2FromDawba) ==>
      DawbaText(t, text) == (Header(Lines(text)), None)
  {
    var lines := Lines(text);
    LinesConcat(text);
    if (forall i :: 1 <= i < |lines| ==> Split(lines[i], '\t')[0] !in t.psc2FromDawba) {
      NothingKnown(t, Convert(Header(lines)), lines, if |lines| == 0 then 0 else 1);
      assert Header(lines) + "" == Header(lines);
    }
  }

  /** `for i in convert:` over the fields of one line, updating `items` in place. */
  method DateStep(items0: seq<string>, convert: seq<nat>, birth: Option<Date>) returns (r: Outcome<seq<string>>)
    requires birth.Some? ==> Valid(birth.value)
    ensures r == ConvertDates(items0, convert, birth)
  {
    var items := items0;
    for j := 0 to |convert|
      invariant ConvertDates(items0, convert, birth) == ConvertDates(items, convert[j..], birth)
    {
      assert convert[j..][0] == convert[j] && convert[j..][1..] == convert[j + 1..];
      var i := convert[j];
      if i >= |items| {
        return Raised(IndexError);
      }
      if items[i] == "" {
        assert items[i := ""] == items;
      } else {
        if birth.Some? {
          var date := ParseDate(DayMonthShortYear, items[i]);
          if date.Raised? {
            return Raised(date.exc);
          }
          items := items[i := AgeText(date.value, birth.value)];
        } else {
          items := items[i := ""];
        }
      }
    }
    assert convert[|convert|..] == [];
    return Ok(items);
  }

  /** The body of `for line in dawba_file:` for one line. */
  method LineStep(t: Tables, convert: seq<nat>, line: string) returns (r: Outcome<Option<string>>)
    requires ValidTables(t)
    ensures r == DawbaLine(t, convert, line)
  {
    var items := Split(line, '\t');
    var dawba := items[0];
    if dawba !in t.psc2FromDawba {
      return Ok(None);
    }
    var psc2 := t.psc2FromDawba[dawba];
    if psc2 !in t.psc1FromPsc2 {
      return Raised(KeyError);
    }
    items := items[0 := psc2];
    var converted := DateStep(items, convert, Birth(t.dob, psc2));
    if converted.Raised? {
      return Raised(converted.exc);
    }
    return Ok(Some(Join(converted.value, "\t")));
  }

  /** One more line of the pass: what it writes and where the rest of the pass continues. */
  lemma LinesAdvance(t: Tables, convert: seq<nat>, lines: seq<string>, i: nat, outs: seq<string>, total: (seq<string>, Option<Exc>))
    requires ValidTables(t) && i < |lines|
    requires total == Continued(outs, DawbaLines(t, convert, lines, i))
    ensures var r := DawbaLine(t, convert, lines[i]);
      total == if r.Raised? then (outs, Some(r.exc))
               else Continued(outs + (if r.value.Some? then [r.value.value] else []), DawbaLines(t, convert, lines, i + 1))
  {
    var rest := DawbaLines(t, convert, lines, i + 1);
    match DawbaLine(t, convert, lines[i])
    case Raised(e) =>
      assert outs + [] == outs;
    case Ok(None) =>
      assert outs + [] == outs;
    case Ok(Some(out)) =>
      Associative(outs, [out], rest.0);
  }

  /**
   * One turn of the `for line in dawba_file` loop of `_create_psc2_file`:
   * when the lines before `i` wrote `outs`, the line at `i` either ends
   * the pass or leaves the rest of it to start at `i + 1`.
   */
  method LineNext(t: Tables, convert: seq<nat>, lines: seq<string>, i: nat, outs: seq<string>, ghost total: (seq<string>, Option<Exc>))
    returns (outs': seq<string>, exc: Option<Exc>)
    requires ValidTables(t) && i < |lines|
    requires total == Continued(outs, DawbaLines(t, convert, lines, i))
    ensures exc.Some? ==> total == (outs', exc)
    ensures exc.None? ==> total == Continued(outs', DawbaLines(t, convert, lines, i + 1))
  {
    LinesAdvance(t, convert, lines, i, outs, total);
    var r := LineStep(t, convert, lines[i]);
    if r.Raised? {
      return outs, Some(r.exc);
    }
    outs' := if r.value.Some? then outs + [r.value.value] else outs;
    exc := None;
  }

  /** The `for line in dawba_file` loop of `_create_psc2_file`, over the lines from `from` on. */
  method DawbaBody(t: Tables, convert: seq<nat>, lines: seq<string>, from: nat) returns (outs: seq<string>, exc: Option<Exc>)
    requires ValidTables(t) && from <= |lines|
    ensures (outs, exc) == DawbaLines(t, convert, lines, from)
  {
    ghost var total := DawbaLines(t, convert, lines, from);
    outs := [];
    assert [] + total.0 == total.0;
    var i := from;
    while i < |lines|
      invariant from <= i <= |lines|
      invariant total == Continued(outs, DawbaLines(t, convert, lines, i))
    {
      outs, exc := LineNext(t, convert, lines, i, outs, total);
      if exc.Some? {
        return;
      }
      i := i + 1;
    }
    assert outs + [] == outs;
    return outs, None;
  }

  /**
   * `_create_psc2_file`: the header line, then each line the pass keeps,
   * as they are written; an exception ends the file where it was raised.
   */
  method DawbaFile(t: Tables, text: string) returns (out: string, exc: Option<Exc>)
    requires ValidTables(t)
    ensures (out, exc) == DawbaText(t, text)
  {
    var lines := Lines(text);
    var header := Header(lines);
    var outs;
    outs, exc := DawbaBody(t, Convert(header), lines, if |lines| == 0 then 0 else 1);
    out := header + Concat(outs);
  }

  // ---------------------------------------------------------------------
  // The directory
  // ---------------------------------------------------------------------

  /**
   * What `create_psc2_files` does with one name `os.listdir` lists:
   * every name is processed; IOError when it cannot be read; otherwise
   * the output file under the same name in `psc2_dir` and the exception
   * that ended it.
   */
  function DawbaRun(t: Tables, masterDir: string, psc2Dir: string, files: map<string, string>, name: string): FileRun
    requires ValidTables(t)
  {
    var masterPath := PathJoin(masterDir, name);
    if masterPath !in files then (None, Some(IOError))
    else
      var w := DawbaText(t, files[masterPath]);
      (Some((PathJoin(psc2Dir, name), w.0)), w.1)
  }

  function DawbaStep(t: Tables, masterDir: string, psc2Dir: string): (map<string, string>, string) --> FileRun
    requires ValidTables(t)
  {
    (files, name) requires ValidTables(t) => DawbaRun(t, masterDir, psc2Dir, files, name)
  }

  /** `_create_psc2_file(psc2_from_dawba, master_path, psc2_path)` for one name. */
  method DawbaDirectoryFile(fs: FileSystem, t: Tables, masterDir: string, psc2Dir: string, name: string)
    returns (exc: Option<Exc>)
    requires ValidTables(t)
    modifies fs
    ensures var run := DawbaStep(t, masterDir, psc2Dir)(old(fs.files), name);
      fs.files == ApplyWrites(old(fs.files), WriteOf(run)) && fs.writes == old(fs.writes) + Paths(WriteOf(run)) && exc == run.1
  {
    RunWrites(fs.files, DawbaRun(t, masterDir, psc2Dir, fs.files, name));
    var masterPath := PathJoin(masterDir, name);
    if masterPath !in fs.files {
      exc := Some(IOError);
    } else {
      var out;
      out, exc := DawbaFile(t, fs.files[masterPath]);
      fs.Write(PathJoin(psc2Dir, name), out);
    }
  }

  /**
   * One turn of the `for master_file in os.listdir(master_dir)` loop of
   * `create_psc2_files`: when the walk so far made the writes `outs`,
   * the pass over `names[i]` either ends the walk or leaves the rest of
   * it to start at `i + 1`.
   */
  method DawbaNext(fs: FileSystem, t: Tables, masterDir: string, psc2Dir: string, names: seq<string>, i: nat,
                   ghost files0: map<string, string>, ghost writes0: seq<string>, ghost outs: seq<(string, string)>)
    returns (exc: Option<Exc>, ghost outs': seq<(string, string)>)
    requires ValidTables(t) && i < |names|
    requires fs.files == ApplyWrites(files0, outs) && fs.writes == writes0 + Paths(outs)
    requires Walk(files0, names, DawbaStep(t, masterDir, psc2Dir)) == Continued(outs, Walk(fs.files, names[i..], DawbaStep(t, masterDir, psc2Dir)))
    modifies fs
    ensures fs.files == ApplyWrites(files0, outs') && fs.writes == writes0 + Paths(outs')
    ensures exc.Some? ==> Walk(files0, names, DawbaStep(t, masterDir, psc2Dir)) == (outs', exc)
    ensures exc.None? ==> Walk(files0, names, DawbaStep(t, masterDir, psc2Dir)) ==
                          Continued(outs', Walk(fs.files, names[i + 1..], DawbaStep(t, masterDir, psc2Dir)))
  {
    var step := DawbaStep(t, masterDir, psc2Dir);
    ghost var run := step(fs.files, names[i]);
    WalkAdvance(files0, outs, fs.files, names, i, step);
    exc := DawbaDirectoryFile(fs, t, masterDir, psc2Dir, names[i]);
    outs' := outs + WriteOf(run);
  }

  /** `create_psc2_files(psc2_from_dawba, master_dir, psc2_dir)` over the names `os.listdir(master_dir)` lists. */
  method CreatePsc2Files(fs: FileSystem, t: Tables, masterDir: string, psc2Dir: string, names: seq<string>)
    returns (exc: Option<Exc>)
    requires ValidTables(t)
    modifies fs
    ensures var w := Walk(old(fs.files), names, DawbaStep(t, masterDir, psc2Dir));
      fs.files == ApplyWrites(old(fs.files), w.0) && fs.writes == old(fs.writes) + Paths(w.0) && exc == w.1
  {
    var step := DawbaStep(t, masterDir, psc2Dir);
    ghost var outs: seq<(string, string)> := [];
    WalkStart(fs.files, names, step);
    exc := None;
    var i := 0;
    while i < |names|
      invariant 0 <= i <= |names| && exc == None
      invariant fs.files == ApplyWrites(old(fs.files), outs) && fs.writes == old(fs.writes) + Paths(outs)
      invariant Walk(old(fs.files), names, step) == Continued(outs, Walk(fs.files, names[i..], step))
    {
      exc, outs := DawbaNext(fs, t, masterDir, psc2Dir, names, i, old(fs.files), old(fs.writes), outs);
      if exc.Some? {
        break;
      }
      i := i + 1;
    }
    if exc.None? {
      WalkDone(old(fs.files), outs, fs.files, names, step);
    }
  }
}
