/**
 * `imagen_psytools_process_csv.py`: the line-based pass that turns a
 * Psytools CSV export keyed by PSC1 into one keyed by PSC2. The header
 * is written back stripped; a line mentioning `id_check`, a test
 * subject or a code missing from the table is dropped; the first field
 * `PSC1-suffix` becomes `PSC2-suffix`; every column whose header holds
 * 'Timestamp' becomes the age in days at that time, or '' when the birth
 * date is unknown. Fields are split at every ',' (no CSV quoting).
 */
module ProcessCsv {

  import opened Wrappers
  import opened Text
  import opened Python
  import opened Dates
  import opened Strptime
  import opened Files
  import opened Rows
  import opened Passes

  // ---------------------------------------------------------------------
  // The header
  // ---------------------------------------------------------------------

  /** A header field that names a timestamp. */
  predicate IsTimestampField(field: string)
  {
    Contains(field, "Timestamp")
  }

  /** `convert`: the positions of the fields of the stripped header that name a timestamp. */
  function Convert(header: string): seq<nat>
  {
    Positions(Split(header, ','), IsTimestampField, 0)
  }

  /** The columns to convert are exactly those whose header names a timestamp, in increasing order. */
  lemma ConvertPositions(header: string)
    ensures forall i :: i in Convert(header) <==> 0 <= i < |Split(header, ',')| && Contains(Split(header, ',')[i], "Timestamp")
    ensures forall a, b :: 0 <= a < b < |Convert(header)| ==> Convert(header)[a] < Convert(header)[b]
  {
    PositionsAre(Split(header, ','), IsTimestampField, 0);
  }

  // ---------------------------------------------------------------------
  // One line
  // ---------------------------------------------------------------------

  /** The subjects of test runs: `TEST`, `FOLLOWUP`, `THOMAS_PRONK` and `MAREN` at the start of the code. */
  predicate IsTestCode(psc1: string)
  {
    StartsWith(psc1, "TEST") || StartsWith(psc1, "FOLLOWUP") || StartsWith(psc1, "THOMAS_PRONK") || StartsWith(psc1, "MAREN")
  }

  /** What one timestamp field becomes: the age in days on that date, or '' without a birth date. */
  function StampAge(text: string, birth: Option<Date>): (r: Outcome<string>)
    requires birth.Some? ==> Valid(birth.value)
  {
    if birth.None? then Ok("")
    else
      var date :- ParseDate(TimestampMicro, text);
      Ok(AgeText(date, birth.value))
  }

  /** `for i in convert: items[i] = ...`, in order, stopping at the first exception. */
  function ConvertItems(items: seq<string>, convert: seq<nat>, birth: Option<Date>): Outcome<seq<string>>
    requires birth.Some? ==> Valid(birth.value)
    decreases |convert|
  {
    if |convert| == 0 then Ok(items)
    else
      var i := convert[0];
      if i >= |items| then Raised(IndexError)
      else
        var value :- StampAge(items[i], birth);
        ConvertItems(items[i := value], convert[1..], birth)
  }

  /**
   * With distinct columns, the conversion succeeds exactly when every
   * column exists and each of its timestamps converts; then the
   * converted columns hold their ages and the others are untouched.
   */
  lemma {:induction false} ConvertItemsMeaning(items: seq<string>, convert: seq<nat>, birth: Option<Date>)
    requires birth.Some? ==> Valid(birth.value)
    requires forall a, b :: 0 <= a < b < |convert| ==> convert[a] != convert[b]
    ensures ConvertItems(items, convert, birth).Ok? <==> forall i :: i in convert ==> i < |items| && StampAge(items[i], birth).Ok?
    ensures ConvertItems(items, convert, birth).Ok? ==> |ConvertItems(items, convert, birth).value| == |items|
    ensures ConvertItems(items, convert, birth).Ok? ==>
      forall k :: 0 <= k < |items| ==>
        if k in convert then StampAge(items[k], birth) == Ok(ConvertItems(items, convert, birth).value[k])
        else ConvertItems(items, convert, birth).value[k] == items[k]
    decreases |convert|
  {
    if |convert| > 0 {
      var i := convert[0];
      var tail := convert[1..];
      forall a, b | 0 <= a < b < |tail| ensures tail[a] != tail[b] {
        assert tail[a] == convert[a + 1] && tail[b] == convert[b + 1];
      }
      assert forall j :: j in convert <==> j == i || j in tail;
      if i < |items| && StampAge(items[i], birth).Ok? {
        var next := items[i := StampAge(items[i], birth).value];
        ConvertItemsMeaning(next, tail, birth);
        forall j | j in tail && j < |items| ensures next[j] == items[j] {
        }
      }
    }
  }

  /**
   * The line written for one line of the export, if any:
   * `line.strip().split(',')`; a line holding `id_check` anywhere, a
   * test subject and a PSC1 code missing from the table are skipped; a
   * known code without its '-suffix' raises TypeError (`'-'.join` of
   * None); the timestamp columns are converted; the fields are joined
   * with ','.
   */
  function ProcessLine(psc2FromPsc1: map<string, string>, dob: map<string, Date>, convert: seq<nat>, raw: string)
    : Outcome<Option<string>>
    requires ValidDob(dob)
  {
    var line := Strip(raw);
    var items := Split(line, ',');
    if Contains(line, "id_check") then Ok(None)
    else
      var (psc1, suffix) := RSplitOnce(items[0], '-');
      if IsTestCode(psc1) || psc1 !in psc2FromPsc1 then Ok(None)
      else if suffix.None? then Raised(TypeError)
      else
        var converted :- ConvertItems(items[0 := psc2FromPsc1[psc1] + "-" + suffix.value], convert,
                                      Birth(dob, psc2FromPsc1[psc1]));
        Ok(Some(Join(converted, ",")))
  }

  /**
   * A line is dropped exactly when it holds `id_check`, names a test
   * subject, or names a PSC1 code the table lacks; a line that names a
   * known subject is written or raises.
   */
  lemma LineDropped(psc2FromPsc1: map<string, string>, dob: map<string, Date>, convert: seq<nat>, raw: string)
    requires ValidDob(dob)
    ensures var line := Strip(raw);
      var psc1 := RSplitOnce(Split(line, ',')[0], '-').0;
      ProcessLine(psc2FromPsc1, dob, convert, raw) == Ok(None) <==>
        Contains(line, "id_check") || IsTestCode(psc1) || psc1 !in psc2FromPsc1
  {
  }

  /** A known subject whose first field has no '-' raises TypeError. */
  lemma MissingSuffix(psc2FromPsc1: map<string, string>, dob: map<string, Date>, convert: seq<nat>, raw: string)
    requires ValidDob(dob)
    requires var line := Strip(raw); var first := Split(line, ',')[0];
      !Contains(line, "id_check") && '-' !in first && !IsTestCode(first) && first in psc2FromPsc1
    ensures ProcessLine(psc2FromPsc1, dob, convert, raw) == Raised(TypeError)
  {
  }

  /**
   * A written line has as many fields as the line read (the table's
   * PSC2 codes hold no ','); its first field is `PSC2-suffix` unless
   * converted, each converted column holds its age ('' without a birth
   * date), and every other field is copied.
   */
  lemma LineWritten(psc2FromPsc1: map<string, string>, dob: map<string, Date>, convert: seq<nat>, raw: string, out: string)
    requires ValidDob(dob) && forall c :: c in psc2FromPsc1 ==> ',' !in psc2FromPsc1[c]
    requires forall a, b :: 0 <= a < b < |convert| ==> convert[a] != convert[b]
    requires ProcessLine(psc2FromPsc1, dob, convert, raw) == Ok(Some(out))
    ensures var items := Split(Strip(raw), ',');
      var (psc1, suffix) := RSplitOnce(items[0], '-');
      var fields := Split(out, ',');
      psc1 in psc2FromPsc1 && suffix.Some? && |fields| == |items| &&
      forall k :: 0 <= k < |items| ==>
        var before := if k == 0 then psc2FromPsc1[psc1] + "-" + suffix.value else items[k];
        if k in convert then StampAge(before, Birth(dob, psc2FromPsc1[psc1])) == Ok(fields[k]) else fields[k] == before
  {
    var items := Split(Strip(raw), ',');
    var (psc1, suffix) := RSplitOnce(items[0], '-');
    var psc2 := psc2FromPsc1[psc1];
    var birth := Birth(dob, psc2);
    var start := items[0 := psc2 + "-" + suffix.value];
    ConvertItemsMeaning(start, convert, birth);
    var converted := ConvertItems(start, convert, birth).value;
    forall k | 0 <= k < |converted| ensures ',' !in converted[k] {
      if k in convert {
        if birth.Some? {
          NumberWithout(DaysBetween(ParseDate(TimestampMicro, start[k]).value, birth.value), ',');
        }
      } else if k == 0 {
        assert ',' !in suffix.value;
        assert psc2 + "-" + suffix.value == psc2 + ['-'] + suffix.value;
      }
    }
    SplitJoin(converted, ',');
  }

  // ---------------------------------------------------------------------
  // A whole file
  // ---------------------------------------------------------------------

  /**
   * The lines written after the header, in order, and the exception
   * that ended the pass: lines written before it stay in the file.
   */
  function ProcessLines(psc2FromPsc1: map<string, string>, dob: map<string, Date>, convert: seq<nat>, lines: seq<string>,
                        from: nat): (seq<string>, Option<Exc>)
    requires ValidDob(dob) && from <= |lines|
    decreases |lines| - from
  {
    if from == |lines| then ([], None)
    else match ProcessLine(psc2FromPsc1, dob, convert, lines[from])
      case Raised(e) => ([], Some(e))
      case Ok(None) => ProcessLines(psc2FromPsc1, dob, convert, lines, from + 1)
      case Ok(Some(out)) =>
        var rest := ProcessLines(psc2FromPsc1, dob, convert, lines, from + 1);
        ([out] + rest.0, rest.1)
  }

  /** The text of the written lines, each ended by '\n'. */
  function Terminated(lines: seq<string>): string
    decreases |lines|
  {
    if |lines| == 0 then "" else lines[0] + "\n" + Terminated(lines[1..])
  }

  /** `readline().strip()`: the first line stripped ('' for an empty file). */
  function Header(lines: seq<string>): string
  {
    if |lines| == 0 then "" else Strip(lines[0])
  }

  /** `_create_psc2_file` on the text of an export: the text written and the exception that ended it. */
  function ProcessText(psc2FromPsc1: map<string, string>, dob: map<string, Date>, text: string): (string, Option<Exc>)
    requires ValidDob(dob)
  {
    var lines := Lines(text);
    var header := Header(lines);
    var w := ProcessLines(psc2FromPsc1, dob, Convert(header), lines, if |lines| == 0 then 0 else 1);
    (Terminated([header] + w.0), w.1)
  }

  /** The output starts with the stripped header on a line of its own, whatever follows. */
  lemma HeaderFirst(psc2FromPsc1: map<string, string>, dob: map<string, Date>, text: string)
    requires ValidDob(dob)
    ensures var header := Header(Lines(text));
      StartsWith(ProcessText(psc2FromPsc1, dob, text).0, header + "\n")
  {
    var lines := Lines(text);
    var w := ProcessLines(psc2FromPsc1, dob, Convert(Header(lines)), lines, if |lines| == 0 then 0 else 1);
    assert ([Header(lines)] + w.0)[1..] == w.0;
  }

  /** `for i in convert:` over the fields of one line, updating `items` in place. */
  method ConvertStep(items0: seq<string>, convert: seq<nat>, birth: Option<Date>) returns (r: Outcome<seq<string>>)
    requires birth.Some? ==> Valid(birth.value)
    ensures r == ConvertItems(items0, convert, birth)
  {
    var items := items0;
    for j := 0 to |convert|
      invariant ConvertItems(items0, convert, birth) == ConvertItems(items, convert[j..], birth)
    {
      assert convert[j..][0] == convert[j] && convert[j..][1..] == convert[j + 1..];
      var i := convert[j];
      if i >= |items| {
        return Raised(IndexError);
      }
      if birth.None? {
        items := items[i := ""];
      } else {
        var date := ParseDate(TimestampMicro, items[i]);
        if date.Raised? {
          return Raised(date.exc);
        }
        items := items[i := AgeText(date.value, birth.value)];
      }
    }
    assert convert[|convert|..] == [];
    return Ok(items);
  }

  /** The body of `for line in psytools_file:` for one line. */
  method LineStep(psc2FromPsc1: map<string, string>, dob: map<string, Date>, convert: seq<nat>, raw: string)
    returns (r: Outcome<Option<string>>)
    requires ValidDob(dob)
    ensures r == ProcessLine(psc2FromPsc1, dob, convert, raw)
  {
    var line := Strip(raw);
    var items := Split(line, ',');
    if Contains(line, "id_check") {
      return Ok(None);
    }
    var (psc1, suffix) := RSplitOnce(items[0], '-');
    if IsTestCode(psc1) || psc1 !in psc2FromPsc1 {
      return Ok(None);
    }
    if suffix.None? {
      return Raised(TypeError);
    }
    var psc2 := psc2FromPsc1[psc1];
    items := items[0 := psc2 + "-" + suffix.value];
    var converted := ConvertStep(items, convert, Birth(dob, psc2));
    if converted.Raised? {
      return Raised(converted.exc);
    }
    return Ok(Some(Join(converted.value, ",")));
  }

  /** One more line of the pass: what it writes and where the rest of the pass continues. */
  lemma LinesAdvance(psc2FromPsc1: map<string, string>, dob: map<string, Date>, convert: seq<nat>, lines: seq<string>, i: nat,
                     outs: seq<string>, total: (seq<string>, Option<Exc>))
    requires ValidDob(dob) && i < |lines|
    requires total == Continued(outs, ProcessLines(psc2FromPsc1, dob, convert, lines, i))
    ensures var r := ProcessLine(psc2FromPsc1, dob, convert, lines[i]);
      total == if r.Raised? then (outs, Some(r.exc))
               else Continued(outs + (if r.value.Some? then [r.value.value] else []),
                              ProcessLines(psc2FromPsc1, dob, convert, lines, i + 1))
  {
    var rest := ProcessLines(psc2FromPsc1, dob, convert, lines, i + 1);
    match ProcessLine(psc2FromPsc1, dob, convert, lines[i])
    case Raised(e) =>
      assert outs + [] == outs;
    case Ok(None) =>
      assert outs + [] == outs;
    case Ok(Some(out)) =>
      Associative(outs, [out], rest.0);
  }

  /**
   * One turn of the `for line in psc1_file` loop of `_create_psc2_file`:
   * when the lines before `i` wrote `outs`, the line at `i` either ends
   * the pass or leaves the rest of it to start at `i + 1`.
   */
  method LineNext(psc2FromPsc1: map<string, string>, dob: map<string, Date>, convert: seq<nat>, lines: seq<string>, i: nat,
                  outs: seq<string>, ghost total: (seq<string>, Option<Exc>))
    returns (outs': seq<string>, exc: Option<Exc>)
    requires ValidDob(dob) && i < |lines|
    requires total == Continued(outs, ProcessLines(psc2FromPsc1, dob, convert, lines, i))
    ensures exc.Some? ==> total == (outs', exc)
    ensures exc.None? ==> total == Continued(outs', ProcessLines(psc2FromPsc1, dob, convert, lines, i + 1))
  {
    LinesAdvance(psc2FromPsc1, dob, convert, lines, i, outs, total);
    var r := LineStep(psc2FromPsc1, dob, convert, lines[i]);
    if r.Raised? {
      return outs, Some(r.exc);
    }
    outs' := if r.value.Some? then outs + [r.value.value] else outs;
    exc := None;
  }

  /** The `for line in psc1_file` loop of `_create_psc2_file`, over the lines from `from` on. */
  method ProcessBody(psc2FromPsc1: map<string, string>, dob: map<string, Date>, convert: seq<nat>, lines: seq<string>, from: nat)
    returns (outs: seq<string>, exc: Option<Exc>)
    requires ValidDob(dob) && from <= |lines|
    ensures (outs, exc) == ProcessLines(psc2FromPsc1, dob, convert, lines, from)
  {
    ghost var total := ProcessLines(psc2FromPsc1, dob, convert, lines, from);
    outs := [];
    assert [] + total.0 == total.0;
    var i := from;
    while i < |lines|
      invariant from <= i <= |lines|
      invariant total == Continued(outs, ProcessLines(psc2FromPsc1, dob, convert, lines, i))
    {
      outs, exc := LineNext(psc2FromPsc1, dob, convert, lines, i, outs, total);
      if exc.Some? {
        return;
      }
      i := i + 1;
    }
    assert outs + [] == outs;
    return outs, None;
  }

  /**
   * `_create_psc2_file`: the header, then each line the pass keeps, as
   * they are written; an exception ends the file where it was raised.
   */
  method ProcessFile(psc2FromPsc1: map<string, string>, dob: map<string, Date>, text: string)
    returns (out: string, exc: Option<Exc>)
    requires ValidDob(dob)
    ensures (out, exc) == ProcessText(psc2FromPsc1, dob, text)
  {
    var lines := Lines(text);
    var header := Header(lines);
    var outs;
    outs, exc := ProcessBody(psc2FromPsc1, dob, Convert(header), lines, if |lines| == 0 then 0 else 1);
    out := Terminated([header] + outs);
  }

  // ---------------------------------------------------------------------
  // The directory
  // ---------------------------------------------------------------------

  /**
   * What `create_psc2_files` does with one name `os.listdir` lists:
   * every name is processed (there is no filter on the extension);
   * IOError when it cannot be read; otherwise the output file under the
   * same name in `psc2_dir` and the exception that ended it.
   */
  function ProcessRun(psc2FromPsc1: map<string, string>, dob: map<string, Date>, masterDir: string, psc2Dir: string,
                      files: map<string, string>, name: string): FileRun
    requires ValidDob(dob)
  {
    var masterPath := PathJoin(masterDir, name);
    if masterPath !in files then (None, Some(IOError))
    else
      var w := ProcessText(psc2FromPsc1, dob, files[masterPath]);
      (Some((PathJoin(psc2Dir, name), w.0)), w.1)
  }

  function ProcessStep(psc2FromPsc1: map<string, string>, dob: map<string, Date>, masterDir: string, psc2Dir: string)
    : (map<string, string>, string) --> FileRun
    requires ValidDob(dob)
  {
    (files, name) requires ValidDob(dob) => ProcessRun(psc2FromPsc1, dob, masterDir, psc2Dir, files, name)
  }

  /** `_create_psc2_file(psc2_from_psc1, master_path, psc2_path)` for one name. */
  method ProcessDirectoryFile(fs: FileSystem, psc2FromPsc1: map<string, string>, dob: map<string, Date>,
                              masterDir: string, psc2Dir: string, name: string)
    returns (exc: Option<Exc>)
    requires ValidDob(dob)
    modifies fs
    ensures var run := ProcessStep(psc2FromPsc1, dob, masterDir, psc2Dir)(old(fs.files), name);
      fs.files == ApplyWrites(old(fs.files), WriteOf(run)) && fs.writes == old(fs.writes) + Paths(WriteOf(run)) && exc == run.1
  {
    RunWrites(fs.files, ProcessRun(psc2FromPsc1, dob, masterDir, psc2Dir, fs.files, name));
    var masterPath := PathJoin(masterDir, name);
    if masterPath !in fs.files {
      exc := Some(IOError);
    } else {
      var out;
      out, exc := ProcessFile(psc2FromPsc1, dob, fs.files[masterPath]);
      fs.Write(PathJoin(psc2Dir, name), out);
    }
  }

  /**
   * One turn of the `for basename in os.listdir(master_dir)` loop of
   * `create_psc2_files`: when the walk so far made the writes `outs`,
   * the pass over `names[i]` either ends the walk or leaves the rest of
   * it to start at `i + 1`.
   */
  method ProcessNext(fs: FileSystem, psc2FromPsc1: map<string, string>, dob: map<string, Date>,
                     masterDir: string, psc2Dir: string, names: seq<string>, i: nat,
                     ghost files0: map<string, string>, ghost writes0: seq<string>, ghost outs: seq<(string, string)>)
    returns (exc: Option<Exc>, ghost outs': seq<(string, string)>)
    requires ValidDob(dob) && i < |names|
    requires fs.files == ApplyWrites(files0, outs) && fs.writes == writes0 + Paths(outs)
    requires Walk(files0, names, ProcessStep(psc2FromPsc1, dob, masterDir, psc2Dir)) ==
             Continued(outs, Walk(fs.files, names[i..], ProcessStep(psc2FromPsc1, dob, masterDir, psc2Dir)))
    modifies fs
    ensures fs.files == ApplyWrites(files0, outs') && fs.writes == writes0 + Paths(outs')
    ensures exc.Some? ==> Walk(files0, names, ProcessStep(psc2FromPsc1, dob, masterDir, psc2Dir)) == (outs', exc)
    ensures exc.None? ==> Walk(files0, names, ProcessStep(psc2FromPsc1, dob, masterDir, psc2Dir)) ==
                          Continued(outs', Walk(fs.files, names[i + 1..], ProcessStep(psc2FromPsc1, dob, masterDir, psc2Dir)))
  {
    var step := ProcessStep(psc2FromPsc1, dob, masterDir, psc2Dir);
    ghost var run := step(fs.files, names[i]);
    WalkAdvance(files0, outs, fs.files, names, i, step);
    exc := ProcessDirectoryFile(fs, psc2FromPsc1, dob, masterDir, psc2Dir, names[i]);
    outs' := outs + WriteOf(run);
  }

  /** `create_psc2_files(psc2_from_psc1, master_dir, psc2_dir)` over the names `os.listdir(master_dir)` lists. */
  method CreatePsc2Files(fs: FileSystem, psc2FromPsc1: map<string, string>, dob: map<string, Date>,
                         masterDir: string, psc2Dir: string, names: seq<string>)
    returns (exc: Option<Exc>)
    requires ValidDob(dob)
    modifies fs
    ensures var w := Walk(old(fs.files), names, ProcessStep(psc2FromPsc1, dob, masterDir, psc2Dir));
      fs.files == ApplyWrites(old(fs.files), w.0) && fs.writes == old(fs.writes) + Paths(w.0) && exc == w.1
  {
    var step := ProcessStep(psc2FromPsc1, dob, masterDir, psc2Dir);
    ghost var outs: seq<(string, string)> := [];
    WalkStart(fs.files, names, step);
    exc := None;
    var i := 0;
    while i < |names|
      invariant 0 <= i <= |names| && exc == None
      invariant fs.files == ApplyWrites(old(fs.files), outs) && fs.writes == old(fs.writes) + Paths(outs)
      invariant Walk(old(fs.files), names, step) == Continued(outs, Walk(fs.files, names[i..], step))
    {
      exc, outs := ProcessNext(fs, psc2FromPsc1, dob, masterDir, psc2Dir, names, i, old(fs.files), old(fs.writes), outs);
      if exc.Some? {
        break;
      }
      i := i + 1;
    }
    if exc.None? {
      WalkDone(old(fs.files), outs, fs.files, names, step);
    }
  }
}
