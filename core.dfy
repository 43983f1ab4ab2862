/**
 * Subject codes of the Imagen databank: detection of PSC1 and PSC2 codes
 * in free text, the PSC1 guess from a site's subject identifier, the
 * reading of the PSC1=DAWBA=PSC2 mapping file and of the date-of-birth
 * file, the PSC2 to PSC1 inverse table, and the text of a parse `Error`.
 */
module Core {

  import opened Wrappers
  import opened Text
  import opened Python
  import opened Dates
  import opened Regex

  /** The numerical IDs of the eight acquisition centres, as digits. */
  const CenterDigits: set<char> := {'1', '2', '3', '4', '5', '6', '7', '8'}

  const DecimalDigits: set<char> := {'0', '1', '2', '3', '4', '5', '6', '7', '8', '9'}

  /** Twelve digits, the first '0' and the second from `second`. */
  predicate IsCode(t: string, second: set<char>) {
    |t| == 12 && t[0] == '0' && t[1] in second && AllDigits(t)
  }

  /** A PSC1 code: '0', a centre digit, ten digits. */
  predicate IsPsc1(t: string) { IsCode(t, CenterDigits) }

  /** `0[12345678]\d{10}` for PSC1 codes, `0\d{11}` (second = every digit) for PSC2 codes. */
  function CodePattern(second: set<char>): (p: Fixed)
    ensures |p| == 12
  {
    [Chars({'0'}), Chars(second)] + seq(10, _ => Digit)
  }

  lemma CodePatternAt(s: string, second: set<char>, i: nat)
    requires second <= DecimalDigits && i + 12 <= |s|
    ensures FixedAt(CodePattern(second), s, i, false) <==> IsCode(s[i..i + 12], second)
  {
    var t := s[i..i + 12];
    var p := CodePattern(second);
    assert forall k :: 0 <= k < 12 ==> t[k] == s[i + k];
    if FixedAt(p, s, i, false) {
      assert ClassMatches(p[0], s[i], false) && ClassMatches(p[1], s[i + 1], false);
      forall k | 0 <= k < 12 ensures IsDigit(t[k]) {
        assert ClassMatches(p[k], s[i + k], false);
      }
    }
    if IsCode(t, second) {
      forall k | 0 <= k < 12 ensures ClassMatches(p[k], s[i + k], false) {
        assert IsDigit(t[k]);
      }
    }
  }

  lemma CodePatternEverywhere(s: string, second: set<char>)
    requires second <= DecimalDigits
    ensures forall i :: 0 <= i && i + 12 <= |s| ==> (FixedAt(CodePattern(second), s, i, false) <==> IsCode(Window(s, i), second))
  {
    forall i | 0 <= i && i + 12 <= |s|
      ensures FixedAt(CodePattern(second), s, i, false) <==> IsCode(Window(s, i), second)
    {
      CodePatternAt(s, second, i);
    }
  }

  /** The twelve characters of `s` from `i`. */
  function Window(s: string, i: nat): (w: string)
    requires i + 12 <= |s|
    ensures |w| == 12
  {
    s[i..i + 12]
  }

  /** `t` is the leftmost twelve-character window of `s` of that shape. */
  predicate FirstCodeIn(s: string, t: string, second: set<char>) {
    IsCode(t, second) &&
    exists i :: 0 <= i && i + 12 <= |s| && Window(s, i) == t &&
      forall j :: 0 <= j < i ==> !IsCode(Window(s, j), second)
  }

  predicate NoCodeIn(s: string, second: set<char>) {
    forall j :: 0 <= j && j + 12 <= |s| ==> !IsCode(Window(s, j), second)
  }

  /** The group of the leftmost match of the code pattern; the trailing `[^d]?` is optional and never fails a match. */
  function DetectCode(s: string, second: set<char>): (r: Option<string>)
    requires second <= DecimalDigits
    ensures r.Some? ==> FirstCodeIn(s, r.value, second)
    ensures r.None? ==> NoCodeIn(s, second)
  {
    CodePatternEverywhere(s, second);
    match Find(CodePattern(second), s, 0, false)
    case None => None
    case Some(i) => Some(Window(s, i))
  }

  /** `detect_psc1`: the leftmost PSC1 code in the text. */
  function DetectPsc1(s: string): (r: Option<string>)
    ensures r.Some? ==> FirstCodeIn(s, r.value, CenterDigits)
    ensures r.None? ==> NoCodeIn(s, CenterDigits)
  {
    DetectCode(s, CenterDigits)
  }

  /** `detect_psc2`: the leftmost '0' followed by eleven digits. */
  function DetectPsc2(s: string): (r: Option<string>)
    ensures r.Some? ==> FirstCodeIn(s, r.value, DecimalDigits)
    ensures r.None? ==> NoCodeIn(s, DecimalDigits)
  {
    DetectCode(s, DecimalDigits)
  }

  /** A text holding a PSC1 code somewhere always yields one, and the first one it holds. */
  lemma DetectFindsPsc1(s: string, i: nat)
    requires i + 12 <= |s| && IsPsc1(Window(s, i))
    ensures DetectPsc1(s).Some?
    ensures (forall j :: 0 <= j < i ==> !IsPsc1(Window(s, j))) ==> DetectPsc1(s) == Some(Window(s, i))
  {
    var r := DetectPsc1(s);
    if r.Some? {
      var k :| 0 <= k && k + 12 <= |s| && Window(s, k) == r.value &&
        forall j :: 0 <= j < k ==> !IsCode(Window(s, j), CenterDigits);
      if forall j :: 0 <= j < i ==> !IsPsc1(Window(s, j)) {
        assert k == i;
      }
    }
  }

  // ---------------------------------------------------------------------
  // guess_psc1
  // ---------------------------------------------------------------------

  /** The identifier with its follow-up markers removed, before any padding. */
  function StripFollowUp(subjectId: string): string
  {
    DropMarkers(Split(subjectId, '_')[0])
  }

  /** A leading 'FU2', then one trailing 'FU3', 'FU2' or 'FU', removed whatever their case. */
  function DropMarkers(id0: string): (r: string)
    ensures |r| <= |id0|
  {
    var id1 := if StartsWith(Upper(id0), "FU2") then id0[3..] else id0;
    if EndsWith(Upper(id1), "FU3") || EndsWith(Upper(id1), "FU2") then id1[..|id1| - 3]
    else if EndsWith(Upper(id1), "FU") then id1[..|id1| - 2]
    else id1
  }

  /** The identifier padded into PSC1 shape with the centre number, as `guess_psc1` does by length. */
  function Psc1Candidate(id: string, center: int): string
  {
    if |id| < 10 then "0" + IntToString(center) + RJust(id, 10, '0')
    else if |id| < 11 then "0" + IntToString(center) + id
    else if |id| < 12 then id[0..2] + "0" + id[2..]
    else id
  }

  /** `guess_psc1(subject_id, center)`: the candidate when it is a known PSC1 code. */
  function GuessPsc1(subjectId: string, center: int, psc2FromPsc1: map<string, string>): (r: Option<string>)
    ensures r.Some? ==> r.value in psc2FromPsc1
  {
    var c := Psc1Candidate(StripFollowUp(subjectId), center);
    if c in psc2FromPsc1 then Some(c) else None
  }

  lemma CenterText(center: int)
    requires 1 <= center <= 8
    ensures IntToString(center) == [DigitChar(center)] && DigitChar(center) in CenterDigits
  {
  }

  /** A numeric identifier shorter than eleven digits becomes '0', the centre digit and the identifier zero-padded to ten digits: a PSC1-shaped code. */
  lemma CandidatePadsShortId(id: string, center: int)
    requires AllDigits(id) && |id| <= 10 && 1 <= center <= 8
    ensures var c := Psc1Candidate(id, center);
      IsPsc1(c) && c[1] == DigitChar(center) && c[2..] == RJust(id, 10, '0')
  {
    CenterText(center);
    var c := Psc1Candidate(id, center);
    var padded := RJust(id, 10, '0');
    assert c == "0" + [DigitChar(center)] + padded;
    forall k | 0 <= k < 10 ensures IsDigit(padded[k]) {
      if |id| < 10 && k < 10 - |id| {
        assert padded[k] == '0';
      } else if |id| < 10 {
        assert padded[k] == id[k - (10 - |id|)];
      }
    }
    assert forall k :: 2 <= k < 12 ==> c[k] == padded[k - 2];
  }

  /** An eleven-digit identifier whose first two digits already name a centre gets its missing '0' at index 2. */
  lemma CandidateInsertsZero(id: string, center: int)
    requires AllDigits(id) && |id| == 11 && id[0] == '0' && id[1] in CenterDigits
    ensures var c := Psc1Candidate(id, center); IsPsc1(c) && c[..2] == id[..2] && c[2] == '0' && c[3..] == id[2..]
  {
    var c := Psc1Candidate(id, center);
    assert forall k :: 3 <= k < 12 ==> c[k] == id[k - 1];
  }

  /** The text before the first '_' when what follows starts with one. */
  lemma FirstField(a: string, rest: string)
    requires '_' !in a && (rest == "" || rest[0] == '_')
    ensures Split(a + rest, '_')[0] == a
  {
    if rest == "" {
      SplitNone(a, '_');
      assert a + rest == a;
    } else {
      SplitFirst(a, '_', rest[1..]);
      assert a + rest == a + ['_'] + rest[1..];
    }
  }

  lemma UpperCode(code: string, marker: string)
    requires IsPsc1(code)
    ensures Upper(code + marker) == code + Upper(marker)
  {
    var u := Upper(code + marker);
    forall k | 0 <= k < |u| ensures u[k] == (code + Upper(marker))[k] {
      if k < 12 {
        assert IsDigit(code[k]);
      }
    }
  }

  /** The markers come off a PSC1 code exactly. */
  lemma DropMarkersOfCode(code: string, marker: string)
    requires IsPsc1(code) && Upper(marker) in {"", "FU", "FU2", "FU3"}
    ensures DropMarkers(code + marker) == code
  {
    var id0 := code + marker;
    var up := Upper(id0);
    UpperCode(code, marker);
    assert up[0] == '0';
    assert !StartsWith(up, "FU2");
    var m := Upper(marker);
    var n := |up|;
    assert IsDigit(up[11]);
    if m == "" {
      assert marker == [] && id0 == code && up == code;
      assert IsDigit(code[9]) && up[n - 2..][1] == up[11] && up[n - 3..][0] == up[9];
      assert !EndsWith(up, "FU") && !EndsWith(up, "FU2") && !EndsWith(up, "FU3");
    } else if m == "FU" {
      assert up[n - 3..][2] == 'U';
      assert up[n - 2..] == "FU";
      assert id0[..n - 2] == code;
    } else {
      assert up[n - 3..] == m;
      assert id0[..n - 3] == code;
    }
  }

  /**
   * A PSC1 code followed by a follow-up marker ('FU', 'FU2' or 'FU3' in
   * any case) and by anything after an '_' is guessed as itself when it
   * is a known code.
   */
  lemma GuessRecoversPsc1(code: string, marker: string, rest: string, center: int, psc2FromPsc1: map<string, string>)
    requires IsPsc1(code) && '_' !in marker && Upper(marker) in {"", "FU", "FU2", "FU3"}
    requires rest == "" || rest[0] == '_'
    ensures GuessPsc1(code + marker + rest, center, psc2FromPsc1) == if code in psc2FromPsc1 then Some(code) else None
  {
    assert '_' !in code by {
      forall k | 0 <= k < |code| ensures code[k] != '_' { assert IsDigit(code[k]); }
    }
    FirstField(code + marker, rest);
    DropMarkersOfCode(code, marker);
  }

  // ---------------------------------------------------------------------
  // The PSC1=DAWBA=PSC2 mapping file
  // ---------------------------------------------------------------------

  /** The fields of a line: `line.strip('\n').split('=')`. */
  function Fields(line: string): seq<string> { Split(StripChar(line, '\n'), '=') }

  /** The two tables read from the mapping file. */
  datatype MappingTables = MappingTables(psc2FromPsc1: map<string, string>, psc2FromDawba: map<string, string>)

  const NoTables := MappingTables(map[], map[])

  predicate IsMappingHeader(f: seq<string>) { f == ["PSC1", "DAWBA", "PSC2"] }

  /** A line that contributes a mapping: three fields, and not the header. */
  predicate MappingDataLine(line: string) {
    |Fields(line)| == 3 && !IsMappingHeader(Fields(line))
  }

  /**
   * One line of the mapping file as `_initialize_psc1_dawba_psc2` is
   * evidently meant to read it: a PSC1 code already mapped to another
   * PSC2 code is an inconsistency.
   */
  function MappingLine(t: MappingTables, line: string): (r: Outcome<MappingTables>)
    ensures r.Raised? ==> r.exc == ValueError || r.exc == Failure("inconsistent PSC1/PSC2 mapping")
  {
    var f := Fields(line);
    if |f| != 3 then Raised(ValueError)
    else if IsMappingHeader(f) then Ok(t)
    else if f[0] in t.psc2FromPsc1 && t.psc2FromPsc1[f[0]] != f[2] then Raised(Failure("inconsistent PSC1/PSC2 mapping"))
    else Ok(MappingTables(t.psc2FromPsc1[f[0] := f[2]], t.psc2FromDawba[f[1] := f[2]]))
  }

  /**
   * The same line as the code reads it: the consistency test asks whether
   * the PSC2 code is a key of the PSC1-keyed table, then looks the PSC1
   * code up, which raises KeyError when it is absent.
   */
  function MappingLineAsWritten(t: MappingTables, line: string): (r: Outcome<MappingTables>)
  {
    var f := Fields(line);
    if |f| != 3 then Raised(ValueError)
    else if IsMappingHeader(f) then Ok(t)
    else if f[2] in t.psc2FromPsc1 then
      if f[0] !in t.psc2FromPsc1 then Raised(KeyError)
      else if t.psc2FromPsc1[f[0]] != f[2] then Raised(Failure("inconsistent PSC1/PSC2 mapping"))
      else Ok(MappingTables(t.psc2FromPsc1, t.psc2FromDawba[f[1] := f[2]]))
    else Ok(MappingTables(t.psc2FromPsc1[f[0] := f[2]], t.psc2FromDawba[f[1] := f[2]]))
  }

  /** The tables after reading `lines` from `t` on, stopping at the first exception. */
  function MappingFrom(t: MappingTables, lines: seq<string>, asWritten: bool): Outcome<MappingTables>
    decreases |lines|
  {
    if |lines| == 0 then Ok(t)
    else
      var next := if asWritten then MappingLineAsWritten(t, lines[0]) else MappingLine(t, lines[0]);
      match next
      case Raised(e) => Raised(e)
      case Ok(t') => MappingFrom(t', lines[1..], asWritten)
  }

  /**
   * `_initialize_psc1_dawba_psc2` over the lines of the file. With
   * `asWritten` the consistency test asks about the PSC2 code, as the code
   * does; without it, about the PSC1 code, as the code evidently means.
   */
  method ReadMapping(lines: seq<string>, asWritten: bool) returns (r: Outcome<MappingTables>)
    ensures r == MappingFrom(NoTables, lines, asWritten)
  {
    var psc2FromPsc1: map<string, string> := map[];
    var psc2FromDawba: map<string, string> := map[];
    var i := 0;
    while i < |lines|
      invariant 0 <= i <= |lines|
      invariant MappingFrom(MappingTables(psc2FromPsc1, psc2FromDawba), lines[i..], asWritten) == MappingFrom(NoTables, lines, asWritten)
    {
      assert lines[i..][1..] == lines[i + 1..];
      var f := Fields(lines[i]);
      if |f| != 3 {
        return Raised(ValueError);
      }
      var psc1, dawba, psc2 := f[0], f[1], f[2];
      if psc1 == "PSC1" && dawba == "DAWBA" && psc2 == "PSC2" {
        assert IsMappingHeader(f);
        i := i + 1;
        continue;
      }
      var known := if asWritten then psc2 in psc2FromPsc1 else psc1 in psc2FromPsc1;
      if known {
        if psc1 !in psc2FromPsc1 {
          return Raised(KeyError);
        }
        if psc2FromPsc1[psc1] != psc2 {
          return Raised(Failure("inconsistent PSC1/PSC2 mapping"));
        }
        assert psc2FromPsc1[psc1 := psc2] == psc2FromPsc1;
      } else {
        psc2FromPsc1 := psc2FromPsc1[psc1 := psc2];
      }
      psc2FromDawba := psc2FromDawba[dawba := psc2];
      i := i + 1;
    }
    r := Ok(MappingTables(psc2FromPsc1, psc2FromDawba));
  }

  /**
   * When the file reads without exception, every line has three fields
   * and every mapping line is kept: each PSC1 code maps to the PSC2 code
   * of its line (so all its lines agree), and earlier entries stay.
   */
  lemma {:induction false} MappingAgreesWithLines(t: MappingTables, lines: seq<string>, t': MappingTables)
    requires MappingFrom(t, lines, false) == Ok(t')
    ensures forall k :: 0 <= k < |lines| ==> |Fields(lines[k])| == 3
    ensures forall k :: 0 <= k < |lines| && MappingDataLine(lines[k]) ==>
      Fields(lines[k])[0] in t'.psc2FromPsc1 && t'.psc2FromPsc1[Fields(lines[k])[0]] == Fields(lines[k])[2]
    ensures forall p :: p in t.psc2FromPsc1 ==> p in t'.psc2FromPsc1 && t'.psc2FromPsc1[p] == t.psc2FromPsc1[p]
    decreases |lines|
  {
    if |lines| > 0 {
      var u := MappingLine(t, lines[0]).value;
      MappingAgreesWithLines(u, lines[1..], t');
      forall k | 1 <= k < |lines| ensures lines[k] == lines[1..][k - 1] { }
    }
  }

  /** A DAWBA code no line names keeps its entry. */
  lemma {:induction false} MappingKeepsDawba(t: MappingTables, lines: seq<string>, t': MappingTables, d: string)
    requires MappingFrom(t, lines, false) == Ok(t') && d in t.psc2FromDawba
    requires forall j :: 0 <= j < |lines| && MappingDataLine(lines[j]) ==> Fields(lines[j])[1] != d
    ensures d in t'.psc2FromDawba && t'.psc2FromDawba[d] == t.psc2FromDawba[d]
    decreases |lines|
  {
    if |lines| > 0 {
      var u := MappingLine(t, lines[0]).value;
      assert !MappingDataLine(lines[0]) ==> u == t;
      forall j | 0 <= j < |lines[1..]| && MappingDataLine(lines[1..][j]) ensures Fields(lines[1..][j])[1] != d {
        assert lines[1..][j] == lines[j + 1];
      }
      MappingKeepsDawba(u, lines[1..], t', d);
    }
  }

  /** Each DAWBA code maps to the PSC2 code of the last line naming it. */
  lemma {:induction false} MappingLastDawbaWins(t: MappingTables, lines: seq<string>, t': MappingTables, k: nat)
    requires MappingFrom(t, lines, false) == Ok(t') && k < |lines| && MappingDataLine(lines[k]) && LastDawbaLine(lines, k)
    ensures Fields(lines[k])[1] in t'.psc2FromDawba && t'.psc2FromDawba[Fields(lines[k])[1]] == Fields(lines[k])[2]
    decreases |lines|
  {
    var u := MappingLine(t, lines[0]).value;
    if k > 0 {
      assert lines[1..][k - 1] == lines[k];
      forall j | k - 1 < j < |lines[1..]| && MappingDataLine(lines[1..][j])
        ensures Fields(lines[1..][j])[1] != Fields(lines[1..][k - 1])[1]
      {
        assert lines[1..][j] == lines[j + 1];
      }
      MappingLastDawbaWins(u, lines[1..], t', k - 1);
    } else {
      forall j | 0 <= j < |lines[1..]| && MappingDataLine(lines[1..][j]) ensures Fields(lines[1..][j])[1] != Fields(lines[0])[1] {
        assert lines[1..][j] == lines[j + 1];
      }
      MappingKeepsDawba(u, lines[1..], t', Fields(lines[0])[1]);
    }
  }

  /** No later mapping line names the same DAWBA code as line `k`. */
  predicate LastDawbaLine(lines: seq<string>, k: nat)
    requires k < |lines|
  {
    forall j :: k < j < |lines| && MappingDataLine(lines[j]) && MappingDataLine(lines[k]) ==>
      Fields(lines[j])[1] != Fields(lines[k])[1]
  }

  /**
   * The code as written lets a PSC1 code be remapped: for the lines
   * `A=D1=X` and `A=D2=Y` it silently maps A to Y, where the evident
   * intent (and the corrected reading) is to raise.
   */
  lemma MappingAsWrittenRemaps()
    ensures MappingFrom(NoTables, ["A=D1=X", "A=D2=Y"], true) == Ok(MappingTables(map["A" := "Y"], map["D1" := "X", "D2" := "Y"]))
    ensures MappingFrom(NoTables, ["A=D1=X", "A=D2=Y"], false) == Raised(Failure("inconsistent PSC1/PSC2 mapping"))
  {
    var lines := ["A=D1=X", "A=D2=Y"];
    var t1 := MappingTables(map["A" := "X"], map["D1" := "X"]);
    var t2 := MappingTables(map["A" := "Y"], map["D1" := "X", "D2" := "Y"]);
    RemapFirstLine(t1);
    RemapSecondLine(t1, t2);
    assert lines[1..] == ["A=D2=Y"] && lines[1..][1..] == [];
    assert MappingFrom(t2, [], true) == Ok(t2);
    assert MappingFrom(t1, lines[1..], true) == Ok(t2);
  }

  /** The first line of the remapping example. */
  lemma RemapFirstLine(t1: MappingTables)
    requires t1 == MappingTables(map["A" := "X"], map["D1" := "X"])
    ensures MappingLineAsWritten(NoTables, "A=D1=X") == Ok(t1) && MappingLine(NoTables, "A=D1=X") == Ok(t1)
  {
    FieldsOfLine("A", "D1", "X");
    assert "A" + "=" + "D1" + "=" + "X" == "A=D1=X";
  }

  /** The second line of the remapping example. */
  lemma RemapSecondLine(t1: MappingTables, t2: MappingTables)
    requires t1 == MappingTables(map["A" := "X"], map["D1" := "X"])
    requires t2 == MappingTables(map["A" := "Y"], map["D1" := "X", "D2" := "Y"])
    ensures MappingLineAsWritten(t1, "A=D2=Y") == Ok(t2)
    ensures MappingLine(t1, "A=D2=Y") == Raised(Failure("inconsistent PSC1/PSC2 mapping"))
  {
    SecondLineFields();
    RemapSecondTables(t1, t2);
    assert "Y" !in t1.psc2FromPsc1;
    assert MappingLineAsWritten(t1, "A=D2=Y") == Ok(t2);
    assert "A" in t1.psc2FromPsc1 && t1.psc2FromPsc1["A"] != "Y";
  }

  /** The second line of the remapping example is a data line with three fields. */
  lemma SecondLineFields()
    ensures Fields("A=D2=Y") == ["A", "D2", "Y"] && !IsMappingHeader(Fields("A=D2=Y"))
  {
    FieldsOfLine("A", "D2", "Y");
    assert "A" + "=" + "D2" + "=" + "Y" == "A=D2=Y";
    assert "A" != "PSC1";
  }

  /** The tables the second line of the remapping example leads to. */
  lemma RemapSecondTables(t1: MappingTables, t2: MappingTables)
    requires t1 == MappingTables(map["A" := "X"], map["D1" := "X"])
    requires t2 == MappingTables(map["A" := "Y"], map["D1" := "X", "D2" := "Y"])
    ensures t2 == MappingTables(t1.psc2FromPsc1["A" := "Y"], t1.psc2FromDawba["D2" := "Y"])
  {
    assert t1.psc2FromPsc1["A" := "Y"] == t2.psc2FromPsc1;
    assert t1.psc2FromDawba["D2" := "Y"] == t2.psc2FromDawba;
  }

  /** The fields of a three-field line without newlines. */
  lemma FieldsOfLine(a: string, b: string, c: string)
    requires '=' !in a && '=' !in b && '=' !in c && '\n' !in a && '\n' !in c
    ensures Fields(a + "=" + b + "=" + c) == [a, b, c]
  {
    var tail := b + ['='] + c;
    var line := a + ['='] + tail;
    assert a + "=" + b + "=" + c == line;
    assert line[0] == if |a| > 0 then a[0] else '=';
    assert line[|line| - 1] == tail[|tail| - 1] == if |c| > 0 then c[|c| - 1] else '=';
    StripNoNewline(line);
    SplitFirst(a, '=', tail);
    SplitFirst(b, '=', c);
    SplitNone(c, '=');
  }

  lemma StripNoNewline(line: string)
    requires |line| > 0 && line[0] != '\n' && line[|line| - 1] != '\n'
    ensures StripChar(line, '\n') == line
  {
  }

  /** A line read with its end of line: the newline is stripped before splitting. */
  lemma FieldsOfNewlineLine(line: string)
    requires |line| > 0 && line[0] != '\n' && line[|line| - 1] != '\n'
    ensures Fields(line + "\n") == Fields(line)
  {
    var l := line + "\n";
    assert l[0] == line[0] && l[..|l| - 1] == line;
    StripNoNewline(line);
  }

  // ---------------------------------------------------------------------
  // The date-of-birth file
  // ---------------------------------------------------------------------

  /** The number of digits of `s` from `i`, at most `max` of them: a greedy `\d{1,max}`. */
  function DigitsAt(s: string, i: nat, max: nat): (n: nat)
    requires i <= |s|
    ensures n <= max && i + n <= |s|
    ensures forall j :: i <= j < i + n ==> IsDigit(s[j])
    ensures n < max && i + n < |s| ==> !IsDigit(s[i + n])
    decreases max
  {
    if max > 0 && i < |s| && IsDigit(s[i]) then 1 + DigitsAt(s, i + 1, max - 1) else 0
  }

  lemma {:induction false} DigitsAtExact(s: string, i: nat, max: nat, n: nat)
    requires n <= max && i + n <= |s| && forall j :: i <= j < i + n ==> IsDigit(s[j])
    requires n == max || i + n == |s| || !IsDigit(s[i + n])
    ensures DigitsAt(s, i, max) == n
    decreases n
  {
    if n > 0 {
      DigitsAtExact(s, i + 1, max - 1, n - 1);
    }
  }

  /** A text of digits at `i` is read in full when it is `max` long or no digit follows it. */
  lemma DigitsAtText(s: string, i: nat, t: string, max: nat)
    requires i + |t| <= |s| && s[i..i + |t|] == t && AllDigits(t) && |t| <= max
    requires |t| == max || i + |t| == |s| || !IsDigit(s[i + |t|])
    ensures DigitsAt(s, i, max) == |t|
  {
    forall j | i <= j < i + |t| ensures IsDigit(s[j]) {
      assert s[j] == s[i..i + |t|][j - i];
    }
    DigitsAtExact(s, i, max, |t|);
  }

  lemma DigitsSlice(s: string, i: nat, n: nat)
    requires i + n <= |s| && forall j :: i <= j < i + n ==> IsDigit(s[j])
    ensures AllDigits(s[i..i + n])
  {
    var t := s[i..i + n];
    forall k | 0 <= k < |t| ensures IsDigit(t[k]) {
      assert t[k] == s[i + k];
    }
  }

  predicate IsDateSep(c: char) { c == '.' || c == '/' }

  /**
   * `_REGEX_DOB.match(dob)` with `(\d{1,2})[./](\d{1,2})[./](\d{2,4})`:
   * the day, month and year groups as numbers. Backtracking to a shorter
   * day or month group never helps, since the character after it would
   * be a digit rather than a separator; the year group ends the pattern
   * and takes all the digits it can.
   */
  function DobFields(dob: string): Option<(nat, nat, nat)>
  {
    var a := DigitsAt(dob, 0, 2);
    if a == 0 || a == |dob| || !IsDateSep(dob[a]) then None
    else
      var b := DigitsAt(dob, a + 1, 2);
      if b == 0 || a + 1 + b == |dob| || !IsDateSep(dob[a + 1 + b]) then None
      else
        var y := DigitsAt(dob, a + b + 2, 4);
        if y < 2 then None
        else Some(DobGroups(dob, a, b, y))
  }

  /** The values of the day, month and year groups once their digit runs are known. */
  function DobGroups(dob: string, a: nat, b: nat, y: nat): (nat, nat, nat)
    requires a + b + 2 + y <= |dob|
    requires forall j :: 0 <= j < a ==> IsDigit(dob[j])
    requires forall j :: a + 1 <= j < a + 1 + b ==> IsDigit(dob[j])
    requires forall j :: a + b + 2 <= j < a + b + 2 + y ==> IsDigit(dob[j])
  {
    DigitsSlice(dob, 0, a);
    DigitsSlice(dob, a + 1, b);
    DigitsSlice(dob, a + b + 2, y);
    (DigitsValue(dob[0..a]), DigitsValue(dob[a + 1..a + 1 + b]), DigitsValue(dob[a + b + 2..a + b + 2 + y]))
  }

  /** The match once the three digit runs and the two separators are known. */
  lemma DobFieldsOf(dob: string, a: nat, b: nat, y: nat)
    requires a < |dob| && DigitsAt(dob, 0, 2) == a && a >= 1 && IsDateSep(dob[a])
    requires a + 1 + b < |dob| && DigitsAt(dob, a + 1, 2) == b && b >= 1 && IsDateSep(dob[a + 1 + b])
    requires DigitsAt(dob, a + b + 2, 4) == y && y >= 2
    ensures AllDigits(dob[0..a]) && AllDigits(dob[a + 1..a + 1 + b]) && AllDigits(dob[a + b + 2..a + b + 2 + y])
    ensures DobFields(dob) == Some((DigitsValue(dob[0..a]), DigitsValue(dob[a + 1..a + 1 + b]), DigitsValue(dob[a + b + 2..a + b + 2 + y])))
  {
    assert DobFields(dob) == Some(DobGroups(dob, a, b, y));
    DigitsSlice(dob, 0, a);
    DigitsSlice(dob, a + 1, b);
    DigitsSlice(dob, a + b + 2, y);
  }

  lemma DobTextParts(d: string, s1: char, m: string, s2: char, yt: string, rest: string)
    requires |d| == 2 && |m| == 2
    ensures var dob := d + [s1] + m + [s2] + yt + rest;
      dob[0..2] == d && dob[2] == s1 && dob[3..5] == m && dob[5] == s2 && dob[6..6 + |yt|] == yt &&
      (|rest| > 0 ==> dob[6 + |yt|] == rest[0])
  {
  }

  /** A day and month of two digits and a year of two to four digits read back, whatever follows the year's digits. */
  lemma DobFieldsRead(day: nat, month: nat, s1: char, s2: char, yt: string, rest: string)
    requires day < 100 && month < 100 && IsDateSep(s1) && IsDateSep(s2)
    requires AllDigits(yt) && 2 <= |yt| <= 4 && (|yt| == 4 || rest == [] || !IsDigit(rest[0]))
    ensures DobFields(Pad2(day) + [s1] + Pad2(month) + [s2] + yt + rest) == Some((day, month, DigitsValue(yt)))
  {
    var dob := Pad2(day) + [s1] + Pad2(month) + [s2] + yt + rest;
    DobTextParts(Pad2(day), s1, Pad2(month), s2, yt, rest);
    DigitsAtText(dob, 0, Pad2(day), 2);
    DigitsAtText(dob, 3, Pad2(month), 2);
    DigitsAtText(dob, 6, yt, 4);
    DobFieldsOf(dob, 2, 2, |yt|);
  }

  /**
   * One line `psc2=dob=when` of the date-of-birth file: a two-digit year
   * is in the 1900s, a year outside 1900-2012 or a date the regular
   * expression does not match raises, and an impossible date raises
   * ValueError as `datetime.date` does.
   */
  function DobLine(line: string): (r: Outcome<(string, Date)>)
    ensures r.Ok? ==> Valid(r.value.1) && 1900 <= r.value.1.year <= 2012
    ensures r.Raised? ==> r.exc == ValueError || r.exc.Failure?
  {
    var f := Fields(line);
    if |f| != 3 then Raised(ValueError)
    else match DobFields(f[1])
      case None => Raised(Failure("unexpected line in DOB.csv: " + line))
      case Some((day, month, y)) =>
        var year := if y < 100 then y + 1900 else y;
        if year > 2012 || year < 1900 then Raised(Failure("unexpected date of birth: " + f[1]))
        else if !Valid(Date(year, month, day)) then Raised(ValueError)
        else Ok((f[0], Date(year, month, day)))
  }

  /** A line written as `psc2=DD.MM.YYYY=when` reads back as that subject's date of birth. */
  lemma DobLineReads(psc2: string, date: Date, s1: char, s2: char, when: string)
    requires Valid(date) && 1900 <= date.year <= 2012 && IsDateSep(s1) && IsDateSep(s2)
    requires '=' !in psc2 && '=' !in when && '\n' !in psc2 && '\n' !in when
    ensures var dob := Pad2(date.day) + [s1] + Pad2(date.month) + [s2] + Pad4(date.year);
      DobLine(psc2 + "=" + dob + "=" + when + "\n") == Ok((psc2, date))
  {
    var y := Pad4(date.year);
    var dob := Pad2(date.day) + [s1] + Pad2(date.month) + [s2] + y;
    DobHasNoEquals(date, s1, s2);
    FieldsOfDobLine(psc2, dob, when);
    DobFieldsRead(date.day, date.month, s1, s2, y, []);
    assert dob + [] == dob;
    DobLineOf(psc2 + "=" + dob + "=" + when + "\n", psc2, dob, date);
  }

  /** A line whose second field matches as the fields of a valid date of birth reads back as that date. */
  lemma DobLineOf(line: string, psc2: string, dob: string, date: Date)
    requires |Fields(line)| == 3 && Fields(line)[0] == psc2 && Fields(line)[1] == dob
    requires DobFields(dob) == Some((date.day, date.month, date.year))
    requires Valid(date) && 1900 <= date.year <= 2012
    ensures DobLine(line) == Ok((psc2, date))
  {
  }

  lemma DobHasNoEquals(date: Date, s1: char, s2: char)
    requires Valid(date) && IsDateSep(s1) && IsDateSep(s2)
    ensures '=' !in Pad2(date.day) + [s1] + Pad2(date.month) + [s2] + Pad4(date.year)
  {
    var d := Pad2(date.day);
    var m := Pad2(date.month);
    var y := Pad4(date.year);
    assert '=' !in d && '=' !in m && '=' !in y;
  }

  lemma FieldsOfDobLine(psc2: string, dob: string, when: string)
    requires '=' !in psc2 && '=' !in dob && '=' !in when && '\n' !in psc2 && '\n' !in when
    ensures Fields(psc2 + "=" + dob + "=" + when + "\n") == [psc2, dob, when]
  {
    FieldsOfLine(psc2, dob, when);
    var line := psc2 + "=" + dob + "=" + when;
    assert line[0] == if |psc2| > 0 then psc2[0] else '=';
    assert line[|line| - 1] == if |when| > 0 then when[|when| - 1] else '=';
    FieldsOfNewlineLine(line);
  }

  /** What each line of the file reads as. */
  function DobEntries(lines: seq<string>): (r: seq<Outcome<(string, Date)>>)
    ensures |r| == |lines| && forall k :: 0 <= k < |lines| ==> r[k] == DobLine(lines[k])
  {
    seq(|lines|, k requires 0 <= k < |lines| => DobLine(lines[k]))
  }

  /** Entries applied to `t` in order; the first exception ends the reading, and a later entry for a code replaces an earlier one. */
  function Upsert(t: map<string, Date>, entries: seq<Outcome<(string, Date)>>): Outcome<map<string, Date>>
    decreases |entries|
  {
    if |entries| == 0 then Ok(t)
    else match entries[0]
      case Raised(e) => Raised(e)
      case Ok((psc2, date)) => Upsert(t[psc2 := date], entries[1..])
  }

  /** `_initialize_dob` over the lines of the file. */
  method ReadDob(lines: seq<string>) returns (r: Outcome<map<string, Date>>)
    ensures r == Upsert(map[], DobEntries(lines))
  {
    ghost var entries := DobEntries(lines);
    var dobFromPsc2: map<string, Date> := map[];
    var i := 0;
    while i < |lines|
      invariant 0 <= i <= |lines|
      invariant Upsert(dobFromPsc2, entries[i..]) == Upsert(map[], entries)
    {
      assert entries[i..][1..] == entries[i + 1..];
      var parsed := DobLine(lines[i]);
      assert parsed == entries[i..][0];
      if parsed.Raised? {
        return Raised(parsed.exc);
      }
      var (psc2, date) := parsed.value;
      dobFromPsc2 := dobFromPsc2[psc2 := date];
      i := i + 1;
    }
    r := Ok(dobFromPsc2);
  }

  /** No later entry is about the same code as entry `k`. */
  predicate LastEntry(entries: seq<Outcome<(string, Date)>>, k: nat)
    requires k < |entries| && entries[k].Ok?
  {
    forall j :: k < j < |entries| && entries[j].Ok? ==> entries[j].value.0 != entries[k].value.0
  }

  /** A code no entry is about keeps its date. */
  lemma {:induction false} UpsertKeeps(t: map<string, Date>, entries: seq<Outcome<(string, Date)>>, t': map<string, Date>, p: string)
    requires Upsert(t, entries) == Ok(t') && p in t
    requires forall j :: 0 <= j < |entries| && entries[j].Ok? ==> entries[j].value.0 != p
    ensures p in t' && t'[p] == t[p]
    decreases |entries|
  {
    if |entries| > 0 {
      var (psc2, date) := entries[0].value;
      assert forall j :: 0 <= j < |entries[1..]| ==> entries[1..][j] == entries[j + 1];
      UpsertKeeps(t[psc2 := date], entries[1..], t', p);
    }
  }

  /**
   * When the file reads without exception every line is a valid entry,
   * and each code has the date of the last line about it.
   */
  lemma {:induction false} UpsertLastWins(t: map<string, Date>, entries: seq<Outcome<(string, Date)>>, t': map<string, Date>, k: nat)
    requires Upsert(t, entries) == Ok(t') && k < |entries|
    ensures entries[k].Ok?
    ensures LastEntry(entries, k) ==> entries[k].value.0 in t' && t'[entries[k].value.0] == entries[k].value.1
    decreases |entries|
  {
    var (psc2, date) := entries[0].value;
    assert forall j :: 0 <= j < |entries[1..]| ==> entries[1..][j] == entries[j + 1];
    if k > 0 {
      UpsertLastWins(t[psc2 := date], entries[1..], t', k - 1);
    } else if LastEntry(entries, 0) {
      UpsertKeeps(t[psc2 := date], entries[1..], t', psc2);
    }
  }

  /** The table the file gives: every line was a valid date of birth, and each code has its last one. */
  lemma DobTable(lines: seq<string>, t': map<string, Date>, k: nat)
    requires Upsert(map[], DobEntries(lines)) == Ok(t') && k < |lines|
    ensures DobLine(lines[k]).Ok?
    ensures LastEntry(DobEntries(lines), k) ==> DobLine(lines[k]).value.0 in t' && t'[DobLine(lines[k]).value.0] == DobLine(lines[k]).value.1
  {
    UpsertLastWins(map[], DobEntries(lines), t', k);
  }

  // ---------------------------------------------------------------------
  // PSC1_FROM_PSC2
  // ---------------------------------------------------------------------

  /**
   * `{v: k for k, v in table.items()}` over the items in the table's
   * insertion order: when two codes share a value the later one wins.
   */
  function Invert(items: seq<(string, string)>): (inv: map<string, string>)
    ensures forall v :: v in inv ==> exists k :: 0 <= k < |items| && items[k] == (inv[v], v)
    ensures forall k :: 0 <= k < |items| ==> items[k].1 in inv
  {
    if |items| == 0 then map[]
    else
      var last := items[|items| - 1];
      var inv := Invert(items[..|items| - 1]);
      assert forall k :: 0 <= k < |items| - 1 ==> items[..|items| - 1][k] == items[k];
      inv[last.1 := last.0]
  }

  /** The items of a dict with the contents of `m`, each key once. */
  predicate ItemsOf(items: seq<(string, string)>, m: map<string, string>) {
    (forall k :: 0 <= k < |items| ==> items[k].0 in m && m[items[k].0] == items[k].1) &&
    (forall key :: key in m ==> exists k :: 0 <= k < |items| && items[k].0 == key)
  }

  /**
   * PSC1_FROM_PSC2 inverts PSC2_FROM_PSC1: its keys are exactly the PSC2
   * codes in use, each maps back to a PSC1 code that maps to it, and when
   * no two PSC1 codes share a PSC2 code it undoes the table exactly.
   */
  lemma InvertInverts(items: seq<(string, string)>, m: map<string, string>)
    requires ItemsOf(items, m)
    ensures forall v :: v in Invert(items) <==> v in m.Values
    ensures forall v :: v in Invert(items) ==> Invert(items)[v] in m && m[Invert(items)[v]] == v
    ensures (forall a, b :: a in m && b in m && m[a] == m[b] ==> a == b) ==>
      forall key :: key in m ==> m[key] in Invert(items) && Invert(items)[m[key]] == key
  {
    var inv := Invert(items);
    forall v | v in m.Values ensures v in inv {
      var key :| key in m && m[key] == v;
      var k :| 0 <= k < |items| && items[k].0 == key;
    }
  }

  // ---------------------------------------------------------------------
  // Error
  // ---------------------------------------------------------------------

  /**
   * A parse error of a Cantab or behavioural file. Absent and empty
   * values are both falsy for `__str__`.
   */
  datatype Error = Error(path: Option<string>, message: string, sample: Option<string>)

  const SampleLen := 30

  predicate Present(v: Option<string>) { v.Some? && |v.value| > 0 }

  /**
   * A character `str.isprintable` rejects, which `repr` escapes: those of
   * the Unicode categories Cc, Cf, Co, Cn, Zl, Zp and Zs other than the
   * space. Decided exactly up to U+00FF; above it, the space separators,
   * the line and paragraph separators, the format characters listed, the
   * private use areas and the noncharacters.
   */
  predicate Unprintable(c: char)
  {
    var n := c as int;
    n < 0x20 || (0x7f <= n <= 0xa0) || n == 0xad
    || (0x600 <= n <= 0x605) || n == 0x61c || n == 0x6dd || n == 0x70f || n == 0x1680 || n == 0x180e
    || (0x2000 <= n <= 0x200f) || (0x2028 <= n <= 0x202f) || (0x205f <= n <= 0x2064) || (0x2066 <= n <= 0x206f)
    || n == 0x3000 || (0xe000 <= n <= 0xf8ff) || (0xfdd0 <= n <= 0xfdef) || n == 0xfeff
    || (0xfff9 <= n <= 0xfffb) || n % 0x10000 >= 0xfffe
    || n == 0x110bd || (0x1d173 <= n <= 0x1d17a) || n == 0xe0001 || (0xe0020 <= n <= 0xe007f)
    || n >= 0xf0000
  }

  function Pow16(w: nat): (p: nat)
    ensures p >= 1
  {
    if w == 0 then 1 else 16 * Pow16(w - 1)
  }

  function HexDigit(d: nat): (c: char)
    requires d < 16
  {
    if d < 10 then ('0' as int + d) as char else ('a' as int + d - 10) as char
  }

  function HexDigitValue(c: char): nat
  {
    if '0' <= c <= '9' then c as int - '0' as int
    else if 'a' <= c <= 'f' then c as int - 'a' as int + 10
    else 0
  }

  /** `n` in `w` lower-case hexadecimal digits, as `repr` writes a code point. */
  function Hex(n: nat, w: nat): (h: string)
    requires n < Pow16(w)
    ensures |h| == w && forall k :: 0 <= k < w ==> h[k] != '\\'
    decreases w
  {
    if w == 0 then ""
    else
      assert n / 16 < Pow16(w - 1);
      Hex(n / 16, w - 1) + [HexDigit(n % 16)]
  }

  /** The number hexadecimal digits stand for. */
  function HexValue(h: string): nat
  {
    if |h| == 0 then 0 else HexValue(h[..|h| - 1]) * 16 + HexDigitValue(h[|h| - 1])
  }

  lemma {:induction false} HexRoundTrip(n: nat, w: nat)
    requires n < Pow16(w)
    ensures HexValue(Hex(n, w)) == n
    decreases w
  {
    if w > 0 {
      assert n / 16 < Pow16(w - 1);
      var h := Hex(n, w);
      HexRoundTrip(n / 16, w - 1);
      assert h[..w - 1] == Hex(n / 16, w - 1);
      assert HexDigitValue(HexDigit(n % 16)) == n % 16;
    }
  }

  /** The `\x`, `\u` or `\U` escape of an unprintable character. */
  function Escape(c: char): (e: string)
    ensures 4 <= |e| <= 10 && e[0] == '\\' && e[1] in "xuU" && HexValue(e[2..]) == c as int
  {
    var n := c as int;
    if n <= 0xff then HexRoundTrip(n, 2); "\\x" + Hex(n, 2)
    else if n <= 0xffff then HexRoundTrip(n, 4); "\\u" + Hex(n, 4)
    else HexRoundTrip(n, 8); "\\U" + Hex(n, 8)
  }

  /**
   * The escape `repr` writes for one character inside quotes `q`: the
   * character itself exactly when it is printable and neither the quote
   * nor a backslash.
   */
  function ReprChar(c: char, q: char): (e: string)
    ensures 1 <= |e| <= 10
    ensures e == [c] <==> !Unprintable(c) && c != q && c != '\\'
    ensures |e| > 1 ==> e[0] == '\\'
  {
    if c == '\\' then "\\\\"
    else if c == q then ['\\', q]
    else if c == '\n' then "\\n"
    else if c == '\r' then "\\r"
    else if c == '\t' then "\\t"
    else if Unprintable(c) then Escape(c)
    else [c]
  }

  function ReprBody(s: string, q: char): (r: string)
    ensures |s| <= |r| <= 10 * |s|
  {
    if |s| == 0 then "" else ReprChar(s[0], q) + ReprBody(s[1..], q)
  }

  /** `repr(s)`: single quotes unless the text holds a single quote and no double quote. */
  function Repr(s: string): (r: string)
    ensures |s| + 2 <= |r| <= 10 * |s| + 2
  {
    var q := ReprQuote(s);
    [q] + ReprBody(s, q) + [q]
  }

  function ReprQuote(s: string): (q: char)
    ensures q == '\'' || q == '"'
  {
    if '\'' in s && '"' !in s then '"' else '\''
  }

  /** The character of code point `n`, when there is one. */
  function CodeChar(n: nat): char
  {
    if n < 0xd800 || 0xe000 <= n < 0x110000 then n as char else '?'
  }

  /** Reading the text between the quotes of a `repr` back. */
  function UnreprBody(t: string): string
    decreases |t|
  {
    if |t| == 0 then ""
    else if t[0] == '\\' && |t| >= 2 then
      if t[1] == 'n' then "\n" + UnreprBody(t[2..])
      else if t[1] == 'r' then "\r" + UnreprBody(t[2..])
      else if t[1] == 't' then "\t" + UnreprBody(t[2..])
      else if t[1] == 'x' && |t| >= 4 then [CodeChar(HexValue(t[2..4]))] + UnreprBody(t[4..])
      else if t[1] == 'u' && |t| >= 6 then [CodeChar(HexValue(t[2..6]))] + UnreprBody(t[6..])
      else if t[1] == 'U' && |t| >= 10 then [CodeChar(HexValue(t[2..10]))] + UnreprBody(t[10..])
      else [t[1]] + UnreprBody(t[2..])
    else [t[0]] + UnreprBody(t[1..])
  }

  /** `ast.literal_eval` of a `repr`: the text between the quotes, read back. */
  function Unrepr(r: string): string
  {
    if |r| < 2 then "" else UnreprBody(r[1..|r| - 1])
  }

  /** One character's escape reads back as that character. */
  lemma UnreprChar(c: char, q: char, rest: string)
    requires q == '\'' || q == '"'
    ensures UnreprBody(ReprChar(c, q) + rest) == [c] + UnreprBody(rest)
  {
    var e := ReprChar(c, q);
    if c != '\\' && c != q && c != '\n' && c != '\r' && c != '\t' && Unprintable(c) {
      UnreprEscape(c, rest);
    } else if |e| == 2 {
      assert (e + rest)[2..] == rest;
    } else {
      assert (e + rest)[1..] == rest;
    }
  }

  lemma UnreprEscape(c: char, rest: string)
    ensures UnreprBody(Escape(c) + rest) == [c] + UnreprBody(rest)
  {
    var e := Escape(c);
    var t := e + rest;
    var w := |e| - 2;
    assert t[0] == '\\' && t[1] == e[1];
    assert t[2..2 + w] == e[2..];
    assert t[2 + w..] == rest;
    assert CodeChar(c as int) == c;
  }

  /** The text between the quotes reads back as the string. */
  lemma {:induction false} UnreprBodyRoundTrip(s: string, q: char)
    requires q == '\'' || q == '"'
    ensures UnreprBody(ReprBody(s, q)) == s
  {
    if |s| > 0 {
      UnreprBodyRoundTrip(s[1..], q);
      UnreprChar(s[0], q, ReprBody(s[1..], q));
      assert [s[0]] + s[1..] == s;
    }
  }

  /** `repr` loses nothing: every string reads back from its repr. */
  lemma ReprRoundTrip(s: string)
    ensures Unrepr(Repr(s)) == s
  {
    var q := ReprQuote(s);
    var r := Repr(s);
    assert r[1..|r| - 1] == ReprBody(s, q);
    UnreprBodyRoundTrip(s, q);
  }

  /** An unprintable character before plain text: its escape, then the text as it is. */
  lemma ReprEscapedThenPlain(c: char, s: string)
    requires Unprintable(c) && c != '\n' && c != '\r' && c != '\t'
    requires forall k :: 0 <= k < |s| ==> !Unprintable(s[k]) && s[k] != '\\' && s[k] != '\''
    ensures Repr([c] + s) == "'" + Escape(c) + s + "'"
  {
    PlainBody(s, '\'');
    ReprCons(c, s);
    assert ReprChar(c, '\'') == Escape(c);
  }

  /** A character before a text with no single quote, in single quotes. */
  lemma ReprCons(c: char, s: string)
    requires c != '\'' && '\'' !in s
    ensures Repr([c] + s) == "'" + ReprChar(c, '\'') + ReprBody(s, '\'') + "'"
  {
    var t := [c] + s;
    var e, body := ReprChar(c, '\''), ReprBody(s, '\'');
    assert ReprQuote(t) == '\'' by {
      assert '\'' !in t;
    }
    assert ReprBody(t, '\'') == e + body by {
      assert t[0] == c && t[1..] == s;
    }
    assert Repr(t) == "'" + (e + body) + "'";
    assert "'" + (e + body) + "'" == "'" + e + body + "'";
  }

  /** A byte-order mark is escaped with its code point, as `repr` does: `'\\ufeffabc'`. */
  lemma ReprEscapesMark()
    ensures Repr("\U{FEFF}abc") == "'" + "\\ufeff" + "abc" + "'"
    ensures |Repr("\U{FEFF}abc")| == 11
  {
    EscapeMark();
    ReprEscapedThenPlain('\U{FEFF}', "abc");
    assert ['\U{FEFF}'] + "abc" == "\U{FEFF}abc";
  }

  lemma EscapeMark()
    ensures Escape('\U{FEFF}') == "\\ufeff"
  {
    assert Hex(0xf, 1) == "f";
    assert Hex(0xfe, 2) == "fe";
    assert Hex(0xfef, 3) == "fef";
    assert Hex(0xfeff, 4) == "feff";
  }

  /** A form feed is escaped as `'\\x0c'`, as `repr` does. */
  lemma ReprEscapesFormFeed()
    ensures Repr("\U{000C}") == "'\\x0c'"
  {
    assert Hex(0, 1) == "0";
    assert Hex(0xc, 2) == "0c";
    assert ReprChar('\U{000C}', '\'') == "\\x0c";
    assert ReprBody("\U{000C}", '\'') == "\\x0c" + ReprBody("", '\'');
  }

  /** The sample as shown: its repr, cut to 30 characters plus '...' when longer. */
  function Shown(sample: string): (r: string)
    ensures |r| <= SampleLen + 3
    ensures |Repr(sample)| <= SampleLen ==> r == Repr(sample)
    ensures |Repr(sample)| > SampleLen ==> r == Repr(sample)[..SampleLen] + "..."
  {
    var r := Repr(sample);
    if |r| > SampleLen then r[..SampleLen] + "..." else r
  }

  /** `str(error)` */
  function ErrorText(e: Error): (r: string)
    ensures Present(e.path) && Present(e.sample) ==> r == e.message + ": <" + Shown(e.sample.value) + ">: " + e.path.value
    ensures Present(e.path) && !Present(e.sample) ==> r == e.message + ": " + e.path.value
    ensures !Present(e.path) ==> r == e.message
  {
    if Present(e.path) then
      if Present(e.sample) then e.message + ": <" + Shown(e.sample.value) + ">: " + e.path.value
      else e.message + ": " + e.path.value
    else e.message
  }

  /** Printable text with no backslash and no single quote is shown between single quotes as it is. */
  lemma {:induction false} ReprPlain(s: string)
    requires forall k :: 0 <= k < |s| ==> !Unprintable(s[k]) && s[k] != '\\' && s[k] != '\''
    ensures Repr(s) == "'" + s + "'"
  {
    PlainBody(s, '\'');
  }

  lemma {:induction false} PlainBody(s: string, q: char)
    requires forall k :: 0 <= k < |s| ==> !Unprintable(s[k]) && s[k] != '\\' && s[k] != q
    ensures ReprBody(s, q) == s
  {
    if |s| > 0 {
      PlainBody(s[1..], q);
      assert [s[0]] + s[1..] == s;
    }
  }

  /** The message always comes first, and a path always comes last. */
  lemma ErrorTextFrames(e: Error)
    ensures StartsWith(ErrorText(e), e.message)
    ensures Present(e.path) ==> EndsWith(ErrorText(e), e.path.value)
    ensures |ErrorText(e)| <= |e.message| + (if Present(e.path) then |e.path.value| + SampleLen + 9 else 0)
  {
  }
}
