/**
 * `read_scanning`: the subject identifiers named by the time-stamped
 * "Subject ID" lines of a Scanning/*.csv file.
 */
module Scanning {

  import opened Wrappers
  import opened Text
  import opened Regex
  import opened Core

  /** The length of the time stamp and label before the identifier. */
  const PrefixLen := 32

  /** `\d{2}[/\.]\d{2}[/\.]\d{4} \d{2}:\d{2}:\d{2}\tSubject ID: ` */
  function StampPattern(): (p: Fixed)
    ensures |p| == PrefixLen
  {
    var sep := Chars({'/', '.'});
    [Digit, Digit, sep, Digit, Digit, sep, Digit, Digit, Digit, Digit, Chars({' '}),
     Digit, Digit, Chars({':'}), Digit, Digit, Chars({':'}), Digit, Digit, Chars({'\t'})] +
    Literal("Subject ID: ")
  }

  /** `_SUBJECT_ID_REGEX` as a whole: the stamp, then the `(\w+)` group. */
  function SubjectIdRe(): Re {
    Cat(FixedRe(StampPattern()), Plus(Word))
  }

  /**
   * `match.group(1)` for `_SUBJECT_ID_REGEX.match(line)`: the group is
   * the last element of the pattern, so it takes every word character
   * after the stamp.
   */
  function SubjectIdOf(line: string): (r: Option<string>)
    ensures r.Some? ==> |r.value| >= 1 && PrefixLen + |r.value| <= |line| && line[PrefixLen..PrefixLen + |r.value|] == r.value
    ensures r.Some? ==> forall k :: 0 <= k < |r.value| ==> IsWordChar(r.value[k])
    ensures r.Some? ==> PrefixLen + |r.value| == |line| || !IsWordChar(line[PrefixLen + |r.value|])
  {
    if !FixedAt(StampPattern(), line, 0, false) then None
    else
      var n := Run(Word, line, PrefixLen, false);
      if n == 0 then None
      else
        assert forall k :: 0 <= k < n ==> line[PrefixLen..PrefixLen + n][k] == line[PrefixLen + k];
        Some(line[PrefixLen..PrefixLen + n])
  }

  /** The group is found exactly when the regular expression matches the line. */
  lemma SubjectIdRegex(line: string)
    ensures SubjectIdOf(line).Some? <==> Matches(SubjectIdRe(), line, false)
  {
    var p := StampPattern();
    var n := Run(Word, line, PrefixLen, false);
    if SubjectIdOf(line).Some? {
      EndsFixed(p, line, 0, PrefixLen, false);
      assert PrefixLen + 1 in Ends(Plus(Word), line, PrefixLen, false);
      EndsCatIntro(FixedRe(p), Plus(Word), line, 0, PrefixLen, PrefixLen + 1, false);
    }
    if Matches(SubjectIdRe(), line, false) {
      var m :| m in Ends(SubjectIdRe(), line, 0, false);
      var j :| j in Ends(FixedRe(p), line, 0, false) && m in Ends(Plus(Word), line, j, false);
      EndsFixed(p, line, 0, j, false);
    }
  }

  /** What is stored for a captured identifier: the PSC1 code it holds, else the identifier itself. */
  function Recorded(id: string): (r: string)
    ensures NoCodeIn(id, CenterDigits) ==> r == id
    ensures !NoCodeIn(id, CenterDigits) ==> FirstCodeIn(id, r, CenterDigits)
  {
    match DetectPsc1(id)
    case Some(code) => code
    case None => id
  }

  /** What one line adds to the set. */
  function LineIds(line: string): set<string> {
    match SubjectIdOf(line)
    case Some(id) => {Recorded(id)}
    case None => {}
  }

  /** The identifiers of the lines read so far. */
  function SubjectIds(lines: seq<string>): set<string>
    decreases |lines|
  {
    if |lines| == 0 then {} else SubjectIds(lines[..|lines| - 1]) + LineIds(lines[|lines| - 1])
  }

  /** `read_scanning` over the lines of the file. */
  method ReadScanning(lines: seq<string>) returns (subjectIds: set<string>)
    ensures subjectIds == SubjectIds(lines)
  {
    subjectIds := {};
    for i := 0 to |lines|
      invariant subjectIds == SubjectIds(lines[..i])
    {
      assert lines[..i + 1][..i] == lines[..i];
      var match_ := SubjectIdOf(lines[i]);
      if match_.Some? {
        var subjectId := DetectPsc1(match_.value);
        if subjectId.None? {
          subjectId := Some(match_.value);
        }
        subjectIds := subjectIds + {subjectId.value};
      }
    }
    assert lines[..|lines|] == lines;
  }

  /** An identifier is in the set exactly when some line of the file yields it. */
  lemma {:induction false} SubjectIdsMembers(lines: seq<string>, x: string)
    ensures x in SubjectIds(lines) <==> exists k :: 0 <= k < |lines| && x in LineIds(lines[k])
    decreases |lines|
  {
    if |lines| > 0 {
      var init := lines[..|lines| - 1];
      SubjectIdsMembers(init, x);
      if exists k :: 0 <= k < |lines| && x in LineIds(lines[k]) {
        var k :| 0 <= k < |lines| && x in LineIds(lines[k]);
        if k < |lines| - 1 {
          assert init[k] == lines[k];
        }
      }
      if exists k :: 0 <= k < |init| && x in LineIds(init[k]) {
        var k :| 0 <= k < |init| && x in LineIds(init[k]);
        assert init[k] == lines[k];
      }
    }
  }

  /** Reading two parts of a file one after the other gives the union of their sets. */
  lemma {:induction false} SubjectIdsAppend(a: seq<string>, b: seq<string>)
    ensures SubjectIds(a + b) == SubjectIds(a) + SubjectIds(b)
    decreases |b|
  {
    if |b| == 0 {
      assert a + b == a;
    } else {
      var b' := b[..|b| - 1];
      assert (a + b)[..|a + b| - 1] == a + b';
      SubjectIdsAppend(a, b');
    }
  }

  /** A line that does not match changes nothing, wherever it stands. */
  lemma NonMatchingLineIgnored(a: seq<string>, line: string, b: seq<string>)
    requires SubjectIdOf(line).None?
    ensures SubjectIds(a + [line] + b) == SubjectIds(a + b)
  {
    SubjectIdsAppend(a + [line], b);
    SubjectIdsAppend(a, [line]);
    SubjectIdsAppend(a, b);
    assert [line][..0] == [];
  }

  /** A file read twice over names nobody new: duplicates collapse. */
  lemma RepeatedLines(lines: seq<string>)
    ensures SubjectIds(lines + lines) == SubjectIds(lines)
  {
    SubjectIdsAppend(lines, lines);
  }

  /** A stamped line naming a PSC1 code records exactly that code. */
  lemma StampedLineRecordsCode(stamp: string, code: string, rest: string)
    requires |stamp| == PrefixLen && FixedAt(StampPattern(), stamp, 0, false)
    requires IsPsc1(code) && (rest == [] || !IsWordChar(rest[0]))
    ensures SubjectIds([stamp + code + rest]) == {code}
  {
    var line := stamp + code + rest;
    FixedAtExtends(StampPattern(), stamp, code + rest, 0, false);
    assert line == stamp + (code + rest);
    forall j | PrefixLen <= j < PrefixLen + 12 ensures ClassMatches(Word, line[j], false) {
      assert line[j] == code[j - PrefixLen];
      assert IsDigit(code[j - PrefixLen]);
    }
    if rest != [] {
      assert line[PrefixLen + 12] == rest[0];
    }
    RunExact(Word, line, PrefixLen, 12, false);
    assert line[PrefixLen..PrefixLen + 12] == code;
    assert Window(code, 0) == code;
    DetectFindsPsc1(code, 0);
    assert [line][..0] == [];
  }
}
