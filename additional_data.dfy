/**
 * Additional Data of a dataset: files recognised by their names as the
 * Cantab and behavioural task files of the Imagen SOPs, either loosely or
 * exactly, and grouped by type.
 */
module AdditionalData {

  import opened Wrappers
  import opened Text
  import opened Regex

  /** The file types of the SOPs (their values live in the Cantab and behavioural readers). */
  datatype FileType =
    | CantabCclar
    | DetailedDatasheetCsv
    | DatasheetCsv
    | ReportHtml
    | FtCsv
    | MidCsv
    | RecogCsv
    | SsCsv

  /** `\w+_` */
  function WordsThenUnderscore(): Re { Cat(Plus(Word), Atom(Chars({'_'}))) }

  /** `_\w+` */
  function UnderscoreThenWords(): Re { Cat(Atom(Chars({'_'})), Plus(Word)) }

  /** `(\w+_)?<word>(_\w+)?<ext>` */
  function Sop(word: Fixed, ext: string): Re {
    Cat(Opt(WordsThenUnderscore()), Cat(FixedRe(word), Cat(Opt(UnderscoreThenWords()), FixedRe(Literal(ext)))))
  }

  /** `<prefix>\w+<ext>` */
  function Task(prefix: string, ext: string): Re {
    Cat(FixedRe(Literal(prefix)), Cat(Plus(Word), FixedRe(Literal(ext))))
  }

  /** `(fu|FU)?` */
  function FollowUp(): Re { Opt(Alt(FixedRe(Literal("fu")), FixedRe(Literal("FU")))) }

  /** `<prefix>\d{12}(fu|FU)?<ext>` */
  function Exact(prefix: string, ext: string): Re {
    Cat(FixedRe(Literal(prefix) + Digits(12)), Cat(FollowUp(), FixedRe(Literal(ext))))
  }

  /** `detailed[_ ]datasheet`: Mannheim writes a space instead of the underscore. */
  function DetailedDatasheet(): Fixed {
    Literal("detailed") + [Chars({'_', ' '})] + Literal("datasheet")
  }

  datatype Entry = Entry(re: Re, icase: bool, fileType: FileType)

  /** The loose patterns, tried in order: `detailed_datasheet` before `datasheet`. */
  function LooseRe(k: nat): Re
    requires k < |SopNames()|
  {
    if k == 0 then Sop(Literal("cant"), ".cclar")
    else if k == 1 then Sop(DetailedDatasheet(), ".csv")
    else if k == 2 then Sop(Literal("datasheet"), ".csv")
    else if k == 3 then Sop(Literal("report"), ".html")
    else Task(SopNames()[k].0, SopNames()[k].1)
  }

  /** The loose table: every pattern ignores case; the types are those of the SOP names. */
  function LooseTable(): (t: seq<Entry>)
    ensures |t| == |SopNames()|
    ensures forall k :: 0 <= k < |t| ==> t[k].icase && t[k].fileType == SopNames()[k].2
  {
    var names := SopNames();
    seq(|names|, k requires 0 <= k < |names| => Entry(LooseRe(k), true, names[k].2))
  }

  /** The file names of the SOPs: a prefix, the PSC1 code, an optional `fu`, an extension. */
  function SopNames(): seq<(string, string, FileType)> {
    [ ("cant_", ".cclar", CantabCclar),
      ("detailed_datasheet_", ".csv", DetailedDatasheetCsv),
      ("datasheet_", ".csv", DatasheetCsv),
      ("report_", ".html", ReportHtml),
      ("ft_", ".csv", FtCsv),
      ("mid_", ".csv", MidCsv),
      ("recog_", ".csv", RecogCsv),
      ("ss_", ".csv", SsCsv) ]
  }

  /** The exact table: only the `ss_` names are matched ignoring case. */
  function ExactTable(): (t: seq<Entry>)
    ensures |t| == |SopNames()|
    ensures forall k :: 0 <= k < |t| ==> t[k].fileType == SopNames()[k].2
    ensures forall k :: 0 <= k < |t| ==> (t[k].icase <==> t[k].fileType == SsCsv)
  {
    var names := SopNames();
    seq(|names|, k requires 0 <= k < |names| =>
      Entry(Exact(names[k].0, names[k].1), names[k].2 == SsCsv, names[k].2))
  }

  function Table(exact: bool): seq<Entry> {
    if exact then ExactTable() else LooseTable()
  }

  /** `regex.match(filename)` for the entry. */
  predicate Fits(e: Entry, filename: string) {
    Matches(e.re, filename, e.icase)
  }

  /** The type of the first entry from `i` on that fits, if any. */
  function FirstFit(table: seq<Entry>, i: nat, filename: string): (r: Option<FileType>)
    requires i <= |table|
    ensures r.Some? <==> exists k :: i <= k < |table| && Fits(table[k], filename)
    ensures r.Some? ==> exists k :: (i <= k < |table| && Fits(table[k], filename) &&
      table[k].fileType == r.value && forall j :: i <= j < k ==> !Fits(table[j], filename))
    decreases |table| - i
  {
    if i == |table| then None
    else if Fits(table[i], filename) then Some(table[i].fileType)
    else FirstFit(table, i + 1, filename)
  }

  /** `_match_additional_data_sops(filename, exact)` */
  function MatchSops(filename: string, exact: bool): Option<FileType> {
    FirstFit(Table(exact), 0, filename)
  }

  // ---------------------------------------------------------------------
  // Grouping the files of a dataset by type

  /** Each relative path with the type its file name is given, if any. */
  function Typed(files: seq<(string, string)>, exact: bool): (r: seq<(Option<FileType>, string)>)
    ensures |r| == |files|
    ensures forall k :: 0 <= k < |files| ==> r[k] == (MatchSops(files[k].0, exact), files[k].1)
  {
    seq(|files|, k requires 0 <= k < |files| => (MatchSops(files[k].0, exact), files[k].1))
  }

  /** The relative paths, in walk order, of the files of type `t`. */
  function PathsOfType(typed: seq<(Option<FileType>, string)>, t: FileType): (r: seq<string>)
    ensures |r| <= |typed|
  {
    if typed == [] then []
    else
      var (filetype, relpath) := typed[|typed| - 1];
      PathsOfType(typed[..|typed| - 1], t) + (if filetype == Some(t) then [relpath] else [])
  }

  /** One step of the loop: `additional_files.setdefault(filetype, []).append(relpath)` when typed. */
  function Add(d: map<FileType, seq<string>>, entry: (Option<FileType>, string)): map<FileType, seq<string>> {
    match entry.0
    case Some(t) => d[t := (if t in d then d[t] else []) + [entry.1]]
    case None => d
  }

  /** `additional_files` after the loop over the typed files. */
  function Grouped(typed: seq<(Option<FileType>, string)>): map<FileType, seq<string>> {
    if typed == [] then map[] else Add(Grouped(typed[..|typed| - 1]), typed[|typed| - 1])
  }

  lemma GroupedStep(typed: seq<(Option<FileType>, string)>, i: nat)
    requires i < |typed|
    ensures Grouped(typed[..i + 1]) == Add(Grouped(typed[..i]), typed[i])
  {
    assert typed[..i + 1][..i] == typed[..i];
  }

  /** The loop of `report_additional_data` that sorts the `(filename, relpath)` pairs it walks by type. */
  method GroupAdditionalFiles(files: seq<(string, string)>, exact: bool) returns (additionalFiles: map<FileType, seq<string>>)
    ensures additionalFiles == Grouped(Typed(files, exact))
  {
    ghost var typed := Typed(files, exact);
    additionalFiles := map[];
    for i := 0 to |files|
      invariant additionalFiles == Grouped(typed[..i])
    {
      var (filename, relpath) := files[i];
      var filetype := MatchSops(filename, exact);
      GroupedStep(typed, i);
      if filetype.Some? {
        var t := filetype.value;
        var paths := if t in additionalFiles then additionalFiles[t] else [];
        additionalFiles := additionalFiles[t := paths + [relpath]];
      }
    }
    assert typed[..|files|] == typed;
  }

  /**
   * A type is a key of the grouping exactly when some file has it, and its
   * value lists the paths of all the files of that type, in walk order.
   */
  lemma {:induction false} GroupedByType(typed: seq<(Option<FileType>, string)>, t: FileType)
    ensures t in Grouped(typed) <==> PathsOfType(typed, t) != []
    ensures t in Grouped(typed) ==> Grouped(typed)[t] == PathsOfType(typed, t)
  {
    if typed != [] {
      GroupedByType(typed[..|typed| - 1], t);
    }
  }

  /** A path is listed under `t` exactly when some file of type `t` has it. */
  lemma {:induction false} PathsOfTypeMembers(typed: seq<(Option<FileType>, string)>, t: FileType, relpath: string)
    ensures relpath in PathsOfType(typed, t) <==> (Some(t), relpath) in typed
  {
    if typed != [] {
      var init := typed[..|typed| - 1];
      PathsOfTypeMembers(init, t, relpath);
      assert typed == init + [typed[|typed| - 1]];
      assert (Some(t), relpath) in typed <==> (Some(t), relpath) in init || typed[|typed| - 1] == (Some(t), relpath);
    }
  }

  /** Grouping the walked files lists a path under `t` exactly when its file name is given type `t`. */
  lemma GroupedFiles(files: seq<(string, string)>, exact: bool, t: FileType, relpath: string)
    ensures (t in Grouped(Typed(files, exact)) && relpath in Grouped(Typed(files, exact))[t]) <==>
      exists k :: 0 <= k < |files| && files[k].1 == relpath && MatchSops(files[k].0, exact) == Some(t)
  {
    var typed := Typed(files, exact);
    GroupedByType(typed, t);
    PathsOfTypeMembers(typed, t, relpath);
    if (Some(t), relpath) in typed {
      var k :| 0 <= k < |typed| && typed[k] == (Some(t), relpath);
      assert files[k].1 == relpath && MatchSops(files[k].0, exact) == Some(t);
    }
    if k :| 0 <= k < |files| && files[k].1 == relpath && MatchSops(files[k].0, exact) == Some(t) {
      assert typed[k] == (Some(t), relpath);
    }
  }

  // ---------------------------------------------------------------------
  // Matching the shapes of the patterns

  /** A run of word characters of length `n` at `i`. */
  predicate WordsAt(s: string, i: nat, n: nat) {
    i + n <= |s| && forall j :: i <= j < i + n ==> IsWordChar(s[j])
  }

  lemma PlusWordEnds(s: string, i: nat, n: nat, icase: bool)
    requires n >= 1 && WordsAt(s, i, n)
    ensures i + n in Ends(Plus(Word), s, i, icase)
  {
    RunAtLeast(Word, s, i, n, icase);
  }

  lemma LiteralEnds(t: string, s: string, i: nat, icase: bool)
    requires OccursAt(s, t, i)
    ensures i + |t| in Ends(FixedRe(Literal(t)), s, i, icase)
  {
    LiteralOccurs(t, s, i, icase);
    EndsFixed(Literal(t), s, i, i + |t|, icase);
  }

  /** `(_\w+)?<ext>` from `a`, through `_` and `n` word characters. */
  lemma SuffixEnds(ext: string, s: string, a: nat, n: nat, icase: bool)
    requires n >= 1 && a < |s| && s[a] == '_' && WordsAt(s, a + 1, n) && OccursAt(s, ext, a + 1 + n)
    ensures a + 1 + n + |ext| in Ends(Cat(Opt(UnderscoreThenWords()), FixedRe(Literal(ext))), s, a, icase)
  {
    var b := a + 1 + n;
    PlusWordEnds(s, a + 1, n, icase);
    CatAtomMember(Chars({'_'}), Plus(Word), s, a, b, icase);
    LiteralEnds(ext, s, b, icase);
    EndsCatIntro(Opt(UnderscoreThenWords()), FixedRe(Literal(ext)), s, a, b, b + |ext|, icase);
  }

  /** A name made of the word, `_` and word characters, then the extension, fits the loose SOP pattern. */
  lemma SopMatches(word: Fixed, ext: string, s: string, n: nat, icase: bool)
    requires FixedAt(word, s, 0, icase)
    requires n >= 1 && |word| < |s| && s[|word|] == '_' && WordsAt(s, |word| + 1, n)
    requires OccursAt(s, ext, |word| + 1 + n)
    ensures Matches(Sop(word, ext), s, icase)
  {
    var tail := Cat(Opt(UnderscoreThenWords()), FixedRe(Literal(ext)));
    WordTailEnds(word, ext, s, 0, n, icase);
    EndsCatIntro(Opt(WordsThenUnderscore()), Cat(FixedRe(word), tail), s, 0, 0, |word| + 1 + n + |ext|, icase);
  }

  /** A name made of the prefix, word characters and the extension fits the task pattern. */
  lemma TaskMatches(prefix: string, ext: string, s: string, n: nat, icase: bool)
    requires OccursAt(s, prefix, 0) && n >= 1 && WordsAt(s, |prefix|, n)
    requires OccursAt(s, ext, |prefix| + n)
    ensures Matches(Task(prefix, ext), s, icase)
  {
    var a := |prefix|;
    var m := a + n + |ext|;
    PlusWordEnds(s, a, n, icase);
    LiteralEnds(ext, s, a + n, icase);
    EndsCatIntro(Plus(Word), FixedRe(Literal(ext)), s, a, a + n, m, icase);
    LiteralEnds(prefix, s, 0, icase);
    EndsCatIntro(FixedRe(Literal(prefix)), Cat(Plus(Word), FixedRe(Literal(ext))), s, 0, a, m, icase);
  }

  /** What `(fu|FU)?` accepts. */
  predicate IsFollowUp(fu: string) { fu == "" || fu == "fu" || fu == "FU" }

  lemma FollowUpEnds(fu: string, s: string, i: nat, icase: bool)
    requires IsFollowUp(fu) && OccursAt(s, fu, i)
    ensures i + |fu| in Ends(FollowUp(), s, i, icase)
  {
    if fu != "" {
      LiteralEnds(fu, s, i, icase);
    }
  }

  /** A name made of the prefix, twelve digits, an optional `fu` and the extension fits the exact pattern. */
  lemma ExactMatches(prefix: string, ext: string, s: string, fu: string, icase: bool)
    requires OccursAt(s, prefix, 0) && |prefix| + 12 <= |s| && AllDigits(s[|prefix|..|prefix| + 12])
    requires IsFollowUp(fu) && OccursAt(s, fu, |prefix| + 12) && OccursAt(s, ext, |prefix| + 12 + |fu|)
    ensures Matches(Exact(prefix, ext), s, icase)
  {
    var a := |prefix| + 12;
    var b := a + |fu|;
    var m := b + |ext|;
    LiteralOccurs(prefix, s, 0, icase);
    DigitsAtHold(12, s, |prefix|, icase);
    FixedAtParts(Literal(prefix), Digits(12), s, 0, icase);
    EndsFixed(Literal(prefix) + Digits(12), s, 0, a, icase);
    FollowUpEnds(fu, s, a, icase);
    LiteralEnds(ext, s, b, icase);
    EndsCatIntro(FollowUp(), FixedRe(Literal(ext)), s, a, b, m, icase);
    EndsCatIntro(FixedRe(Literal(prefix) + Digits(12)), Cat(FollowUp(), FixedRe(Literal(ext))), s, 0, a, m, icase);
  }

  /** A match of a pattern that starts with a fixed part holds that part at the start. */
  lemma CatFixedStarts(p: Fixed, b: Re, s: string, icase: bool)
    requires Matches(Cat(FixedRe(p), b), s, icase)
    ensures FixedAt(p, s, 0, icase)
  {
    var m :| m in Ends(Cat(FixedRe(p), b), s, 0, icase);
    var j :| j in Ends(FixedRe(p), s, 0, icase) && m in Ends(b, s, j, icase);
    EndsFixed(p, s, 0, j, icase);
  }

  // ---------------------------------------------------------------------
  // File names of the SOPs

  /** The name the SOPs give the file of entry `k`, for a PSC1 code and an optional `fu`. */
  function SopName(k: nat, psc1: string, fu: string): string
    requires k < |SopNames()|
  {
    SopNames()[k].0 + psc1 + fu + SopNames()[k].1
  }

  /** What the SOPs allow in place of the PSC1 code. */
  predicate IsCode(psc1: string) { |psc1| == 12 && AllDigits(psc1) }

  lemma SopNameParts(k: nat, psc1: string, fu: string, rest: string)
    requires k < |SopNames()|
    ensures var s := SopName(k, psc1, fu) + rest;
      var p := SopNames()[k].0;
      OccursAt(s, p, 0) && s[|p|..|p| + |psc1|] == psc1 && OccursAt(s, fu, |p| + |psc1|) &&
      OccursAt(s, SopNames()[k].1, |p| + |psc1| + |fu|)
  {
    var p := SopNames()[k].0;
    var s := SopName(k, psc1, fu) + rest;
    assert s == p + (psc1 + (fu + (SopNames()[k].1 + rest)));
  }

  /** The prefixes of the SOP names are pairwise distinct in some character they both have. */
  lemma PrefixesDiffer(j: nat, k: nat)
    requires j < k < |SopNames()|
    ensures exists d :: 0 <= d < |SopNames()[j].0| && d < |SopNames()[k].0| && SopNames()[j].0[d] != SopNames()[k].0[d]
  {
    var pj, pk := SopNames()[j].0, SopNames()[k].0;
    if j == 1 && k == 2 {
      assert pj[1] != pk[1];
    } else if j == 3 && k == 6 {
      assert pj[2] != pk[2];
    } else {
      assert pj[0] != pk[0];
    }
  }

  /** The exact pattern of entry `j` does not fit a name that starts with the prefix of entry `k`. */
  lemma ExactRefuted(j: nat, k: nat, s: string)
    requires j < k < |SopNames()| && OccursAt(s, SopNames()[k].0, 0)
    ensures !Fits(ExactTable()[j], s)
  {
    var pj, pk := SopNames()[j].0, SopNames()[k].0;
    var ext := SopNames()[j].1;
    assert ExactTable()[j] == Entry(Exact(pj, ext), false, SopNames()[j].2);
    PrefixesDiffer(j, k);
    var d :| 0 <= d < |pj| && d < |pk| && pj[d] != pk[d];
    PrefixMismatch(pj, Digits(12), pk, s, d);
    if Matches(Exact(pj, ext), s, false) {
      CatFixedStarts(Literal(pj) + Digits(12), Cat(FollowUp(), FixedRe(Literal(ext))), s, false);
    }
  }

  /** A fixed pattern starting with one literal does not match case-sensitively where another, differing, is. */
  lemma PrefixMismatch(pj: string, tail: Fixed, pk: string, s: string, d: nat)
    requires OccursAt(s, pk, 0) && d < |pj| && d < |pk| && pj[d] != pk[d]
    ensures !FixedAt(Literal(pj) + tail, s, 0, false)
  {
    assert (Literal(pj) + tail)[d] == Chars({pj[d]});
    assert s[d] == s[0..|pk|][d];
  }

  lemma ExactFits(k: nat, psc1: string, fu: string, rest: string)
    requires k < |SopNames()| && IsCode(psc1) && IsFollowUp(fu)
    ensures Fits(ExactTable()[k], SopName(k, psc1, fu) + rest)
  {
    var s := SopName(k, psc1, fu) + rest;
    var p := SopNames()[k].0;
    SopNameParts(k, psc1, fu, rest);
    ExactMatches(p, SopNames()[k].1, s, fu, ExactTable()[k].icase);
  }

  /**
   * With exact matching, a file named as the SOPs say (whatever follows the
   * name, since `re.match` only anchors at the start) is given the type of
   * its own name.
   */
  lemma ExactClassification(k: nat, psc1: string, fu: string, rest: string)
    requires k < |SopNames()| && IsCode(psc1) && IsFollowUp(fu)
    ensures MatchSops(SopName(k, psc1, fu) + rest, true) == Some(SopNames()[k].2)
  {
    var s := SopName(k, psc1, fu) + rest;
    SopNameParts(k, psc1, fu, rest);
    ExactFits(k, psc1, fu, rest);
    forall j | 0 <= j < k ensures !Fits(ExactTable()[j], s) {
      ExactRefuted(j, k, s);
    }
    FirstFitIs(ExactTable(), 0, k, s);
  }

  /** Entry `k` fits and no earlier one does: its type is the result. */
  lemma {:induction false} FirstFitIs(table: seq<Entry>, i: nat, k: nat, filename: string)
    requires i <= k < |table| && Fits(table[k], filename)
    requires forall j :: i <= j < k ==> !Fits(table[j], filename)
    ensures FirstFit(table, i, filename) == Some(table[k].fileType)
    decreases k - i
  {
    if i < k {
      FirstFitIs(table, i + 1, k, filename);
    }
  }

  lemma CodeWords(s: string, i: nat, psc1: string, fu: string)
    requires IsCode(psc1) && IsFollowUp(fu)
    requires i + |psc1| + |fu| <= |s| && s[i..i + |psc1|] == psc1 && OccursAt(s, fu, i + |psc1|)
    ensures WordsAt(s, i, |psc1| + |fu|)
  {
    forall j | i <= j < i + |psc1| + |fu| ensures IsWordChar(s[j]) {
      if j < i + |psc1| {
        assert s[j] == psc1[j - i];
      } else {
        assert s[j] == s[i + |psc1|..i + |psc1| + |fu|][j - i - |psc1|];
      }
    }
  }

  lemma DetailedAt(s: string, icase: bool)
    requires OccursAt(s, "detailed_datasheet_", 0)
    ensures FixedAt(DetailedDatasheet(), s, 0, icase)
  {
    var w := s[0..19];
    assert OccursAt(s, "detailed", 0) by { assert s[0..8] == w[0..8]; }
    assert OccursAt(s, "datasheet", 9) by { assert s[9..18] == w[9..18]; }
    assert ClassMatches(Chars({'_', ' '}), s[8], icase) by { assert s[8] == w[8]; }
    LiteralOccurs("detailed", s, 0, icase);
    LiteralOccurs("datasheet", s, 9, icase);
    FixedAtParts(Literal("detailed"), [Chars({'_', ' '})], s, 0, icase);
    FixedAtParts(Literal("detailed") + [Chars({'_', ' '})], Literal("datasheet"), s, 0, icase);
  }

  lemma WordBeforeUnderscore(s: string, p: string, word: string, icase: bool)
    requires p == word + "_" && OccursAt(s, p, 0)
    ensures FixedAt(Literal(word), s, 0, icase) && |word| < |s| && s[|word|] == '_'
  {
    assert OccursAt(s, word, 0) by { assert s[0..|word|] == p[0..|word|]; }
    assert s[|word|] == p[|word|];
    LiteralOccurs(word, s, 0, icase);
  }

  /**
   * A file named as the SOPs say is also recognised by the loose matching:
   * the tolerant table accepts everything the strict one was written for.
   */
  lemma SopNameIsLoose(k: nat, psc1: string, fu: string, rest: string)
    requires k < |SopNames()| && IsCode(psc1) && IsFollowUp(fu)
    ensures Fits(LooseTable()[k], SopName(k, psc1, fu) + rest)
    ensures MatchSops(SopName(k, psc1, fu) + rest, false).Some?
  {
    if k == 0 {
      WordNameLoose(0, "cant", psc1, fu, rest);
    } else if k == 1 {
      DetailedNameLoose(1, psc1, fu, rest);
    } else if k == 2 {
      WordNameLoose(2, "datasheet", psc1, fu, rest);
    } else if k == 3 {
      WordNameLoose(3, "report", psc1, fu, rest);
    } else {
      TaskNameLoose(k, psc1, fu, rest);
    }
  }

  lemma WordNameLoose(k: nat, word: string, psc1: string, fu: string, rest: string)
    requires k < |SopNames()| && IsCode(psc1) && IsFollowUp(fu) && SopNames()[k].0 == word + "_"
    requires LooseTable()[k].re == Sop(Literal(word), SopNames()[k].1) && LooseTable()[k].icase
    ensures Fits(LooseTable()[k], SopName(k, psc1, fu) + rest)
  {
    var s := SopName(k, psc1, fu) + rest;
    var p := SopNames()[k].0;
    SopNameParts(k, psc1, fu, rest);
    CodeWords(s, |p|, psc1, fu);
    SopWordLoose(word, SopNames()[k].1, s, |psc1| + |fu|);
  }

  lemma DetailedNameLoose(k: nat, psc1: string, fu: string, rest: string)
    requires k < |SopNames()| && IsCode(psc1) && IsFollowUp(fu)
    requires SopNames()[k].0 == "detailed_datasheet_" && SopNames()[k].1 == ".csv"
    requires LooseTable()[k].re == Sop(DetailedDatasheet(), ".csv") && LooseTable()[k].icase
    ensures Fits(LooseTable()[k], SopName(k, psc1, fu) + rest)
  {
    var s := SopName(k, psc1, fu) + rest;
    var p := SopNames()[k].0;
    SopNameParts(k, psc1, fu, rest);
    CodeWords(s, |p|, psc1, fu);
    DetailedLoose(s, |psc1| + |fu|);
  }

  lemma TaskNameLoose(k: nat, psc1: string, fu: string, rest: string)
    requires k < |SopNames()| && IsCode(psc1) && IsFollowUp(fu)
    requires LooseTable()[k].re == Task(SopNames()[k].0, SopNames()[k].1) && LooseTable()[k].icase
    ensures Fits(LooseTable()[k], SopName(k, psc1, fu) + rest)
  {
    var s := SopName(k, psc1, fu) + rest;
    var p := SopNames()[k].0;
    SopNameParts(k, psc1, fu, rest);
    CodeWords(s, |p|, psc1, fu);
    TaskMatches(p, SopNames()[k].1, s, |psc1| + |fu|, true);
  }

  lemma SopWordLoose(word: string, ext: string, s: string, n: nat)
    requires OccursAt(s, word + "_", 0) && n >= 1 && WordsAt(s, |word| + 1, n) && OccursAt(s, ext, |word| + 1 + n)
    ensures Matches(Sop(Literal(word), ext), s, true)
  {
    WordBeforeUnderscore(s, word + "_", word, true);
    SopMatches(Literal(word), ext, s, n, true);
  }

  lemma DetailedLoose(s: string, n: nat)
    requires OccursAt(s, "detailed_datasheet_", 0) && n >= 1 && WordsAt(s, 19, n) && OccursAt(s, ".csv", 19 + n)
    ensures Matches(Sop(DetailedDatasheet(), ".csv"), s, true)
  {
    DetailedAt(s, true);
    SopMatches(DetailedDatasheet(), ".csv", s, n, true);
  }

  // ---------------------------------------------------------------------
  // Properties of the classification

  /** `re.match` anchors only at the start: text appended to a recognised name keeps it recognised. */
  lemma MatchSopsExtends(filename: string, rest: string, exact: bool)
    requires MatchSops(filename, exact).Some?
    ensures MatchSops(filename + rest, exact).Some?
  {
    var table := Table(exact);
    var k :| 0 <= k < |table| && Fits(table[k], filename);
    MatchExtends(table[k].re, filename, rest, table[k].icase);
    assert Fits(table[k], filename + rest);
  }

  /** Loose matching ignores case: upper-casing a file name does not change its type. */
  lemma LooseIgnoresCase(filename: string)
    ensures MatchSops(Upper(filename), false) == MatchSops(filename, false)
  {
    TableIgnoresCase(LooseTable(), filename);
  }

  lemma TableIgnoresCase(table: seq<Entry>, filename: string)
    requires forall k :: 0 <= k < |table| ==> table[k].icase
    ensures FirstFit(table, 0, Upper(filename)) == FirstFit(table, 0, filename)
  {
    forall k | 0 <= k < |table| ensures Fits(table[k], Upper(filename)) == Fits(table[k], filename) {
      EndsIgnoreCase(table[k].re, filename, 0);
    }
    FirstFitSame(table, 0, Upper(filename), filename);
  }

  lemma {:induction false} FirstFitSame(table: seq<Entry>, i: nat, a: string, b: string)
    requires i <= |table| && forall k :: 0 <= k < |table| ==> Fits(table[k], a) == Fits(table[k], b)
    ensures FirstFit(table, i, a) == FirstFit(table, i, b)
    decreases |table| - i
  {
    if i < |table| {
      FirstFitSame(table, i + 1, a, b);
    }
  }

  /**
   * A name that fits the detailed datasheet pattern is never classified as
   * a plain datasheet, although the plain pattern matches the same names:
   * the order of the loose table decides.
   */
  lemma DetailedBeforeDatasheet(filename: string)
    requires Fits(LooseTable()[1], filename)
    ensures MatchSops(filename, false) == Some(CantabCclar) || MatchSops(filename, false) == Some(DetailedDatasheetCsv)
  {
    SecondFits(LooseTable(), filename);
  }

  lemma SecondFits(table: seq<Entry>, filename: string)
    requires |table| >= 2 && Fits(table[1], filename)
    ensures FirstFit(table, 0, filename) in {Some(table[0].fileType), Some(table[1].fileType)}
  {
    if !Fits(table[0], filename) {
      FirstFitIs(table, 0, 1, filename);
    }
  }

  /** The plain datasheet pattern also fits the SOP name of a detailed datasheet. */
  lemma DatasheetFitsDetailedName(psc1: string, fu: string, rest: string)
    requires IsCode(psc1) && IsFollowUp(fu)
    ensures Fits(LooseTable()[2], SopName(1, psc1, fu) + rest)
  {
    var s := SopName(1, psc1, fu) + rest;
    assert Matches(Sop(Literal("datasheet"), ".csv"), s, true) by {
      SopNameParts(1, psc1, fu, rest);
      CodeWords(s, 19, psc1, fu);
      DatasheetInDetailed(s, |psc1| + |fu|);
    }
    assert LooseTable()[2] == Entry(Sop(Literal("datasheet"), ".csv"), true, DatasheetCsv);
  }

  /** Yet the SOP name of a detailed datasheet is classified as one, the loose table being ordered. */
  lemma DetailedNameClassified(psc1: string, fu: string, rest: string)
    requires IsCode(psc1) && IsFollowUp(fu)
    ensures MatchSops(SopName(1, psc1, fu) + rest, false) == Some(DetailedDatasheetCsv)
  {
    var s := SopName(1, psc1, fu) + rest;
    SopNameIsLoose(1, psc1, fu, rest);
    CantRefuted(psc1, fu, rest);
    FirstFitIs(LooseTable(), 0, 1, s);
  }

  /** `datasheet`, after the optional prefix `detailed_`, matches a detailed datasheet name. */
  lemma DatasheetInDetailed(s: string, n: nat)
    requires OccursAt(s, "detailed_datasheet_", 0) && n >= 1 && WordsAt(s, 19, n) && OccursAt(s, ".csv", 19 + n)
    ensures Matches(Sop(Literal("datasheet"), ".csv"), s, true)
  {
    DetailedPrefixParts(s);
    DatasheetAfterPrefix(s, n);
  }

  lemma DetailedPrefixParts(s: string)
    requires OccursAt(s, "detailed_datasheet_", 0)
    ensures OccursAt(s, "datasheet", 9) && WordsAt(s, 0, 8) && s[8] == '_' && 18 < |s| && s[18] == '_'
  {
    var w := s[0..19];
    forall j | 0 <= j < 8 ensures IsWordChar(s[j]) {
      assert s[j] == w[j];
    }
    assert s[8] == w[8] && s[18] == w[18];
    assert s[9..18] == w[9..18];
  }

  lemma DatasheetAfterPrefix(s: string, n: nat)
    requires n >= 1 && WordsAt(s, 19, n) && OccursAt(s, ".csv", 19 + n)
    requires OccursAt(s, "datasheet", 9) && WordsAt(s, 0, 8) && s[8] == '_' && s[18] == '_'
    ensures Matches(Sop(Literal("datasheet"), ".csv"), s, true)
  {
    var tail := Cat(Opt(UnderscoreThenWords()), FixedRe(Literal(".csv")));
    WordsPrefixEnds(s, 8, true);
    LiteralOccurs("datasheet", s, 9, true);
    WordTailEnds(Literal("datasheet"), ".csv", s, 9, n, true);
    EndsCatIntro(Opt(WordsThenUnderscore()), Cat(FixedRe(Literal("datasheet")), tail), s, 0, 9, 19 + n + 4, true);
  }

  /** `(\w+_)?` can end after `a` word characters and a `_`. */
  lemma WordsPrefixEnds(s: string, a: nat, icase: bool)
    requires a >= 1 && WordsAt(s, 0, a) && a < |s| && s[a] == '_'
    ensures a + 1 in Ends(Opt(WordsThenUnderscore()), s, 0, icase)
  {
    PlusWordEnds(s, 0, a, icase);
    EndsCatIntro(Plus(Word), Atom(Chars({'_'})), s, 0, a, a + 1, icase);
  }

  /** `<word>(_\w+)?<ext>` from `i`, through the word, `_`, `n` word characters and the extension. */
  lemma WordTailEnds(word: Fixed, ext: string, s: string, i: nat, n: nat, icase: bool)
    requires FixedAt(word, s, i, icase) && i + |word| < |s| && s[i + |word|] == '_'
    requires n >= 1 && WordsAt(s, i + |word| + 1, n) && OccursAt(s, ext, i + |word| + 1 + n)
    ensures i + |word| + 1 + n + |ext| in
      Ends(Cat(FixedRe(word), Cat(Opt(UnderscoreThenWords()), FixedRe(Literal(ext)))), s, i, icase)
  {
    var a := i + |word|;
    SuffixEnds(ext, s, a, n, icase);
    EndsFixed(word, s, i, a, icase);
    EndsCatIntro(FixedRe(word), Cat(Opt(UnderscoreThenWords()), FixedRe(Literal(ext))), s, i, a, a + 1 + n + |ext|, icase);
  }

  lemma CantRefuted(psc1: string, fu: string, rest: string)
    requires IsCode(psc1) && IsFollowUp(fu)
    ensures !Fits(LooseTable()[0], SopName(1, psc1, fu) + rest)
  {
    var name := SopName(1, psc1, fu);
    var s := name + rest;
    DetailedNameChars(psc1, fu);
    assert forall i :: 0 <= i < |name| ==> s[i] == name[i];
    CantAbsent(s, 19 + |psc1| + |fu|);
  }

  /** The Cantab pattern does not match a text that starts like a detailed datasheet name. */
  lemma CantAbsent(s: string, n: nat)
    requires 19 < n < |s| && s[n] == '.' && s[0] == 'd' && s[9] == 'd' && IsDigit(s[19])
    requires forall i :: 0 <= i < n && i != 8 && i != 18 ==> s[i] != '_'
    ensures !Matches(Sop(Literal("cant"), ".cclar"), s, true)
  {
    var rest := Cat(Opt(UnderscoreThenWords()), FixedRe(Literal(".cclar")));
    var tail := Cat(FixedRe(Literal("cant")), rest);
    if m :| m in Ends(Cat(Opt(WordsThenUnderscore()), tail), s, 0, true) {
      var j :| j in Ends(Opt(WordsThenUnderscore()), s, 0, true) && m in Ends(tail, s, j, true);
      CantStart(s, j, n);
      var e :| e in Ends(FixedRe(Literal("cant")), s, j, true) && m in Ends(rest, s, e, true);
      EndsFixed(Literal("cant"), s, j, e, true);
    }
  }

  /**
   * Where the optional `\w+_` prefix can end in a text that starts like a
   * detailed datasheet name, no `c` or `C` follows.
   */
  lemma CantStart(s: string, j: nat, n: nat)
    requires 19 < n < |s| && s[n] == '.' && s[0] == 'd' && s[9] == 'd' && IsDigit(s[19])
    requires forall i :: 0 <= i < n && i != 8 && i != 18 ==> s[i] != '_'
    requires j in Ends(Opt(WordsThenUnderscore()), s, 0, true)
    ensures j < |s| && !ClassMatches(Chars({'c'}), s[j], true)
  {
    PrefixEnd(s, j, true);
    if j > 0 {
      RunStops(s, n, true);
      assert j - 1 <= n;
      assert s[j - 1] == '_';
      assert j - 1 != n;
      assert j - 1 == 8 || j - 1 == 18;
    }
    assert j == 0 || j == 9 || j == 19;
    assert s[j] == 'd' || IsDigit(s[j]);
    NotC(s[j]);
  }

  lemma NotC(c: char)
    requires c == 'd' || IsDigit(c)
    ensures !ClassMatches(Chars({'c'}), c, true)
  {
  }

  /** The optional `\w+_` prefix ends at the start or just after a `_` inside the leading run of word characters. */
  lemma PrefixEnd(s: string, j: nat, icase: bool)
    requires j in Ends(Opt(WordsThenUnderscore()), s, 0, icase)
    ensures j == 0 || (1 <= j - 1 <= Run(Word, s, 0, icase) && s[j - 1] == '_')
  {
    if j > 0 {
      var i :| i in Ends(Plus(Word), s, 0, icase) && j in Ends(Atom(Chars({'_'})), s, i, icase);
    }
  }

  lemma RunStops(s: string, n: nat, icase: bool)
    requires n < |s| && s[n] == '.'
    ensures Run(Word, s, 0, icase) <= n
  {
  }

  /** The characters of a detailed datasheet name that decide where `cant` could start. */
  lemma DetailedNameChars(psc1: string, fu: string)
    requires IsCode(psc1) && IsFollowUp(fu)
    ensures var name := SopName(1, psc1, fu);
      var n := 19 + |psc1| + |fu|;
      |name| == n + 4 && name[n] == '.' && name[0] == 'd' && name[9] == 'd' && IsDigit(name[19]) &&
      forall i :: 0 <= i < n && i != 8 && i != 18 ==> name[i] != '_'
  {
    var name := SopName(1, psc1, fu);
    var p := "detailed_datasheet_";
    assert name == p + psc1 + fu + ".csv";
    assert name[19] == psc1[0];
    forall i | 0 <= i < 19 + |psc1| + |fu| && i != 8 && i != 18 ensures name[i] != '_' {
      if i < 19 {
        assert name[i] == p[i];
      } else if i < 31 {
        assert name[i] == psc1[i - 19];
      } else {
        assert name[i] == fu[i - 31];
      }
    }
  }
}
