# IMAGEN databank pipeline, modelled in Dafny

The IMAGEN study's databank scripts collect questionnaires, cognitive
tasks and imaging data for each subject and pseudonymise them. A subject
is known at the acquisition centres by a PSC1 code. Released data carry a
PSC2 code instead, and dates are replaced by ages in days. This project
models the core of those scripts and proves what they promise:

- **PSC1/PSC2 tables** (`core.dfy`). Reading the `PSC1=DAWBA=PSC2` mapping
  file and the date-of-birth file. Detecting PSC1 and PSC2 codes in text.
  Guessing a PSC1 code from a user-typed identifier. Formatting the
  databank's error message.
- **LimeSurvey RemoteControl 2 (LSRC2) client** (`limesurvey.dfy`). The
  JSON-RPC envelope and the class-wide request counter. `_post`'s checks
  and `error2exception`. The repairs of LSRC2's non-standard `status`
  answers. The session's key lifecycle.
- **FU3 JSON download** (`download_json.dfy`). The survey loop, the
  token→PSC1 map and the re-keying of responses. Serialisation with
  sorted keys, the title→path chain and the skip-unchanged write. Also
  the guarantees of a whole run: identifiers increase, and the key is
  released exactly once, last.
- **CSV download** (`download_csv.dfy`). Dataset naming, unfolding of
  quoted newlines, the choice of timepoint directory, and the
  skip-unchanged write.
- **De-identification of Psytools exports**:
  - `deidentify.dfy`: the legacy and LSRC2 formats;
  - `deidentify_csv.dfy`;
  - `process_csv.dfy`;
  - `process_json.dfy`;
  - `dawba_process.dfy`, the DAWBA export.

  Each one re-keys rows, drops test subjects and unknown codes, and turns
  dates into ages. Each file of a directory goes through that pass in turn.
- **Classifiers and aggregation**:
  - `image_data.py`: the series type of a description, and the
    series report built from DICOM metadata;
  - `additional_data.py`: the SOP file-name tables, with the grouping of
    files by type;
  - `scanning.py`: the subject IDs of a scanning log;
  - the CANTAB script: the age of a subject on the day of a session.

Shared modules model the Python the scripts rely on:

- `text.dfy`: `str` methods;
- `python.dfy`: JSON values, exceptions, and dict and list operators;
- `json_dumps.dfy`: `json.dumps(sort_keys=True, indent=4)`;
- `dates.dfy`: `date.toordinal`;
- `strptime.dfy`: `datetime.strptime` for the fixed formats used;
- `regex.dfy`: `re.match` and `re.search` for the patterns used;
- `files.dfy`: a file system as a map from path to text, with a write log;
- `passes.dfy`: a loop over the names of a directory;
- `rows.dfy`: the row and column conversions shared by the CSV scripts.

The model works on values wherever the source is a pure computation.
Where the source updates state in place, the model is imperative.
`LimeSurvey.Session` is a class whose methods move the shared
`RequestCounter` and the `Server`'s log of requests. `Files.FileSystem`
is a class whose file map and write log are updated by the download and
de-identification loops. The source's loops are methods with loop
invariants. Each such method is proved against a specification function,
and the properties are proved as lemmas about that function.

Where the code and its documentation differ, the model follows the code,
except where "## Findings" shows the code to be wrong. There the
specification functions, and the methods proved against them, take an
`asWritten` flag: `true` for the code as written, `false` for the
evident intent. This holds for `Core.ReadMapping`, for the
`DeidentifyCsv` pass from `CsvRowStep` up to `CreatePsc2Files`, and for
`ImageData.Walk`. Otherwise the corrected reading is modelled beside
the code as written: `Core.MappingLine` beside
`Core.MappingLineAsWritten`, and `ImageData.Report` beside
`ImageData.ReportAsWritten`. Elsewhere:

- `download_json` raises KeyError for a response whose token is not in
  the participant map, rather than dropping the response;
- an exception in one survey ends the whole run, and `__exit__` still
  releases the key.

## Model

| member | source | states |
|---|---|---|
| Scanning.SubjectIdOf | imagen_databank/scanning.py:11 | when `_SUBJECT_ID_REGEX` matches, the group is a non-empty run of word characters starting right after the 32-character stamp, ended by the end of the line or a non-word character |
| Scanning.SubjectIdRegex | imagen_databank/scanning.py:11 | the group is found exactly when the whole regular expression matches at the start of the line |
| Scanning.Recorded | imagen_databank/scanning.py:34-36 | the stored identifier is the first PSC1 code found in the group, and the group itself when it holds none |
| Scanning.ReadScanning | imagen_databank/scanning.py:29-38 | the loop over the lines returns the set of identifiers the lines yield |
| Scanning.SubjectIdsMembers | imagen_databank/scanning.py:29-38 | an identifier is in the set exactly when some line of the file yields it |
| Scanning.SubjectIdsAppend | imagen_databank/scanning.py:30-37 | reading two parts of a file in turn gives the union of their sets |
| Scanning.NonMatchingLineIgnored | imagen_databank/scanning.py:32-33 | a line the regular expression does not match changes nothing, wherever it stands |
| Scanning.RepeatedLines | imagen_databank/scanning.py:30-37 | a file repeated twice yields the same set: duplicates collapse |
| Scanning.StampedLineRecordsCode | imagen_databank/scanning.py:32-37 | a stamped line naming a PSC1 code records exactly that code |
| CantabAge.Only | cantab/imagen_cantab_age_at_session_start_time.py:52 | `pop()` on a one-element set returns its only element |
| CantabAge.SessionDates | cantab/imagen_cantab_age_at_session_start_time.py:61 | the set of session dates holds real calendar dates when the start times do |
| CantabAge.AgePrinted | cantab/imagen_cantab_age_at_session_start_time.py:48-72 | a datasheet is printed exactly when it names one subject known in both tables and its sessions fall on one day no earlier than 2007-01-01; the age is then the ordinal difference from the birth date, positive exactly when the birth date comes first |
| CantabAge.AgeLineFields | cantab/imagen_cantab_age_at_session_start_time.py:72 | the printed `psc2,age` line splits on ',' back into the PSC2 code and the decimal age |
| CantabAge.PrintedFrom | cantab/imagen_cantab_age_at_session_start_time.py:46-72 | at most one line per datasheet, and each printed line is the age line of one of the datasheets |
| CantabAge.SheetStep | cantab/imagen_cantab_age_at_session_start_time.py:48-71 | the loop body, with its `continue` guards in order, reaches the verdict of the specification |
| CantabAge.AgesAtSessionStart | cantab/imagen_cantab_age_at_session_start_time.py:40-72 | the printed lines are those of the specification, one per accepted datasheet, in datasheet order |
| Dates.DaysInMonth | cantab/imagen_cantab_age_at_session_start_time.py:71 | every month has 28 to 31 days (the calendar behind `date` subtraction) |
| Dates.Ordinal | cantab/imagen_cantab_age_at_session_start_time.py:71 | `toordinal()` of a valid date is at least 1 |
| Dates.OrdinalIncreasing | cantab/imagen_cantab_age_at_session_start_time.py:67 | a date earlier in the calendar has a smaller ordinal |
| Dates.OrdinalOrder | cantab/imagen_cantab_age_at_session_start_time.py:67-71 | comparing dates and comparing their ordinals agree, so `(a - b).days` is positive exactly when `a` is later and zero exactly when the dates are equal |
| Dates.NextDay | cantab/imagen_cantab_age_at_session_start_time.py:71 | the day after a valid date is valid and later |
| Dates.NextDayOrdinal | cantab/imagen_cantab_age_at_session_start_time.py:71 | consecutive days differ by exactly one in ordinal |
| Strptime.ParseDate | psytools/imagen_psytools_process_json.py:48 | `strptime(...).date()` yields a valid date or raises ValueError |
| Strptime.FirstCandidate | dawba/imagen_dawba_process.py:153-154 | a directive's first candidate is its first alternative that matches |
| Strptime.FirstParseCons | dawba/imagen_dawba_process.py:153-154 | the first parse of a format continues the first candidate of its first piece when that continuation exists |
| Strptime.DayMonthYearRoundTrip | psytools/imagen_psytools_deidentify_csv.py:155-156 | `strptime(d, '%d-%m-%Y')` reads back a date written as `%02d-%02d-%04d`, and raises ValueError when anything follows it |
| Strptime.ShortYearPivot | dawba/imagen_dawba_process.py:153-154 | `%d.%m.%y` reads a two-digit year below 69 as 20yy and any other as 19yy |
| Text.UpperMeaning | psytools/imagen_psytools_process_json.py:60 | `upper()` leaves no lower-case letter and changes only lower-case letters, each into its upper-case partner |
| Text.UpperIdempotent | psytools/imagen_psytools_process_json.py:60 | upper-casing an upper-cased text changes nothing |
| Text.RJust | imagen_databank/core.py:206-210 | `rjust(width, fill)` pads to the width and ends with the original text |
| Text.IndexOf | imagen_databank/core.py:196 | the index found holds the character and no earlier position does; none exactly when the character is absent |
| Text.LastIndexOf | psytools/imagen_psytools_process_csv.py:108 | the index found holds the character and no later position does; none exactly when the character is absent |
| Text.RSplitOnce | psytools/imagen_psytools_process_csv.py:108 | `rsplit(c, 1)` gives the text before the last `c` and the `c`-free text after it, or the whole text when `c` is absent |
| Text.Split | psytools/imagen_psytools_process_csv.py:81 | `split(sep)` gives at least one field and no field holds the separator |
| Text.JoinSplit | psytools/imagen_psytools_process_csv.py:81-137 | joining the fields of `split(sep)` with `sep` gives back the text |
| Text.SplitCount | psytools/imagen_psytools_process_csv.py:81 | `split(sep)` yields one more field than there are separators |
| Text.SplitJoin | psytools/imagen_psytools_process_csv.py:137 | splitting a join of separator-free fields gives back the fields |
| Text.ReplaceAbsent | psytools/imagen_psytools_download_json.py:279-280 | replacing a pattern that does not occur leaves the text unchanged |
| Text.ReplaceRemoves | psytools/imagen_psytools_download_csv.py:169 | replacing a character by another removes every occurrence and keeps the length |
| Text.ReplaceCharWise | psytools/imagen_psytools_download_csv.py:169 | replacing one character changes those positions and no other |
| Text.LStrip | psytools/imagen_psytools_process_csv.py:74 | `lstrip()` returns a suffix of the text that does not start with white space |
| Text.RStrip | psytools/imagen_psytools_process_csv.py:74 | `rstrip()` returns a prefix of the text that does not end with white space |
| Text.StripChar | imagen_databank/core.py:75 | `strip('\n')` neither starts nor ends with the stripped character and is no longer than the text |
| Text.StripCharTrims | imagen_databank/core.py:75 | `strip(c)` is a middle slice of the text: everything cut off before and after it is a copy of c, so together with StripChar the result is the text with its leading and trailing copies of c removed and nothing else |
| Text.NatToString | psytools/imagen_psytools_process_csv.py:136 | `str(n)` is a non-empty run of digits |
| Text.NumberWithout | psytools/imagen_psytools_process_csv.py:136-137 | the text of `str(age.days)` holds no separator other than digits and '-' |
| Text.DigitsValueOfNatToString | psytools/imagen_psytools_process_csv.py:136 | reading back the digits of `str(n)` gives `n` |
| Text.IntToStringInjective | psytools/imagen_psytools_process_csv.py:136 | different ages have different texts |
| Text.SignShows | psytools/imagen_psytools_process_csv.py:136 | the text starts with '-' exactly when the number is negative |
| Text.LinesConcat | dawba/imagen_dawba_process.py:141 | the lines a file iterates over, put back together, are its text |
| Text.ConcatLines | dawba/imagen_dawba_process.py:141-162 | text written line by line splits back into those lines |
| Text.LinesCons | dawba/imagen_dawba_process.py:141 | a text starting with a line that ends in a newline yields that line first |
| Text.PositionsAre | psytools/imagen_psytools_process_csv.py:75-76 | the enumerate-and-filter comprehension gives exactly the positions of the kept fields, increasing |
| Core.CodePatternAt | imagen_databank/core.py:135-137 | the PSC1 or PSC2 pattern matches at a position exactly when the twelve characters there are '0', an allowed second digit and ten digits |
| Core.CodePatternEverywhere | imagen_databank/core.py:135-137 | the same, at every position of the text at once |
| Core.DetectCode | imagen_databank/core.py:169 | the group of `search` is the leftmost code-shaped window, and none is found only when no window has that shape; the optional `[^d]?` never fails a match |
| Core.DetectPsc1 | imagen_databank/core.py:140-165 | `detect_psc1` returns the leftmost PSC1 code in the text, or None when the text holds none |
| Core.DetectPsc2 | imagen_databank/core.py:172-192 | `detect_psc2` returns the leftmost '0' followed by eleven digits, or None when there is none |
| Core.DetectFindsPsc1 | imagen_databank/core.py:157-160 | a text holding a PSC1 code always yields one, and the first one it holds |
| Core.DropMarkers | imagen_databank/core.py:197-204 | removing the 'FU2' prefix and one 'FU3', 'FU2' or 'FU' suffix never lengthens the identifier |
| Core.GuessPsc1 | imagen_databank/core.py:195-216 | `guess_psc1` returns only codes present in PSC2_FROM_PSC1 |
| Core.CandidatePadsShortId | imagen_databank/core.py:206-207 | a numeric identifier of at most ten digits becomes '0', the centre digit and the identifier zero-padded to ten digits: a PSC1-shaped code |
| Core.CandidateInsertsZero | imagen_databank/core.py:212-213 | an eleven-digit identifier that already starts with '0' and a centre digit gets its missing '0' inserted at index 2 |
| Core.DropMarkersOfCode | imagen_databank/core.py:197-204 | follow-up markers come off a PSC1 code exactly, whatever their case |
| Core.GuessRecoversPsc1 | imagen_databank/core.py:195-216 | a PSC1 code with a follow-up marker and anything after an '_' is guessed as itself exactly when it is a known code |
| Core.MappingLine | imagen_databank/core.py:74-85 | one line of the PSC1=DAWBA=PSC2 file AS CORRECTED (see "## Findings"; the code's own test is `Core.MappingLineAsWritten`): a line without three fields raises ValueError, and a PSC1 code already mapped to another PSC2 code raises the inconsistency |
| Core.ReadMapping | imagen_databank/core.py:57-86 | the loop over the file's lines computes `MappingFrom` with the same `asWritten` flag, header line skipped: with `asWritten` the test of line 79 as the code has it (`psc2 in psc2_from_psc1`, KeyError when the PSC1 code is absent), without it the corrected test |
| Core.MappingAgreesWithLines | imagen_databank/core.py:74-85 | when the file reads without exception every line has three fields, each PSC1 code maps to the PSC2 code of its lines, and earlier entries stay |
| Core.MappingKeepsDawba | imagen_databank/core.py:85 | a DAWBA code no line names keeps its entry |
| Core.MappingLastDawbaWins | imagen_databank/core.py:85 | each DAWBA code maps to the PSC2 code of the last line naming it |
| Core.MappingAsWrittenRemaps | imagen_databank/core.py:79-84 | as written (`psc2 in psc2_from_psc1`) the lines `A=D1=X`, `A=D2=Y` silently remap A to Y, where the corrected test raises |
| Core.FieldsOfLine | imagen_databank/core.py:75 | a three-field line without newlines splits into its three fields |
| Core.FieldsOfNewlineLine | imagen_databank/core.py:75 | the newline the file iteration keeps is stripped before splitting |
| Core.DigitsAt | imagen_databank/core.py:89 | the greedy `\d{1,n}` run: at most `n` digits, stopped by a non-digit or the bound |
| Core.DigitsAtText | imagen_databank/core.py:89 | a run of digits at a position is read in full when it is `n` long or no digit follows it |
| Core.DobFieldsRead | imagen_databank/core.py:110-113 | a day and month of two digits and a year of two to four digits read back, whatever follows the year's digits |
| Core.DobLine | imagen_databank/core.py:108-122 | one `psc2=dob=when` line yields a valid date of birth in 1900-2012 (two-digit years in the 1900s), or raises |
| Core.DobLineReads | imagen_databank/core.py:108-120 | a line written `psc2=DD.MM.YYYY=when` reads back as that subject's date of birth |
| Core.FieldsOfDobLine | imagen_databank/core.py:109 | a date-of-birth line splits into its PSC2 code, its date and its time stamp |
| Core.ReadDob | imagen_databank/core.py:92-123 | `_initialize_dob` over the lines computes the table of the specification |
| Core.UpsertKeeps | imagen_databank/core.py:119 | a code no line is about keeps its date |
| Core.UpsertLastWins | imagen_databank/core.py:119-121 | when the file reads without exception every line is valid, and each code has the date of its last line |
| Core.DobTable | imagen_databank/core.py:92-123 | the table DOB_FROM_PSC2: every line was a valid date of birth, each code has the date of its last line |
| Core.Invert | imagen_databank/core.py:127 | every value of PSC1_FROM_PSC2 comes from an item, and every PSC2 code of an item is a key |
| Core.InvertInverts | imagen_databank/core.py:127 | PSC1_FROM_PSC2 has exactly the PSC2 codes in use as keys, each maps back to a PSC1 code that maps to it, and it undoes the table exactly when no two PSC1 codes share a PSC2 code |
| Core.ReprChar | imagen_databank/core.py:245 | the escape `repr` writes for one character: the character itself exactly when it is printable and neither the quote nor a backslash; otherwise a backslash escape of at most ten characters |
| Core.Repr | imagen_databank/core.py:245 | `repr(s)`: quoted, at least two characters longer than `s` and at most ten times its length plus two; `Core.ReprRoundTrip` shows it loses nothing |
| Core.Shown | imagen_databank/core.py:245-247 | the sample is its repr when that fits in 30 characters, else its first 30 characters followed by '...' |
| Core.ReprPlain | imagen_databank/core.py:245 | printable text with no backslash and no single quote is shown between single quotes as it is |
| Core.Escape | imagen_databank/core.py:245 | an unprintable character is written `\xhh`, `\uhhhh` or `\Uhhhhhhhh`, whose hexadecimal digits stand for its code point |
| Core.HexRoundTrip | imagen_databank/core.py:245 | the hexadecimal digits of an escape read back as the code point |
| Core.ReprQuote | imagen_databank/core.py:245 | the quote of a repr is a single or a double quote |
| Core.UnreprBodyRoundTrip | imagen_databank/core.py:245 | the text between the quotes of a repr reads back as the string |
| Core.ReprRoundTrip | imagen_databank/core.py:245 | every string reads back from its repr, so the shown sample is never ambiguous |
| Core.ReprEscapedThenPlain | imagen_databank/core.py:245 | an unprintable character followed by plain text is shown as its code-point escape and then the text as it is |
| Core.ReprEscapesMark | imagen_databank/core.py:245 | a byte-order mark before 'abc' is shown as `'\ufeffabc'`, eleven characters |
| Core.ReprEscapesFormFeed | imagen_databank/core.py:245 | a form feed is shown as `'\x0c'` |
| Core.ErrorTextFrames | imagen_databank/core.py:242-252 | the message always comes first, a path always comes last, and the length is bounded |
| Regex.Run | imagen_databank/additional_data.py:25-34 | a greedy `\w+` run: every character in it belongs to the class and the next one does not |
| Regex.Ends | imagen_databank/additional_data.py:76 | the ends of a match starting at a position lie between that position and the end of the text |
| Regex.EndsExtend | imagen_databank/additional_data.py:76 | text after a match does not undo it: every end reachable in `s` is reachable in `s + t` |
| Regex.MatchExtends | imagen_databank/additional_data.py:76 | `re.match` accepts a file name whatever follows the matched part |
| Regex.ClassIgnoresCase | imagen_databank/additional_data.py:25-34 | under IGNORECASE the case of a character makes no difference to a class |
| Regex.EndsIgnoreCase | imagen_databank/additional_data.py:25-34 | with IGNORECASE a pattern matches the upper-cased name exactly where it matches the name |
| Regex.Find | imagen_databank/image_data.py:156 | `re.search` of a fixed-width pattern finds the leftmost position where it matches, and none only when it matches nowhere |
| Regex.FindsOccurrence | imagen_databank/image_data.py:156 | a description holding a literal word is found by the search, at that occurrence or before it |
| Regex.EndsFixed | imagen_databank/image_data.py:156 | a fixed pattern matches at a position exactly when its classes match there, and ends after them |
| Regex.RunExact | imagen_databank/additional_data.py:25-34 | a run of exactly `n` characters of the class, ended by the text or another character |
| Regex.FixedAtExtends | imagen_databank/image_data.py:156 | what matches at a position still matches there when text follows |
| Regex.FindSearches | imagen_databank/image_data.py:156 | the leftmost search succeeds exactly when the pattern, as a regular expression, is found somewhere |
| Regex.FindLeftmost | imagen_databank/image_data.py:156 | the leftmost match is the only position the search can return |
| Regex.FindIgnoresCase | imagen_databank/image_data.py:81-89 | with IGNORECASE, searching the upper-cased description finds what searching it finds, at the same place |
| Regex.LiteralAt | imagen_databank/additional_data.py:38-44 | without IGNORECASE a literal word matches exactly where the text holds it |
| Regex.LiteralOccurs | imagen_databank/image_data.py:81-89 | a literal word the text holds matches there, with or without IGNORECASE |
| Regex.RunAtLeast | imagen_databank/additional_data.py:25-34 | a run of at least `n` characters of the class |
| Python.LookupFound | psytools/imagen_psytools_process_json.py:47 | a key is found exactly when it is one of the keys, and then with a value stored under it |
| Python.LookupIndex | psytools/imagen_psytools_process_json.py:47 | the value under a key is that of its member |
| Python.Update | psytools/imagen_psytools_process_json.py:66 | `d[k] = v` keeps an existing key in place and appends a new one |
| Python.LookupUpdate | psytools/imagen_psytools_process_json.py:66 | after `d[k] = v`, `d[k]` is `v` and every other key keeps its value |
| Python.UpdateDistinct | psytools/imagen_psytools_process_json.py:66 | `d[k] = v` keeps the keys of a dict distinct |
| Python.GetKey | psytools/imagen_psytools_process_json.py:48 | `x[k]` raises KeyError on a dict without the key and TypeError on what is not a dict |
| Python.GetKeyFound | psytools/imagen_psytools_process_json.py:48 | `x[k]` succeeds exactly on a dict holding the key, with the value stored under it |
| Python.In | psytools/imagen_psytools_process_json.py:43 | `k in x` is key membership on a dict and raises TypeError on what is not a container |
| Python.SetKey | psytools/imagen_psytools_process_json.py:51 | `x[k] = v` succeeds exactly on a dict, after which `x[k]` is `v`; otherwise TypeError |
| Python.LookupWithoutKey | psytools/imagen_psytools_process_json.py:45 | after `del d[k]`, `k` is gone and every other key keeps its value |
| Python.DelKey | psytools/imagen_psytools_process_json.py:45 | `del x[k]` succeeds exactly on a dict holding the key; otherwise KeyError, or TypeError on what is not a dict |
| Python.Iterate | psytools/imagen_psytools_process_json.py:89 | `for e in x` yields the elements of a list and one item per member or character, and raises TypeError on anything else |
| Python.DictFind | psytools/imagen_psytools_download_json.py:271-272 | the position of the key equal to `k`, and none exactly when no key is equal to it |
| Python.DictFindEquivalent | psytools/imagen_psytools_download_json.py:271-272 | keys that compare equal (such as 1 and True) find the same entry |
| Python.DictGet | psytools/imagen_psytools_download_json.py:271 | `d[k]` raises TypeError for an unhashable key and KeyError for a missing one |
| Python.DictSet | psytools/imagen_psytools_download_json.py:271-272 | `d[k] = v` raises TypeError for an unhashable key, and otherwise `d[k]` is then `v` |
| Python.DictGetSetOther | psytools/imagen_psytools_download_json.py:271-272 | setting one key does not change the value under a key that differs from it |
| JsonDumps.SortMembers | psytools/imagen_psytools_download_json.py:274-275 | `sort_keys=True` prints a permutation of the members |
| JsonDumps.SortMembersSorted | psytools/imagen_psytools_download_json.py:274-275 | with distinct keys, the sorted members are in strictly ascending key order |
| JsonDumps.SortedUnique | psytools/imagen_psytools_download_json.py:274-275 | two strictly sorted orderings of the same members are the same sequence |
| JsonDumps.LexLessTotal | psytools/imagen_psytools_download_json.py:274-275 | any two distinct keys are ordered one way or the other |
| JsonDumps.LexLessTransitive | psytools/imagen_psytools_download_json.py:274-275 | the key order is transitive |
| JsonDumps.EscapeCharAscii | psytools/imagen_psytools_download_json.py:274-275 | every character of an escaped text is printable ASCII, as `ensure_ascii` writes it |
| JsonDumps.DumpsIgnoresMemberOrder | psytools/imagen_psytools_download_json.py:284-291 | two dicts holding the same members serialise identically, which is what makes the unchanged-file test meaningful |
| Files.PathJoin | psytools/imagen_psytools_process_csv.py:157-158 | `os.path.join(a, b)` ends with `b` after `a`, and is `b` itself when `b` is absolute |
| Files.SplitExt | psytools/imagen_psytools_deidentify_csv.py:197-198 | `os.path.splitext` cuts the path into two parts that put back together give the path |
| Files.SplitExtIs | psytools/imagen_psytools_deidentify_csv.py:197-198 | a file name has the extension `ext` exactly when it ends with `ext` after at least one character other than '.' |
| Files.FileSystem.constructor | psytools/imagen_psytools_download_json.py:281-296 | the files start as given and nothing has been written |
| Files.FileSystem.WriteIfChanged | psytools/imagen_psytools_download_json.py:284-296 | the file is written exactly when it does not already hold the data; afterwards it holds the data and the write log grows by that path only when written |
| Files.FileSystem.Write | psytools/imagen_psytools_process_csv.py:77-78 | `open(path, 'w')` and writing: the path holds the data and the write is logged |
| Files.ApplyWritesSnoc | psytools/imagen_psytools_download_json.py:284-296 | writing one more output extends the effect of the writes before it |
| Files.ApplyWritesHolds | psytools/imagen_psytools_download_json.py:294-296 | after the writes each output path holds its output and every other file is unchanged |
| Files.RerunWritesNothing | psytools/imagen_psytools_download_json.py:284-291 | a rerun with the same data writes nothing, as long as no two outputs share a path |
| Passes.Walk | psytools/imagen_psytools_process_csv.py:156-159 | a directory loop makes at most one write per file name |
| Passes.WalkWrites | psytools/imagen_psytools_process_csv.py:156-159 | every write of a directory loop is the write of the pass over one of the names: it writes nothing else |
| Passes.WalkAdvance | psytools/imagen_psytools_process_csv.py:156-159 | each pass either ends the loop with its exception or leaves the rest of the loop to start at the next name, its write added |
| Passes.WalkDone | psytools/imagen_psytools_process_csv.py:156-159 | a loop that went through every name made every write of the walk and raised nothing |
| Rows.Birth | psytools/imagen_psytools_deidentify.py:142-143 | the birth date is found exactly when the PSC2 code is in DOB_FROM_PSC2, and is then a valid date |
| Rows.Among | psytools/imagen_psytools_deidentify.py:84-85 | the columns to convert are exactly the header's fields that are date columns, each once when the header's are distinct |
| Rows.Without | psytools/imagen_psytools_deidentify.py:219-220 | the output header holds exactly the input fields not in COLUMNS_TO_REMOVE, and no more fields than the input |
| Rows.RecodeKeepsSuffix | psytools/imagen_psytools_deidentify.py:118-128 | a User code is recoded exactly when its PSC1 part is known, into that PSC1's PSC2 code followed by whatever followed the PSC1 part |
| Rows.RSplitAt | psytools/imagen_psytools_deidentify.py:118 | `rsplit('-', 1)` of `a + '-' + b` splits at the '-' between them when `b` holds none |
| Rows.RecodeRoundTrip | psytools/imagen_psytools_deidentify.py:118-128 | recoding back with PSC1_FROM_PSC2 gives the original User code: no subject information is lost |
| Rows.ConvertColumns | psytools/imagen_psytools_deidentify.py:141-149 | the date the column loop carries over is the earlier one or a valid date it parsed |
| Rows.ConvertLoop | psytools/imagen_psytools_deidentify.py:141-149 | the `for fieldname in convert` loop, updating the row in place, ends with the row of the specification or its exception |
| Rows.ConvertColumnValue | psytools/imagen_psytools_deidentify.py:142-149 | one column's conversion succeeds exactly when it is skipped or the column holds a readable timestamp; the column then holds the age in days, or None when skipped |
| Rows.ConvertColumnsSucceeds | psytools/imagen_psytools_deidentify.py:141-149 | the conversion of distinct columns succeeds exactly when it is skipped or every column holds a readable timestamp |
| Rows.ConvertColumnsKeeps | psytools/imagen_psytools_deidentify.py:141-149 | a successful conversion changes no field but the converted columns, and every converted column is then present |
| Rows.ConvertColumnsSkipped | psytools/imagen_psytools_deidentify.py:148-149 | without a birth date the conversion never fails: every column becomes None and the carried date is unchanged |
| Rows.ConvertColumnsAges | psytools/imagen_psytools_deidentify.py:142-147 | for a subject with a birth date, each converted column holds the age in days at its timestamp |
| Rows.ConvertColumnsLast | psytools/imagen_psytools_deidentify_csv.py:139-145 | the `timestamp` the loop leaves behind is the one parsed from the last column, or the earlier one when there are no columns |
| Rows.Written | psytools/imagen_psytools_deidentify.py:87-169 | a pass writes at most one line per input row |
| Rows.TrialAgeKeeps | psytools/imagen_psytools_deidentify.py:155-167 | a dated trial's conversion sets its Trial result and changes nothing else |
| Rows.WrittenAdvance | psytools/imagen_psytools_deidentify.py:90-169 | each row either ends the pass with its exception or adds at most one line and leaves the rest of the pass to the next row |
| Rows.WriteNext | psytools/imagen_psytools_deidentify.py:169 | the `writerow` ending one iteration keeps the header line first and either ends the pass with its exception or leaves the rest to the next row |
| Rows.WrittenDone | psytools/imagen_psytools_deidentify.py:90-169 | a row loop that went through every row has written everything the pass writes |
| Rows.WrittenLine | psytools/imagen_psytools_deidentify.py:90-169 | every line written is the `writerow` of a row the pass kept |
| Rows.WrittenColumn | psytools/imagen_psytools_deidentify.py:90-169 | when every kept row's field satisfies a property, every written line satisfies it in that column |
| Rows.WrittenAll | psytools/imagen_psytools_deidentify.py:90-169 | when kept rows only hold header fields, the file ends early exactly when the pass itself raises |
| Deidentify.LegacyRowStep | psytools/imagen_psytools_deidentify.py:91-167 | one iteration of the legacy row loop, updating the row in place, gives the row of the specification, None when skipped, or its exception |
| Deidentify.LegacyFile | psytools/imagen_psytools_deidentify.py:76-169 | `_deidentify_legacy`: the header is the input's field names, then the kept rows, up to the first exception |
| Deidentify.LegacyDropped | psytools/imagen_psytools_deidentify.py:109-138 | a legacy row is dropped exactly when it is an identity check or its PSC1 part is unknown, test subjects included |
| Deidentify.LegacyKept | psytools/imagen_psytools_deidentify.py:109-128 | a written legacy row is no identity check, keeps its Trial and carries the recoded User code |
| Deidentify.LegacyTimestamps | psytools/imagen_psytools_deidentify.py:141-149 | each timestamp column of a written legacy row holds the age in days when the PSC2 has a birth date, None otherwise |
| Deidentify.LegacyTrialResult | psytools/imagen_psytools_deidentify.py:155-167 | in a written row of a dated trial, the Trial result is the age on its DD-MM-YYYY date when the PSC2 has a birth date and the date parses; None otherwise |
| Deidentify.LegacyNoIdCheck | psytools/imagen_psytools_deidentify.py:109-112 | no line of a legacy output holds an identity-check item in its Trial column |
| Deidentify.Psc2OfTest | psytools/imagen_psytools_deidentify.py:173-175 | a test subject has no PSC2 |
| Deidentify.Psc2OfMarked | psytools/imagen_psytools_deidentify.py:176-183 | a known PSC1 code followed by an 'FU2', 'FU3' or 'SB' marker, or by none when it does not itself end like one, maps to its PSC2 |
| Deidentify.Unidentified | psytools/imagen_psytools_deidentify.py:229-233 | the row loses every removed column, its `id` becomes the PSC2, and every other field is kept |
| Deidentify.Lsrc2Header | psytools/imagen_psytools_deidentify.py:219-220 | the LSRC2 header holds exactly the input's field names that are not removed |
| Deidentify.Lsrc2RowStep | psytools/imagen_psytools_deidentify.py:225-240 | one iteration of the LSRC2 row loop, updating the row in place, gives the row of the specification, None when skipped, or its exception |
| Deidentify.Lsrc2File | psytools/imagen_psytools_deidentify.py:216-241 | `_deidentify_lsrc2`: the header without the removed columns, then the kept rows, up to the first exception |
| Deidentify.Lsrc2Dropped | psytools/imagen_psytools_deidentify.py:226-227 | an LSRC2 row is dropped exactly when its `id` has no PSC2, or an empty one |
| Deidentify.DateAgesKeeps | psytools/imagen_psytools_deidentify.py:234-240 | the date columns' loop changes nothing but the date columns, and keeps them present |
| Deidentify.DateAgesValues | psytools/imagen_psytools_deidentify.py:234-240 | each date column that held a non-empty date holds the age on that date; the others are unchanged |
| Deidentify.DateAgesMissingDob | psytools/imagen_psytools_deidentify.py:238 | the loop raises for a subject without a birth date as soon as one date column is non-empty |
| Deidentify.Lsrc2Kept | psytools/imagen_psytools_deidentify.py:226-241 | a written LSRC2 row has no removed column, its `id` is the non-empty PSC2 of the input's `id`, and every field other than the dates is kept |
| Deidentify.Lsrc2KeptDates | psytools/imagen_psytools_deidentify.py:234-240 | in a written LSRC2 row each non-empty date became the age on that date; empty ones stay empty |
| Deidentify.Lsrc2MissingDob | psytools/imagen_psytools_deidentify.py:238 | an LSRC2 row of a subject without a birth date, with a non-empty date, raises |
| Deidentify.Lsrc2WritesEveryKeptRow | psytools/imagen_psytools_deidentify.py:222-241 | when every row holds only header fields, `writerow` never raises: every kept row is written |
| Deidentify.FormatByPrefix | psytools/imagen_psytools_deidentify.py:264-269 | a name is a legacy export exactly when it starts with 'IMAGEN-IMGN_', an LSRC2 export exactly when it starts with 'Imagen_' or 'STRATIFY_' |
| Deidentify.DeidentifyFile | psytools/imagen_psytools_deidentify.py:262-269 | one name of the directory: the files and write log afterwards are those of the specification's pass; an empty file raises TypeError (its `DictReader.fieldnames` is None) and writes nothing |
| Deidentify.DeidentifyNext | psytools/imagen_psytools_deidentify.py:261-269 | one turn of the directory loop either ends the walk or leaves the rest to start at the next name |
| Deidentify.Deidentify | psytools/imagen_psytools_deidentify.py:245-269 | the files written and the exception that ended the loop are those of the walk over the names |
| DeidentifyCsv.TrialResultKeeps | psytools/imagen_psytools_deidentify_csv.py:152-175 | the dated trials' branches set their Trial result and change nothing else |
| DeidentifyCsv.CsvRow | psytools/imagen_psytools_deidentify_csv.py:89-177 | the `timestamp` a row leaves behind is absent or a valid date |
| DeidentifyCsv.CsvResults | psytools/imagen_psytools_deidentify_csv.py:88-177 | the pass yields at most one result per row |
| DeidentifyCsv.CsvRowStep | psytools/imagen_psytools_deidentify_csv.py:89-175 | one iteration of the row loop, updating the row in place, gives the specification's row and `timestamp` under the `asWritten` flag: the code's test of line 140 (`psc1 in DOB_FROM_PSC2`) or the corrected one |
| DeidentifyCsv.TrialStep | psytools/imagen_psytools_deidentify_csv.py:152-175 | the `if trial == ...` branches, updating the row in place, give the specification's row or its exception |
| DeidentifyCsv.CsvFile | psytools/imagen_psytools_deidentify_csv.py:74-177 | `_create_psc2_file`: the header is the input's field names, then the kept rows, up to the first exception; `asWritten` selects the code's test of line 140 or the corrected one |
| DeidentifyCsv.CsvDropped | psytools/imagen_psytools_deidentify_csv.py:107-136 | a row is dropped exactly when it is an identity check or its PSC1 part is unknown, and the `timestamp` is then left as it was |
| DeidentifyCsv.CsvKept | psytools/imagen_psytools_deidentify_csv.py:107-126 | a written row is no identity check, keeps its Trial and carries the recoded User code |
| DeidentifyCsv.CsvTimestamps | psytools/imagen_psytools_deidentify_csv.py:139-147 | as corrected, a written row's timestamp columns hold the age in days when its PSC2 has a birth date, None otherwise |
| DeidentifyCsv.CsvCarriesTimestamp | psytools/imagen_psytools_deidentify_csv.py:139-145 | the `timestamp` left for later rows is the date of the row's last timestamp column when its PSC2 has a birth date, and the earlier one otherwise |
| DeidentifyCsv.CsvInterval | psytools/imagen_psytools_deidentify_csv.py:166-175 | a written NI-data row's Trial result is the number of days from its DD-MM-YYYY date to the `timestamp` in force, or None when it does not parse |
| DeidentifyCsv.CsvIntervalUnbound | psytools/imagen_psytools_deidentify_csv.py:174 | an NI-data row whose date parses raises UnboundLocalError when no timestamp was converted before it |
| DeidentifyCsv.AsWrittenBlanksTimestamps | psytools/imagen_psytools_deidentify_csv.py:140 | as written (`psc1 in DOB_FROM_PSC2`), a subject whose PSC2 has a birth date loses its timestamps to None, where the corrected test gives the age |
| DeidentifyCsv.CorrectedKeepsTimestamps | psytools/imagen_psytools_deidentify_csv.py:140-145 | as corrected, the same subject's readable timestamps each become its age in days, never None |
| DeidentifyCsv.CsvResultsKeepTrial | psytools/imagen_psytools_deidentify_csv.py:107-110 | every row the pass keeps holds a Trial item that is not an identity check |
| DeidentifyCsv.CsvNoIdCheck | psytools/imagen_psytools_deidentify_csv.py:107-110 | no line of the output holds an identity-check item in its Trial column |
| DeidentifyCsv.CsvOnly | psytools/imagen_psytools_deidentify_csv.py:197-198 | a name that is not a '.csv' file writes nothing and raises nothing |
| DeidentifyCsv.CsvDirectoryFile | psytools/imagen_psytools_deidentify_csv.py:197-201 | one name of the directory: the files and write log afterwards are those of the specification's pass, under the same `asWritten` flag; an empty file raises TypeError (its `DictReader.fieldnames` is None) and writes nothing |
| DeidentifyCsv.CsvNext | psytools/imagen_psytools_deidentify_csv.py:196-201 | one turn of the directory loop either ends the walk or leaves the rest to start at the next name, under the same `asWritten` flag |
| DeidentifyCsv.CreatePsc2Files | psytools/imagen_psytools_deidentify_csv.py:180-201 | the files written and the exception that ended the loop are those of the walk over the names, under the same `asWritten` flag (`true`: the code as written) |
| ProcessCsv.ConvertPositions | psytools/imagen_psytools_process_csv.py:74-76 | the columns to convert are exactly those whose header field contains 'Timestamp', in increasing order |
| ProcessCsv.ConvertItemsMeaning | psytools/imagen_psytools_process_csv.py:128-136 | with distinct columns the conversion succeeds exactly when every column exists and each timestamp converts; the converted columns then hold their ages ('' without a birth date) and the others are untouched |
| ProcessCsv.LineDropped | psytools/imagen_psytools_process_csv.py:83-127 | a line is dropped exactly when it holds `id_check`, names a test subject, or names a PSC1 code the table lacks |
| ProcessCsv.MissingSuffix | psytools/imagen_psytools_process_csv.py:107-123 | a known subject whose first field has no '-' raises TypeError in `'-'.join((psc2, None))` |
| ProcessCsv.LineWritten | psytools/imagen_psytools_process_csv.py:80-137 | a written line has as many fields as the line read; its first field is `PSC2-suffix` unless converted, each converted column holds its age, and every other field is copied |
| ProcessCsv.HeaderFirst | psytools/imagen_psytools_process_csv.py:74-78 | the output starts with the stripped header on a line of its own, whatever follows |
| ProcessCsv.ConvertStep | psytools/imagen_psytools_process_csv.py:128-136 | the `for i in convert` loop, updating `items` in place, gives the specification's fields or its exception |
| ProcessCsv.LineStep | psytools/imagen_psytools_process_csv.py:80-137 | the body of `for line in psytools_file` for one line gives the specification's line, None when skipped, or its exception |
| ProcessCsv.LinesAdvance | psytools/imagen_psytools_process_csv.py:79-137 | one more line of the pass: what it writes and where the rest of the pass continues |
| ProcessCsv.LineNext | psytools/imagen_psytools_process_csv.py:79-137 | one turn of the line loop either ends the pass or leaves the rest to start at the next line |
| ProcessCsv.ProcessBody | psytools/imagen_psytools_process_csv.py:79-137 | the line loop writes the lines of the specification, up to its first exception |
| ProcessCsv.ProcessFile | psytools/imagen_psytools_process_csv.py:72-137 | `_create_psc2_file`: the header, then each kept line as written; an exception ends the file where it was raised |
| ProcessCsv.ProcessDirectoryFile | psytools/imagen_psytools_process_csv.py:157-159 | one name of the directory: the files and write log afterwards are those of the specification's pass |
| ProcessCsv.ProcessNext | psytools/imagen_psytools_process_csv.py:156-159 | one turn of the directory loop either ends the walk or leaves the rest to start at the next name |
| ProcessCsv.CreatePsc2Files | psytools/imagen_psytools_process_csv.py:140-159 | the files written and the exception that ended the loop are those of the walk over the names |
| DawbaProcess.ConvertPositions | dawba/imagen_dawba_process.py:136-138 | the columns to convert are exactly those whose header field contains 'sstartdate' or 'p1startdate', in increasing order |
| DawbaProcess.ConvertDatesMeaning | dawba/imagen_dawba_process.py:150-161 | with distinct columns the conversion succeeds exactly when every column exists and each non-empty date converts; the converted columns then hold their ages ('' when empty or without a birth date) and the others are untouched |
| DawbaProcess.LineDropped | dawba/imagen_dawba_process.py:143-170 | a line is dropped exactly when its DAWBA code is missing from the table |
| DawbaProcess.UnknownPsc2 | dawba/imagen_dawba_process.py:144-147 | a known DAWBA code whose PSC2 code has no PSC1 code raises KeyError |
| DawbaProcess.LineWritten | dawba/imagen_dawba_process.py:142-162 | a written line has as many fields as the line read; its first field is the PSC2 code unless converted, each converted column holds its age, and every other field, the last one with its newline, is copied |
| DawbaProcess.WrittenFromRead | dawba/imagen_dawba_process.py:141-170 | every line written comes from a line of the export, and there are no more of them than lines read |
| DawbaProcess.NothingKnown | dawba/imagen_dawba_process.py:141-170 | when no line carries a known DAWBA code, nothing is written after the header and nothing is raised |
| DawbaProcess.HeaderKept | dawba/imagen_dawba_process.py:136-140 | the header line is copied as read, and an export with no known DAWBA code is written as its header line alone |
| DawbaProcess.DateStep | dawba/imagen_dawba_process.py:150-161 | the `for i in convert` loop, updating `items` in place, gives the specification's fields or its exception |
| DawbaProcess.LineStep | dawba/imagen_dawba_process.py:142-170 | the body of `for line in dawba_file` for one line gives the specification's line, None when dropped, or its exception |
| DawbaProcess.LinesAdvance | dawba/imagen_dawba_process.py:141-170 | one more line of the pass: what it writes and where the rest of the pass continues |
| DawbaProcess.LineNext | dawba/imagen_dawba_process.py:141-170 | one turn of the line loop either ends the pass or leaves the rest to start at the next line |
| DawbaProcess.DawbaBody | dawba/imagen_dawba_process.py:141-170 | the line loop writes the lines of the specification, up to its first exception |
| DawbaProcess.DawbaFile | dawba/imagen_dawba_process.py:134-170 | `_create_psc2_file`: the header line, then each kept line as written; an exception ends the file where it was raised |
| DawbaProcess.DawbaDirectoryFile | dawba/imagen_dawba_process.py:190-192 | one name of the directory: the files and write log afterwards are those of the specification's pass |
| DawbaProcess.DawbaNext | dawba/imagen_dawba_process.py:189-192 | one turn of the directory loop either ends the walk or leaves the rest to start at the next name |
| DawbaProcess.CreatePsc2Files | dawba/imagen_dawba_process.py:173-192 | the files written and the exception that ended the loop are those of the walk over the names |
| ProcessJson.RemoveKeyObject | psytools/imagen_psytools_process_json.py:44-45 | on a dict, removing a key leaves a dict without it and every other key as it was |
| ProcessJson.RemoveKeysObject | psytools/imagen_psytools_process_json.py:43-45 | on a dict, the first loop leaves a dict without 'id', 'token' and 'ipaddr' and every other key as it was |
| ProcessJson.AgeKeyObject | psytools/imagen_psytools_process_json.py:47-51 | on a dict, one date key converts exactly when its value does: a missing or falsy value is kept, a date string becomes the age in days; every other key is kept |
| ProcessJson.AgeKeysObject | psytools/imagen_psytools_process_json.py:46-51 | on a dict, the second loop succeeds exactly when each date key converts, and keeps every other key |
| ProcessJson.AnonymizeObject | psytools/imagen_psytools_process_json.py:40-52 | on a dict, `_anonymize` succeeds exactly when each date key converts; then the identifying keys are gone, each date key holds its age, and every other key keeps its value |
| ProcessJson.AnonymizeStep | psytools/imagen_psytools_process_json.py:40-52 | the two loops of `_anonymize`, updating the response in place, give the specification's response or its exception |
| ProcessJson.CollectRaised | psytools/imagen_psytools_process_json.py:59-68 | once a member raises, the loop raises that exception |
| ProcessJson.CollectOk | psytools/imagen_psytools_process_json.py:58-69 | the new dict is built exactly when no member raises |
| ProcessJson.CollectKeys | psytools/imagen_psytools_process_json.py:58-69 | the keys of the dict built are distinct and are those the members contribute |
| ProcessJson.CollectValues | psytools/imagen_psytools_process_json.py:66 | each key of the dict built holds the value of the last member contributing it |
| ProcessJson.RekeyKeys | psytools/imagen_psytools_process_json.py:55-69 | on a dict, the new dict is built exactly when every kept member anonymizes; its keys are distinct and are exactly the PSC2 codes of the members that are not tests and whose PSC1 code (with 'FU3' or 'FU2' removed) is known |
| ProcessJson.RekeyValues | psytools/imagen_psytools_process_json.py:59-66 | each key of the new dict holds the anonymized answers of the last member re-keyed to it |
| ProcessJson.RekeyMember | psytools/imagen_psytools_process_json.py:60-68 | one turn of the loop: the member is skipped, stored in the new dict, or raises, as the specification says |
| ProcessJson.RekeyStep | psytools/imagen_psytools_process_json.py:55-69 | `_psc2_response_from_psc1_reponse` fills the new dict in a loop and returns the specification's dict or its exception |
| ProcessJson.GatherMeaning | psytools/imagen_psytools_process_json.py:89-90 | the list is built exactly when no element raises, and then holds the re-keyed elements in order |
| ProcessJson.GatherRaised | psytools/imagen_psytools_process_json.py:89-90 | once an element raises, the comprehension raises that exception |
| ProcessJson.ProcessResponsesObject | psytools/imagen_psytools_process_json.py:88-90 | without 'responses' the file is left as it is; with a list under 'responses' the result exists exactly when no response raises, and then the i-th element of the new list is `Rekey` of the i-th response, in place, while every other key keeps its value and position |
| ProcessJson.RekeyResponses | psytools/imagen_psytools_process_json.py:89-90 | the list comprehension gives the specification's list or its exception |
| ProcessJson.JsonFile | psytools/imagen_psytools_process_json.py:85-93 | `_create_psc2_file`: decode, rewrite the responses, encode with sorted keys, as the specification says |
| ProcessJson.JsonDirectoryFile | psytools/imagen_psytools_process_json.py:111-113 | one name of the directory: the files and write log afterwards are those of the specification's pass |
| ProcessJson.JsonNext | psytools/imagen_psytools_process_json.py:110-113 | one turn of the directory loop either ends the walk or leaves the rest to start at the next name |
| ProcessJson.CreatePsc2Files | psytools/imagen_psytools_process_json.py:96-113 | the files written and the exception that ended the loop are those of the walk over the names |
| DownloadCsv.NormalDigestProperties | psytools/imagen_psytools_download_csv.py:169 | the normalised digest holds no space and no lower-case letter, and normalising it again changes nothing |
| DownloadCsv.DatasetName | psytools/imagen_psytools_download_csv.py:170 | the dataset name is 'IMAGEN-' + task + '-' + normalised digest + '.csv', and the digest can be read back from it |
| DownloadCsv.DatasetUrl | psytools/imagen_psytools_download_csv.py:172 | the URL is the base URL followed by the dataset name and '.gz' |
| DownloadCsv.UnfoldPairs | psytools/imagen_psytools_download_csv.py:164-181 | substituting the non-greedy quoted pattern keeps the length and turns into '/' exactly the newlines between the first and second quote, the third and fourth, and so on |
| DownloadCsv.UnfoldKeepsQuotes | psytools/imagen_psytools_download_csv.py:164-181 | unfolding keeps every quote where it is, adds none, and changes only newlines into '/' |
| DownloadCsv.UnfoldIdempotent | psytools/imagen_psytools_download_csv.py:164-181 | unfolding an unfolded text changes nothing |
| DownloadCsv.TimepointChoice | psytools/imagen_psytools_download_csv.py:182-190 | a task goes to the baseline directory exactly when its name holds no '_FU'; otherwise '_FU3' wins over '_FU2', which wins over '_FU' |
| DownloadCsv.Output | psytools/imagen_psytools_download_csv.py:168-191 | a dataset goes to its name in the directory of its timepoint, holding its fetched text unfolded, of the same length |
| DownloadCsv.FirstFailure | psytools/imagen_psytools_download_csv.py:175-178 | the index where the loop stops: no later than the number of datasets, and the fetch at that index, if any, raises |
| DownloadCsv.FetchedBefore | psytools/imagen_psytools_download_csv.py:175-178 | every dataset before the one where the loop stops was fetched without exception |
| DownloadCsv.Outputs | psytools/imagen_psytools_download_csv.py:168-201 | one output per dataset before the first failed fetch, each the output of that dataset's fetched text |
| DownloadCsv.DownloadError | psytools/imagen_psytools_download_csv.py:175-178 | `download_csv` ends without exception exactly when every fetch succeeds |
| DownloadCsv.DownloadNext | psytools/imagen_psytools_download_csv.py:168-201 | one turn of the loop either ends it with the exception of the first failed fetch, the files being final, or extends the files by one output |
| DownloadCsv.DownloadOne | psytools/imagen_psytools_download_csv.py:168-201 | one turn of the loop fetches the dataset's URL; a fetch that raises (connection error, body that is not gzip, text that does not decode) raises out of the loop and writes nothing, otherwise the output is written unless the file already holds it |
| DownloadCsv.Download | psytools/imagen_psytools_download_csv.py:167-201 | the datasets are fetched in order up to and including the first whose fetch raises, which is the exception returned; the files afterwards are those of applying the outputs fetched before it, and the write log grows by exactly the paths whose text changed |
| DownloadCsv.RerunDownloadsNothing | psytools/imagen_psytools_download_csv.py:192-197 | when no two datasets share a path, running the download again on the same server data writes nothing |
| DownloadJson.TokenMapLookup | psytools/imagen_psytools_download_json.py:257-262 | once the participant loop completes, looking a token up gives the PSC1 code of the last participant holding it, and raises KeyError for a token no participant holds |
| DownloadJson.BuildTokenMap | psytools/imagen_psytools_download_json.py:257-262 | the participant loop, updating the dict in place, builds the specification's token map or raises its exception |
| DownloadJson.TokenMapFailureSticks | psytools/imagen_psytools_download_json.py:259-262 | once a participant raises, the whole loop raises the same exception |
| DownloadJson.KeyedObjectDistinct | psytools/imagen_psytools_download_json.py:274-275 | distinct comparable keys get distinct texts, so the serialised object has no duplicate key |
| DownloadJson.RekeyItemsKeys | psytools/imagen_psytools_download_json.py:271-272 | every dict the inner comprehension builds has hashable, pairwise distinct keys |
| DownloadJson.RekeyItemsMeaning | psytools/imagen_psytools_download_json.py:271-272 | every member of a re-keyed record is the value of one of its items, under the PSC1 code that item's token maps to |
| DownloadJson.RekeyRecord | psytools/imagen_psytools_download_json.py:271-272 | a record that is not a dict raises AttributeError (`r.items()`); a re-keyed record is a dict with hashable, distinct keys, each member the value of one of the record's items under the PSC1 code of that item's token |
| DownloadJson.RekeyRecords | psytools/imagen_psytools_download_json.py:271-273 | when no record raises, the list holds the re-keyed records one for one, in order; nothing is serialised yet |
| DownloadJson.RekeyRecordsRaises | psytools/imagen_psytools_download_json.py:271-273 | the comprehension raises exactly when some record raises, and then with the exception of the first such record |
| DownloadJson.KeyedRecords | psytools/imagen_psytools_download_json.py:274-275 | the key sort of `json.dumps(..., sort_keys=True)` over the re-keyed records raises only TypeError; otherwise each record becomes the object keyed by the texts of its keys, one for one |
| DownloadJson.KeyedRecordsOk | psytools/imagen_psytools_download_json.py:274-275 | the key sort succeeds exactly when every record's keys can be compared |
| DownloadJson.Rekey | psytools/imagen_psytools_download_json.py:270-275 | a document without 'responses' is kept as it is |
| DownloadJson.RekeyRaisesFirst | psytools/imagen_psytools_download_json.py:270-275 | in a dict with a 'responses' list, the first record that raises while being re-keyed decides the exception, before any key of any record is compared |
| DownloadJson.RekeyReplacesRecords | psytools/imagen_psytools_download_json.py:270-275 | in a dict with a 'responses' list, that member becomes the list of re-keyed records, one for one, each with its keys sorted as their texts, and every other member is kept |
| DownloadJson.FileName | psytools/imagen_psytools_download_json.py:278-280 | the file name made from a title holds no space and ends with '.json' |
| DownloadJson.OutputPath | psytools/imagen_psytools_download_json.py:278-282 | a title that is a string gives a '.json' path in the FU3 master directory (the title itself when it is absolute); any other title raises AttributeError |
| DownloadJson.FileNameKeepsSlash | psytools/imagen_psytools_download_json.py:278-282 | the file name starts with '/' only if the title does, so only such a title escapes the master directory |
| DownloadJson.SurveyRequests | psytools/imagen_psytools_download_json.py:258-265 | a survey makes at most two requests, neither of which releases the session key |
| DownloadJson.SurveysNoRelease | psytools/imagen_psytools_download_json.py:250-296 | the survey loop never releases the session key |
| DownloadJson.SurveyNumbered | psytools/imagen_psytools_download_json.py:86-97 | a survey's requests take the identifiers that follow the last one issued |
| DownloadJson.BodyNumbered | psytools/imagen_psytools_download_json.py:249-296 | the requests of the `with` body take the identifiers that follow the last one issued |
| DownloadJson.DownloadNumbered | psytools/imagen_psytools_download_json.py:86-97 | every request of a run carries the identifier after the one before it: the counter is shared and moves on by one per request |
| DownloadJson.DownloadIssued | psytools/imagen_psytools_download_json.py:61-88 | a run only sends identifiers above those already issued, in increasing order |
| DownloadJson.BodyNoRelease | psytools/imagen_psytools_download_json.py:249-296 | the `with` body never releases the session key |
| DownloadJson.ReleasedOnceAtEnd | psytools/imagen_psytools_download_json.py:70-83 | once a session key was obtained, the first request asked for it and the key is released exactly once, by the very last request |
| DownloadJson.SessionReleasesLast | psytools/imagen_psytools_download_json.py:75-83 | the `with` block with a session key sends the body's requests, none of which releases the key, and then releases the key by its last request |
| DownloadJson.NoKeyNoRelease | psytools/imagen_psytools_download_json.py:63-70 | when asking for the key fails, that request is the only one, nothing is written, and the run raises its exception |
| DownloadJson.SurveyOutcomeLookups | psytools/imagen_psytools_download_json.py:251-252 | a survey that is not a dict raises TypeError before any request |
| DownloadJson.SurveyOutcomeWrites | psytools/imagen_psytools_download_json.py:250-296 | a survey gives a file only when both of its requests succeeded, and the file is named after that survey's title |
| DownloadJson.LoopOutputsFromPasses | psytools/imagen_psytools_download_json.py:250-296 | each file of the loop is the file of one pass, over one of the surveys |
| DownloadJson.SurveysWriteTitled | psytools/imagen_psytools_download_json.py:250-296 | each file the survey loop writes is named after the title of one of the surveys listed |
| DownloadJson.FetchSurvey | psytools/imagen_psytools_download_json.py:257-265 | the two requests of a pass: the participants and the token map built from them, then, if that succeeded, the responses |
| DownloadJson.WriteSurvey | psytools/imagen_psytools_download_json.py:270-296 | re-key, serialise, name the file and write it unless it already holds the text; on an exception nothing is written |
| DownloadJson.FetchAndWrite | psytools/imagen_psytools_download_json.py:255-296 | one pass once the title and the id are known: the files and requests are those of the specification's pass |
| DownloadJson.DownloadSurvey | psytools/imagen_psytools_download_json.py:250-296 | the body of the survey loop for one survey gives the pass's file, requests and exception |
| DownloadJson.DownloadNext | psytools/imagen_psytools_download_json.py:250-296 | one turn of the survey loop: the loop ends if the survey raised, and goes on to the next survey otherwise |
| DownloadJson.DownloadEach | psytools/imagen_psytools_download_json.py:250-296 | the survey loop: the files afterwards are those of applying every output in order, and the write log grows by exactly the changed paths; the first exception ends the loop |
| DownloadJson.DownloadSurveys | psytools/imagen_psytools_download_json.py:249-296 | the `with` body: list the surveys, then download each in turn |
| DownloadJson.DownloadOpened | psytools/imagen_psytools_download_json.py:75-83 | the `with` statement: the body, then `__exit__`, which releases the key whether or not the body raised |
| DownloadJson.DownloadAs | psytools/imagen_psytools_download_json.py:243-296 | `download_json` with credentials: the session is released whenever it was opened, and an exception from the release takes precedence |
| DownloadJson.DownloadJson | psytools/imagen_psytools_download_json.py:243-296 | without netrc credentials, unpacking raises TypeError before anything is sent; otherwise the run is the specification's run, and identifiers stay increasing across runs sharing the counter |
| LimeSurvey.Envelope | psytools/imagen_psytools_download_json.py:91-97 | the JSON-RPC envelope of a request carries "2.0" under 'jsonrpc', its identifier under 'id', its method under 'method' and its parameters, in order, under 'params' |
| LimeSurvey.RequestCounter.constructor | psytools/imagen_psytools_download_json.py:61 | the class-wide counter starts at 0 |
| LimeSurvey.RequestCounter.Next | psytools/imagen_psytools_download_json.py:85-88 | each new request takes the next integer, one more than the last issued |
| LimeSurvey.Server.constructor | psytools/imagen_psytools_download_json.py:99-110 | the remote end starts with nothing sent and its replies to come |
| LimeSurvey.Server.Post | psytools/imagen_psytools_download_json.py:102-103 | posting a request records it, records its JSON-RPC envelope as the body posted, and takes the next reply |
| LimeSurvey.IncreasingSnoc | psytools/imagen_psytools_download_json.py:86-88 | posting a request numbered above the last one keeps the identifiers increasing |
| LimeSurvey.IssuedNumbered | psytools/imagen_psytools_download_json.py:86-88 | requests numbered from the counter on keep every identifier issued once, in order |
| LimeSurvey.IncreasingIds | psytools/imagen_psytools_download_json.py:61-88 | no two requests posted share an identifier: an earlier one has a smaller identifier |
| LimeSurvey.Answer | psytools/imagen_psytools_download_json.py:99-110 | `_post` succeeds exactly when the reply is a dict with the request's 'id', a 'result' and an 'error', and then returns those two; an unreachable server raises ConnectionError, a reply that is not JSON ValueError and a reply with another `id` AssertionError |
| LimeSurvey.RaiseOnError | psytools/imagen_psytools_download_json.py:38-50 | `error2exception` lets the result through exactly when the error is falsy; otherwise it raises LimeSurveyError with the error's message and code, or with code -32603 when the error lacks either |
| LimeSurvey.StatusErrorRaises | psytools/imagen_psytools_download_json.py:127-131 | an error made from a status surfaces as LimeSurveyError(status, -32099) |
| LimeSurvey.ParticipantsResult | psytools/imagen_psytools_download_json.py:146-173 | 'No Tokens found' is an empty survey whatever the error says; any other status raises with code -32099; a result without 'status' goes through `error2exception` |
| LimeSurvey.ResponsesResult | psytools/imagen_psytools_download_json.py:181-216 | a string result is decoded (undecodable JSON raises ValueError); otherwise 'No Data, could not get max id.' is an empty survey, any other status raises with code -32099, and a result without 'status' raises the Base64 message with code -32099 |
| LimeSurvey.Session.constructor | psytools/imagen_psytools_download_json.py:63-68 | a new session has its address, shares the counter and the remote end, has no key yet and an open HTTP session |
| LimeSurvey.Session.Call | psytools/imagen_psytools_download_json.py:91-110 | `_request` then `_post`: the counter moves on by one, the request is posted under that identifier as its envelope (so the body carries '2.0', the new identifier, the method and the parameters), and the reply is checked |
| LimeSurvey.Session.Open | psytools/imagen_psytools_download_json.py:112-134 | creating a session sends `get_session_key` with the credentials; when `_post` raises so does the creation, otherwise the key kept is the one `_get_session_key` returns |
| LimeSurvey.Session.ReleaseSessionKey | psytools/imagen_psytools_download_json.py:136-139 | `release_session_key` is sent with the key; its reply's content is ignored and only a failing `_post` raises |
| LimeSurvey.Session.Close | psytools/imagen_psytools_download_json.py:79-83 | the key is released, then forgotten and the HTTP session closed; when the release raises neither happens |
| LimeSurvey.Session.Surveys | psytools/imagen_psytools_download_json.py:141-144 | `list_surveys` is sent with the key and its reply goes through `error2exception` |
| LimeSurvey.Session.Participants | psytools/imagen_psytools_download_json.py:146-173 | `list_participants` is sent with the key, the survey, 0, 5000, False and the attributes, and its reply is repaired as `participants` does |
| LimeSurvey.Session.ParticipantProperties | psytools/imagen_psytools_download_json.py:175-179 | `get_participant_properties` is sent and its reply goes through `error2exception` |
| LimeSurvey.Session.Responses | psytools/imagen_psytools_download_json.py:181-216 | `export_responses` is sent with the key, the survey, 'json', 'fr' and the status, and its reply is repaired as `responses` does |
| ImageData.LooseTable | imagen_databank/image_data.py:76-98 | the table of loose series-description patterns has 13 entries, in the order in which they are tried |
| ImageData.FirstType | imagen_databank/image_data.py:155-158 | a type is found exactly when some entry from the start on is found in the description, and it is the type of the first such entry |
| ImageData.FoundIsSearch | imagen_databank/image_data.py:80-98 | each entry is found exactly when `re.search` finds its pattern, with or without IGNORECASE as the table says |
| ImageData.FlairBeforeT2 | imagen_databank/image_data.py:84-86 | a description holding 'FLAIR' is a T2 Flair series unless it is a localizer or calibration, whatever else it holds |
| ImageData.FirstTypeIs | imagen_databank/image_data.py:155-158 | an entry that is found, with no earlier entry found, decides the type |
| ImageData.CaseInsensitiveEntries | imagen_databank/image_data.py:80-98 | every entry but 'B0' and 'DTI' ignores case: it finds the same in a description and in its upper-case form |
| ImageData.CaseSensitiveEntries | imagen_databank/image_data.py:93-96 | 'B0' and 'DTI' are case-sensitive: they are found exactly where the description holds them in upper case |
| ImageData.LiteralFound | imagen_databank/image_data.py:93-96 | a case-sensitive literal entry is found exactly when the description holds the word |
| ImageData.Walk | imagen_databank/image_data.py:185-204 | the files yielded, at most one per file, and the exception that ends the walk, under the `asWritten` flag: as written only IOError is caught and any other exception of `read_metadata` becomes NameError (see "## Findings") |
| ImageData.WalkEnds | imagen_databank/image_data.py:195-204 | the walk ends early exactly when some file not named 'DICOMDIR…' raises an exception that is not caught, and as written that exception is NameError |
| ImageData.WalkYieldsKept | imagen_databank/image_data.py:185-204 | everything yielded is the metadata and relative path of a file that is not named 'DICOMDIR…' and was read |
| ImageData.WalkYieldsAll | imagen_databank/image_data.py:185-204 | a walk that is not ended early yields every file that is not named 'DICOMDIR…' and was read |
| ImageData.WalkOne | imagen_databank/image_data.py:187-204 | one file is yielded, skipped, or ends the walk with its escaped exception |
| ImageData.WalkAppend | imagen_databank/image_data.py:185-204 | the walk goes through the files in order: over `a + b` it yields what it yields over `a`, then, unless `a` ended it, what it yields over `b` |
| ImageData.ReportWalk | imagen_databank/image_data.py:236 | `report_image_data` over the directory: without an early end of the walk it is the report of the files yielded, and it succeeds only when the walk is not ended early |
| ImageData.InvalidDicomEndsWalk | imagen_databank/image_data.py:197-199 | as written, a file that is not valid DICOM between two readable ones ends the walk with NameError after the first; as intended it is skipped and both are yielded |
| ImageData.IntendedWalkCompletes | imagen_databank/image_data.py:195-204 | as intended, a directory whose unreadable files all raise IOError, InvalidDicomError or AttributeError is walked to its end |
| ImageData.Truthy | imagen_databank/image_data.py:244-290 | a series records exactly the optional tags that are present and non-empty, PSC1 included, with their values |
| ImageData.ReadImage | imagen_databank/image_data.py:238-258 | a missing mandatory tag raises KeyError; without an acquisition date the time stamp of the previous file is used again, and the first file has none (UnboundLocalError); the time stamp is the date combined with the time, or midnight |
| ImageData.ReadImages | imagen_databank/image_data.py:237-258 | every file read gives one image, and the time stamp carried on is that of the last image |
| ImageData.ReportImageData | imagen_databank/image_data.py:235-392 | the loop over the files, updating the series dict in place, gives the series of the images read, or the first exception; an inconsistent series is logged and keeps its first values, AS CORRECTED (see "## Findings"; the code as written is `ImageData.ReportAsWritten`) |
| ImageData.ReadStops | imagen_databank/image_data.py:237-258 | once a file raises, the whole report raises the same exception |
| ImageData.CollectSeries | imagen_databank/image_data.py:271-292 | there is a series for each series UID of the images, and no other |
| ImageData.CollectFirst | imagen_databank/image_data.py:272-309 | a series' number and description are those of its first image |
| ImageData.CollectImageType | imagen_databank/image_data.py:275-294 | a series' ImageType is the union of the ImageType of its images |
| ImageData.CollectTag | imagen_databank/image_data.py:279-376 | a series carries an optional tag exactly when one of its images does |
| ImageData.CollectTagFirst | imagen_databank/image_data.py:279-376 | the tag's value is that of the first image of the series that carries it |
| ImageData.CollectImages | imagen_databank/image_data.py:378-379 | every image of a series is listed under its SOP instance UID |
| ImageData.CollectImagesFirst | imagen_databank/image_data.py:378-385 | a duplicate SOP instance UID keeps the path of the first image that had it |
| ImageData.EarlierOrder | imagen_databank/image_data.py:387-390 | comparing date-times is a strict total order |
| ImageData.CollectRange | imagen_databank/image_data.py:387-390 | the time range of a series holds the time stamp of each of its images |
| ImageData.CollectRangeAttained | imagen_databank/image_data.py:387-390 | the ends of the range are time stamps of images of the series |
| ImageData.AddImageAsWritten | imagen_databank/image_data.py:294-376 | one iteration as written raises TypeError exactly when a later image disagrees with its series on a value the loop reports, and otherwise adds the image as the corrected loop does |
| ImageData.InconsistentSeriesRaises | imagen_databank/image_data.py:296-301 | as written, two images of one series with different series numbers raise TypeError |
| ImageData.InconsistentSeriesReported | imagen_databank/image_data.py:279-301 | the corrected report of the same two images succeeds, keeps the first image's series number and lists both images |
| AdditionalData.LooseTable | imagen_databank/additional_data.py:24-35 | the loose table has one entry per SOP file type, in the order of the SOP names (detailed datasheet before datasheet), each pattern ignoring case |
| AdditionalData.ExactTable | imagen_databank/additional_data.py:37-46 | the exact table has one entry per SOP file type, in the order of the SOP names, and a pattern ignores case exactly when its type is the `ss_` one |
| AdditionalData.FirstFit | imagen_databank/additional_data.py:75-81 | a type is found exactly when some entry matches at the start of the file name, and it is the type of the first such entry |
| AdditionalData.PathsOfType | imagen_databank/additional_data.py:136-141 | the paths of one type keep the walk order and are at most as many as the files |
| AdditionalData.GroupedStep | imagen_databank/additional_data.py:138-141 | one turn of the grouping loop appends the path under its type when it has one, and changes nothing otherwise |
| AdditionalData.GroupAdditionalFiles | imagen_databank/additional_data.py:134-143 | the loop, updating the dict in place with `setdefault(...).append`, builds the grouping of the typed files |
| AdditionalData.GroupedByType | imagen_databank/additional_data.py:134-143 | a type is a key exactly when some file has that type, and it lists the paths of all such files in walk order |
| AdditionalData.PathsOfTypeMembers | imagen_databank/additional_data.py:136-141 | a path is listed under a type exactly when a file of that type has that path |
| AdditionalData.GroupedFiles | imagen_databank/additional_data.py:134-143 | grouping the walked files lists a path under a type exactly when its file name is classified as that type; unmatched files appear under no type |
| AdditionalData.SopMatches | imagen_databank/additional_data.py:25-30 | a name made of the word, '_' and word characters, then the extension, fits the loose `(\w+_)?word(_\w+)?ext` pattern |
| AdditionalData.TaskMatches | imagen_databank/additional_data.py:31-34 | a name made of a task prefix such as 'ft_', word characters and the extension fits the loose task pattern |
| AdditionalData.ExactMatches | imagen_databank/additional_data.py:37-46 | a name made of the prefix, twelve digits, an optional 'fu' or 'FU' and the extension fits the exact pattern |
| AdditionalData.PrefixesDiffer | imagen_databank/additional_data.py:37-46 | the prefixes of the SOP names differ pairwise in some character they both have |
| AdditionalData.ExactRefuted | imagen_databank/additional_data.py:37-46 | the exact pattern of one entry does not fit a name starting with another entry's prefix |
| AdditionalData.ExactClassification | imagen_databank/additional_data.py:37-46 | with exact matching, a file named as the SOPs say, whatever follows the name, is given the type of its own name |
| AdditionalData.FirstFitIs | imagen_databank/additional_data.py:75-81 | an entry that fits, with no earlier one fitting, decides the type |
| AdditionalData.SopNameIsLoose | imagen_databank/additional_data.py:24-46 | a file named as the SOPs say is also recognised by the loose matching |
| AdditionalData.MatchSopsExtends | imagen_databank/additional_data.py:76 | `re.match` anchors only at the start: text appended to a recognised name keeps it recognised |
| AdditionalData.LooseIgnoresCase | imagen_databank/additional_data.py:24-35 | loose matching ignores case: upper-casing a file name does not change its type |
| AdditionalData.DetailedBeforeDatasheet | imagen_databank/additional_data.py:20-29 | a name fitting the detailed-datasheet pattern is never classified as a plain datasheet: the order of the loose table decides |
| AdditionalData.DatasheetFitsDetailedName | imagen_databank/additional_data.py:29 | the plain datasheet pattern also fits the SOP name of a detailed datasheet |
| AdditionalData.DetailedNameClassified | imagen_databank/additional_data.py:20-35 | yet the SOP name of a detailed datasheet is classified as one |
| AdditionalData.DatasheetInDetailed | imagen_databank/additional_data.py:29 | 'datasheet', after the optional prefix 'detailed_', matches a detailed datasheet name |
| AdditionalData.CantRefuted | imagen_databank/additional_data.py:25 | the Cantab pattern does not fit the SOP name of a detailed datasheet |
| AdditionalData.CantAbsent | imagen_databank/additional_data.py:25 | the Cantab pattern does not match a text that starts like a detailed datasheet name |

## Left out

- HTTP (`requests.Session.post`, `requests.get`), gzip decompression and `TextIOWrapper` are not modelled. A reply is a `LimeSurvey.Reply` (unreachable, not JSON, or a decoded body) taken from the `Server`'s scripted list. The CSV download takes a `fetch` function from URL to the decompressed text or the exception `requests.get`, `gzip` or the decoding raises. `_post` sends `data=json.dumps(request)`; `LimeSurvey.Server` records the envelope document it serialises, not that text.
- Base64 decoding and `json.loads` are a `decode` parameter; failure raises ValueError. The byte-level formats (RFC 4648 section 4, RFC 8259) are not modelled.
- `_get_netrc_auth` and `expanduser` are replaced by an optional `(username, password)` parameter of `DownloadJson.DownloadJson`.
- The `print` of each survey's id and title in `download_json`, the unused `tid`, and every logging call are not modelled. Logging includes the DAWBA withdrawn/missing classification, which only chooses the log level.
- `os.walk`, `os.listdir`, `glob`, `open` and file reads are not modelled. A directory is a sequence of names, and the file system a map from path to text.
- `read_datasheet` is not part of this model. The CANTAB script takes the datasheets as values, and its `print` becomes the returned list of lines.
- `read_metadata`, DICOM parsing and the elapsed-time log are not modelled. `walk_image_data` takes what reading each file gives: its metadata, or the exception `read_metadata` raises.
- `report_additional_data` past the grouping loop (additional_data.py lines 147-210) is not modelled: it calls modules that are not part of this model.
- The tables that `imagen_databank/core.py` loads at import time are not modelled: the line-parsing functions take the file's lines.
- `csv.DictReader`/`DictWriter` quoting is abstracted: the de-identification passes take `parse` and `render` functions. A row is a map from column name to text. `parse` always yields field names, so the one input for which `DictReader.fieldnames` is None, an empty file, is decided before `parse` is called: `Deidentify.DeidentifyRun` and `DeidentifyCsv.CsvRun` raise TypeError for it and write nothing, as the comprehension over `fieldnames` does.
- Regex.Run: `\d` and `\w` are the ASCII classes, and IGNORECASE folds ASCII letters only. For `str` patterns Python 3 matches any Unicode decimal digit with `\d`, any Unicode alphanumeric with `\w`, and folds case by Unicode simple case folding (the Kelvin sign matches 'k', the long s matches 's'). A name written with such characters may therefore match in the source and not in the model. The same holds for every member built on it: Regex.Ends, Regex.Matches, Regex.Find, Scanning.SubjectIdOf, ImageData.FirstType, AdditionalData.FirstFit and AdditionalData.MatchSops.
- Core.DetectPsc1, Core.DetectPsc2, Core.DetectCode and Core.DobFields read `\d` as an ASCII digit. A code or birth date written with other Unicode decimal digits, which the source's regular expressions would match and `int` would read, is not found.
- Strptime.ParseDate reads the digits of `%d`, `%m`, `%y`, `%Y`, `%H`, `%M`, `%S` and `%f` as ASCII digits only. Python's `_strptime` uses `\d`, which also matches other Unicode decimal digits.
- Core.Unprintable decides `str.isprintable` exactly up to U+00FF. Above that it covers the separators, the format characters listed, the private use areas and the noncharacters. Any other unassigned (Cn) or format (Cf) code point is treated as printable. Core.ReprChar, Core.Repr, Core.Shown and Core.ErrorText then show it as it is, where Python escapes it. The requires of Core.ReprPlain admits those code points for the same reason.
- Floating-point JSON numbers are not modelled.
- `str.upper` is modelled on ASCII letters only.
- `datetime.strptime` is modelled only for the formats the scripts use. For `%y`, Python's pivot (69–99 → 19xx, 00–68 → 20xx) is part of the model.
- Python's set iteration order is not modelled. Where the source pops from a one-element set the result is the same.
- `DownloadJson.KeyedObject`: keys are sorted as their JSON texts. Python would sort integer keys numerically, so a survey whose PSC1 attributes are numbers may be laid out in another order. Keys that Python cannot compare raise TypeError in both.
- `ProcessJson.AnonymizeObject`: `_anonymize` mutates the dict it returns. The model returns the new value, so aliasing between the argument and the result is not captured.
- `DawbaProcess.LineWritten`: lines are not stripped. The '\n' ending a line stays in its last field, and a date in the last column is converted with that newline. This is stated, not repaired.

## Findings

| source | as written | input that shows it | evidently intended | confidence | as-written member | corrected member |
|---|---|---|---|---|---|---|
| imagen_databank/core.py:79-80 | tests `psc2 in psc2_from_psc1`, a PSC2 code against the PSC1-keyed table, so the consistency check never fires | mapping lines `A=D1=X` then `A=D2=Y`: A is silently remapped to Y | raise 'inconsistent PSC1/PSC2 mapping' when a PSC1 code is already mapped to another PSC2 code | not executed | Core.MappingAsWrittenRemaps | Core.MappingAgreesWithLines |
| psytools/imagen_psytools_deidentify_csv.py:140 | tests `psc1 in DOB_FROM_PSC2`, a PSC1 code against the PSC2-keyed birth-date table | a row whose PSC1 maps to a PSC2 with a known birth date: its timestamp columns become None | test `psc2 in DOB_FROM_PSC2`, so the timestamps become ages in days | not executed | DeidentifyCsv.AsWrittenBlanksTimestamps | DeidentifyCsv.CorrectedKeepsTimestamps |
| imagen_databank/image_data.py:197-199 | catches IOError, then names `dicom.filereader.InvalidDicomError`, but `dicom` is never imported, so evaluating that clause raises NameError | a file `read_metadata` rejects as not DICOM (or that lacks an attribute): NameError ends the walk and the report | log the file and skip it, for InvalidDicomError and AttributeError alike | not executed | ImageData.InvalidDicomEndsWalk | ImageData.IntendedWalkCompletes |
| imagen_databank/image_data.py:301 | every inconsistency message formats `series_dict[series_uid][1].values()[0]`, and a `dict_values` view cannot be indexed under Python 3 | two images of one series with series numbers 1 and 2: TypeError ends the report | log the inconsistency and keep the first image's values | not executed | ImageData.InconsistentSeriesRaises | ImageData.CollectFirst |
