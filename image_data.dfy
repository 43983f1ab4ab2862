/**
 * The Image Data of an Imagen dataset: the series type guessed from a
 * series description, and `report_image_data`, which folds the metadata
 * of the DICOM files read from a directory into one record per series.
 */
module ImageData {

  import opened Wrappers
  import opened Text
  import opened Python
  import opened Dates
  import opened Regex

  // ---------------------------------------------------------------------
  // Sequence types
  // ---------------------------------------------------------------------

  const SequenceLocalizerCalibration := 2
  const SequenceT2 := 3
  const SequenceT2Flair := 4
  const SequenceAdniMprage := 5
  const SequenceMid := 7
  const SequenceFt := 9
  const SequenceSst := 11
  const SequenceB0Map := 12
  const SequenceDti := 13
  const SequenceRestingState := 14

  /** One entry of `_LOOSE_IMAGE_DATA_REGEXES`. */
  datatype Entry = Entry(pattern: Fixed, icase: bool, seriesType: int)

  /** A class for each character of a word, with `[xy]` classes where given. */
  function Either(a: char, b: char): Class { Chars({a, b}) }

  /** `_LOOSE_IMAGE_DATA_REGEXES`, in the order in which they are tried. */
  function LooseTable(): (t: seq<Entry>)
    ensures |t| == 13
  {
    [ Entry(Literal("LOCALI") + [Either('Z', 'S')] + Literal("ER"), true, SequenceLocalizerCalibration),
      Entry(Literal("ASSET") + [Either('-', ' ')] + Literal("Cal"), true, SequenceLocalizerCalibration),
      Entry(Literal("FLAIR"), true, SequenceT2Flair),
      Entry(Literal("T2"), true, SequenceT2),
      Entry(Literal("ADNI") + [Either('-', ' ')] + Literal("MPRAGE"), true, SequenceAdniMprage),
      Entry(Literal("MID"), true, SequenceMid),
      Entry(Literal("face"), true, SequenceFt),
      Entry(Literal("stop") + [Either('-', ' ')] + Literal("signal"), true, SequenceSst),
      Entry(Literal("SST"), true, SequenceSst),
      Entry(Literal("B0"), false, SequenceB0Map),
      Entry(Literal("FIELDMAP"), true, SequenceB0Map),
      Entry(Literal("DTI"), false, SequenceDti),
      Entry(Literal("REST"), true, SequenceRestingState) ]
  }

  /** `regex.search(description)` for an entry. */
  predicate Found(e: Entry, description: string) {
    Find(e.pattern, description, 0, e.icase).Some?
  }

  /** The type of the first entry from `i` on that is found in the description. */
  function FirstType(table: seq<Entry>, i: nat, description: string): (r: Option<int>)
    requires i <= |table|
    ensures r.Some? <==> exists k :: i <= k < |table| && Found(table[k], description)
    ensures r.Some? ==> exists k :: (i <= k < |table| && Found(table[k], description) && r.value == table[k].seriesType &&
      forall j :: i <= j < k ==> !Found(table[j], description))
    decreases |table| - i
  {
    if i == |table| then None
    else if Found(table[i], description) then Some(table[i].seriesType)
    else FirstType(table, i + 1, description)
  }

  /** `series_type_from_description` */
  function SeriesType(description: string): Option<int> {
    FirstType(LooseTable(), 0, description)
  }

  /** Each entry is found exactly when its pattern, as a regular expression, is found by `re.search`. */
  lemma FoundIsSearch(e: Entry, description: string)
    ensures Found(e, description) <==> Searches(FixedRe(e.pattern), description, e.icase)
  {
    FindSearches(e.pattern, description, e.icase);
  }

  /**
   * 'FLAIR' is tried before 'T2': a description holding 'FLAIR' is a
   * T2 Flair series unless it is a localizer or calibration, whatever
   * else it holds.
   */
  lemma FlairBeforeT2(description: string, i: nat)
    requires OccursAt(description, "FLAIR", i)
    requires !Found(LooseTable()[0], description) && !Found(LooseTable()[1], description)
    ensures SeriesType(description) == Some(SequenceT2Flair)
  {
    var t := LooseTable();
    assert t[2] == Entry(Literal("FLAIR"), true, SequenceT2Flair);
    FindsOccurrence("FLAIR", description, i, true);
    FirstTypeIs(t, 0, 2, description);
  }

  /** An entry that is found, with no earlier entry found, decides the type. */
  lemma {:induction false} FirstTypeIs(table: seq<Entry>, i: nat, k: nat, description: string)
    requires i <= k < |table| && Found(table[k], description)
    requires forall j :: i <= j < k ==> !Found(table[j], description)
    ensures FirstType(table, i, description) == Some(table[k].seriesType)
    decreases k - i
  {
    if i < k {
      FirstTypeIs(table, i + 1, k, description);
    }
  }

  /** Every entry but 'B0' and 'DTI' ignores case: it finds the same in `s` and `s.upper()`. */
  lemma CaseInsensitiveEntries(s: string)
    ensures forall k :: 0 <= k < |LooseTable()| && k != 9 && k != 11 ==> LooseTable()[k].icase
    ensures forall k :: 0 <= k < |LooseTable()| && LooseTable()[k].icase ==> (Found(LooseTable()[k], Upper(s)) <==> Found(LooseTable()[k], s))
  {
    var t := LooseTable();
    forall k | 0 <= k < |t| && t[k].icase ensures Found(t[k], Upper(s)) <==> Found(t[k], s) {
      FindIgnoresCase(t[k].pattern, s);
    }
  }

  /**
   * 'B0' and 'DTI' are case-sensitive: they are found exactly where the
   * description holds them in upper case, so 'b0' and 'dti' are not.
   */
  lemma CaseSensitiveEntries(s: string)
    ensures !LooseTable()[9].icase && !LooseTable()[11].icase
    ensures Found(LooseTable()[9], s) <==> exists i :: OccursAt(s, "B0", i)
    ensures Found(LooseTable()[11], s) <==> exists i :: OccursAt(s, "DTI", i)
  {
    var t := LooseTable();
    LiteralFound(t[9], "B0", s);
    LiteralFound(t[11], "DTI", s);
  }

  /** A case-sensitive literal entry is found exactly when the text holds the word. */
  lemma LiteralFound(e: Entry, w: string, s: string)
    requires e.pattern == Literal(w) && !e.icase
    ensures Found(e, s) <==> exists i :: OccursAt(s, w, i)
  {
    if Found(e, s) {
      var i := Find(e.pattern, s, 0, false).value;
      LiteralAt(w, s, i);
    }
    if exists i :: OccursAt(s, w, i) {
      var i :| OccursAt(s, w, i);
      FindsOccurrence(w, s, i, false);
    }
  }

  // ---------------------------------------------------------------------
  // Walking the directory
  // ---------------------------------------------------------------------

  /** The optional string tags kept per series; PSC1 is the code found in one of four tags. */
  datatype Tag = StationName | Manufacturer | ManufacturerModelName | SoftwareVersions | DeviceSerialNumber | Psc1

  /** A date and a time of day in microseconds: a `datetime.datetime`. */
  datatype DateTime = DateTime(date: Date, micros: nat)

  /** `a < b` on date-times. */
  predicate Earlier(a: DateTime, b: DateTime) {
    Before(a.date, b.date) || (a.date == b.date && a.micros < b.micros)
  }

  /** The DICOM attributes read from one file; a tag the file lacks is `None`. */
  datatype Metadata = Metadata(
    seriesUid: Option<string>,
    sopUid: Option<string>,
    seriesNumber: Option<int>,
    seriesDescription: Option<string>,
    imageType: Option<set<string>>,
    tags: map<Tag, string>,           // StationName ... DeviceSerialNumber as present in the file
    acquisitionDate: Option<Date>,
    acquisitionTime: Option<nat>,
    comments: Option<string>,         // CommentsOnThePerformedProcedureStep
    imageComments: Option<string>,
    patientId: Option<string>,
    patientName: Option<string>)

  /** What `read_metadata` makes of one file: its metadata, or the exception it raises. */
  datatype Read = Read(metadata: Metadata) | Failed(exc: Exc)

  /** One file of the directory: its name, its relative path and what reading it gives. */
  datatype File = File(name: string, relpath: string, read: Read)

  predicate Dicomdir(f: File) { StartsWith(f.name, "DICOMDIR") }

  /**
   * Whether the walk logs an exception of `read_metadata` and goes on.
   * As written only IOError is caught: for any other exception Python
   * evaluates `dicom.filereader.InvalidDicomError` next, and `dicom` is
   * not imported. As intended, InvalidDicomError and AttributeError are
   * caught too.
   */
  predicate Caught(e: Exc, asWritten: bool) {
    e == IOError || (!asWritten && (e == InvalidDicomError || e == AttributeError))
  }

  /** A file the walk yields: not named DICOMDIR..., and read. */
  predicate Kept(f: File) { !Dicomdir(f) && f.read.Read? }

  /** A file that ends the walk: not named DICOMDIR..., and its read raises what is not caught. */
  predicate Ends(f: File, asWritten: bool) { !Dicomdir(f) && f.read.Failed? && !Caught(f.read.exc, asWritten) }

  /** The exception a file that ends the walk raises out of it: NameError as written, its own as intended. */
  function Escaped(f: File, asWritten: bool): Exc
    requires f.read.Failed?
  {
    if asWritten then NameError else f.read.exc
  }

  /**
   * `walk_image_data`: the files it yields, in order, and the exception
   * that ends it. Files named DICOMDIR... are skipped, and so are files
   * whose exception is caught.
   */
  function Walk(files: seq<File>, asWritten: bool): (r: (seq<(Metadata, string)>, Option<Exc>))
    ensures |r.0| <= |files|
    decreases |files|
  {
    if |files| == 0 then ([], None)
    else if Ends(files[0], asWritten) then ([], Some(Escaped(files[0], asWritten)))
    else
      var rest := Walk(files[1..], asWritten);
      if !Kept(files[0]) then rest
      else ([(files[0].read.metadata, files[0].relpath)] + rest.0, rest.1)
  }

  /**
   * The walk ends early exactly when some file raises what is not
   * caught; as written the exception is then NameError.
   */
  lemma {:induction false} WalkEnds(files: seq<File>, asWritten: bool)
    ensures Walk(files, asWritten).1.None? <==> forall j :: 0 <= j < |files| ==> !Ends(files[j], asWritten)
    ensures Walk(files, asWritten).1.Some? && asWritten ==> Walk(files, asWritten).1 == Some(NameError)
    decreases |files|
  {
    if |files| > 0 {
      WalkEnds(files[1..], asWritten);
      assert forall j :: 1 <= j < |files| ==> files[j] == files[1..][j - 1];
    }
  }

  /** `y` is the metadata and relative path of a kept file among `files`. */
  predicate YieldedFrom(files: seq<File>, y: (Metadata, string))
  {
    exists j :: 0 <= j < |files| && Kept(files[j]) && y == (files[j].read.metadata, files[j].relpath)
  }

  lemma YieldedFromTail(files: seq<File>, y: (Metadata, string))
    requires |files| > 0 && YieldedFrom(files[1..], y)
    ensures YieldedFrom(files, y)
  {
    var j :| 0 <= j < |files[1..]| && Kept(files[1..][j]) && y == (files[1..][j].read.metadata, files[1..][j].relpath);
    assert files[j + 1] == files[1..][j];
  }

  /** Everything the walk yields is a kept file's metadata and relative path. */
  lemma {:induction false} WalkYieldsKept(files: seq<File>, asWritten: bool)
    ensures forall k :: 0 <= k < |Walk(files, asWritten).0| ==> YieldedFrom(files, Walk(files, asWritten).0[k])
    decreases |files|
  {
    if |files| > 0 && !Ends(files[0], asWritten) {
      WalkYieldsKept(files[1..], asWritten);
      var r, rest := Walk(files, asWritten).0, Walk(files[1..], asWritten).0;
      var skip := if Kept(files[0]) then 1 else 0;
      assert r == if skip == 1 then [(files[0].read.metadata, files[0].relpath)] + rest else rest;
      forall k | skip <= k < |r|
        ensures YieldedFrom(files, r[k])
      {
        assert r[k] == rest[k - skip];
        YieldedFromTail(files, rest[k - skip]);
      }
      if skip == 1 {
        assert Kept(files[0]) && r[0] == (files[0].read.metadata, files[0].relpath);
        assert YieldedFrom(files, r[0]);
      }
    } else {
      assert Walk(files, asWritten).0 == [];
    }
  }

  /** A walk that is not ended early yields every kept file. */
  lemma {:induction false} WalkYieldsAll(files: seq<File>, asWritten: bool)
    requires Walk(files, asWritten).1.None?
    ensures forall j :: 0 <= j < |files| && Kept(files[j]) ==> (files[j].read.metadata, files[j].relpath) in Walk(files, asWritten).0
    decreases |files|
  {
    if |files| > 0 {
      WalkYieldsAll(files[1..], asWritten);
      assert forall j :: 1 <= j < |files| ==> files[j] == files[1..][j - 1];
    }
  }

  /** One file on its own: yielded, skipped, or the end of the walk. */
  lemma WalkOne(f: File, asWritten: bool)
    ensures Kept(f) ==> Walk([f], asWritten) == ([(f.read.metadata, f.relpath)], None)
    ensures Ends(f, asWritten) ==> Walk([f], asWritten) == ([], Some(Escaped(f, asWritten)))
    ensures !Kept(f) && !Ends(f, asWritten) ==> Walk([f], asWritten) == ([], None)
  {
    assert [f][1..] == [];
    assert Walk([], asWritten) == ([], None);
    if Kept(f) {
      assert [(f.read.metadata, f.relpath)] + [] == [(f.read.metadata, f.relpath)];
    }
  }

  /**
   * The walk goes through the files in order: over `a + b` it yields
   * what it yields over `a`, then, unless `a` ended it, what it yields
   * over `b`, ending as `b` ends.
   */
  lemma {:induction false} WalkAppend(a: seq<File>, b: seq<File>, asWritten: bool)
    ensures var wa := Walk(a, asWritten);
      Walk(a + b, asWritten) == if wa.1.Some? then wa else (wa.0 + Walk(b, asWritten).0, Walk(b, asWritten).1)
    decreases |a|
  {
    if |a| == 0 {
      assert a + b == b && Walk(a, asWritten) == ([], None);
      assert [] + Walk(b, asWritten).0 == Walk(b, asWritten).0;
    } else {
      assert (a + b)[0] == a[0] && (a + b)[1..] == a[1..] + b;
      WalkAppend(a[1..], b, asWritten);
      if !Ends(a[0], asWritten) && Kept(a[0]) {
        var x := [(a[0].read.metadata, a[0].relpath)];
        var w := Walk(a[1..], asWritten);
        if w.1.None? {
          assert x + (w.0 + Walk(b, asWritten).0) == (x + w.0) + Walk(b, asWritten).0;
        }
      }
    }
  }

  /**
   * `report_image_data` over the directory: the files are read as the
   * walk yields them, so an exception of an earlier file comes first;
   * otherwise an exception that ends the walk ends the report.
   */
  function ReportWalk(files: seq<File>, asWritten: bool): (r: Outcome<map<string, Series>>)
    ensures Walk(files, asWritten).1.None? ==> r == Report(Walk(files, asWritten).0)
    ensures r.Ok? ==> Walk(files, asWritten).1.None?
  {
    var (yielded, ended) := Walk(files, asWritten);
    match Report(yielded)
    case Raised(e) => Raised(e)
    case Ok(d) => if ended.Some? then Raised(ended.value) else Ok(d)
  }

  /**
   * As written, a file that is not valid DICOM between two readable ones
   * ends the walk with NameError after the first, where the intended
   * walk skips it and yields both.
   */
  lemma InvalidDicomEndsWalk(m1: Metadata, m2: Metadata)
    ensures var files := [File("a", "x/a", Read(m1)), File("b", "x/b", Failed(InvalidDicomError)), File("c", "x/c", Read(m2))];
      && Walk(files, true) == ([(m1, "x/a")], Some(NameError))
      && Walk(files, false) == ([(m1, "x/a"), (m2, "x/c")], None)
  {
    var f1, f2, f3 := File("a", "x/a", Read(m1)), File("b", "x/b", Failed(InvalidDicomError)), File("c", "x/c", Read(m2));
    assert !Dicomdir(f1) && !Dicomdir(f2) && !Dicomdir(f3);
    assert [f1, f2, f3] == [f1] + [f2] + [f3];
    WalkOne(f1, true);
    WalkOne(f2, true);
    WalkAppend([f1], [f2], true);
    WalkAppend([f1] + [f2], [f3], true);
    WalkOne(f1, false);
    WalkOne(f2, false);
    WalkOne(f3, false);
    WalkAppend([f1], [f2], false);
    WalkAppend([f1] + [f2], [f3], false);
    assert [(m1, "x/a")] + [] == [(m1, "x/a")];
    assert [(m1, "x/a")] + [] + [(m2, "x/c")] == [(m1, "x/a"), (m2, "x/c")];
  }

  /**
   * As intended, a directory whose unreadable files all raise IOError,
   * InvalidDicomError or AttributeError is walked to its end.
   */
  lemma {:induction false} IntendedWalkCompletes(files: seq<File>)
    requires forall j :: 0 <= j < |files| && files[j].read.Failed? ==> files[j].read.exc in {IOError, InvalidDicomError, AttributeError}
    ensures Walk(files, false).1.None?
  {
    forall j | 0 <= j < |files| ensures !Ends(files[j], false) {
      if files[j].read.Failed? {
        assert files[j].read.exc in {IOError, InvalidDicomError, AttributeError};
      }
    }
    WalkEnds(files, false);
  }

  // ---------------------------------------------------------------------
  // One image
  // ---------------------------------------------------------------------

  /** What one file contributes once its tags are read: only non-empty optional values are kept. */
  datatype Image = Image(
    seriesUid: string,
    sopUid: string,
    seriesNumber: int,
    seriesDescription: string,
    imageTypes: set<string>,
    tags: map<Tag, string>,
    stamp: DateTime,
    relpath: string)

  /** The PSC1 candidate: the first of the four tags present, even when it is empty. */
  function Psc1Tag(md: Metadata): (r: Option<string>)
    ensures md.comments.Some? ==> r == md.comments
    ensures md.comments.None? && md.imageComments.Some? ==> r == md.imageComments
    ensures md.comments.None? && md.imageComments.None? && md.patientId.Some? ==> r == md.patientId
    ensures md.comments.None? && md.imageComments.None? && md.patientId.None? ==> r == md.patientName
  {
    if md.comments.Some? then md.comments
    else if md.imageComments.Some? then md.imageComments
    else if md.patientId.Some? then md.patientId
    else md.patientName
  }

  /** The truthy optional tags of a file, PSC1 included. */
  function Truthy(md: Metadata): (t: map<Tag, string>)
    ensures forall g :: g in t ==> |t[g]| > 0
    ensures forall g :: g != Psc1 ==> (g in t <==> g in md.tags && |md.tags[g]| > 0)
    ensures forall g :: g in t && g != Psc1 ==> t[g] == md.tags[g]
    ensures Psc1 in t <==> Psc1Tag(md).Some? && |Psc1Tag(md).value| > 0
    ensures Psc1 in t ==> t[Psc1] == Psc1Tag(md).value
  {
    var kept := map g | g in md.tags && g != Psc1 && |md.tags[g]| > 0 :: md.tags[g];
    var psc1 := Psc1Tag(md);
    if psc1.Some? && |psc1.value| > 0 then kept[Psc1 := psc1.value] else kept
  }

  /**
   * The values one iteration reads from a file: a missing mandatory tag
   * raises KeyError; without an acquisition date the time stamp of the
   * previous file is used again, and there is none for the first file.
   */
  function ReadImage(md: Metadata, relpath: string, previous: Option<DateTime>): (r: Outcome<Image>)
    ensures r.Raised? <==>
      md.seriesUid.None? || md.sopUid.None? || md.seriesNumber.None? || md.seriesDescription.None? || md.imageType.None? ||
      (md.acquisitionDate.None? && previous.None?)
    ensures r.Raised? ==> r.exc == KeyError || (r.exc == UnboundLocalError && md.acquisitionDate.None? && previous.None?)
    ensures r.Ok? && md.acquisitionDate.None? ==> r.value.stamp == previous.value
    ensures r.Ok? && md.acquisitionDate.Some? ==>
      r.value.stamp == DateTime(md.acquisitionDate.value, if md.acquisitionTime.Some? then md.acquisitionTime.value else 0)
  {
    if md.seriesUid.None? || md.sopUid.None? || md.seriesNumber.None? || md.seriesDescription.None? || md.imageType.None? then
      Raised(KeyError)
    else if md.acquisitionDate.None? && previous.None? then Raised(UnboundLocalError)
    else
      var stamp :=
        if md.acquisitionDate.None? then previous.value
        else DateTime(md.acquisitionDate.value, if md.acquisitionTime.Some? then md.acquisitionTime.value else 0);
      Ok(Image(md.seriesUid.value, md.sopUid.value, md.seriesNumber.value, md.seriesDescription.value,
               md.imageType.value, Truthy(md), stamp, relpath))
  }

  /** The images of the files read so far, and the time stamp carried to the next file. */
  function ReadImages(files: seq<(Metadata, string)>): (r: Outcome<(seq<Image>, Option<DateTime>)>)
    ensures r.Ok? ==> |r.value.0| == |files|
    ensures r.Ok? && |files| > 0 ==> r.value.1 == Some(r.value.0[|files| - 1].stamp)
    decreases |files|
  {
    if |files| == 0 then Ok(([], None))
    else match ReadImages(files[..|files| - 1])
      case Raised(e) => Raised(e)
      case Ok((images, previous)) =>
        match ReadImage(files[|files| - 1].0, files[|files| - 1].1, previous)
        case Raised(e) => Raised(e)
        case Ok(image) => Ok((images + [image], Some(image.stamp)))
  }

  // ---------------------------------------------------------------------
  // Series
  // ---------------------------------------------------------------------

  /** `series_dict[uid]`: the series data and the relative path of each image by SOP instance UID. */
  datatype Series = Series(
    seriesNumber: int,
    seriesDescription: string,
    imageType: set<string>,
    minStamp: DateTime,
    maxStamp: DateTime,
    tags: map<Tag, string>,
    images: map<string, string>)

  /** The series a first image opens. */
  function Open(image: Image): Series {
    Series(image.seriesNumber, image.seriesDescription, image.imageTypes, image.stamp, image.stamp,
           image.tags, map[image.sopUid := image.relpath])
  }

  /**
   * A later image of a series: its image types join the series', a tag
   * the series lacks is taken from it, a SOP instance UID already seen
   * keeps its first path, and the time range widens to include it.
   */
  function Join(s: Series, image: Image): Series {
    s.(imageType := s.imageType + image.imageTypes,
       tags := image.tags + s.tags,
       images := if image.sopUid in s.images then s.images else s.images[image.sopUid := image.relpath],
       minStamp := if Earlier(image.stamp, s.minStamp) then image.stamp else s.minStamp,
       maxStamp := if Earlier(s.maxStamp, image.stamp) then image.stamp else s.maxStamp)
  }

  function AddImage(d: map<string, Series>, image: Image): map<string, Series> {
    if image.seriesUid !in d then d[image.seriesUid := Open(image)]
    else d[image.seriesUid := Join(d[image.seriesUid], image)]
  }

  /** The series of a sequence of images, in order. */
  function Collect(images: seq<Image>): map<string, Series>
    decreases |images|
  {
    if |images| == 0 then map[] else AddImage(Collect(images[..|images| - 1]), images[|images| - 1])
  }

  /** `report_image_data` over what the directory walk yields. */
  function Report(files: seq<(Metadata, string)>): Outcome<map<string, Series>> {
    match ReadImages(files)
    case Raised(e) => Raised(e)
    case Ok((images, _)) => Ok(Collect(images))
  }

  /** `report_image_data`, one file at a time. */
  method ReportImageData(files: seq<(Metadata, string)>) returns (r: Outcome<map<string, Series>>)
    ensures r == Report(files)
  {
    var seriesDict: map<string, Series> := map[];
    var timestamp: Option<DateTime> := None;
    ghost var images: seq<Image> := [];
    var i := 0;
    while i < |files|
      invariant 0 <= i <= |files|
      invariant ReadImages(files[..i]) == Ok((images, timestamp))
      invariant seriesDict == Collect(images)
    {
      var (md, relpath) := files[i];
      var image := ReadImage(md, relpath, timestamp);
      ReadStep(files, i, images, timestamp);
      if image.Raised? {
        ReadStops(files, i + 1);
        return Raised(image.exc);
      }
      CollectSnoc(images, image.value);
      timestamp := Some(image.value.stamp);
      images := images + [image.value];
      seriesDict := AddImage(seriesDict, image.value);
      i := i + 1;
    }
    assert files[..|files|] == files;
    r := Ok(seriesDict);
  }

  /** Reading one more file, after the first `i` were read into `images`. */
  lemma ReadStep(files: seq<(Metadata, string)>, i: nat, images: seq<Image>, previous: Option<DateTime>)
    requires i < |files| && ReadImages(files[..i]) == Ok((images, previous))
    ensures var image := ReadImage(files[i].0, files[i].1, previous);
      ReadImages(files[..i + 1]) == match image
        case Raised(e) => Raised(e)
        case Ok(im) => Ok((images + [im], Some(im.stamp)))
  {
    assert files[..i + 1][..i] == files[..i];
    assert files[..i + 1][i] == files[i];
  }

  /** The series of one more image. */
  lemma CollectSnoc(images: seq<Image>, image: Image)
    ensures Collect(images + [image]) == AddImage(Collect(images), image)
  {
    var next := images + [image];
    assert next[..|images|] == images && next[|images|] == image;
  }

  /** Once a file raises, the whole report raises the same exception. */
  lemma {:induction false} ReadStops(files: seq<(Metadata, string)>, n: nat)
    requires 0 < n <= |files| && ReadImages(files[..n]).Raised?
    ensures Report(files).Raised? && Report(files).exc == ReadImages(files[..n]).exc
    decreases |files| - n
  {
    if n < |files| {
      assert files[..n + 1][..n] == files[..n];
      ReadStops(files, n + 1);
    } else {
      assert files[..n] == files;
    }
  }

  // ---------------------------------------------------------------------
  // What the series record
  // ---------------------------------------------------------------------

  predicate InSeries(images: seq<Image>, k: int, uid: string) {
    0 <= k < |images| && images[k].seriesUid == uid
  }

  /** Image `k` is the first of its series. */
  predicate FirstOfSeries(images: seq<Image>, k: int, uid: string) {
    InSeries(images, k, uid) && forall j :: 0 <= j < k ==> !InSeries(images, j, uid)
  }

  /** There is a series for each series UID of the images, and no other. */
  lemma {:induction false} CollectSeries(images: seq<Image>, uid: string)
    ensures uid in Collect(images) <==> exists k :: InSeries(images, k, uid)
    decreases |images|
  {
    if |images| > 0 {
      var n := |images| - 1;
      var init := images[..n];
      assert Collect(images) == AddImage(Collect(init), images[n]);
      CollectSeries(init, uid);
      if images[n].seriesUid == uid {
        assert InSeries(images, n, uid);
      } else {
        assert uid in Collect(images) <==> uid in Collect(init);
        if exists k :: InSeries(init, k, uid) {
          var k :| InSeries(init, k, uid);
          assert init[k] == images[k];
          assert InSeries(images, k, uid);
        }
        if exists k :: InSeries(images, k, uid) {
          var k :| InSeries(images, k, uid);
          assert init[k] == images[k];
          assert InSeries(init, k, uid);
        }
      }
    }
  }

  /** The series number and description are those of the series' first image. */
  lemma {:induction false} CollectFirst(images: seq<Image>, uid: string, k: nat)
    requires FirstOfSeries(images, k, uid)
    ensures uid in Collect(images)
    ensures Collect(images)[uid].seriesNumber == images[k].seriesNumber
    ensures Collect(images)[uid].seriesDescription == images[k].seriesDescription
    decreases |images|
  {
    var init := images[..|images| - 1];
    if k == |images| - 1 {
      CollectSeries(init, uid);
      if uid in Collect(init) {
        var j :| InSeries(init, j, uid);
        assert InSeries(images, j, uid);
      }
    } else {
      assert FirstOfSeries(init, k, uid) by {
        forall j | 0 <= j < k ensures !InSeries(init, j, uid) {
          assert !InSeries(images, j, uid);
        }
      }
      CollectFirst(init, uid, k);
    }
  }

  /** A series' ImageType is the union of the ImageType of its images. */
  lemma {:induction false} CollectImageType(images: seq<Image>, uid: string, x: string)
    requires uid in Collect(images)
    ensures x in Collect(images)[uid].imageType <==> exists k :: InSeries(images, k, uid) && x in images[k].imageTypes
    decreases |images|
  {
    var n := |images| - 1;
    var init := images[..n];
    var last := images[n];
    assert Collect(images) == AddImage(Collect(init), last);
    ImageTypeStep(Collect(init), last, uid, x);
    CollectSeries(init, uid);
    if uid in Collect(init) {
      CollectImageType(init, uid, x);
    }
    if x in Collect(images)[uid].imageType {
      if uid in Collect(init) && x in Collect(init)[uid].imageType {
        var k :| InSeries(init, k, uid) && x in init[k].imageTypes;
        assert InSeries(images, k, uid) && images[k] == init[k];
      } else {
        assert InSeries(images, n, uid) && x in last.imageTypes;
      }
    }
    if exists k :: InSeries(images, k, uid) && x in images[k].imageTypes {
      var k :| InSeries(images, k, uid) && x in images[k].imageTypes;
      if k < n {
        assert InSeries(init, k, uid) && init[k] == images[k];
      }
    }
  }

  /** Adding an image: the series of `uid` has the image types it had before, and those the image brings to it. */
  lemma ImageTypeStep(d: map<string, Series>, image: Image, uid: string, x: string)
    requires uid in AddImage(d, image)
    ensures x in AddImage(d, image)[uid].imageType <==>
      (uid in d && x in d[uid].imageType) || (uid == image.seriesUid && x in image.imageTypes)
  {
  }

  /** Image `k` is the first of its series to carry tag `g`. */
  predicate FirstWithTag(images: seq<Image>, k: int, uid: string, g: Tag) {
    InSeries(images, k, uid) && g in images[k].tags &&
    forall j :: 0 <= j < k && InSeries(images, j, uid) ==> g !in images[j].tags
  }

  /** A series carries a tag exactly when one of its images does. */
  lemma {:induction false} CollectTag(images: seq<Image>, uid: string, g: Tag)
    requires uid in Collect(images)
    ensures g in Collect(images)[uid].tags <==> exists k :: InSeries(images, k, uid) && g in images[k].tags
    decreases |images|
  {
    var n := |images| - 1;
    var init := images[..n];
    var last := images[n];
    assert Collect(images) == AddImage(Collect(init), last);
    TagStep(Collect(init), last, uid, g);
    CollectSeries(init, uid);
    if uid in Collect(init) {
      CollectTag(init, uid, g);
    }
    if g in Collect(images)[uid].tags {
      if uid in Collect(init) && g in Collect(init)[uid].tags {
        var k :| InSeries(init, k, uid) && g in init[k].tags;
        assert InSeries(images, k, uid) && images[k] == init[k];
      } else {
        assert InSeries(images, n, uid) && g in last.tags;
      }
    }
    if exists k :: InSeries(images, k, uid) && g in images[k].tags {
      var k :| InSeries(images, k, uid) && g in images[k].tags;
      if k < n {
        assert InSeries(init, k, uid) && init[k] == images[k];
      }
    }
  }

  /** Adding an image: the series of `uid` carries a tag it carried before, or one the image brings to it. */
  lemma TagStep(d: map<string, Series>, image: Image, uid: string, g: Tag)
    requires uid in AddImage(d, image)
    ensures g in AddImage(d, image)[uid].tags <==> (uid in d && g in d[uid].tags) || (uid == image.seriesUid && g in image.tags)
  {
  }

  /** The tag's value is that of the first image of the series that carries it. */
  lemma {:induction false} CollectTagFirst(images: seq<Image>, uid: string, g: Tag, k: nat)
    requires FirstWithTag(images, k, uid, g)
    ensures uid in Collect(images) && g in Collect(images)[uid].tags
    ensures Collect(images)[uid].tags[g] == images[k].tags[g]
    decreases |images|
  {
    var n := |images| - 1;
    var init := images[..n];
    CollectSeries(images, uid);
    CollectTag(images, uid, g);
    if k < n {
      assert init[k] == images[k];
      assert FirstWithTag(init, k, uid, g) by {
        forall j | 0 <= j < k && InSeries(init, j, uid) ensures g !in init[j].tags {
          assert init[j] == images[j];
        }
      }
      CollectTagFirst(init, uid, g, k);
    } else if uid in Collect(init) {
      CollectTag(init, uid, g);
    }
  }

  /** Image `k` is the first of its series with that SOP instance UID. */
  predicate FirstWithSop(images: seq<Image>, k: int, uid: string, sop: string) {
    InSeries(images, k, uid) && images[k].sopUid == sop &&
    forall j :: 0 <= j < k && InSeries(images, j, uid) ==> images[j].sopUid != sop
  }

  /** Every image of a series is listed under its SOP instance UID. */
  lemma {:induction false} CollectImages(images: seq<Image>, uid: string, sop: string)
    requires uid in Collect(images)
    ensures sop in Collect(images)[uid].images <==> exists k :: InSeries(images, k, uid) && images[k].sopUid == sop
    decreases |images|
  {
    var n := |images| - 1;
    var init := images[..n];
    var last := images[n];
    assert Collect(images) == AddImage(Collect(init), last);
    SopStep(Collect(init), last, uid, sop);
    CollectSeries(init, uid);
    if uid in Collect(init) {
      CollectImages(init, uid, sop);
    }
    if sop in Collect(images)[uid].images {
      if uid in Collect(init) && sop in Collect(init)[uid].images {
        var k :| InSeries(init, k, uid) && init[k].sopUid == sop;
        assert InSeries(images, k, uid) && images[k] == init[k];
      } else {
        assert InSeries(images, n, uid) && last.sopUid == sop;
      }
    }
    if exists k :: InSeries(images, k, uid) && images[k].sopUid == sop {
      var k :| InSeries(images, k, uid) && images[k].sopUid == sop;
      if k < n {
        assert InSeries(init, k, uid) && init[k] == images[k];
      }
    }
  }

  /** Adding an image: the series of `uid` lists the SOP instance UIDs it listed before, and the image's own. */
  lemma SopStep(d: map<string, Series>, image: Image, uid: string, sop: string)
    requires uid in AddImage(d, image)
    ensures sop in AddImage(d, image)[uid].images <==>
      (uid in d && sop in d[uid].images) || (uid == image.seriesUid && sop == image.sopUid)
  {
  }

  /** A duplicate SOP instance UID keeps the path of the first image that had it. */
  lemma {:induction false} CollectImagesFirst(images: seq<Image>, uid: string, sop: string, k: nat)
    requires FirstWithSop(images, k, uid, sop)
    ensures uid in Collect(images) && sop in Collect(images)[uid].images
    ensures Collect(images)[uid].images[sop] == images[k].relpath
    decreases |images|
  {
    var n := |images| - 1;
    var init := images[..n];
    CollectSeries(images, uid);
    CollectImages(images, uid, sop);
    if k < n {
      assert init[k] == images[k];
      assert FirstWithSop(init, k, uid, sop) by {
        forall j | 0 <= j < k && InSeries(init, j, uid) ensures init[j].sopUid != sop {
          assert init[j] == images[j];
        }
      }
      CollectImagesFirst(init, uid, sop, k);
    } else if uid in Collect(init) {
      CollectImages(init, uid, sop);
    }
  }

  /** Earlier is a strict total order on date-times. */
  lemma EarlierOrder(a: DateTime, b: DateTime, c: DateTime)
    ensures !Earlier(a, a)
    ensures Earlier(a, b) && Earlier(b, c) ==> Earlier(a, c)
    ensures Earlier(a, b) || a == b || Earlier(b, a)
  {
  }

  /** The time range of a series holds the time stamp of each of its images. */
  lemma {:induction false} CollectRange(images: seq<Image>, uid: string, k: nat)
    requires InSeries(images, k, uid)
    ensures uid in Collect(images)
    ensures !Earlier(images[k].stamp, Collect(images)[uid].minStamp)
    ensures !Earlier(Collect(images)[uid].maxStamp, images[k].stamp)
    decreases |images|
  {
    var init := images[..|images| - 1];
    var last := images[|images| - 1];
    CollectSeries(images, uid);
    if k < |init| {
      assert InSeries(init, k, uid);
      CollectRange(init, uid, k);
      var s := Collect(init)[uid];
      EarlierOrder(images[k].stamp, s.minStamp, last.stamp);
      EarlierOrder(s.maxStamp, last.stamp, images[k].stamp);
      EarlierOrder(last.stamp, s.minStamp, images[k].stamp);
      EarlierOrder(images[k].stamp, s.maxStamp, last.stamp);
    } else if uid in Collect(init) {
      var s := Collect(init)[uid];
      EarlierOrder(last.stamp, s.minStamp, last.stamp);
      EarlierOrder(s.maxStamp, last.stamp, last.stamp);
    }
  }

  /** The ends of the range are time stamps of images of the series. */
  lemma {:induction false} CollectRangeAttained(images: seq<Image>, uid: string)
    requires uid in Collect(images)
    ensures exists k :: InSeries(images, k, uid) && images[k].stamp == Collect(images)[uid].minStamp
    ensures exists k :: InSeries(images, k, uid) && images[k].stamp == Collect(images)[uid].maxStamp
    decreases |images|
  {
    var init := images[..|images| - 1];
    var n := |images| - 1;
    CollectSeries(init, uid);
    if uid in Collect(init) {
      CollectRangeAttained(init, uid);
      var a :| InSeries(init, a, uid) && init[a].stamp == Collect(init)[uid].minStamp;
      var b :| InSeries(init, b, uid) && init[b].stamp == Collect(init)[uid].maxStamp;
      assert InSeries(images, a, uid) && InSeries(images, b, uid);
      if images[n].seriesUid == uid {
        assert InSeries(images, n, uid);
      }
    } else {
      assert InSeries(images, n, uid);
    }
  }

  // ---------------------------------------------------------------------
  // The consistency messages, as written
  // ---------------------------------------------------------------------

  /** A later image disagrees with its series on a value the loop reports. */
  predicate Inconsistent(s: Series, image: Image) {
    image.seriesNumber != s.seriesNumber || image.seriesDescription != s.seriesDescription ||
    exists g :: g in image.tags && g in s.tags && image.tags[g] != s.tags[g]
  }

  /**
   * One iteration as written: every message about an inconsistent value
   * formats `series_dict[series_uid][1].values()[0]`, and indexing a
   * `dict_values` view raises TypeError under Python 3.
   */
  function AddImageAsWritten(d: map<string, Series>, image: Image): (r: Outcome<map<string, Series>>)
    ensures r.Ok? ==> r.value == AddImage(d, image)
    ensures r.Raised? <==> image.seriesUid in d && Inconsistent(d[image.seriesUid], image)
  {
    if image.seriesUid in d && Inconsistent(d[image.seriesUid], image) then Raised(TypeError)
    else Ok(AddImage(d, image))
  }

  function ReportAsWritten(files: seq<(Metadata, string)>): Outcome<(map<string, Series>, Option<DateTime>)>
    decreases |files|
  {
    if |files| == 0 then Ok((map[], None))
    else match ReportAsWritten(files[..|files| - 1])
      case Raised(e) => Raised(e)
      case Ok((d, previous)) =>
        match ReadImage(files[|files| - 1].0, files[|files| - 1].1, previous)
        case Raised(e) => Raised(e)
        case Ok(image) =>
          match AddImageAsWritten(d, image)
          case Raised(e) => Raised(e)
          case Ok(d') => Ok((d', Some(image.stamp)))
  }

  /** Two files of one series that disagree on the series number. */
  function SeriesFile(number: int, sop: string): Metadata {
    Metadata(Some("1.2.3"), Some(sop), Some(number), Some("T1"), Some({"ORIGINAL"}), map[],
             Some(Date(2015, 3, 2)), Some(0), None, None, Some("012345678901"), None)
  }

  /**
   * As written, two images of one series with different series numbers
   * raise TypeError instead of logging the inconsistency.
   */
  lemma InconsistentSeriesRaises()
    ensures ReportAsWritten([(SeriesFile(1, "a"), "x/a"), (SeriesFile(2, "b"), "x/b")]) == Raised(TypeError)
  {
    var f1 := (SeriesFile(1, "a"), "x/a");
    var f2 := (SeriesFile(2, "b"), "x/b");
    var files := [f1, f2];
    var none: seq<(Metadata, string)> := [];
    assert files[..1] == [f1] && [f1][..0] == none;
    var i1 := ReadImage(f1.0, f1.1, None).value;
    assert ReportAsWritten([f1]) == Ok((map["1.2.3" := Open(i1)], Some(i1.stamp)));
  }

  /**
   * The report the loop means to build from the same two images keeps the
   * first image's series number and lists both images.
   */
  lemma InconsistentSeriesReported()
    ensures Report([(SeriesFile(1, "a"), "x/a"), (SeriesFile(2, "b"), "x/b")]).Ok?
    ensures var d := Report([(SeriesFile(1, "a"), "x/a"), (SeriesFile(2, "b"), "x/b")]).value;
      "1.2.3" in d && d["1.2.3"].seriesNumber == 1 && d["1.2.3"].images == map["a" := "x/a", "b" := "x/b"]
  {
    var f1 := (SeriesFile(1, "a"), "x/a");
    var f2 := (SeriesFile(2, "b"), "x/b");
    var files := [f1, f2];
    var i1 := ReadImage(f1.0, f1.1, None).value;
    var i2 := ReadImage(f2.0, f2.1, Some(i1.stamp)).value;
    assert ReadImages(files) == Ok(([i1, i2], Some(i2.stamp))) by {
      var none: seq<(Metadata, string)> := [];
      assert files[..1] == [f1] && [f1][..0] == none;
      assert ReadImages(none) == Ok(([], None));
      assert [] + [i1] == [i1] && [i1] + [i2] == [i1, i2];
      assert ReadImages([f1]) == Ok(([i1], Some(i1.stamp)));
    }
    var noImages: seq<Image> := [];
    assert [i1, i2][..1] == [i1] && [i1][..0] == noImages;
    assert Collect([i1]) == map["1.2.3" := Open(i1)];
  }
}
