/**
 * Download of the Psytools CSV datasets: the dataset name and URL of a
 * (task, digest) pair, the unfolding of quoted text spanning several
 * lines, the choice of the timepoint directory, and the loop that writes
 * each dataset only when its content changed.
 */
module DownloadCsv {

  import opened Wrappers
  import opened Python
  import opened Text
  import opened Files

  // ---------------------------------------------------------------------
  // Dataset names
  // ---------------------------------------------------------------------

  /** `digest.upper().replace(' ', '_')` */
  function NormalDigest(digest: string): string {
    ReplaceAll(Upper(digest), " ", "_")
  }

  predicate IsLowerAscii(c: char) { 'a' <= c <= 'z' }

  /**
   * The normalised digest holds no space and no lower-case letter, and
   * normalising it again changes nothing.
   */
  lemma NormalDigestProperties(digest: string)
    ensures var d := NormalDigest(digest);
      |d| == |digest| && ' ' !in d && (forall i :: 0 <= i < |d| ==> !IsLowerAscii(d[i]))
      && NormalDigest(d) == d
  {
    var u := Upper(digest);
    var d := NormalDigest(digest);
    ReplaceCharWise(u, ' ', '_');
    var du := Upper(d);
    assert du == d;
    ReplaceCharWise(du, ' ', '_');
    assert ReplaceAll(du, " ", "_") == d;
  }

  /** `'IMAGEN-{task}-{digest}.csv'` with the normalised digest. */
  function DatasetName(task: string, digest: string): (name: string)
    ensures StartsWith(name, "IMAGEN-" + task + "-") && EndsWith(name, ".csv")
    ensures |name| == |task| + |NormalDigest(digest)| + 12
    ensures name[|task| + 8..|name| - 4] == NormalDigest(digest)
  {
    var name := "IMAGEN-" + task + "-" + NormalDigest(digest) + ".csv";
    assert name[..|task| + 8] == "IMAGEN-" + task + "-";
    name
  }

  /** `base_url + dataset + '.gz'`: the URL the dataset is fetched from. */
  function DatasetUrl(baseUrl: string, task: string, digest: string): (url: string)
    ensures StartsWith(url, baseUrl) && EndsWith(url, ".gz")
    ensures |url| == |baseUrl| + |DatasetName(task, digest)| + 3
    ensures url[|baseUrl|..|url| - 3] == DatasetName(task, digest)
  {
    var url := baseUrl + DatasetName(task, digest) + ".gz";
    assert url[..|baseUrl|] == baseUrl;
    url
  }

  // ---------------------------------------------------------------------
  // Unfolding quoted text
  // ---------------------------------------------------------------------

  /** `x.group().replace('\n', '/')` inside a quoted span. */
  function Slashes(t: string): string {
    ReplaceAll(t, "\n", "/")
  }

  /**
   * `QUOTED_PATTERN.sub(...)` with the pattern `".*?"` and DOTALL: at each
   * position, a quote that has a later quote opens the shortest quoted
   * span, whose newlines become slashes; otherwise the character is kept
   * and the scan moves on by one.
   */
  function Unfold(s: string): string
    decreases |s|
  {
    if |s| == 0 then ""
    else if s[0] == '"' && '"' in s[1..] then
      var q := IndexOf(s[1..], '"').value + 1;
      ['"'] + Slashes(s[1..q]) + ['"'] + Unfold(s[q + 1..])
    else [s[0]] + Unfold(s[1..])
  }

  /**
   * Position `i` lies inside a pair of quotes, quotes being paired left to
   * right: an odd number of quotes precede it and a quote follows it.
   */
  predicate Paired(s: string, i: nat)
    requires i < |s|
  {
    CountChar(s[..i], '"') % 2 == 1 && '"' in s[i + 1..]
  }

  /** The character at `i` once the text is unfolded, by the pairing of the quotes. */
  function Unfolded(s: string, i: nat): char
    requires i < |s|
  {
    if s[i] == '\n' && Paired(s, i) then '/' else s[i]
  }

  /**
   * Unfolding keeps the length and replaces exactly the newlines that lie
   * between the first and second quote, the third and fourth, and so on;
   * text after an unpaired last quote is kept.
   */
  lemma {:induction false} UnfoldPairs(s: string)
    ensures |Unfold(s)| == |s|
    ensures forall i :: 0 <= i < |s| ==> Unfold(s)[i] == Unfolded(s, i)
    decreases |s|, 1
  {
    if |s| > 0 {
      if s[0] == '"' && '"' in s[1..] {
        var q := IndexOf(s[1..], '"').value + 1;
        UnfoldQuoted(s, q);
      } else {
        UnfoldPlain(s);
      }
    }
  }

  /** The step of `UnfoldPairs` where the first character opens no span. */
  lemma {:induction false} UnfoldPlain(s: string)
    requires |s| > 0 && !(s[0] == '"' && '"' in s[1..])
    ensures |Unfold(s)| == |s|
    ensures forall i :: 0 <= i < |s| ==> Unfold(s)[i] == Unfolded(s, i)
    decreases |s|, 0
  {
    var t := s[1..];
    UnfoldPairs(t);
    var ut := Unfold(t);
    assert Unfold(s) == [s[0]] + ut;
    forall i | 0 <= i < |s| ensures ([s[0]] + ut)[i] == Unfolded(s, i) {
      if i > 0 {
        assert ([s[0]] + ut)[i] == ut[i - 1] && t[i - 1] == s[i];
        UnfoldShift(s, i);
      }
    }
  }

  /** A character that opens no span is kept, and the pairing after it is the tail's. */
  lemma UnfoldShift(s: string, i: nat)
    requires 0 < i < |s|
    requires !(s[0] == '"' && '"' in s[1..])
    ensures Paired(s, i) <==> Paired(s[1..], i - 1)
  {
    assert s[..i] == [s[0]] + s[1..][..i - 1];
    CountCharAppend([s[0]], s[1..][..i - 1], '"');
    assert s[i + 1..] == s[1..][i..];
    if s[0] == '"' {
      assert '"' !in s[i + 1..];
    }
  }

  /** The step of `UnfoldPairs` where the text opens with a quoted span ending at `q`. */
  lemma {:induction false} UnfoldQuoted(s: string, q: nat)
    requires 0 < q < |s| && s[0] == '"' && s[q] == '"' && '"' !in s[1..q]
    requires Unfold(s) == ['"'] + Slashes(s[1..q]) + ['"'] + Unfold(s[q + 1..])
    ensures |Unfold(s)| == |s|
    ensures forall i :: 0 <= i < |s| ==> Unfold(s)[i] == Unfolded(s, i)
    decreases |s|, 0
  {
    var t := s[q + 1..];
    var m := Slashes(s[1..q]);
    var ut := Unfold(t);
    UnfoldPairs(t);
    ReplaceCharWise(s[1..q], '\n', '/');
    assert |m| == q - 1;
    SpanQuotes(s, q);
    var u := ['"'] + m + ['"'] + ut;
    assert |u| == |s|;
    forall i | 0 <= i < |s| ensures u[i] == Unfolded(s, i) {
      if i == 0 {
        assert u[0] == '"';
      } else if i < q {
        assert u[i] == m[i - 1];
        assert s[1..q][i - 1] == s[i];
        InsideSpan(s, q, i);
      } else if i == q {
        assert u[q] == '"';
      } else {
        assert u[i] == ut[i - q - 1];
        assert t[i - q - 1] == s[i];
        AfterSpan(s, q, i);
      }
    }
  }

  /** The first span holds two quotes: the one opening it and the one closing it. */
  lemma SpanQuotes(s: string, q: nat)
    requires 0 < q < |s| && s[0] == '"' && s[q] == '"' && '"' !in s[1..q]
    ensures CountChar(s[..q + 1], '"') == 2
  {
    assert s[..q + 1] == ['"'] + s[1..q] + ['"'];
    CountCharAppend(['"'] + s[1..q], ['"'], '"');
    CountCharAppend(['"'], s[1..q], '"');
    CountCharAbsent(s[1..q], '"');
  }

  /** A position strictly inside the first span is paired. */
  lemma InsideSpan(s: string, q: nat, i: nat)
    requires 0 < i < q < |s| && s[0] == '"' && s[q] == '"' && '"' !in s[1..q]
    ensures Paired(s, i)
  {
    assert s[..i] == ['"'] + s[1..i];
    CountCharAppend(['"'], s[1..i], '"');
    assert forall k :: 0 <= k < |s[1..i]| ==> s[1..i][k] == s[1..q][k];
    CountCharAbsent(s[1..i], '"');
    assert s[i + 1..][q - i - 1] == '"';
  }

  /** After the first span, the pairing is the one of the text that follows it. */
  lemma AfterSpan(s: string, q: nat, i: nat)
    requires q < i < |s| && CountChar(s[..q + 1], '"') == 2
    ensures Paired(s, i) <==> Paired(s[q + 1..], i - q - 1)
  {
    var t := s[q + 1..];
    assert s[..i] == s[..q + 1] + t[..i - q - 1];
    CountCharAppend(s[..q + 1], t[..i - q - 1], '"');
    assert s[i + 1..] == t[i - q..];
  }

  /** Unfolding keeps every quote where it is and adds none. */
  lemma UnfoldKeepsQuotes(s: string)
    ensures |Unfold(s)| == |s|
    ensures forall i :: 0 <= i < |s| ==> (Unfold(s)[i] == '"' <==> s[i] == '"')
    ensures forall i :: 0 <= i < |s| ==> Unfold(s)[i] == s[i] || (s[i] == '\n' && Unfold(s)[i] == '/')
  {
    UnfoldPairs(s);
  }

  /** Unfolding twice is unfolding once: no paired newline is left. */
  lemma UnfoldIdempotent(s: string)
    ensures Unfold(Unfold(s)) == Unfold(s)
  {
    var u := Unfold(s);
    UnfoldKeepsQuotes(s);
    UnfoldPairs(s);
    UnfoldPairs(u);
    forall i | 0 <= i < |u| ensures Unfold(u)[i] == u[i] {
      SamePairing(s, u, i);
    }
  }

  /** Two texts with the quotes at the same places pair positions alike. */
  lemma SamePairing(s: string, u: string, i: nat)
    requires |s| == |u| && i < |s|
    requires forall k :: 0 <= k < |s| ==> (u[k] == '"' <==> s[k] == '"')
    ensures Paired(u, i) <==> Paired(s, i)
  {
    CountCharSamePlaces(u[..i], s[..i], '"');
    if '"' in s[i + 1..] {
      var k :| i + 1 <= k < |s| && s[k] == '"';
      assert u[i + 1..][k - i - 1] == '"';
    }
    if '"' in u[i + 1..] {
      var k :| i + 1 <= k < |u| && u[k] == '"';
      assert s[i + 1..][k - i - 1] == '"';
    }
  }

  // ---------------------------------------------------------------------
  // Timepoints
  // ---------------------------------------------------------------------

  datatype Timepoint = BL | FU1 | FU2 | FU3

  /** The timepoint a task belongs to, tested in the order '_FU3', '_FU2', '_FU'. */
  function TimepointOf(task: string): Timepoint {
    if Contains(task, "_FU3") then FU3
    else if Contains(task, "_FU2") then FU2
    else if Contains(task, "_FU") then FU1
    else BL
  }

  /** `PSYTOOLS_*_MASTER_DIR` */
  function MasterDir(t: Timepoint): string {
    match t
    case BL => "/neurospin/imagen/BL/RAW/PSC1/psytools"
    case FU1 => "/neurospin/imagen/FU1/RAW/PSC1/psytools"
    case FU2 => "/neurospin/imagen/FU2/RAW/PSC1/psytools"
    case FU3 => "/neurospin/imagen/FU3/RAW/PSC1/psytools"
  }

  /**
   * A task goes to the baseline directory exactly when its name holds no
   * '_FU' at all; otherwise '_FU3' wins over '_FU2', which wins over '_FU'.
   */
  lemma TimepointChoice(task: string)
    ensures TimepointOf(task) == BL <==> !Contains(task, "_FU")
    ensures TimepointOf(task) == FU3 <==> Contains(task, "_FU3")
    ensures TimepointOf(task) == FU2 <==> !Contains(task, "_FU3") && Contains(task, "_FU2")
    ensures TimepointOf(task) == FU1 <==> !Contains(task, "_FU3") && !Contains(task, "_FU2") && Contains(task, "_FU")
  {
    ContainsShorter(task, "_FU3", "_FU");
    ContainsShorter(task, "_FU2", "_FU");
  }

  /** A text holding `w` holds every prefix of `w`. */
  lemma ContainsShorter(s: string, w: string, p: string)
    requires p <= w
    ensures Contains(s, w) ==> Contains(s, p)
  {
    if Contains(s, w) {
      var i: nat :| i <= |s| && OccursAt(s, w, i);
      assert s[i..i + |p|] == w[..|p|];
      assert OccursAt(s, p, i);
    }
  }

  // ---------------------------------------------------------------------
  // The download loop
  // ---------------------------------------------------------------------

  /**
   * Where a dataset goes and what is written there: the unfolded text
   * fetched from its URL, in the directory of its timepoint.
   */
  function Output(dataset: (string, string), data: string): (o: (string, string))
    ensures o.0 == MasterDir(TimepointOf(dataset.0)) + "/" + DatasetName(dataset.0, dataset.1)
    ensures |o.1| == |data|
  {
    var (task, digest) := dataset;
    UnfoldPairs(data);
    assert !StartsWith(DatasetName(task, digest), "/") by {
      assert DatasetName(task, digest)[0] == 'I';
    }
    assert !EndsWith(MasterDir(TimepointOf(task)), "/");
    (PathJoin(MasterDir(TimepointOf(task)), DatasetName(task, digest)), Unfold(data))
  }

  /** The URLs of the datasets, in order. */
  function Urls(baseUrl: string, datasets: seq<(string, string)>): (urls: seq<string>)
    ensures |urls| == |datasets|
  {
    seq(|datasets|, k requires 0 <= k < |datasets| => DatasetUrl(baseUrl, datasets[k].0, datasets[k].1))
  }

  /**
   * The first dataset, from `i` on, whose fetch raises, or `|datasets|`
   * when none does: `requests.get`, the gzip decompression and the
   * decoding raise out of `download_csv`, which ends there.
   */
  function FirstFailure(baseUrl: string, datasets: seq<(string, string)>, fetch: string -> Outcome<string>, i: nat): (n: nat)
    requires i <= |datasets|
    ensures i <= n <= |datasets|
    ensures n < |datasets| ==> fetch(Urls(baseUrl, datasets)[n]).Raised?
    decreases |datasets| - i
  {
    if i == |datasets| then i
    else if fetch(DatasetUrl(baseUrl, datasets[i].0, datasets[i].1)).Raised? then i
    else FirstFailure(baseUrl, datasets, fetch, i + 1)
  }

  /** Every dataset before the first failure was fetched. */
  lemma {:induction false} FetchedBefore(baseUrl: string, datasets: seq<(string, string)>, fetch: string -> Outcome<string>, i: nat, k: nat)
    requires i <= k < |datasets| && k < FirstFailure(baseUrl, datasets, fetch, i)
    ensures fetch(Urls(baseUrl, datasets)[k]).Ok?
    decreases k - i
  {
    if k > i {
      FetchedBefore(baseUrl, datasets, fetch, i + 1, k);
    }
  }

  /** The search for the first failure, one dataset further. */
  lemma FailureStep(baseUrl: string, datasets: seq<(string, string)>, fetch: string -> Outcome<string>, i: nat)
    requires i < |datasets|
    ensures fetch(Urls(baseUrl, datasets)[i]).Raised? ==> FirstFailure(baseUrl, datasets, fetch, i) == i
    ensures fetch(Urls(baseUrl, datasets)[i]).Ok? ==>
      i < FirstFailure(baseUrl, datasets, fetch, i) == FirstFailure(baseUrl, datasets, fetch, i + 1)
  {
  }

  /** Every dataset before the first failure, counting from the first, was fetched. */
  lemma FetchedAll(baseUrl: string, datasets: seq<(string, string)>, fetch: string -> Outcome<string>)
    ensures forall k :: 0 <= k < FirstFailure(baseUrl, datasets, fetch, 0) ==> fetch(Urls(baseUrl, datasets)[k]).Ok?
  {
    forall k | 0 <= k < FirstFailure(baseUrl, datasets, fetch, 0) ensures fetch(Urls(baseUrl, datasets)[k]).Ok? {
      FetchedBefore(baseUrl, datasets, fetch, 0, k);
    }
  }

  /**
   * The outputs of the datasets fetched before the first failure, in
   * order; every one of them is the output of its fetched text.
   */
  function Outputs(baseUrl: string, datasets: seq<(string, string)>, fetch: string -> Outcome<string>): (outs: seq<(string, string)>)
    ensures |outs| == FirstFailure(baseUrl, datasets, fetch, 0)
    ensures forall k :: 0 <= k < |outs| ==>
      fetch(Urls(baseUrl, datasets)[k]).Ok? && outs[k] == Output(datasets[k], fetch(Urls(baseUrl, datasets)[k]).value)
  {
    var n := FirstFailure(baseUrl, datasets, fetch, 0);
    FetchedAll(baseUrl, datasets, fetch);
    seq(n, k requires 0 <= k < n => Output(datasets[k], fetch(Urls(baseUrl, datasets)[k]).value))
  }

  /** The exception that ends `download_csv`: that of the first failed fetch, if any. */
  function DownloadError(baseUrl: string, datasets: seq<(string, string)>, fetch: string -> Outcome<string>): (e: Option<Exc>)
    ensures e.None? <==> forall k :: 0 <= k < |datasets| ==> fetch(Urls(baseUrl, datasets)[k]).Ok?
  {
    var n := FirstFailure(baseUrl, datasets, fetch, 0);
    FetchedAll(baseUrl, datasets, fetch);
    if n < |datasets| then Some(fetch(Urls(baseUrl, datasets)[n]).exc) else None
  }

  /**
   * The body of the loop of `download_csv` for one dataset: the fetch
   * raises, and nothing is written; or its unfolded text is written
   * unless the file already holds it.
   */
  method DownloadOne(baseUrl: string, dataset: (string, string), fetch: string -> Outcome<string>, fs: FileSystem)
    returns (url: string, exc: Option<Exc>)
    modifies fs
    ensures url == DatasetUrl(baseUrl, dataset.0, dataset.1)
    ensures fetch(url).Raised? ==> exc == Some(fetch(url).exc) && fs.files == old(fs.files) && fs.writes == old(fs.writes)
    ensures fetch(url).Ok? ==> (exc.None? &&
      var o := Output(dataset, fetch(url).value);
      fs.files == old(fs.files)[o.0 := o.1] && fs.writes == old(fs.writes) + Changed(old(fs.files), o))
  {
    var (task, digest) := dataset;
    var name := DatasetName(task, digest);
    url := DatasetUrl(baseUrl, task, digest);
    var fetched := fetch(url);
    if fetched.Raised? {
      return url, Some(fetched.exc);
    }
    var data := Unfold(fetched.value);
    var path := PathJoin(MasterDir(TimepointOf(task)), name);
    assert (path, data) == Output(dataset, fetched.value);
    var _ := fs.WriteIfChanged(path, data);
    exc := None;
  }

  /**
   * One turn of the loop of `download_csv`: when the files so far are
   * those of the first `i` outputs, the turn either raises the exception
   * that ends the loop, the files being those of every output, or leaves
   * the files of the first `i + 1` outputs.
   */
  method DownloadNext(baseUrl: string, datasets: seq<(string, string)>, fetch: string -> Outcome<string>, fs: FileSystem,
                      i: nat, ghost files0: map<string, string>, ghost writes0: seq<string>)
    returns (url: string, exc: Option<Exc>)
    requires i < |datasets| && FirstFailure(baseUrl, datasets, fetch, i) == FirstFailure(baseUrl, datasets, fetch, 0)
    requires fs.files == ApplyWrites(files0, Outputs(baseUrl, datasets, fetch)[..i])
    requires fs.writes == writes0 + ChangedPaths(files0, Outputs(baseUrl, datasets, fetch)[..i])
    modifies fs
    ensures url == Urls(baseUrl, datasets)[i]
    ensures exc.Some? ==>
      && exc == DownloadError(baseUrl, datasets, fetch) && i == FirstFailure(baseUrl, datasets, fetch, 0)
      && fs.files == ApplyWrites(files0, Outputs(baseUrl, datasets, fetch))
      && fs.writes == writes0 + ChangedPaths(files0, Outputs(baseUrl, datasets, fetch))
    ensures exc.None? ==>
      && FirstFailure(baseUrl, datasets, fetch, i + 1) == FirstFailure(baseUrl, datasets, fetch, 0)
      && fs.files == ApplyWrites(files0, Outputs(baseUrl, datasets, fetch)[..i + 1])
      && fs.writes == writes0 + ChangedPaths(files0, Outputs(baseUrl, datasets, fetch)[..i + 1])
  {
    ghost var outs := Outputs(baseUrl, datasets, fetch);
    FailureStep(baseUrl, datasets, fetch, i);
    url, exc := DownloadOne(baseUrl, datasets[i], fetch, fs);
    if exc.Some? {
      assert outs[..i] == outs;
    } else {
      WritesStep(files0, outs, i);
    }
  }

  /**
   * `download_csv`: the datasets are fetched in order up to the first
   * fetch that raises, which ends the loop with the earlier files kept;
   * a file is written only when it is absent or holds other text, and
   * skipping the write of one dataset does not skip the datasets after
   * it. `fetch` stands for the HTTP request, the gzip decompression and
   * the decoding of the text.
   */
  method Download(baseUrl: string, datasets: seq<(string, string)>, fetch: string -> Outcome<string>, fs: FileSystem)
    returns (urls: seq<string>, exc: Option<Exc>)
    modifies fs
    ensures var n := FirstFailure(baseUrl, datasets, fetch, 0);
      urls == Urls(baseUrl, datasets)[..if n < |datasets| then n + 1 else n]
    ensures exc == DownloadError(baseUrl, datasets, fetch)
    ensures fs.files == ApplyWrites(old(fs.files), Outputs(baseUrl, datasets, fetch))
    ensures fs.writes == old(fs.writes) + ChangedPaths(old(fs.files), Outputs(baseUrl, datasets, fetch))
  {
    ghost var outs := Outputs(baseUrl, datasets, fetch);
    ghost var n := FirstFailure(baseUrl, datasets, fetch, 0);
    ghost var files0, writes0 := fs.files, fs.writes;
    urls, exc := [], None;
    assert writes0 + [] == writes0;
    var i := 0;
    while i < |datasets|
      invariant i <= n && FirstFailure(baseUrl, datasets, fetch, i) == n
      invariant urls == Urls(baseUrl, datasets)[..i]
      invariant fs.files == ApplyWrites(files0, outs[..i])
      invariant fs.writes == writes0 + ChangedPaths(files0, outs[..i])
    {
      var url, e := DownloadNext(baseUrl, datasets, fetch, fs, i, files0, writes0);
      PrefixStep(Urls(baseUrl, datasets), i);
      urls := urls + [url];
      if e.Some? {
        return urls, e;
      }
      i := i + 1;
    }
    PrefixStep(Urls(baseUrl, datasets), |datasets|);
    PrefixStep(outs, |datasets|);
  }

  /** The first `i + 1` elements of a sequence, from the first `i`. */
  lemma PrefixStep<T>(xs: seq<T>, i: nat)
    requires i <= |xs|
    ensures i < |xs| ==> xs[..i + 1] == xs[..i] + [xs[i]]
    ensures i == |xs| ==> xs[..i] == xs
  {
  }

  /** The files and the write log after one more output. */
  lemma WritesStep(files: map<string, string>, outs: seq<(string, string)>, i: nat)
    requires i < |outs|
    ensures ApplyWrites(files, outs[..i + 1]) == ApplyWrites(files, outs[..i])[outs[i].0 := outs[i].1]
    ensures ChangedPaths(files, outs[..i + 1]) == ChangedPaths(files, outs[..i]) + Changed(ApplyWrites(files, outs[..i]), outs[i])
  {
    PrefixStep(outs, i);
    ApplyWritesSnoc(files, outs[..i], outs[i]);
  }

  /**
   * Running the download again with the same server data writes nothing,
   * as long as no two datasets share a path.
   */
  lemma RerunDownloadsNothing(files: map<string, string>, baseUrl: string, datasets: seq<(string, string)>,
                              fetch: string -> Outcome<string>)
    requires DistinctPaths(Outputs(baseUrl, datasets, fetch))
    ensures var outs := Outputs(baseUrl, datasets, fetch);
      ChangedPaths(ApplyWrites(files, outs), outs) == []
  {
    RerunWritesNothing(files, Outputs(baseUrl, datasets, fetch));
  }
}
