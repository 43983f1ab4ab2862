/**
 * The part of the file system the scripts touch: regular files by path,
 * and the "write only when the content changed" step they all share.
 */
module Files {

  import opened Text

  /** `os.path.join(a, b)`: an absolute second part replaces the first. */
  function PathJoin(a: string, b: string): (p: string)
    ensures StartsWith(b, "/") ==> p == b
    ensures !StartsWith(b, "/") ==> EndsWith(p, b) && StartsWith(p, a)
  {
    if StartsWith(b, "/") then b
    else if a == "" || EndsWith(a, "/") then a + b
    else a + "/" + b
  }

  /**
   * `os.path.splitext(p)`: the extension runs from the last '.' of the
   * last path component, unless everything before that '.' in the
   * component is dots; otherwise there is none.
   */
  function SplitExt(p: string): (r: (string, string))
    ensures r.0 + r.1 == p
  {
    var start := match LastIndexOf(p, '/') case None => 0 case Some(k) => k + 1;
    match LastIndexOf(p, '.')
    case None => assert p + "" == p; (p, "")
    case Some(dot) =>
      if start <= dot && !OnlyDots(p[start..dot]) then
        assert p[..dot] + p[dot..] == p;
        (p[..dot], p[dot..])
      else
        assert p + "" == p;
        (p, "")
  }

  /** Whether a text is made of dots only. */
  predicate OnlyDots(s: string)
    decreases |s|
  {
    |s| == 0 || (s[0] == '.' && OnlyDots(s[1..]))
  }

  lemma {:induction false} OnlyDotsAll(s: string)
    ensures OnlyDots(s) <==> forall k :: 0 <= k < |s| ==> s[k] == '.'
    decreases |s|
  {
    if |s| > 0 {
      OnlyDotsAll(s[1..]);
      assert forall k :: 1 <= k < |s| ==> s[k] == s[1..][k - 1];
    }
  }

  /**
   * A file name (no '/') has the extension `ext` (a '.' then no other
   * '.') exactly when it ends with `ext` after at least one character
   * other than '.'.
   */
  lemma SplitExtIs(name: string, ext: string)
    requires '/' !in name && '/' !in ext && |ext| >= 1 && ext[0] == '.' && '.' !in ext[1..]
    ensures SplitExt(name).1 == ext <==> EndsWith(name, ext) && exists k :: 0 <= k < |name| - |ext| && name[k] != '.'
  {
    match LastIndexOf(name, '.') {
      case Some(dot) =>
        OnlyDotsAll(name[..dot]);
        assert forall k :: 0 <= k < dot ==> name[..dot][k] == name[k];
      case None =>
    }
    if EndsWith(name, ext) {
      var at := |name| - |ext|;
      assert name[at] == ext[0];
    }
    if SplitExt(name).1 == ext {
      var dot := LastIndexOf(name, '.').value;
      assert name[dot..] == ext;
      assert name[|name| - |ext|..] == ext;
    }
  }

  /**
   * The files, by path, with their text, and the paths written so far in
   * the order they were written.
   */
  class FileSystem {
    var files: map<string, string>
    var writes: seq<string>

    constructor (initial: map<string, string>)
      ensures files == initial && writes == []
    {
      files := initial;
      writes := [];
    }

    /**
     * Writes `data` to `path` unless a file there already holds exactly
     * `data`; reports whether it wrote.
     */
    method WriteIfChanged(path: string, data: string) returns (wrote: bool)
      modifies this
      ensures wrote <==> !(path in old(files) && old(files)[path] == data)
      ensures files == old(files)[path := data]
      ensures writes == old(writes) + if wrote then [path] else []
    {
      if path in files && files[path] == data {
        wrote := false;
        assert files == old(files)[path := data];
      } else {
        files := files[path := data];
        writes := writes + [path];
        wrote := true;
      }
    }

    /** Writes `data` to `path` unconditionally. */
    method Write(path: string, data: string)
      modifies this
      ensures files == old(files)[path := data]
      ensures writes == old(writes) + [path]
    {
      files := files[path := data];
      writes := writes + [path];
    }
  }

  /** The files after writing each `(path, data)` of `outputs` in turn. */
  function ApplyWrites(files: map<string, string>, outputs: seq<(string, string)>): map<string, string>
    decreases |outputs|
  {
    if |outputs| == 0 then files
    else ApplyWrites(files[outputs[0].0 := outputs[0].1], outputs[1..])
  }

  /** The path of `output` if writing it changes `files`, nothing otherwise. */
  function Changed(files: map<string, string>, output: (string, string)): seq<string>
  {
    if output.0 in files && files[output.0] == output.1 then [] else [output.0]
  }

  /** The paths actually written when the unchanged files are skipped. */
  function ChangedPaths(files: map<string, string>, outputs: seq<(string, string)>): seq<string>
    decreases |outputs|
  {
    if |outputs| == 0 then []
    else Changed(files, outputs[0]) + ChangedPaths(files[outputs[0].0 := outputs[0].1], outputs[1..])
  }

  /** Writing one more output extends the effect of the writes before it. */
  lemma {:induction false} ApplyWritesSnoc(files: map<string, string>, outputs: seq<(string, string)>, o: (string, string))
    ensures ApplyWrites(files, outputs + [o]) == ApplyWrites(files, outputs)[o.0 := o.1]
    ensures ChangedPaths(files, outputs + [o]) == ChangedPaths(files, outputs) + Changed(ApplyWrites(files, outputs), o)
    decreases |outputs|
  {
    if |outputs| > 0 {
      assert (outputs + [o])[1..] == outputs[1..] + [o];
      ApplyWritesSnoc(files[outputs[0].0 := outputs[0].1], outputs[1..], o);
    }
  }

  predicate DistinctPaths(outputs: seq<(string, string)>) {
    forall i, j :: 0 <= i < j < |outputs| ==> outputs[i].0 != outputs[j].0
  }

  /** After the writes, each output path holds its output (paths distinct). */
  lemma {:induction false} ApplyWritesHolds(files: map<string, string>, outputs: seq<(string, string)>)
    requires DistinctPaths(outputs)
    ensures forall i :: 0 <= i < |outputs| ==>
      outputs[i].0 in ApplyWrites(files, outputs) && ApplyWrites(files, outputs)[outputs[i].0] == outputs[i].1
    ensures forall p :: p in files && (forall i :: 0 <= i < |outputs| ==> outputs[i].0 != p) ==>
      p in ApplyWrites(files, outputs) && ApplyWrites(files, outputs)[p] == files[p]
    decreases |outputs|
  {
    if |outputs| > 0 {
      var next := files[outputs[0].0 := outputs[0].1];
      ApplyWritesHolds(next, outputs[1..]);
      forall i | 0 <= i < |outputs|
        ensures outputs[i].0 in ApplyWrites(files, outputs) && ApplyWrites(files, outputs)[outputs[i].0] == outputs[i].1
      {
        if i > 0 {
          assert outputs[1..][i - 1] == outputs[i];
        } else {
          assert forall k :: 0 <= k < |outputs[1..]| ==> outputs[1..][k].0 != outputs[0].0;
        }
      }
      forall p | p in files && (forall i :: 0 <= i < |outputs| ==> outputs[i].0 != p)
        ensures p in ApplyWrites(files, outputs) && ApplyWrites(files, outputs)[p] == files[p]
      {
        assert outputs[0].0 != p;
        assert forall k :: 0 <= k < |outputs[1..]| ==> outputs[1..][k].0 != p by {
          forall k | 0 <= k < |outputs[1..]| ensures outputs[1..][k].0 != p {
            assert outputs[1..][k] == outputs[k + 1];
          }
        }
      }
    }
  }

  /**
   * Skipping unchanged files makes a rerun with the same data write
   * nothing, as long as no two outputs share a path.
   */
  lemma {:induction false} RerunWritesNothing(files: map<string, string>, outputs: seq<(string, string)>)
    requires DistinctPaths(outputs)
    ensures ChangedPaths(ApplyWrites(files, outputs), outputs) == []
  {
    ApplyWritesHolds(files, outputs);
    RerunFrom(ApplyWrites(files, outputs), outputs);
  }

  lemma {:induction false} RerunFrom(after: map<string, string>, outputs: seq<(string, string)>)
    requires DistinctPaths(outputs)
    requires forall i :: 0 <= i < |outputs| ==> outputs[i].0 in after && after[outputs[i].0] == outputs[i].1
    ensures ChangedPaths(after, outputs) == []
  {
    if |outputs| > 0 {
      var (path, data) := outputs[0];
      assert path in after && after[path] == data;
      assert after[path := data] == after;
      forall i | 0 <= i < |outputs[1..]|
        ensures outputs[1..][i].0 in after && after[outputs[1..][i].0] == outputs[1..][i].1
      {
        assert outputs[1..][i] == outputs[i + 1];
      }
      RerunFrom(after, outputs[1..]);
    }
  }
}
