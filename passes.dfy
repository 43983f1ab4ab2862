/**
 * The directory walk every pseudonymisation script shares: `for name in
 * os.listdir(master_dir)`, one pass per file, each writing at most one
 * file under `psc2_dir`; an exception ends the whole walk.
 */
module Passes {

  import opened Wrappers
  import opened Python
  import opened Files

  /** What a pass over one file does: the file it writes, if any, and the exception it raises, if any. */
  type FileRun = (Option<(string, string)>, Option<Exc>)

  /** The write a pass over one file makes, as a list of zero or one writes. */
  function WriteOf(run: FileRun): (w: seq<(string, string)>)
  {
    if run.0.Some? then [run.0.value] else []
  }

  /**
   * A walk over the files named `names`, in order: each pass sees the
   * files as the earlier passes left them; the first exception ends the
   * walk, once the file it was raised in has been written. Returns the
   * writes, in order, and that exception.
   */
  function Walk(files: map<string, string>, names: seq<string>, step: (map<string, string>, string) --> FileRun)
    : (r: (seq<(string, string)>, Option<Exc>))
    requires forall files, name :: step.requires(files, name)
    ensures |r.0| <= |names|
    decreases |names|
  {
    if |names| == 0 then ([], None)
    else
      var run := step(files, names[0]);
      if run.1.Some? then (WriteOf(run), run.1)
      else
        var rest := Walk(ApplyWrites(files, WriteOf(run)), names[1..], step);
        (WriteOf(run) + rest.0, rest.1)
  }

  /** The paths of the writes, in order. */
  function Paths(outputs: seq<(string, string)>): (ps: seq<string>)
    ensures |ps| == |outputs| && forall i :: 0 <= i < |outputs| ==> ps[i] == outputs[i].0
  {
    seq(|outputs|, i requires 0 <= i < |outputs| => outputs[i].0)
  }

  /** What one pass's writes do to the files, and the paths they name. */
  lemma RunWrites(files: map<string, string>, run: FileRun)
    ensures ApplyWrites(files, WriteOf(run)) == if run.0.Some? then files[run.0.value.0 := run.0.value.1] else files
    ensures Paths(WriteOf(run)) == if run.0.Some? then [run.0.value.0] else []
  {
    if run.0.Some? {
      assert WriteOf(run)[1..] == [];
    }
  }

  /** The walk over the names from `i` on, as the walk over the name at `i` followed by the rest. */
  lemma WalkFrom(files: map<string, string>, names: seq<string>, i: nat, step: (map<string, string>, string) --> FileRun)
    requires forall files, name :: step.requires(files, name)
    requires i < |names|
    ensures var run := step(files, names[i]);
      Walk(files, names[i..], step) ==
        if run.1.Some? then (WriteOf(run), run.1)
        else
          var rest := Walk(ApplyWrites(files, WriteOf(run)), names[i + 1..], step);
          (WriteOf(run) + rest.0, rest.1)
  {
    assert names[i..][0] == names[i] && names[i..][1..] == names[i + 1..];
  }

  /** Writes made so far, followed by the rest of a walk. */
  function Continued<T>(outs: seq<T>, w: (seq<T>, Option<Exc>)): (seq<T>, Option<Exc>)
  {
    (outs + w.0, w.1)
  }

  /**
   * One iteration of a directory loop: when the walk so far made the
   * writes `outs` and the rest of the walk starts at `i`, the pass over
   * `names[i]` either ends the walk or leaves the rest to start at
   * `i + 1`, its write added to `outs`.
   */
  lemma WalkAdvance(files0: map<string, string>, outs: seq<(string, string)>, files: map<string, string>,
                    names: seq<string>, i: nat, step: (map<string, string>, string) --> FileRun)
    requires forall files, name :: step.requires(files, name)
    requires i < |names| && files == ApplyWrites(files0, outs)
    requires Walk(files0, names, step) == Continued(outs, Walk(files, names[i..], step))
    ensures var run := step(files, names[i]);
      ApplyWrites(files0, outs + WriteOf(run)) == ApplyWrites(files, WriteOf(run)) &&
      (forall before :: before + Paths(outs + WriteOf(run)) == (before + Paths(outs)) + Paths(WriteOf(run))) &&
      if run.1.Some? then Walk(files0, names, step) == (outs + WriteOf(run), run.1)
      else Walk(files0, names, step) == Continued(outs + WriteOf(run), Walk(ApplyWrites(files, WriteOf(run)), names[i + 1..], step))
  {
    var run := step(files, names[i]);
    WalkFrom(files, names, i, step);
    RunWritesAfter(files0, outs, run);
    if run.1.None? {
      var rest := Walk(ApplyWrites(files, WriteOf(run)), names[i + 1..], step);
      Associative(outs, WriteOf(run), rest.0);
    }
  }

  /** Before the first pass, the walk is all still to come and nothing has been written. */
  lemma WalkStart(files: map<string, string>, names: seq<string>, step: (map<string, string>, string) --> FileRun)
    requires forall files, name :: step.requires(files, name)
    ensures Walk(files, names, step) == Continued([], Walk(ApplyWrites(files, []), names[0..], step))
    ensures forall before :: before + Paths([]) == before
  {
    assert names[0..] == names;
    assert [] + Walk(files, names, step).0 == Walk(files, names, step).0;
  }

  /** One more pass's writes, after the writes `outs` made to `files0`. */
  lemma RunWritesAfter(files0: map<string, string>, outs: seq<(string, string)>, run: FileRun)
    ensures ApplyWrites(files0, outs + WriteOf(run)) == ApplyWrites(ApplyWrites(files0, outs), WriteOf(run))
    ensures forall before :: before + Paths(outs + WriteOf(run)) == (before + Paths(outs)) + Paths(WriteOf(run))
  {
    if run.0.Some? {
      ApplyWritesSnoc(files0, outs, run.0.value);
      RunWrites(ApplyWrites(files0, outs), run);
    } else {
      assert outs + WriteOf(run) == outs;
    }
    assert Paths(outs + WriteOf(run)) == Paths(outs) + Paths(WriteOf(run));
  }

  lemma Associative<T>(a: seq<T>, b: seq<T>, c: seq<T>)
    ensures a + (b + c) == (a + b) + c
  {
  }

  /** A directory loop that has gone through every name has made every write of the walk. */
  lemma WalkDone(files0: map<string, string>, outs: seq<(string, string)>, files: map<string, string>,
                 names: seq<string>, step: (map<string, string>, string) --> FileRun)
    requires forall files, name :: step.requires(files, name)
    requires Walk(files0, names, step) == Continued(outs, Walk(files, names[|names|..], step))
    ensures Walk(files0, names, step) == (outs, None)
  {
    assert names[|names|..] == [];
    assert outs + [] == outs;
  }

  /**
   * Every write of a walk is the write of the pass over one of the
   * names: a walk writes nothing else.
   */
  lemma {:induction false} WalkWrites(files: map<string, string>, names: seq<string>, step: (map<string, string>, string) --> FileRun)
    requires forall files, name :: step.requires(files, name)
    ensures forall k :: 0 <= k < |Walk(files, names, step).0| ==>
      exists i, f :: 0 <= i < |names| && step(f, names[i]).0 == Some(Walk(files, names, step).0[k])
    decreases |names|
  {
    if |names| > 0 {
      var run := step(files, names[0]);
      var w := Walk(files, names, step);
      if run.1.None? {
        var next := ApplyWrites(files, WriteOf(run));
        var rest := Walk(next, names[1..], step);
        WalkWrites(next, names[1..], step);
        forall k | 0 <= k < |w.0| ensures exists i, f :: 0 <= i < |names| && step(f, names[i]).0 == Some(w.0[k]) {
          assert w.0 == WriteOf(run) + rest.0;
          if k < |WriteOf(run)| {
            assert w.0[k] == run.0.value;
            assert step(files, names[0]).0 == Some(w.0[k]);
          } else {
            assert w.0[k] == rest.0[k - |WriteOf(run)|];
            var i, f :| 0 <= i < |names[1..]| && step(f, names[1..][i]).0 == Some(rest.0[k - |WriteOf(run)|]);
            assert names[1..][i] == names[i + 1];
            assert 0 <= i + 1 < |names| && step(f, names[i + 1]).0 == Some(w.0[k]);
          }
        }
        assert forall k :: 0 <= k < |w.0| ==> exists i, f :: 0 <= i < |names| && step(f, names[i]).0 == Some(w.0[k]);
      } else {
        forall k | 0 <= k < |w.0| ensures exists i, f :: 0 <= i < |names| && step(f, names[i]).0 == Some(w.0[k]) {
          assert w.0 == WriteOf(run) && w.0[k] == run.0.value;
          assert step(files, names[0]).0 == Some(w.0[k]);
        }
      }
    } else {
      assert Walk(files, names, step).0 == [];
    }
  }
}
