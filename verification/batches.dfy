/** The batch loops of both command lines: a per-file conversion applied to
    each file in turn, each on the filesystem the previous one left. The
    conversion is a parameter, so the loop's properties are proved once for
    the packaged and the legacy conversion alike. */
module Batches {
  import opened Paths
  import opened Files
  import opened OcrUtils

  /** What one conversion leaves: the filesystem, its result and its calls. */
  datatype Step<R> = Step(fs: FileSystem, result: R, effects: seq<Effect>)

  /** What a run over several files leaves: the final filesystem, one result
      per file and every call, in order. */
  datatype Run<R> = Run(fs: FileSystem, results: seq<R>, effects: seq<Effect>)

  /** The reference meaning of `for f in files: results.append(step(f))`. */
  function RunSteps<R>(step: (FileSystem, Path) -> Step<R>, fs: FileSystem, files: seq<Path>): (b: Run<R>)
    ensures |b.results| == |files|
    ensures |files| == 0 ==> b == Run(fs, [], [])
    ensures |files| > 0 ==> b.results[0] == step(fs, files[0]).result
    decreases |files|
  {
    if |files| == 0 then Run(fs, [], [])
    else
      var o := step(fs, files[0]);
      var rest := RunSteps(step, o.fs, files[1..]);
      Run(rest.fs, [o.result] + rest.results, o.effects + rest.effects)
  }

  /** One more file extends the run by that file's step, taken on the
      filesystem the run left. */
  lemma {:induction false} RunStepsSnoc<R>(step: (FileSystem, Path) -> Step<R>, fs: FileSystem, files: seq<Path>, p: Path)
    ensures var b := RunSteps(step, fs, files);
            var o := step(b.fs, p);
            RunSteps(step, fs, files + [p]) == Run(o.fs, b.results + [o.result], b.effects + o.effects)
    decreases |files|
  {
    if |files| == 0 {
      assert (files + [p])[1..] == [];
    } else {
      var first := step(fs, files[0]);
      assert (files + [p])[0] == files[0];
      assert (files + [p])[1..] == files[1..] + [p];
      RunStepsSnoc(step, first.fs, files[1..], p);
      var rest := RunSteps(step, first.fs, files[1..]);
      var o := step(rest.fs, p);
      assert [first.result] + (rest.results + [o.result]) == ([first.result] + rest.results) + [o.result];
      assert first.effects + (rest.effects + o.effects) == (first.effects + rest.effects) + o.effects;
    }
  }

  /** A property every step's result has for its own file holds for every
      result of the run, position by position. */
  lemma {:induction false} RunStepsResults<R>(step: (FileSystem, Path) -> Step<R>, fs: FileSystem, files: seq<Path>, good: (Path, R) -> bool)
    requires forall f: FileSystem, p: Path :: good(p, step(f, p).result)
    ensures forall i :: 0 <= i < |files| ==> good(files[i], RunSteps(step, fs, files).results[i])
    decreases |files|
  {
    if |files| > 0 {
      var o := step(fs, files[0]);
      RunStepsResults(step, o.fs, files[1..], good);
      var b := RunSteps(step, fs, files);
      forall i | 0 <= i < |files|
        ensures good(files[i], b.results[i])
      {
        if i > 0 {
          assert b.results[i] == RunSteps(step, o.fs, files[1..]).results[i - 1];
          assert files[i] == files[1..][i - 1];
        }
      }
    }
  }

  /** A kind of call no step makes is a kind of call the run never makes. */
  lemma {:induction false} RunStepsEffects<R>(step: (FileSystem, Path) -> Step<R>, fs: FileSystem, files: seq<Path>, allowed: Effect -> bool)
    requires forall f: FileSystem, p: Path, e: Effect :: e in step(f, p).effects ==> allowed(e)
    ensures forall e :: e in RunSteps(step, fs, files).effects ==> allowed(e)
    decreases |files|
  {
    if |files| > 0 {
      RunStepsEffects(step, step(fs, files[0]).fs, files[1..], allowed);
    }
  }

  /** The loop itself: results are appended one file at a time. */
  method RunEach<R>(step: (FileSystem, Path) -> Step<R>, fs: FileSystem, files: seq<Path>) returns (b: Run<R>)
    ensures b == RunSteps(step, fs, files)
  {
    var results: seq<R> := [];
    var effects: seq<Effect> := [];
    var current := fs;
    var i := 0;
    while i < |files|
      invariant 0 <= i <= |files|
      invariant RunSteps(step, fs, files[..i]) == Run(current, results, effects)
    {
      var o := step(current, files[i]);
      assert files[..i + 1] == files[..i] + [files[i]];
      RunStepsSnoc(step, fs, files[..i], files[i]);
      results := results + [o.result];
      effects := effects + o.effects;
      current := o.fs;
      i := i + 1;
    }
    assert files[..i] == files;
    b := Run(current, results, effects);
  }
}
