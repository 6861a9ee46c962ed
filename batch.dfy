/** The batch loop of `convert_thread`: the files are converted one after
    the other, in the order given, each on the disk the earlier ones left;
    before each file the processing flag is checked and a cleared flag ends
    the batch; successes and failures are counted. */
module Batch {
  import opened Common
  import opened Catalog
  import opened Naming
  import opened Reader
  import opened Pipeline

  /** The result of running the batch: one outcome per attempted file, in
      order, and the disk at the end. */
  datatype Run = Run(outcomes: seq<Outcome>, fs: FileSystem)

  /** Everything the batch loop reads besides the disk: the settings, the
      naming of each input (`get_output_filename` for the selected voice), the
      voice handed to the service, the value of the processing flag when file
      i is reached, and the service's answer to the request for file i. */
  datatype Job = Job(
    settings: Settings,
    files: seq<string>,
    namer: string -> string,
    voice: Option<string>,
    processing: nat -> bool,
    synth: nat -> Request -> Synthesis)

  /** The job `convert_thread` runs for a display name selected in the voice
      list. */
  function JobFor(settings: Settings, files: seq<string>, displayName: string,
                  processing: nat -> bool, synth: nat -> Request -> Synthesis): Job
  {
    Job(settings, files, Namer(displayName), SynthesisVoice(displayName), processing, synth)
  }

  /** Converting file i on disk `fs`: its outcome and the disk after it. No
      file is removed, and a file reported converted has its output on disk. */
  function Step(job: Job, fs: FileSystem, i: nat): (r: (Outcome, FileSystem))
    requires i < |job.files|
    ensures fs.Keys <= r.1.Keys
    ensures r.0.Converted? ==> r.0.output in r.1
  {
    ConvertSingle(fs, job.settings, job.namer(job.files[i]), job.voice, job.files[i], job.synth(i))
  }

  /** The files from index i on, run on disk `fs`: one outcome for each file
      before the first at which the flag is found cleared, and no file
      removed from the disk. */
  function RunFrom(job: Job, fs: FileSystem, i: nat): (r: Run)
    requires i <= |job.files|
    ensures |r.outcomes| == StopIndex(job, i) - i
    ensures fs.Keys <= r.fs.Keys
    decreases |job.files| - i
  {
    if i == |job.files| || !job.processing(i) then Run([], fs)
    else
      var (outcome, fs') := Step(job, fs, i);
      var rest := RunFrom(job, fs', i + 1);
      Run([outcome] + rest.outcomes, rest.fs)
  }

  /** The whole batch: the files before the stop index are attempted, and
      no file is removed. */
  function RunAll(job: Job, fs: FileSystem): (r: Run)
    ensures |r.outcomes| == StopIndex(job, 0) <= |job.files|
    ensures fs.Keys <= r.fs.Keys
  {
    RunFrom(job, fs, 0)
  }

  /** Index of the first file, from i on, at which the flag is found cleared,
      or the number of files if it never is: how far the loop gets. */
  function StopIndex(job: Job, i: nat): (n: nat)
    requires i <= |job.files|
    ensures i <= n <= |job.files|
    ensures forall k :: i <= k < n ==> job.processing(k)
    ensures n < |job.files| ==> !job.processing(n)
    decreases |job.files| - i
  {
    if i == |job.files| || !job.processing(i) then i else StopIndex(job, i + 1)
  }

  /** Number of converted outcomes. */
  function Successes(outcomes: seq<Outcome>): (n: nat)
    ensures n <= |outcomes|
  {
    if outcomes == [] then 0
    else (if outcomes[0].Converted? then 1 else 0) + Successes(outcomes[1..])
  }

  /** Number of failed outcomes. */
  function Failures(outcomes: seq<Outcome>): (n: nat)
    ensures n <= |outcomes|
  {
    if outcomes == [] then 0
    else (if outcomes[0].Failed? then 1 else 0) + Failures(outcomes[1..])
  }

  lemma {:induction false} CountsAppend(a: seq<Outcome>, o: Outcome)
    ensures Successes(a + [o]) == Successes(a) + (if o.Converted? then 1 else 0)
    ensures Failures(a + [o]) == Failures(a) + (if o.Failed? then 1 else 0)
  {
    if a != [] {
      assert (a + [o])[1..] == a[1..] + [o];
      CountsAppend(a[1..], o);
    }
  }

  /** One step of the batch: file i is converted, then the rest run on the
      disk it left. */
  lemma {:induction false} RunStep(job: Job, fs: FileSystem, i: nat, outcome: Outcome, fs': FileSystem)
    requires i < |job.files| && job.processing(i)
    requires (outcome, fs') == Step(job, fs, i)
    ensures RunFrom(job, fs, i) == Run([outcome] + RunFrom(job, fs', i + 1).outcomes, RunFrom(job, fs', i + 1).fs)
  {
  }

  /** The loop's invariant survives converting file i. */
  lemma {:induction false} Advance(job: Job, fs: FileSystem, done: seq<Outcome>, i: nat,
                before: FileSystem, outcome: Outcome, after: FileSystem)
    requires i < |job.files| && job.processing(i)
    requires done + RunFrom(job, before, i).outcomes == RunAll(job, fs).outcomes
    requires RunFrom(job, before, i).fs == RunAll(job, fs).fs
    requires (outcome, after) == Step(job, before, i)
    ensures (done + [outcome]) + RunFrom(job, after, i + 1).outcomes == RunAll(job, fs).outcomes
    ensures RunFrom(job, after, i + 1).fs == RunAll(job, fs).fs
  {
    var rest := RunFrom(job, after, i + 1);
    RunStep(job, before, i, outcome, after);
    assert (done + [outcome]) + rest.outcomes == done + ([outcome] + rest.outcomes);
  }

  /** The batch ends at the end of the list or where the flag is cleared. */
  lemma {:induction false} RunStops(job: Job, fs: FileSystem, i: nat)
    requires i <= |job.files|
    requires i == |job.files| || !job.processing(i)
    ensures RunFrom(job, fs, i) == Run([], fs)
  {
  }

  /** One pass of the loop body: file i is converted on the current disk and
      counted, and the loop's invariant holds for the next file. */
  method ConvertNext(job: Job, ghost start: FileSystem, ghost done: seq<Outcome>, i: nat,
                     fs: FileSystem, successCount: nat, failCount: nat)
    returns (outcome: Outcome, fs': FileSystem, successCount': nat, failCount': nat)
    requires i < |job.files| && job.processing(i)
    requires done + RunFrom(job, fs, i).outcomes == RunAll(job, start).outcomes
    requires RunFrom(job, fs, i).fs == RunAll(job, start).fs
    requires successCount == Successes(done) && failCount == Failures(done)
    ensures (done + [outcome]) + RunFrom(job, fs', i + 1).outcomes == RunAll(job, start).outcomes
    ensures RunFrom(job, fs', i + 1).fs == RunAll(job, start).fs
    ensures successCount' == Successes(done + [outcome]) && failCount' == Failures(done + [outcome])
  {
    outcome, fs' := ConvertSingleFile(fs, job.settings, job.namer, job.voice, job.files[i], job.synth(i));
    Advance(job, start, done, i, fs, outcome, fs');
    CountsAppend(done, outcome);
    successCount', failCount' := successCount, failCount;
    if outcome.Converted? {
      successCount' := successCount + 1;
    } else {
      failCount' := failCount + 1;
    }
  }

  /** `convert_thread`'s loop as written: check the flag, convert the file,
      count it, move on. The job is the one `JobFor` builds from the selected
      display name (lines 724-726). */
  method ConvertBatch(fs: FileSystem, job: Job) returns (successCount: nat, failCount: nat, fs': FileSystem)
    ensures var run := RunAll(job, fs);
      && successCount == Successes(run.outcomes)
      && failCount == Failures(run.outcomes)
      && fs' == run.fs
  {
    successCount, failCount := 0, 0;
    fs' := fs;
    ghost var done: seq<Outcome> := [];
    var i := 0;
    assert done + RunFrom(job, fs', i).outcomes == RunAll(job, fs).outcomes;
    while i < |job.files|
      invariant i <= |job.files|
      invariant done + RunFrom(job, fs', i).outcomes == RunAll(job, fs).outcomes
      invariant RunFrom(job, fs', i).fs == RunAll(job, fs).fs
      invariant successCount == Successes(done) && failCount == Failures(done)
    {
      if !job.processing(i) {
        break;
      }
      var success;
      success, fs', successCount, failCount := ConvertNext(job, fs, done, i, fs', successCount, failCount);
      done := done + [success];
      i := i + 1;
    }
    BatchDone(job, fs, done, i, fs');
  }

  /** Where the loop leaves off, at the end of the list or at a cleared
      flag, the outcomes it has collected are those of the whole batch and
      its disk is the batch's final disk. */
  lemma {:induction false} BatchDone(job: Job, start: FileSystem, done: seq<Outcome>, i: nat, fs: FileSystem)
    requires i <= |job.files| && (i == |job.files| || !job.processing(i))
    requires done + RunFrom(job, fs, i).outcomes == RunAll(job, start).outcomes
    requires RunFrom(job, fs, i).fs == RunAll(job, start).fs
    ensures done == RunAll(job, start).outcomes && fs == RunAll(job, start).fs
  {
    RunStops(job, fs, i);
    assert done + [] == done;
  }

  // ---------------------------------------------------------------------------
  // Properties
  // ---------------------------------------------------------------------------

  /** Every outcome is a success or a failure. */
  lemma {:induction false} TallyAddsUp(outcomes: seq<Outcome>)
    ensures Successes(outcomes) + Failures(outcomes) == |outcomes|
  {
    if outcomes != [] {
      TallyAddsUp(outcomes[1..]);
    }
  }

  /** The tally: successes and failures add up to the number of files
      attempted, which is at most the number of files, and all of them when
      the flag is never found cleared. */
  lemma {:induction false} Tally(job: Job, fs: FileSystem)
    ensures var run := RunAll(job, fs);
      && Successes(run.outcomes) + Failures(run.outcomes) == |run.outcomes| == StopIndex(job, 0)
      && |run.outcomes| <= |job.files|
      && ((forall k :: 0 <= k < |job.files| ==> job.processing(k)) ==> |run.outcomes| == |job.files|)
  {
    TallyAddsUp(RunAll(job, fs).outcomes);
  }

  /** The disk the files from index `from` leave behind after the files up to
      index `to` (exclusive) have run. */
  function DiskAfter(job: Job, fs: FileSystem, from: nat, to: nat): FileSystem
    requires from <= to <= |job.files|
    decreases |job.files| - from
  {
    if from == to || !job.processing(from) then fs
    else
      var fs' := Step(job, fs, from).1;
      DiskAfter(job, fs', from + 1, to)
  }

  /** Files are run in order: outcome k is the conversion of file k on the
      disk the earlier files left, with the service's answer for file k. */
  lemma {:induction false} InOrder(job: Job, fs: FileSystem, i: nat, k: nat)
    requires i <= k < |job.files|
    requires k - i < |RunFrom(job, fs, i).outcomes|
    ensures RunFrom(job, fs, i).outcomes[k - i] == Step(job, DiskAfter(job, fs, i, k), k).0
    decreases k - i
  {
    var (o, fs') := Step(job, fs, i);
    RunStep(job, fs, i, o, fs');
    var rest := RunFrom(job, fs', i + 1).outcomes;
    if k == i {
      assert DiskAfter(job, fs, i, k) == fs;
    } else {
      assert DiskAfter(job, fs, i, k) == DiskAfter(job, fs', i + 1, k);
      assert RunFrom(job, fs, i).outcomes[k - i] == rest[k - (i + 1)];
      InOrder(job, fs', i + 1, k);
    }
  }

  /** Every output reported as converted is on the disk at the end of the
      batch. */
  lemma {:induction false} ConvertedOutputsRemain(job: Job, fs: FileSystem, i: nat, k: nat)
    requires i <= |job.files|
    requires 0 <= k < |RunFrom(job, fs, i).outcomes|
    requires RunFrom(job, fs, i).outcomes[k].Converted?
    ensures RunFrom(job, fs, i).outcomes[k].output in RunFrom(job, fs, i).fs
    decreases |job.files| - i
  {
    var (o, fs') := Step(job, fs, i);
    RunStep(job, fs, i, o, fs');
    var rest := RunFrom(job, fs', i + 1);
    if k == 0 {
    } else {
      assert RunFrom(job, fs, i).outcomes[k] == rest.outcomes[k - 1];
      ConvertedOutputsRemain(job, fs', i + 1, k - 1);
    }
  }

  /** The job `convert_thread` runs for a selected display name reads the
      voice list twice: the names come from `voice_options.get(name, "")`,
      and the service gets `voice_options.get(name)`. The service gets no
      voice exactly when the names use the id "". */
  lemma {:induction false} SelectedVoiceAgrees(settings: Settings, files: seq<string>, displayName: string,
                                               processing: nat -> bool, synth: nat -> Request -> Synthesis,
                                               input: string)
    ensures var job := JobFor(settings, files, displayName, processing, synth);
      && job.namer(input) == OutputFilename(input, VoiceIdOf(displayName))
      && (job.voice.None? <==> VoiceIdOf(displayName) == "")
      && (job.voice.Some? ==> job.voice.value == VoiceIdOf(displayName))
  {
  }
}
