/** `convert_single_file`: the input file is checked, read, named, given a
    free output path and handed to the speech service, and the output path
    is checked afterwards. */
module Pipeline {
  import opened Common
  import opened Paths
  import opened Catalog
  import opened Naming
  import opened Collision
  import opened Reader

  /** Why a file was not converted. */
  datatype Failure = InputMissing | ReadFailed | SynthesisFailed | OutputMissing

  /** The per-file result: `True` with the output path, or `False` and why. */
  datatype Outcome = Converted(output: string) | Failed(reason: Failure)

  /** What the speech service is asked for: the text, the output path and
      the voice (absent when the display name is not in the catalog). */
  datatype Request = Request(text: string, output: string, voice: Option<string>)

  /** What the speech service does with a request: whether it reports
      success, and the bytes it leaves at the output path, if any. */
  datatype Synthesis = Synthesis(succeeded: bool, written: Option<seq<byte>>)

  /** `voice_options.get(display_name)`: the voice handed to the service. */
  function SynthesisVoice(displayName: string): (v: Option<string>)
    ensures v.Some? <==> displayName in VoiceOptions()
    ensures v.Some? ==> v.value == VoiceIdOf(displayName)
  {
    if displayName in VoiceOptions() then Some(VoiceOptions()[displayName]) else None
  }

  /** `fs'` is `fs` with at most `path` added or replaced: nothing is
      removed and every other path keeps its state. */
  predicate ChangesAtMost(fs: FileSystem, fs': FileSystem, path: string) {
    && fs.Keys <= fs'.Keys <= fs.Keys + {path}
    && forall p :: p in fs && p != path ==> fs'[p] == fs[p]
  }

  /** The disk after the service left `written` at `path`. */
  function AfterWrite(fs: FileSystem, path: string, written: Option<seq<byte>>): (fs': FileSystem)
    ensures fs'.Keys == if written.Some? then fs.Keys + {path} else fs.Keys
    ensures ChangesAtMost(fs, fs', path)
    ensures written.Some? ==> fs'[path] == Regular(written.value)
    ensures written.None? ==> fs' == fs
  {
    if written.Some? then fs[path := Regular(written.value)] else fs
  }

  /** `get_output_filename` for the voice selected under `displayName`. */
  function Namer(displayName: string): string -> string {
    f => OutputFilename(f, VoiceIdOf(displayName))
  }

  /** The converter's settings that `convert_single_file` reads: the output
      directory and the decoders of the reader. */
  datatype Settings = Settings(outputDir: string, codecs: Codecs)

  /** `convert_single_file(input, voice)`, given the name
      `get_output_filename(input)` produced: the outcome and the disk after it.
      No file is removed, the disk is unchanged unless the file was read,
      and a file reported converted has its output on disk. */
  function ConvertSingle(fs: FileSystem, settings: Settings, outputFilename: string,
                         voice: Option<string>, input: string, synth: Request -> Synthesis): (r: (Outcome, FileSystem))
    ensures fs.Keys <= r.1.Keys
    ensures r.0.Converted? ==> r.0.output in r.1
    ensures r.0 == Failed(InputMissing) || r.0 == Failed(ReadFailed) ==> r.1 == fs
  {
    if input !in fs then (Failed(InputMissing), fs)
    else
      match ReadText(fs, input, settings.codecs)
      case None => (Failed(ReadFailed), fs)
      case Some(text) =>
        Deliver(fs, Resolved(fs.Keys, settings.outputDir, outputFilename), text, voice, synth)
  }

  /** The last steps of `convert_single_file`, once the text is read and the
      output path chosen: the service call and the final existence check. The
      file counts as converted, under its output path, exactly when the
      service reports success and the path exists afterwards; at most the
      output path is added or replaced on disk. */
  function Deliver(fs: FileSystem, path: string, text: string, voice: Option<string>,
                   synth: Request -> Synthesis): (r: (Outcome, FileSystem))
    ensures r.0.Converted? <==> synth(Request(text, path, voice)).succeeded && path in r.1
    ensures r.0.Converted? ==> r.0.output == path
    ensures !synth(Request(text, path, voice)).succeeded <==> r.0 == Failed(SynthesisFailed)
    ensures ChangesAtMost(fs, r.1, path)
  {
    var result := synth(Request(text, path, voice));
    var fs' := AfterWrite(fs, path, result.written);
    if !result.succeeded then (Failed(SynthesisFailed), fs')
    else if path in fs' then (Converted(path), fs')
    else (Failed(OutputMissing), fs')
  }

  /** `convert_single_file` as written: the existence check, the reader loop,
      `get_output_filename` (passed in as `namer`, since it reads the voice
      selected in the window), the collision loop, the service call and the
      final existence check. */
  method ConvertSingleFile(fs: FileSystem, settings: Settings, namer: string -> string,
                           voice: Option<string>, input: string, synth: Request -> Synthesis)
    returns (outcome: Outcome, fs': FileSystem)
    ensures (outcome, fs') == ConvertSingle(fs, settings, namer(input), voice, input, synth)
  {
    fs' := fs;
    if input !in fs {
      return Failed(InputMissing), fs';
    }
    var text := ReadTextFile(fs, input, settings.codecs);
    if text.None? {
      return Failed(ReadFailed), fs';
    }
    var outputFilename := namer(input);
    var outputFile := ResolveCollision(fs.Keys, settings.outputDir, outputFilename);
    var result := synth(Request(text.value, outputFile, voice));
    fs' := AfterWrite(fs, outputFile, result.written);
    if !result.succeeded {
      return Failed(SynthesisFailed), fs';
    }
    if outputFile in fs' {
      outcome := Converted(outputFile);
    } else {
      outcome := Failed(OutputMissing);
    }
  }

  // ---------------------------------------------------------------------------
  // Per-file properties
  // ---------------------------------------------------------------------------

  /** The file is reported converted exactly when it exists, reads, the
      service reports success and the output path exists afterwards; the size
      of what is there is never looked at. Each failure has its own reason. */
  lemma {:induction false} SingleOutcomeCases(fs: FileSystem, settings: Settings, outputFilename: string,
                           voice: Option<string>, input: string, synth: Request -> Synthesis)
    ensures var (outcome, fs') := ConvertSingle(fs, settings, outputFilename, voice, input, synth);
      var text := ReadText(fs, input, settings.codecs);
      var path := Resolved(fs.Keys, settings.outputDir, outputFilename);
      && (outcome == Failed(InputMissing) <==> input !in fs)
      && (outcome == Failed(ReadFailed) <==> input in fs && text.None?)
      && (outcome.Converted? <==>
            input in fs && text.Some? && synth(Request(text.value, path, voice)).succeeded && path in fs')
      && (outcome.Converted? ==> outcome.output == path)
      && (outcome == Failed(SynthesisFailed) <==>
            input in fs && text.Some? && !synth(Request(text.value, path, voice)).succeeded)
      && (outcome == Failed(OutputMissing) ==> path !in fs')
  {
  }

  /** At most the resolved output path is added or replaced on disk, and a
      file reported converted names that path. */
  lemma {:induction false} SingleTouchesOnlyOutput(fs: FileSystem, settings: Settings, outputFilename: string,
                                voice: Option<string>, input: string, synth: Request -> Synthesis)
    ensures var (outcome, fs') := ConvertSingle(fs, settings, outputFilename, voice, input, synth);
      var path := Resolved(fs.Keys, settings.outputDir, outputFilename);
      && ChangesAtMost(fs, fs', path)
      && (outcome.Converted? ==> outcome.output == path)
  {
    if input in fs && ReadText(fs, input, settings.codecs).Some? {
      var path := Resolved(fs.Keys, settings.outputDir, outputFilename);
      var text := ReadText(fs, input, settings.codecs).value;
      assert ConvertSingle(fs, settings, outputFilename, voice, input, synth) == Deliver(fs, path, text, voice, synth);
    }
  }

  /** An empty output file still counts as converted. */
  lemma {:induction false} EmptyOutputCounts(fs: FileSystem, settings: Settings, outputFilename: string,
                          voice: Option<string>, input: string, synth: Request -> Synthesis)
    requires input in fs && ReadText(fs, input, settings.codecs).Some?
    requires var path := Resolved(fs.Keys, settings.outputDir, outputFilename);
      synth(Request(ReadText(fs, input, settings.codecs).value, path, voice)) == Synthesis(true, Some([]))
    ensures var (outcome, fs') := ConvertSingle(fs, settings, outputFilename, voice, input, synth);
      var path := Resolved(fs.Keys, settings.outputDir, outputFilename);
      outcome == Converted(path) && fs'[path] == Regular([])
  {
  }

  /** When every candidate name is taken, a reported success counts even if
      nothing was written: the existence check is met by the file that was
      already at the hundredth numbered name, and whatever the service writes
      replaces that file. */
  lemma {:induction false} ExhaustedOverwrites(fs: FileSystem, settings: Settings, outputFilename: string,
                            voice: Option<string>, input: string, synth: Request -> Synthesis)
    requires input in fs && ReadText(fs, input, settings.codecs).Some?
    requires forall j :: 0 <= j < MaxProbe ==> Candidates(settings.outputDir, outputFilename)[j] in fs
    requires Candidates(settings.outputDir, outputFilename)[MaxProbe] in fs
    requires var path := Candidates(settings.outputDir, outputFilename)[MaxProbe];
      synth(Request(ReadText(fs, input, settings.codecs).value, path, voice)).succeeded
    ensures var path := Candidates(settings.outputDir, outputFilename)[MaxProbe];
      ConvertSingle(fs, settings, outputFilename, voice, input, synth).0 == Converted(path)
  {
    ExhaustedGivesLast(fs.Keys, settings.outputDir, outputFilename);
  }

  /** A converted file's output path is the output directory joined with the
      input's stem, "_", the voice suffix and either ".mp3" or "_<NNN>.mp3". */
  lemma {:induction false} ConvertedOutputName(fs: FileSystem, settings: Settings, voiceId: string,
                            voice: Option<string>, input: string, synth: Request -> Synthesis)
    requires NoChar(voiceId, '/')
    requires ConvertSingle(fs, settings, OutputFilename(input, voiceId), voice, input, synth).0.Converted?
    ensures var root := Stem(input) + "_" + VoiceSuffix(voiceId);
      var output := ConvertSingle(fs, settings, OutputFilename(input, voiceId), voice, input, synth).0.output;
      || output == JoinPath(settings.outputDir, root + ".mp3")
      || exists k :: 1 <= k <= MaxProbe && output == JoinPath(settings.outputDir, root + "_" + Pad3(k) + ".mp3")
  {
    var name := OutputFilename(input, voiceId);
    SingleOutcomeCases(fs, settings, name, voice, input, synth);
    ResolvedShape(fs.Keys, settings.outputDir, name);
  }
}
