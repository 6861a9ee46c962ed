# Batch text-to-speech converter: a Dafny model of its conversion core

The converter is a desktop tool that turns a list of text files into MP3 files with
a neural text-to-speech service. This project models the part of it that decides
what happens to the files, and proves properties of that model:

- **Naming** (`get_output_filename`). The output name is the input's base name without its
  last extension, then `_`, then a voice suffix, then `.mp3`. The suffix comes from a
  fixed table of voice ids. An id missing from the table is handled by a structural
  rule: with at least two hyphens it is the last hyphen piece minus a trailing
  "Neural"; with one hyphen it is the whole id; otherwise it is "Unknown".
- **Collision loop** in `convert_single_file`. A taken output path is replaced by
  `<base>_001.mp3`, `<base>_002.mp3` and so on. The loop stops at the first free name,
  or after producing `<base>_100.mp3`, which it never checks.
- **Reader** (`read_text_file`). It tries UTF-8, GBK, GB2312, UTF-16 and Latin-1 in that
  order and returns the first text that decodes. If none decodes, it falls back to
  decoding the raw bytes as UTF-8 with `errors='ignore'`: well-formed sequences give
  their characters, and every other byte is dropped, with nothing put in its place.
  Any other error gives no text.
- **Per-file conversion** (`convert_single_file`). It checks that the input exists,
  reads it, names it, resolves collisions, calls the service, then checks that the
  output exists. The result is `True` or `False`.
- **Batch loop** (`convert_thread`). Files run in list order, each on the disk the earlier
  ones left. The processing flag is checked before each file, and a cleared flag ends the
  batch. Successes and failures are counted.
- **Chunker** (`split_long_text`). A text over the limit is cut after each sentence
  terminator. The sentences are then packed greedily into chunks.
- **Catalogs**: the voice list (display name → voice id) and the suffix table.

The disk is a map from path to file state, so "exists" means "is a key". Paths follow
POSIX rules for `os.path.basename`, `os.path.splitext` and `os.path.join`. Three things
become parameters:

- The speech service is a function from a request to an outcome: whether it reports
  success, and what bytes it left at the output path.
- The text-mode decoders are a function from encoding and bytes to an attempt. The
  binary fallback's UTF-8 decode is defined in the model.
- The processing flag is a function of the file index. In the source only
  `finish_conversion` clears it (line 968), and that is called only after the loop
  (lines 778 and 782). So as written the `break` at lines 740-741 never fires, and
  every batch attempts all files: the last clause of Batch.Tally.

`read_text_file`, the collision loop, the batch loop and `split_long_text` are loops in
the source. Each is a `method` with loop invariants, proved equal to a recursive
function, and the properties are proved about that function. The one loop of
`convert_single_file` is the collision loop, which Collision.ResolveCollision models;
Pipeline.ConvertSingleFile calls it, together with the reader method, in the source's
order, and is proved equal to a function in the same way.

Two facts about the code that lemmas state:

- No list of names claimed earlier in the same run is kept. An earlier output protects
  its name only by being on disk (Collision.NextResolutionDiffers).
- A present but empty output file counts as a success (Pipeline.EmptyOutputCounts).

Modules:

- `Common`: options, bytes, file states and occurrence counting.
- `Paths`: `str.rfind`, `str.split`, `os.path.basename`, `os.path.splitext` and
  `os.path.join`.
- `Catalog` and `Naming`: the tables and `get_output_filename`.
- `Collision`, `Reader`, `Pipeline`, `Batch` and `Chunker`.

## Model

| member | source | states |
|---|---|---|
| Paths.Basename | ConvertTextToSpeech.py:410 | the base name holds no '/', ends the path, and is preceded by a '/' when shorter than the path |
| Paths.SplitExt | ConvertTextToSpeech.py:410 | stem + extension is the name; the extension is empty or a '.' followed by neither '.' nor '/' |
| Paths.Stem | ConvertTextToSpeech.py:410 | `splitext(basename(path))[0]` is a '/'-free prefix of the base name, and what follows it is empty or one '.' with no further '.' |
| Paths.SplitExtAtLastDot | ConvertTextToSpeech.py:832 | a '/'-free name with a non-dot before its last dot splits exactly at that dot |
| Paths.SplitExtCuts | ConvertTextToSpeech.py:410 | a '/'-free name whose last dot has a non-dot before it loses exactly the extension from that dot on |
| Paths.SplitExtWhole | ConvertTextToSpeech.py:410 | a '/'-free name with no such dot (no dot, or only leading dots before the last one) has an empty extension and keeps the whole name |
| Paths.StemCutsExtension | ConvertTextToSpeech.py:410 | when the base name has a last dot preceded by a non-dot, the stem is the base name up to that dot |
| Paths.StemWholeName | ConvertTextToSpeech.py:410 | when the base name has no such dot, the stem is the whole base name |
| Paths.Split | ConvertTextToSpeech.py:446 | `voice_id.split("-")` has one more piece than there are hyphens |
| Paths.SplitJoin | ConvertTextToSpeech.py:446 | joining the pieces with the separator gives back the id |
| Paths.SplitAfter | ConvertTextToSpeech.py:446 | a hyphen-free prefix followed by a hyphen is the first piece |
| Paths.SplitNone | ConvertTextToSpeech.py:446 | a hyphen-free id is a single piece |
| Paths.SplitConcat | ConvertTextToSpeech.py:446 | the pieces of a + "-" + b are the pieces of a followed by the pieces of b |
| Paths.SplitLastAfter | ConvertTextToSpeech.py:446-448 | the last piece of a split is the last piece of what follows any hyphen |
| Paths.LastPiece | ConvertTextToSpeech.py:446-448 | `parts[-1]` is the text after the last hyphen |
| Paths.JoinPath | ConvertTextToSpeech.py:827 | the result ends with the name; an absolute name is returned alone; otherwise the result starts with the directory and is exactly directory + name when the directory is empty or ends in '/', and directory + '/' + name otherwise |
| Paths.JoinPathBasename | ConvertTextToSpeech.py:827 | a '/'-free name joined to any directory is the base name of the result |
| Paths.JoinPathInjective | ConvertTextToSpeech.py:837 | joining one directory to two different relative names gives two different paths |
| Catalog.TableKeyShaped | ConvertTextToSpeech.py:417-438 | every key of the suffix table is "lang-region-<value>Neural" with hyphen-free parts |
| Naming.CatalogAgreesWithRule | ConvertTextToSpeech.py:66-94 | every voice id in the voice list is a key of the suffix table, and the table's value is what the structural rule derives |
| Naming.TableEntryAgrees | ConvertTextToSpeech.py:417-457 | on every key the suffix table holds exactly what the structural rule derives |
| Naming.VoiceIdOf | ConvertTextToSpeech.py:414 | the id is "" exactly for a display name outside the voice list; otherwise it is the listed id, a key of the suffix table |
| Naming.DropNeural | ConvertTextToSpeech.py:450-453 | the result is a prefix of the name; with a trailing "Neural" the result followed by "Neural" is the name, and without one it is the name |
| Naming.StructuralSuffix | ConvertTextToSpeech.py:444-457 | without a hyphen (the empty id included) "Unknown"; with one hyphen the whole id; with two or more the text after the last hyphen minus a trailing "Neural" |
| Naming.VoiceSuffix | ConvertTextToSpeech.py:441-457 | the suffix of any id, listed or not, is the one the structural rule derives |
| Naming.OutputFilename | ConvertTextToSpeech.py:407-462 | the name ends in ".mp3"; for a '/'-free id it has no '/' and `splitext` gives back stem + "_" + suffix and ".mp3", the base the numbered names use |
| Naming.StructuralSuffixNamed | ConvertTextToSpeech.py:445-453 | an id "<head>-<last>" with hyphen-free <last> and two or more hyphens gets <last> minus a trailing "Neural" |
| Naming.SplitThree | ConvertTextToSpeech.py:446 | three hyphen-free parts joined by hyphens split back into those three parts |
| Naming.NeuralVoice | ConvertTextToSpeech.py:446-453 | "lang-region-<name>Neural" gets the suffix <name> |
| Naming.UnknownDisplayName | ConvertTextToSpeech.py:414 | a display name outside the voice list gives the id "", whose suffix is "Unknown" |
| Naming.SuffixHasNoSlash | ConvertTextToSpeech.py:444-457 | the suffix of a '/'-free id is '/'-free |
| Naming.SuffixedNameShape | ConvertTextToSpeech.py:460 | stem + "_" + suffix + ".mp3" has no '/' and its extension is exactly ".mp3" |
| Collision.Pad3 | ConvertTextToSpeech.py:836 | `{counter:03d}` is three decimal digits that read back as the counter |
| Collision.Pad3Injective | ConvertTextToSpeech.py:836 | different counters give different padded strings |
| Collision.Candidate | ConvertTextToSpeech.py:827-837 | candidate 0 ends with the file name; candidate k ≥ 1 ends with "_", three digits reading back as k, and ".mp3" |
| Collision.FirstFree | ConvertTextToSpeech.py:834-840 | the loop stops at the first free candidate, or at the hundredth numbered name, which is never checked |
| Collision.Resolved | ConvertTextToSpeech.py:827-840 | the path chosen is one of the 101 candidates, and it is on disk only when all of them are |
| Collision.ResolveCollision | ConvertTextToSpeech.py:830-840 | the loop as written (counter, replacement, break after 100) ends at the path `Resolved` names |
| Collision.FirstFreeAt | ConvertTextToSpeech.py:834-840 | the loop stops at k when every earlier candidate is taken and k is free or the last |
| Collision.FreeNameKept | ConvertTextToSpeech.py:834 | a free output path is kept |
| Collision.FirstFreeNumberedName | ConvertTextToSpeech.py:834-837 | a taken path is replaced by the first free numbered name, every earlier one being taken |
| Collision.ExhaustedGivesLast | ConvertTextToSpeech.py:838-840 | when the original and the first 99 numbered names are taken, `<base>_100.mp3` is used whether or not it exists |
| Collision.ResolvedShape | ConvertTextToSpeech.py:830-840 | the result is the original path or `<base>_NNN.mp3` for some 1 ≤ NNN ≤ 100 |
| Collision.FirstFreeTaken | ConvertTextToSpeech.py:834-840 | the loop ends on a taken candidate only when every candidate is taken |
| Collision.FirstFreeAfterWrite | ConvertTextToSpeech.py:834-840 | once the chosen candidate is on disk, the next resolution moves past it, unless the last candidate was chosen |
| Collision.NumberedDistinct | ConvertTextToSpeech.py:836 | two different counters give two different numbered names |
| Collision.NumberedRelative | ConvertTextToSpeech.py:836 | a numbered name built from a '/'-free base is relative |
| Collision.NumberedIsNotOriginal | ConvertTextToSpeech.py:832-836 | a file name is never one of its own numbered names |
| Collision.CandidatesDistinct | ConvertTextToSpeech.py:827-837 | for a '/'-free name the 101 candidates are pairwise different |
| Collision.NextFreeDiffers | ConvertTextToSpeech.py:834-840 | over pairwise different candidates, writing the chosen one makes the next probe choose a different one, unless the first 100 were all taken |
| Collision.NextResolutionDiffers | ConvertTextToSpeech.py:830-840 | after a file is written at the resolved path, resolving the same name again gives a different path, unless the first 100 candidates were taken |
| Reader.DecodeOne | ConvertTextToSpeech.py:914 | a decoded character takes 1 to 4 bytes, and those bytes are exactly its UTF-8 encoding |
| Reader.Decoded2 | ConvertTextToSpeech.py:914 | a two-byte sequence denotes a code point in U+0080..U+07FF encoded as those bytes |
| Reader.Decoded3 | ConvertTextToSpeech.py:914 | a three-byte sequence denotes a non-surrogate code point in U+0800..U+FFFF encoded as those bytes |
| Reader.Decoded4 | ConvertTextToSpeech.py:914 | a four-byte sequence denotes a code point in U+10000..U+10FFFF encoded as those bytes |
| Reader.LossyUtf8 | ConvertTextToSpeech.py:914 | the decode never yields more characters than there are bytes |
| Reader.FirstAttempt | ConvertTextToSpeech.py:904-909 | the encodings are tried in order; the result is a decode error only when every attempt gave one; otherwise it is the first other result |
| Reader.StopsAtUnique | ConvertTextToSpeech.py:904-909 | only one attempt can be the first that is not a decode error |
| Reader.ReadText | ConvertTextToSpeech.py:898-918 | `None` exactly when the path is missing or unopenable, or an attempt ended in an error other than a decode error after all earlier attempts failed to decode |
| Reader.OtherErrorAt | ConvertTextToSpeech.py:904-909 | trying the encodings ends in another error exactly when some attempt does so after all earlier ones failed to decode |
| Reader.ReadTextFile | ConvertTextToSpeech.py:898-918 | the loop with its early returns yields the value `ReadText` defines |
| Reader.FirstDecodingWins | ConvertTextToSpeech.py:904-907 | the text of the first encoding that decodes is returned when every earlier encoding failed to decode |
| Reader.LossyFallback | ConvertTextToSpeech.py:911-914 | when no encoding decodes, the raw bytes decoded as UTF-8 with invalid bytes dropped are returned |
| Reader.LossyDecodesValid | ConvertTextToSpeech.py:914 | valid UTF-8 is decoded to exactly the text it encodes |
| Reader.DecodeEncodedChar | ConvertTextToSpeech.py:914 | the decoder reads the encoding of any character back as that character and its byte length |
| Reader.DecodeEncoded3 | ConvertTextToSpeech.py:914 | a three-byte encoding passes the lead's second-byte range and decodes to its character |
| Reader.DecodeEncoded4 | ConvertTextToSpeech.py:914 | a four-byte encoding passes the lead's second-byte range and decodes to its character |
| Reader.LossyDropsInvalid | ConvertTextToSpeech.py:914 | a continuation byte, 0xC0, 0xC1 or a byte above 0xF4 at the front is dropped, not replaced |
| Reader.UndecodableIff | ConvertTextToSpeech.py:914 | the decoder finds no sequence at the front exactly when no character's encoding is a prefix of the bytes |
| Reader.LossySkipsUndecodable | ConvertTextToSpeech.py:914 | any front byte at which no character's encoding begins is dropped, a lead byte with a missing or bad continuation included |
| Reader.LossyTruncatedLead | ConvertTextToSpeech.py:914 | a three-byte lead followed by 'A' decodes to "A": the lead is dropped and the 'A' kept |
| Reader.LossyAscii | ConvertTextToSpeech.py:914 | ASCII bytes come out as the same characters, one for one |
| Reader.FallbackNeedsLatin1Failure | ConvertTextToSpeech.py:902-914 | when the Latin-1 read does not end in a decode error, the binary fallback is not reached |
| Pipeline.SynthesisVoice | ConvertTextToSpeech.py:726 | the voice handed to the service is present exactly for a listed display name, and is its voice id |
| Pipeline.AfterWrite | ConvertTextToSpeech.py:794 | the bytes the service writes are stored as a file at the output path; when it writes nothing the disk is unchanged; every other path is unchanged |
| Pipeline.ConvertSingle | ConvertTextToSpeech.py:800-877 | no file is removed; the disk is unchanged when the input is missing or unreadable; a file reported converted has its output on disk |
| Pipeline.Deliver | ConvertTextToSpeech.py:852-874 | converted, under the output path, exactly when the service reports success and the path exists afterwards; a service failure is reported as such, in both directions; only the output path is added or replaced |
| Pipeline.ConvertSingleFile | ConvertTextToSpeech.py:800-877 | the steps as written (existence check, read, name, collision loop, service call, final existence check) give the outcome and disk `ConvertSingle` defines |
| Pipeline.SingleOutcomeCases | ConvertTextToSpeech.py:806-874 | failure for a missing input, for an unreadable input, and for a service failure, each an if-and-only-if; success exactly when the input reads, the service succeeds and the output path exists afterwards; the success names the resolved path |
| Pipeline.SingleTouchesOnlyOutput | ConvertTextToSpeech.py:800-877 | a conversion adds or replaces only the resolved path, and a success names that path |
| Pipeline.EmptyOutputCounts | ConvertTextToSpeech.py:864-870 | an empty output file counts as a success: the size is never checked |
| Pipeline.ExhaustedOverwrites | ConvertTextToSpeech.py:834-870 | when every candidate is taken, a reported success counts even if nothing was written, and the file at `<base>_100.mp3` is the one reported |
| Pipeline.ConvertedOutputName | ConvertTextToSpeech.py:826-870 | a converted file's output is dir/stem_suffix.mp3 or dir/stem_suffix_NNN.mp3 with 1 ≤ NNN ≤ 100 |
| Batch.Step | ConvertTextToSpeech.py:750-751 | converting one file removes no file, and a file reported converted has its output on disk |
| Batch.RunFrom | ConvertTextToSpeech.py:736-756 | the files from i on give one outcome for each file up to the stop index, and no file is removed |
| Batch.RunAll | ConvertTextToSpeech.py:736-756 | the batch gives one outcome per file before the stop index, at most one per file, and removes no file |
| Batch.StopIndex | ConvertTextToSpeech.py:739-741 | the index where the loop stops: the flag is set for every earlier file, and it is cleared here unless this is the end of the list |
| Batch.Successes | ConvertTextToSpeech.py:753-754 | the success count is at most the number of outcomes |
| Batch.Failures | ConvertTextToSpeech.py:755-756 | the failure count is at most the number of outcomes |
| Batch.CountsAppend | ConvertTextToSpeech.py:753-756 | one more outcome adds one to exactly the matching count |
| Batch.Advance | ConvertTextToSpeech.py:739-759 | the loop's invariant survives one file |
| Batch.ConvertNext | ConvertTextToSpeech.py:743-756 | one pass of the loop body converts file i, counts it, and keeps the loop's invariant |
| Batch.ConvertBatch | ConvertTextToSpeech.py:736-759 | the loop as written returns the success and failure counts of the run and the disk it leaves |
| Batch.BatchDone | ConvertTextToSpeech.py:736-741 | where the loop leaves off, its outcomes and disk are those of the whole batch |
| Batch.TallyAddsUp | ConvertTextToSpeech.py:753-756 | successes plus failures is the number of outcomes |
| Batch.Tally | ConvertTextToSpeech.py:736-759 | successes + failures = files attempted = the stop index ≤ the number of files, and all files are attempted when the flag stays set |
| Batch.InOrder | ConvertTextToSpeech.py:739-751 | outcome k is file k converted on the disk the earlier files left, with the service's answer for file k |
| Batch.SelectedVoiceAgrees | ConvertTextToSpeech.py:724-726 | for the selected display name, output names use the id `.get(name, "")` of line 414 gives, and the service gets no voice exactly when that id is "" and otherwise gets that id |
| Batch.ConvertedOutputsRemain | ConvertTextToSpeech.py:739-759 | every output reported as converted is on disk at the end of the batch |
| Chunker.SentencesFrom | ConvertTextToSpeech.py:929-939 | the sentences put back together are the unfinished sentence followed by the rest of the text |
| Chunker.Sentences | ConvertTextToSpeech.py:929-939 | the sentences put back together are the text, and they are cut exactly after the terminators |
| Chunker.Pack | ConvertTextToSpeech.py:941-951 | the chunks put back together are the open chunk followed by the sentences |
| Chunker.SplitText | ConvertTextToSpeech.py:920-953 | the chunks concatenated in order are the text, and a text within the limit is its own single chunk |
| Chunker.SplitLongText | ConvertTextToSpeech.py:920-953 | the function as written returns the chunks `SplitText` defines |
| Chunker.CollectSentences | ConvertTextToSpeech.py:929-939 | the sentence loop returns the text's sentences |
| Chunker.PackSentences | ConvertTextToSpeech.py:941-951 | the packing loop returns the greedy packing of the sentences |
| Chunker.PackNext | ConvertTextToSpeech.py:942-948 | one pass of the packing loop keeps its invariant |
| Chunker.SentencesAdvance | ConvertTextToSpeech.py:932-936 | the sentence loop's invariant survives one character |
| Chunker.PackAdvance | ConvertTextToSpeech.py:942-948 | the packing loop's invariant survives one sentence |
| Chunker.SentencesWellCut | ConvertTextToSpeech.py:932-939 | sentences are non-empty, hold no terminator before their last character, and end with one unless last |
| Chunker.PackBounds | ConvertTextToSpeech.py:941-951 | packing non-empty sentences gives non-empty chunks, each within the limit or one of the sentences |
| Chunker.ChunkBounds | ConvertTextToSpeech.py:941-951 | for a text over the limit every chunk is non-empty and either within the limit or one of the text's sentences |

## Left out

- The window, progress bar, status messages, message boxes and logging (log file and batch summary) are not modelled. They do not affect outcomes, except that logging can raise; see the exception handlers below.
- The speech service (edge-tts over asyncio, with speed and volume) is a parameter: one function per file index from request to outcome. Network, authentication and audio format are not modelled.
- `time.sleep(0.5)` between files, the worker thread and `finish_conversion` are not modelled. The processing flag is a function of the file index, standing for whatever the window thread set.
- The text-mode reads are parameters. Which byte strings UTF-8, GBK, GB2312, UTF-16 or Latin-1 accept in text mode, and the newline translation of text mode, are not modelled. Real Latin-1 accepts every byte string, so in the real program the binary fallback is never reached. Reader.FallbackNeedsLatin1Failure proves this from that one assumption about the read.
- The catch-all exception handlers of `convert_single_file` (returns `False`) and `convert_thread` (ends the batch) are not modelled: nothing in the model raises. An exception from `os.path.getsize` or from logging is such a case.
- The disk is a snapshot map. Another process changing files between the existence checks and the write is not modelled.
- `os.path` follows POSIX rules. Windows separators and drive letters are not modelled.
- The voice combobox is read once per batch (the namer). A selection changed mid-batch, which `get_output_filename` would see, is not modelled.
- The output directory is read once per batch (Settings.outputDir). `browse_output_dir` (lines 512-521) can change it while a batch runs, because only the convert button is disabled (line 716), and lines 827 and 837 read it again for each file. That change is not modelled.
- Pipeline.ConvertedOutputName: requires a '/'-free voice id. Every id in the voice list, and "", is one.
- Collision.CandidatesDistinct: requires a '/'-free file name. `get_output_filename` always produces one for such a voice id (Naming.OutputFilename).
- Collision.NextResolutionDiffers: requires a '/'-free file name, for the same reason.
- The warning in `convert_single_file` for texts over 10000 characters only logs, and is not modelled. `split_long_text` is never called there.
- The default `max_length=10000` of `split_long_text` is not a constant of the model; the limit is a parameter.
- The two other tables of the source (language suffixes, voice to language) are not read by the core, and are not modelled.
- Floating-point progress values and file sizes in megabytes are not modelled.
