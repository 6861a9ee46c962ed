/** `split_long_text`: a text longer than the limit is cut after each
    sentence terminator, and the sentences are packed greedily, in order,
    into chunks of at most the limit; a sentence longer than the limit
    becomes a chunk of its own. */
module Chunker {
  import opened Common

  /** The sentence terminators: the ideographic full stop, the full-width
      exclamation and question marks, '.', '!', '?' and the newline. */
  predicate IsTerminator(c: char) {
    c == '\U{3002}' || c == '\U{FF01}' || c == '\U{FF1F}' || c == '.' || c == '!' || c == '?' || c == '\n'
  }

  /** The sentences of `rest`, the first one continuing the unfinished
      sentence `current`; an unfinished last sentence is kept if non-empty.
      Put back together they give `current` followed by `rest`. */
  function SentencesFrom(current: string, rest: string): (r: seq<string>)
    ensures Concat(r) == current + rest
    decreases |rest|
  {
    if rest == [] then (if current == [] then [] else [current])
    else
      var extended := current + [rest[0]];
      assert current + rest == extended + rest[1..];
      if IsTerminator(rest[0]) then
        var tail := SentencesFrom([], rest[1..]);
        assert ([extended] + tail)[1..] == tail;
        [extended] + tail
      else SentencesFrom(extended, rest[1..])
  }

  /** The sentences of a text: put back together they give the text, and it
      is cut exactly after its terminators. */
  function Sentences(text: string): (r: seq<string>)
    ensures Concat(r) == text
    ensures WellCut(r)
  {
    SentencesWellCut([], text);
    SentencesFrom([], text)
  }

  /** The chunks packed from `sentences`, the first one continuing the open
      chunk `current`: a sentence joins the open chunk while the two fit
      within `maxLength`, and otherwise starts a new chunk. Put back together
      the chunks give the open chunk followed by the sentences. */
  function Pack(current: string, sentences: seq<string>, maxLength: int): (r: seq<string>)
    ensures Concat(r) == current + Concat(sentences)
    decreases |sentences|
  {
    if sentences == [] then (if current == [] then [] else [current])
    else
      assert Concat(sentences) == sentences[0] + Concat(sentences[1..]);
      if |current| + |sentences[0]| <= maxLength then
        Pack(current + sentences[0], sentences[1..], maxLength)
      else
        var packed := Pack(sentences[0], sentences[1..], maxLength);
        var open := if current == [] then [] else [current];
        assert Concat(open + packed) == current + Concat(packed) by {
          if current == [] {
            assert open + packed == packed;
          } else {
            assert (open + packed)[1..] == packed;
          }
        }
        open + packed
  }

  /** The value `split_long_text(text, max_length)` returns: chunks that,
      concatenated in order, are the text; a text within the limit is its
      own single chunk. */
  function SplitText(text: string, maxLength: int): (chunks: seq<string>)
    ensures Concat(chunks) == text
    ensures |text| <= maxLength ==> chunks == [text]
  {
    if |text| <= maxLength then [text] else Pack([], Sentences(text), maxLength)
  }

  /** `split_long_text` as written: a text within the limit is returned
      whole; otherwise one loop collects the sentences and a second packs
      them into chunks. */
  method SplitLongText(text: string, maxLength: int) returns (chunks: seq<string>)
    ensures chunks == SplitText(text, maxLength)
  {
    if |text| <= maxLength {
      return [text];
    }
    var sentences := CollectSentences(text);
    chunks := PackSentences(sentences, maxLength);
  }

  /** The first loop of `split_long_text`: a sentence is closed after each
      terminator; an unfinished last sentence is kept if non-empty. */
  method CollectSentences(text: string) returns (sentences: seq<string>)
    ensures sentences == Sentences(text)
  {
    sentences := [];
    var currentSentence := "";
    for i := 0 to |text|
      invariant sentences + SentencesFrom(currentSentence, text[i..]) == Sentences(text)
    {
      var c := text[i];
      SentencesAdvance(text, i, sentences, currentSentence);
      currentSentence := currentSentence + [c];
      if IsTerminator(c) {
        sentences := sentences + [currentSentence];
        currentSentence := "";
      }
    }
    assert text[|text|..] == [];
    if currentSentence != "" {
      sentences := sentences + [currentSentence];
    }
  }

  /** The second loop of `split_long_text`: a sentence joins the open chunk
      while both fit within the limit, and otherwise closes it and opens the
      next one. */
  method PackSentences(sentences: seq<string>, maxLength: int) returns (chunks: seq<string>)
    ensures chunks == Pack([], sentences, maxLength)
  {
    chunks := [];
    var currentChunk := "";
    for j := 0 to |sentences|
      invariant chunks + Pack(currentChunk, sentences[j..], maxLength) == Pack([], sentences, maxLength)
    {
      chunks, currentChunk := PackNext(sentences, j, maxLength, chunks, currentChunk);
    }
    assert sentences[|sentences|..] == [];
    if currentChunk != "" {
      chunks := chunks + [currentChunk];
    }
    assert chunks == chunks + [];
  }

  /** The body of the packing loop for sentence j: the sentence joins the
      open chunk while both fit within the limit, and otherwise closes it and
      opens the next one. */
  method PackNext(sentences: seq<string>, j: nat, maxLength: int, chunks: seq<string>, currentChunk: string)
    returns (chunks': seq<string>, currentChunk': string)
    requires j < |sentences|
    ensures chunks' + Pack(currentChunk', sentences[j + 1..], maxLength)
      == chunks + Pack(currentChunk, sentences[j..], maxLength)
  {
    var sentence := sentences[j];
    PackAdvance(sentences, j, maxLength, chunks, currentChunk);
    chunks', currentChunk' := chunks, currentChunk;
    if |currentChunk| + |sentence| <= maxLength {
      currentChunk' := currentChunk + sentence;
    } else {
      if currentChunk != "" {
        chunks' := chunks + [currentChunk];
      }
      currentChunk' := sentence;
    }
  }

  /** The sentence loop's invariant survives reading character i. */
  lemma {:induction false} SentencesAdvance(text: string, i: nat, sentences: seq<string>, current: string)
    requires i < |text|
    ensures var extended := current + [text[i]];
      if IsTerminator(text[i]) then
        sentences + SentencesFrom(current, text[i..])
          == (sentences + [extended]) + SentencesFrom([], text[i + 1..])
      else
        sentences + SentencesFrom(current, text[i..])
          == sentences + SentencesFrom(extended, text[i + 1..])
  {
    assert text[i..][0] == text[i] && text[i..][1..] == text[i + 1..];
    var extended := current + [text[i]];
    if IsTerminator(text[i]) {
      var tail := SentencesFrom([], text[i + 1..]);
      assert sentences + ([extended] + tail) == (sentences + [extended]) + tail;
    }
  }

  /** The packing loop's invariant survives taking sentence j. */
  lemma {:induction false} PackAdvance(sentences: seq<string>, j: nat, maxLength: int, chunks: seq<string>, current: string)
    requires j < |sentences|
    ensures var sentence := sentences[j];
      var open := if current == [] then [] else [current];
      if |current| + |sentence| <= maxLength then
        chunks + Pack(current, sentences[j..], maxLength)
          == chunks + Pack(current + sentence, sentences[j + 1..], maxLength)
      else
        chunks + Pack(current, sentences[j..], maxLength)
          == (chunks + open) + Pack(sentence, sentences[j + 1..], maxLength)
  {
    assert sentences[j..][0] == sentences[j] && sentences[j..][1..] == sentences[j + 1..];
    var open := if current == [] then [] else [current];
    var rest := Pack(sentences[j], sentences[j + 1..], maxLength);
    assert chunks + (open + rest) == (chunks + open) + rest;
  }

  // ---------------------------------------------------------------------------
  // Properties
  // ---------------------------------------------------------------------------

  /** Each sentence is non-empty, holds no terminator before its last
      character, and ends with a terminator unless it is the last one. */
  predicate WellCut(sentences: seq<string>) {
    forall k :: 0 <= k < |sentences| ==>
      && sentences[k] != []
      && (forall j :: 0 <= j < |sentences[k]| - 1 ==> !IsTerminator(sentences[k][j]))
      && (k < |sentences| - 1 ==> IsTerminator(sentences[k][|sentences[k]| - 1]))
  }

  lemma {:induction false} SentencesWellCut(current: string, rest: string)
    requires forall j :: 0 <= j < |current| ==> !IsTerminator(current[j])
    ensures WellCut(SentencesFrom(current, rest))
    decreases |rest|
  {
    if rest != [] {
      var extended := current + [rest[0]];
      if IsTerminator(rest[0]) {
        SentencesWellCut([], rest[1..]);
        var tail := SentencesFrom([], rest[1..]);
        var all := [extended] + tail;
        forall k | 0 <= k < |all|
          ensures all[k] != []
          ensures forall j :: 0 <= j < |all[k]| - 1 ==> !IsTerminator(all[k][j])
          ensures k < |all| - 1 ==> IsTerminator(all[k][|all[k]| - 1])
        {
          if k > 0 {
            assert all[k] == tail[k - 1];
          }
        }
      } else {
        SentencesWellCut(extended, rest[1..]);
      }
    }
  }

  /** Packing non-empty sentences gives non-empty chunks, each within the
      limit or one of the sentences (or the open chunk it started from). */
  lemma {:induction false} PackBounds(current: string, sentences: seq<string>, maxLength: int, pool: seq<string>)
    requires current == [] || |current| <= maxLength || current in pool
    requires forall k :: 0 <= k < |sentences| ==> sentences[k] != [] && sentences[k] in pool
    ensures forall c :: c in Pack(current, sentences, maxLength) ==> c != [] && (|c| <= maxLength || c in pool)
    decreases |sentences|
  {
    if sentences != [] {
      var rest := sentences[1..];
      assert forall k :: 0 <= k < |rest| ==> rest[k] == sentences[k + 1];
      if |current| + |sentences[0]| <= maxLength {
        PackBounds(current + sentences[0], rest, maxLength, pool);
      } else {
        PackBounds(sentences[0], rest, maxLength, pool);
      }
    }
  }

  /** Chunk bounds: when the text is over the limit, every chunk is
      non-empty and either within the limit or a single sentence of the text. */
  lemma {:induction false} ChunkBounds(text: string, maxLength: int)
    requires |text| > maxLength
    ensures forall c :: c in SplitText(text, maxLength) ==>
      c != [] && (|c| <= maxLength || c in Sentences(text))
  {
    var sentences := Sentences(text);
    PackBounds([], sentences, maxLength, sentences);
  }
}
