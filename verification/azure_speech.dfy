/** The Azure text-to-speech provider: recognising mathematical text,
    building the SSML request, collecting word-boundary offsets and
    choosing the error to report. The secret store, the voice table read
    from disk and the SDK's synthesis call are parameters. */
module AzureSpeech {

  import opened Wrappers
  import opened Strings
  import opened TextNormalizer
  import opened VoiceoverModels

  /** The operators whose presence marks a text as mathematical. A bare
      minus or slash only counts with a space on each side. */
  const ArithmeticExpressions: seq<string> := ["+", " - ", "*", " / ", "\U{D7}", "\U{F7}"]

  /** `is_mathematical_text`: try each operator in turn. */
  function IsMathematicalFrom(text: string, expressions: seq<string>): bool
    decreases |expressions|
  {
    |expressions| > 0
    && (Contains(text, expressions[0]) || IsMathematicalFrom(text, expressions[1..]))
  }

  function IsMathematicalText(text: string): bool {
    IsMathematicalFrom(text, ArithmeticExpressions)
  }

  lemma {:induction false} IsMathematicalFromIff(text: string, expressions: seq<string>)
    ensures IsMathematicalFrom(text, expressions)
            <==> exists k :: 0 <= k < |expressions| && Contains(text, expressions[k])
    decreases |expressions|
  {
    if |expressions| > 0 {
      IsMathematicalFromIff(text, expressions[1..]);
      if k :| 1 <= k < |expressions| && Contains(text, expressions[k]) {
        assert expressions[1..][k - 1] == expressions[k];
      }
    }
  }

  /** A text is mathematical exactly when one of the operators occurs in
      it somewhere. */
  lemma IsMathematicalTextIff(text: string)
    ensures IsMathematicalText(text)
            <==> exists k, i :: 0 <= k < |ArithmeticExpressions|
                                && OccursAt(text, ArithmeticExpressions[k], i)
  {
    IsMathematicalFromIff(text, ArithmeticExpressions);
    if IsMathematicalText(text) {
      var k :| 0 <= k < |ArithmeticExpressions| && Contains(text, ArithmeticExpressions[k]);
      ContainsIff(text, ArithmeticExpressions[k]);
    }
    if k, i :| 0 <= k < |ArithmeticExpressions| && OccursAt(text, ArithmeticExpressions[k], i) {
      ContainsIff(text, ArithmeticExpressions[k]);
    }
  }

  /** A hyphen between digits is not taken for a minus sign. */
  lemma HyphenIsNotMath()
    ensures !IsMathematicalText("3-2")
  {
    var t := "3-2";
    forall k | 0 <= k < |ArithmeticExpressions| ensures !Contains(t, ArithmeticExpressions[k]) {
      var e := ArithmeticExpressions[k];
      if |e| == 1 {
        ContainsChar(t, e[0]);
        assert e == [e[0]];
      } else {
        SameLengthContains(t, e);
      }
    }
    IsMathematicalFromIff(t, ArithmeticExpressions);
  }

  /** A pattern as long as the text occurs in it only as the whole text. */
  lemma SameLengthContains(s: string, pat: string)
    requires |s| == |pat|
    ensures Contains(s, pat) <==> s == pat
  {
    assert s[..|pat|] == s;
  }

  /** A spaced minus is. */
  lemma SpacedMinusIsMath(a: string, b: string)
    ensures IsMathematicalText(a + " - " + b)
  {
    var t := a + " - " + b;
    assert OccursAt(t, ArithmeticExpressions[1], |a|) by {
      assert t[|a|..|a| + 3] == " - ";
    }
    IsMathematicalTextIff(t);
  }

  // ---------------------------------------------------------------------
  // SSML

  /** One block of the SSML body: read as mathematics or as prose. */
  datatype Block = MathBlock(text: string) | ProseBlock(text: string)

  /** The SSML request: language, voice and the body's blocks. */
  datatype Ssml = Ssml(lang: string, voice: string, blocks: seq<Block>)

  function ClassifySegment(segment: string): Block {
    if IsMathematicalText(segment) then MathBlock(segment) else ProseBlock(segment)
  }

  /** One block per delimiter-separated piece of the text, in order. */
  function BlocksOf(segments: seq<string>): (r: seq<Block>)
    ensures |r| == |segments|
  {
    if |segments| == 0 then [] else [ClassifySegment(segments[0])] + BlocksOf(segments[1..])
  }

  /** Every block carries its own segment and is a math block exactly when
      that segment is mathematical. */
  lemma {:induction false} BlocksOfSpec(segments: seq<string>)
    ensures forall i :: 0 <= i < |segments| ==>
              BlocksOf(segments)[i].text == segments[i]
              && (BlocksOf(segments)[i].MathBlock? <==> IsMathematicalText(segments[i]))
  {
    if |segments| > 0 {
      BlocksOfSpec(segments[1..]);
      assert forall i :: 1 <= i < |segments| ==> BlocksOf(segments)[i] == BlocksOf(segments[1..])[i - 1];
    }
  }

  /** The error `get_azure_voicecode_from_language_accent_code` raises for
      an accent the voice table lacks: the text of Python's KeyError, which
      is the key's repr; the two agree for accents without quotes or
      backslashes, which is every accent code the voice table uses. */
  function UnknownAccentError(accent: string): string {
    "'" + accent + "'"
  }

  /** `convert_plaintext_to_ssml_content`: the voice table (read from a
      JSON file in the source) is a parameter; an accent it lacks raises. */
  function ConvertPlaintextToSsml(plaintext: string, accent: string,
                                  voiceTable: map<string, string>): (r: Result<Ssml, string>)
    ensures r.Failure? <==> accent !in voiceTable
    ensures r.Failure? ==> r.error == UnknownAccentError(accent)
    ensures r.Success? ==> r.value.lang == accent && r.value.voice == voiceTable[accent]
                           && |r.value.blocks| == |Split(plaintext, Delimiter)|
  {
    if accent !in voiceTable then Failure(UnknownAccentError(accent))
    else Success(Ssml(accent, voiceTable[accent], BlocksOf(Split(plaintext, Delimiter))))
  }

  /** The text of a block, by the math and non-math block templates. */
  function RenderBlock(b: Block): string {
    match b
    case MathBlock(t) => "\n    <say-as interpret-as=\"math\">\n        " + t + "\n    </say-as>\n"
    case ProseBlock(t) => "\n    <p>\n        " + t + "\n    </p>\n"
  }

  function RenderBlocks(bs: seq<Block>): string {
    if |bs| == 0 then "" else RenderBlock(bs[0]) + RenderBlocks(bs[1..])
  }

  function SpeakOpen(lang: string, voice: string): string {
    "\n<speak version=\"1.0\" xmlns=\"http://www.w3.org/2001/10/synthesis\" xml:lang=\""
    + lang + "\">\n    <voice name=\"" + voice + "\">\n        "
  }

  const SpeakClose: string := "\n    </voice>\n</speak>\n"

  /** The SSML text sent to the service. */
  function Render(s: Ssml): string {
    SpeakOpen(s.lang, s.voice) + RenderBlocks(s.blocks) + SpeakClose
  }

  /** For normalised content whose segments do not contain the delimiter,
      the SSML has exactly one block per voiced segment, in order, each a
      math block exactly when its segment is mathematical. Content with no
      voiced segment still gives one empty prose block, because splitting
      the empty text gives one empty piece. */
  lemma SsmlBlockPerSegment(doc: seq<Node>, latexToText: string -> string, accent: string,
                            voiceTable: map<string, string>)
    requires accent in voiceTable
    requires forall i :: 0 <= i < |DocSegments(doc, latexToText)| ==>
               DelimiterFree(DocSegments(doc, latexToText)[i])
    ensures var r := ConvertPlaintextToSsml(ParseHtml(doc, latexToText), accent, voiceTable);
            var segs := DocSegments(doc, latexToText);
            r.Success?
            && (|segs| == 0 ==> r.value.blocks == [ProseBlock("")])
            && (|segs| > 0 ==>
                  |r.value.blocks| == |segs|
                  && forall i :: 0 <= i < |segs| ==>
                       r.value.blocks[i].text == segs[i]
                       && (r.value.blocks[i].MathBlock? <==> IsMathematicalText(segs[i])))
  {
    ParseHtmlSplits(doc, latexToText);
    BlocksOfSpec(DocSegments(doc, latexToText));
  }

  // ---------------------------------------------------------------------
  // Word boundaries

  /** A word-boundary event: the token and its audio offset in ticks of
      100 nanoseconds. */
  datatype WordBoundary = WordBoundary(text: string, audioOffset: int)

  /** `word_boundary_event`: append one record, the offset converted to
      milliseconds. */
  function WordBoundaryEvent(collected: seq<TimingToken>, event: WordBoundary): (r: seq<TimingToken>)
    ensures |r| == |collected| + 1 && r[..|collected|] == collected
    ensures r[|collected|].token == event.text
    ensures r[|collected|].audioOffsetMsecs * 10000.0 == event.audioOffset as real
  {
    collected + [TimingToken(event.text, event.audioOffset as real / 10000.0)]
  }

  /** The records collected from a run of events, handled in order. */
  function CollectOffsets(collected: seq<TimingToken>, events: seq<WordBoundary>): seq<TimingToken>
    decreases |events|
  {
    if |events| == 0 then collected
    else CollectOffsets(WordBoundaryEvent(collected, events[0]), events[1..])
  }

  /** Collecting keeps what was there and adds one record per event, in
      event order. */
  lemma {:induction false} CollectOffsetsSpec(collected: seq<TimingToken>, events: seq<WordBoundary>)
    ensures var r := CollectOffsets(collected, events);
            |r| == |collected| + |events| && r[..|collected|] == collected
            && forall i :: 0 <= i < |events| ==>
                 r[|collected| + i].token == events[i].text
                 && r[|collected| + i].audioOffsetMsecs * 10000.0 == events[i].audioOffset as real
    decreases |events|
  {
    if |events| > 0 {
      var next := WordBoundaryEvent(collected, events[0]);
      CollectOffsetsSpec(next, events[1..]);
      var r := CollectOffsets(collected, events);
      assert r == CollectOffsets(next, events[1..]);
      assert r[..|collected|] == next[..|next|][..|collected|];
      forall i | 0 <= i < |events|
        ensures r[|collected| + i].token == events[i].text
        ensures r[|collected| + i].audioOffsetMsecs * 10000.0 == events[i].audioOffset as real
      {
        if i == 0 {
          assert r[|collected|] == r[..|next|][|collected|];
        } else {
          assert r[|collected| + i] == r[|next| + (i - 1)];
          assert events[i] == events[1..][i - 1];
        }
      }
    }
  }

  /** Events that arrive in order of offset give records in order of
      offset. */
  lemma OffsetsFollowEvents(events: seq<WordBoundary>)
    requires forall i, j :: 0 <= i < j < |events| ==> events[i].audioOffset <= events[j].audioOffset
    ensures var r := CollectOffsets([], events);
            forall i, j :: 0 <= i < j < |r| ==> r[i].audioOffsetMsecs <= r[j].audioOffsetMsecs
  {
    CollectOffsetsSpec([], events);
    var r := CollectOffsets([], events);
    forall i, j | 0 <= i < j < |r| ensures r[i].audioOffsetMsecs <= r[j].audioOffsetMsecs {
      var x, y := r[i].audioOffsetMsecs, r[j].audioOffsetMsecs;
      assert x * 10000.0 == events[i].audioOffset as real;
      assert y * 10000.0 == events[j].audioOffset as real;
    }
  }

  // ---------------------------------------------------------------------
  // Synthesis

  datatype ResultReason = SynthesizingAudioCompleted | Canceled | OtherReason
  datatype CancellationReason = CancelledByError | EndOfStream | CancelledByUser

  /** What the SDK's `speak_ssml_async(...).get()` yields: the audio, the
      word-boundary events it fired, and why it stopped. */
  datatype SpeakResult = SpeakResult(
    audio: Bytes,
    events: seq<WordBoundary>,
    reason: ResultReason,
    cancellationReason: CancellationReason,
    errorDetails: string)

  const MissingKeyError: string := "Azure TTS API key is not available."

  /** The error reported with the audio: the provider's details, and only
      for a synthesis cancelled because of an error. */
  function ErrorOf(r: SpeakResult): Option<string> {
    if r.reason == Canceled && r.cancellationReason == CancelledByError then Some(r.errorDetails)
    else None
  }

  /** `regenerate_speech_from_text`: the secret, the voice table and the
      SDK call (given the key and the SSML text) are parameters. */
  function RegenerateSpeechFromText(plaintext: string, accent: string, apiKey: Option<string>,
                                    voiceTable: map<string, string>,
                                    speak: (string, string) -> SpeakResult): Synthesis
  {
    if apiKey.None? then Raised(MissingKeyError)
    else
      match ConvertPlaintextToSsml(plaintext, accent, voiceTable)
      case Failure(e) => Raised(e)
      case Success(ssml) =>
        var r := speak(apiKey.value, Render(ssml));
        Returned(r.audio, CollectOffsets([], r.events), ErrorOf(r))
  }

  /** Without a key the request raises before any synthesis: the SDK call
      plays no part. */
  lemma MissingKeyRaises(plaintext: string, accent: string, voiceTable: map<string, string>,
                         speak1: (string, string) -> SpeakResult,
                         speak2: (string, string) -> SpeakResult)
    ensures RegenerateSpeechFromText(plaintext, accent, None, voiceTable, speak1)
            == RegenerateSpeechFromText(plaintext, accent, None, voiceTable, speak2)
            == Raised(MissingKeyError)
  {
  }

  /** With a key and a known accent the request returns the audio, one
      record per word-boundary event in event order, and an error exactly
      when synthesis was cancelled by an error, carrying its details. */
  lemma RegenerateReturns(plaintext: string, accent: string, key: string,
                          voiceTable: map<string, string>, speak: (string, string) -> SpeakResult)
    requires accent in voiceTable
    ensures var ssml := Ssml(accent, voiceTable[accent], BlocksOf(Split(plaintext, Delimiter)));
            var r := speak(key, Render(ssml));
            var s := RegenerateSpeechFromText(plaintext, accent, Some(key), voiceTable, speak);
            s.Returned? && s.audio == r.audio && |s.offsets| == |r.events|
            && (forall i :: 0 <= i < |r.events| ==>
                  s.offsets[i].token == r.events[i].text
                  && s.offsets[i].audioOffsetMsecs * 10000.0 == r.events[i].audioOffset as real)
            && (s.error.Some? <==> r.reason == Canceled && r.cancellationReason == CancelledByError)
            && (s.error.Some? ==> s.error.value == r.errorDetails)
  {
    var r := speak(key, Render(Ssml(accent, voiceTable[accent], BlocksOf(Split(plaintext, Delimiter)))));
    CollectOffsetsSpec([], r.events);
  }

  /** An accent missing from the voice table raises the lookup's KeyError. */
  lemma UnknownAccentRaises(plaintext: string, accent: string, key: string,
                            voiceTable: map<string, string>, speak: (string, string) -> SpeakResult)
    requires accent !in voiceTable
    ensures RegenerateSpeechFromText(plaintext, accent, Some(key), voiceTable, speak)
            == Raised(UnknownAccentError(accent))
  {
  }
}
