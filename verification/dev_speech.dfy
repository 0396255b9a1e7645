/** The development stand-in for the speech provider: a sample recording
    chosen by language, fixed word offsets and never an error. Deriving
    the language from the accent and reading the sample file are
    parameters. */
module DevSpeech {

  import opened Wrappers
  import opened TextNormalizer
  import opened VoiceoverModels
  import opened VoiceoverRegeneration

  /** The sample recording for each language that has one. */
  const LanguageCodeToVoiceoverFilenames: map<string, string> :=
    map["ar" := "arabic.mp3", "en" := "english.mp3", "hi" := "hindi.mp3", "pt" := "portueguese.mp3"]

  const DefaultLanguageCode: string := "en"

  /** The offsets returned for every request. */
  const DummyOffsets: seq<TimingToken> := [
    TimingToken("This", 0.0), TimingToken("is", 100.0), TimingToken("a", 200.0),
    TimingToken("test", 300.0), TimingToken("text", 400.0)]

  /** The sample file used for a language: its own if it has one, the
      English one otherwise. */
  function SampleFilename(languageCode: Option<string>): (f: string)
    ensures languageCode.Some? && languageCode.value in LanguageCodeToVoiceoverFilenames ==>
              f == LanguageCodeToVoiceoverFilenames[languageCode.value]
    ensures !(languageCode.Some? && languageCode.value in LanguageCodeToVoiceoverFilenames) ==>
              f == "english.mp3"
  {
    var code := if languageCode.Some? && languageCode.value in LanguageCodeToVoiceoverFilenames
                then languageCode.value else DefaultLanguageCode;
    LanguageCodeToVoiceoverFilenames[code]
  }

  /** `regenerate_speech_from_text` in development mode. The text is not
      looked at. */
  function DevRegenerateSpeechFromText(plaintext: string, accent: string,
                                       languageOf: string -> Option<string>,
                                       readFile: string -> Bytes): Synthesis
  {
    Returned(readFile(SampleFilename(languageOf(accent))), DummyOffsets, None)
  }

  /** The stand-in always returns, with no error and the five fixed
      tokens `This`, `is`, `a`, `test`, `text` at 0, 100, 200, 300 and
      400 milliseconds, whose offsets strictly increase; the text makes no
      difference. */
  lemma DevSynthesisSpec(plaintext1: string, plaintext2: string, accent: string,
                         languageOf: string -> Option<string>, readFile: string -> Bytes)
    ensures var s := DevRegenerateSpeechFromText(plaintext1, accent, languageOf, readFile);
            s.Returned? && s.error.None? && |s.offsets| == 5
            && s.offsets[0].token == "This" && s.offsets[4].token == "text"
            && s.offsets == [TimingToken("This", 0.0), TimingToken("is", 100.0), TimingToken("a", 200.0),
                             TimingToken("test", 300.0), TimingToken("text", 400.0)]
            && (forall i, j :: 0 <= i < j < |s.offsets| ==>
                  s.offsets[i].audioOffsetMsecs < s.offsets[j].audioOffsetMsecs)
            && s == DevRegenerateSpeechFromText(plaintext2, accent, languageOf, readFile)
  {
  }

  /** Each of Arabic, English, Hindi and Portuguese reads its own sample;
      any other language, or none, reads the English one. */
  lemma DevSampleSelection(plaintext: string, accent: string,
                           languageOf: string -> Option<string>, readFile: string -> Bytes)
    ensures var s := DevRegenerateSpeechFromText(plaintext, accent, languageOf, readFile);
            var code := languageOf(accent);
            s.audio == readFile(
              if code == Some("ar") then "arabic.mp3"
              else if code == Some("hi") then "hindi.mp3"
              else if code == Some("pt") then "portueguese.mp3"
              else "english.mp3")
  {
    var code := languageOf(accent);
    if code.Some? && code.value !in LanguageCodeToVoiceoverFilenames {
      assert code.value != "ar" && code.value != "hi" && code.value != "pt";
    }
  }

  /** With the stand-in as provider, a request that misses the cache
      always succeeds, returns the fixed offsets and records them. */
  lemma DevRequestSucceeds(st: State, doc: seq<Node>, accent: string, filename: string,
                           hash: string -> string, latexToText: string -> string,
                           languageOf: string -> Option<string>, readFile: string -> Bytes)
    requires GetCached(st.cache, hash(ParseHtml(doc, latexToText)), accent, AutomaticVoiceoverProvider).None?
    ensures var o := SynthesizeVoiceover(st, doc, accent, filename, hash, latexToText,
                                         (text, acc) => DevRegenerateSpeechFromText(text, acc, languageOf, readFile));
            o.result == Success(DummyOffsets)
            && CacheId(accent, hash(ParseHtml(doc, latexToText)), AutomaticVoiceoverProvider) in o.state.cache
  {
  }
}
