/** `synthesize_voiceover_for_html_string`: one regeneration request as a
    transition of the voiceover cache and the exploration's file store.
    The speech provider, the hash function and the LaTeX renderer are
    parameters; the decoded MP3 check is taken to accept the audio. */
module VoiceoverRegeneration {

  import opened Wrappers
  import opened TextNormalizer
  import opened VoiceoverModels

  /** The two stores the request reads and writes: the cache table and the
      exploration's files, by path. */
  datatype State = State(cache: map<string, CacheEntry>, blobs: map<string, Bytes>)

  /** The request's effect: the stores afterwards and either the returned
      offsets or the message of the exception raised. */
  datatype Outcome = Outcome(state: State, result: Result<seq<TimingToken>, string>)

  /** Where a voiceover file is kept in the exploration's file store. */
  function AudioPath(filename: string): string {
    "audio/" + filename
  }

  /** Raised when a provider exception with an empty message lets the
      request go on to use audio it never received. The wording is that of
      CPython 3.10 and earlier; 3.11 and later say "cannot access local
      variable 'binary_audio_data' where it is not associated with a
      value". */
  const UnboundAudioError: string :=
    "local variable 'binary_audio_data' referenced before assignment"

  /** Raised when the cached entry's file is missing from the store. */
  const MissingFileError: string := "File not found"

  /** The cache entry whose voiceover can be reused for `parsed`: the one
      under the fingerprint's id, and only when it holds the same text. */
  predicate IsHit(st: State, parsed: string, accent: string, hash: string -> string) {
    var cached := GetCached(st.cache, hash(parsed), accent, AutomaticVoiceoverProvider);
    cached.Some? && cached.value.plaintext == parsed
  }

  /** Python truthiness of the provider's error value. */
  predicate IsError(error: Option<string>) {
    error.Some? && |error.value| > 0
  }

  /** The audio bytes and offsets a request goes on with, or the message it
      raises before writing anything. */
  function Obtain(st: State, cached: Option<CacheEntry>, parsed: string, accent: string,
                  synthesize: (string, string) -> Synthesis): Result<(Bytes, seq<TimingToken>), string>
  {
    if cached.Some? && cached.value.plaintext == parsed then
      var path := AudioPath(cached.value.voiceoverFilename);
      if path in st.blobs then Success((st.blobs[path], cached.value.audioOffsetList))
      else Failure(MissingFileError)
    else
      match synthesize(parsed, accent)
      case Raised(m) => if |m| > 0 then Failure(m) else Failure(UnboundAudioError)
      case Returned(audio, offsets, error) =>
        if IsError(error) then Failure(error.value) else Success((audio, offsets))
  }

  /** The cache after a successful request: a new entry when none was
      found; on a fingerprint collision the entry takes the new text, file
      and offsets only if the new text is strictly shorter. */
  function UpdateCache(cache: map<string, CacheEntry>, cached: Option<CacheEntry>, parsed: string,
                       accent: string, filename: string, offsets: seq<TimingToken>,
                       hash: string -> string): map<string, CacheEntry>
  {
    match cached
    case None => Put(cache, CreateCacheModel(hash, accent, parsed, filename, offsets))
    case Some(e) =>
      if e.plaintext != parsed && |parsed| < |e.plaintext| then
        Put(cache, e.(plaintext := parsed, voiceoverFilename := filename,
                      audioOffsetList := offsets))
      else cache
  }

  /** One request: normalise the content, look the fingerprint up, reuse or
      synthesize, then commit the audio under the target file and update
      the cache. */
  function SynthesizeVoiceover(st: State, doc: seq<Node>, accent: string, filename: string,
                               hash: string -> string, latexToText: string -> string,
                               synthesize: (string, string) -> Synthesis): Outcome
  {
    var parsed := ParseHtml(doc, latexToText);
    var cached := GetCached(st.cache, hash(parsed), accent, AutomaticVoiceoverProvider);
    match Obtain(st, cached, parsed, accent, synthesize)
    case Failure(m) => Outcome(st, Failure(m))
    case Success((audio, offsets)) =>
      Outcome(State(UpdateCache(st.cache, cached, parsed, accent, filename, offsets, hash),
                    st.blobs[AudioPath(filename) := audio]),
              Success(offsets))
  }

  /** A cache hit never consults the provider: any two providers give the
      same outcome. It returns the entry's offsets, copies the entry's file
      to the target file and leaves the cache as it was. */
  lemma HitSkipsSynthesis(st: State, doc: seq<Node>, accent: string, filename: string,
                          hash: string -> string, latexToText: string -> string,
                          synth1: (string, string) -> Synthesis,
                          synth2: (string, string) -> Synthesis)
    requires IsHit(st, ParseHtml(doc, latexToText), accent, hash)
    ensures SynthesizeVoiceover(st, doc, accent, filename, hash, latexToText, synth1)
            == SynthesizeVoiceover(st, doc, accent, filename, hash, latexToText, synth2)
    ensures var parsed := ParseHtml(doc, latexToText);
            var e := GetCached(st.cache, hash(parsed), accent, AutomaticVoiceoverProvider).value;
            var o := SynthesizeVoiceover(st, doc, accent, filename, hash, latexToText, synth1);
            o.state.cache == st.cache
            && (AudioPath(e.voiceoverFilename) in st.blobs ==>
                  o.result == Success(e.audioOffsetList)
                  && o.state.blobs == st.blobs[AudioPath(filename) := st.blobs[AudioPath(e.voiceoverFilename)]])
  {
  }

  /** A hit whose file is missing from the store fails with nothing
      written, and the provider is not asked again. The cache is shared by
      every exploration while each exploration has its own file store, so
      this is what a hit on a file committed under another exploration
      does. */
  lemma HitWithoutFileFails(st: State, doc: seq<Node>, accent: string, filename: string,
                            hash: string -> string, latexToText: string -> string,
                            synthesize: (string, string) -> Synthesis)
    requires IsHit(st, ParseHtml(doc, latexToText), accent, hash)
    requires var parsed := ParseHtml(doc, latexToText);
             AudioPath(GetCached(st.cache, hash(parsed), accent, AutomaticVoiceoverProvider).value.voiceoverFilename)
               !in st.blobs
    ensures SynthesizeVoiceover(st, doc, accent, filename, hash, latexToText, synthesize)
            == Outcome(st, Failure(MissingFileError))
  {
  }

  /** A matching fingerprint alone is not trusted: when the entry under it
      holds other text, the provider's answer decides the outcome. */
  lemma MismatchSynthesizes(st: State, doc: seq<Node>, accent: string, filename: string,
                            hash: string -> string, latexToText: string -> string,
                            synthesize: (string, string) -> Synthesis)
    requires !IsHit(st, ParseHtml(doc, latexToText), accent, hash)
    ensures var parsed := ParseHtml(doc, latexToText);
            var o := SynthesizeVoiceover(st, doc, accent, filename, hash, latexToText, synthesize);
            match synthesize(parsed, accent)
            case Raised(m) => o.result.Failure? && (|m| > 0 ==> o.result.error == m)
            case Returned(audio, offsets, error) =>
              if IsError(error) then o.result == Failure(error.value)
              else o.result == Success(offsets) && o.state.blobs == st.blobs[AudioPath(filename) := audio]
  {
  }

  /** A failing request writes nothing: both stores are as they were. */
  lemma FailureLeavesNoResidue(st: State, doc: seq<Node>, accent: string, filename: string,
                               hash: string -> string, latexToText: string -> string,
                               synthesize: (string, string) -> Synthesis)
    ensures var o := SynthesizeVoiceover(st, doc, accent, filename, hash, latexToText, synthesize);
            o.result.Failure? ==> o.state == st
  {
  }

  /** A successful request always commits its audio under the target file,
      even when a lost collision leaves the cache entry alone, and touches
      no other file. */
  lemma SuccessCommitsAudio(st: State, doc: seq<Node>, accent: string, filename: string,
                            hash: string -> string, latexToText: string -> string,
                            synthesize: (string, string) -> Synthesis)
    ensures var o := SynthesizeVoiceover(st, doc, accent, filename, hash, latexToText, synthesize);
            o.result.Success? ==>
              AudioPath(filename) in o.state.blobs
              && o.state.blobs.Keys == st.blobs.Keys + {AudioPath(filename)}
              && (forall p :: p in st.blobs && p != AudioPath(filename) ==> o.state.blobs[p] == st.blobs[p])
  {
  }

  /** With no entry under the fingerprint, success creates one keyed by
      (accent, hash of the parsed text, provider) that records the parsed
      text, the target file and the returned offsets; nothing else in the
      cache changes. */
  lemma MissCreatesEntry(st: State, doc: seq<Node>, accent: string, filename: string,
                         hash: string -> string, latexToText: string -> string,
                         synthesize: (string, string) -> Synthesis)
    requires GetCached(st.cache, hash(ParseHtml(doc, latexToText)), accent, AutomaticVoiceoverProvider).None?
    ensures var parsed := ParseHtml(doc, latexToText);
            var id := CacheId(accent, hash(parsed), AutomaticVoiceoverProvider);
            var o := SynthesizeVoiceover(st, doc, accent, filename, hash, latexToText, synthesize);
            o.result.Success? ==>
              id !in st.cache && id in o.state.cache
              && o.state.cache[id].plaintext == parsed
              && o.state.cache[id].voiceoverFilename == filename
              && o.state.cache[id].audioOffsetList == o.result.value
              && o.state.cache[id].languageAccentCode == accent
              && o.state.cache[id].hashCode == hash(parsed)
              && o.state.cache[id].provider == AutomaticVoiceoverProvider
              && o.state.cache.Keys == st.cache.Keys + {id}
              && (forall k :: k in st.cache ==> o.state.cache[k] == st.cache[k])
  {
  }

  /** On a fingerprint collision the entry's text, file and offsets are all
      replaced exactly when the new text is strictly shorter; otherwise the
      cache is left as it was. */
  lemma CollisionFavoursShorter(st: State, doc: seq<Node>, accent: string, filename: string,
                                hash: string -> string, latexToText: string -> string,
                                synthesize: (string, string) -> Synthesis)
    requires Keyed(st.cache)
    requires var parsed := ParseHtml(doc, latexToText);
             var cached := GetCached(st.cache, hash(parsed), accent, AutomaticVoiceoverProvider);
             cached.Some? && cached.value.plaintext != parsed
    ensures var parsed := ParseHtml(doc, latexToText);
            var id := CacheId(accent, hash(parsed), AutomaticVoiceoverProvider);
            var old_ := st.cache[id];
            var o := SynthesizeVoiceover(st, doc, accent, filename, hash, latexToText, synthesize);
            o.result.Success? ==>
              (if |parsed| < |old_.plaintext| then
                 o.state.cache == st.cache[id := old_.(plaintext := parsed, voiceoverFilename := filename,
                                                       audioOffsetList := o.result.value)]
               else o.state.cache == st.cache)
  {
  }

  /** Every request keeps every cache entry under its own id. */
  lemma RequestKeepsKeyed(st: State, doc: seq<Node>, accent: string, filename: string,
                          hash: string -> string, latexToText: string -> string,
                          synthesize: (string, string) -> Synthesis)
    requires Keyed(st.cache)
    ensures Keyed(SynthesizeVoiceover(st, doc, accent, filename, hash, latexToText, synthesize).state.cache)
  {
  }

  /** Once a request for a text succeeds and records its audio in the
      cache, the same request again is a hit: it returns the same offsets
      whatever the provider would now do. A collision the earlier request
      lost (its text was not shorter) is the one case that stays a miss. */
  lemma SecondRequestIsHit(st: State, doc: seq<Node>, accent: string, filename: string,
                           hash: string -> string, latexToText: string -> string,
                           synthesize: (string, string) -> Synthesis,
                           later: (string, string) -> Synthesis)
    requires Keyed(st.cache)
    requires GetCached(st.cache, hash(ParseHtml(doc, latexToText)), accent, AutomaticVoiceoverProvider).None?
    ensures var o1 := SynthesizeVoiceover(st, doc, accent, filename, hash, latexToText, synthesize);
            o1.result.Success? ==>
              var o2 := SynthesizeVoiceover(o1.state, doc, accent, filename, hash, latexToText, later);
              o2.result == o1.result && o2.state.cache == o1.state.cache
  {
    var parsed := ParseHtml(doc, latexToText);
    var o1 := SynthesizeVoiceover(st, doc, accent, filename, hash, latexToText, synthesize);
    if o1.result.Success? {
      MissCreatesEntry(st, doc, accent, filename, hash, latexToText, synthesize);
      assert IsHit(o1.state, parsed, accent, hash);
      assert AudioPath(filename) in o1.state.blobs;
    }
  }
}
