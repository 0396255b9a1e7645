/** The voiceover storage models: entity voiceovers, voice-artist metadata,
    exploration voice-artist links and the cache of automatically
    synthesized voiceovers. A datastore table is a map from model id to
    model; `put` stores a model under its own id. */
module VoiceoverModels {

  import opened Wrappers
  import opened Strings

  /** One word-boundary record: a token of the voiced text and where it
      starts in the audio, in milliseconds. */
  datatype TimingToken = TimingToken(token: string, audioOffsetMsecs: real)

  type Bytes = seq<bv8>

  /** What a speech provider's `regenerate_speech_from_text` does: raise
      with a message, or return the audio, the word offsets and an optional
      error string. */
  datatype Synthesis =
    | Raised(message: string)
    | Returned(audio: Bytes, offsets: seq<TimingToken>, error: Option<string>)

  /** The provider name recorded on every cache entry. */
  const AutomaticVoiceoverProvider: string := "azure"

  // ---------------------------------------------------------------------
  // Entity voiceovers

  /** An entity-voiceovers model. The voiceover mapping is carried as it is
      given, whatever its shape. */
  datatype EntityVoiceovers<V> = EntityVoiceovers(
    id: string,
    entityType: string,
    entityId: string,
    entityVersion: int,
    languageAccentCode: string,
    voiceoversMapping: V,
    audioOffsets: map<string, seq<TimingToken>>)

  /** The id `type-id-version-accent`, the version written in decimal. */
  function EntityVoiceoversId(entityType: string, entityId: string, entityVersion: int,
                              accent: string): string
  {
    Join([entityType, entityId, IntToString(entityVersion), accent], "-")
  }

  function CreateEntityVoiceovers<V>(entityType: string, entityId: string, entityVersion: int,
                                     accent: string, mapping: V,
                                     offsets: map<string, seq<TimingToken>>): EntityVoiceovers<V>
  {
    EntityVoiceovers(EntityVoiceoversId(entityType, entityId, entityVersion, accent),
                     entityType, entityId, entityVersion, accent, mapping, offsets)
  }

  /** `get_model`: the model stored under the id the four keys produce. */
  function GetEntityVoiceovers<V>(store: map<string, EntityVoiceovers<V>>, entityType: string,
                                  entityId: string, entityVersion: int,
                                  accent: string): Option<EntityVoiceovers<V>>
  {
    var id := EntityVoiceoversId(entityType, entityId, entityVersion, accent);
    if id in store then Some(store[id]) else None
  }

  /** A model built by `create_new` and put into the store is what
      `get_model` returns for the same four keys, with every field as
      given. */
  lemma CreatedEntityVoiceoversIsFound<V>(store: map<string, EntityVoiceovers<V>>,
                                          entityType: string, entityId: string,
                                          entityVersion: int, accent: string, mapping: V,
                                          offsets: map<string, seq<TimingToken>>)
    ensures var m := CreateEntityVoiceovers(entityType, entityId, entityVersion, accent,
                                            mapping, offsets);
            var found := GetEntityVoiceovers(store[m.id := m], entityType, entityId,
                                             entityVersion, accent);
            found.Some? && found.value.entityType == entityType
            && found.value.entityId == entityId && found.value.entityVersion == entityVersion
            && found.value.languageAccentCode == accent
            && found.value.voiceoversMapping == mapping && found.value.audioOffsets == offsets
  {
  }

  lemma DashUnbordered()
    ensures Unbordered("-")
  {
  }

  /** When neither the type, the entity id nor the accent contains a dash
      and the version is not negative, splitting the id on dashes recovers
      the four keys. */
  lemma EntityVoiceoversIdSplits(entityType: string, entityId: string, entityVersion: nat,
                                 accent: string)
    requires '-' !in entityType && '-' !in entityId && '-' !in accent
    ensures var parts := Split(EntityVoiceoversId(entityType, entityId, entityVersion, accent), "-");
            |parts| == 4 && parts[0] == entityType && parts[1] == entityId
            && parts[3] == accent && AllDigits(parts[2]) && ParseDigits(parts[2]) == entityVersion
  {
    var v := NatToString(entityVersion);
    var parts := [entityType, entityId, v, accent];
    forall i | 0 <= i < |v| ensures v[i] != '-' {
      assert '0' <= v[i] <= '9';
    }
    forall i | 0 <= i < |parts| ensures !Contains(parts[i], "-") {
      ContainsChar(parts[i], '-');
    }
    DashUnbordered();
    SplitJoin(parts, "-");
    NatToStringRoundTrip(entityVersion);
  }

  /** The id is not injective: accent codes such as `en-US` contain the
      separator, so different keys can share an id. */
  lemma EntityVoiceoversIdCollides()
    ensures EntityVoiceoversId("exploration", "exp-1", 1, "en-US")
            == EntityVoiceoversId("exploration-exp", "1", 1, "en-US")
  {
    assert NatToString(1) == "1";
  }

  // ---------------------------------------------------------------------
  // Voice-artist metadata and exploration voice-artist links

  const VoiceArtistExistsError: string :=
    "A voice artist metadata model with a given voiceartist ID already exists"

  const ExplorationLinkExistsError: string :=
    "An exploration voice artist link model with a given exploration ID already exists"

  /** The shared shape of `create_model`: refuse an id already in the
      table, otherwise store the value under it. */
  function CreateUnique<T>(store: map<string, T>, id: string, value: T,
                           existsError: string): (r: Result<map<string, T>, string>)
  {
    if id in store then Failure(existsError) else Success(store[id := value])
  }

  /** `create_model` fails exactly when the id is taken, and otherwise adds
      the value under the id and changes nothing else. */
  lemma CreateUniqueSpec<T>(store: map<string, T>, id: string, value: T, existsError: string)
    ensures var r := CreateUnique(store, id, value, existsError);
            (r.Failure? <==> id in store)
            && (r.Failure? ==> r.error == existsError)
            && (r.Success? ==> id in r.value && r.value[id] == value
                               && r.value.Keys == store.Keys + {id}
                               && forall k :: k in store ==> r.value[k] == store[k])
  {
  }

  /** `VoiceArtistMetadataModel.create_model`, keyed by voice-artist id. */
  function CreateVoiceArtistMetadata(store: map<string, map<string, string>>, voiceArtistId: string,
                                     languageCodeToAccent: map<string, string>)
    : Result<map<string, map<string, string>>, string>
  {
    CreateUnique(store, voiceArtistId, languageCodeToAccent, VoiceArtistExistsError)
  }

  /** `ExplorationVoiceArtistsLinkModel.create_model`, keyed by exploration
      id. */
  function CreateExplorationLink<M>(store: map<string, M>, explorationId: string, mapping: M)
    : Result<map<string, M>, string>
  {
    CreateUnique(store, explorationId, mapping, ExplorationLinkExistsError)
  }

  predicate HasReferenceToUserId(store: map<string, map<string, string>>, voiceArtistId: string) {
    voiceArtistId in store
  }

  /** `export_data`: nothing for an unknown user, else the stored mapping
      under the key `language_code_to_accent`. */
  function ExportData(store: map<string, map<string, string>>, userId: string)
    : map<string, map<string, string>>
  {
    if userId in store then map["language_code_to_accent" := store[userId]] else map[]
  }

  /** The export is empty exactly when the model holds no reference to the
      user, and otherwise it carries the stored mapping. */
  lemma ExportMatchesReference(store: map<string, map<string, string>>, userId: string)
    ensures ExportData(store, userId) == map[] <==> !HasReferenceToUserId(store, userId)
    ensures HasReferenceToUserId(store, userId) ==>
              ExportData(store, userId)["language_code_to_accent"] == store[userId]
  {
    if userId in store {
      assert "language_code_to_accent" in ExportData(store, userId);
    }
  }

  /** After a successful `create_model` the user is referenced and the
      export returns exactly the mapping given; a second create for the
      same user fails. */
  lemma CreatedMetadataIsExported(store: map<string, map<string, string>>, voiceArtistId: string,
                                  languageCodeToAccent: map<string, string>)
    requires voiceArtistId !in store
    ensures var r := CreateVoiceArtistMetadata(store, voiceArtistId, languageCodeToAccent);
            r.Success? && HasReferenceToUserId(r.value, voiceArtistId)
            && ExportData(r.value, voiceArtistId)
               == map["language_code_to_accent" := languageCodeToAccent]
            && CreateVoiceArtistMetadata(r.value, voiceArtistId, languageCodeToAccent).Failure?
  {
  }

  /** Creating a link for an exploration that has one fails with the
      link-specific message; otherwise the mapping is stored. */
  lemma CreateExplorationLinkSpec<M>(store: map<string, M>, explorationId: string, mapping: M)
    ensures var r := CreateExplorationLink(store, explorationId, mapping);
            (r.Failure? <==> explorationId in store)
            && (r.Failure? ==> r.error == ExplorationLinkExistsError)
            && (r.Success? ==> r.value == store[explorationId := mapping])
  {
  }

  // ---------------------------------------------------------------------
  // Cached automatic voiceovers

  /** A cached automatic voiceover: the synthesized audio of `plaintext`,
      stored as `voiceoverFilename`, with its word offsets. */
  datatype CacheEntry = CacheEntry(
    id: string,
    languageAccentCode: string,
    provider: string,
    hashCode: string,
    plaintext: string,
    voiceoverFilename: string,
    audioOffsetList: seq<TimingToken>)

  /** The cache id `accent:hash:provider`. */
  function CacheId(accent: string, hashCode: string, provider: string): string {
    Join([accent, hashCode, provider], ":")
  }

  /** Every model sits under its own id, as the datastore keeps it. */
  predicate Keyed(cache: map<string, CacheEntry>) {
    forall k :: k in cache ==> cache[k].id == k
  }

  /** `put`: store the entry under its own id. */
  function Put(cache: map<string, CacheEntry>, e: CacheEntry): map<string, CacheEntry> {
    cache[e.id := e]
  }

  /** `get_cached_automatic_voiceover_model`: note the argument order
      (hash first) differs from that of the id. */
  function GetCached(cache: map<string, CacheEntry>, hashCode: string, accent: string,
                     provider: string): Option<CacheEntry>
  {
    var id := CacheId(accent, hashCode, provider);
    if id in cache then Some(cache[id]) else None
  }

  /** `create_cache_model`: the hash is taken of the plaintext and the
      provider is the configured one. The hash function is a parameter. */
  function CreateCacheModel(hash: string -> string, accent: string, plaintext: string,
                            filename: string, offsets: seq<TimingToken>): CacheEntry
  {
    var h := hash(plaintext);
    CacheEntry(CacheId(accent, h, AutomaticVoiceoverProvider), accent, AutomaticVoiceoverProvider,
               h, plaintext, filename, offsets)
  }

  /** An entry made by `create_cache_model` and put into the cache is the
      one the lookup by (hash of the same text, accent, provider) returns,
      and it records the text, file and offsets it was made from. */
  lemma CreatedCacheEntryIsFound(hash: string -> string, cache: map<string, CacheEntry>,
                                 accent: string, plaintext: string, filename: string,
                                 offsets: seq<TimingToken>)
    ensures var e := CreateCacheModel(hash, accent, plaintext, filename, offsets);
            GetCached(Put(cache, e), hash(plaintext), accent, AutomaticVoiceoverProvider) == Some(e)
            && e.plaintext == plaintext && e.voiceoverFilename == filename
            && e.audioOffsetList == offsets && e.languageAccentCode == accent
            && e.hashCode == hash(plaintext) && e.provider == AutomaticVoiceoverProvider
  {
  }

  /** Putting a well-keyed entry keeps the cache well keyed. */
  lemma PutKeepsKeyed(cache: map<string, CacheEntry>, e: CacheEntry)
    requires Keyed(cache)
    ensures Keyed(Put(cache, e))
  {
  }

  lemma ColonUnbordered()
    ensures Unbordered(":")
  {
  }

  /** With colon-free accent and hash (a hex digest is one), splitting the
      cache id on colons recovers the three keys, so distinct keys give
      distinct ids. */
  lemma CacheIdSplits(accent: string, hashCode: string, provider: string)
    requires ':' !in accent && ':' !in hashCode && ':' !in provider
    ensures Split(CacheId(accent, hashCode, provider), ":") == [accent, hashCode, provider]
  {
    var parts := [accent, hashCode, provider];
    forall i | 0 <= i < |parts| ensures !Contains(parts[i], ":") {
      ContainsChar(parts[i], ':');
    }
    ColonUnbordered();
    SplitJoin(parts, ":");
  }

  lemma CacheIdInjective(a1: string, h1: string, p1: string, a2: string, h2: string, p2: string)
    requires ':' !in a1 && ':' !in h1 && ':' !in p1
    requires ':' !in a2 && ':' !in h2 && ':' !in p2
    ensures CacheId(a1, h1, p1) == CacheId(a2, h2, p2) <==> (a1 == a2 && h1 == h2 && p1 == p2)
  {
    CacheIdSplits(a1, h1, p1);
    CacheIdSplits(a2, h2, p2);
  }
}
