# Oppia automatic voiceovers, email sending and batch-job steps in Dafny

This project models Oppia's automatic-voiceover regeneration path and proves its properties. It also covers several smaller pieces of the same repository that can be stated precisely.

- **Voiceover regeneration.** Rich-text HTML is reduced to plain text: the custom Oppia tags are rewritten, and the stripped text nodes are joined by the content-tag delimiter. The text is looked up in a cache of synthesized voiceovers keyed by accent, text hash and provider. On an exact match the cached audio is reused; otherwise a speech provider is asked for audio and word offsets. The audio is committed to the blob store, and the cache entry is created, or replaced when a hash collision brings a shorter text.
- **Storage models.** The entity-voiceover, voice-artist metadata, exploration voice-artist link and cached-voiceover models are modelled as id builders and map operations.
- **Speech providers.** The Azure provider's SSML builder, its test for mathematical text, its word-boundary accumulator and its choice of error are modelled. So is the development stand-in that returns a sample recording.
- **Email.** Address and sender validation and the check order of `send_mail`/`send_bulk_mail` are modelled. So are the log summary of a message and the Mailgun provider: chunking into requests of at most 1000 recipients, the per-request form data, and stopping at the first rejected request.
- **Cloud Translate emulator.** One shared table of expected responses with a default answer.
- **Batch jobs.** The per-record steps are modelled with the Beam plumbing removed:
  - rejecting translation suggestions whose content is already translated;
  - pruning translations whose content ids no longer exist, and recounting;
  - picking the latest translation model;
  - auditing that every topic has its rights and summary records.
- **Type-check script.** The command line that the script builds for mypy.

Every operation is a pure function over immutable datatypes. The two exceptions are `TranslationJobs.GetLatestModel` and `Mailgun.SendEmailToRecipients`, methods with a loop. The cache and the blob store are maps, and the regeneration request is a transition of a `State` holding both.

External functions become parameters:
- the text hash (SHA-256);
- the LaTeX-to-text rendering;
- the language of an accent and the check for valid language codes;
- the voice table;
- the Azure SDK call;
- reads of sample files;
- Mailgun's status answer per request;
- the server's permission to send mail.

Modules, by file:

| file | module | what it holds |
|---|---|---|
| wrappers.dfy | Wrappers | `Option` and `Result` |
| strings.dfy | Strings | Python's `strip`, `split`, `join`, `in` on strings, and decimal rendering, with round-trip lemmas |
| text_normalizer.dfy | TextNormalizer | the element tree, custom-tag rewriting and `parse_html` |
| voiceover_models.dfy | VoiceoverModels | the storage models and their id builders |
| voiceover_regeneration.dfy | VoiceoverRegeneration | `synthesize_voiceover_for_html_string` as a state transition |
| azure_speech.dfy | AzureSpeech | the Azure provider |
| dev_speech.dfy | DevSpeech | the development stand-in provider |
| email_services.dfy | EmailServices | validation, sending checks and the loggable summary |
| mailgun.dfy | Mailgun | the Mailgun provider |
| translate_emulator.dfy | CloudTranslateEmulator | the translation emulator |
| translation_jobs.dfy | TranslationJobs | the suggestion, pruning, recount and latest-model steps |
| topic_audit.dfy | TopicAudit | the topic relation audit |
| mypy_checks.dfy | MypyChecks | the mypy command builder |

Modelling notes:
- **Delimiter.** The content-tag delimiter comes from feconf, which is not part of this model. It is fixed as `"; "`, the value the regeneration test at core/domain/voiceover_regeneration_services_test.py:88-98 expects from `parse_html` (`Hello world; Italics text; ...`).
- **Provider.** The automatic-voiceover provider constant (also from feconf) is `"azure"`. No property depends on its value.
- **Entity-voiceover ids can collide.** The id `type-id-version-accent` is not injective, because accent codes such as `en-US` contain the separator. `VoiceoverModels.EntityVoiceoversIdCollides` exhibits two key tuples with the same id. `VoiceoverModels.EntityVoiceoversIdSplits` shows the keys are recovered when none contains a dash. The id format allows this.
- **Email regex.** It is modelled in full, including Python's `$` that also matches just before a final newline. No property needs newline-free inputs, and `EmailServices.TrailingNewlineAccepted` states the newline case.
- **Shared emulator table.** Each emulator instance's table is the class-level dictionary itself. A new emulator therefore sees every response added through any other. `CloudTranslateEmulator.ApplyAdds` gives the shared table after a run of additions, and `CloudTranslateEmulator.AdditionsAreShared` states what an emulator created at any point of that run answers.
- **Provider failures.** A provider that raises with an empty message sets `error_details` to the empty string. That is falsy, so the source then reaches the MP3 check with unbound audio data and fails with `UnboundLocalError`. The model treats this as a failure that writes nothing. A provider returning `""` as its error is falsy too, and counts as success, as in the source.
- **Email provider.** `send_mail` and `send_bulk_mail` hand their request to a provider function, which accepts it, refuses it or raises. The Mailgun provider raises when it has no API key or no domain name (`Mailgun.SendEmailToRecipients`). Neither caller catches the exception, so `EmailServices.ProviderRaised` carries the provider's message out unchanged.

## Model

| member | source | states |
|---|---|---|
| TextNormalizer.ConvertTree | core/domain/voiceover_regeneration_services.py:59-88 | after rewriting, no custom Oppia tag is left anywhere in the tree |
| TextNormalizer.ConvertedLeavesAreVoiced | core/domain/voiceover_regeneration_services.py:73-87 | the text nodes of the rewritten tree are exactly what an independent reading of the original voices: the decoded text of a link or skill review, the rendering of a math formula, and the children's text for every other tag |
| TextNormalizer.SegmentsStripped | core/domain/voiceover_regeneration_services.py:107-108 | every segment `get_text(strip=True)` keeps is non-empty and has no surrounding whitespace |
| TextNormalizer.ParseHtmlVoices | core/domain/voiceover_regeneration_services.py:102-110 | `parse_html` joins, in document order, the stripped non-blank texts the document voices |
| TextNormalizer.JoinedSegmentsStripped | core/domain/voiceover_regeneration_services.py:107-110 | the output of `parse_html` has no leading or trailing whitespace |
| TextNormalizer.ParseHtmlIdempotent | core/domain/voiceover_regeneration_services.py:91-110 | normalising the normalised text again, wrapped in a paragraph, gives it back unchanged |
| TextNormalizer.ParseHtmlSplits | core/domain/voiceover_regeneration_services.py:107-108 | when no voiced text contains the delimiter, splitting the output on the delimiter gives back the segments, and an empty document gives one empty piece |
| TextNormalizer.LinkExample | core/domain/voiceover_regeneration_services.py:73-79 | a link inside a paragraph is voiced as exactly its decoded text |
| TextNormalizer.ImageExample | core/domain/voiceover_regeneration_services.py:48-56 | an image tag contributes no text, so a document holding only an image normalises to the empty string |
| TextNormalizer.TwoParagraphs | core/domain/voiceover_regeneration_services.py:102-110 | two paragraphs separated by blank text become the two texts joined by the delimiter, with the blank text dropped and inline markup ignored |
| VoiceoverModels.CreatedEntityVoiceoversIsFound | core/storage/voiceover/gae_models.py:105-204 | a model made by `create_new` and stored under its id is what `get_model` returns for the same type, entity id, version and accent, with every field as given |
| VoiceoverModels.EntityVoiceoversIdSplits | core/storage/voiceover/gae_models.py:105-125 | when no key contains a dash and the version is not negative, splitting the id on dashes recovers the type, entity id, version (as decimal digits) and accent |
| VoiceoverModels.EntityVoiceoversIdCollides | core/storage/voiceover/gae_models.py:105-125 | two different key tuples produce the same id, because the separator can occur inside a key |
| VoiceoverModels.CreateUniqueSpec | core/storage/voiceover/gae_models.py:326-361 | `create_model` fails with the "already exists" message exactly when the id is taken, and otherwise adds the value under the id and changes no other entry |
| VoiceoverModels.ExportMatchesReference | core/storage/voiceover/gae_models.py:285-384 | the export is empty exactly when `has_reference_to_user_id` is false, and otherwise holds the stored mapping under `language_code_to_accent` |
| VoiceoverModels.CreatedMetadataIsExported | core/storage/voiceover/gae_models.py:326-384 | after a successful create the user is referenced, the export is exactly the mapping given, and a second create for that user fails |
| VoiceoverModels.CreateExplorationLinkSpec | core/storage/voiceover/gae_models.py:434-474 | creating a link fails with the link-specific message exactly when the exploration already has one, and otherwise stores the mapping under the exploration id |
| VoiceoverModels.CreatedCacheEntryIsFound | core/storage/voiceover/gae_models.py:534-635 | an entry made by `create_cache_model` and put into the cache is what the lookup by (hash of the same text, accent, provider) returns, and it records that text, file, offsets, accent, hash and the configured provider |
| VoiceoverModels.PutKeepsKeyed | core/storage/voiceover/gae_models.py:591-635 | storing an entry under its own id keeps every entry of the cache under its own id |
| VoiceoverModels.CacheIdSplits | core/storage/voiceover/gae_models.py:569-588 | with colon-free keys, splitting the cache id on colons recovers accent, hash and provider |
| VoiceoverModels.CacheIdInjective | core/storage/voiceover/gae_models.py:569-588 | with colon-free keys, two cache ids are equal exactly when their three keys are |
| VoiceoverRegeneration.HitSkipsSynthesis | core/domain/voiceover_regeneration_services.py:168-206 | on an exact cache hit the provider plays no part: the cached offsets are returned, the cached audio is committed under the target file, and the cache is left as it was |
| VoiceoverRegeneration.HitWithoutFileFails | core/domain/voiceover_regeneration_services.py:168-175 | an exact cache hit whose file is missing from this exploration's store fails with the file-not-found error and writes nothing, without asking the provider |
| VoiceoverRegeneration.MismatchSynthesizes | core/domain/voiceover_regeneration_services.py:168-186 | an entry under the same hash holding other text is not trusted: the provider's answer decides the outcome, and a raised exception or a non-empty error string fails the request |
| VoiceoverRegeneration.FailureLeavesNoResidue | core/domain/voiceover_regeneration_services.py:177-201 | a failing request leaves both the cache and the blob store as they were |
| VoiceoverRegeneration.SuccessCommitsAudio | core/domain/voiceover_regeneration_services.py:199-201 | a successful request always writes the audio under the target file, even when the cache is left alone, and touches no other file |
| VoiceoverRegeneration.MissCreatesEntry | core/domain/voiceover_regeneration_services.py:216-224 | with no entry under the key, success adds one under (accent, hash of the parsed text, provider) that records the parsed text, the target file and the returned offsets, and changes no other entry |
| VoiceoverRegeneration.CollisionFavoursShorter | core/domain/voiceover_regeneration_services.py:204-215 | on a hash collision the entry's text, file and offsets are all replaced exactly when the new text is strictly shorter; otherwise the cache is unchanged |
| VoiceoverRegeneration.RequestKeepsKeyed | core/domain/voiceover_regeneration_services.py:204-224 | every request keeps each cache entry under its own id |
| VoiceoverRegeneration.SecondRequestIsHit | core/domain/voiceover_regeneration_services.py:168-226 | after a request that misses the cache succeeds, repeating it returns the same offsets from the cache, whatever the provider would now do |
| AzureSpeech.IsMathematicalFromIff | core/platform/azure_speech_synthesis/azure_speech_synthesis_services.py:99-114 | trying the operators one by one finds a match exactly when one of them occurs in the text |
| AzureSpeech.IsMathematicalTextIff | core/platform/azure_speech_synthesis/azure_speech_synthesis_services.py:68-114 | a text is mathematical exactly when it contains `+`, ` - `, `*`, ` / `, `×` or `÷` |
| AzureSpeech.HyphenIsNotMath | core/platform/azure_speech_synthesis/azure_speech_synthesis_services.py:68-69 | `3-2` is not mathematical: only a spaced minus counts |
| AzureSpeech.SpacedMinusIsMath | core/platform/azure_speech_synthesis/azure_speech_synthesis_services.py:68-69 | any text containing ` - ` is mathematical |
| AzureSpeech.BlocksOfSpec | core/platform/azure_speech_synthesis/azure_speech_synthesis_services.py:163-171 | the SSML body has one block per segment, in order, each carrying its segment and being a math block exactly when the segment is mathematical |
| AzureSpeech.ConvertPlaintextToSsml | core/platform/azure_speech_synthesis/azure_speech_synthesis_services.py:117-177 | building the SSML fails with the lookup error exactly when the accent has no voice; otherwise it carries the accent as language, the accent's voice, and one block per delimiter-separated piece |
| AzureSpeech.SsmlBlockPerSegment | core/platform/azure_speech_synthesis/azure_speech_synthesis_services.py:163-177 | for normalised content whose texts do not contain the delimiter, the SSML has exactly one block per voiced text, in order, each a math block exactly when its text is mathematical; content with no voiced text gives one empty prose block |
| AzureSpeech.WordBoundaryEvent | core/platform/azure_speech_synthesis/azure_speech_synthesis_services.py:80-96 | one event appends exactly one record, whose token is the event's text and whose offset in milliseconds is the tick offset divided by 10000; earlier records are unchanged |
| AzureSpeech.CollectOffsetsSpec | core/platform/azure_speech_synthesis/azure_speech_synthesis_services.py:80-96 | a run of events keeps the earlier records and adds one record per event, in event order, with its token and converted offset |
| AzureSpeech.OffsetsFollowEvents | core/platform/azure_speech_synthesis/azure_speech_synthesis_services.py:80-96 | events arriving in order of offset give records in order of offset |
| AzureSpeech.MissingKeyRaises | core/platform/azure_speech_synthesis/azure_speech_synthesis_services.py:210-213 | without an API key the request raises "Azure TTS API key is not available." and the SDK plays no part |
| AzureSpeech.RegenerateReturns | core/platform/azure_speech_synthesis/azure_speech_synthesis_services.py:235-254 | with a key and a known accent the request returns the SDK's audio and one record per word-boundary event in order, with the event's text and its offset converted from 100-nanosecond ticks to milliseconds; the error is present exactly when synthesis was cancelled by an error, and then equals the error details |
| AzureSpeech.UnknownAccentRaises | core/platform/azure_speech_synthesis/azure_speech_synthesis_services.py:139-140 | an accent missing from the voice table raises the lookup's error |
| DevSpeech.SampleFilename | core/platform/azure_speech_synthesis/dev_mode_azure_speech_synthesis_services.py:31-71 | a language with a sample uses its own file, and any other language, or none, uses `english.mp3` |
| DevSpeech.DevSynthesisSpec | core/platform/azure_speech_synthesis/dev_mode_azure_speech_synthesis_services.py:39-92 | the stand-in always returns with no error and exactly the tokens `This`, `is`, `a`, `test`, `text` at 0, 100, 200, 300 and 400 ms, whose offsets strictly increase, and the text makes no difference |
| DevSpeech.DevSampleSelection | core/platform/azure_speech_synthesis/dev_mode_azure_speech_synthesis_services.py:61-77 | Arabic, Hindi and Portuguese read their own sample, and every other language reads the English one |
| DevSpeech.DevRequestSucceeds | core/platform/azure_speech_synthesis/dev_mode_azure_speech_synthesis_services.py:79-92 | with the stand-in as provider, a request that misses the cache succeeds with the fixed offsets and adds a cache entry for the text |
| EmailServices.PatternSplitIsLast | core/domain/email_services.py:56-57 | in any full match of the address pattern there is no newline, and the `@` and the `.` before the top label are the last of their kind |
| EmailServices.MatchesAddressIff | core/domain/email_services.py:56-57 | the direct scan (text before the last `@`, domain characters, a final all-letter or all-digit label) accepts exactly the strings the pattern matches |
| EmailServices.EmailValidIff | core/domain/email_services.py:47-57 | an address is valid exactly when `re.search` finds the pattern, with `$` also matching before a final newline; the strip check never rejects a match |
| EmailServices.BlankAddressInvalid | core/domain/email_services.py:50-52 | an empty or whitespace-only address is invalid |
| EmailServices.PlainAddressValid | core/domain/email_services.py:56-57 | `user@example.com` is valid |
| EmailServices.TrailingNewlineAccepted | core/domain/email_services.py:56-57 | a valid newline-free address stays valid with one newline appended |
| EmailServices.NumericTopLabelValid | core/domain/email_services.py:56-57 | an all-digit top label such as `user@10.0.0.1` is accepted |
| EmailServices.MixedTopLabelInvalid | core/domain/email_services.py:56-57 | a top label mixing letters and digits such as `example.c0m` is rejected |
| EmailServices.EmptyLocalPartInvalid | core/domain/email_services.py:56-57 | an address with nothing before the `@` is rejected |
| EmailServices.EmptyDomainPartInvalid | core/domain/email_services.py:56-57 | an address with nothing between the `@` and the final `.` is rejected |
| EmailServices.SenderWithoutSpace | core/domain/email_services.py:70-72 | a sender with no space is valid exactly when it is a valid address |
| EmailServices.SenderWithSpace | core/domain/email_services.py:70-78 | a sender with a space is valid exactly when the text after its last space is `<addr>` with `addr` valid |
| EmailServices.NamedSender | core/domain/email_services.py:60-78 | `Name <addr>` is accepted, whatever the name, exactly when `addr` is valid |
| EmailServices.MailRequest | core/domain/email_services.py:135-138 | the provider is given the sender, the one recipient, subject, bodies and attachments, an empty reply-to, no recipient variables, and bcc to the administrator exactly when asked for |
| EmailServices.SendMail | core/domain/email_services.py:120-144 | a request reaches the provider exactly when the server may send and recipient and sender are valid, and nothing is raised exactly when it reached the provider and the provider accepted it without raising |
| EmailServices.SendMailCheckOrder | core/domain/email_services.py:125-134 | the server flag is checked first, then the recipient, then the sender, and the first failing check decides the exception |
| EmailServices.SendMailRequest | core/domain/email_services.py:135-144 | what reaches the provider is the one-recipient request; a refused delivery raises naming the recipient, and an exception from the provider passes through with its message |
| EmailServices.FirstInvalid | core/domain/email_services.py:192-195 | there is no first invalid address exactly when all are valid, and a reported position holds an invalid address |
| EmailServices.SendBulkMail | core/domain/email_services.py:184-208 | a bulk request reaches the provider exactly when the server may send, every recipient is valid and the sender is valid, and nothing is raised exactly when it reached the provider and the provider accepted it without raising |
| EmailServices.SendBulkMailCheckOrder | core/domain/email_services.py:189-199 | a bulk send goes out only when every recipient is valid, and otherwise the exception names the first invalid recipient in list order; the server flag comes first and the sender last |
| EmailServices.SendBulkMailRequest | core/domain/email_services.py:201-208 | what reaches the provider is one request for all recipients with no bcc, reply-to or recipient variables; a refused delivery raises the bulk failure, and an exception from the provider passes through with its message |
| EmailServices.ShortSummaryListsAll | core/domain/email_services.py:262-264 | up to three space-free recipients are listed whole: splitting the summary on spaces gives them back |
| EmailServices.LongSummaryJoin | core/domain/email_services.py:262-267 | a summary of more than three recipients is its six words joined by spaces |
| EmailServices.LongSummaryCounts | core/domain/email_services.py:262-267 | past three recipients the summary reads the first three, with `...` after the third, then `Total:`, the count in decimal and `emails.` |
| EmailServices.LoggableHidesContent | core/domain/email_services.py:262-317 | the log keeps no content: messages agreeing on sender, subject, bcc, reply-to, the first three recipients, the counts and sizes, and the attachment names log the same |
| Mailgun.Chunks | core/platform/email/mailgun_email_services.py:119-121 | the recipients are cut into ceil(n/1000) lists, each non-empty and of at most 1000 addresses |
| Mailgun.ChunksStep | core/platform/email/mailgun_email_services.py:119-121 | past 1000 recipients the first request takes the first 1000 and the rest are chunked alike |
| Mailgun.ChunksPartition | core/platform/email/mailgun_email_services.py:119-122 | the chunks laid end to end are the recipient list: each address is sent once, in order |
| Mailgun.ChunksFull | core/platform/email/mailgun_email_services.py:119-121 | every chunk but the last holds exactly 1000 addresses |
| Mailgun.Collapse | core/platform/email/mailgun_email_services.py:128-132 | a field is sent as a single address exactly when its list has one element |
| Mailgun.CollapseRoundTrip | core/platform/email/mailgun_email_services.py:128-132 | the addresses a collapsed field stands for are exactly the original list |
| Mailgun.ChunkPost | core/platform/email/mailgun_email_services.py:123-158 | each request goes to the domain's messages URL with auth `('api', key)` and timeout 60, addresses its chunk, and carries bcc, reply-to and attachments exactly when they are non-empty, with recipient variables defaulting to `{}` |
| Mailgun.AllPostsAddressRecipients | core/platform/email/mailgun_email_services.py:119-158 | taken together, the requests for a message address exactly its recipients, in order |
| Mailgun.SendEmailToRecipients | core/platform/email/mailgun_email_services.py:94-169 | with no key, or an empty domain, it raises with the loggable message before any request; otherwise it sends a prefix of the requests, returns true exactly when every one is answered 200 (then all are sent, including none at all), and stops right after the first other answer |
| CloudTranslateEmulator.Translate | core/platform/translate/cloud_translate_emulator.py:69-98 | translation fails exactly when a language code is invalid, naming the source code when that is invalid and otherwise the target code; it never fails for valid codes |
| CloudTranslateEmulator.AddExpectedResponse | core/platform/translate/cloud_translate_emulator.py:100-116 | adding a response adds its key to the table, stores the response under it, and keeps every other entry |
| CloudTranslateEmulator.TranslateLooksUp | core/platform/translate/cloud_translate_emulator.py:97-98 | with valid codes the answer is the stored response for (source, target, text), or the default response when none is stored |
| CloudTranslateEmulator.AddThenTranslate | core/platform/translate/cloud_translate_emulator.py:97-116 | after adding a response, translating its key with valid codes returns it, and every other key answers as before |
| CloudTranslateEmulator.UntouchedKeyKept | core/platform/translate/cloud_translate_emulator.py:100-116 | after any run of additions, a key none of them names is in the table exactly when it was before, with the same response |
| CloudTranslateEmulator.LastAdditionWins | core/platform/translate/cloud_translate_emulator.py:100-116 | after any run of additions, a key holds the response of the last addition for it |
| CloudTranslateEmulator.SharedTableAnswers | core/platform/translate/cloud_translate_emulator.py:62-116 | an emulator over a table plus a run of additions answers, with valid codes, the last added response for a key, and for a key no addition names the table's entry or the default response |
| CloudTranslateEmulator.AdditionsAreShared | core/platform/translate/cloud_translate_emulator.py:62-67 | an emulator created after any prefix of a run of additions, made through any emulators, answers each added key with its last added response, each other pregenerated key with its pregenerated text, and everything else with the default response |
| CloudTranslateEmulator.PregeneratedExamples | core/platform/translate/cloud_translate_emulator.py:38-60 | `hello world` to Spanish is `Hola Mundo`, `CONTINUE` to Chinese is its pregenerated text, and an unknown phrase gets the default response |
| TranslationJobs.ContentIdsNotNeedingUpdate | core/jobs/batch_jobs/reject_invalid_suggestion_and_delete_invalid_translation_jobs.py:372-376 | a content id is listed exactly when some translation for it does not need an update |
| TranslationJobs.FetchSuggestions | core/jobs/batch_jobs/reject_invalid_suggestion_and_delete_invalid_translation_jobs.py:378-395 | the fetched suggestions are exactly the stored ones that translate content of this entity, version and language and are in review |
| TranslationJobs.Reject | core/jobs/batch_jobs/reject_invalid_suggestion_and_delete_invalid_translation_jobs.py:405-407 | a rejected suggestion has status rejected and the bot as final reviewer, and no other field changes |
| TranslationJobs.ComputeSuggestionsInReview | core/jobs/batch_jobs/reject_invalid_suggestion_and_delete_invalid_translation_jobs.py:396-437 | change mode yields updated suggestions and audit mode yields report dicts |
| TranslationJobs.AuditMatchesChange | core/jobs/batch_jobs/reject_invalid_suggestion_and_delete_invalid_translation_jobs.py:402-437 | audit mode reports exactly the dicts, in the same order, that change mode attaches to its rejected suggestions |
| TranslationJobs.RejectsExactlyUpToDate | core/jobs/batch_jobs/reject_invalid_suggestion_and_delete_invalid_translation_jobs.py:402-420 | every fetched suggestion for content that is up to date is rejected with its report, and every rejection comes from such a suggestion |
| TranslationJobs.ReportsCoverUpToDate | core/jobs/batch_jobs/reject_invalid_suggestion_and_delete_invalid_translation_jobs.py:372-437 | every in-review suggestion for this translation model's content that is up to date is reported in audit mode |
| TranslationJobs.ReportsOnlyUpToDate | core/jobs/batch_jobs/reject_invalid_suggestion_and_delete_invalid_translation_jobs.py:372-437 | every audit report comes from a stored suggestion matching the query whose content is up to date |
| TranslationJobs.PruneTranslations | core/jobs/batch_jobs/reject_invalid_suggestion_and_delete_invalid_translation_jobs.py:496-523 | change mode always ends its output with `None` |
| TranslationJobs.AuditInvalidTranslations | core/jobs/batch_jobs/reject_invalid_suggestion_and_delete_invalid_translation_jobs.py:524-535 | every reported content id is missing from the exploration's content ids |
| TranslationJobs.InvalidCount | core/jobs/batch_jobs/reject_invalid_suggestion_and_delete_invalid_translation_jobs.py:499-512 | invalid reports and kept translations together number the translations, every translation with an unknown content id is reported, and every report names such a translation |
| TranslationJobs.PruneSpec | core/jobs/batch_jobs/reject_invalid_suggestion_and_delete_invalid_translation_jobs.py:496-535 | a result is yielded before `None` exactly when some translation has an unknown content id; it carries the audit's reports, keeps exactly the translations with known ids, changes nothing else in the model, and counts the deleted ones |
| TranslationJobs.UpdateTranslationCounts | core/jobs/batch_jobs/reject_invalid_suggestion_and_delete_invalid_translation_jobs.py:565-570 | recounting sets the model's language to its number of translations and leaves every other language's count alone |
| TranslationJobs.RecountIsKeyCount | core/jobs/batch_jobs/reject_invalid_suggestion_and_delete_invalid_translation_jobs.py:565-570 | the recorded count is the number of distinct content ids the model translates |
| TranslationJobs.RecountAfterPrune | core/jobs/batch_jobs/reject_invalid_suggestion_and_delete_invalid_translation_jobs.py:565-570 | after pruning, the count for the language is the number of translated content ids still in the exploration, and other languages are unchanged |
| TranslationJobs.GetLatestModel | core/jobs/batch_jobs/reject_invalid_suggestion_and_delete_invalid_translation_jobs.py:600-612 | the result pairs the entity id with the first model, in list order, whose version is the highest |
| TopicAudit.AnyHasId | core/jobs/batch_jobs/audit_topic_related_models_relation_jobs.py:102-104 | the test holds exactly when some record has the id |
| TopicAudit.ValidateTopicModels | core/jobs/batch_jobs/audit_topic_related_models_relation_jobs.py:80-126 | a topic raises at most two errors, each naming the topic's id and, as target, its name |
| TopicAudit.ErrorsIff | core/jobs/batch_jobs/audit_topic_related_models_relation_jobs.py:102-125 | a rights error is raised exactly when no rights record has the topic's id, and a summary error exactly when no summary record does |
| TopicAudit.NoErrorsIff | core/jobs/batch_jobs/audit_topic_related_models_relation_jobs.py:100-126 | a topic passes exactly when it has both records, and with two errors the rights error comes first |
| TopicAudit.Live | core/jobs/batch_jobs/audit_topic_related_models_relation_jobs.py:55-71 | the records read are exactly those not marked deleted |
| TopicAudit.ValidateTopicModelsJob | core/jobs/batch_jobs/audit_topic_related_models_relation_jobs.py:55-78 | the job raises at most two errors per topic |
| TopicAudit.JobSplits | core/jobs/batch_jobs/audit_topic_related_models_relation_jobs.py:73-78 | each topic is audited on its own: the job over two groups raises the first group's errors followed by the second's |
| TopicAudit.DeletedRecordIgnored | core/jobs/batch_jobs/audit_topic_related_models_relation_jobs.py:55-71 | a deleted rights record does not count: a live topic whose only rights record is deleted raises the rights error |
| TopicAudit.MixedTopicsExample | core/jobs/batch_jobs/audit_topic_related_models_relation_jobs_test.py:285-412 | of three topics, the one with both records passes, the one without rights raises the rights error, and the one without a summary raises the summary error |
| MypyChecks.GetMypyCmd | scripts/run_mypy_checks.py:56-76 | every command starts with `mypy` and passes `--config-file ./mypy.ini` |
| MypyChecks.ExplicitFilesCommand | scripts/run_mypy_checks.py:68-69 | with files named, they follow the three fixed arguments in order, the command has 3 + n arguments, and nothing is excluded |
| MypyChecks.DefaultCommand | scripts/run_mypy_checks.py:31-75 | with no files, or an empty list, the whole tree `.` is checked, and splitting the exclude argument on `|` gives back exactly the excluded directories |

## Left out

- HTML tokenisation by BeautifulSoup, `html.unescape` and `json.loads` of tag attributes, and LaTeX rendering by pylatexenc are not modelled. `parse_html` works on an already-parsed element tree. It carries the decoded link text and takes the LaTeX rendering as a function.
- SHA-256 is a parameter `hash`. No property assumes it is injective, since the collision rule exists for that case.
- The mutagen MP3 check (core/domain/voiceover_regeneration_services.py:188-198) is foreign code. The audio is assumed to pass it.
- Reading a cached blob that is missing from the store is modelled as a failure with no writes. The blob store's own error is not part of this model.
- `exploration_id` (core/domain/voiceover_regeneration_services.py:114, 145-146) picks the exploration's file store, and `State.blobs` is that one store. The cache table is shared by all explorations. So a hit on a file committed under another exploration fails at `fs.get` instead of synthesising again (`VoiceoverRegeneration.HitWithoutFileFails`).
- The Azure SDK, secret lookups, the voice table read from disk, the region and output-format settings, and the dev stand-in's file reads are parameters.
- `get_language_code_from_language_accent_code` and `utils.is_valid_language_code` are parameters.
- feconf is not part of this model. The delimiter, provider name, bot user id, administrator address and Mailgun domain are constants or parameters.
- `requests.post`, opening and closing attachment files, and logging of failed Mailgun requests are left out. Each request's HTTP status is the oracle `status`.
- Beam pipelines, datastore queries, ndb contexts, `datetime.utcnow`, `update_timestamps` and `put` are left out. Query results and translatable content ids are inputs, and the store's fetch order is taken to be the stored order.
- `get_translatable_content_ids` and fetching the exploration are left out. The content-id set is an input.
- `job_utils.get_model_id`, used by `_validate_topic_models`, is taken to be the model's id.
- `get_entity_voiceovers_for_given_exploration` and the other storage-model queries and deletion hooks are not modelled. They are datastore queries.
- scripts/install_third_party_libs.py, `run_mypy_checks.main` (argument parsing, `sys.path`, the subprocess) and core/domain/action_registry_test.py are not modelled. They are plumbing, or code that is not part of this model.
- Audio offsets are reals. Ticks divided by 10000 is exact there, and IEEE double rounding is not modelled.
- The `isinstance(email_address, str)` check is not modelled, because every address is a string here.
- The whitespace layout that `textwrap.dedent` gives the loggable message is not modelled. `EmailServices.Loggable` records the summary fields only.
- TranslationJobs.ContentIdsNotNeedingUpdate: `needs_update` is a boolean here, so values that are neither `True` nor `False` (which `is False` would also skip) are not modelled.
- Recipient variables are maps from address to string. Their nested values are not modelled.
- `CONFIG_FILE_PATH` is `./mypy.ini`, as `os.path.join` gives on a POSIX system.
