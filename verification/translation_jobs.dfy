/** The per-record steps of the job that rejects translation suggestions
    for content already translated and prunes translations whose content
    id the exploration no longer has. The Beam pipeline, the datastore and
    the exploration loader are replaced by their inputs: the stored
    suggestions and the exploration's translatable content ids. */
module TranslationJobs {

  import opened Wrappers

  /** One translation of an entity's content, with the flag telling
      whether it is out of date. */
  datatype TranslatedContent = TranslatedContent(contentValue: string, needsUpdate: bool)

  /** One entry of the `translations` dictionary, in insertion order. */
  datatype Entry = Entry(contentId: string, translation: TranslatedContent)

  /** An `EntityTranslationsModel`: the translations of one version of an
      entity into one language. */
  datatype EntityTranslations = EntityTranslations(
    id: string, entityId: string, entityVersion: int, languageCode: string,
    translations: seq<Entry>)

  /** Dictionary keys are distinct. */
  predicate DistinctKeys(entries: seq<Entry>) {
    forall i, j :: 0 <= i < j < |entries| ==> entries[i].contentId != entries[j].contentId
  }

  /** The keys of the `translations` dictionary. */
  function KeySet(entries: seq<Entry>): set<string> {
    set e | e in entries :: e.contentId
  }

  /** The entries of `xs` that `keep` accepts, in order. */
  function Filter<T(!new)>(xs: seq<T>, keep: T -> bool): (r: seq<T>)
    ensures |r| <= |xs|
    ensures forall x :: x in r <==> x in xs && keep(x)
  {
    if |xs| == 0 then []
    else (if keep(xs[0]) then [xs[0]] else []) + Filter(xs[1..], keep)
  }

  // ---------------------------------------------------------------------
  // Suggestions in review for content that is already translated

  datatype SuggestionType = TranslateContent | AddQuestion | EditStateContent

  datatype SuggestionStatus = Accepted | InReview | Rejected

  /** A `GeneralSuggestionModel`, with `change_cmd['content_id']` as
      `contentId`. */
  datatype Suggestion = Suggestion(
    id: string, suggestionType: SuggestionType, targetId: string,
    targetVersionAtSubmission: int, languageCode: string,
    status: SuggestionStatus, contentId: string, finalReviewerId: Option<string>)

  /** The dictionary reported for a suggestion. */
  datatype SuggestionReport = SuggestionReport(
    entityId: string, entityVersion: int, entityTranslationModelId: string,
    contentId: string, suggestionId: string)

  /** A rejected suggestion with its report. */
  datatype UpdatedSuggestion = UpdatedSuggestion(updatedSuggestion: Suggestion, suggestionDict: SuggestionReport)

  /** What the step yields: the rejected suggestions in change mode, the
      reports alone in audit mode. */
  datatype SuggestionsOutput =
    | UpdatedSuggestions(updated: seq<UpdatedSuggestion>)
    | SuggestionDicts(dicts: seq<SuggestionReport>)

  /** The content ids whose translation is up to date, in key order. */
  function ContentIdsNotNeedingUpdate(entries: seq<Entry>): (ids: seq<string>)
    ensures forall c :: c in ids <==>
              exists i :: 0 <= i < |entries| && entries[i].contentId == c && !entries[i].translation.needsUpdate
  {
    if |entries| == 0 then []
    else
      var rest := ContentIdsNotNeedingUpdate(entries[1..]);
      (if !entries[0].translation.needsUpdate then [entries[0].contentId] else []) + rest
  }

  /** The datastore query: translation suggestions in review against this
      version of the entity, in this language. */
  predicate MatchesQuery(m: EntityTranslations, s: Suggestion) {
    s.suggestionType == TranslateContent && s.targetId == m.entityId
    && s.targetVersionAtSubmission == m.entityVersion
    && s.languageCode == m.languageCode && s.status == InReview
  }

  function FetchSuggestions(m: EntityTranslations, stored: seq<Suggestion>): (fetched: seq<Suggestion>)
    ensures forall s :: s in fetched <==> s in stored && MatchesQuery(m, s)
  {
    Filter(stored, s => MatchesQuery(m, s))
  }

  function Report(m: EntityTranslations, s: Suggestion): SuggestionReport {
    SuggestionReport(m.entityId, m.entityVersion, m.id, s.contentId, s.id)
  }

  /** A suggestion after the bot rejects it; `last_updated` is not
      modelled. */
  function Reject(s: Suggestion, botUserId: string): (r: Suggestion)
    ensures r.status == Rejected && r.finalReviewerId == Some(botUserId)
    ensures r.(status := s.status, finalReviewerId := s.finalReviewerId) == s
  {
    s.(status := Rejected, finalReviewerId := Some(botUserId))
  }

  /** Change mode: reject, in order, each fetched suggestion for content
      that is up to date. */
  function RejectSuggestions(m: EntityTranslations, fetched: seq<Suggestion>, upToDate: seq<string>,
                             botUserId: string): (r: seq<UpdatedSuggestion>)
    ensures |r| <= |fetched|
    ensures forall i :: 0 <= i < |r| ==>
              r[i].updatedSuggestion.status == Rejected
              && r[i].updatedSuggestion.finalReviewerId == Some(botUserId)
              && r[i].updatedSuggestion.contentId in upToDate
              && r[i].suggestionDict.suggestionId == r[i].updatedSuggestion.id
  {
    if |fetched| == 0 then []
    else
      var s := fetched[0];
      (if s.contentId in upToDate then [UpdatedSuggestion(Reject(s, botUserId), Report(m, s))] else [])
      + RejectSuggestions(m, fetched[1..], upToDate, botUserId)
  }

  /** Audit mode: the reports of the same suggestions, nothing changed. */
  function AuditSuggestions(m: EntityTranslations, fetched: seq<Suggestion>, upToDate: seq<string>): (r: seq<SuggestionReport>)
    ensures |r| <= |fetched|
    ensures forall i :: 0 <= i < |r| ==> r[i].contentId in upToDate && r[i].entityTranslationModelId == m.id
  {
    if |fetched| == 0 then []
    else
      var s := fetched[0];
      (if s.contentId in upToDate then [Report(m, s)] else [])
      + AuditSuggestions(m, fetched[1..], upToDate)
  }

  /** `ComputeSuggestionsInReviewForTranslatedContents.process`. */
  function ComputeSuggestionsInReview(m: EntityTranslations, stored: seq<Suggestion>, botUserId: string,
                                      isDatastoreChange: bool): (out: SuggestionsOutput)
    ensures out.UpdatedSuggestions? <==> isDatastoreChange
  {
    var upToDate := ContentIdsNotNeedingUpdate(m.translations);
    var fetched := FetchSuggestions(m, stored);
    if isDatastoreChange then UpdatedSuggestions(RejectSuggestions(m, fetched, upToDate, botUserId))
    else SuggestionDicts(AuditSuggestions(m, fetched, upToDate))
  }

  function ReportsOf(us: seq<UpdatedSuggestion>): (r: seq<SuggestionReport>)
    ensures |r| == |us|
  {
    seq(|us|, i requires 0 <= i < |us| => us[i].suggestionDict)
  }

  /** Audit mode yields exactly the reports change mode yields, in the
      same order. */
  lemma {:induction false} AuditMatchesChange(m: EntityTranslations, fetched: seq<Suggestion>,
                                              upToDate: seq<string>, botUserId: string)
    ensures AuditSuggestions(m, fetched, upToDate) == ReportsOf(RejectSuggestions(m, fetched, upToDate, botUserId))
    decreases |fetched|
  {
    if |fetched| > 0 {
      AuditMatchesChange(m, fetched[1..], upToDate, botUserId);
      var head := if fetched[0].contentId in upToDate
                  then [UpdatedSuggestion(Reject(fetched[0], botUserId), Report(m, fetched[0]))] else [];
      var tail := RejectSuggestions(m, fetched[1..], upToDate, botUserId);
      assert ReportsOf(head + tail) == ReportsOf(head) + ReportsOf(tail);
    }
  }

  /** Change mode rejects exactly the fetched suggestions for up-to-date
      content: each of those appears rejected by the bot, and every
      rejected suggestion is one of them with only its status and final
      reviewer changed. */
  lemma {:induction false} RejectsExactlyUpToDate(m: EntityTranslations, fetched: seq<Suggestion>,
                                                  upToDate: seq<string>, botUserId: string)
    ensures var r := RejectSuggestions(m, fetched, upToDate, botUserId);
            (forall s :: s in fetched && s.contentId in upToDate ==>
               UpdatedSuggestion(Reject(s, botUserId), Report(m, s)) in r)
            && (forall u :: u in r ==>
                  exists s :: s in fetched && s.contentId in upToDate
                              && u == UpdatedSuggestion(Reject(s, botUserId), Report(m, s)))
    decreases |fetched|
  {
    if |fetched| > 0 {
      RejectsExactlyUpToDate(m, fetched[1..], upToDate, botUserId);
      var r := RejectSuggestions(m, fetched, upToDate, botUserId);
      var tail := RejectSuggestions(m, fetched[1..], upToDate, botUserId);
      assert forall s :: s in fetched ==> s == fetched[0] || s in fetched[1..];
      assert forall u :: u in tail ==> u in r;
      assert forall u :: u in tail ==>
               exists s :: s in fetched[1..] && s.contentId in upToDate
                           && u == UpdatedSuggestion(Reject(s, botUserId), Report(m, s));
      forall u | u in r
        ensures exists s :: s in fetched && s.contentId in upToDate
                            && u == UpdatedSuggestion(Reject(s, botUserId), Report(m, s))
      {
        if u in tail {
          var s :| s in fetched[1..] && s.contentId in upToDate
                   && u == UpdatedSuggestion(Reject(s, botUserId), Report(m, s));
          assert s in fetched;
        } else {
          assert u == UpdatedSuggestion(Reject(fetched[0], botUserId), Report(m, fetched[0]));
        }
      }
    }
  }

  /** Whether the model holds an up-to-date translation of content `c`. */
  predicate IsUpToDate(m: EntityTranslations, c: string) {
    exists i :: 0 <= i < |m.translations| && m.translations[i].contentId == c
                && !m.translations[i].translation.needsUpdate
  }

  /** Audit mode reports every stored suggestion that the query fetches
      and whose content has an up-to-date translation. */
  lemma ReportsCoverUpToDate(m: EntityTranslations, stored: seq<Suggestion>, s: Suggestion)
    requires s in stored && MatchesQuery(m, s) && IsUpToDate(m, s.contentId)
    ensures Report(m, s) in ComputeSuggestionsInReview(m, stored, "", false).dicts
  {
    var upToDate := ContentIdsNotNeedingUpdate(m.translations);
    var fetched := FetchSuggestions(m, stored);
    var r := RejectSuggestions(m, fetched, upToDate, "");
    RejectsExactlyUpToDate(m, fetched, upToDate, "");
    AuditMatchesChange(m, fetched, upToDate, "");
    var u := UpdatedSuggestion(Reject(s, ""), Report(m, s));
    assert u in r;
    var k :| 0 <= k < |r| && r[k] == u;
    assert ReportsOf(r)[k] == Report(m, s);
  }

  /** Audit mode reports nothing else: every report is that of a stored
      suggestion the query fetches, for up-to-date content. */
  lemma ReportsOnlyUpToDate(m: EntityTranslations, stored: seq<Suggestion>, x: SuggestionReport)
    requires x in ComputeSuggestionsInReview(m, stored, "", false).dicts
    ensures exists s :: s in stored && MatchesQuery(m, s) && IsUpToDate(m, s.contentId) && x == Report(m, s)
  {
    var upToDate := ContentIdsNotNeedingUpdate(m.translations);
    var fetched := FetchSuggestions(m, stored);
    var r := RejectSuggestions(m, fetched, upToDate, "");
    var d := ComputeSuggestionsInReview(m, stored, "", false).dicts;
    RejectsExactlyUpToDate(m, fetched, upToDate, "");
    AuditMatchesChange(m, fetched, upToDate, "");
    assert d == ReportsOf(r);
    var k :| 0 <= k < |d| && d[k] == x;
    assert r[k] in r;
    var s :| s in fetched && s.contentId in upToDate
             && r[k] == UpdatedSuggestion(Reject(s, ""), Report(m, s));
    assert x == Report(m, s);
  }

  // ---------------------------------------------------------------------
  // Translations whose content id the exploration no longer has

  /** The dictionary reported for an invalid translation. */
  datatype InvalidTranslationReport = InvalidTranslationReport(
    entityId: string, entityVersion: int, entityTranslationModelId: string, contentId: string)

  /** The change-mode result record. */
  datatype PruneResult = PruneResult(
    entityTranslationModel: EntityTranslations, deletedTranslationsCount: nat,
    invalidTranslationDicts: seq<InvalidTranslationReport>)

  function InvalidReports(m: EntityTranslations, entries: seq<Entry>, expContentIds: set<string>)
    : (r: seq<InvalidTranslationReport>)
    ensures |r| <= |entries|
    ensures forall i :: 0 <= i < |r| ==> r[i].contentId !in expContentIds && r[i].entityTranslationModelId == m.id
  {
    if |entries| == 0 then []
    else
      (if entries[0].contentId !in expContentIds
       then [InvalidTranslationReport(m.entityId, m.entityVersion, m.id, entries[0].contentId)] else [])
      + InvalidReports(m, entries[1..], expContentIds)
  }

  /** The entries whose content id the exploration still has. */
  function ValidEntries(entries: seq<Entry>, expContentIds: set<string>): (r: seq<Entry>)
    ensures forall e :: e in r <==> e in entries && e.contentId in expContentIds
  {
    Filter(entries, (e: Entry) => e.contentId in expContentIds)
  }

  /** `ComputeTranslationsWithInvalidContentIds.process` in change mode:
      the result record when something was deleted, then always `None`. */
  function PruneTranslations(m: EntityTranslations, expContentIds: set<string>): (out: seq<Option<PruneResult>>)
    ensures |out| > 0 && out[|out| - 1].None?
  {
    var invalid := InvalidReports(m, m.translations, expContentIds);
    var remaining := ValidEntries(m.translations, expContentIds);
    var deleted := |invalid|;
    if deleted > 0 then
      [Some(PruneResult(m.(translations := remaining), deleted, invalid)), None]
    else [None]
  }

  /** Audit mode: the invalid ids reported, the model untouched. */
  function AuditInvalidTranslations(m: EntityTranslations, expContentIds: set<string>): (r: seq<InvalidTranslationReport>)
    ensures forall i :: 0 <= i < |r| ==> r[i].contentId !in expContentIds
  {
    InvalidReports(m, m.translations, expContentIds)
  }

  /** The number of entries whose content id is invalid. */
  lemma {:induction false} InvalidCount(m: EntityTranslations, entries: seq<Entry>, expContentIds: set<string>)
    ensures |InvalidReports(m, entries, expContentIds)| + |ValidEntries(entries, expContentIds)| == |entries|
    ensures forall e :: e in entries && e.contentId !in expContentIds ==>
              InvalidTranslationReport(m.entityId, m.entityVersion, m.id, e.contentId) in InvalidReports(m, entries, expContentIds)
    ensures forall r :: r in InvalidReports(m, entries, expContentIds) ==>
              exists e :: e in entries && e.contentId == r.contentId
    decreases |entries|
  {
    if |entries| > 0 {
      InvalidCount(m, entries[1..], expContentIds);
      assert forall e :: e in entries ==> e == entries[0] || e in entries[1..];
      assert forall e :: e in entries[1..] ==> e in entries;
    }
  }

  lemma DistinctKeysFilter(entries: seq<Entry>, expContentIds: set<string>)
    requires DistinctKeys(entries)
    ensures DistinctKeys(ValidEntries(entries, expContentIds))
    decreases |entries|
  {
    if |entries| > 0 {
      DistinctKeysFilter(entries[1..], expContentIds);
      var rest := ValidEntries(entries[1..], expContentIds);
      forall e | e in rest ensures e.contentId != entries[0].contentId {
        var k :| 0 <= k < |entries[1..]| && entries[1..][k] == e;
        assert entries[k + 1] == e;
      }
    }
  }

  /** After pruning in change mode every remaining key is translatable,
      every translatable entry is kept with its value, the keys stay
      distinct, and the deleted count is the number of entries removed,
      which is positive exactly when a result record is yielded. */
  lemma PruneSpec(m: EntityTranslations, expContentIds: set<string>)
    requires DistinctKeys(m.translations)
    ensures var out := PruneTranslations(m, expContentIds);
            var invalid := AuditInvalidTranslations(m, expContentIds);
            (|invalid| > 0 <==> exists e :: e in m.translations && e.contentId !in expContentIds)
            && (|invalid| > 0 <==> |out| == 2 && out[0].Some?)
            && (|invalid| == 0 ==> out == [None])
            && (|invalid| > 0 ==>
                  var p := out[0].value;
                  p.invalidTranslationDicts == invalid
                  && p.entityTranslationModel == m.(translations := p.entityTranslationModel.translations)
                  && DistinctKeys(p.entityTranslationModel.translations)
                  && (forall e :: e in p.entityTranslationModel.translations <==>
                                    e in m.translations && e.contentId in expContentIds)
                  && p.deletedTranslationsCount == |m.translations| - |p.entityTranslationModel.translations|)
  {
    InvalidCount(m, m.translations, expContentIds);
    DistinctKeysFilter(m.translations, expContentIds);
    var invalid := AuditInvalidTranslations(m, expContentIds);
    if |invalid| > 0 {
      assert invalid[0] in invalid;
      var e :| e in m.translations && e.contentId == invalid[0].contentId;
    }
  }

  // ---------------------------------------------------------------------
  // Recounting and picking the latest model

  /** `ComputeUpdatedExpOpportunityModel.process`: the count for the
      model's language becomes its number of translations. */
  function UpdateTranslationCounts(counts: map<string, nat>, m: EntityTranslations): (r: map<string, nat>)
    ensures r.Keys == counts.Keys + {m.languageCode}
    ensures r[m.languageCode] == |m.translations|
    ensures forall l :: l in counts && l != m.languageCode ==> r[l] == counts[l]
  {
    counts[m.languageCode := |m.translations|]
  }

  lemma {:induction false} DistinctKeyCount(entries: seq<Entry>)
    requires DistinctKeys(entries)
    ensures |KeySet(entries)| == |entries|
    decreases |entries|
  {
    if |entries| > 0 {
      DistinctKeyCount(entries[1..]);
      assert KeySet(entries) == {entries[0].contentId} + KeySet(entries[1..]);
      forall e | e in entries[1..] ensures e.contentId != entries[0].contentId {
        var k :| 0 <= k < |entries[1..]| && entries[1..][k] == e;
        assert entries[k + 1] == e;
      }
    }
  }

  /** The recorded count is the number of distinct content ids the model
      translates, the size of its `translations` dictionary. */
  lemma RecountIsKeyCount(counts: map<string, nat>, m: EntityTranslations)
    requires DistinctKeys(m.translations)
    ensures UpdateTranslationCounts(counts, m)[m.languageCode] == |KeySet(m.translations)|
  {
    DistinctKeyCount(m.translations);
  }

  /** Recounting a pruned model records, for its language, how many of the
      translated content ids the exploration still has; the other
      languages keep their counts. */
  lemma RecountAfterPrune(counts: map<string, nat>, m: EntityTranslations, expContentIds: set<string>)
    requires DistinctKeys(m.translations)
    requires PruneTranslations(m, expContentIds)[0].Some?
    ensures var p := PruneTranslations(m, expContentIds)[0].value.entityTranslationModel;
            var r := UpdateTranslationCounts(counts, p);
            r[m.languageCode] == |KeySet(m.translations) * expContentIds|
            && (forall l :: l in counts && l != m.languageCode ==> r[l] == counts[l])
  {
    PruneSpec(m, expContentIds);
    var p := PruneTranslations(m, expContentIds)[0].value.entityTranslationModel;
    DistinctKeyCount(p.translations);
    assert KeySet(p.translations) == KeySet(m.translations) * expContentIds;
  }

  /** The highest version among the models. */
  function MaxVersion(models: seq<EntityTranslations>): (v: int)
    requires |models| > 0
    ensures forall i :: 0 <= i < |models| ==> models[i].entityVersion <= v
    ensures exists i :: 0 <= i < |models| && models[i].entityVersion == v
  {
    if |models| == 1 then models[0].entityVersion
    else
      var rest := MaxVersion(models[1..]);
      assert forall i :: 1 <= i < |models| ==> models[i] == models[1..][i - 1];
      if models[0].entityVersion >= rest then models[0].entityVersion else rest
  }

  /** `GetLatestModel.process`: the first model, in list order, that has
      the highest version, paired with the entity id. */
  method GetLatestModel(entityId: string, models: seq<EntityTranslations>)
    returns (id: string, latest: EntityTranslations)
    requires |models| > 0
    ensures id == entityId
    ensures latest.entityVersion == MaxVersion(models)
    ensures exists i :: 0 <= i < |models| && models[i] == latest
                        && forall j :: 0 <= j < i ==> models[j].entityVersion < latest.entityVersion
  {
    var latestVersion := models[0].entityVersion;
    var k := 1;
    while k < |models|
      invariant 1 <= k <= |models|
      invariant forall j :: 0 <= j < k ==> models[j].entityVersion <= latestVersion
      invariant exists j :: 0 <= j < k && models[j].entityVersion == latestVersion
    {
      if models[k].entityVersion > latestVersion {
        latestVersion := models[k].entityVersion;
      }
      k := k + 1;
    }
    assert latestVersion == MaxVersion(models);
    var i := 0;
    while models[i].entityVersion != latestVersion
      invariant 0 <= i < |models|
      invariant forall j :: 0 <= j < i ==> models[j].entityVersion < latestVersion
      decreases |models| - i
    {
      i := i + 1;
    }
    latest := models[i];
    id := entityId;
  }
}
