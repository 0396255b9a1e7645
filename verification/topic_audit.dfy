/** The audit that every topic has its rights record and its summary
    record. The job reads the three kinds of records, leaving out those
    marked deleted, and checks each topic against all rights and summary
    records; the Beam collections become sequences. */
module TopicAudit {

  /** A `TopicModel`, with the fields the audit reads. */
  datatype TopicModel = TopicModel(id: string, name: string, deleted: bool)

  /** A `TopicRightsModel` or a `TopicSummaryModel`: the audit reads only
      the id and the deletion mark. */
  datatype RelatedModel = RelatedModel(id: string, deleted: bool)

  /** The kind of record a topic lacks. */
  datatype TargetKind = TopicRightsModel | TopicSummaryModel

  /** A `ModelRelationshipError` raised for a topic: the property is
      always the topic's `name`, so it is not stored. */
  datatype ModelRelationshipError = ModelRelationshipError(modelId: string, targetKind: TargetKind, targetId: string)

  /** Python's `any(model.id == id for model in models)`. */
  function AnyHasId(models: seq<RelatedModel>, id: string): (b: bool)
    ensures b <==> exists i :: 0 <= i < |models| && models[i].id == id
  {
    if |models| == 0 then false
    else if models[0].id == id then true
    else
      var b := AnyHasId(models[1..], id);
      assert forall i :: 1 <= i < |models| ==> models[i] == models[1..][i - 1];
      b
  }

  /** The error raised when `topic` lacks a record of `kind`. */
  function MissingError(topic: TopicModel, kind: TargetKind): ModelRelationshipError {
    ModelRelationshipError(topic.id, kind, topic.name)
  }

  /** `_validate_topic_models`: a rights error when no rights record has
      the topic's id, then a summary error when no summary record does. */
  function ValidateTopicModels(topic: TopicModel, rights: seq<RelatedModel>,
                               summaries: seq<RelatedModel>): (errors: seq<ModelRelationshipError>)
    ensures |errors| <= 2
    ensures forall i :: 0 <= i < |errors| ==> errors[i].modelId == topic.id && errors[i].targetId == topic.name
  {
    (if AnyHasId(rights, topic.id) then [] else [MissingError(topic, TopicRightsModel)])
    + (if AnyHasId(summaries, topic.id) then [] else [MissingError(topic, TopicSummaryModel)])
  }

  /** Whether some record in `models` has id `id`. */
  predicate HasRecord(models: seq<RelatedModel>, id: string) {
    exists m :: m in models && m.id == id
  }

  /** Whether the audit raised an error of `kind`. */
  predicate Reports(errors: seq<ModelRelationshipError>, kind: TargetKind) {
    exists e :: e in errors && e.targetKind == kind
  }

  /** A rights error is raised exactly when no rights record has the
      topic's id, and a summary error exactly when no summary record
      does. */
  lemma ErrorsIff(topic: TopicModel, rights: seq<RelatedModel>, summaries: seq<RelatedModel>)
    ensures var errors := ValidateTopicModels(topic, rights, summaries);
            (Reports(errors, TopicRightsModel) <==> !HasRecord(rights, topic.id))
            && (Reports(errors, TopicSummaryModel) <==> !HasRecord(summaries, topic.id))
  {
    var errors := ValidateTopicModels(topic, rights, summaries);
    if HasRecord(rights, topic.id) {
      var m :| m in rights && m.id == topic.id;
      var k :| 0 <= k < |rights| && rights[k] == m;
    }
    if HasRecord(summaries, topic.id) {
      var m :| m in summaries && m.id == topic.id;
      var k :| 0 <= k < |summaries| && summaries[k] == m;
    }
    if !AnyHasId(rights, topic.id) {
      assert errors[0] in errors;
    }
    if !AnyHasId(summaries, topic.id) {
      assert errors[|errors| - 1] in errors;
    }
  }

  /** A topic passes exactly when it has both records; otherwise the
      rights error, if any, comes before the summary error. */
  lemma NoErrorsIff(topic: TopicModel, rights: seq<RelatedModel>, summaries: seq<RelatedModel>)
    ensures var errors := ValidateTopicModels(topic, rights, summaries);
            (errors == [] <==> HasRecord(rights, topic.id) && HasRecord(summaries, topic.id))
            && (|errors| == 2 ==> errors[0].targetKind == TopicRightsModel
                                  && errors[1].targetKind == TopicSummaryModel)
  {
    var errors := ValidateTopicModels(topic, rights, summaries);
    ErrorsIff(topic, rights, summaries);
    if errors != [] {
      assert errors[0] in errors;
    }
  }

  /** The records the job reads: those not marked deleted. */
  function Live(models: seq<RelatedModel>): (r: seq<RelatedModel>)
    ensures forall m :: m in r <==> m in models && !m.deleted
  {
    if |models| == 0 then []
    else (if models[0].deleted then [] else [models[0]]) + Live(models[1..])
  }

  /** The whole job: every live topic checked against the live rights and
      summary records, the errors gathered in topic order. */
  function ValidateTopicModelsJob(topics: seq<TopicModel>, rights: seq<RelatedModel>,
                                  summaries: seq<RelatedModel>): (errors: seq<ModelRelationshipError>)
    ensures |errors| <= 2 * |topics|
  {
    if |topics| == 0 then []
    else
      (if topics[0].deleted then [] else ValidateTopicModels(topics[0], Live(rights), Live(summaries)))
      + ValidateTopicModelsJob(topics[1..], rights, summaries)
  }

  /** Each topic is audited on its own: the job over two groups of topics
      raises the errors of the first group followed by those of the
      second. */
  lemma {:induction false} JobSplits(ts1: seq<TopicModel>, ts2: seq<TopicModel>,
                                     rights: seq<RelatedModel>, summaries: seq<RelatedModel>)
    ensures ValidateTopicModelsJob(ts1 + ts2, rights, summaries)
            == ValidateTopicModelsJob(ts1, rights, summaries) + ValidateTopicModelsJob(ts2, rights, summaries)
    decreases |ts1|
  {
    if |ts1| == 0 {
      assert ts1 + ts2 == ts2;
    } else {
      assert (ts1 + ts2)[1..] == ts1[1..] + ts2;
      JobSplits(ts1[1..], ts2, rights, summaries);
    }
  }

  /** A deleted rights record does not count: a topic whose only rights
      record is deleted raises the rights error. */
  lemma DeletedRecordIgnored(topic: TopicModel, summaries: seq<RelatedModel>)
    requires !topic.deleted
    ensures var errors := ValidateTopicModelsJob([topic], [RelatedModel(topic.id, true)], summaries);
            |errors| >= 1 && errors[0] == ModelRelationshipError(topic.id, TopicRightsModel, topic.name)
  {
    assert Live([RelatedModel(topic.id, true)]) == [];
  }

  /** The job over one topic is the audit of that topic, if it is live. */
  lemma JobSingle(t: TopicModel, rights: seq<RelatedModel>, summaries: seq<RelatedModel>)
    ensures ValidateTopicModelsJob([t], rights, summaries)
            == if t.deleted then [] else ValidateTopicModels(t, Live(rights), Live(summaries))
  {
    assert [t][1..] == [];
  }

  /** The records of the three-topic example: ids differ in their last
      character. */
  const ExampleRights: seq<RelatedModel> := [RelatedModel("topic_1", false), RelatedModel("topic_3", false)]
  const ExampleSummaries: seq<RelatedModel> := [RelatedModel("topic_1", false), RelatedModel("topic_2", false)]

  lemma ExampleTopicValid()
    ensures ValidateTopicModels(TopicModel("topic_1", "topic_1", false), ExampleRights, ExampleSummaries) == []
  {
    assert ExampleRights[0].id == "topic_1";
    assert ExampleSummaries[0].id == "topic_1";
  }

  lemma ExampleTopicWithoutRights()
    ensures ValidateTopicModels(TopicModel("topic_2", "topic_2", false), ExampleRights, ExampleSummaries)
            == [ModelRelationshipError("topic_2", TopicRightsModel, "topic_2")]
  {
    assert "topic_1"[6] != "topic_2"[6] && "topic_3"[6] != "topic_2"[6];
    assert ExampleSummaries[1].id == "topic_2";
  }

  lemma ExampleTopicWithoutSummary()
    ensures ValidateTopicModels(TopicModel("topic_3", "topic_3", false), ExampleRights, ExampleSummaries)
            == [ModelRelationshipError("topic_3", TopicSummaryModel, "topic_3")]
  {
    assert "topic_1"[6] != "topic_3"[6] && "topic_2"[6] != "topic_3"[6];
    assert ExampleRights[1].id == "topic_3";
  }

  /** The job over three live topics gathers their audits in order. */
  lemma JobOfThree(t1: TopicModel, t2: TopicModel, t3: TopicModel,
                   rights: seq<RelatedModel>, summaries: seq<RelatedModel>)
    requires !t1.deleted && !t2.deleted && !t3.deleted
    ensures ValidateTopicModelsJob([t1, t2, t3], rights, summaries)
            == ValidateTopicModels(t1, Live(rights), Live(summaries))
               + ValidateTopicModels(t2, Live(rights), Live(summaries))
               + ValidateTopicModels(t3, Live(rights), Live(summaries))
  {
    JobSingle(t1, rights, summaries);
    JobSingle(t2, rights, summaries);
    JobSingle(t3, rights, summaries);
    JobSplits([t2], [t3], rights, summaries);
    assert [t2, t3] == [t2] + [t3];
    JobSplits([t1], [t2, t3], rights, summaries);
    assert [t1, t2, t3] == [t1] + [t2, t3];
  }

  lemma ExampleRecordsLive()
    ensures Live(ExampleRights) == ExampleRights && Live(ExampleSummaries) == ExampleSummaries
  {
    assert ExampleRights[1..][1..] == [] && ExampleSummaries[1..][1..] == [];
  }

  /** Three topics: the first has both records, the second lacks its
      rights record, the third its summary record. */
  lemma MixedTopicsExample()
    ensures ValidateTopicModelsJob(
              [TopicModel("topic_1", "topic_1", false), TopicModel("topic_2", "topic_2", false),
               TopicModel("topic_3", "topic_3", false)],
              ExampleRights, ExampleSummaries)
            == [ModelRelationshipError("topic_2", TopicRightsModel, "topic_2"),
                ModelRelationshipError("topic_3", TopicSummaryModel, "topic_3")]
  {
    JobOfThree(TopicModel("topic_1", "topic_1", false), TopicModel("topic_2", "topic_2", false),
               TopicModel("topic_3", "topic_3", false), ExampleRights, ExampleSummaries);
    ExampleRecordsLive();
    ExampleTopicValid();
    ExampleTopicWithoutRights();
    ExampleTopicWithoutSummary();
  }
}
