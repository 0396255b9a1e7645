/** The Cloud Translate emulator: a table of expected responses keyed by
    source language, target language and text, a default answer for
    anything else, and language codes checked before the lookup. The table
    is the class-level dictionary itself, shared by every emulator and
    changed in place by `add_expected_response`, so it is modelled as one
    map threaded through the calls. Whether a language code is allowed is
    a parameter. */
module CloudTranslateEmulator {

  import opened Wrappers

  /** The key of an expected response. */
  datatype TranslationKey = TranslationKey(source: string, target: string, text: string)

  const PregeneratedTranslations: map<TranslationKey, string> := map[
    TranslationKey("en", "pt", "hello world") := "Olá Mundo",
    TranslationKey("en", "pt", "CONTINUE") := "PROSSEGUIR",
    TranslationKey("en", "es", "Please continue.") := "Por favor continua.",
    TranslationKey("en", "fr", "CONTINUE") := "CONTINUEZ",
    TranslationKey("en", "fr", "Please continue.") := "Continuez s&#39;il vous plaît.",
    TranslationKey("en", "es", "CONTINUE") := "SEGUIR",
    TranslationKey("en", "zh", "hello world") := "你好世界",
    TranslationKey("en", "es", "Correct!") := "¡Correcto!",
    TranslationKey("en", "zh", "Correct!") := "正确的！",
    TranslationKey("en", "zh", "CONTINUE") := "继续",
    TranslationKey("en", "zh", "Please continue.") := "请继续。",
    TranslationKey("en", "fr", "Correct!") := "Correct!",
    TranslationKey("en", "pt", "Correct!") := "Correto!",
    TranslationKey("en", "es", "hello world") := "Hola Mundo",
    TranslationKey("en", "pt", "Please continue.") := "Por favor continue.",
    TranslationKey("en", "fr", "hello world") := "Bonjour le monde"
  ]

  const DefaultResponse: string :=
    "Default translation for emulator mode. (See core/platform/cloud_translate/cloud_translate_emulator.py for details)"

  /** The `ValueError`s `translate` raises. */
  datatype TranslateError = InvalidSourceLanguageCode(code: string) | InvalidTargetLanguageCode(code: string)

  function Message(e: TranslateError): string {
    match e
    case InvalidSourceLanguageCode(c) => "Invalid source language code: " + c
    case InvalidTargetLanguageCode(c) => "Invalid target language code: " + c
  }

  /** A new emulator's table is the shared table itself, additions made
      through earlier emulators included. */
  function NewEmulator(shared: map<TranslationKey, string>): map<TranslationKey, string> {
    shared
  }

  /** `translate`: the source code is checked first, then the target code;
      then the stored response, or the default one. */
  function Translate(table: map<TranslationKey, string>, text: string, source: string, target: string,
                     isValidLanguageCode: string -> bool): (r: Result<string, TranslateError>)
    ensures r.Failure? <==> !isValidLanguageCode(source) || !isValidLanguageCode(target)
    ensures !isValidLanguageCode(source) ==> r == Failure(InvalidSourceLanguageCode(source))
    ensures isValidLanguageCode(source) && !isValidLanguageCode(target) ==>
              r == Failure(InvalidTargetLanguageCode(target))
  {
    if !isValidLanguageCode(source) then Failure(InvalidSourceLanguageCode(source))
    else if !isValidLanguageCode(target) then Failure(InvalidTargetLanguageCode(target))
    else
      var key := TranslationKey(source, target, text);
      Success(if key in table then table[key] else DefaultResponse)
  }

  /** `add_expected_response`: records one response, replacing any earlier
      one for the same key. */
  function AddExpectedResponse(table: map<TranslationKey, string>, source: string, target: string,
                               sourceText: string, response: string): (t: map<TranslationKey, string>)
    ensures t.Keys == table.Keys + {TranslationKey(source, target, sourceText)}
    ensures t[TranslationKey(source, target, sourceText)] == response
    ensures forall k :: k in table && k != TranslationKey(source, target, sourceText) ==> t[k] == table[k]
  {
    table[TranslationKey(source, target, sourceText) := response]
  }

  /** With valid codes, a translation answers what the table holds for its
      key, and the default for a key it lacks. */
  lemma TranslateLooksUp(table: map<TranslationKey, string>, text: string, source: string, target: string,
                         isValidLanguageCode: string -> bool)
    requires isValidLanguageCode(source) && isValidLanguageCode(target)
    ensures var key := TranslationKey(source, target, text);
            var r := Translate(table, text, source, target, isValidLanguageCode);
            (key in table ==> r == Success(table[key]))
            && (key !in table ==> r == Success(DefaultResponse))
  {
  }

  /** A recorded response is what the emulator answers for its key from
      then on, and every other query answers as before. */
  lemma AddThenTranslate(table: map<TranslationKey, string>, source: string, target: string,
                         sourceText: string, response: string, isValidLanguageCode: string -> bool)
    ensures var t := AddExpectedResponse(table, source, target, sourceText, response);
            (isValidLanguageCode(source) && isValidLanguageCode(target) ==>
               Translate(t, sourceText, source, target, isValidLanguageCode) == Success(response))
            && forall text, s, g :: TranslationKey(s, g, text) != TranslationKey(source, target, sourceText) ==>
                 Translate(t, text, s, g, isValidLanguageCode) == Translate(table, text, s, g, isValidLanguageCode)
  {
  }

  /** One call of `add_expected_response`, through whichever emulator. */
  datatype Addition = Addition(source: string, target: string, sourceText: string, response: string)

  function KeyOf(a: Addition): TranslationKey {
    TranslationKey(a.source, a.target, a.sourceText)
  }

  /** The shared table after a run of additions, made in order. */
  function ApplyAdds(table: map<TranslationKey, string>, adds: seq<Addition>): map<TranslationKey, string>
    decreases |adds|
  {
    if |adds| == 0 then table
    else
      var a := adds[|adds| - 1];
      AddExpectedResponse(ApplyAdds(table, adds[..|adds| - 1]), a.source, a.target, a.sourceText, a.response)
  }

  /** A key no addition names keeps what it had. */
  lemma {:induction false} UntouchedKeyKept(table: map<TranslationKey, string>, adds: seq<Addition>,
                                            key: TranslationKey)
    requires forall i :: 0 <= i < |adds| ==> KeyOf(adds[i]) != key
    ensures key in ApplyAdds(table, adds) <==> key in table
    ensures key in table ==> ApplyAdds(table, adds)[key] == table[key]
    decreases |adds|
  {
    if |adds| > 0 {
      var init := adds[..|adds| - 1];
      assert forall i :: 0 <= i < |init| ==> init[i] == adds[i];
      UntouchedKeyKept(table, init, key);
      assert KeyOf(adds[|adds| - 1]) != key;
    }
  }

  /** A key holds the response of the last addition for it. */
  lemma {:induction false} LastAdditionWins(table: map<TranslationKey, string>, adds: seq<Addition>,
                                            key: TranslationKey, i: nat)
    requires i < |adds| && KeyOf(adds[i]) == key
    requires forall j :: i < j < |adds| ==> KeyOf(adds[j]) != key
    ensures key in ApplyAdds(table, adds) && ApplyAdds(table, adds)[key] == adds[i].response
    decreases |adds|
  {
    var init := adds[..|adds| - 1];
    if i < |adds| - 1 {
      assert forall j :: 0 <= j < |init| ==> init[j] == adds[j];
      LastAdditionWins(table, init, key, i);
      assert KeyOf(adds[|adds| - 1]) != key;
    }
  }

  /** What an emulator created over `start` plus a run of additions
      answers for a key, with valid language codes. */
  lemma SharedTableAnswers(start: map<TranslationKey, string>, adds: seq<Addition>, key: TranslationKey,
                           isValidLanguageCode: string -> bool)
    requires isValidLanguageCode(key.source) && isValidLanguageCode(key.target)
    ensures var r := Translate(NewEmulator(ApplyAdds(start, adds)), key.text, key.source, key.target,
                               isValidLanguageCode);
            (forall i :: 0 <= i < |adds| && KeyOf(adds[i]) == key
                         && (forall j :: i < j < |adds| ==> KeyOf(adds[j]) != key) ==>
               r == Success(adds[i].response))
            && ((forall i :: 0 <= i < |adds| ==> KeyOf(adds[i]) != key) ==>
                  r == Success(if key in start then start[key] else DefaultResponse))
  {
    assert key == TranslationKey(key.source, key.target, key.text);
    forall i | 0 <= i < |adds| && KeyOf(adds[i]) == key
               && (forall j :: i < j < |adds| ==> KeyOf(adds[j]) != key)
      ensures key in ApplyAdds(start, adds) && ApplyAdds(start, adds)[key] == adds[i].response
    {
      LastAdditionWins(start, adds, key, i);
    }
    if forall i :: 0 <= i < |adds| ==> KeyOf(adds[i]) != key {
      UntouchedKeyKept(start, adds, key);
    }
  }

  /** The table is shared: an emulator created after any number of
      additions, made through any emulators, answers a key with the
      response of the last addition for it, and a key no addition names
      with its pregenerated translation or the default response. */
  lemma AdditionsAreShared(adds: seq<Addition>, n: nat, key: TranslationKey,
                           isValidLanguageCode: string -> bool)
    requires n <= |adds|
    requires isValidLanguageCode(key.source) && isValidLanguageCode(key.target)
    ensures var r := Translate(NewEmulator(ApplyAdds(PregeneratedTranslations, adds[..n])),
                               key.text, key.source, key.target, isValidLanguageCode);
            (forall i :: 0 <= i < n && KeyOf(adds[i]) == key
                         && (forall j :: i < j < n ==> KeyOf(adds[j]) != key) ==>
               r == Success(adds[i].response))
            && ((forall i :: 0 <= i < n ==> KeyOf(adds[i]) != key) ==>
                  r == Success(if key in PregeneratedTranslations then PregeneratedTranslations[key]
                               else DefaultResponse))
  {
    var prefix := adds[..n];
    assert forall i :: 0 <= i < n ==> prefix[i] == adds[i];
    SharedTableAnswers(PregeneratedTranslations, prefix, key, isValidLanguageCode);
  }

  /** Two of the pregenerated entries, and the default for a phrase the
      table lacks. */
  lemma PregeneratedExamples(isValidLanguageCode: string -> bool)
    requires isValidLanguageCode("en") && isValidLanguageCode("es") && isValidLanguageCode("zh")
    ensures Translate(PregeneratedTranslations, "hello world", "en", "es", isValidLanguageCode)
            == Success("Hola Mundo")
    ensures Translate(PregeneratedTranslations, "CONTINUE", "en", "zh", isValidLanguageCode)
            == Success("继续")
    ensures Translate(PregeneratedTranslations, "Goodbye", "en", "es", isValidLanguageCode)
            == Success(DefaultResponse)
  {
    assert TranslationKey("en", "es", "Goodbye") !in PregeneratedTranslations by {
      assert forall k :: k in PregeneratedTranslations ==> k.text != "Goodbye";
    }
  }
}
