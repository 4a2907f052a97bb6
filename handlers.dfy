/** The three POST endpoints of the backend (backend/index.js): request
    validation, then the providers in their order of preference, then a
    placeholder answer. HTTP itself is not modelled: a handler maps the
    request body and what each provider returned to a response. */
module Handlers {
  import opened Seqs
  import opened JsValues
  import opened Text
  import opened Sentences
  import opened Labels
  import opened Decoder
  import opened Classify
  import opened Vocab

  /** The `provider` field of a successful response. */
  datatype Provider = Gemini | LibreTranslate | Fallback

  function ProviderTag(p: Provider): string {
    match p
    case Gemini => "gemini"
    case LibreTranslate => "libretranslate"
    case Fallback => "fallback"
  }

  /** The three tags differ, so the `provider` string of a response tells
      which provider answered. */
  lemma ProviderTagInjective(p: Provider, q: Provider)
    requires ProviderTag(p) == ProviderTag(q)
    ensures p == q
  {
    assert ProviderTag(Gemini)[0] == 'g' && ProviderTag(LibreTranslate)[0] == 'l' && ProviderTag(Fallback)[0] == 'f';
  }

  /** A response: status 400 with an `error` message, or status 200 with a
      body and the provider that produced it. */
  datatype Response<R> = BadRequest(error: string) | Ok(body: R, provider: Provider)

  function Status<R>(r: Response<R>): int {
    if r.BadRequest? then 400 else 200
  }

  /** What the handler made of one provider: an accepted answer, or `None`
      when the provider was skipped (no API key), threw, or gave an answer
      the handler rejects. */
  datatype Attempt<R> = Attempt(provider: Provider, outcome: Option<R>)

  predicate Fails<R>(a: Attempt<R>) {
    a.outcome.None?
  }

  /** The fallback chain: the answer of the first provider that succeeds,
      the placeholder when none does. */
  function FirstSuccess<R>(attempts: seq<Attempt<R>>, placeholder: R): (r: (R, Provider))
    ensures (forall j | 0 <= j < |attempts| :: Fails(attempts[j])) ==> r == (placeholder, Fallback)
    ensures forall i | 0 <= i < |attempts| && !Fails(attempts[i]) && (forall j | 0 <= j < i :: Fails(attempts[j])) ::
      r == (attempts[i].outcome.value, attempts[i].provider)
    decreases |attempts|
  {
    if attempts == [] then (placeholder, Fallback)
    else
      assert forall i | 1 <= i < |attempts| :: attempts[i] == attempts[1..][i - 1];
      if attempts[0].outcome.Some? then (attempts[0].outcome.value, attempts[0].provider)
      else FirstSuccess(attempts[1..], placeholder)
  }

  /** The chain of one provider. */
  lemma OneProvider<R>(a: Attempt<R>, placeholder: R)
    ensures FirstSuccess([a], placeholder)
         == if a.outcome.Some? then (a.outcome.value, a.provider) else (placeholder, Fallback)
  {
    assert [a][1..] == [];
  }

  /** The chain of two providers. */
  lemma TwoProviders<R>(a: Attempt<R>, b: Attempt<R>, placeholder: R)
    ensures FirstSuccess([a, b], placeholder)
         == if a.outcome.Some? then (a.outcome.value, a.provider) else FirstSuccess([b], placeholder)
  {
    assert [a, b][1..] == [b];
  }

  /** Providers that fail before the first success make no difference. */
  lemma {:induction false} FailuresAreSkipped<R>(failed: seq<Attempt<R>>, rest: seq<Attempt<R>>, placeholder: R)
    requires forall j | 0 <= j < |failed| :: Fails(failed[j])
    ensures FirstSuccess(failed + rest, placeholder) == FirstSuccess(rest, placeholder)
    decreases |failed|
  {
    if failed != [] {
      assert (failed + rest)[0] == failed[0];
      assert (failed + rest)[1..] == failed[1..] + rest;
      assert forall j | 0 <= j < |failed| - 1 :: failed[1..][j] == failed[j + 1];
      FailuresAreSkipped(failed[1..], rest, placeholder);
    } else {
      assert failed + rest == rest;
    }
  }

  /** Once a provider has succeeded, the providers after it are never
      consulted. */
  lemma {:induction false} LaterProvidersIgnored<R>(first: seq<Attempt<R>>, later: seq<Attempt<R>>, placeholder: R)
    requires exists i | 0 <= i < |first| :: !Fails(first[i])
    ensures FirstSuccess(first + later, placeholder) == FirstSuccess(first, placeholder)
    decreases |first|
  {
    assert (first + later)[0] == first[0];
    if first[0].outcome.None? {
      assert (first + later)[1..] == first[1..] + later;
      var i :| 0 <= i < |first| && !Fails(first[i]);
      assert first[1..][i - 1] == first[i];
      LaterProvidersIgnored(first[1..], later, placeholder);
    }
  }

  /** The parts of the backend's environment the handlers depend on: the
      pictographic class of the regular-expression engine and `JSON.parse`. */
  datatype Runtime = Runtime(pict: PictClass, jsonParse: string -> Option<Json>)

  /** `req.body && typeof req.body[key] === 'string' ? req.body[key] : ''`. */
  function RequestText(body: Json, key: string): (r: string)
    ensures StringField(body, key).Some? ==> r == StringField(body, key).value
    ensures StringField(body, key).None? ==> r == ""
  {
    match StringField(body, key)
    case Some(s) => s
    case None => ""
  }

  // ---------------------------------------------------------------------
  // POST /api/classify

  /** The classification accepted from the model's reply, if any; `reply`
      is `None` when the model was not asked or the call threw. */
  function GeminiClassification(reply: Option<Json>, sentences: seq<string>, rt: Runtime): Option<seq<Classified>> {
    if reply.None? then None else AcceptClassification(ParseGeminiJson(reply.value, rt.jsonParse), sentences)
  }

  /** The sentences of a classification request. */
  function RequestSentences(body: Json, rt: Runtime): seq<string> {
    SplitSentences(Sanitize(RequestText(body, "text"), rt.pict))
  }

  /** `POST /api/classify`: 400 when the text has no sentence; otherwise the
      model's classification when it is usable, the heuristic one otherwise. */
  function ClassifyHandler(body: Json, gemini: Option<Json>, rt: Runtime): (r: Response<seq<Classified>>)
    ensures Status(r) == 400 <==> RequestSentences(body, rt) == []
    ensures r.BadRequest? ==> r.error == "No text provided"
    ensures r.Ok? ==> r.body != [] && forall i | 0 <= i < |r.body| :: HasOriginal(r.body[i]) && IsLabel(r.body[i].typeVi)
    ensures r.Ok? ==> (r.provider == Gemini <==> GeminiClassification(gemini, RequestSentences(body, rt), rt).Some?)
    ensures r.Ok? && r.provider == Gemini ==>
      r.body == GeminiClassification(gemini, RequestSentences(body, rt), rt).value
    ensures r.Ok? && r.provider != Gemini ==>
      r.provider == Fallback && r.body == HeuristicClassify(RequestSentences(body, rt), rt.pict)
  {
    var sentences := RequestSentences(body, rt);
    if sentences == [] then BadRequest("No text provided")
    else
      var heuristic := HeuristicClassify(sentences, rt.pict);
      assert forall i | 0 <= i < |heuristic| :: HasOriginal(heuristic[i]) && IsLabel(heuristic[i].typeVi) by {
        forall i | 0 <= i < |heuristic| ensures HasOriginal(heuristic[i]) && IsLabel(heuristic[i].typeVi) {
          assert heuristic[i].original == sentences[i];
          assert TypeLabels[heuristic[i].sentenceType] in TypeLabels.Values;
        }
      }
      var chosen := FirstSuccess([Attempt(Gemini, GeminiClassification(gemini, sentences, rt))], heuristic);
      OneProvider(Attempt(Gemini, GeminiClassification(gemini, sentences, rt)), heuristic);
      Ok(chosen.0, chosen.1)
  }

  /** The classifier answers 400 exactly when the sanitised text consists of
      whitespace and sentence terminators only, whatever the model says. */
  lemma ClassifyRejectsIff(body: Json, gemini: Option<Json>, rt: Runtime)
    ensures ClassifyHandler(body, gemini, rt).BadRequest? <==>
      var text := Sanitize(RequestText(body, "text"), rt.pict);
      forall k | 0 <= k < |text| :: IsWs(text[k]) || IsTerminator(text[k])
  {
    SplitEmptyIff(Sanitize(RequestText(body, "text"), rt.pict));
  }

  /** Without a usable model answer every sentence of the request gets its
      heuristic entry, whose normalised text is the sentence itself. */
  lemma ClassifyFallbackEntries(body: Json, gemini: Option<Json>, rt: Runtime)
    requires ClassifyHandler(body, gemini, rt).Ok? && ClassifyHandler(body, gemini, rt).provider == Fallback
    ensures var r := ClassifyHandler(body, gemini, rt);
      var sentences := RequestSentences(body, rt);
      |r.body| == |sentences|
      && forall i | 0 <= i < |sentences| ::
        r.body[i].original == sentences[i] && r.body[i].normalized == sentences[i]
        && r.body[i].sentenceType == HeuristicType(sentences[i])
  {
    HeuristicNormalizedIsOriginal(RequestText(body, "text"), rt.pict);
  }

  /** A command such as `食べてください。` sent while the model is
      unavailable: one sentence, classified by the heuristic as an
      imperative labelled "Câu mệnh lệnh". */
  lemma ClassifyCommandWithoutModel(s: string, rt: Runtime)
    requires s != "" && NoEdgeWs(s) && IsClean(s, rt.pict) && NoneIn(s, IsTerminator)
    requires EndsWith(s, "ください") && !rt.pict('。')
    ensures ClassifyHandler(JObject(map["text" := JString(s + "。")]), None, rt)
         == Ok([CommandEntry(s)], Fallback)
  {
    var body := JObject(map["text" := JString(s + "。")]);
    CommandSentences(s, rt);
    ClassifyWithoutModel(body, rt);
    HeuristicCommandEntry(s, rt.pict);
  }

  /** The fallback entry of a command sentence. */
  function CommandEntry(s: string): Classified {
    Classified(s, s, Imperative, "Câu mệnh lệnh", MainIdea(s), "Thực hiện yêu cầu được nêu (placeholder)")
  }

  lemma HeuristicCommandEntry(s: string, pict: PictClass)
    requires NoEdgeWs(s) && IsClean(s, pict) && EndsWith(s, "ください")
    ensures HeuristicClassify([s], pict) == [CommandEntry(s)]
  {
    assert HeuristicClassify([s], pict) == [HeuristicEntry(s, pict)];
    SanitizeFixedPoint(s, pict);
    assert EndsWithCommand(s);
    ImperativeLabel();
  }

  /** The instance `食べてください。` ("please eat"), for any pictographic
      class that holds none of its characters (the Unicode class holds
      none). */
  lemma ClassifyTabeteKudasai(rt: Runtime)
    requires NoneIn("食べてください。", rt.pict)
    ensures ClassifyHandler(JObject(map["text" := JString("食べてください。")]), None, rt)
         == Ok([CommandEntry("食べてください")], Fallback)
  {
    var s := "食べてください";
    TabeteKudasaiFacts(rt.pict);
    assert s + "。" == "食べてください。";
    ClassifyCommandWithoutModel(s, rt);
  }

  lemma TabeteKudasaiFacts(pict: PictClass)
    requires NoneIn("食べてください。", pict)
    ensures var s := "食べてください";
      s != "" && NoEdgeWs(s) && IsClean(s, pict) && NoneIn(s, IsTerminator)
      && EndsWith(s, "ください") && !pict('。')
  {
    var t := "食べてください。";
    assert t[7] == '。';
    assert forall k | 0 <= k < 7 :: "食べてください"[k] == t[k];
    TabeteKudasaiChars(pict);
    TabeteKudasaiEnding();
  }

  lemma TabeteKudasaiChars(pict: PictClass)
    requires NoneIn("食べてください", pict)
    ensures var s := "食べてください";
      NoEdgeWs(s) && IsClean(s, pict) && NoneIn(s, IsTerminator)
  {
    var s := "食べてください";
    forall k | 0 <= k < |s| ensures !IsWs(s[k]) && !IsCrOrTab(s[k]) && !IsTerminator(s[k]) {
      assert '\U{3040}' < s[k] < '\U{9FFF}';
      KanaOrKanji(s[k]);
    }
  }

  /** A character between U+3041 and U+9FFE is neither whitespace, a
      terminator, a carriage return nor a tab. */
  lemma KanaOrKanji(c: char)
    requires '\U{3040}' < c < '\U{9FFF}'
    ensures !IsWs(c) && !IsCrOrTab(c) && !IsTerminator(c)
  {
  }

  lemma TabeteKudasaiEnding()
    ensures EndsWith("食べてください", "ください")
  {
    assert "食べてください"[3..] == "ください";
  }

  /** Without the model the heuristic classifies every sentence. */
  lemma ClassifyWithoutModel(body: Json, rt: Runtime)
    requires RequestSentences(body, rt) != []
    ensures ClassifyHandler(body, None, rt) == Ok(HeuristicClassify(RequestSentences(body, rt), rt.pict), Fallback)
  {
    var r := ClassifyHandler(body, None, rt);
    assert r.Ok? && r.provider != Gemini;
  }

  lemma ImperativeLabel()
    ensures TypeLabels[Imperative] == "Câu mệnh lệnh"
  {
  }

  lemma CommandSentences(s: string, rt: Runtime)
    requires s != "" && NoEdgeWs(s) && IsClean(s, rt.pict) && NoneIn(s, IsTerminator) && !rt.pict('。')
    ensures RequestSentences(JObject(map["text" := JString(s + "。")]), rt) == [s]
  {
    var t := s + "。";
    var body := JObject(map["text" := JString(t)]);
    assert RequestText(body, "text") == t;
    assert !IsWs('。') && IsTerminator('。');
    assert Sanitize(t, rt.pict) == t by {
      assert t[0] == s[0] && t[|t| - 1] == '。';
      assert NoneIn(t, rt.pict) && NoneIn(t, IsCrOrTab) by {
        assert forall k | 0 <= k < |s| :: t[k] == s[k];
      }
      NoAdjacentAppend(s, "。", IsWs);
      SanitizeFixedPoint(t, rt.pict);
    }
    OneTerminatedSentence(s, '。');
  }

  // ---------------------------------------------------------------------
  // POST /api/translate

  /** The body of a translation response. `vi` is whatever the provider
      returned. */
  datatype Translation = Translation(jp: string, vi: Json)

  /** The model's reply accepted as a translation: a string that is not
      blank, trimmed. A reply that is not a string is either falsy or has
      no `trim` method, which throws; either way the model is passed over. */
  function GeminiTranslation(reply: Option<Json>): (r: Option<Json>)
    ensures r.Some? <==> reply.Some? && reply.value.JString? && Trim(reply.value.str) != ""
    ensures r.Some? ==> r.value == JString(Trim(reply.value.str)) && Truthy(r.value)
  {
    if reply.Some? && reply.value.JString? && Trim(reply.value.str) != "" then Some(JString(Trim(reply.value.str)))
    else None
  }

  /** LibreTranslate's `data.translatedText` when it is truthy; `data` is
      `None` when the request threw. */
  function LibreTranslation(data: Option<Json>): (r: Option<Json>)
    ensures r.Some? <==> data.Some? && Get(data.value, "translatedText").Some? && Truthy(Get(data.value, "translatedText").value)
    ensures r.Some? ==> Get(data.value, "translatedText") == Some(r.value)
  {
    if data.None? then None
    else
      match Get(data.value, "translatedText")
      case Some(vi) => if Truthy(vi) then Some(vi) else None
      case None => None
  }

  function FallbackTranslation(text: string): string {
    "Tiếng Việt (server fallback): " + text
  }

  /** `POST /api/translate`: 400 when the sanitised text is empty; otherwise
      the model's translation, else LibreTranslate's, else the placeholder. */
  function TranslateHandler(body: Json, gemini: Option<Json>, libre: Option<Json>, rt: Runtime): (r: Response<Translation>)
    ensures Status(r) == 400 <==> Sanitize(RequestText(body, "text"), rt.pict) == ""
    ensures r.BadRequest? ==> r.error == "No text provided"
    ensures r.Ok? ==> r.body.jp == Sanitize(RequestText(body, "text"), rt.pict) && Truthy(r.body.vi)
    ensures r.Ok? ==> (r.provider == Gemini <==> GeminiTranslation(gemini).Some?)
    ensures r.Ok? ==>
      (r.provider == LibreTranslate <==> GeminiTranslation(gemini).None? && LibreTranslation(libre).Some?)
    ensures r.Ok? && r.provider == Gemini ==> r.body.vi == GeminiTranslation(gemini).value
    ensures r.Ok? && r.provider == LibreTranslate ==> r.body.vi == LibreTranslation(libre).value
    ensures r.Ok? && r.provider == Fallback ==> r.body.vi == JString(FallbackTranslation(r.body.jp))
  {
    var text := Sanitize(RequestText(body, "text"), rt.pict);
    if text == "" then BadRequest("No text provided")
    else
      var attempts := [Attempt(Gemini, GeminiTranslation(gemini)), Attempt(LibreTranslate, LibreTranslation(libre))];
      var chosen := FirstSuccess(attempts, JString(FallbackTranslation(text)));
      TwoProviders(attempts[0], attempts[1], JString(FallbackTranslation(text)));
      OneProvider(attempts[1], JString(FallbackTranslation(text)));
      assert Truthy(JString(FallbackTranslation(text))) by {
        assert |FallbackTranslation(text)| > 0;
      }
      Ok(Translation(text, chosen.0), chosen.1)
  }

  /** The translator answers 400 exactly when the trimmed text consists of
      pictographic characters only; blank text in particular. */
  lemma TranslateRejectsIff(body: Json, gemini: Option<Json>, libre: Option<Json>, rt: Runtime)
    ensures TranslateHandler(body, gemini, libre, rt).BadRequest? <==>
      var t := Trim(RequestText(body, "text"));
      forall k | 0 <= k < |t| :: rt.pict(t[k])
  {
    SanitizeEmpty(RequestText(body, "text"), rt.pict);
  }

  /** A usable model translation makes LibreTranslate irrelevant. */
  lemma TranslateGeminiFirst(body: Json, gemini: Option<Json>, libre1: Option<Json>, libre2: Option<Json>, rt: Runtime)
    requires GeminiTranslation(gemini).Some?
    ensures TranslateHandler(body, gemini, libre1, rt) == TranslateHandler(body, gemini, libre2, rt)
  {
  }

  // ---------------------------------------------------------------------
  // POST /api/vocab/lookup

  /** The vocabulary answer accepted from the model's reply, if any. */
  function GeminiVocab(reply: Option<Json>, rt: Runtime): Option<VocabResult> {
    if reply.None? then None else AcceptVocab(ParseGeminiJson(reply.value, rt.jsonParse))
  }

  /** `POST /api/vocab/lookup`: 400 when the sanitised input is empty;
      otherwise the model's analysis when it passes validation, the
      placeholder analysis otherwise. */
  function VocabHandler(body: Json, gemini: Option<Json>, rt: Runtime): (r: Response<VocabResult>)
    ensures Status(r) == 400 <==> Sanitize(RequestText(body, "input"), rt.pict) == ""
    ensures r.BadRequest? ==> r.error == "No input provided"
    ensures r.Ok? ==>
      r.body.vocabList != [] && forall i | 0 <= i < |r.body.vocabList| :: IsValidVocabEntry(r.body.vocabList[i])
    ensures r.Ok? ==> (r.provider == Gemini <==> GeminiVocab(gemini, rt).Some?)
    ensures r.Ok? && r.provider == Gemini ==> r.body == GeminiVocab(gemini, rt).value
    ensures r.Ok? && r.provider != Gemini ==>
      r.provider == Fallback && r.body == VocabPlaceholder(Sanitize(RequestText(body, "input"), rt.pict))
  {
    var sentence := Sanitize(RequestText(body, "input"), rt.pict);
    if sentence == "" then BadRequest("No input provided")
    else
      var chosen := FirstSuccess([Attempt(Gemini, GeminiVocab(gemini, rt))], VocabPlaceholder(sentence));
      OneProvider(Attempt(Gemini, GeminiVocab(gemini, rt)), VocabPlaceholder(sentence));
      Ok(chosen.0, chosen.1)
  }

  /** A fenced model reply whose JSON has no string `mainTranslation` (only
      a `meaning`, say) is rejected, and the placeholder is sent. */
  lemma VocabFencedWithoutTranslation(body: Json, payload: string, parsed: Json, rt: Runtime)
    requires Sanitize(RequestText(body, "input"), rt.pict) != ""
    requires NoEdgeWs(payload) && TagIsUnambiguous("json", "\n", payload)
    requires rt.jsonParse(payload) == Some(parsed) && StringField(parsed, "mainTranslation").None?
    ensures VocabHandler(body, Some(JString(Fence + "json" + "\n" + payload + "\n" + Fence)), rt)
         == Ok(VocabPlaceholder(Sanitize(RequestText(body, "input"), rt.pict)), Fallback)
  {
    assert AllWs("") && AllWs("\n");
    FenceRoundTrip("", "json", "\n", payload, "\n", "", rt.jsonParse);
    assert "" + (Fence + "json" + "\n" + payload + "\n" + Fence) + "" == Fence + "json" + "\n" + payload + "\n" + Fence;
  }
}
