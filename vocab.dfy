/** Vocabulary analysis (backend/index.js, `/api/vocab/lookup`): the
    validation of a model answer and the placeholder answer. */
module Vocab {
  import opened Seqs
  import opened JsValues

  /** The body of a vocabulary response. */
  datatype VocabResult = VocabResult(mainTranslation: string, vocabList: seq<Json>)

  /** A nonempty array. */
  predicate IsNonEmptyArray(v: Option<seq<Json>>) {
    v.Some? && v.value != []
  }

  predicate IsTruthyField(entry: Json, key: string) {
    Get(entry, key).Some? && Truthy(Get(entry, key).value)
  }

  /** The filter applied to each entry of `vocabList`: `kanji` is present
      (any value, the empty string included), `reading` and `meaning` are
      truthy, and `synonyms` and `examples` are nonempty arrays. */
  predicate IsValidVocabEntry(entry: Json) {
    Get(entry, "kanji").Some?
    && IsTruthyField(entry, "reading") && IsTruthyField(entry, "meaning")
    && IsNonEmptyArray(ArrayField(entry, "synonyms"))
    && IsNonEmptyArray(ArrayField(entry, "examples"))
  }

  /** Whether some entry is `null`: reading `vocab.kanji` on it throws a
      `TypeError`, which abandons the model answer. */
  predicate HasNullEntry(list: seq<Json>) {
    exists i | 0 <= i < |list| :: list[i] == JNull
  }

  /** The answer the backend accepts from a decoded model reply: present
      when the reply has a string `mainTranslation` and a nonempty
      `vocabList` array without `null` entries of which at least one entry
      is valid; it carries the translation and the valid entries. */
  function AcceptVocab(parsed: Json): (r: Option<VocabResult>)
    ensures r.Some? <==>
      Truthy(parsed) && StringField(parsed, "mainTranslation").Some?
      && IsNonEmptyArray(ArrayField(parsed, "vocabList"))
      && !HasNullEntry(ArrayField(parsed, "vocabList").value)
      && exists i | 0 <= i < |ArrayField(parsed, "vocabList").value| ::
           IsValidVocabEntry(ArrayField(parsed, "vocabList").value[i])
    ensures r.Some? ==> r.value.mainTranslation == StringField(parsed, "mainTranslation").value
    ensures r.Some? ==>
      r.value.vocabList != [] && forall i | 0 <= i < |r.value.vocabList| :: IsValidVocabEntry(r.value.vocabList[i])
  {
    if Truthy(parsed) && StringField(parsed, "mainTranslation").Some?
       && IsNonEmptyArray(ArrayField(parsed, "vocabList"))
    then
      var list := ArrayField(parsed, "vocabList").value;
      if HasNullEntry(list) then None
      else
        var valid := Filter(list, IsValidVocabEntry);
        if valid == [] then None
        else Some(VocabResult(StringField(parsed, "mainTranslation").value, valid))
    else None
  }

  /** The accepted entries are the valid entries of the answer, every one of
      them, in the answer's order. */
  lemma AcceptVocabKeeps(parsed: Json)
    requires AcceptVocab(parsed).Some?
    ensures var list := ArrayField(parsed, "vocabList").value;
      var kept := AcceptVocab(parsed).value.vocabList;
      IsSubsequence(kept, list)
      && forall i | 0 <= i < |list| && IsValidVocabEntry(list[i]) :: list[i] in kept
  {
    FilterKeeps(ArrayField(parsed, "vocabList").value, IsValidVocabEntry);
  }

  // ---------------------------------------------------------------------
  // The placeholder answer

  function Obj(members: map<string, Json>): Json {
    JObject(members)
  }

  /** The placeholder vocabulary entry of a sentence. */
  function PlaceholderEntry(s: string): Json {
    Obj(map[
      "kanji" := JString(""),
      "reading" := JString(s),
      "hanViet" := JString(""),
      "meaning" := JString("Nghĩa mẫu của \"" + s + "\""),
      "synonyms" := JArray([JString(s + " の類義語 (mẫu)")]),
      "examples" := JArray([
        Obj(map["jp" := JString(s + " の例文 (mẫu)"), "vi" := JString("Ví dụ tiếng Việt cho \"" + s + "\" (mẫu)")]),
        Obj(map["jp" := JString("もう一つの例文 (mẫu)"), "vi" := JString("Ví dụ khác (mẫu)")])
      ])
    ])
  }

  /** The placeholder answer for a sentence: a sample translation and one
      sample entry that reads as the sentence itself. */
  function VocabPlaceholder(s: string): (r: VocabResult)
    ensures |r.vocabList| == 1 && Get(r.vocabList[0], "reading") == Some(JString(s))
    ensures s != "" ==> IsValidVocabEntry(r.vocabList[0])
  {
    var entry := PlaceholderEntry(s);
    assert entry.members["meaning"].str != "" by {
      assert |entry.members["meaning"].str| > |s|;
    }
    VocabResult("Dịch mẫu của câu: \"" + s + "\" (thiếu Gemini)", [entry])
  }

  /** The placeholder passes the backend's own filter, so feeding it back
      as a model answer accepts it unchanged. */
  lemma PlaceholderIsAccepted(s: string)
    requires s != ""
    ensures var p := VocabPlaceholder(s);
      AcceptVocab(JObject(map["mainTranslation" := JString(p.mainTranslation), "vocabList" := JArray(p.vocabList)]))
        == Some(p)
  {
    var p := VocabPlaceholder(s);
    var answer := JObject(map["mainTranslation" := JString(p.mainTranslation), "vocabList" := JArray(p.vocabList)]);
    assert ArrayField(answer, "vocabList") == Some(p.vocabList);
    assert p.vocabList[0].JObject?;
    assert !HasNullEntry(p.vocabList);
    assert Filter(p.vocabList, IsValidVocabEntry) == p.vocabList;
  }
}
