/** Sentence classification (backend/index.js, `/api/classify`): the keyword
    heuristic used when the model gives no usable answer, and the
    normalisation of the entries of a model answer. */
module Classify {
  import opened Seqs
  import opened JsValues
  import opened Text
  import opened Sentences
  import opened Labels

  /** One entry of the `sentences` array of a classification response. The
      field `type` of the response is `sentenceType` here. */
  datatype Classified = Classified(
    original: string,
    normalized: string,
    sentenceType: string,
    typeVi: string,
    mainIdea: string,
    actionSuggestion: string)

  // ---------------------------------------------------------------------
  // The keyword heuristic

  /** `/[？?]$/.test(s)`. */
  predicate EndsWithQuestionMark(s: string) {
    s != [] && (s[|s| - 1] == '?' || s[|s| - 1] == '？')
  }

  /** `/(なさい|しろ|せよ|ください)$/u.test(s)`. */
  predicate EndsWithCommand(s: string) {
    EndsWith(s, "なさい") || EndsWith(s, "しろ") || EndsWith(s, "せよ") || EndsWith(s, "ください")
  }

  /** The heuristic type: a command ending makes an imperative, overriding
      the question rule; a question mark at the end or the particle か
      anywhere makes a question; anything else is affirmative. */
  function HeuristicType(s: string): (t: string)
    ensures IsKnownType(t)
    ensures t == Imperative <==> EndsWithCommand(s)
    ensures t == Question <==> !EndsWithCommand(s) && (EndsWithQuestionMark(s) || 'か' in s)
    ensures t == Affirmative <==> !EndsWithCommand(s) && !EndsWithQuestionMark(s) && 'か' !in s
  {
    TypesDistinct();
    if EndsWithCommand(s) then Imperative
    else if EndsWithQuestionMark(s) || 'か' in s then Question
    else Affirmative
  }

  /** The suggestion the heuristic attaches to each type. */
  function ActionSuggestion(t: string): (a: string)
    ensures t == Imperative ==> a == "Thực hiện yêu cầu được nêu (placeholder)"
    ensures t == Question ==> a == "Cân nhắc câu trả lời phù hợp (placeholder)"
    ensures t != Imperative && t != Question ==> a == "Ghi nhớ thông tin chính (placeholder)"
  {
    if t == Imperative then "Thực hiện yêu cầu được nêu (placeholder)"
    else if t == Question then "Cân nhắc câu trả lời phù hợp (placeholder)"
    else "Ghi nhớ thông tin chính (placeholder)"
  }

  function MainIdea(normalized: string): string {
    "Ý chính (placeholder) của câu: \"" + normalized + "\""
  }

  /** The heuristic entry of one sentence. */
  function HeuristicEntry(sentence: string, pict: PictClass): (c: Classified)
    ensures c.original == sentence && c.normalized == Sanitize(sentence, pict)
    ensures IsKnownType(c.sentenceType) && c.typeVi == TypeLabels[c.sentenceType]
    ensures c.sentenceType == HeuristicType(sentence)
    ensures c.actionSuggestion == ActionSuggestion(c.sentenceType)
    ensures c.mainIdea == MainIdea(c.normalized)
  {
    var t := HeuristicType(sentence);
    var typeVi := ResolveTypeLabel(JString(t));
    assert typeVi == TypeLabels[t] by { KeyIsTrimmed(t); }
    Classified(sentence, Sanitize(sentence, pict), t, typeVi, MainIdea(Sanitize(sentence, pict)), ActionSuggestion(t))
  }

  /** The heuristic fallback: one entry per sentence, in order. */
  function HeuristicClassify(sentences: seq<string>, pict: PictClass): (r: seq<Classified>)
    ensures |r| == |sentences|
    ensures forall i | 0 <= i < |r| :: r[i] == HeuristicEntry(sentences[i], pict)
  {
    seq(|sentences|, i requires 0 <= i < |sentences| => HeuristicEntry(sentences[i], pict))
  }

  /** The sentences handed to the heuristic come from the splitter, which has
      removed every `?` and `？`: the question-mark test never holds, and only
      the particle か makes a question. */
  lemma QuestionMarkNeverDecides(text: string)
    ensures forall j | 0 <= j < |SplitSentences(text)| :: !EndsWithQuestionMark(SplitSentences(text)[j])
    ensures forall j | 0 <= j < |SplitSentences(text)| ::
      var s := SplitSentences(text)[j];
      HeuristicType(s) == Question <==> !EndsWithCommand(s) && 'か' in s
  {
    var r := SplitSentences(text);
    forall j | 0 <= j < |r| ensures !EndsWithQuestionMark(r[j]) {
      if r[j] != [] {
        assert !IsTerminator(r[j][|r[j]| - 1]);
      }
    }
  }

  /** On the sentences of a sanitised request the heuristic entry's
      normalised text is the sentence itself. */
  lemma HeuristicNormalizedIsOriginal(input: string, pict: PictClass)
    ensures var sentences := SplitSentences(Sanitize(input, pict));
      forall i | 0 <= i < |sentences| ::
        HeuristicClassify(sentences, pict)[i].normalized == HeuristicClassify(sentences, pict)[i].original
  {
    SanitizeClean(input, pict);
    SplitKeepsClean(Sanitize(input, pict), pict);
  }

  // ---------------------------------------------------------------------
  // Normalising the entries of a model answer

  /** `item && typeof item[key] === 'string' ? item[key].trim() : otherwise`. */
  function TrimmedField(item: Json, key: string, otherwise: string): (r: string)
    ensures StringField(item, key).Some? ==> r == Trim(StringField(item, key).value) && NoEdgeWs(r)
    ensures StringField(item, key).None? ==> r == otherwise
  {
    match StringField(item, key)
    case Some(s) => Trim(s)
    case None => otherwise
  }

  /** The entry built from the `idx`-th item of the model's `sentences`
      array. Missing text fields fall back: `original` to the request's
      sentence at the same index (or to the empty string past the end),
      `normalized` to `original`, `type` to 肯定文, the others to the empty
      string. */
  function NormalizeItem(item: Json, idx: nat, sentences: seq<string>): (c: Classified)
    ensures c.typeVi == ResolveTypeLabel(JString(c.sentenceType))
    ensures StringField(item, "original").None? ==> c.original == if idx < |sentences| then sentences[idx] else ""
    ensures StringField(item, "original").Some? ==> c.original == Trim(StringField(item, "original").value)
    ensures StringField(item, "normalized").None? ==> c.normalized == c.original
    ensures StringField(item, "normalized").Some? ==> c.normalized == Trim(StringField(item, "normalized").value)
    ensures StringField(item, "type").None? ==> c.sentenceType == Affirmative
    ensures StringField(item, "type").Some? ==> c.sentenceType == Trim(StringField(item, "type").value)
    ensures NoEdgeWs(c.sentenceType)
    ensures c.mainIdea == if StringField(item, "mainIdea").Some? then Trim(StringField(item, "mainIdea").value) else ""
    ensures c.actionSuggestion ==
      if StringField(item, "actionSuggestion").Some? then Trim(StringField(item, "actionSuggestion").value) else ""
  {
    var original := TrimmedField(item, "original", if idx < |sentences| then sentences[idx] else "");
    var normalized := TrimmedField(item, "normalized", original);
    var t := TrimmedField(item, "type", Affirmative);
    KeyIsTrimmed(Affirmative);
    var mainIdea := TrimmedField(item, "mainIdea", "");
    var actionSuggestion := TrimmedField(item, "actionSuggestion", "");
    Classified(original, normalized, t, ResolveTypeLabel(JString(t)), mainIdea, actionSuggestion)
  }

  /** `parsed.sentences.map((item, idx) => …)`. */
  function NormalizeAll(items: seq<Json>, sentences: seq<string>): (r: seq<Classified>)
    ensures |r| == |items|
    ensures forall i | 0 <= i < |r| :: r[i] == NormalizeItem(items[i], i, sentences)
  {
    seq(|items|, i requires 0 <= i < |items| => NormalizeItem(items[i], i, sentences))
  }

  /** `.filter((item) => item.original)`: the empty string is the only
      falsy string. */
  predicate HasOriginal(c: Classified) {
    c.original != ""
  }

  /** The `sentences` array of a model answer, if it has one. */
  function AnswerItems(parsed: Json): Option<seq<Json>> {
    if Truthy(parsed) then ArrayField(parsed, "sentences") else None
  }

  /** The entries of a decoded model answer the backend accepts: present
      when the answer has a `sentences` array with at least one entry whose
      `original` is not empty; those entries, normalised, in order. */
  function AcceptClassification(parsed: Json, sentences: seq<string>): (r: Option<seq<Classified>>)
    ensures AnswerItems(parsed).None? ==> r.None?
    ensures r.Some? ==> r.value != []
    ensures r.Some? ==> forall i | 0 <= i < |r.value| ::
      HasOriginal(r.value[i]) && IsLabel(r.value[i].typeVi)
    ensures AnswerItems(parsed).Some? ==>
      (r.None? <==> forall i | 0 <= i < |AnswerItems(parsed).value| ::
        !HasOriginal(NormalizeItem(AnswerItems(parsed).value[i], i, sentences)))
  {
    match AnswerItems(parsed)
    case None => None
    case Some(items) =>
      var all := NormalizeAll(items, sentences);
      var kept := Filter(all, HasOriginal);
      FilterAll(all, HasOriginal, (c: Classified) => IsLabel(c.typeVi));
      if kept == [] then None else Some(kept)
  }

  /** The accepted entries are the normalised items with an `original`,
      every one of them, kept in the order of the answer. */
  lemma AcceptKeepsOrder(parsed: Json, sentences: seq<string>)
    requires AcceptClassification(parsed, sentences).Some?
    ensures IsSubsequence(AcceptClassification(parsed, sentences).value,
                          NormalizeAll(AnswerItems(parsed).value, sentences))
    ensures var all := NormalizeAll(AnswerItems(parsed).value, sentences);
      forall i | 0 <= i < |all| && HasOriginal(all[i]) :: all[i] in AcceptClassification(parsed, sentences).value
  {
    FilterKeeps(NormalizeAll(AnswerItems(parsed).value, sentences), HasOriginal);
  }

  /** An item without `original` takes the request's sentence at its index,
      so it is kept whenever the index is within the request's sentences. */
  lemma ItemBorrowsSentence(item: Json, idx: nat, sentences: seq<string>)
    requires idx < |sentences| && sentences[idx] != ""
    requires StringField(item, "original").None?
    ensures HasOriginal(NormalizeItem(item, idx, sentences))
    ensures NormalizeItem(item, idx, sentences).original == sentences[idx]
  {
  }
}
