/** The Vietnamese labels of the three Japanese sentence types
    (`TYPE_LABELS` and `resolveTypeLabel`, backend/index.js). */
module Labels {
  import opened JsValues
  import opened Text

  const Imperative: string := "命令文"
  const Question: string := "疑問文"
  const Affirmative: string := "肯定文"

  /** The label of a type the table does not know. */
  const UnknownLabel: string := "Không xác định"

  /** `TYPE_LABELS`: its own keys and their labels. */
  const TypeLabels: map<string, string> := map[
    Imperative := "Câu mệnh lệnh",
    Question := "Câu nghi vấn",
    Affirmative := "Câu khẳng định"
  ]

  predicate IsKnownType(t: string) {
    t in TypeLabels
  }

  /** The labels a response can carry. */
  predicate IsLabel(l: string) {
    l == UnknownLabel || l in TypeLabels.Values
  }

  /** `resolveTypeLabel(type)`, reading only the table's own keys: the label
      of the trimmed type when the table has it, the unknown label for any
      other string and for a value that is not a string. */
  function ResolveTypeLabel(v: Json): (r: string)
    ensures IsLabel(r)
    ensures r == UnknownLabel <==> !(v.JString? && IsKnownType(Trim(v.str)))
    ensures v.JString? && IsKnownType(Trim(v.str)) ==> r == TypeLabels[Trim(v.str)]
  {
    if v.JString? && Trim(v.str) in TypeLabels then TypeLabels[Trim(v.str)] else UnknownLabel
  }

  /** The three type names differ in their first character. */
  lemma TypesDistinct()
    ensures Imperative != Question && Imperative != Affirmative && Question != Affirmative
  {
    assert Imperative[0] == '命' && Question[0] == '疑' && Affirmative[0] == '肯';
  }

  /** The three labels differ, as their lengths already show. */
  lemma LabelsDistinct()
    ensures forall t, u | t in TypeLabels && u in TypeLabels && t != u :: TypeLabels[t] != TypeLabels[u]
  {
    assert |TypeLabels[Imperative]| == 13;
    assert |TypeLabels[Question]| == 12;
    assert |TypeLabels[Affirmative]| == 14;
  }

  /** Each known type has a label of its own, so the label tells the type. */
  lemma LabelDeterminesType(a: string, b: string)
    requires ResolveTypeLabel(JString(a)) == ResolveTypeLabel(JString(b)) != UnknownLabel
    ensures Trim(a) == Trim(b)
  {
    LabelsDistinct();
  }

  /** The label of each of the three types. */
  lemma KnownLabels()
    ensures ResolveTypeLabel(JString(Imperative)) == "Câu mệnh lệnh"
    ensures ResolveTypeLabel(JString(Question)) == "Câu nghi vấn"
    ensures ResolveTypeLabel(JString(Affirmative)) == "Câu khẳng định"
  {
    KeyIsTrimmed(Imperative);
    KeyIsTrimmed(Question);
    KeyIsTrimmed(Affirmative);
  }

  lemma KeyIsTrimmed(t: string)
    requires IsKnownType(t)
    ensures Trim(t) == t && ResolveTypeLabel(JString(t)) == TypeLabels[t]
  {
    assert t == Imperative || t == Question || t == Affirmative;
    if t == Imperative {
      assert NoEdgeWs(Imperative);
    } else if t == Question {
      assert NoEdgeWs(Question);
    } else {
      assert NoEdgeWs(Affirmative);
    }
  }

  // ---------------------------------------------------------------------
  // The lookup as written: `TYPE_LABELS[key]` on a plain object literal

  /** The names a plain object inherits from `Object.prototype`. Reading one
      of them on `TYPE_LABELS` yields a function (or, for `__proto__`, the
      prototype object), which is truthy. */
  const ObjectPrototypeMembers: set<string> := {
    "constructor", "__defineGetter__", "__defineSetter__", "hasOwnProperty",
    "__lookupGetter__", "__lookupSetter__", "isPrototypeOf",
    "propertyIsEnumerable", "toString", "valueOf", "__proto__", "toLocaleString"
  }

  /** What `resolveTypeLabel` can return as written: a label string, or an
      inherited member of `Object.prototype`. */
  datatype LabelValue = LabelText(text: string) | PrototypeMember(name: string)

  /** `TYPE_LABELS[key]` with inherited properties, `None` standing for
      `undefined`. */
  function LookupAsWritten(key: string): (r: Option<LabelValue>)
    ensures r.None? <==> key !in TypeLabels && key !in ObjectPrototypeMembers
  {
    if key in TypeLabels then Some(LabelText(TypeLabels[key]))
    else if key in ObjectPrototypeMembers then Some(PrototypeMember(key))
    else None
  }

  /** No inherited name is a key of the table: the keys have three
      characters, the inherited names at least seven. */
  lemma InheritedNamesAreNotKeys()
    ensures forall k | k in ObjectPrototypeMembers :: k !in TypeLabels
  {
    KeyLengths();
    InheritedNameLengths();
  }

  lemma KeyLengths()
    ensures forall k | k in TypeLabels :: |k| == 3
  {
  }

  lemma InheritedNameLengths()
    ensures forall k | k in ObjectPrototypeMembers :: |k| >= 7
  {
  }

  /** `resolveTypeLabel(type)` as written: `TYPE_LABELS[type.trim()] || …`
      where every value found, inherited or not, is truthy. */
  function ResolveTypeLabelAsWritten(v: Json): (r: LabelValue)
    ensures r.PrototypeMember? <==> v.JString? && Trim(v.str) in ObjectPrototypeMembers
  {
    InheritedNamesAreNotKeys();
    if !v.JString? then LabelText(UnknownLabel)
    else
      match LookupAsWritten(Trim(v.str))
      case None => LabelText(UnknownLabel)
      case Some(found) => found
  }

  /** The lookup as written agrees with the own-key lookup exactly on the
      values whose trim is not an inherited name. */
  lemma AsWrittenAgrees(v: Json)
    ensures ResolveTypeLabelAsWritten(v) == LabelText(ResolveTypeLabel(v))
        <==> !(v.JString? && Trim(v.str) in ObjectPrototypeMembers)
  {
    InheritedNamesAreNotKeys();
  }

  /** The type `"constructor"` resolves to `Object` itself, not to a label. */
  lemma ConstructorIsNotALabel()
    ensures ResolveTypeLabelAsWritten(JString("constructor")) == PrototypeMember("constructor")
    ensures ResolveTypeLabel(JString("constructor")) == UnknownLabel
  {
    ConstructorIsInherited();
    InheritedNamesAreNotKeys();
  }

  lemma ConstructorIsInherited()
    ensures Trim("constructor") == "constructor" && "constructor" in ObjectPrototypeMembers
  {
    assert NoEdgeWs("constructor");
  }
}
