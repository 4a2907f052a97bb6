/** The decoder of model replies (`parseGeminiJson`, backend/index.js): a
    reply may wrap its JSON text in a Markdown code fence, optionally tagged
    `json` or `JSON`; the fence is stripped before the text is parsed. */
module Decoder {
  import opened Seqs
  import opened JsValues
  import opened Text

  const Fence: string := "```"

  /** `s.replace(/^```(?:json|JSON)?\s*\/u, '')`: an opening fence, the tag
      that may follow it and the whitespace after that are removed. */
  function StripOpeningFence(s: string): (r: string)
    ensures |r| <= |s| && r == s[|s| - |r|..]
    ensures StartsWith(s, Fence) && r != [] ==> !IsWs(r[0])
    ensures !StartsWith(s, Fence) ==> r == s
  {
    if !StartsWith(s, Fence) then s
    else
      TrimStart(StripTag(s[3..]))
  }

  /** `s.replace(/```$/u, '')`: one closing fence at the very end is removed. */
  function StripClosingFence(s: string): (r: string)
    ensures EndsWith(s, Fence) ==> r + Fence == s
    ensures !EndsWith(s, Fence) ==> r == s
  {
    if EndsWith(s, Fence) then s[..|s| - 3] else s
  }

  /** The text `parseGeminiJson` hands to `JSON.parse`: the trimmed reply,
      and, when that opens with a fence, what lies between the fences,
      trimmed again. */
  function Payload(s: string): (r: string)
    ensures NoEdgeWs(r)
    ensures |r| <= |s|
    ensures !StartsWith(Trim(s), Fence) ==> r == Trim(s)
  {
    var trimmed := Trim(s);
    if StartsWith(trimmed, Fence) then Trim(StripClosingFence(StripOpeningFence(trimmed)))
    else trimmed
  }

  /** The outcome of `JSON.parse` caught by the decoder: a value, or `null`
      when the text is not JSON. */
  function OrNull(parsed: Option<Json>): (r: Json)
    ensures parsed.Some? ==> r == parsed.value
    ensures parsed.None? ==> r == JNull
  {
    if parsed.Some? then parsed.value else JNull
  }

  /** `parseGeminiJson(raw)`. `JSON.parse` is the parameter `jsonParse`,
      `None` standing for a thrown `SyntaxError`. */
  function ParseGeminiJson(raw: Json, jsonParse: string -> Option<Json>): (r: Json)
    ensures !raw.JString? ==> r == JNull
    ensures raw.JString? ==> r == OrNull(jsonParse(Payload(raw.str)))
  {
    if !raw.JString? then JNull else OrNull(jsonParse(Payload(raw.str)))
  }

  /** A reply without a fence is parsed after trimming only. */
  lemma ParseUnfenced(s: string, jsonParse: string -> Option<Json>)
    requires !StartsWith(Trim(s), Fence)
    ensures ParseGeminiJson(JString(s), jsonParse) == OrNull(jsonParse(Trim(s)))
  {
  }

  /** Whitespace around a reply never changes what is decoded. */
  lemma ParseIgnoresEdgeWs(w0: string, s: string, w1: string, jsonParse: string -> Option<Json>)
    requires AllWs(w0) && AllWs(w1)
    ensures ParseGeminiJson(JString(w0 + s + w1), jsonParse) == ParseGeminiJson(JString(s), jsonParse)
  {
    TrimSkipsWs(w0, s, w1);
  }

  /** The tags that may follow an opening fence. */
  predicate IsFenceTag(tag: string) {
    tag == "" || tag == "json" || tag == "JSON"
  }

  /** A payload glued to an untagged fence must not begin with `j` or `J`,
      or the pattern could take its first letters for the tag. */
  predicate TagIsUnambiguous(tag: string, sep: string, rest: string) {
    tag != "" || sep != "" || rest == [] || (rest[0] != 'j' && rest[0] != 'J')
  }

  /** Fencing a payload and decoding the reply gives back the payload: the
      fence, its tag and the whitespace inside and around the fences are all
      removed. */
  lemma FenceRoundTrip(w0: string, tag: string, w1: string, payload: string, w2: string, w3: string,
                       jsonParse: string -> Option<Json>)
    requires IsFenceTag(tag) && AllWs(w0) && AllWs(w1) && AllWs(w2) && AllWs(w3)
    requires NoEdgeWs(payload) && TagIsUnambiguous(tag, w1, payload)
    ensures ParseGeminiJson(JString(w0 + (Fence + tag + w1 + payload + w2 + Fence) + w3), jsonParse)
         == OrNull(jsonParse(payload))
  {
    FencedPayload(tag, w1, payload, w2);
    ParseIgnoresEdgeWs(w0, Fence + tag + w1 + payload + w2 + Fence, w3, jsonParse);
  }

  lemma FencedPayload(tag: string, w1: string, payload: string, w2: string)
    requires IsFenceTag(tag) && AllWs(w1) && AllWs(w2)
    requires NoEdgeWs(payload) && TagIsUnambiguous(tag, w1, payload)
    ensures Payload(Fence + tag + w1 + payload + w2 + Fence) == payload
  {
    var body := payload + w2 + Fence;
    FencedShape(tag, w1, payload, w2);
    PayloadOfFenced(Fence + tag + w1 + body);
    BodyUnambiguous(tag, w1, payload, w2);
    OpeningStrip(tag, w1, body);
    ClosingStrip(payload, w2);
  }

  /** A fenced reply is its own trim and opens with a fence. */
  lemma FencedShape(tag: string, w1: string, payload: string, w2: string)
    ensures var fenced := Fence + tag + w1 + payload + w2 + Fence;
      fenced == Fence + tag + w1 + (payload + w2 + Fence)
      && NoEdgeWs(fenced) && StartsWith(fenced, Fence)
  {
    var head := Fence + tag + w1;
    AppendAssoc(head + payload, w2, Fence);
    AppendAssoc(head, payload, w2 + Fence);
    AppendAssoc(payload, w2, Fence);
    var fenced := head + (payload + w2 + Fence);
    AppendAssoc(Fence, tag, w1);
    AppendAssoc(Fence, tag + w1, payload + w2 + Fence);
    FencedIsTrimmed(tag + w1 + (payload + w2 + Fence));
  }

  lemma AppendAssoc(a: string, b: string, c: string)
    ensures a + b + c == a + (b + c)
  {
  }

  /** On a trimmed reply that opens with a fence, the payload is what lies
      between the fences, trimmed. */
  lemma PayloadOfFenced(x: string)
    requires NoEdgeWs(x) && StartsWith(x, Fence)
    ensures Payload(x) == Trim(StripClosingFence(StripOpeningFence(x)))
  {
  }

  lemma FencedIsTrimmed(inner: string)
    requires inner != [] && inner[|inner| - 1] == '`'
    ensures NoEdgeWs(Fence + inner) && StartsWith(Fence + inner, Fence)
  {
    var s := Fence + inner;
    assert s[0] == '`' && s[|s| - 1] == inner[|inner| - 1];
    assert s[..3] == Fence;
  }

  lemma BodyUnambiguous(tag: string, w1: string, payload: string, w2: string)
    requires TagIsUnambiguous(tag, w1, payload) && AllWs(w2)
    ensures TagIsUnambiguous(tag, w1, payload + w2 + Fence)
  {
    var body := payload + w2 + Fence;
    if payload == [] {
      if w2 == [] {
        assert body[0] == Fence[0];
      } else {
        assert body[0] == w2[0];
      }
    } else {
      assert body[0] == payload[0];
    }
  }

  /** The opening fence, its tag and the whitespace after it are removed. */
  lemma OpeningStrip(tag: string, w1: string, body: string)
    requires IsFenceTag(tag) && AllWs(w1) && TagIsUnambiguous(tag, w1, body)
    ensures StripOpeningFence(Fence + tag + w1 + body) == TrimStart(body)
  {
    var s := Fence + tag + w1 + body;
    FenceOpens(tag + w1 + body);
    assert s == Fence + (tag + w1 + body);
    assert s[3..] == tag + w1 + body;
    TagStrip(tag, w1 + body);
    assert tag + w1 + body == tag + (w1 + body);
    TrimStartSkipsWs(w1, body);
  }

  lemma FenceOpens(x: string)
    ensures StartsWith(Fence + x, Fence) && (Fence + x)[3..] == x
  {
    assert (Fence + x)[..3] == Fence;
  }

  /** What the optional tag group of the pattern removes. */
  function StripTag(s: string): (r: string)
    ensures |r| <= |s| && r == s[|s| - |r|..]
  {
    if StartsWith(s, "json") || StartsWith(s, "JSON") then s[4..] else s
  }

  lemma TagStrip(tag: string, rest: string)
    requires IsFenceTag(tag) && (tag == "" ==> rest == [] || (rest[0] != 'j' && rest[0] != 'J'))
    ensures StripTag(tag + rest) == rest
  {
    var s := tag + rest;
    if tag != "" {
      assert s[..4] == tag;
      assert s[4..] == rest;
    } else {
      assert s == rest;
      if rest != [] {
        assert !StartsWith(rest, "json") by { assert "json"[0] == 'j'; }
        assert !StartsWith(rest, "JSON") by { assert "JSON"[0] == 'J'; }
      }
    }
  }

  /** The closing fence is removed, then the whitespace before it. */
  lemma ClosingStrip(payload: string, w2: string)
    requires NoEdgeWs(payload) && AllWs(w2)
    ensures Trim(StripClosingFence(TrimStart(payload + w2 + Fence))) == payload
  {
    var body := payload + w2 + Fence;
    if payload != [] {
      assert body[0] == payload[0];
      assert TrimStart(body) == body;
      assert body == (payload + w2) + Fence;
      StripAppendedFence(payload + w2);
      TrimSkipsWs("", payload, w2);
      assert "" + payload + w2 == payload + w2;
    } else {
      assert body == w2 + Fence;
      EmptyBetweenFences(w2);
    }
  }

  lemma EmptyBetweenFences(w2: string)
    requires AllWs(w2)
    ensures StripClosingFence(TrimStart(w2 + Fence)) == ""
  {
    FenceIsTrimmed();
    TrimStartSkipsWs(w2, Fence);
    FenceAloneStrips();
  }

  lemma FenceIsTrimmed()
    ensures TrimStart(Fence) == Fence
  {
    assert !IsWs(Fence[0]);
  }

  lemma FenceAloneStrips()
    ensures StripClosingFence(Fence) == ""
  {
    StripAppendedFence("");
    assert "" + Fence == Fence;
  }

  lemma StripAppendedFence(x: string)
    ensures StripClosingFence(x + Fence) == x
  {
    var s := x + Fence;
    assert s[|s| - 3..] == Fence;
    assert s[..|s| - 3] == x;
  }
}
