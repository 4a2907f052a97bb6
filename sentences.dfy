/** The sentence splitter of the backend (`splitSentences`, backend/index.js):
    `text.split(/(?:。|！|!|\?|？)+/).map(trim).filter(Boolean)`. */
module Sentences {
  import opened Seqs
  import opened Text

  /** The terminators of the split pattern. */
  predicate IsTerminator(c: char) {
    c in Terminators
  }

  const Terminators: set<char> := {'。', '！', '!', '?', '？'}

  predicate IsSentenceChar(c: char) {
    !IsTerminator(c)
  }

  predicate IsNonEmpty(s: string) {
    s != ""
  }

  /** The index of the first terminator, or `|s|` when there is none. */
  function FirstTerminator(s: string): (k: nat)
    ensures k <= |s|
    ensures forall j | 0 <= j < k :: !IsTerminator(s[j])
    ensures k < |s| ==> IsTerminator(s[k])
    decreases |s|
  {
    if s == [] || IsTerminator(s[0]) then 0 else 1 + FirstTerminator(s[1..])
  }

  /** `s.split(/(?:。|！|!|\?|？)+/)`: the text between maximal runs of
      terminators, including the empty text before a leading run and after
      a trailing one. */
  function Pieces(s: string): (ps: seq<string>)
    ensures |ps| >= 1
    decreases |s|
  {
    var k := FirstTerminator(s);
    if k == |s| then [s]
    else
      var n := RunLength(s[k..], IsTerminator);
      [s[..k]] + Pieces(s[k + n..])
  }

  /** One step of the split: the text before the first terminator, then
      the pieces of what follows the run of terminators starting there. */
  lemma PiecesStep(s: string) returns (k: nat, n: nat)
    requires FirstTerminator(s) < |s|
    ensures k == FirstTerminator(s) && n == RunLength(s[k..], IsTerminator)
    ensures 1 <= n && k + n <= |s|
    ensures Pieces(s) == [s[..k]] + Pieces(s[k + n..])
  {
    k := FirstTerminator(s);
    var after := s[k..];
    assert after[0] == s[k] && IsTerminator(after[0]);
    n := RunLength(after, IsTerminator);
    PiecesUnfold(s, k, n);
  }

  lemma PiecesUnfold(s: string, k: nat, n: nat)
    requires k == FirstTerminator(s) < |s| && k + n <= |s|
    requires n == RunLength(s[k..], IsTerminator)
    ensures Pieces(s) == [s[..k]] + Pieces(s[k + n..])
  {
  }

  /** The split cuts at a maximal run of terminators: the text before the
      run is the first piece, and the pieces of the text after it follow. */
  lemma PiecesAround(a: string, r: string, b: string)
    requires NoneIn(a, IsTerminator)
    requires r != [] && forall k | 0 <= k < |r| :: IsTerminator(r[k])
    requires b == [] || !IsTerminator(b[0])
    ensures Pieces(a + r + b) == [a] + Pieces(b)
  {
    var s := a + r + b;
    SlicesOfThree(a, r, b);
    FirstTerminatorOf(a, r + b);
    RunLengthOfRun(r, b, IsTerminator);
    PiecesUnfold(s, |a|, |r|);
  }

  /** Two one-character sentences joined by 。 are split into those two
      sentences, as `"a。b"` gives `"a"` and `"b"`. */
  lemma SplitTwoSentences(x: char, y: char)
    requires !IsWs(x) && !IsWs(y) && !IsTerminator(x) && !IsTerminator(y)
    ensures SplitSentences([x, '。', y]) == [[x], [y]]
  {
    PiecesOfTwo(x, y);
    TrimAllOfTwo(x, y);
    assert Filter([[x], [y]], IsNonEmpty) == [[x], [y]] by {
      assert [[x], [y]][1..] == [[y]];
      assert [[y]][1..] == [];
    }
  }

  lemma PiecesOfTwo(x: char, y: char)
    requires !IsTerminator(x) && !IsTerminator(y)
    ensures Pieces([x, '。', y]) == [[x], [y]]
  {
    assert [x, '。', y] == [x] + ['。'] + [y];
    PiecesAround([x], ['。'], [y]);
    assert FirstTerminator([y]) == 1;
  }

  lemma TrimAllOfTwo(x: char, y: char)
    requires !IsWs(x) && !IsWs(y)
    ensures TrimAll([[x], [y]]) == [[x], [y]]
  {
    assert NoEdgeWs([x]) && NoEdgeWs([y]);
  }

  /** The text before the first terminator holds none. */
  lemma HeadHasNoTerminator(s: string)
    ensures NoneIn(s[..FirstTerminator(s)], IsTerminator)
  {
    var k := FirstTerminator(s);
    assert forall j | 0 <= j < k :: s[..k][j] == s[j];
  }

  /** The run that ends a piece consists of terminators. */
  lemma RunIsTerminators(s: string, k: nat, run: string)
    requires k + |run| <= |s| && |run| == RunLength(s[k..], IsTerminator) && run == s[k..k + |run|]
    ensures forall j | 0 <= j < |run| :: IsTerminator(run[j])
  {
    assert forall j | 0 <= j < |run| :: run[j] == s[k..][j];
  }

  /** No piece holds a terminator. */
  lemma {:induction false} PiecesHaveNoTerminator(s: string)
    ensures forall i | 0 <= i < |Pieces(s)| :: NoneIn(Pieces(s)[i], IsTerminator)
    decreases |s|
  {
    if FirstTerminator(s) < |s| {
      var k, n := PiecesStep(s);
      HeadHasNoTerminator(s);
      PiecesHaveNoTerminator(s[k + n..]);
      ConsIndex(s[..k], Pieces(s[k + n..]));
    } else {
      assert Pieces(s) == [s];
    }
  }

  /** The pieces together hold exactly the characters of the text that are
      not terminators, in their order. */
  lemma {:induction false} PiecesCover(s: string)
    ensures Concat(Pieces(s)) == Filter(s, IsSentenceChar)
    decreases |s|
  {
    if FirstTerminator(s) == |s| {
      ConcatCons(s, []);
      assert Filter(s, IsSentenceChar) == s;
    } else {
      var k, n := PiecesStep(s);
      PiecesCover(s[k + n..]);
      ConcatCons(s[..k], Pieces(s[k + n..]));
      FilterStep(s, k, n);
    }
  }

  /** What the filter keeps of the text: the head, then what it keeps of
      the text after the run. */
  lemma FilterStep(s: string, k: nat, n: nat)
    requires k == FirstTerminator(s) && k + n <= |s| && n == RunLength(s[k..], IsTerminator)
    ensures Filter(s, IsSentenceChar) == s[..k] + Filter(s[k + n..], IsSentenceChar)
  {
    var head, run, rest := s[..k], s[k..k + n], s[k + n..];
    SplitAround(s, k, n);
    HeadHasNoTerminator(s);
    RunIsTerminators(s, k, run);
    FilterPieces(head, run, rest);
  }

  lemma SplitAround(s: string, k: nat, n: nat)
    requires k + n <= |s|
    ensures s == s[..k] + (s[k..k + n] + s[k + n..])
  {
  }

  lemma FilterPieces(head: string, run: string, rest: string)
    requires NoneIn(head, IsTerminator)
    requires forall j | 0 <= j < |run| :: IsTerminator(run[j])
    ensures Filter(head + (run + rest), IsSentenceChar) == head + Filter(rest, IsSentenceChar)
  {
    FilterAppend(head, run + rest, IsSentenceChar);
    FilterAppend(run, rest, IsSentenceChar);
    var fh, fr, ft := Filter(head, IsSentenceChar), Filter(run, IsSentenceChar), Filter(rest, IsSentenceChar);
    assert fr == [];
    assert fh == head;
    assert fr + ft == ft;
  }

  /** A trimmed piece: no whitespace at either end, no terminator. */
  predicate IsTrimmedPiece(s: string) {
    NoEdgeWs(s) && NoneIn(s, IsTerminator)
  }

  /** `splitSentences(text)`. */
  function SplitSentences(text: string): (r: seq<string>)
    ensures forall j | 0 <= j < |r| :: r[j] != "" && NoEdgeWs(r[j]) && NoneIn(r[j], IsTerminator)
  {
    var pieces := Pieces(text);
    var trimmed := TrimAll(pieces);
    PiecesHaveNoTerminator(text);
    TrimAllKeepsNone(pieces, IsTerminator);
    assert forall i | 0 <= i < |trimmed| :: IsTrimmedPiece(trimmed[i]);
    FilterAll(trimmed, IsNonEmpty, IsTrimmedPiece);
    Filter(trimmed, IsNonEmpty)
  }

  /** `pieces.map((part) => part.trim())`. */
  function TrimAll(pieces: seq<string>): (r: seq<string>)
    ensures |r| == |pieces|
    ensures forall i | 0 <= i < |r| :: r[i] == Trim(pieces[i])
  {
    seq(|pieces|, i requires 0 <= i < |pieces| => Trim(pieces[i]))
  }

  lemma TrimAllKeepsNone(pieces: seq<string>, inClass: char -> bool)
    requires forall i | 0 <= i < |pieces| :: NoneIn(pieces[i], inClass)
    ensures forall i | 0 <= i < |pieces| :: NoneIn(TrimAll(pieces)[i], inClass)
  {
    forall i | 0 <= i < |pieces| ensures NoneIn(TrimAll(pieces)[i], inClass) {
      TrimKeepsNone(pieces[i], inClass);
    }
  }

  lemma {:induction false} AllWsConcat(ps: seq<string>)
    ensures AllWs(Concat(ps)) <==> forall i | 0 <= i < |ps| :: AllWs(ps[i])
    decreases |ps|
  {
    if ps != [] {
      AllWsConcat(ps[1..]);
      var c := Concat(ps[1..]);
      assert forall k | 0 <= k < |c| :: (ps[0] + c)[|ps[0]| + k] == c[k];
      assert forall k | 0 <= k < |ps[0]| :: (ps[0] + c)[k] == ps[0][k];
      assert forall i | 1 <= i < |ps| :: ps[i] == ps[1..][i - 1];
    }
  }

  lemma AllWsCons(c: char, rest: string)
    ensures AllWs([c] + rest) <==> IsWs(c) && AllWs(rest)
  {
    var f := [c] + rest;
    assert f[0] == c;
    assert forall k | 0 <= k < |rest| :: f[k + 1] == rest[k];
  }

  lemma {:induction false} AllWsFilterSentenceChars(s: string)
    ensures AllWs(Filter(s, IsSentenceChar)) <==> forall k | 0 <= k < |s| :: IsWs(s[k]) || IsTerminator(s[k])
    decreases |s|
  {
    if s != [] {
      AllWsFilterSentenceChars(s[1..]);
      assert forall k | 1 <= k < |s| :: s[k] == s[1..][k - 1];
      var rest := Filter(s[1..], IsSentenceChar);
      if IsSentenceChar(s[0]) {
        assert Filter(s, IsSentenceChar) == [s[0]] + rest;
        AllWsCons(s[0], rest);
      }
    }
  }

  /** The splitter yields no sentence exactly when the text consists of
      whitespace and terminators only; blank text in particular. */
  lemma SplitEmptyIff(text: string)
    ensures SplitSentences(text) == [] <==> forall k | 0 <= k < |text| :: IsWs(text[k]) || IsTerminator(text[k])
  {
    var pieces := Pieces(text);
    var trimmed := TrimAll(pieces);
    assert SplitSentences(text) == Filter(trimmed, IsNonEmpty);
    assert (Filter(trimmed, IsNonEmpty) == []) <==> forall i | 0 <= i < |pieces| :: AllWs(pieces[i]) by {
      assert forall i | 0 <= i < |pieces| :: (trimmed[i] == "" <==> AllWs(pieces[i]));
    }
    AllWsConcat(pieces);
    PiecesCover(text);
    AllWsFilterSentenceChars(text);
  }

  /** The sentences together hold every character of the text that is
      neither whitespace nor a terminator, in order, and no other: the
      splitter drops only terminators and whitespace. */
  lemma SplitCovers(text: string, keep: char -> bool)
    requires forall c :: keep(c) == (!IsWs(c) && !IsTerminator(c))
    ensures Filter(Concat(SplitSentences(text)), NotWs) == Filter(text, keep)
  {
    var pieces := Pieces(text);
    var trimmed := TrimAll(pieces);
    assert SplitSentences(text) == Filter(trimmed, IsNonEmpty);
    ConcatNonEmpty(trimmed);
    FilterConcatTrim(pieces);
    PiecesCover(text);
    FilterFilter(text, IsSentenceChar, NotWs, keep);
  }

  /** Dropping empty strings does not change the concatenation. */
  lemma {:induction false} ConcatNonEmpty(ps: seq<string>)
    ensures Concat(Filter(ps, IsNonEmpty)) == Concat(ps)
    decreases |ps|
  {
    if ps != [] {
      ConcatNonEmpty(ps[1..]);
      var rest := Filter(ps[1..], IsNonEmpty);
      if IsNonEmpty(ps[0]) {
        ConcatCons(ps[0], rest);
      } else {
        assert ps[0] + Concat(ps[1..]) == Concat(ps[1..]);
      }
    }
  }

  /** Trimming each part removes whitespace from the concatenation only. */
  lemma {:induction false} FilterConcatTrim(ps: seq<string>)
    ensures Filter(Concat(TrimAll(ps)), NotWs) == Filter(Concat(ps), NotWs)
    decreases |ps|
  {
    if ps != [] {
      var t := TrimAll(ps);
      assert t[1..] == TrimAll(ps[1..]);
      FilterConcatTrim(ps[1..]);
      FilterAppend(t[0], Concat(t[1..]), NotWs);
      FilterAppend(ps[0], Concat(ps[1..]), NotWs);
      FilterTrim(ps[0]);
    }
  }

  /** Text without terminators is one sentence: the trimmed text, unless it
      is blank. */
  lemma SplitWithoutTerminator(text: string)
    requires NoneIn(text, IsTerminator)
    ensures SplitSentences(text) == if Trim(text) == "" then [] else [Trim(text)]
  {
    assert FirstTerminator(text) == |text|;
    assert Pieces(text) == [text];
    var trimmed := TrimAll([text]);
    assert trimmed == [Trim(text)];
    assert SplitSentences(text) == Filter(trimmed, IsNonEmpty);
  }

  /** Pieces of clean text are clean. */
  lemma {:induction false} PiecesKeepClean(s: string, pict: PictClass)
    requires IsClean(s, pict)
    ensures forall i | 0 <= i < |Pieces(s)| :: IsClean(Pieces(s)[i], pict)
    decreases |s|
  {
    if FirstTerminator(s) < |s| {
      var k, n := PiecesStep(s);
      CleanSlice(s, 0, k, pict);
      assert s[0..k] == s[..k];
      CleanSlice(s, k + n, |s|, pict);
      assert s[k + n..|s|] == s[k + n..];
      PiecesKeepClean(s[k + n..], pict);
      ConsIndex(s[..k], Pieces(s[k + n..]));
    } else {
      assert Pieces(s) == [s];
    }
  }

  /** The sentences of clean text are clean, so the sanitiser leaves each of
      them unchanged. */
  lemma SplitKeepsClean(text: string, pict: PictClass)
    requires IsClean(text, pict)
    ensures forall j | 0 <= j < |SplitSentences(text)| :: Sanitize(SplitSentences(text)[j], pict) == SplitSentences(text)[j]
  {
    var pieces := Pieces(text);
    var trimmed := TrimAll(pieces);
    PiecesKeepClean(text, pict);
    forall i | 0 <= i < |trimmed| ensures IsClean(trimmed[i], pict) {
      CleanTrim(pieces[i], pict);
    }
    var isClean := (t: string) => IsClean(t, pict);
    FilterAll(trimmed, IsNonEmpty, isClean);
    var r := SplitSentences(text);
    assert r == Filter(trimmed, IsNonEmpty);
    forall j | 0 <= j < |r| ensures Sanitize(r[j], pict) == r[j] {
      assert isClean(r[j]);
      SanitizeFixedPoint(r[j], pict);
    }
  }

  /** A sentence followed by one terminator is that one sentence. */
  lemma OneTerminatedSentence(s: string, c: char)
    requires s != "" && NoEdgeWs(s) && NoneIn(s, IsTerminator) && IsTerminator(c)
    ensures SplitSentences(s + [c]) == [s]
  {
    PiecesOfTerminated(s, c);
    var trimmed := TrimAll([s, ""]);
    assert trimmed == [s, ""];
    assert SplitSentences(s + [c]) == Filter(trimmed, IsNonEmpty);
    assert Filter([s, ""], IsNonEmpty) == [s] by {
      assert [s, ""][1..] == [""];
      assert [""][1..] == [];
    }
  }

  lemma PiecesOfTerminated(s: string, c: char)
    requires NoneIn(s, IsTerminator) && IsTerminator(c)
    ensures Pieces(s + [c]) == [s, ""]
  {
    var t := s + [c];
    FirstTerminatorOf(s, [c]);
    assert t[|s|..] == [c];
    assert RunLength([c], IsTerminator) == 1 by {
      assert [c][1..] == [];
    }
    assert t[|s| + 1..] == [];
    assert t[..|s|] == s;
    assert Pieces(t) == [s] + Pieces([]);
    assert Pieces([]) == [""];
  }

  lemma {:induction false} FirstTerminatorOf(s: string, rest: string)
    requires NoneIn(s, IsTerminator) && rest != [] && IsTerminator(rest[0])
    ensures FirstTerminator(s + rest) == |s|
    decreases |s|
  {
    if s == [] {
      assert s + rest == rest;
    } else {
      assert (s + rest)[0] == s[0];
      assert (s + rest)[1..] == s[1..] + rest;
      assert NoneIn(s[1..], IsTerminator) by {
        assert forall j | 0 <= j < |s| - 1 :: s[1..][j] == s[j + 1];
      }
      FirstTerminatorOf(s[1..], rest);
    }
  }
}
