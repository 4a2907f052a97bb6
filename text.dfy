/** The text sanitiser of the backend (`sanitizeText`, backend/index.js):
    trim, delete pictographic characters, turn runs of carriage returns and
    tabs into one space, and collapse runs of two or more whitespace
    characters into one space. */
module Text {
  import opened Seqs

  /** The characters of `\s` in an ECMAScript regular expression, which are
      also the characters `String.prototype.trim` removes: the WhiteSpace
      characters (tab, vertical tab, form feed, space, no-break space, zero
      width no-break space and the Zs category, which holds U+3000) and the
      LineTerminator characters. */
  predicate IsWs(c: char) {
    c in WsChars || '\U{2000}' <= c <= '\U{200A}'
  }

  /** The whitespace characters outside the block U+2000..U+200A. */
  const WsChars: set<char> := {
    '\t', '\n', '\U{000B}', '\U{000C}', '\r', ' ', '\U{00A0}', '\U{1680}',
    '\U{2028}', '\U{2029}', '\U{202F}', '\U{205F}', '\U{3000}', '\U{FEFF}'
  }

  /** The class `[\r\t]`. */
  predicate IsCrOrTab(c: char) {
    c == '\r' || c == '\t'
  }

  /** The class of characters the emoji pass deletes,
      `[\p{Extended_Pictographic}\p{Emoji_Presentation}]`. The class leaves
      the space character alone, which is all the model assumes of it. */
  type PictClass = p: char -> bool | !p(' ') witness (c: char) => false

  predicate NotWs(c: char) {
    !IsWs(c)
  }

  predicate AllWs(s: string) {
    forall k | 0 <= k < |s| :: IsWs(s[k])
  }

  predicate NoneIn(s: string, inClass: char -> bool) {
    forall k | 0 <= k < |s| :: !inClass(s[k])
  }

  /** Neither the first nor the last character is whitespace. */
  predicate NoEdgeWs(s: string) {
    s == [] || (!IsWs(s[0]) && !IsWs(s[|s| - 1]))
  }

  /** No two neighbouring characters both belong to the class. */
  predicate NoAdjacentIn(s: string, inClass: char -> bool) {
    forall k | 0 <= k < |s| - 1 :: !(inClass(s[k]) && inClass(s[k + 1]))
  }

  // ---------------------------------------------------------------------
  // String.prototype.trim

  /** The number of whitespace characters `s` holds from index `start` on
      before its first other character. */
  function WsFrom(s: string, start: nat): (n: nat)
    requires start <= |s|
    ensures start + n <= |s|
    ensures forall k | start <= k < start + n :: IsWs(s[k])
    ensures start + n < |s| ==> !IsWs(s[start + n])
    decreases |s| - start
  {
    if start < |s| && IsWs(s[start]) then 1 + WsFrom(s, start + 1) else 0
  }

  /** The number of whitespace characters that end `s[..end]`. */
  function WsBefore(s: string, end: nat): (n: nat)
    requires end <= |s|
    ensures n <= end
    ensures forall k | end - n <= k < end :: IsWs(s[k])
    ensures n < end ==> !IsWs(s[end - n - 1])
  {
    if end > 0 && IsWs(s[end - 1]) then 1 + WsBefore(s, end - 1) else 0
  }

  /** The number of whitespace characters `s` starts with. */
  function LeadingWs(s: string): (n: nat)
    ensures n <= |s|
    ensures forall k | 0 <= k < n :: IsWs(s[k])
    ensures n < |s| ==> !IsWs(s[n])
  {
    WsFrom(s, 0)
  }

  /** The number of whitespace characters `s` ends with. */
  function TrailingWs(s: string): (n: nat)
    ensures n <= |s|
    ensures forall k | |s| - n <= k < |s| :: IsWs(s[k])
    ensures n < |s| ==> !IsWs(s[|s| - n - 1])
  {
    WsBefore(s, |s|)
  }

  /** The leading whitespace is the longest whitespace prefix. */
  lemma LeadingWsIs(s: string, n: nat)
    requires n <= |s| && (forall k | 0 <= k < n :: IsWs(s[k])) && (n < |s| ==> !IsWs(s[n]))
    ensures LeadingWs(s) == n
  {
  }

  /** The trailing whitespace is the longest whitespace suffix. */
  lemma TrailingWsIs(s: string, n: nat)
    requires n <= |s| && (forall k | |s| - n <= k < |s| :: IsWs(s[k]))
    requires n < |s| ==> !IsWs(s[|s| - n - 1])
    ensures TrailingWs(s) == n
  {
  }

  /** `s.trimStart()`. */
  function TrimStart(s: string): string {
    s[LeadingWs(s)..]
  }

  /** `s.trimEnd()`. */
  function TrimEnd(s: string): string {
    s[..|s| - TrailingWs(s)]
  }

  /** `s.trim()`. */
  function Trim(s: string): (r: string)
    ensures |r| <= |s|
    ensures NoEdgeWs(r)
    ensures r == [] <==> AllWs(s)
    ensures NoEdgeWs(s) ==> r == s
  {
    TrimNoEdgeWs(s);
    TrimEmptyIff(s);
    if NoEdgeWs(s) then TrimKeepsTrimmed(s); TrimEnd(TrimStart(s))
    else TrimEnd(TrimStart(s))
  }

  lemma TrimNoEdgeWs(s: string)
    ensures NoEdgeWs(TrimEnd(TrimStart(s)))
  {
    var t := TrimStart(s);
    var r := TrimEnd(t);
    if r != [] {
      assert r[0] == t[0];
      assert r[|r| - 1] == t[|t| - TrailingWs(t) - 1];
    }
  }

  lemma TrimEmptyIff(s: string)
    ensures TrimEnd(TrimStart(s)) == [] <==> AllWs(s)
  {
    var i := LeadingWs(s);
    var t := TrimStart(s);
    if TrimEnd(t) == [] {
      assert TrailingWs(t) == |t|;
    }
    if AllWs(s) {
      assert i == |s|;
    }
  }

  lemma TrimKeepsTrimmed(s: string)
    requires NoEdgeWs(s)
    ensures TrimEnd(TrimStart(s)) == s
  {
    if s != [] {
      LeadingWsIs(s, 0);
      TrailingWsIs(s, 0);
    }
  }

  /** Trimming adds no character. */
  lemma TrimChars(s: string)
    ensures forall c | c in Trim(s) :: c in s
  {
    var i := TrimIsSlice(s);
    var r := Trim(s);
    forall c | c in r ensures c in s {
      var k :| 0 <= k < |r| && r[k] == c;
      assert s[i + k] == c;
    }
  }

  /** What trim keeps is one contiguous slice of the input, and what it
      drops on either side is whitespace. */
  lemma TrimIsSlice(s: string) returns (i: nat)
    ensures i + |Trim(s)| <= |s|
    ensures Trim(s) == s[i..i + |Trim(s)|]
    ensures AllWs(s[..i]) && AllWs(s[i + |Trim(s)|..])
  {
    i := LeadingWs(s);
    var t := s[i..];
    var n := TrailingWs(t);
    LeadingIsWs(s);
    TrailingIsWs(t);
    assert t[..|t| - n] == s[i..|s| - n];
    assert t[|t| - n..] == s[|s| - n..];
  }

  lemma LeadingIsWs(s: string)
    ensures AllWs(s[..LeadingWs(s)])
  {
    assert forall k | 0 <= k < LeadingWs(s) :: s[..LeadingWs(s)][k] == s[k];
  }

  lemma TrailingIsWs(s: string)
    ensures AllWs(s[|s| - TrailingWs(s)..])
  {
    var m := |s| - TrailingWs(s);
    assert forall k | 0 <= k < |s| - m :: s[m..][k] == s[m + k];
  }

  /** Leading whitespace is skipped by `TrimStart` whatever follows it. */
  lemma TrimStartSkipsWs(w: string, x: string)
    requires AllWs(w)
    ensures TrimStart(w + x) == TrimStart(x)
  {
    var n := LeadingWs(x);
    var wx := w + x;
    assert forall k | |w| <= k < |wx| :: wx[k] == x[k - |w|];
    LeadingWsIs(wx, |w| + n);
    assert wx[|w| + n..] == x[n..];
  }

  /** Trailing whitespace is skipped by `TrimEnd` whatever precedes it. */
  lemma TrimEndSkipsWs(x: string, w: string)
    requires AllWs(w)
    ensures TrimEnd(x + w) == TrimEnd(x)
  {
    var n := TrailingWs(x);
    var xw := x + w;
    assert forall k | 0 <= k < |x| :: xw[k] == x[k];
    assert forall k | |x| <= k < |xw| :: xw[k] == w[k - |x|];
    TrailingWsIs(xw, n + |w|);
    assert xw[..|xw| - (n + |w|)] == x[..|x| - n];
  }

  /** Whitespace after text that is not all whitespace survives `TrimStart`. */
  lemma TrimStartAppend(s: string, w: string)
    requires !AllWs(s)
    ensures TrimStart(s + w) == TrimStart(s) + w
  {
    var n := LeadingWs(s);
    var sw := s + w;
    assert n < |s|;
    assert forall k | 0 <= k < |s| :: sw[k] == s[k];
    LeadingWsIs(sw, n);
    assert sw[n..] == s[n..] + w;
  }

  /** Trimming ignores whitespace added at either end. */
  lemma TrimSkipsWs(w0: string, s: string, w1: string)
    requires AllWs(w0) && AllWs(w1)
    ensures Trim(w0 + s + w1) == Trim(s)
  {
    assert w0 + s + w1 == w0 + (s + w1);
    TrimStartSkipsWs(w0, s + w1);
    if AllWs(s) {
      var t := w0 + s + w1;
      assert AllWs(t) by {
        forall k | 0 <= k < |t| ensures IsWs(t[k]) {
          if k < |w0| { assert t[k] == w0[k]; }
          else if k < |w0| + |s| { assert t[k] == s[k - |w0|]; }
          else { assert t[k] == w1[k - |w0| - |s|]; }
        }
      }
    } else {
      TrimStartAppend(s, w1);
      TrimEndSkipsWs(TrimStart(s), w1);
    }
  }

  /** A class absent from the text stays absent after trimming. */
  lemma TrimKeepsNone(s: string, inClass: char -> bool)
    requires NoneIn(s, inClass)
    ensures NoneIn(Trim(s), inClass)
  {
    var t := Trim(s);
    forall k | 0 <= k < |t| ensures !inClass(t[k]) {
      assert t[k] in t;
    }
  }

  lemma {:induction false} NoAdjacentSlice(s: string, i: nat, j: nat, inClass: char -> bool)
    requires i <= j <= |s| && NoAdjacentIn(s, inClass)
    ensures NoAdjacentIn(s[i..j], inClass)
  {
    forall k | 0 <= k < j - i - 1 ensures !(inClass(s[i..j][k]) && inClass(s[i..j][k + 1])) {
      assert s[i..j][k] == s[i + k] && s[i..j][k + 1] == s[i + k + 1];
    }
  }

  // ---------------------------------------------------------------------
  // Global regular-expression replacement of runs by one space

  /** The length of the longest prefix of `s` inside the class. */
  function RunLength(s: string, inClass: char -> bool): (n: nat)
    ensures n <= |s|
    ensures forall k | 0 <= k < n :: inClass(s[k])
    ensures n < |s| ==> !inClass(s[n])
    decreases |s|
  {
    if s != [] && inClass(s[0]) then 1 + RunLength(s[1..], inClass) else 0
  }

  /** `s.replace(/[C]{minRun,}/g, ' ')` for the class C, `minRun` at least 1:
      scanning from the left, each maximal run of class characters at least
      `minRun` long becomes a single space; shorter runs and all other
      characters are kept. */
  function ReplaceRuns(s: string, inClass: char -> bool, minRun: nat): (r: string)
    ensures r == [] <==> s == []
    ensures forall c | c in r :: c in s || c == ' '
    decreases |s|
  {
    if s == [] then []
    else if inClass(s[0]) then
      var n := RunLength(s, inClass);
      var rest := ReplaceRuns(s[n..], inClass, minRun);
      assert forall c | c in s[n..] :: c in s;
      assert forall c | c in s[..n] :: c in s;
      (if n >= minRun then " " else s[..n]) + rest
    else
      var rest := ReplaceRuns(s[1..], inClass, minRun);
      assert forall c | c in s[1..] :: c in s;
      [s[0]] + rest
  }

  /** A character outside the class at the front is kept in place. */
  lemma ReplaceRunsKeepsFirst(s: string, inClass: char -> bool, minRun: nat)
    requires s != [] && !inClass(s[0])
    ensures ReplaceRuns(s, inClass, minRun)[0] == s[0]
  {
  }

  /** A character outside the class at the end is kept in place. */
  lemma {:induction false} ReplaceRunsKeepsLast(s: string, inClass: char -> bool, minRun: nat)
    requires s != [] && !inClass(s[|s| - 1])
    ensures var r := ReplaceRuns(s, inClass, minRun); r[|r| - 1] == s[|s| - 1]
    decreases |s|
  {
    if inClass(s[0]) {
      var n := RunLength(s, inClass);
      assert n < |s|;
      assert s[n..][|s[n..]| - 1] == s[|s| - 1];
      ReplaceRunsKeepsLast(s[n..], inClass, minRun);
    } else if |s| > 1 {
      assert s[1..][|s[1..]| - 1] == s[|s| - 1];
      ReplaceRunsKeepsLast(s[1..], inClass, minRun);
    }
  }

  lemma NoAdjacentAppend(a: string, b: string, inClass: char -> bool)
    requires NoAdjacentIn(a, inClass) && NoAdjacentIn(b, inClass)
    requires a == [] || b == [] || !(inClass(a[|a| - 1]) && inClass(b[0]))
    ensures NoAdjacentIn(a + b, inClass)
  {
    var ab := a + b;
    forall k | 0 <= k < |ab| - 1 ensures !(inClass(ab[k]) && inClass(ab[k + 1])) {
      if k + 1 < |a| {
        assert ab[k] == a[k] && ab[k + 1] == a[k + 1];
      } else if k + 1 == |a| {
        assert ab[k + 1] == b[0];
      } else {
        assert ab[k] == b[k - |a|] && ab[k + 1] == b[k - |a| + 1];
      }
    }
  }

  /** With runs of length one or two replaced, no two class characters are
      left side by side. */
  lemma {:induction false} ReplaceRunsNoAdjacent(s: string, inClass: char -> bool, minRun: nat)
    requires 1 <= minRun <= 2
    ensures NoAdjacentIn(ReplaceRuns(s, inClass, minRun), inClass)
    decreases |s|
  {
    if s == [] {
    } else if inClass(s[0]) {
      var n := RunLength(s, inClass);
      var piece := if n >= minRun then " " else s[..n];
      assert |piece| == 1;
      var rest := ReplaceRuns(s[n..], inClass, minRun);
      ReplaceRunsNoAdjacent(s[n..], inClass, minRun);
      if s[n..] != [] {
        ReplaceRunsKeepsFirst(s[n..], inClass, minRun);
      }
      NoAdjacentAppend(piece, rest, inClass);
    } else {
      var rest := ReplaceRuns(s[1..], inClass, minRun);
      ReplaceRunsNoAdjacent(s[1..], inClass, minRun);
      NoAdjacentAppend([s[0]], rest, inClass);
    }
  }

  /** With every run replaced (`minRun` 1) by a space outside the class, no
      class character is left. */
  lemma {:induction false} ReplaceRunsRemovesClass(s: string, inClass: char -> bool)
    requires !inClass(' ')
    ensures NoneIn(ReplaceRuns(s, inClass, 1), inClass)
    decreases |s|
  {
    if s == [] {
    } else if inClass(s[0]) {
      var n := RunLength(s, inClass);
      ReplaceRunsRemovesClass(s[n..], inClass);
      var rest := ReplaceRuns(s[n..], inClass, 1);
      assert forall k | 1 <= k < 1 + |rest| :: (" " + rest)[k] == rest[k - 1];
    } else {
      ReplaceRunsRemovesClass(s[1..], inClass);
      var rest := ReplaceRuns(s[1..], inClass, 1);
      assert forall k | 1 <= k < 1 + |rest| :: ([s[0]] + rest)[k] == rest[k - 1];
    }
  }

  /** Text without class characters is left unchanged. */
  lemma {:induction false} ReplaceRunsNoClass(s: string, inClass: char -> bool, minRun: nat)
    requires NoneIn(s, inClass)
    ensures ReplaceRuns(s, inClass, minRun) == s
    decreases |s|
  {
    if s != [] {
      ReplaceRunsNoClass(s[1..], inClass, minRun);
      assert s == [s[0]] + s[1..];
    }
  }

  /** Text whose class runs are all single characters is left unchanged by
      the replacement of runs of two or more. */
  lemma {:induction false} ReplaceRunsNoAdjacentUnchanged(s: string, inClass: char -> bool)
    requires NoAdjacentIn(s, inClass)
    ensures ReplaceRuns(s, inClass, 2) == s
    decreases |s|
  {
    if s != [] {
      NoAdjacentSlice(s, 1, |s|, inClass);
      ReplaceRunsNoAdjacentUnchanged(s[1..], inClass);
      if inClass(s[0]) {
        assert RunLength(s, inClass) == 1 by {
          if |s| > 1 { assert !inClass(s[1]); }
        }
      }
      assert s == [s[0]] + s[1..];
    }
  }

  /** A run of class characters stops where the class does. */
  lemma {:induction false} RunLengthOfRun(w: string, b: string, inClass: char -> bool)
    requires forall k | 0 <= k < |w| :: inClass(w[k])
    requires b == [] || !inClass(b[0])
    ensures RunLength(w + b, inClass) == |w|
    decreases |w|
  {
    if w == [] {
      assert w + b == b;
    } else {
      assert (w + b)[1..] == w[1..] + b;
      RunLengthOfRun(w[1..], b, inClass);
    }
  }

  /** A run that ends inside a text does not see what is appended to it. */
  lemma {:induction false} RunLengthAppend(a: string, y: string, inClass: char -> bool)
    requires RunLength(a, inClass) < |a|
    ensures RunLength(a + y, inClass) == RunLength(a, inClass)
    decreases |a|
  {
    if inClass(a[0]) {
      assert (a + y)[1..] == a[1..] + y;
      RunLengthAppend(a[1..], y, inClass);
    }
  }

  /** One step of the replacement at a leading run. */
  lemma ReplaceRunsAtRun(s: string, n: nat, inClass: char -> bool, minRun: nat)
    requires s != [] && inClass(s[0]) && n == RunLength(s, inClass)
    ensures ReplaceRuns(s, inClass, minRun)
         == (if n >= minRun then " " else s[..n]) + ReplaceRuns(s[n..], inClass, minRun)
  {
  }

  /** One step of the replacement at a leading character outside the class. */
  lemma ReplaceRunsAtOther(s: string, inClass: char -> bool, minRun: nat)
    requires s != [] && !inClass(s[0])
    ensures ReplaceRuns(s, inClass, minRun) == [s[0]] + ReplaceRuns(s[1..], inClass, minRun)
  {
  }

  /** A maximal run `w` between `a` and `b` is replaced on its own: by one
      space when it is at least `minRun` long, and kept otherwise; the text
      on either side is replaced separately. */
  lemma {:induction false} ReplaceRunsSplit(a: string, w: string, b: string, inClass: char -> bool, minRun: nat)
    requires w != [] && forall k | 0 <= k < |w| :: inClass(w[k])
    requires a == [] || !inClass(a[|a| - 1])
    requires b == [] || !inClass(b[0])
    ensures ReplaceRuns(a + w + b, inClass, minRun)
         == ReplaceRuns(a, inClass, minRun) + (if |w| >= minRun then " " else w) + ReplaceRuns(b, inClass, minRun)
    decreases |a|, 1
  {
    if a == [] {
      ReplaceRunsAtMaximalRun(w, b, inClass, minRun);
      RegroupNil(a, ReplaceRuns(a, inClass, minRun), w, b);
    } else {
      ReplaceRunsSplitCons(a, w, b, inClass, minRun);
    }
  }

  /** The step case of `ReplaceRunsSplit`: the first step on `a` is the
      same with `w + b` appended. */
  lemma {:induction false} ReplaceRunsSplitCons(a: string, w: string, b: string, inClass: char -> bool, minRun: nat)
    requires w != [] && forall k | 0 <= k < |w| :: inClass(w[k])
    requires a != [] && !inClass(a[|a| - 1])
    requires b == [] || !inClass(b[0])
    ensures ReplaceRuns(a + w + b, inClass, minRun)
         == ReplaceRuns(a, inClass, minRun) + (if |w| >= minRun then " " else w) + ReplaceRuns(b, inClass, minRun)
    decreases |a|, 0
  {
    var m, head := ReplaceRunsHead(a, w + b, inClass, minRun);
    var tail := a[m..];
    assert a + w + b == a + (w + b);
    assert tail + (w + b) == tail + w + b;
    if tail != [] {
      assert tail[|tail| - 1] == a[|a| - 1];
    }
    ReplaceRunsSplit(tail, w, b, inClass, minRun);
    RegroupFour(head, ReplaceRuns(tail, inClass, minRun), if |w| >= minRun then " " else w, ReplaceRuns(b, inClass, minRun));
  }

  /** A text that starts with a maximal run `w`. */
  lemma ReplaceRunsAtMaximalRun(w: string, b: string, inClass: char -> bool, minRun: nat)
    requires w != [] && forall k | 0 <= k < |w| :: inClass(w[k])
    requires b == [] || !inClass(b[0])
    ensures ReplaceRuns(w + b, inClass, minRun)
         == (if |w| >= minRun then " " else w) + ReplaceRuns(b, inClass, minRun)
  {
    var s := w + b;
    RunLengthOfRun(w, b, inClass);
    assert s[..|w|] == w && s[|w|..] == b;
    ReplaceRunsAtRun(s, |w|, inClass, minRun);
  }

  /** The first step of the replacement on a text `a` whose last character
      is outside the class, alone and with `y` appended: the same `head`
      is produced and the same `m` characters consumed. */
  lemma ReplaceRunsHead(a: string, y: string, inClass: char -> bool, minRun: nat) returns (m: nat, head: string)
    requires a != [] && !inClass(a[|a| - 1])
    ensures 1 <= m <= |a|
    ensures ReplaceRuns(a, inClass, minRun) == head + ReplaceRuns(a[m..], inClass, minRun)
    ensures ReplaceRuns(a + y, inClass, minRun) == head + ReplaceRuns(a[m..] + y, inClass, minRun)
  {
    if inClass(a[0]) {
      m := RunLength(a, inClass);
      head := if m >= minRun then " " else a[..m];
      ReplaceRunsHeadRun(a, y, m, inClass, minRun);
    } else {
      m := 1;
      head := [a[0]];
      ReplaceRunsHeadOther(a, y, inClass, minRun);
    }
  }

  lemma ReplaceRunsHeadRun(a: string, y: string, m: nat, inClass: char -> bool, minRun: nat)
    requires a != [] && inClass(a[0]) && !inClass(a[|a| - 1]) && m == RunLength(a, inClass)
    ensures m < |a|
    ensures ReplaceRuns(a, inClass, minRun) == (if m >= minRun then " " else a[..m]) + ReplaceRuns(a[m..], inClass, minRun)
    ensures ReplaceRuns(a + y, inClass, minRun) == (if m >= minRun then " " else a[..m]) + ReplaceRuns(a[m..] + y, inClass, minRun)
  {
    var s := a + y;
    RunLengthAppend(a, y, inClass);
    assert s[0] == a[0];
    assert s[..m] == a[..m] && s[m..] == a[m..] + y;
    ReplaceRunsAtRun(s, m, inClass, minRun);
    ReplaceRunsAtRun(a, m, inClass, minRun);
  }

  lemma ReplaceRunsHeadOther(a: string, y: string, inClass: char -> bool, minRun: nat)
    requires a != [] && !inClass(a[0])
    ensures ReplaceRuns(a, inClass, minRun) == [a[0]] + ReplaceRuns(a[1..], inClass, minRun)
    ensures ReplaceRuns(a + y, inClass, minRun) == [a[0]] + ReplaceRuns(a[1..] + y, inClass, minRun)
  {
    var s := a + y;
    assert s[0] == a[0] && s[1..] == a[1..] + y;
    ReplaceRunsAtOther(s, inClass, minRun);
    ReplaceRunsAtOther(a, inClass, minRun);
  }

  lemma RegroupNil(a: string, ra: string, w: string, b: string)
    requires a == [] && ra == []
    ensures a + w + b == w + b
    ensures forall x: string, y: string :: ra + x + y == x + y
  {
  }

  lemma RegroupFour(h: string, x: string, y: string, z: string)
    ensures h + (x + y + z) == (h + x) + y + z
  {
  }

  /** A maximal run of at least `minRun` class characters becomes exactly
      one space. */
  lemma ReplaceRunsAround(a: string, w: string, b: string, inClass: char -> bool, minRun: nat)
    requires 1 <= minRun <= |w| && forall k | 0 <= k < |w| :: inClass(w[k])
    requires a == [] || !inClass(a[|a| - 1])
    requires b == [] || !inClass(b[0])
    ensures ReplaceRuns(a + w + b, inClass, minRun)
         == ReplaceRuns(a, inClass, minRun) + " " + ReplaceRuns(b, inClass, minRun)
  {
    ReplaceRunsSplit(a, w, b, inClass, minRun);
  }

  /** A maximal run shorter than `minRun` is kept as it is. */
  lemma ReplaceRunsShortRun(a: string, w: string, b: string, inClass: char -> bool, minRun: nat)
    requires 1 <= |w| < minRun && forall k | 0 <= k < |w| :: inClass(w[k])
    requires a == [] || !inClass(a[|a| - 1])
    requires b == [] || !inClass(b[0])
    ensures ReplaceRuns(a + w + b, inClass, minRun)
         == ReplaceRuns(a, inClass, minRun) + w + ReplaceRuns(b, inClass, minRun)
  {
    ReplaceRunsSplit(a, w, b, inClass, minRun);
  }

  /** Two spaces between two other characters collapse to one:
      `"a  b".replace(/\s{2,}/g, ' ')` is `"a b"`. */
  lemma CollapseDoubleSpace(x: char, y: char)
    requires !IsWs(x) && !IsWs(y)
    ensures CollapseWs([x, ' ', ' ', y]) == [x, ' ', y]
  {
    assert [x, ' ', ' ', y] == [x] + [' ', ' '] + [y];
    ReplaceRunsAround([x], [' ', ' '], [y], IsWs, 2);
    ReplaceRunsNoClass([x], IsWs, 2);
    ReplaceRunsNoClass([y], IsWs, 2);
  }

  // ---------------------------------------------------------------------
  // sanitizeText

  /** `s.replace(/[\p{Extended_Pictographic}\p{Emoji_Presentation}]/gu, '')`. */
  function RemovePictographs(s: string, pict: PictClass): string {
    Filter(s, (c: char) => !pict(c))
  }

  /** `s.replace(/[\r\t]+/g, ' ')`. */
  function ReplaceCrTab(s: string): string {
    ReplaceRuns(s, IsCrOrTab, 1)
  }

  /** `s.replace(/\s{2,}/g, ' ')`. */
  function CollapseWs(s: string): string {
    ReplaceRuns(s, IsWs, 2)
  }

  /** `sanitizeText(input)`: the four stages in the order the backend runs
      them. Every character of the output comes from the input, except the
      spaces that replace runs. */
  function Sanitize(input: string, pict: PictClass): (r: string)
    ensures forall c | c in r :: c in input || c == ' '
  {
    var t := Trim(input);
    var noPict := RemovePictographs(t, pict);
    TrimChars(input);
    FilterKeeps(t, (c: char) => !pict(c));
    CollapseWs(ReplaceCrTab(noPict))
  }

  /** Trimming removes whitespace only. */
  lemma FilterTrim(s: string)
    ensures Filter(Trim(s), NotWs) == Filter(s, NotWs)
  {
    var t := Trim(s);
    var i := TrimIsSlice(s);
    FilterSliceWs(s, i, i + |t|, t);
  }

  /** Filtering out whitespace from text whose parts around a slice are all
      whitespace keeps what that slice keeps. */
  lemma FilterSliceWs(s: string, i: nat, j: nat, m: string)
    requires i <= j <= |s| && m == s[i..j] && AllWs(s[..i]) && AllWs(s[j..])
    ensures Filter(m, NotWs) == Filter(s, NotWs)
  {
    ThreeParts(s, i, j);
    FilterAroundWs(s[..i], s[i..j], s[j..]);
  }

  lemma ThreeParts(s: string, i: nat, j: nat)
    requires i <= j <= |s|
    ensures s == s[..i] + s[i..j] + s[j..]
  {
  }

  lemma FilterAroundWs(a: string, m: string, b: string)
    requires AllWs(a) && AllWs(b)
    ensures Filter(a + m + b, NotWs) == Filter(m, NotWs)
  {
    FilterAppend(a + m, b, NotWs);
    FilterAppend(a, m, NotWs);
    FilterDropsWs(a);
    FilterDropsWs(b);
  }

  lemma FilterDropsWs(x: string)
    requires AllWs(x)
    ensures Filter(x, NotWs) == []
  {
  }

  /** Replacing runs of a whitespace class by a space removes whitespace
      only. */
  lemma {:induction false} FilterReplaceRuns(s: string, inClass: char -> bool, minRun: nat)
    requires forall c :: inClass(c) ==> IsWs(c)
    ensures Filter(ReplaceRuns(s, inClass, minRun), NotWs) == Filter(s, NotWs)
    decreases |s|
  {
    if s != [] {
      if inClass(s[0]) {
        var n := RunLength(s, inClass);
        assert n >= 1;
        var rest := ReplaceRuns(s[n..], inClass, minRun);
        var piece := if n >= minRun then " " else s[..n];
        assert ReplaceRuns(s, inClass, minRun) == piece + rest;
        FilterReplaceRuns(s[n..], inClass, minRun);
        assert s == s[..n] + s[n..];
        assert AllWs(s[..n]) && AllWs(piece);
        FilterWsStep(s[..n], piece, s[n..], rest);
      } else {
        FilterReplaceRuns(s[1..], inClass, minRun);
        assert s == [s[0]] + s[1..];
        FilterConsStep(s[0], s[1..], ReplaceRuns(s[1..], inClass, minRun));
      }
    }
  }

  /** Replacing one whitespace stretch by another before texts that keep
      the same characters keeps the same characters. */
  lemma FilterWsStep(head: string, piece: string, tail: string, replaced: string)
    requires AllWs(head) && AllWs(piece)
    requires Filter(replaced, NotWs) == Filter(tail, NotWs)
    ensures Filter(piece + replaced, NotWs) == Filter(head + tail, NotWs)
  {
    FilterAppend(piece, replaced, NotWs);
    FilterAppend(head, tail, NotWs);
    FilterDropsWs(head);
    FilterDropsWs(piece);
  }

  lemma FilterConsStep(c: char, tail: string, replaced: string)
    requires Filter(replaced, NotWs) == Filter(tail, NotWs)
    ensures Filter([c] + replaced, NotWs) == Filter([c] + tail, NotWs)
  {
    assert ([c] + replaced)[1..] == replaced;
    assert ([c] + tail)[1..] == tail;
  }

  /** The sanitiser keeps every character that is neither whitespace nor
      pictographic, in order, and no other: only whitespace is added,
      dropped, merged or replaced. */
  lemma SanitizeKeeps(input: string, pict: PictClass, keep: char -> bool)
    requires forall c :: keep(c) == (!IsWs(c) && !pict(c))
    ensures Filter(Sanitize(input, pict), NotWs) == Filter(input, keep)
  {
    var t := Trim(input);
    var nonPict := (c: char) => !pict(c);
    var noPict := RemovePictographs(t, pict);
    assert noPict == Filter(t, nonPict);
    FilterFilter(t, nonPict, NotWs, keep);
    FilterFilter(t, NotWs, nonPict, keep);
    FilterFilter(input, NotWs, nonPict, keep);
    FilterTrim(input);
    var noCrTab := ReplaceCrTab(noPict);
    FilterReplaceRuns(noPict, IsCrOrTab, 1);
    FilterReplaceRuns(noCrTab, IsWs, 2);
  }

  /** A class the space is not in stays absent when characters are only
      kept or replaced by spaces. */
  lemma NoneInKept(s: string, r: string, inClass: char -> bool)
    requires NoneIn(s, inClass) && !inClass(' ')
    requires forall c | c in r :: c in s || c == ' '
    ensures NoneIn(r, inClass)
  {
    forall k | 0 <= k < |r| ensures !inClass(r[k]) {
      assert r[k] in r;
      if r[k] != ' ' {
        var j :| 0 <= j < |s| && s[j] == r[k];
      }
    }
  }

  lemma RemovePictographsClean(s: string, pict: PictClass)
    ensures NoneIn(RemovePictographs(s, pict), pict)
    ensures NoneIn(s, pict) ==> RemovePictographs(s, pict) == s
  {
  }

  /** Text the sanitiser leaves as it is, once trimmed: no pictographic
      character, no carriage return or tab, no two neighbouring whitespace
      characters. */
  predicate IsClean(s: string, pict: PictClass) {
    NoneIn(s, pict) && NoneIn(s, IsCrOrTab) && NoAdjacentIn(s, IsWs)
  }

  /** Every slice of clean text is clean. */
  lemma CleanSlice(s: string, i: nat, j: nat, pict: PictClass)
    requires i <= j <= |s| && IsClean(s, pict)
    ensures IsClean(s[i..j], pict)
  {
    NoAdjacentSlice(s, i, j, IsWs);
    assert forall k | 0 <= k < j - i :: s[i..j][k] == s[i + k];
  }

  /** Trimmed clean text is clean. */
  lemma CleanTrim(s: string, pict: PictClass)
    requires IsClean(s, pict)
    ensures IsClean(Trim(s), pict)
  {
    var i := TrimIsSlice(s);
    CleanSlice(s, i, i + |Trim(s)|, pict);
  }

  /** The output of the sanitiser holds no pictographic character, no
      carriage return or tab, and no two neighbouring whitespace characters. */
  lemma SanitizeClean(input: string, pict: PictClass)
    ensures IsClean(Sanitize(input, pict), pict)
  {
    var noPict := RemovePictographs(Trim(input), pict);
    var noCrTab := ReplaceCrTab(noPict);
    var r := CollapseWs(noCrTab);
    RemovePictographsClean(Trim(input), pict);
    NoneInKept(noPict, noCrTab, pict);
    NoneInKept(noCrTab, r, pict);
    ReplaceRunsRemovesClass(noPict, IsCrOrTab);
    NoneInKept(noCrTab, r, IsCrOrTab);
    ReplaceRunsNoAdjacent(noCrTab, IsWs, 2);
  }

  /** On input without pictographic characters the output starts and ends
      with a character other than whitespace (or is empty). */
  lemma SanitizeNoEdgeWs(input: string, pict: PictClass)
    requires NoneIn(input, pict)
    ensures NoEdgeWs(Sanitize(input, pict))
  {
    var trimmed := Trim(input);
    assert NoneIn(trimmed, pict) by {
      forall k | 0 <= k < |trimmed| ensures !pict(trimmed[k]) {
        assert trimmed[k] in trimmed;
      }
    }
    RemovePictographsClean(trimmed, pict);
    var noCrTab := ReplaceCrTab(trimmed);
    if trimmed != [] {
      ReplaceRunsKeepsFirst(trimmed, IsCrOrTab, 1);
      ReplaceRunsKeepsLast(trimmed, IsCrOrTab, 1);
      ReplaceRunsKeepsFirst(noCrTab, IsWs, 2);
      ReplaceRunsKeepsLast(noCrTab, IsWs, 2);
    }
  }

  /** Text that is already clean is a fixed point of the sanitiser. */
  lemma SanitizeFixedPoint(t: string, pict: PictClass)
    requires NoEdgeWs(t) && IsClean(t, pict)
    ensures Sanitize(t, pict) == t
  {
    assert Trim(t) == t;
    RemovePictographsClean(t, pict);
    ReplaceRunsNoClass(t, IsCrOrTab, 1);
    ReplaceRunsNoAdjacentUnchanged(t, IsWs);
  }

  /** A second pass does nothing beyond a trim: the first pass leaves no
      pictographs, no carriage returns or tabs and no whitespace pairs, and a
      trim cannot bring any back. */
  lemma SanitizeTwice(input: string, pict: PictClass)
    ensures Sanitize(Sanitize(input, pict), pict) == Trim(Sanitize(input, pict))
  {
    var o := Sanitize(input, pict);
    var t := Trim(o);
    SanitizeClean(input, pict);
    NoneInKept(o, t, pict);
    NoneInKept(o, t, IsCrOrTab);
    var i := TrimIsSlice(o);
    NoAdjacentSlice(o, i, i + |t|, IsWs);
    SanitizeFixedPoint(t, pict);
    assert Sanitize(o, pict) == CollapseWs(ReplaceCrTab(RemovePictographs(t, pict)));
  }

  /** On input without pictographic characters the sanitiser is idempotent. */
  lemma SanitizeIdempotent(input: string, pict: PictClass)
    requires NoneIn(input, pict)
    ensures Sanitize(Sanitize(input, pict), pict) == Sanitize(input, pict)
  {
    SanitizeTwice(input, pict);
    SanitizeNoEdgeWs(input, pict);
  }

  /** The sanitiser yields the empty string exactly when the trimmed input
      consists of pictographic characters only. */
  lemma SanitizeEmpty(input: string, pict: PictClass)
    ensures Sanitize(input, pict) == "" <==> forall k | 0 <= k < |Trim(input)| :: pict(Trim(input)[k])
  {
  }

  /** Without pictographic characters the sanitiser yields the empty string
      exactly on blank input. */
  lemma SanitizeEmptyIffBlank(input: string, pict: PictClass)
    requires NoneIn(input, pict)
    ensures Sanitize(input, pict) == "" <==> AllWs(input)
  {
    SanitizeEmpty(input, pict);
    var t := Trim(input);
    if t != [] {
      assert t[0] in t;
      assert !pict(t[0]);
    }
  }

  /** Deleting pictographs after trimming can expose whitespace at the edge,
      so in general a second pass still changes the text: a pictograph, a
      space and a letter lose the pictograph in the first pass and the space
      only in the second. */
  lemma {:induction false} SanitizeExposesSpace(e: char, c: char, pict: PictClass)
    requires pict(e) && !IsWs(e) && !pict(c) && !IsWs(c)
    ensures Sanitize([e, ' ', c], pict) == [' ', c]
    ensures Sanitize([' ', c], pict) == [c]
  {
    FirstPassKeepsSpace(e, c, pict);
    SecondPassTrimsSpace(c, pict);
  }

  lemma FirstPassKeepsSpace(e: char, c: char, pict: PictClass)
    requires pict(e) && !IsWs(e) && !pict(c) && !IsWs(c)
    ensures Sanitize([e, ' ', c], pict) == [' ', c]
  {
    var s := [e, ' ', c];
    var t := [' ', c];
    assert NoEdgeWs(s);
    assert Trim(s) == s;
    assert s[1..] == t;
    assert NoneIn(t, pict);
    RemovePictographsClean(t, pict);
    assert RemovePictographs(s, pict) == t;
    assert NoneIn(t, IsCrOrTab) && NoAdjacentIn(t, IsWs);
    ReplaceRunsNoClass(t, IsCrOrTab, 1);
    ReplaceRunsNoAdjacentUnchanged(t, IsWs);
  }

  lemma SecondPassTrimsSpace(c: char, pict: PictClass)
    requires !pict(c) && !IsWs(c)
    ensures Sanitize([' ', c], pict) == [c]
  {
    var t := [' ', c];
    assert t[1..] == [c];
    assert TrimStart(t) == TrimStart([c]) == [c];
    assert Trim(t) == [c];
    assert NoneIn([c], pict) && NoneIn([c], IsCrOrTab) && NoAdjacentIn([c], IsWs);
    SanitizeFixedPoint([c], pict);
  }

  /** The instance `"😀 a"`, for any class holding U+1F600 (which is
      Extended_Pictographic): it becomes `" a"`, and a second pass gives
      `"a"`. */
  lemma SanitizeNotIdempotent(pict: PictClass)
    requires pict('\U{1F600}') && !pict('a')
    ensures Sanitize("\U{1F600} a", pict) == " a"
    ensures Sanitize(" a", pict) == "a"
  {
    SanitizeExposesSpace('\U{1F600}', 'a', pict);
  }

  /** Words separated by spaces and a tab stay separated by exactly one
      space: `"a \t b"` becomes `"a   b"` after the tab pass and `"a b"`
      after the collapse. */
  lemma SanitizeSeparatesWords(x: char, y: char, pict: PictClass)
    requires !IsWs(x) && !IsWs(y) && !pict(x) && !pict(y) && !pict('\t')
    ensures Sanitize([x, ' ', '\t', ' ', y], pict) == [x, ' ', y]
  {
    var s := [x, ' ', '\t', ' ', y];
    assert NoEdgeWs(s);
    assert NoneIn(s, pict);
    RemovePictographsClean(s, pict);
    ReplaceLoneTab(x, y);
    CollapseTripleSpace(x, y);
  }

  lemma ReplaceLoneTab(x: char, y: char)
    requires !IsWs(x) && !IsWs(y)
    ensures ReplaceCrTab([x, ' ', '\t', ' ', y]) == [x, ' ', ' ', ' ', y]
  {
    assert [x, ' ', '\t', ' ', y] == [x, ' '] + ['\t'] + [' ', y];
    ReplaceRunsAround([x, ' '], ['\t'], [' ', y], IsCrOrTab, 1);
    ReplaceRunsNoClass([x, ' '], IsCrOrTab, 1);
    ReplaceRunsNoClass([' ', y], IsCrOrTab, 1);
  }

  lemma CollapseTripleSpace(x: char, y: char)
    requires !IsWs(x) && !IsWs(y)
    ensures CollapseWs([x, ' ', ' ', ' ', y]) == [x, ' ', y]
  {
    assert [x, ' ', ' ', ' ', y] == [x] + [' ', ' ', ' '] + [y];
    ReplaceRunsAround([x], [' ', ' ', ' '], [y], IsWs, 2);
    ReplaceRunsNoClass([x], IsWs, 2);
    ReplaceRunsNoClass([y], IsWs, 2);
  }
}
