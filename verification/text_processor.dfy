/**
 * The text processor (src/models/TextProcessor.ts): markdown to paragraphs of
 * words, with the wiki links and keywords each paragraph mentions, plus the
 * cursor-to-word estimate and the document outline it keeps.
 */
module TextProcessor {
  import opened Wrappers
  import opened Strings
  import Sorting
  import MarkdownParser
  import ChineseTokenizer

  // ---------------------------------------------------------------- words

  /** A character of the CJK Unified Ideographs range U+4E00 to U+9FA5. */
  predicate IsChinese(c: char) {
    '一' <= c <= '龥'
  }

  /** `containsChinese`: the test of `/[一-龥]/`. */
  function ContainsChinese(s: string): (r: bool)
    ensures r <==> exists i :: 0 <= i < |s| && IsChinese(s[i])
  {
    if |s| == 0 then false
    else if IsChinese(s[0]) then true
    else
      assert forall i :: 1 <= i < |s| ==> s[i] == s[1..][i - 1];
      ContainsChinese(s[1..])
  }

  /** `tokenizeText`: the dictionary tokenizer for text with Chinese when it is
      enabled, otherwise the non-empty whitespace-separated pieces. */
  function TokenizeText(useChineseTokenizer: bool, text: string): (r: seq<string>)
    ensures forall i :: 0 <= i < |r| ==> |r[i]| > 0
    ensures useChineseTokenizer && ContainsChinese(text) ==> Concat(r) == text
    ensures !(useChineseTokenizer && ContainsChinese(text)) ==>
      Concat(r) == RemoveWhite(text) && forall i :: 0 <= i < |r| ==> NoWhite(r[i])
  {
    if useChineseTokenizer && ContainsChinese(text) then ChineseTokenizer.Tokenize(text)
    else Words(text)
  }

  /** Either way, the words hold exactly the non-whitespace characters of the
      text, in order. */
  lemma {:induction false} TokenizeKeepsText(useChineseTokenizer: bool, text: string)
    ensures RemoveWhite(Concat(TokenizeText(useChineseTokenizer, text))) == RemoveWhite(text)
  {
    if !(useChineseTokenizer && ContainsChinese(text)) {
      RemoveWhiteOfNoWhite(RemoveWhite(text));
    }
  }

  /** Text that is not all whitespace yields at least one word. */
  lemma {:induction false} TokenizeNonBlank(useChineseTokenizer: bool, text: string)
    requires !AllWhite(text)
    ensures |TokenizeText(useChineseTokenizer, text)| > 0
  {
    RemoveWhiteEmptyIff(text);
    TokenizeKeepsText(useChineseTokenizer, text);
  }

  /** Words joined by single spaces, without Chinese, come back unchanged. */
  lemma {:induction false} TokenizeJoined(useChineseTokenizer: bool, ws: seq<string>)
    requires forall i :: 0 <= i < |ws| ==> |ws[i]| > 0 && NoWhite(ws[i])
    requires !ContainsChinese(JoinSpaces(ws))
    ensures TokenizeText(useChineseTokenizer, JoinSpaces(ws)) == ws
  {
    WordsJoinSpaces(ws);
  }

  // ---------------------------------------------------------------- paragraphs

  /** The greatest index in `[a, b)` holding a line feed. */
  function LastNewline(s: string, a: nat, b: nat): (r: Option<nat>)
    requires a <= b <= |s|
    ensures r.Some? ==> a <= r.value < b && s[r.value] == '\n'
    ensures r.Some? ==> forall k :: r.value < k < b ==> s[k] != '\n'
    ensures r.None? ==> forall k :: a <= k < b ==> s[k] != '\n'
    decreases b - a
  {
    if a == b then None
    else if s[b - 1] == '\n' then Some(b - 1)
    else LastNewline(s, a, b - 1)
  }

  /** The end of the match of `\n\s*\n` at `p`: a line feed, then the greedy
      whitespace run given back up to its last line feed. */
  function SeparatorAt(s: string, p: nat): (r: Option<nat>)
    requires p < |s|
    ensures r.Some? ==> p + 2 <= r.value <= |s| && s[p] == '\n' && s[r.value - 1] == '\n'
    ensures r.Some? ==> forall k :: p <= k < r.value ==> IsWhite(s[k])
    ensures r.Some? ==> r.value <= WhiteRunEnd(s, p + 1) && forall k :: r.value <= k < WhiteRunEnd(s, p + 1) ==> s[k] != '\n'
    ensures r.None? ==> s[p] != '\n' || forall k :: p < k < WhiteRunEnd(s, p + 1) ==> s[k] != '\n'
  {
    if s[p] == '\n' then
      match LastNewline(s, p + 1, WhiteRunEnd(s, p + 1))
      case Some(k) => Some(k + 1)
      case None => None
    else None
  }

  /** A blank line: two line feeds with only whitespace between them. */
  ghost predicate NoBlankLine(t: string) {
    forall i, j :: 0 <= i < j < |t| && t[i] == '\n' && t[j] == '\n' ==>
      exists k :: i < k < j && !IsWhite(t[k])
  }

  /** A blank line at `i` in `s` is a separator match at `i`. */
  lemma {:induction false} BlankLineIsSeparator(s: string, i: nat, j: nat)
    requires i < j < |s| && s[i] == '\n' && s[j] == '\n'
    requires forall k :: i < k < j ==> IsWhite(s[k])
    ensures SeparatorAt(s, i).Some?
  {
    LineTerminatorIsWhite(s[j]);
    var w := WhiteRunEnd(s, i + 1);
    assert j < w;
  }

  /** `split(/\n\s*\n/)` of `s` from position `p`, the current piece starting at
      `start`. */
  function SplitFrom(s: string, start: nat, p: nat): (r: seq<string>)
    requires start <= p <= |s|
    ensures |r| >= 1
    decreases |s| - p
  {
    if p == |s| then [s[start..]]
    else
      match SeparatorAt(s, p)
      case Some(e) => [s[start..p]] + SplitFrom(s, e, e)
      case None => SplitFrom(s, start, p + 1)
  }

  function SplitParagraphs(s: string): seq<string> {
    SplitFrom(s, 0, 0)
  }

  /** The separator texts `SplitFrom` drops, one between each two pieces. */
  function Separators(s: string, start: nat, p: nat): (r: seq<string>)
    requires start <= p <= |s|
    decreases |s| - p
  {
    if p == |s| then []
    else
      match SeparatorAt(s, p)
      case Some(e) => [s[p..e]] + Separators(s, e, e)
      case None => Separators(s, start, p + 1)
  }

  /** A blank-line separator: a line feed, whitespace, and a line feed. */
  predicate IsSeparatorText(t: string) {
    |t| >= 2 && t[0] == '\n' && t[|t| - 1] == '\n' && AllWhite(t)
  }

  /** The pieces with the separators put back between them. */
  function Interleave(pieces: seq<string>, seps: seq<string>): string
    requires |pieces| == |seps| + 1
    decreases |seps|
  {
    if |seps| == 0 then pieces[0] else pieces[0] + seps[0] + Interleave(pieces[1..], seps[1..])
  }

  lemma {:induction false} SeparatorText(s: string, p: nat, e: nat)
    requires p < |s| && SeparatorAt(s, p) == Some(e)
    ensures IsSeparatorText(s[p..e])
  {
    var t := s[p..e];
    assert t[0] == s[p] && t[|t| - 1] == s[e - 1];
    forall k | 0 <= k < |t| ensures IsWhite(t[k]) {
      assert t[k] == s[p + k];
    }
  }

  lemma {:induction false} SeparatorsCount(s: string, start: nat, p: nat)
    requires start <= p <= |s|
    ensures |Separators(s, start, p)| + 1 == |SplitFrom(s, start, p)|
    decreases |s| - p
  {
    if p < |s| {
      match SeparatorAt(s, p)
      case Some(e) => SeparatorsCount(s, e, e);
      case None => SeparatorsCount(s, start, p + 1);
    }
  }

  lemma {:induction false} SeparatorsBlank(s: string, start: nat, p: nat)
    requires start <= p <= |s|
    ensures forall i :: 0 <= i < |Separators(s, start, p)| ==> IsSeparatorText(Separators(s, start, p)[i])
    decreases |s| - p
  {
    if p < |s| {
      match SeparatorAt(s, p)
      case Some(e) =>
        SeparatorsBlank(s, e, e);
        SeparatorText(s, p, e);
        var seps := Separators(s, e, e);
        assert Separators(s, start, p) == [s[p..e]] + seps;
      case None =>
        SeparatorsBlank(s, start, p + 1);
    }
  }

  lemma {:induction false} SeparatorsRebuild(s: string, start: nat, p: nat)
    requires start <= p <= |s|
    ensures |Separators(s, start, p)| + 1 == |SplitFrom(s, start, p)|
    ensures Interleave(SplitFrom(s, start, p), Separators(s, start, p)) == s[start..]
    decreases |s| - p
  {
    SeparatorsCount(s, start, p);
    if p < |s| {
      match SeparatorAt(s, p)
      case Some(e) =>
        SeparatorsRebuild(s, e, e);
        var pieces := SplitFrom(s, e, e);
        var seps := Separators(s, e, e);
        var all := [s[start..p]] + pieces;
        var allSeps := [s[p..e]] + seps;
        assert SplitFrom(s, start, p) == all;
        assert Separators(s, start, p) == allSeps;
        assert all[1..] == pieces && allSeps[1..] == seps;
        assert Interleave(all, allSeps) == s[start..p] + s[p..e] + s[e..];
        assert s[start..] == s[start..p] + s[p..e] + s[e..];
      case None =>
        SeparatorsRebuild(s, start, p + 1);
    }
  }

  /** The split loses nothing: putting the separators back between the pieces
      rebuilds the text, and every separator is a blank line. */
  lemma {:induction false} SplitRebuilds(s: string, start: nat, p: nat)
    requires start <= p <= |s|
    ensures |Separators(s, start, p)| + 1 == |SplitFrom(s, start, p)|
    ensures Interleave(SplitFrom(s, start, p), Separators(s, start, p)) == s[start..]
    ensures forall i :: 0 <= i < |Separators(s, start, p)| ==> IsSeparatorText(Separators(s, start, p)[i])
  {
    SeparatorsRebuild(s, start, p);
    SeparatorsBlank(s, start, p);
  }

  /** Removing a separator drops only whitespace. */
  lemma {:induction false} DropSeparator(s: string, start: nat, p: nat, e: nat)
    requires start <= p < e <= |s|
    requires forall k :: p <= k < e ==> IsWhite(s[k])
    ensures RemoveWhite(s[start..]) == RemoveWhite(s[start..p]) + RemoveWhite(s[e..])
  {
    assert s[start..] == s[start..p] + s[p..e] + s[e..];
    RemoveWhiteAppend(s[start..p] + s[p..e], s[e..]);
    RemoveWhiteAppend(s[start..p], s[p..e]);
    RemoveWhiteOfAllWhite(s[p..e]);
  }

  /** `RemoveWhite` of the concatenation of a piece and more pieces. */
  lemma {:induction false} RemoveWhiteCons(x: string, rest: seq<string>)
    ensures RemoveWhite(Concat([x] + rest)) == RemoveWhite(x) + RemoveWhite(Concat(rest))
  {
    ConcatAppend([x], rest);
    assert Concat([x]) == x;
    RemoveWhiteAppend(x, Concat(rest));
  }

  /** Only whitespace is dropped by the split: the pieces hold the text's
      non-whitespace characters, in order. */
  lemma {:induction false} SplitKeepsText(s: string, start: nat, p: nat)
    requires start <= p <= |s|
    ensures RemoveWhite(Concat(SplitFrom(s, start, p))) == RemoveWhite(s[start..])
    decreases |s| - p
  {
    if p < |s| {
      match SeparatorAt(s, p)
      case Some(e) =>
        SplitKeepsText(s, e, e);
        var rest := SplitFrom(s, e, e);
        assert SplitFrom(s, start, p) == [s[start..p]] + rest;
        RemoveWhiteCons(s[start..p], rest);
        DropSeparator(s, start, p, e);
      case None =>
        SplitKeepsText(s, start, p + 1);
    } else {
      assert Concat([s[start..]]) == s[start..];
    }
  }

  /** No piece of the split contains a blank line. */
  lemma {:induction false} SplitNoBlankLine(s: string, start: nat, p: nat)
    requires start <= p <= |s|
    requires forall i :: start <= i < p ==> SeparatorAt(s, i).None?
    ensures forall k :: 0 <= k < |SplitFrom(s, start, p)| ==> NoBlankLine(SplitFrom(s, start, p)[k])
    decreases |s| - p
  {
    if p == |s| {
      PieceNoBlankLine(s, start, p);
      assert s[start..p] == s[start..];
      assert SplitFrom(s, start, p) == [s[start..p]];
    } else {
      match SeparatorAt(s, p)
      case Some(e) =>
        PieceNoBlankLine(s, start, p);
        SplitNoBlankLine(s, e, e);
        var rest := SplitFrom(s, e, e);
        assert SplitFrom(s, start, p) == [s[start..p]] + rest;
        assert forall k :: 1 <= k < |rest| + 1 ==> ([s[start..p]] + rest)[k] == rest[k - 1];
      case None =>
        SplitNoBlankLine(s, start, p + 1);
    }
  }

  lemma {:induction false} PieceNoBlankLine(s: string, start: nat, p: nat)
    requires start <= p <= |s|
    requires forall i :: start <= i < p ==> SeparatorAt(s, i).None?
    ensures NoBlankLine(s[start..p])
  {
    var t := s[start..p];
    forall i, j | 0 <= i < j < |t| && t[i] == '\n' && t[j] == '\n'
      ensures exists k :: i < k < j && !IsWhite(t[k])
    {
      if forall k :: i < k < j ==> IsWhite(t[k]) {
        assert forall k :: start + i < k < start + j ==> s[k] == t[k - start];
        BlankLineIsSeparator(s, start + i, start + j);
        assert false;
      }
    }
  }

  /** The pieces kept by `if (!paragraphText.trim()) return;`: a piece trims
      to nothing exactly when it is all whitespace (`TrimKeepsText`). */
  function NonBlank(ps: seq<string>): (r: seq<string>)
    ensures forall i :: 0 <= i < |r| ==> !AllWhite(r[i])
    ensures forall i :: 0 <= i < |r| ==> r[i] in ps
    ensures forall p :: p in ps && !AllWhite(p) ==> p in r
  {
    if |ps| == 0 then []
    else if AllWhite(ps[0]) then NonBlank(ps[1..])
    else [ps[0]] + NonBlank(ps[1..])
  }

  /** The blank-piece filter keeps order and repetitions: a subsequence of
      the pieces holding each non-blank piece as often as the pieces do. */
  lemma {:induction false} NonBlankFilter(ps: seq<string>)
    ensures IsSubsequence(NonBlank(ps), ps)
    ensures forall x :: multiset(NonBlank(ps))[x] == if AllWhite(x) then 0 else multiset(ps)[x]
  {
    if |ps| > 0 {
      NonBlankFilter(ps[1..]);
      SubsequenceCons(NonBlank(ps[1..]), ps);
      assert ps == [ps[0]] + ps[1..];
      assert multiset(ps) == multiset{ps[0]} + multiset(ps[1..]);
      if !AllWhite(ps[0]) {
        assert multiset(NonBlank(ps)) == multiset{ps[0]} + multiset(NonBlank(ps[1..]));
      }
    }
  }

  lemma {:induction false} NonBlankKeepsText(ps: seq<string>)
    ensures RemoveWhite(Concat(NonBlank(ps))) == RemoveWhite(Concat(ps))
  {
    if |ps| > 0 {
      NonBlankKeepsText(ps[1..]);
      assert ps == [ps[0]] + ps[1..];
      ConcatAppend([ps[0]], ps[1..]);
      assert Concat([ps[0]]) == ps[0];
      RemoveWhiteAppend(ps[0], Concat(ps[1..]));
      if AllWhite(ps[0]) {
        RemoveWhiteOfAllWhite(ps[0]);
      } else {
        var rest := NonBlank(ps[1..]);
        ConcatAppend([ps[0]], rest);
        RemoveWhiteAppend(ps[0], Concat(rest));
      }
    }
  }

  /** The paragraphs of a cleaned text: the non-blank pieces of the split. They
      hold all its non-whitespace characters in order, none is blank and none
      contains a blank line. */
  function ParagraphTexts(cleanText: string): (r: seq<string>)
    ensures RemoveWhite(Concat(r)) == RemoveWhite(cleanText)
    ensures forall i :: 0 <= i < |r| ==> !AllWhite(r[i]) && NoBlankLine(r[i])
  {
    var pieces := SplitParagraphs(cleanText);
    SplitKeepsText(cleanText, 0, 0);
    SplitNoBlankLine(cleanText, 0, 0);
    NonBlankKeepsText(pieces);
    NonBlank(pieces)
  }

  /** The paragraphs are the non-blank pieces, in order, of a split that cuts
      only at blank lines and loses nothing else. */
  lemma {:induction false} ParagraphTextsArePieces(cleanText: string)
    ensures var pieces := SplitParagraphs(cleanText);
      var seps := Separators(cleanText, 0, 0);
      && |seps| + 1 == |pieces|
      && Interleave(pieces, seps) == cleanText
      && (forall i :: 0 <= i < |seps| ==> IsSeparatorText(seps[i]))
      && (forall i :: 0 <= i < |ParagraphTexts(cleanText)| ==> !AllWhite(ParagraphTexts(cleanText)[i]) && NoBlankLine(ParagraphTexts(cleanText)[i]))
      && RemoveWhite(Concat(ParagraphTexts(cleanText))) == RemoveWhite(cleanText)
      && IsSubsequence(ParagraphTexts(cleanText), pieces)
      && forall x :: multiset(ParagraphTexts(cleanText))[x] == if AllWhite(x) then 0 else multiset(pieces)[x]
  {
    SplitRebuilds(cleanText, 0, 0);
    NonBlankFilter(SplitParagraphs(cleanText));
    assert cleanText[0..] == cleanText;
  }

  // ---------------------------------------------------------------- keywords

  const Stopwords: set<string> := {
    "的", "是", "在", "了", "和", "与", "或", "对", "且",
    "the", "a", "an", "is", "are", "in", "on", "at", "to", "for", "with", "by", "of", "and", "or"
  }

  /** A word is counted when its lower-cased form is not a stopword and it is
      longer than one character. */
  predicate Eligible(w: string) {
    ToLowerAscii(w) !in Stopwords && |w| > 1
  }

  function Count(ws: seq<string>, w: string): (n: nat)
    ensures n <= |ws|
    ensures n > 0 <==> w in ws
  {
    if |ws| == 0 then 0 else (if ws[0] == w then 1 else 0) + Count(ws[1..], w)
  }

  /** The distinct eligible words in order of first occurrence: the insertion
      order of the `wordCounts` object. */
  function Candidates(ws: seq<string>): (r: seq<string>)
    ensures forall i, j :: 0 <= i < j < |r| ==> r[i] != r[j]
    ensures forall w :: w in r <==> w in ws && Eligible(w)
  {
    if |ws| == 0 then []
    else
      var init := Candidates(ws[..|ws| - 1]);
      var w := ws[|ws| - 1];
      assert ws == ws[..|ws| - 1] + [w];
      if Eligible(w) && w !in init then init + [w] else init
  }

  /** The index of the first occurrence of `w` in `ws`, `|ws|` when absent. */
  function FirstIndex(ws: seq<string>, w: string): (r: nat)
    ensures r <= |ws|
    ensures r < |ws| <==> w in ws
    ensures r < |ws| ==> ws[r] == w
    ensures forall k :: 0 <= k < r ==> ws[k] != w
  {
    if |ws| == 0 then 0
    else if ws[0] == w then 0
    else 1 + FirstIndex(ws[1..], w)
  }

  lemma {:induction false} FirstIndexExact(ws: seq<string>, w: string, i: nat)
    requires i < |ws| && ws[i] == w
    requires forall k :: 0 <= k < i ==> ws[k] != w
    ensures FirstIndex(ws, w) == i
    decreases i
  {
    if i > 0 {
      FirstIndexExact(ws[1..], w, i - 1);
    }
  }

  /** A word of a prefix has its first occurrence there. */
  lemma {:induction false} FirstIndexPrefix(ws: seq<string>, n: nat, w: string)
    requires n <= |ws| && w in ws[..n]
    ensures FirstIndex(ws, w) == FirstIndex(ws[..n], w) < n
  {
    var i := FirstIndex(ws[..n], w);
    assert ws[i] == w;
    forall k | 0 <= k < i ensures ws[k] != w {
      assert ws[k] == ws[..n][k];
    }
    FirstIndexExact(ws, w, i);
  }

  lemma {:induction false} CandidatesOrderAt(ws: seq<string>, i: nat, j: nat)
    requires i < j < |Candidates(ws)|
    ensures FirstIndex(ws, Candidates(ws)[i]) < FirstIndex(ws, Candidates(ws)[j])
    decreases |ws|
  {
    var n := |ws| - 1;
    var init := Candidates(ws[..n]);
    var w := ws[n];
    var r := Candidates(ws);
    assert r == if Eligible(w) && w !in init then init + [w] else init;
    assert r[i] == init[i];
    assert init[i] in ws[..n];
    FirstIndexPrefix(ws, n, init[i]);
    if j < |init| {
      assert r[j] == init[j];
      assert init[j] in ws[..n];
      FirstIndexPrefix(ws, n, init[j]);
      CandidatesOrderAt(ws[..n], i, j);
    } else {
      assert r[j] == w && w !in ws[..n];
      forall k | 0 <= k < n ensures ws[k] != w {
        assert ws[k] == ws[..n][k];
      }
      FirstIndexExact(ws, w, n);
    }
  }

  /** The candidates come in order of first occurrence. */
  lemma {:induction false} CandidatesOrder(ws: seq<string>)
    ensures forall i, j :: 0 <= i < j < |Candidates(ws)| ==> Candidates(ws)[i] != Candidates(ws)[j]
    ensures forall w :: w in Candidates(ws) <==> w in ws && Eligible(w)
    ensures forall i, j :: 0 <= i < j < |Candidates(ws)| ==> FirstIndex(ws, Candidates(ws)[i]) < FirstIndex(ws, Candidates(ws)[j])
  {
    forall i, j | 0 <= i < j < |Candidates(ws)|
      ensures FirstIndex(ws, Candidates(ws)[i]) < FirstIndex(ws, Candidates(ws)[j])
    {
      CandidatesOrderAt(ws, i, j);
    }
  }

  function DecimalValue(s: string): nat
    decreases |s|
  {
    if |s| == 0 then 0
    else DecimalValue(s[..|s| - 1]) * 10 + (if '0' <= s[|s| - 1] <= '9' then (s[|s| - 1] - '0') as nat else 0)
  }

  /** A canonical array index: a property key JavaScript enumerates first. */
  predicate IsArrayIndex(s: string) {
    && |s| > 0
    && (forall i :: 0 <= i < |s| ==> '0' <= s[i] <= '9')
    && (|s| == 1 || s[0] != '0')
    && DecimalValue(s) < 0xFFFF_FFFF
  }

  function Select(ws: seq<string>, index: bool): (r: seq<string>)
    ensures forall i :: 0 <= i < |r| ==> IsArrayIndex(r[i]) == index
    ensures multiset(r) <= multiset(ws)
  {
    if |ws| == 0 then []
    else if IsArrayIndex(ws[0]) == index then
      assert ws == [ws[0]] + ws[1..];
      [ws[0]] + Select(ws[1..], index)
    else
      assert ws == [ws[0]] + ws[1..];
      Select(ws[1..], index)
  }

  lemma {:induction false} SelectSplits(ws: seq<string>)
    ensures multiset(Select(ws, true)) + multiset(Select(ws, false)) == multiset(ws)
  {
    if |ws| > 0 {
      SelectSplits(ws[1..]);
      SelectStep(ws);
    }
  }

  /** One step of the split: the first word goes to exactly one side. */
  lemma {:induction false} SelectStep(ws: seq<string>)
    requires |ws| > 0
    ensures multiset(Select(ws, true)) + multiset(Select(ws, false))
            == multiset{ws[0]} + (multiset(Select(ws[1..], true)) + multiset(Select(ws[1..], false)))
    ensures multiset(ws) == multiset{ws[0]} + multiset(ws[1..])
  {
    assert ws == [ws[0]] + ws[1..];
  }

  /** Sorting descending by this key puts array indices in ascending order. */
  function IndexRank(k: string): int {
    0 - DecimalValue(k)
  }

  /** The count of each word in `ws`, as a sort key. */
  function CountIn(ws: seq<string>): string -> int {
    w => Count(ws, w)
  }

  /** `Object.entries` order: array-index keys ascending by value, then the
      other keys in insertion order. */
  function KeyOrder(ws: seq<string>): (r: seq<string>)
    ensures multiset(r) == multiset(Candidates(ws))
  {
    var c := Candidates(ws);
    SelectSplits(c);
    Sorting.SortDesc(Select(c, true), IndexRank) + Select(c, false)
  }

  /** The index split keeps order and repetitions. */
  lemma {:induction false} SelectFilter(ws: seq<string>, index: bool)
    ensures IsSubsequence(Select(ws, index), ws)
    ensures forall x :: multiset(Select(ws, index))[x] == if IsArrayIndex(x) == index then multiset(ws)[x] else 0
  {
    if |ws| > 0 {
      SelectFilter(ws[1..], index);
      SubsequenceCons(Select(ws[1..], index), ws);
      assert ws == [ws[0]] + ws[1..];
      assert multiset(ws) == multiset{ws[0]} + multiset(ws[1..]);
      if IsArrayIndex(ws[0]) == index {
        assert multiset(Select(ws, index)) == multiset{ws[0]} + multiset(Select(ws[1..], index));
      }
    }
  }

  /** The entry order: first the array-index candidates in ascending numeric
      order, then the other candidates in their order of first occurrence. */
  lemma {:induction false} KeyOrderShape(ws: seq<string>)
    ensures var c := Candidates(ws);
      var r := KeyOrder(ws);
      var k := |Select(c, true)|;
      && multiset(r) == multiset(c)
      && k <= |r|
      && multiset(r[..k]) == multiset(Select(c, true))
      && (forall i :: 0 <= i < k ==> IsArrayIndex(r[i]))
      && (forall i, j :: 0 <= i < j < k ==> DecimalValue(r[i]) <= DecimalValue(r[j]))
      && r[k..] == Select(c, false)
      && (forall i :: k <= i < |r| ==> !IsArrayIndex(r[i]))
      && OrderedLike(r[k..], c)
  {
    var c := Candidates(ws);
    var idx := Select(c, true);
    var sorted := Sorting.SortDesc(idx, IndexRank);
    var r := KeyOrder(ws);
    assert r == sorted + Select(c, false);
    forall i | 0 <= i < |sorted| ensures IsArrayIndex(sorted[i]) {
      assert sorted[i] in multiset(idx);
    }
    forall i, j | 0 <= i < j < |sorted| ensures DecimalValue(sorted[i]) <= DecimalValue(sorted[j]) {
      assert IndexRank(sorted[i]) >= IndexRank(sorted[j]);
    }
    SelectFilter(c, false);
    assert r[..|sorted|] == sorted;
    assert r[|sorted|..] == Select(c, false);
  }

  /** `a` keeps, in order and with their repetitions, exactly the elements of
      `b` that are not array indices. */
  ghost predicate OrderedLike(a: seq<string>, b: seq<string>) {
    && IsSubsequence(a, b)
    && forall x :: multiset(a)[x] == if IsArrayIndex(x) then 0 else multiset(b)[x]
  }

  /** The ranking of `sort((a, b) => b[1] - a[1])`: by count, highest first,
      keeping `Object.entries` order among equal counts. */
  function Ranking(ws: seq<string>): (r: seq<string>)
    ensures multiset(r) == multiset(Candidates(ws))
    ensures Sorting.SortedDesc(r, CountIn(ws))
    ensures forall n :: Sorting.WithKey(r, CountIn(ws), n) == Sorting.WithKey(KeyOrder(ws), CountIn(ws), n)
  {
    Sorting.SortDesc(KeyOrder(ws), CountIn(ws))
  }

  /** The first ten of the ranking. */
  function Keywords(ws: seq<string>): seq<string> {
    Sorting.Take(Ranking(ws), 10)
  }

  lemma {:induction false} KeywordsEligible(ws: seq<string>)
    ensures forall i :: 0 <= i < |Keywords(ws)| ==> Keywords(ws)[i] in ws && Eligible(Keywords(ws)[i])
  {
    var c := Candidates(ws);
    var ranked := Ranking(ws);
    var r := Keywords(ws);
    assert r == ranked[..|r|];
    forall i | 0 <= i < |r| ensures r[i] in ws && Eligible(r[i]) {
      assert ranked[i] in multiset(c);
    }
  }

  /** The ranking repeats no word, being a reordering of the candidates. */
  lemma {:induction false} RankingDistinct(ws: seq<string>)
    ensures forall i, j :: 0 <= i < j < |Ranking(ws)| ==> Ranking(ws)[i] != Ranking(ws)[j]
  {
    var ranked := Ranking(ws);
    forall i, j | 0 <= i < j < |ranked| ensures ranked[i] != ranked[j] {
      Sorting.DistinctPermutation(Candidates(ws), ranked, i, j);
    }
  }

  lemma {:induction false} KeywordsDistinct(ws: seq<string>)
    ensures forall i, j :: 0 <= i < j < |Keywords(ws)| ==> Keywords(ws)[i] != Keywords(ws)[j]
  {
    RankingDistinct(ws);
    var ranked := Ranking(ws);
    var r := Keywords(ws);
    forall i, j | 0 <= i < j < |r| ensures r[i] != r[j] {
      assert r[i] == ranked[i] && r[j] == ranked[j];
    }
  }

  lemma {:induction false} KeywordsByCount(ws: seq<string>)
    ensures forall i, j :: 0 <= i < j < |Keywords(ws)| ==> Count(ws, Keywords(ws)[i]) >= Count(ws, Keywords(ws)[j])
  {
    var ranked := Ranking(ws);
    var r := Keywords(ws);
    forall i, j | 0 <= i < j < |r| ensures Count(ws, r[i]) >= Count(ws, r[j]) {
      assert r[i] == ranked[i] && r[j] == ranked[j];
      assert CountIn(ws)(ranked[i]) >= CountIn(ws)(ranked[j]);
    }
  }

  lemma {:induction false} KeywordsLeftOut(ws: seq<string>, w: string)
    requires w in ws && Eligible(w) && w !in Keywords(ws)
    ensures |Keywords(ws)| == 10 && forall i :: 0 <= i < 10 ==> Count(ws, Keywords(ws)[i]) >= Count(ws, w)
  {
    var ranked := Ranking(ws);
    assert w in multiset(Candidates(ws));
    assert w in multiset(ranked);
    Sorting.TakeHoldsTop(ranked, CountIn(ws), 10, w);
    assert Keywords(ws) == ranked[..10];
  }

  /** The keywords are at most ten distinct eligible words of the text, in
      non-increasing order of frequency, and an eligible word left out occurs no
      more often than any keyword and only when there are ten of them. */
  lemma {:induction false} KeywordsAreTop(ws: seq<string>)
    ensures |Keywords(ws)| <= 10
    ensures forall i :: 0 <= i < |Keywords(ws)| ==> Keywords(ws)[i] in ws && Eligible(Keywords(ws)[i])
    ensures forall i, j :: 0 <= i < j < |Keywords(ws)| ==> Keywords(ws)[i] != Keywords(ws)[j]
    ensures forall i, j :: 0 <= i < j < |Keywords(ws)| ==> Count(ws, Keywords(ws)[i]) >= Count(ws, Keywords(ws)[j])
    ensures forall w :: w in ws && Eligible(w) && w !in Keywords(ws) ==>
      |Keywords(ws)| == 10 && forall i :: 0 <= i < 10 ==> Count(ws, Keywords(ws)[i]) >= Count(ws, w)
  {
    KeywordsEligible(ws);
    KeywordsDistinct(ws);
    KeywordsByCount(ws);
    forall w | w in ws && Eligible(w) && w !in Keywords(ws)
      ensures |Keywords(ws)| == 10 && forall i :: 0 <= i < 10 ==> Count(ws, Keywords(ws)[i]) >= Count(ws, w)
    {
      KeywordsLeftOut(ws, w);
    }
  }

  /** `extractKeywords`: the keywords of the words of the cleaned text. */
  function ExtractKeywords(useChineseTokenizer: bool, text: string): seq<string> {
    Keywords(TokenizeText(useChineseTokenizer, text))
  }

  /** The document keywords are the top of the ranking of the cleaned text's
      tokens: at most ten distinct eligible tokens, most frequent first. */
  lemma {:induction false} ExtractKeywordsTop(useChineseTokenizer: bool, text: string)
    ensures var ws := TokenizeText(useChineseTokenizer, text);
      var r := ExtractKeywords(useChineseTokenizer, text);
      && |r| <= 10
      && (forall i :: 0 <= i < |r| ==> r[i] in ws && Eligible(r[i]))
      && (forall i, j :: 0 <= i < j < |r| ==> r[i] != r[j])
      && (forall i, j :: 0 <= i < j < |r| ==> Count(ws, r[i]) >= Count(ws, r[j]))
      && (forall w :: w in ws && Eligible(w) && w !in r ==>
           |r| == 10 && forall i :: 0 <= i < 10 ==> Count(ws, r[i]) >= Count(ws, w))
  {
    KeywordsAreTop(TokenizeText(useChineseTokenizer, text));
  }

  // ---------------------------------------------------------------- filters

  /** `findWikiLinksInParagraph` and `findKeywordsInParagraph`: the items the
      paragraph contains as substrings, in their original order, with
      repetitions. */
  function ContainedIn(paragraph: string, items: seq<string>): (r: seq<string>)
    ensures |r| <= |items|
    ensures forall x :: x in r <==> x in items && Contains(paragraph, x)
  {
    if |items| == 0 then []
    else if Contains(paragraph, items[0]) then [items[0]] + ContainedIn(paragraph, items[1..])
    else ContainedIn(paragraph, items[1..])
  }

  /** The filter keeps order: its result is an order-preserving selection. */
  lemma {:induction false} ContainedInIsSubsequence(paragraph: string, items: seq<string>)
    ensures IsSubsequence(ContainedIn(paragraph, items), items)
  {
    if |items| > 0 {
      ContainedInIsSubsequence(paragraph, items[1..]);
      SubsequenceCons(ContainedIn(paragraph, items[1..]), items);
    }
  }

  /** `r` keeps, in order and as often as `items` has them, exactly the items
      that occur in `text`. */
  ghost predicate OccurringItems(r: seq<string>, items: seq<string>, text: string) {
    && IsSubsequence(r, items)
    && forall x :: multiset(r)[x] == if Contains(text, x) then multiset(items)[x] else 0
  }

  /** The filter keeps every repetition of a contained item and drops every
      copy of an item the paragraph lacks. */
  lemma {:induction false} ContainedInCounts(paragraph: string, items: seq<string>)
    ensures forall x :: multiset(ContainedIn(paragraph, items))[x] == if Contains(paragraph, x) then multiset(items)[x] else 0
  {
    if |items| > 0 {
      ContainedInCounts(paragraph, items[1..]);
      assert items == [items[0]] + items[1..];
      assert multiset(items) == multiset{items[0]} + multiset(items[1..]);
      if Contains(paragraph, items[0]) {
        assert multiset(ContainedIn(paragraph, items)) == multiset{items[0]} + multiset(ContainedIn(paragraph, items[1..]));
      }
    }
  }

  lemma {:induction false} ContainedInOccurring(paragraph: string, items: seq<string>)
    ensures OccurringItems(ContainedIn(paragraph, items), items, paragraph)
  {
    ContainedInIsSubsequence(paragraph, items);
    ContainedInCounts(paragraph, items);
  }

  predicate IsSubsequence(a: seq<string>, b: seq<string>)
    decreases |b|
  {
    |a| == 0 || (|b| > 0 && ((a[0] == b[0] && IsSubsequence(a[1..], b[1..])) || IsSubsequence(a, b[1..])))
  }

  lemma {:induction false} SubsequenceCons(a: seq<string>, b: seq<string>)
    requires |b| > 0 && IsSubsequence(a, b[1..])
    ensures IsSubsequence(a, b) && IsSubsequence([b[0]] + a, b)
  {
    assert ([b[0]] + a)[1..] == a;
  }

  // ---------------------------------------------------------------- processor

  datatype Paragraph = Paragraph(words: seq<string>, wikiLinks: seq<string>, keywords: seq<string>)

  /** The processor's state: its setting and what the last call remembered. */
  datatype Processor = Processor(useChineseTokenizer: bool, rawText: string, structure: seq<MarkdownParser.Heading>)

  function NewProcessor(useChineseTokenizer: bool): (p: Processor)
    ensures p.useChineseTokenizer == useChineseTokenizer && p.rawText == [] && p.structure == []
  {
    Processor(useChineseTokenizer, [], [])
  }

  datatype Processed = Processed(state: Processor, paragraphs: seq<Paragraph>)

  function ParagraphOf(useChineseTokenizer: bool, text: string, links: seq<string>, keywords: seq<string>): Paragraph {
    Paragraph(TokenizeText(useChineseTokenizer, text), ContainedIn(text, links), ContainedIn(text, keywords))
  }

  function ParagraphsOf(useChineseTokenizer: bool, texts: seq<string>, links: seq<string>, keywords: seq<string>): (r: seq<Paragraph>)
    ensures |r| == |texts|
    ensures forall i :: 0 <= i < |r| ==> r[i] == ParagraphOf(useChineseTokenizer, texts[i], links, keywords)
  {
    seq(|texts|, i requires 0 <= i < |texts| => ParagraphOf(useChineseTokenizer, texts[i], links, keywords))
  }

  /** All words of the paragraphs, in order (`flatMap(p => p.words)`). */
  function AllWords(ps: seq<Paragraph>): seq<string> {
    if |ps| == 0 then [] else ps[0].words + AllWords(ps[1..])
  }

  /** `processMarkdown`: remembers the text and its outline, cleans it,
      extracts the keywords from the whole cleaned text, and builds one
      paragraph per non-blank piece, each with its words and the links and
      keywords it mentions. */
  function ProcessMarkdown(proc: Processor, text: string, passes: string -> string): (r: Processed)
    ensures r.state == Processor(proc.useChineseTokenizer, text, MarkdownParser.ParseDocumentStructure(text))
  {
    var clean := MarkdownParser.CleanMarkdown(text, passes);
    var keywords := ExtractKeywords(proc.useChineseTokenizer, clean.cleanText);
    Processed(
      Processor(proc.useChineseTokenizer, text, MarkdownParser.ParseDocumentStructure(text)),
      ParagraphsOf(proc.useChineseTokenizer, ParagraphTexts(clean.cleanText), clean.wikiLinks, keywords))
  }

  /** Paragraph `i` is built from the `i`-th non-blank piece of the cleaned
      text: its words are non-empty and hold exactly that piece's
      non-whitespace characters, its links are exactly the document's links
      that occur in the piece (in document order, repetitions kept), and its
      keywords are exactly the document keywords that occur in the piece (in
      ranking order). */
  ghost predicate BuiltFrom(q: Paragraph, t: string, links: seq<string>, keywords: seq<string>) {
    && |q.words| > 0
    && RemoveWhite(Concat(q.words)) == RemoveWhite(t)
    && OccurringItems(q.wikiLinks, links, t)
    && OccurringItems(q.keywords, keywords, t)
  }

  lemma {:induction false} ParagraphOfBuilt(u: bool, t: string, links: seq<string>, keywords: seq<string>)
    requires !AllWhite(t)
    ensures BuiltFrom(ParagraphOf(u, t, links, keywords), t, links, keywords)
  {
    TokenizeNonBlank(u, t);
    TokenizeKeepsText(u, t);
    ContainedInOccurring(t, links);
    ContainedInOccurring(t, keywords);
  }

  /** One paragraph per non-blank piece of the cleaned text, each built from its
      piece, the document's links and the keywords of the whole cleaned text. */
  lemma {:induction false} ProcessMarkdownParagraphs(proc: Processor, text: string, passes: string -> string)
    ensures var r := ProcessMarkdown(proc, text, passes);
      var clean := MarkdownParser.CleanMarkdown(text, passes);
      var texts := ParagraphTexts(clean.cleanText);
      var keywords := ExtractKeywords(proc.useChineseTokenizer, clean.cleanText);
      && |r.paragraphs| == |texts|
      && forall i :: 0 <= i < |r.paragraphs| ==> BuiltFrom(r.paragraphs[i], texts[i], clean.wikiLinks, keywords)
  {
    var r := ProcessMarkdown(proc, text, passes);
    var clean := MarkdownParser.CleanMarkdown(text, passes);
    var texts := ParagraphTexts(clean.cleanText);
    var keywords := ExtractKeywords(proc.useChineseTokenizer, clean.cleanText);
    forall i | 0 <= i < |r.paragraphs| ensures BuiltFrom(r.paragraphs[i], texts[i], clean.wikiLinks, keywords) {
      ParagraphOfBuilt(proc.useChineseTokenizer, texts[i], clean.wikiLinks, keywords);
    }
  }

  /** Paragraphs whose words each keep the text of their piece keep, together,
      the text of all the pieces. */
  lemma {:induction false} KeepTextAll(ps: seq<Paragraph>, texts: seq<string>)
    requires |ps| == |texts|
    requires forall i :: 0 <= i < |ps| ==> RemoveWhite(Concat(ps[i].words)) == RemoveWhite(texts[i])
    ensures RemoveWhite(Concat(AllWords(ps))) == RemoveWhite(Concat(texts))
  {
    if |ps| > 0 {
      KeepTextAll(ps[1..], texts[1..]);
      ConcatAppend(ps[0].words, AllWords(ps[1..]));
      RemoveWhiteAppend(Concat(ps[0].words), Concat(AllWords(ps[1..])));
      RemoveWhiteAppend(texts[0], Concat(texts[1..]));
    }
  }

  lemma {:induction false} ParagraphsKeepText(u: bool, texts: seq<string>, links: seq<string>, keywords: seq<string>)
    ensures RemoveWhite(Concat(AllWords(ParagraphsOf(u, texts, links, keywords)))) == RemoveWhite(Concat(texts))
  {
    var ps := ParagraphsOf(u, texts, links, keywords);
    forall i | 0 <= i < |ps| ensures RemoveWhite(Concat(ps[i].words)) == RemoveWhite(texts[i]) {
      TokenizeKeepsText(u, texts[i]);
    }
    KeepTextAll(ps, texts);
  }

  lemma {:induction false} ParagraphsNonEmpty(u: bool, texts: seq<string>, links: seq<string>, keywords: seq<string>)
    requires forall i :: 0 <= i < |texts| ==> !AllWhite(texts[i])
    ensures forall i :: 0 <= i < |texts| ==> |ParagraphsOf(u, texts, links, keywords)[i].words| > 0
  {
    forall i | 0 <= i < |texts| ensures |ParagraphsOf(u, texts, links, keywords)[i].words| > 0 {
      TokenizeNonBlank(u, texts[i]);
    }
  }

  /** The paragraphs depend on the processor only through its setting. */
  lemma {:induction false} ParagraphsIgnoreState(p1: Processor, p2: Processor, text: string, passes: string -> string)
    requires p1.useChineseTokenizer == p2.useChineseTokenizer
    ensures ProcessMarkdown(p1, text, passes).paragraphs == ProcessMarkdown(p2, text, passes).paragraphs
  {
  }

  /** Every paragraph has a word. */
  lemma {:induction false} ProcessNonEmpty(proc: Processor, text: string, passes: string -> string)
    ensures var r := ProcessMarkdown(proc, text, passes);
      forall i :: 0 <= i < |r.paragraphs| ==> |r.paragraphs[i].words| > 0
  {
    var clean := MarkdownParser.CleanMarkdown(text, passes);
    var keywords := ExtractKeywords(proc.useChineseTokenizer, clean.cleanText);
    ParagraphsNonEmpty(proc.useChineseTokenizer, ParagraphTexts(clean.cleanText), clean.wikiLinks, keywords);
  }

  /** Every paragraph has a word, and the words of all paragraphs hold exactly
      the non-whitespace characters of the cleaned text, in order. */
  lemma {:induction false} ProcessKeepsText(proc: Processor, text: string, passes: string -> string)
    ensures var r := ProcessMarkdown(proc, text, passes);
      && (forall i :: 0 <= i < |r.paragraphs| ==> |r.paragraphs[i].words| > 0)
      && RemoveWhite(Concat(AllWords(r.paragraphs))) == RemoveWhite(MarkdownParser.CleanMarkdown(text, passes).cleanText)
  {
    var clean := MarkdownParser.CleanMarkdown(text, passes);
    var keywords := ExtractKeywords(proc.useChineseTokenizer, clean.cleanText);
    var texts := ParagraphTexts(clean.cleanText);
    ParagraphsKeepText(proc.useChineseTokenizer, texts, clean.wikiLinks, keywords);
    ProcessNonEmpty(proc, text, passes);
  }

  /** `analyzeDocumentStructure`: the outline remembered by the last call. */
  function AnalyzeDocumentStructure(proc: Processor): seq<MarkdownParser.Heading> {
    proc.structure
  }

  /** After processing a text, the outline is that text's: valid entries in
      increasing position. */
  lemma {:induction false} StructureAfterProcess(proc: Processor, text: string, passes: string -> string)
    ensures var s := AnalyzeDocumentStructure(ProcessMarkdown(proc, text, passes).state);
      && s == MarkdownParser.ParseDocumentStructure(text)
      && (forall i :: 0 <= i < |s| ==> MarkdownParser.ValidEntry(text, s[i]))
      && (forall i, j :: 0 <= i < j < |s| ==> s[i].position < s[j].position)
  {
  }

  /** `approximateWordPosition`: the number of words before the cursor, capped
      at the last word index. Both texts are processed in turn, so the state
      ends up remembering the text before the cursor. */
  function ApproximateWordPosition(proc: Processor, fullText: string, textBeforeCursor: string, passes: string -> string): (r: (Processor, int))
    ensures var total := |AllWords(ProcessMarkdown(proc, fullText, passes).paragraphs)|;
      var before := |AllWords(ProcessMarkdown(proc, textBeforeCursor, passes).paragraphs)|;
      && -1 <= r.1 <= before
      && r.1 <= total - 1
      && (r.1 == before || r.1 == total - 1)
    ensures r.0 == ProcessMarkdown(proc, textBeforeCursor, passes).state
  {
    var all := AllWords(ProcessMarkdown(proc, fullText, passes).paragraphs);
    var after := ProcessMarkdown(ProcessMarkdown(proc, fullText, passes).state, textBeforeCursor, passes);
    var before := AllWords(after.paragraphs);
    (after.state, if |before| < |all| - 1 then |before| else |all| - 1)
  }
}
