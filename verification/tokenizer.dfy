/**
 * The dictionary tokenizer for Chinese text (src/utils/ChineseTokenizer.ts):
 * greedy maximum forward matching with a four-character window, falling back
 * to ASCII alphanumeric runs, punctuation merged onto the previous token, and
 * single characters.
 */
module ChineseTokenizer {
  import opened Strings

  /** The static word list the tokenizer matches against. */
  const Dictionary: set<string> := {
    "研究", "学习", "方法", "知识", "管理", "系统", "思维", "工作",
    "效率", "提高", "增强", "记忆", "理解", "分析", "文章", "阅读",
    "速度", "认知", "笔记", "复习", "总结", "实践", "应用", "技巧"
  }

  lemma {:induction false} DictionaryWordsHaveTwoChars()
    ensures forall w :: w in Dictionary ==> |w| == 2
  {
  }

  /** The look-ahead window of the forward match. */
  const Window: nat := 4

  /** The class `[a-zA-Z0-9]`. */
  predicate IsAsciiAlnum(c: char) {
    ('a' <= c <= 'z') || ('A' <= c <= 'Z') || ('0' <= c <= '9')
  }

  /** The class `[，。！？；：""''（）、]`: characters appended to the previous token. */
  predicate IsMergedPunctuation(c: char) {
    c == '，' || c == '。' || c == '！' || c == '？' || c == '；' || c == '：'
    || c == '"' || c == '\'' || c == '（' || c == '）' || c == '、'
  }

  /** The dictionary word of length `n` starting at `start` exists. */
  predicate WordAt(text: string, start: nat, n: nat) {
    start + n <= |text| && text[start..start + n] in Dictionary
  }

  /** Tries the candidate ends from `end` down to `start + 1` and returns the length
      of the first dictionary hit, or 0. */
  function MatchDown(text: string, start: nat, end: nat): (n: nat)
    requires start < end <= |text| || end == start
    ensures n <= end - start
    ensures n > 0 ==> WordAt(text, start, n)
    ensures forall m :: n < m <= end - start ==> !WordAt(text, start, m)
    decreases end - start
  {
    if end <= start then 0
    else if text[start..end] in Dictionary then end - start
    else MatchDown(text, start, end - 1)
  }

  /** How the tokenizer consumes the text at one position. */
  datatype Segment =
    | DictWord(len: nat)   // the longest dictionary word in the window
    | AlnumRun(len: nat)   // a maximal run of [a-zA-Z0-9]
    | Punctuation          // one merged punctuation character
    | Single               // any other character, whitespace included

  /** The end of the `[a-zA-Z0-9]` run that starts at `from`. */
  function AlnumRunEnd(text: string, from: nat): (e: nat)
    requires from <= |text|
    ensures from <= e <= |text|
    ensures forall k :: from <= k < e ==> IsAsciiAlnum(text[k])
    ensures e < |text| ==> !IsAsciiAlnum(text[e])
    decreases |text| - from
  {
    if from == |text| || !IsAsciiAlnum(text[from]) then from else AlnumRunEnd(text, from + 1)
  }

  /** The segment taken at `start`: the longest dictionary word of length at most
      `min(4, remaining)` if there is one, and only otherwise a fallback decided
      by the character at `start`. */
  function Classify(text: string, start: nat): (seg: Segment)
    requires start < |text|
    ensures seg.DictWord? ==>
      1 <= seg.len <= Window && WordAt(text, start, seg.len)
      && forall m :: seg.len < m <= Window ==> !WordAt(text, start, m)
    ensures !seg.DictWord? ==> forall m :: 1 <= m <= Window ==> !WordAt(text, start, m)
    ensures !seg.DictWord? ==> (seg.AlnumRun? <==> IsAsciiAlnum(text[start]))
    ensures !seg.DictWord? ==> (seg.Punctuation? <==> !IsAsciiAlnum(text[start]) && IsMergedPunctuation(text[start]))
    ensures seg.AlnumRun? ==>
      1 <= seg.len && start + seg.len <= |text|
      && (forall k :: start <= k < start + seg.len ==> IsAsciiAlnum(text[k]))
      && (start + seg.len == |text| || !IsAsciiAlnum(text[start + seg.len]))
  {
    var end := if start + Window < |text| then start + Window else |text|;
    var n := MatchDown(text, start, end);
    if n > 0 then DictWord(n)
    else if IsAsciiAlnum(text[start]) then AlnumRun(AlnumRunEnd(text, start) - start)
    else if IsMergedPunctuation(text[start]) then Punctuation
    else Single
  }

  /** Number of characters a segment consumes. */
  function Width(seg: Segment): nat {
    match seg
    case DictWord(n) => n
    case AlnumRun(n) => n
    case _ => 1
  }

  lemma {:induction false} ConcatAppendOne(acc: seq<string>, t: string)
    ensures Concat(acc + [t]) == Concat(acc) + t
  {
    ConcatAppend(acc, [t]);
  }

  lemma {:induction false} ConcatMergeLast(acc: seq<string>, c: char)
    requires |acc| > 0
    ensures Concat(acc[..|acc| - 1] + [acc[|acc| - 1] + [c]]) == Concat(acc) + [c]
  {
    var init := acc[..|acc| - 1];
    var last := acc[|acc| - 1];
    assert acc == init + [last];
    ConcatAppendOne(init, last + [c]);
    ConcatAppendOne(init, last);
    var a := Concat(init);
    assert a + (last + [c]) == (a + last) + [c];
  }

  /** One pass of the outer loop of `tokenize` at `start`, with `acc` the
      tokens so far: where the loop continues and the tokens after the pass.
      The consumed characters are appended, as a new token or merged into the
      last one. */
  function Step(text: string, start: nat, acc: seq<string>): (r: (nat, seq<string>))
    requires start < |text|
    ensures start < r.0 <= |text|
    ensures Concat(r.1) == Concat(acc) + text[start..r.0]
    ensures (forall i :: 0 <= i < |acc| ==> |acc[i]| > 0) ==> forall i :: 0 <= i < |r.1| ==> |r.1[i]| > 0
  {
    var seg := Classify(text, start);
    var next := start + Width(seg);
    match seg
    case Punctuation =>
      assert text[start..next] == [text[start]];
      if |acc| > 0 then
        ConcatMergeLast(acc, text[start]);
        (next, acc[..|acc| - 1] + [acc[|acc| - 1] + [text[start]]])
      else
        ConcatAppendOne(acc, [text[start]]);
        (next, acc + [[text[start]]])
    case _ =>
      ConcatAppendOne(acc, text[start..next]);
      (next, acc + [text[start..next]])
  }

  /** The loop of `tokenize` from position `start`, with `acc` the tokens so
      far: it appends exactly the rest of the text, and keeps every token
      non-empty. */
  function TokenizeFrom(text: string, start: nat, acc: seq<string>): (r: seq<string>)
    requires start <= |text|
    ensures Concat(r) == Concat(acc) + text[start..]
    ensures (forall i :: 0 <= i < |acc| ==> |acc[i]| > 0) ==> forall i :: 0 <= i < |r| ==> |r[i]| > 0
    decreases |text| - start
  {
    if start == |text| then
      acc
    else
      var st := Step(text, start, acc);
      AppendSlices(Concat(acc), text, start, st.0);
      TokenizeFrom(text, st.0, st.1)
  }

  lemma {:induction false} AppendSlices(x: string, text: string, a: nat, b: nat)
    requires a <= b <= |text|
    ensures (x + text[a..b]) + text[b..] == x + text[a..]
  {
    assert text[a..] == text[a..b] + text[b..];
  }

  /** `ChineseTokenizer.tokenize`: the tokens are non-empty, concatenate back to
      the input exactly (whitespace and merged punctuation included), and are
      never more numerous than the input's characters. */
  function Tokenize(text: string): (r: seq<string>)
    ensures Concat(r) == text
    ensures forall i :: 0 <= i < |r| ==> |r[i]| > 0
    ensures |r| <= |text|
    ensures |text| > 0 ==> |r| > 0
  {
    var r := TokenizeFrom(text, 0, []);
    ConcatLength(r, 1);
    r
  }

  // ---------------------------------------------------------------- properties

  /** The first characters of the dictionary words. */
  const Initials: set<char> := {
    '研', '学', '方', '知', '管', '系', '思', '工', '效', '提', '增', '记',
    '理', '分', '文', '阅', '速', '认', '笔', '复', '总', '实', '应', '技'
  }

  lemma {:induction false} DictionaryInitials()
    ensures forall w :: w in Dictionary ==> |w| > 0 && w[0] in Initials
  {
  }

  /** A character the tokenizer can only emit as a token of its own: it is not
      alphanumeric, not merged punctuation, and starts no dictionary word. */
  predicate IsPlain(c: char) {
    !IsAsciiAlnum(c) && !IsMergedPunctuation(c) && c !in Initials
  }

  lemma {:induction false} PlainIsSingle(text: string, start: nat)
    requires start < |text| && IsPlain(text[start])
    ensures Classify(text, start) == Single
  {
    DictWordInitial(text, start);
  }

  /** A dictionary word found at `start` begins with one of the initials. */
  lemma {:induction false} DictWordInitial(text: string, start: nat)
    requires start < |text|
    ensures Classify(text, start).DictWord? ==> text[start] in Initials
  {
    var seg := Classify(text, start);
    if seg.DictWord? {
      DictionaryInitials();
      var w := text[start..start + seg.len];
      assert w in Dictionary && w[0] == text[start];
    }
  }

  /** One single-character token per character of `s`. */
  function Singles(s: string): (r: seq<string>)
    ensures |r| == |s| && forall i :: 0 <= i < |s| ==> r[i] == [s[i]]
  {
    seq(|s|, i requires 0 <= i < |s| => [s[i]])
  }

  /** Text of plain characters only is split into one token per character;
      whitespace characters in particular become tokens of their own. */
  lemma {:induction false} SinglesCons(s: string)
    requires |s| > 0
    ensures Singles(s) == [[s[0]]] + Singles(s[1..])
  {
  }

  /** One step of the loop on a character that is a segment of its own. */
  lemma {:induction false} StepSingle(text: string, start: nat, acc: seq<string>)
    requires start < |text| && Classify(text, start) == Single
    ensures TokenizeFrom(text, start, acc) == TokenizeFrom(text, start + 1, acc + [[text[start]]])
  {
    assert text[start..start + 1] == [text[start]];
    StepEmit(text, start, start + 1, acc);
  }

  lemma {:induction false} PerCharacterStep(text: string, start: nat, acc: seq<string>)
    requires start < |text| && IsPlain(text[start])
    requires TokenizeFrom(text, start + 1, acc + [[text[start]]]) == acc + [[text[start]]] + Singles(text[start + 1..])
    ensures TokenizeFrom(text, start, acc) == acc + Singles(text[start..])
  {
    PlainIsSingle(text, start);
    StepSingle(text, start, acc);
    SinglesFrom(text, start);
    AppendAssoc(acc, [[text[start]]], Singles(text[start + 1..]));
  }

  lemma {:induction false} SinglesFrom(text: string, start: nat)
    requires start < |text|
    ensures Singles(text[start..]) == [[text[start]]] + Singles(text[start + 1..])
  {
    SinglesCons(text[start..]);
    assert text[start..][1..] == text[start + 1..];
  }

  lemma {:induction false} AppendAssoc(a: seq<string>, b: seq<string>, c: seq<string>)
    ensures (a + b) + c == a + (b + c)
  {
  }

  lemma {:induction false} PerCharacterFrom(text: string, start: nat, acc: seq<string>)
    requires start <= |text|
    requires forall i :: 0 <= i < |text| ==> IsPlain(text[i])
    ensures TokenizeFrom(text, start, acc) == acc + Singles(text[start..])
    decreases |text| - start
  {
    if start < |text| {
      PerCharacterFrom(text, start + 1, acc + [[text[start]]]);
      PerCharacterStep(text, start, acc);
    } else {
      PerCharacterEnd(text, acc);
    }
  }

  lemma {:induction false} PerCharacterEnd(text: string, acc: seq<string>)
    ensures TokenizeFrom(text, |text|, acc) == acc + Singles(text[|text|..])
  {
    assert Singles(text[|text|..]) == [];
  }

  lemma {:induction false} PerCharacter(text: string)
    requires forall i :: 0 <= i < |text| ==> IsPlain(text[i])
    ensures |Tokenize(text)| == |text|
    ensures forall i :: 0 <= i < |text| ==> Tokenize(text)[i] == [text[i]]
  {
    PerCharacterFrom(text, 0, []);
    assert Tokenize(text) == TokenizeFrom(text, 0, []);
    assert [] + Singles(text[0..]) == Singles(text);
  }

  /** With no dictionary word at `start`, a character that is neither
      alphanumeric nor merged punctuation is a segment of its own. */
  lemma {:induction false} SingleAt(text: string, start: nat)
    requires start < |text|
    requires start + 2 <= |text| ==> text[start..start + 2] !in Dictionary
    requires !IsAsciiAlnum(text[start]) && !IsMergedPunctuation(text[start])
    ensures Classify(text, start) == Single
  {
    DictionaryWordsHaveTwoChars();
  }

  lemma {:induction false} DictWordAt(text: string, start: nat)
    requires start + 2 <= |text|
    requires text[start..start + 2] in Dictionary
    ensures Classify(text, start) == DictWord(2)
  {
    DictionaryWordsHaveTwoChars();
    assert WordAt(text, start, 2);
  }

  /** One step of the loop on a segment that is emitted as a token of its own. */
  lemma {:induction false} StepEmit(text: string, start: nat, next: nat, acc: seq<string>)
    requires start < |text|
    requires !Classify(text, start).Punctuation? && next == start + Width(Classify(text, start))
    ensures TokenizeFrom(text, start, acc) == TokenizeFrom(text, next, acc + [text[start..next]])
  {
    assert Step(text, start, acc) == (next, acc + [text[start..next]]);
  }

  /** The characters of the worked example below, as requirements so that
      the verifier reasons about them one step at a time. */
  predicate IsExampleText(t: string) {
    |t| == 6 && t[0] == '我' && t[1] == '爱' && t[2] == '阅' && t[3] == '读'
    && t[4] == '速' && t[5] == '读'
  }

  lemma {:induction false} ExamplePrefix(t: string)
    requires IsExampleText(t)
    ensures TokenizeFrom(t, 0, []) == TokenizeFrom(t, 4, [t[0..1], t[1..2], t[2..4]])
  {
    ExampleFirst(t);
    ExampleSecond(t);
    ExampleThird(t);
  }

  lemma {:induction false} ExampleFirst(t: string)
    requires IsExampleText(t)
    ensures TokenizeFrom(t, 0, []) == TokenizeFrom(t, 1, [t[0..1]])
  {
    assert t[0..2] == "我爱";
    SingleAt(t, 0);
    StepEmit(t, 0, 1, []);
    assert [] + [t[0..1]] == [t[0..1]];
  }

  lemma {:induction false} ExampleSecond(t: string)
    requires IsExampleText(t)
    ensures TokenizeFrom(t, 1, [t[0..1]]) == TokenizeFrom(t, 2, [t[0..1], t[1..2]])
  {
    assert t[1..3] == "爱阅";
    SingleAt(t, 1);
    StepEmit(t, 1, 2, [t[0..1]]);
    assert [t[0..1]] + [t[1..2]] == [t[0..1], t[1..2]];
  }

  lemma {:induction false} ExampleThird(t: string)
    requires IsExampleText(t)
    ensures TokenizeFrom(t, 2, [t[0..1], t[1..2]]) == TokenizeFrom(t, 4, [t[0..1], t[1..2], t[2..4]])
  {
    assert t[2..4] == "阅读" && "阅读" in Dictionary;
    DictWordAt(t, 2);
    StepEmit(t, 2, 4, [t[0..1], t[1..2]]);
    assert [t[0..1], t[1..2]] + [t[2..4]] == [t[0..1], t[1..2], t[2..4]];
  }

  lemma {:induction false} ExampleSuffix(t: string)
    requires IsExampleText(t)
    ensures TokenizeFrom(t, 4, [t[0..1], t[1..2], t[2..4]])
         == [t[0..1], t[1..2], t[2..4], t[4..5], t[5..6]]
  {
    assert t[4..6] == "速读";
    SingleAt(t, 4);
    SingleAt(t, 5);
    var a3 := [t[0..1], t[1..2], t[2..4]];
    var a4 := [t[0..1], t[1..2], t[2..4], t[4..5]];
    var a5 := [t[0..1], t[1..2], t[2..4], t[4..5], t[5..6]];
    StepEmit(t, 4, 5, a3);
    assert a3 + [t[4..5]] == a4;
    StepEmit(t, 5, 6, a4);
    assert a4 + [t[5..6]] == a5;
    assert TokenizeFrom(t, 6, a5) == a5;
  }

  /** The worked example: only 阅读 is a dictionary word, so it is kept whole and
      the other characters become tokens of their own. */
  lemma {:induction false} Example(t: string)
    requires IsExampleText(t)
    ensures Tokenize(t) == ["我", "爱", "阅读", "速", "读"]
  {
    ExamplePrefix(t);
    ExampleSuffix(t);
    ExamplePieces(t);
    assert Tokenize(t) == TokenizeFrom(t, 0, []);
  }

  lemma {:induction false} ExamplePieces(t: string)
    requires IsExampleText(t)
    ensures [t[0..1], t[1..2], t[2..4], t[4..5], t[5..6]] == ["我", "爱", "阅读", "速", "读"]
  {
    assert t[0..1] == "我" && t[1..2] == "爱" && t[2..4] == "阅读" && t[4..5] == "速" && t[5..6] == "读";
  }
}
