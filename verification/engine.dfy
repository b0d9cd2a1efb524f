/**
 * The reading cursor and timing engine (src/models/RSVPEngine.ts): the
 * paragraphs of the text processor flattened into word records with paragraph
 * break points, a clamped cursor over them, the reading progress, the display
 * time of the current word and the paragraph jumps.
 */
module RSVPEngine {
  import opened Wrappers
  import opened Strings
  import JsNumber
  import TextProcessor
  import ChineseTokenizer

  // ---------------------------------------------------------------- word records

  datatype WordData = WordData(
    word: string,
    isWikiLink: bool,
    isKeyword: bool,
    isPunctuation: bool,
    focusPoint: int,
    paragraphBreak: bool)

  /** `calculateFocusPoint`: a third of the way into the word, at most 2. */
  function FocusPoint(word: string): (r: int)
    ensures 0 <= r <= 2
    ensures |word| > 0 ==> r < |word|
    ensures |word| <= 1 ==> r == 0
    ensures 3 * r <= |word| && (r == 2 || |word| < 3 * (r + 1))
  {
    if |word| <= 1 then 0
    else if |word| / 3 < 2 then |word| / 3
    else 2
  }

  /** The symbols `isPunctuation` looks for at the end of a word. */
  const PunctuationMarks: set<char> := {'.', ',', '!', '?', ';', ':', '。', '，', '！', '？', '；', '：', '、'}

  /** `isPunctuation`: the word ends with one of the thirteen marks. The last
      character of an empty word is `undefined`, which is not in the list. */
  function IsPunctuation(word: string): (r: bool)
    ensures r <==> |word| > 0 && word[|word| - 1] in PunctuationMarks
  {
    |word| > 0 && word[|word| - 1] in PunctuationMarks
  }

  /** A token the tokenizer extended with one of its merged punctuation
      characters counts as punctuation, except for the quotes and brackets,
      which the engine's list lacks. */
  lemma {:induction false} MergedPunctuationFlagged(token: string, c: char)
    requires ChineseTokenizer.IsMergedPunctuation(c)
    ensures IsPunctuation(token + [c]) <==> c in {'，', '。', '！', '？', '；', '：', '、'}
  {
  }

  /** The record of one word of a paragraph: the link and keyword flags use
      exact equality with the paragraph's lists. */
  function MakeWord(word: string, p: TextProcessor.Paragraph): (r: WordData)
    ensures r.word == word && !r.paragraphBreak
    ensures r.isWikiLink <==> exists i :: 0 <= i < |p.wikiLinks| && p.wikiLinks[i] == word
    ensures r.isKeyword <==> exists i :: 0 <= i < |p.keywords| && p.keywords[i] == word
    ensures r.isPunctuation == IsPunctuation(word) && r.focusPoint == FocusPoint(word)
  {
    WordData(word, word in p.wikiLinks, word in p.keywords, IsPunctuation(word), FocusPoint(word), false)
  }

  function WordsOf(p: TextProcessor.Paragraph): (r: seq<WordData>)
    ensures |r| == |p.words|
    ensures forall i :: 0 <= i < |r| ==> r[i] == MakeWord(p.words[i], p)
  {
    seq(|p.words|, i requires 0 <= i < |p.words| => MakeWord(p.words[i], p))
  }

  // ---------------------------------------------------------------- flattening

  datatype Flat = Flat(words: seq<WordData>, breaks: seq<int>)

  /** The break points index words, exactly the flagged words are break
      points, and the last word is one. */
  ghost predicate FlatOk(f: Flat) {
    && (forall k :: 0 <= k < |f.breaks| ==> 0 <= f.breaks[k] < |f.words|)
    && (forall i :: 0 <= i < |f.words| ==> (f.words[i].paragraphBreak <==> i in f.breaks))
    && (|f.words| > 0 ==> |f.breaks| > 0 && f.breaks[|f.breaks| - 1] == |f.words| - 1)
  }

  ghost predicate Increasing(xs: seq<int>) {
    forall i, j :: 0 <= i < j < |xs| ==> xs[i] < xs[j]
  }

  /** One step of the `forEach` over paragraphs: push the paragraph's words,
      then, if there are words at all, flag the last one and record it. */
  function AddParagraph(f: Flat, p: TextProcessor.Paragraph): Flat {
    var ws := f.words + WordsOf(p);
    if |ws| > 0 then
      Flat(ws[..|ws| - 1] + [ws[|ws| - 1].(paragraphBreak := true)], f.breaks + [|ws| - 1])
    else Flat(ws, f.breaks)
  }

  /** The new records: the old ones, then the paragraph's, with the last one
      flagged. */
  lemma {:induction false} AddParagraphWords(f: Flat, p: TextProcessor.Paragraph)
    ensures var r := AddParagraph(f, p);
      && |r.words| == |f.words| + |p.words|
      && (forall i :: 0 <= i < |f.words| ==> r.words[i].word == f.words[i].word)
      && (forall i :: 0 <= i < |p.words| ==> r.words[|f.words| + i].word == p.words[i])
      && (forall i :: 0 <= i < |r.words| - 1 ==> r.words[i] == (f.words + WordsOf(p))[i])
      && (|r.words| > 0 ==> r.words[|r.words| - 1].paragraphBreak && r.breaks == f.breaks + [|r.words| - 1])
      && (|r.words| == 0 ==> r.breaks == f.breaks)
  {
    var ws := f.words + WordsOf(p);
    if |ws| > 0 {
      var n := |ws| - 1;
      var r := AddParagraph(f, p);
      assert r.words == ws[..n] + [ws[n].(paragraphBreak := true)];
      forall i | 0 <= i < |p.words| ensures r.words[|f.words| + i].word == p.words[i] {
        assert ws[|f.words| + i] == MakeWord(p.words[i], p);
      }
    }
  }

  lemma {:induction false} AddParagraphOk(f: Flat, p: TextProcessor.Paragraph)
    requires FlatOk(f)
    ensures FlatOk(AddParagraph(f, p))
  {
    var r := AddParagraph(f, p);
    forall i | 0 <= i < |r.words| ensures r.words[i].paragraphBreak <==> i in r.breaks {
      AddParagraphFlag(f, p, i);
    }
  }

  /** A record is flagged after the step exactly when its index is a break
      point after the step. */
  lemma {:induction false} AddParagraphFlag(f: Flat, p: TextProcessor.Paragraph, i: nat)
    requires FlatOk(f) && i < |f.words| + |p.words|
    ensures AddParagraph(f, p).words[i].paragraphBreak <==> i in AddParagraph(f, p).breaks
  {
    var ws := f.words + WordsOf(p);
    var n := |ws| - 1;
    var r := AddParagraph(f, p);
    assert r.words == ws[..n] + [ws[n].(paragraphBreak := true)];
    assert r.breaks == f.breaks + [n];
    if i == n {
      assert r.words[i].paragraphBreak;
    } else {
      assert r.words[i] == ws[i];
      assert i in r.breaks <==> i in f.breaks;
      if i >= |f.words| {
        assert ws[i] == MakeWord(p.words[i - |f.words|], p);
        assert i !in f.breaks;
      } else {
        assert ws[i] == f.words[i];
      }
    }
  }

  /** With a non-empty paragraph the break points stay strictly increasing and
      grow by one. */
  lemma {:induction false} AddParagraphIncreasing(f: Flat, p: TextProcessor.Paragraph)
    requires FlatOk(f) && Increasing(f.breaks) && |p.words| > 0
    ensures Increasing(AddParagraph(f, p).breaks)
    ensures |AddParagraph(f, p).breaks| == |f.breaks| + 1
  {
    var r := AddParagraph(f, p);
    var n := |f.words| + |p.words| - 1;
    assert r.breaks == f.breaks + [n];
    forall i, j | 0 <= i < j < |r.breaks| ensures r.breaks[i] < r.breaks[j] {
      if j == |f.breaks| {
        assert r.breaks[i] == f.breaks[i];
      }
    }
  }

  /** The loop of `processText` over all paragraphs. */
  function Flatten(ps: seq<TextProcessor.Paragraph>): Flat
    decreases |ps|
  {
    if |ps| == 0 then Flat([], [])
    else AddParagraph(Flatten(ps[..|ps| - 1]), ps[|ps| - 1])
  }

  lemma {:induction false} AllWordsSnoc(ps: seq<TextProcessor.Paragraph>)
    requires |ps| > 0
    ensures TextProcessor.AllWords(ps) == TextProcessor.AllWords(ps[..|ps| - 1]) + ps[|ps| - 1].words
  {
    if |ps| > 1 {
      AllWordsSnoc(ps[1..]);
      assert ps[1..][..|ps[1..]| - 1] == ps[..|ps| - 1][1..];
      assert ps[1..][|ps[1..]| - 1] == ps[|ps| - 1];
    } else {
      assert TextProcessor.AllWords(ps[1..]) == [];
    }
  }

  lemma {:induction false} AllWordsCount(ps: seq<TextProcessor.Paragraph>, before: nat, last: nat)
    requires |ps| > 0
    requires before == |TextProcessor.AllWords(ps[..|ps| - 1])| && last == |ps[|ps| - 1].words|
    ensures |TextProcessor.AllWords(ps)| == before + last
  {
    AllWordsSnoc(ps);
  }

  /** The records are the paragraphs' words in order, with the break points
      marking exactly the flagged words and ending at the last word. */
  lemma {:induction false} FlattenOk(ps: seq<TextProcessor.Paragraph>)
    ensures FlatOk(Flatten(ps))
    ensures |Flatten(ps).words| == |TextProcessor.AllWords(ps)|
    ensures forall i :: 0 <= i < |Flatten(ps).words| ==> Flatten(ps).words[i].word == TextProcessor.AllWords(ps)[i]
    decreases |ps|
  {
    if |ps| > 0 {
      var init := ps[..|ps| - 1];
      var p := ps[|ps| - 1];
      var f := Flatten(init);
      var r := Flatten(ps);
      FlattenOk(init);
      AddParagraphOk(f, p);
      AddParagraphWords(f, p);
      AllWordsSnoc(ps);
      var all := TextProcessor.AllWords(ps);
      assert all == TextProcessor.AllWords(init) + p.words;
      forall i | 0 <= i < |r.words| ensures r.words[i].word == all[i] {
        if i < |f.words| {
          assert r.words[i].word == f.words[i].word;
        } else {
          assert r.words[|f.words| + (i - |f.words|)].word == p.words[i - |f.words|];
        }
      }
    }
  }

  /** Apart from the break flag, every new record is the old record or the
      paragraph's own record for its word. */
  lemma {:induction false} AddParagraphRecords(f: Flat, p: TextProcessor.Paragraph)
    ensures var r := AddParagraph(f, p);
      && |r.words| == |f.words| + |p.words|
      && forall i :: 0 <= i < |r.words| ==>
        r.words[i].(paragraphBreak := false) == (f.words + WordsOf(p))[i].(paragraphBreak := false)
  {
    var ws := f.words + WordsOf(p);
    var r := AddParagraph(f, p);
    if |ws| > 0 {
      var n := |ws| - 1;
      assert r.words == ws[..n] + [ws[n].(paragraphBreak := true)];
      forall i | 0 <= i < |r.words|
        ensures r.words[i].(paragraphBreak := false) == ws[i].(paragraphBreak := false)
      {
        if i < n {
          assert r.words[i] == ws[i];
        }
      }
    }
  }

  lemma {:induction false} FlattenLength(ps: seq<TextProcessor.Paragraph>)
    ensures |Flatten(ps).words| == |TextProcessor.AllWords(ps)|
    decreases |ps|
  {
    if |ps| > 0 {
      var init := ps[..|ps| - 1];
      FlattenLength(init);
      AddParagraphRecords(Flatten(init), ps[|ps| - 1]);
      AllWordsSnoc(ps);
    }
  }

  /** Word `m` of paragraph `j` sits at index `m` plus the number of words of
      the paragraphs before it, and its record is the one `MakeWord` builds from
      that paragraph, apart from the break flag. */
  ghost predicate HoldsWord(words: seq<WordData>, ps: seq<TextProcessor.Paragraph>, j: nat, m: nat)
    requires j < |ps| && m < |ps[j].words|
  {
    var i := |TextProcessor.AllWords(ps[..j])| + m;
    i < |words| && words[i].(paragraphBreak := false) == MakeWord(ps[j].words[m], ps[j])
  }

  lemma {:induction false} FlattenRecord(ps: seq<TextProcessor.Paragraph>, j: nat, m: nat)
    requires j < |ps| && m < |ps[j].words|
    ensures HoldsWord(Flatten(ps).words, ps, j, m)
    decreases |ps|, 1
  {
    if j < |ps| - 1 {
      FlattenRecordEarlier(ps, j, m);
    } else {
      FlattenRecordLast(ps, m);
    }
  }

  lemma {:induction false} FlattenRecordEarlier(ps: seq<TextProcessor.Paragraph>, j: nat, m: nat)
    requires j < |ps| - 1 && m < |ps[j].words|
    ensures HoldsWord(Flatten(ps).words, ps, j, m)
    decreases |ps|, 0
  {
    var init := ps[..|ps| - 1];
    var f := Flatten(init);
    var idx := |TextProcessor.AllWords(ps[..j])| + m;
    assert ps[..j] == init[..j] && ps[j] == init[j];
    FlattenRecord(init, j, m);
    assert idx < |f.words| && f.words[idx].(paragraphBreak := false) == MakeWord(ps[j].words[m], ps[j]);
    FlattenSnocKeeps(ps, idx);
  }

  /** A step of `Flatten` keeps every earlier record, apart from its break
      flag. */
  lemma {:induction false} FlattenSnocKeeps(ps: seq<TextProcessor.Paragraph>, i: nat)
    requires |ps| > 0 && i < |Flatten(ps[..|ps| - 1]).words|
    ensures i < |Flatten(ps).words|
    ensures Flatten(ps).words[i].(paragraphBreak := false) == Flatten(ps[..|ps| - 1]).words[i].(paragraphBreak := false)
  {
    var f := Flatten(ps[..|ps| - 1]);
    var p := ps[|ps| - 1];
    assert Flatten(ps) == AddParagraph(f, p);
    AddParagraphRecords(f, p);
    assert (f.words + WordsOf(p))[i] == f.words[i];
  }

  lemma {:induction false} FlattenRecordLast(ps: seq<TextProcessor.Paragraph>, m: nat)
    requires |ps| > 0 && m < |ps[|ps| - 1].words|
    ensures HoldsWord(Flatten(ps).words, ps, |ps| - 1, m)
  {
    var n := |ps| - 1;
    var init := ps[..n];
    var p := ps[n];
    var f := Flatten(init);
    var r := Flatten(ps);
    var idx := |TextProcessor.AllWords(init)| + m;
    FlattenLength(init);
    assert r == AddParagraph(f, p);
    AddParagraphRecords(f, p);
    var w := MakeWord(p.words[m], p);
    assert (f.words + WordsOf(p))[idx] == w;
    assert w.(paragraphBreak := false) == w;
  }

  /** When every paragraph has a word, break point `k` is the index of the last
      word of paragraph `k`. */
  lemma {:induction false} FlattenBreak(ps: seq<TextProcessor.Paragraph>, k: nat)
    requires forall i :: 0 <= i < |ps| ==> |ps[i].words| > 0
    requires k < |ps|
    ensures k < |Flatten(ps).breaks|
    ensures Flatten(ps).breaks[k] == |TextProcessor.AllWords(ps[..k + 1])| - 1
    decreases |ps|, 2
  {
    if k < |ps| - 1 {
      FlattenBreakBefore(ps, k);
    } else {
      FlattenBreakAtEnd(ps);
      assert ps[..k + 1] == ps;
    }
  }

  lemma {:induction false} FlattenBreakBefore(ps: seq<TextProcessor.Paragraph>, k: nat)
    requires forall i :: 0 <= i < |ps| ==> |ps[i].words| > 0
    requires k < |ps| - 1
    ensures k < |Flatten(ps).breaks|
    ensures Flatten(ps).breaks[k] == |TextProcessor.AllWords(ps[..k + 1])| - 1
    decreases |ps|, 1
  {
    var init := ps[..|ps| - 1];
    var f := Flatten(init);
    var r := Flatten(ps);
    FlattenSnocBreaks(ps);
    NonEmptyInit(ps);
    FlattenBreakCount(init);
    assert r.breaks[..|f.breaks|] == f.breaks;
    FlattenBreakEarlier(ps, k, init, r.breaks, f.breaks);
  }

  lemma {:induction false} FlattenBreakAtEnd(ps: seq<TextProcessor.Paragraph>)
    requires forall i :: 0 <= i < |ps| ==> |ps[i].words| > 0
    requires |ps| > 0
    ensures |ps| - 1 < |Flatten(ps).breaks|
    ensures Flatten(ps).breaks[|ps| - 1] == |TextProcessor.AllWords(ps)| - 1
  {
    var init := ps[..|ps| - 1];
    var f := Flatten(init);
    FlattenSnocBreaks(ps);
    NonEmptyInit(ps);
    FlattenBreakCount(init);
    FlattenLength(init);
    AllWordsCount(ps, |f.words|, |ps[|ps| - 1].words|);
  }

  lemma {:induction false} NonEmptyInit(ps: seq<TextProcessor.Paragraph>)
    requires forall i :: 0 <= i < |ps| ==> |ps[i].words| > 0
    requires |ps| > 0
    ensures var init := ps[..|ps| - 1]; forall i :: 0 <= i < |init| ==> |init[i].words| > 0
  {
    var init := ps[..|ps| - 1];
    forall i | 0 <= i < |init| ensures |init[i].words| > 0 {
      assert init[i] == ps[i];
    }
  }

  /** One step of `Flatten` appends one break point, at the new last record. */
  lemma {:induction false} FlattenSnocBreaks(ps: seq<TextProcessor.Paragraph>)
    requires |ps| > 0 && |ps[|ps| - 1].words| > 0
    ensures var f := Flatten(ps[..|ps| - 1]);
      Flatten(ps).breaks == f.breaks + [|f.words| + |ps[|ps| - 1].words| - 1]
  {
    var f := Flatten(ps[..|ps| - 1]);
    var p := ps[|ps| - 1];
    assert Flatten(ps) == AddParagraph(f, p);
    AddParagraphWords(f, p);
  }

  /** A break point before the last paragraph is the one of the paragraphs
      before it. */
  lemma {:induction false} FlattenBreakEarlier(ps: seq<TextProcessor.Paragraph>, k: nat, init: seq<TextProcessor.Paragraph>, all: seq<int>, before: seq<int>)
    requires forall i :: 0 <= i < |ps| ==> |ps[i].words| > 0
    requires |ps| > 0 && init == ps[..|ps| - 1] && k < |init|
    requires before == Flatten(init).breaks && |before| == |init|
    requires |before| <= |all| && all[..|before|] == before
    ensures all[k] == |TextProcessor.AllWords(ps[..k + 1])| - 1
    decreases |ps|, 0
  {
    assert ps[..k + 1] == init[..k + 1];
    NonEmptyInit(ps);
    FlattenBreak(init, k);
    assert all[k] == all[..|before|][k];
  }

  lemma {:induction false} FlattenBreakCount(ps: seq<TextProcessor.Paragraph>)
    requires forall i :: 0 <= i < |ps| ==> |ps[i].words| > 0
    ensures |Flatten(ps).breaks| == |ps|
    decreases |ps|
  {
    if |ps| > 0 {
      var init := ps[..|ps| - 1];
      FlattenBreakCount(init);
      assert Flatten(ps).breaks == Flatten(init).breaks + [|(Flatten(init).words + WordsOf(ps[|ps| - 1]))| - 1];
    }
  }

  lemma {:induction false} FlattenBreaks(ps: seq<TextProcessor.Paragraph>)
    requires forall i :: 0 <= i < |ps| ==> |ps[i].words| > 0
    ensures |Flatten(ps).breaks| == |ps|
    ensures forall k :: 0 <= k < |ps| ==> Flatten(ps).breaks[k] == |TextProcessor.AllWords(ps[..k + 1])| - 1
  {
    FlattenBreakCount(ps);
    forall k | 0 <= k < |ps| ensures Flatten(ps).breaks[k] == |TextProcessor.AllWords(ps[..k + 1])| - 1 {
      FlattenBreak(ps, k);
    }
  }

  /** When every paragraph has a word, there is one break point per paragraph
      and they strictly increase. */
  lemma {:induction false} FlattenIncreasing(ps: seq<TextProcessor.Paragraph>)
    requires forall i :: 0 <= i < |ps| ==> |ps[i].words| > 0
    ensures Increasing(Flatten(ps).breaks)
    ensures |Flatten(ps).breaks| == |ps|
    decreases |ps|
  {
    if |ps| > 0 {
      var init := ps[..|ps| - 1];
      FlattenIncreasing(init);
      FlattenOk(init);
      AddParagraphIncreasing(Flatten(init), ps[|ps| - 1]);
    }
  }

  // ---------------------------------------------------------------- engine state

  /** The pause settings the engine reads. */
  datatype Settings = Settings(enableIntelligentPause: bool, pauseMultiplierForPunctuation: real)

  datatype Engine = Engine(words: seq<WordData>, currentPosition: int, breakPoints: seq<int>)

  /** What `processText` establishes and every operation keeps. */
  ghost predicate Valid(e: Engine) {
    && FlatOk(Flat(e.words, e.breakPoints))
    && Increasing(e.breakPoints)
    && (|e.words| == 0 ==> e.currentPosition == 0)
    && (|e.words| > 0 ==> 0 <= e.currentPosition < |e.words|)
  }

  function Clamp(position: int, len: int): int {
    if position < len - 1 then (if 0 < position then position else 0)
    else if 0 < len - 1 then len - 1 else 0
  }

  /** `setCurrentPosition`: `max(0, min(position, len - 1))`. */
  function SetCurrentPosition(e: Engine, position: int): (r: Engine)
    ensures r.words == e.words && r.breakPoints == e.breakPoints
    ensures |e.words| == 0 ==> r.currentPosition == 0
    ensures |e.words| > 0 ==> 0 <= r.currentPosition < |e.words|
    ensures 0 <= position < |e.words| ==> r.currentPosition == position
    ensures position < 0 ==> r.currentPosition == 0
    ensures |e.words| > 0 && position >= |e.words| ==> r.currentPosition == |e.words| - 1
  {
    e.(currentPosition := Clamp(position, |e.words|))
  }

  /** Setting a position twice is setting it once; it keeps the engine valid. */
  lemma {:induction false} SetCurrentPositionIdempotent(e: Engine, position: int)
    ensures SetCurrentPosition(SetCurrentPosition(e, position), SetCurrentPosition(e, position).currentPosition)
            == SetCurrentPosition(e, position)
    ensures Valid(e) ==> Valid(SetCurrentPosition(e, position))
  {
  }

  /** `getCurrentWordData`: the word under the cursor, none out of range. */
  function CurrentWord(e: Engine): (r: Option<WordData>)
    ensures r.Some? <==> 0 <= e.currentPosition < |e.words|
    ensures r.Some? ==> r.value == e.words[e.currentPosition]
  {
    if 0 <= e.currentPosition < |e.words| then Some(e.words[e.currentPosition]) else None
  }

  /** `getNextWord`: at or past the last word nothing changes and there is no
      word; otherwise the cursor advances by one and the new word is returned. */
  function GetNextWord(e: Engine): (r: (Engine, Option<WordData>))
    ensures r.0.words == e.words && r.0.breakPoints == e.breakPoints
    ensures e.currentPosition >= |e.words| - 1 ==> r.0 == e && r.1 == None
    ensures e.currentPosition < |e.words| - 1 ==> r.0.currentPosition == e.currentPosition + 1
    ensures 0 <= e.currentPosition < |e.words| - 1 ==> r.1 == Some(e.words[e.currentPosition + 1])
  {
    if e.currentPosition >= |e.words| - 1 then (e, None)
    else
      var next := e.(currentPosition := e.currentPosition + 1);
      (next, CurrentWord(next))
  }

  lemma {:induction false} GetNextWordValid(e: Engine)
    requires Valid(e)
    ensures Valid(GetNextWord(e).0)
  {
  }

  /** `getTotalWords`. */
  function GetTotalWords(e: Engine): nat {
    |e.words|
  }

  // ---------------------------------------------------------------- processText

  /** The prefix `processText` builds from a line and column: the lines before
      the cursor line joined by line feeds, then directly, without a line feed,
      the first `ch` characters of the cursor line (`substring` clamps `ch`). */
  function TextBefore(text: string, line: nat, ch: int): string
    requires line < |SplitLines(text)|
  {
    var lines := SplitLines(text);
    JoinLines(lines[..line]) + lines[line][..Column(text, line, ch)]
  }

  lemma {:induction false} JoinLinesHead(xs: seq<string>)
    requires |xs| > 0
    ensures |xs[0]| <= |JoinLines(xs)| && JoinLines(xs)[..|xs[0]|] == xs[0]
  {
  }

  /** The column `substring(0, ch)` keeps of the cursor line. */
  function Column(text: string, line: nat, ch: int): (c: nat)
    requires line < |SplitLines(text)|
    ensures c <= |SplitLines(text)[line]|
  {
    var cur := SplitLines(text)[line];
    if ch < 0 then 0 else if ch > |cur| then |cur| else ch
  }

  /** On the first line the prefix is a true prefix of the text. */
  lemma {:induction false} TextBeforeFirstLine(text: string, ch: int)
    ensures Column(text, 0, ch) <= |text| && TextBefore(text, 0, ch) == text[..Column(text, 0, ch)]
  {
    var lines := SplitLines(text);
    var c := Column(text, 0, ch);
    JoinSplitLines(text);
    JoinLinesHead(lines);
    assert lines[..0] == [];
    assert text[..c] == text[..|lines[0]|][..c];
  }

  /** On a later line the prefix is the true prefix with the line feed before
      the cursor line taken out, so the last word of the previous line and the
      first characters of the cursor line run together. */
  lemma {:induction false} TextBeforeLaterLine(text: string, line: nat, ch: int)
    requires 0 < line < |SplitLines(text)|
    ensures var k := |JoinLines(SplitLines(text)[..line])|;
      var c := Column(text, line, ch);
      && k + 1 + c <= |text| && text[k] == '\n'
      && TextBefore(text, line, ch) == text[..k] + text[k + 1..k + 1 + c]
  {
    var lines := SplitLines(text);
    var head := JoinLines(lines[..line]);
    var tail := JoinLines(lines[line..]);
    JoinSplitLines(text);
    assert lines == lines[..line] + lines[line..];
    JoinLinesAppend(lines[..line], lines[line..]);
    JoinLinesHead(lines[line..]);
    assert lines[line..][0] == lines[line];
    SplitAtNewline(text, head, tail, lines[line], Column(text, line, ch));
  }

  lemma {:induction false} SplitAtNewline(text: string, head: string, tail: string, cur: string, c: nat)
    requires text == head + "\n" + tail
    requires |cur| <= |tail| && tail[..|cur|] == cur && c <= |cur|
    ensures |head| + 1 + c <= |text| && text[|head|] == '\n'
    ensures text[..|head|] + text[|head| + 1..|head| + 1 + c] == head + cur[..c]
  {
    assert text[..|head|] == head;
    assert text[|head| + 1..|head| + 1 + c] == tail[..c];
    assert tail[..c] == tail[..|cur|][..c];
  }

  /** The cursor position `processText` may be given. */
  datatype LineCh = LineCh(line: nat, ch: int)

  datatype Processed = Processed(engine: Engine, processor: TextProcessor.Processor)

  /** `processText`: processes the text, flattens its paragraphs, and places the
      cursor at the estimated word of the given line and column (0 without
      one). Estimating re-processes the texts, so the processor ends up
      remembering the text before the cursor. */
  function ProcessText(proc: TextProcessor.Processor, text: string, initial: Option<LineCh>, passes: string -> string): (r: Processed)
    requires initial.Some? ==> initial.value.line < |SplitLines(text)|
    ensures Valid(r.engine)
    ensures |r.engine.words| == |TextProcessor.AllWords(TextProcessor.ProcessMarkdown(proc, text, passes).paragraphs)|
    ensures forall i :: 0 <= i < |r.engine.words| ==>
      r.engine.words[i].word == TextProcessor.AllWords(TextProcessor.ProcessMarkdown(proc, text, passes).paragraphs)[i]
    ensures |r.engine.breakPoints| == |TextProcessor.ProcessMarkdown(proc, text, passes).paragraphs|
    ensures LaidOut(r.engine.words, r.engine.breakPoints, TextProcessor.ProcessMarkdown(proc, text, passes).paragraphs)
    ensures initial.None? ==> r.engine.currentPosition == 0 && r.processor == TextProcessor.ProcessMarkdown(proc, text, passes).state
    ensures initial.Some? ==>
      var before := TextBefore(text, initial.value.line, initial.value.ch);
      r.processor == TextProcessor.ProcessMarkdown(proc, before, passes).state
  {
    var processed := TextProcessor.ProcessMarkdown(proc, text, passes);
    TextProcessor.ProcessNonEmpty(proc, text, passes);
    var engine := FlatEngine(processed.paragraphs);
    match initial
    case None => Processed(SetCurrentPosition(engine, 0), processed.state)
    case Some(at) =>
      var before := TextBefore(text, at.line, at.ch);
      var estimate := TextProcessor.ApproximateWordPosition(processed.state, text, before, passes);
      Processed(SetCurrentPosition(engine, estimate.1), estimate.0)
  }

  /** A fresh engine over the flattened paragraphs, with the cursor at word 0. */
  function FlatEngine(ps: seq<TextProcessor.Paragraph>): (e: Engine)
    requires forall i :: 0 <= i < |ps| ==> |ps[i].words| > 0
    ensures Valid(e) && e.currentPosition == 0
    ensures |e.words| == |TextProcessor.AllWords(ps)|
    ensures forall i :: 0 <= i < |e.words| ==> e.words[i].word == TextProcessor.AllWords(ps)[i]
    ensures LaidOut(e.words, e.breakPoints, ps)
  {
    FlattenOk(ps);
    FlattenIncreasing(ps);
    FlattenLayout(ps);
    Engine(Flatten(ps).words, 0, Flatten(ps).breaks)
  }

  /** Records and break points laid out over the paragraphs: break point `k`
      is the last word of paragraph `k`, and word `m` of paragraph `j` sits
      where `HoldsWord` says. */
  ghost predicate LaidOut(words: seq<WordData>, breaks: seq<int>, ps: seq<TextProcessor.Paragraph>) {
    && |breaks| == |ps|
    && (forall k :: 0 <= k < |ps| ==> breaks[k] == |TextProcessor.AllWords(ps[..k + 1])| - 1)
    && (forall j, m :: 0 <= j < |ps| && 0 <= m < |ps[j].words| ==> HoldsWord(words, ps, j, m))
  }

  /** A flattening of non-empty paragraphs is laid out over them. */
  lemma {:induction false} FlattenLayout(ps: seq<TextProcessor.Paragraph>)
    requires forall i :: 0 <= i < |ps| ==> |ps[i].words| > 0
    ensures FlatOk(Flatten(ps)) && LaidOut(Flatten(ps).words, Flatten(ps).breaks, ps)
  {
    FlattenOk(ps);
    FlattenBreaks(ps);
    forall j, m | 0 <= j < |ps| && 0 <= m < |ps[j].words| ensures HoldsWord(Flatten(ps).words, ps, j, m) {
      FlattenRecord(ps, j, m);
    }
  }

  lemma {:induction false} ProcessTextFlat(proc: TextProcessor.Processor, text: string, initial: Option<LineCh>, passes: string -> string)
    requires initial.Some? ==> initial.value.line < |SplitLines(text)|
    ensures var e := ProcessText(proc, text, initial, passes).engine;
      var f := Flatten(TextProcessor.ProcessMarkdown(proc, text, passes).paragraphs);
      e.words == f.words && e.breakPoints == f.breaks
  {
  }

  /** After `processText` the total is the number of words of all paragraphs,
      and the last paragraph ends on the last word. */
  lemma {:induction false} TotalWordsAfterProcess(proc: TextProcessor.Processor, text: string, initial: Option<LineCh>, passes: string -> string)
    requires initial.Some? ==> initial.value.line < |SplitLines(text)|
    ensures var e := ProcessText(proc, text, initial, passes).engine;
      var ps := TextProcessor.ProcessMarkdown(proc, text, passes).paragraphs;
      && GetTotalWords(e) == |TextProcessor.AllWords(ps)|
      && (|ps| > 0 ==> e.breakPoints[|ps| - 1] == GetTotalWords(e) - 1)
  {
    var ps := TextProcessor.ProcessMarkdown(proc, text, passes).paragraphs;
    ProcessTextFlat(proc, text, initial, passes);
    if |ps| > 0 {
      TextProcessor.ProcessNonEmpty(proc, text, passes);
      FlattenEndsLast(ps);
    }
  }

  /** The last break is the last record. */
  lemma {:induction false} FlattenEndsLast(ps: seq<TextProcessor.Paragraph>)
    requires forall i :: 0 <= i < |ps| ==> |ps[i].words| > 0
    requires |ps| > 0
    ensures |Flatten(ps).breaks| == |ps|
    ensures Flatten(ps).breaks[|ps| - 1] == |Flatten(ps).words| - 1
  {
    FlattenBreak(ps, |ps| - 1);
    FlattenBreakCount(ps);
    FlattenLength(ps);
    assert ps[..|ps|] == ps;
  }

  /** With a cursor, the engine starts on the word that follows all the words
      of the text before the cursor, or on the last word when the text before
      the cursor yields as many words as the whole text. */
  lemma {:induction false} ProcessTextCursor(proc: TextProcessor.Processor, text: string, at: LineCh, passes: string -> string)
    requires at.line < |SplitLines(text)|
    ensures var r := ProcessText(proc, text, Some(at), passes);
      var b := |TextProcessor.AllWords(TextProcessor.ProcessMarkdown(proc, TextBefore(text, at.line, at.ch), passes).paragraphs)|;
      && (b < |r.engine.words| ==> r.engine.currentPosition == b)
      && (0 < |r.engine.words| <= b ==> r.engine.currentPosition == |r.engine.words| - 1)
      && (|r.engine.words| == 0 ==> r.engine.currentPosition == 0)
  {
    var processed := TextProcessor.ProcessMarkdown(proc, text, passes);
    var before := TextBefore(text, at.line, at.ch);
    var est := TextProcessor.ApproximateWordPosition(processed.state, text, before, passes);
    TextProcessor.ParagraphsIgnoreState(processed.state, proc, text, passes);
    TextProcessor.ParagraphsIgnoreState(processed.state, proc, before, passes);
    ProcessTextFlat(proc, text, Some(at), passes);
    FlattenLength(processed.paragraphs);
    ProcessTextSetsEstimate(proc, text, at, passes);
  }

  lemma {:induction false} ProcessTextSetsEstimate(proc: TextProcessor.Processor, text: string, at: LineCh, passes: string -> string)
    requires at.line < |SplitLines(text)|
    ensures var processed := TextProcessor.ProcessMarkdown(proc, text, passes);
      var est := TextProcessor.ApproximateWordPosition(processed.state, text, TextBefore(text, at.line, at.ch), passes);
      var e := ProcessText(proc, text, Some(at), passes).engine;
      e.currentPosition == Clamp(est.1, |e.words|)
  {
  }

  // ---------------------------------------------------------------- progress

  /** `getReadingProgress` as written: 0 without words, otherwise the cursor
      divided by `len - 1`, which is 0 / 0 for a one-word document. */
  function GetReadingProgress(e: Engine): (r: JsNumber.Number)
    ensures |e.words| == 0 ==> r == JsNumber.Finite(0.0)
    ensures |e.words| >= 2 ==> r.Finite? && r.value * (|e.words| - 1) as real == e.currentPosition as real
  {
    if |e.words| == 0 then JsNumber.Finite(0.0)
    else JsNumber.Div(e.currentPosition as real, (|e.words| - 1) as real)
  }

  /** A valid one-word engine reports its progress as NaN. */
  lemma {:induction false} SingleWordProgressIsNaN(e: Engine)
    requires Valid(e) && |e.words| == 1
    ensures GetReadingProgress(e).NaN?
  {
  }

  /** The progress with the one-word case guarded: a fraction in `[0, 1]`. */
  function ReadingProgress(e: Engine): (r: real)
    requires Valid(e)
    ensures 0.0 <= r <= 1.0
    ensures e.currentPosition == 0 ==> r == 0.0
    ensures |e.words| >= 2 && e.currentPosition == |e.words| - 1 ==> r == 1.0
    ensures |e.words| != 1 ==> GetReadingProgress(e) == JsNumber.Finite(r)
  {
    if |e.words| <= 1 then 0.0
    else e.currentPosition as real / (|e.words| - 1) as real
  }

  /** The progress grows with the cursor. */
  lemma {:induction false} ReadingProgressMonotone(e: Engine, position: int)
    requires Valid(e) && e.currentPosition <= position < |e.words|
    ensures ReadingProgress(e) <= ReadingProgress(e.(currentPosition := position))
  {
    if |e.words| >= 2 {
      DivMonotone(e.currentPosition as real, position as real, (|e.words| - 1) as real);
    }
  }

  lemma {:induction false} DivMonotone(a: real, b: real, d: real)
    requires a <= b && d > 0.0
    ensures a / d <= b / d
  {
    var q := b / d - a / d;
    assert q * d == b - a;
  }

  // ---------------------------------------------------------------- timing

  /** `getDisplayTimeForCurrentWord`: `60000 / speed` milliseconds, times the
      punctuation multiplier when intelligent pause is on and the word is
      punctuation, times 1.5 at a paragraph end, times 1.2 for a word longer
      than eight characters. */
  function DisplayTime(e: Engine, settings: Settings, baseSpeed: real): (r: real)
    requires baseSpeed > 0.0
    ensures CurrentWord(e).None? ==> r == 60000.0 / baseSpeed
    ensures CurrentWord(e).Some? ==>
      var w := CurrentWord(e).value;
      r == 60000.0 / baseSpeed
           * (if settings.enableIntelligentPause && w.isPunctuation then settings.pauseMultiplierForPunctuation else 1.0)
           * (if w.paragraphBreak then 1.5 else 1.0)
           * (if |w.word| > 8 then 1.2 else 1.0)
  {
    match CurrentWord(e)
    case None => 60000.0 / baseSpeed
    case Some(w) =>
      var t0 := 60000.0 / baseSpeed;
      var t1 := if settings.enableIntelligentPause && w.isPunctuation then t0 * settings.pauseMultiplierForPunctuation else t0;
      var t2 := if w.paragraphBreak then t1 * 1.5 else t1;
      if |w.word| > 8 then t2 * 1.2 else t2
  }

  /** With a multiplier of at least 1 no word is shown shorter than the base
      time or longer than 1.8 times the multiplier times it. */
  lemma {:induction false} DisplayTimeBounds(e: Engine, settings: Settings, baseSpeed: real)
    requires baseSpeed > 0.0 && settings.pauseMultiplierForPunctuation >= 1.0
    ensures 60000.0 / baseSpeed <= DisplayTime(e, settings, baseSpeed)
    ensures DisplayTime(e, settings, baseSpeed) <= 60000.0 / baseSpeed * settings.pauseMultiplierForPunctuation * 1.8
  {
    var t0 := 60000.0 / baseSpeed;
    var m := settings.pauseMultiplierForPunctuation;
    assert t0 > 0.0;
    assert t0 <= t0 * m;
    assert t0 * m * 1.5 * 1.2 == t0 * m * 1.8;
  }

  /** At 400 words per minute a punctuation-ended paragraph-final word longer
      than eight characters, with the default multiplier 1.5, shows for
      150 × 1.5 × 1.5 × 1.2 = 405 ms. */
  lemma {:induction false} DisplayTimeExample(e: Engine)
    requires 0 <= e.currentPosition < |e.words|
    requires e.words[e.currentPosition].isPunctuation && e.words[e.currentPosition].paragraphBreak
    requires |e.words[e.currentPosition].word| > 8
    ensures DisplayTime(e, Settings(true, 1.5), 400.0) == 405.0
  {
  }

  // ---------------------------------------------------------------- paragraph jumps

  /** The index of the first break point after the cursor, in list order, or
      the number of break points when there is none. */
  function FirstBreakAfter(breaks: seq<int>, position: int): (i: nat)
    ensures i <= |breaks|
    ensures i < |breaks| ==> breaks[i] > position
    ensures forall k :: 0 <= k < i ==> breaks[k] <= position
  {
    if |breaks| == 0 || breaks[0] > position then 0
    else 1 + FirstBreakAfter(breaks[1..], position)
  }

  /** `jumpToNextParagraph`: to the word after the first break point beyond the
      cursor, or to the last word. */
  function JumpToNextParagraph(e: Engine): Engine {
    var i := FirstBreakAfter(e.breakPoints, e.currentPosition);
    if i < |e.breakPoints| then SetCurrentPosition(e, e.breakPoints[i] + 1)
    else SetCurrentPosition(e, |e.words| - 1)
  }

  /** The jump moves forward, strictly unless the cursor is on the last word,
      lands just after a paragraph end (or on the last word), and passes no
      other paragraph end than the one just before where it lands. */
  lemma {:induction false} JumpToNextParagraphMoves(e: Engine)
    requires Valid(e)
    ensures var r := JumpToNextParagraph(e);
      && Valid(r) && r.words == e.words
      && e.currentPosition <= r.currentPosition
      && (r.currentPosition == e.currentPosition <==> e.currentPosition == |e.words| - 1 || |e.words| == 0)
      && (0 < r.currentPosition < |e.words| - 1 ==>
            e.currentPosition < r.currentPosition - 1 && e.words[r.currentPosition - 1].paragraphBreak)
      && (forall k :: e.currentPosition < k < r.currentPosition - 1 ==> !e.words[k].paragraphBreak)
  {
    var cp := e.currentPosition;
    var i := FirstBreakAfter(e.breakPoints, cp);
    if i < |e.breakPoints| {
      var b := e.breakPoints[i];
      forall k | cp < k < b ensures !e.words[k].paragraphBreak {
        NoBreakBetween(e.breakPoints, i, cp, k);
      }
    } else {
      if |e.words| > 0 {
        assert e.breakPoints[|e.breakPoints| - 1] <= cp;
      }
    }
  }

  /** Between the last break point at or before a position and the next one
      lies no break point at all. */
  lemma {:induction false} NoBreakBetween(breaks: seq<int>, i: nat, position: int, k: int)
    requires Increasing(breaks) && i < |breaks| && position < k < breaks[i]
    requires forall j :: 0 <= j < i ==> breaks[j] <= position
    ensures k !in breaks
  {
    forall j | 0 <= j < |breaks| ensures breaks[j] != k {
      if j > i {
        assert breaks[i] < breaks[j];
      }
    }
  }

  lemma {:induction false} FirstBreakAfterExact(breaks: seq<int>, position: int, i: nat)
    requires Increasing(breaks) && i < |breaks| && breaks[i] > position
    requires forall k :: 0 <= k < i ==> breaks[k] <= position
    ensures FirstBreakAfter(breaks, position) == i
    decreases i
  {
    if i > 0 {
      assert breaks[0] <= position;
      assert Increasing(breaks[1..]);
      FirstBreakAfterExact(breaks[1..], position, i - 1);
    }
  }

  /** From a paragraph end, which is where the backward jump lands, the forward
      jump does not stop at the next paragraph's start: it passes that whole
      paragraph and lands after the following paragraph end. */
  lemma {:induction false} JumpFromBreakSkipsParagraph(e: Engine, i: nat)
    requires Valid(e) && i + 1 < |e.breakPoints| && e.currentPosition == e.breakPoints[i]
    ensures var next := e.breakPoints[i + 1] + 1;
      JumpToNextParagraph(e).currentPosition == (if next < |e.words| then next else |e.words| - 1)
  {
    forall k | 0 <= k < i + 1 ensures e.breakPoints[k] <= e.currentPosition {
      if k < i {
        assert e.breakPoints[k] < e.breakPoints[i];
      }
    }
    FirstBreakAfterExact(e.breakPoints, e.currentPosition, i + 1);
  }

  function JumpNextTimes(e: Engine, n: nat): Engine
    decreases n
  {
    if n == 0 then e else JumpNextTimes(JumpToNextParagraph(e), n - 1)
  }

  /** Jumping forward as many times as there are words reaches the last word,
      where further jumps change nothing. */
  lemma {:induction false} JumpsReachEnd(e: Engine, n: nat)
    requires Valid(e) && |e.words| > 0
    requires n >= |e.words| - 1 - e.currentPosition
    ensures JumpNextTimes(e, n).currentPosition == |e.words| - 1
    ensures JumpToNextParagraph(JumpNextTimes(e, n)) == JumpNextTimes(e, n)
    decreases n
  {
    JumpToNextParagraphMoves(e);
    if n > 0 {
      JumpsReachEnd(JumpToNextParagraph(e), n - 1);
    } else {
      var r := JumpToNextParagraph(e);
      assert r.currentPosition == e.currentPosition;
    }
  }

  /** The loop of `jumpToPreviousParagraph`: the break point before the first
      one at or after the cursor, 0 if there is none. */
  function PreviousBreak(breaks: seq<int>, position: int, prev: int): (r: int)
    ensures r == prev || r in breaks
  {
    if |breaks| == 0 || breaks[0] >= position then prev
    else PreviousBreak(breaks[1..], position, breaks[0])
  }

  /** `jumpToPreviousParagraph`. */
  function JumpToPreviousParagraph(e: Engine): Engine {
    SetCurrentPosition(e, PreviousBreak(e.breakPoints, e.currentPosition, 0))
  }

  lemma {:induction false} PreviousBreakIsLast(breaks: seq<int>, position: int, prev: int)
    requires Increasing(breaks)
    requires prev < position
    ensures var r := PreviousBreak(breaks, position, prev);
      && r < position
      && (r == prev || r in breaks)
      && forall k :: 0 <= k < |breaks| && r < breaks[k] < position ==> false
    decreases |breaks|
  {
    if |breaks| > 0 && breaks[0] < position {
      assert Increasing(breaks[1..]);
      PreviousBreakIsLast(breaks[1..], position, breaks[0]);
    }
  }

  /** The backward jump lands on the last paragraph end before the cursor, or
      on word 0 when there is none; it never moves forward. */
  lemma {:induction false} JumpToPreviousParagraphMoves(e: Engine)
    requires Valid(e)
    ensures var r := JumpToPreviousParagraph(e);
      && Valid(r) && r.words == e.words
      && r.currentPosition <= e.currentPosition
      && (r.currentPosition == 0 || (r.currentPosition < e.currentPosition && e.words[r.currentPosition].paragraphBreak))
      && forall k :: r.currentPosition < k < e.currentPosition ==> !e.words[k].paragraphBreak
  {
    var cp := e.currentPosition;
    if cp > 0 {
      PreviousBreakIsLast(e.breakPoints, cp, 0);
    } else {
      assert PreviousBreak(e.breakPoints, cp, 0) == 0 by {
        if |e.breakPoints| > 0 {
          assert e.breakPoints[0] >= 0;
        }
      }
    }
  }
}
