/**
 * The markdown normaliser (src/utils/MarkdownParser.ts): wiki-link extraction
 * and replacement, code-fence and inline-code removal, heading stripping, and
 * the heading outline. The image, link, HTML, emphasis and horizontal-rule
 * passes are taken as one caller-supplied total function `passes`.
 */
module MarkdownParser {
  import opened Wrappers
  import opened Strings

  // ---------------------------------------------------------------- wiki links

  predicate NoClose(s: string) {
    forall i :: 0 <= i < |s| ==> s[i] != ']'
  }

  /** The end of the run of characters other than `]` that starts at `from`. */
  function CloseRunEnd(s: string, from: nat): (e: nat)
    requires from <= |s|
    ensures from <= e <= |s|
    ensures NoClose(s[from..e])
    ensures e < |s| ==> s[e] == ']'
    decreases |s| - from
  {
    if from == |s| || s[from] == ']' then from else CloseRunEnd(s, from + 1)
  }

  /** The text a wiki link with the given content occupies. */
  function WikiSpan(content: string): string {
    "[[" + content + "]]"
  }

  /** The content of the match of `\[\[([^\]]+)\]\]` at `p`, if the pattern
      matches there: `[[`, then the longest run of non-`]` characters, which must
      be non-empty, then `]]`. */
  function WikiAt(s: string, p: nat): (r: Option<string>)
    requires p <= |s|
    ensures r.Some? ==> |r.value| > 0 && NoClose(r.value) && OccursAt(s, WikiSpan(r.value), p)
  {
    if p + 2 <= |s| && s[p] == '[' && s[p + 1] == '[' then
      var e := CloseRunEnd(s, p + 2);
      if e > p + 2 && e + 2 <= |s| && s[e] == ']' && s[e + 1] == ']' then
        assert s[p..p + |WikiSpan(s[p + 2..e])|] == WikiSpan(s[p + 2..e]);
        Some(s[p + 2..e])
      else None
    else None
  }

  /** The pattern matches at `p` whenever a well-formed link starts there: the
      greedy run cannot stop anywhere but at the first `]`. */
  lemma {:induction false} WikiAtComplete(s: string, p: nat, content: string)
    requires p <= |s|
    requires |content| > 0 && NoClose(content) && OccursAt(s, WikiSpan(content), p)
    ensures WikiAt(s, p) == Some(content)
  {
    var e := p + 2 + |content|;
    var w := WikiSpan(content);
    assert s[p..p + |w|] == w;
    assert forall k :: 0 <= k < |w| ==> s[p + k] == w[k];
    assert forall k :: 0 <= k < |content| ==> w[2 + k] == content[k];
    assert s[p + 2..e] == content;
    assert s[e] == ']' && s[e + 1] == ']';
  }

  datatype WikiMatch = WikiMatch(start: nat, content: string)

  /** The successive matches of the global wiki-link regex from `p` on. */
  function WikiMatchesFrom(s: string, p: nat): (r: seq<WikiMatch>)
    requires p <= |s|
    ensures forall i :: 0 <= i < |r| ==>
      p <= r[i].start && |r[i].content| > 0 && NoClose(r[i].content)
      && OccursAt(s, WikiSpan(r[i].content), r[i].start)
    ensures forall i :: 0 <= i < |r| - 1 ==> r[i].start + |WikiSpan(r[i].content)| <= r[i + 1].start
    decreases |s| - p
  {
    if p == |s| then []
    else
      match WikiAt(s, p)
      case Some(c) => [WikiMatch(p, c)] + WikiMatchesFrom(s, p + |c| + 4)
      case None => WikiMatchesFrom(s, p + 1)
  }

  function WikiMatches(s: string): seq<WikiMatch> {
    WikiMatchesFrom(s, 0)
  }

  /** Where the regex resumes after a match: `lastIndex` past the `]]`. */
  function MatchEnd(m: WikiMatch): nat {
    m.start + |WikiSpan(m.content)|
  }

  /** The pattern matches nowhere in `[a, b)`. */
  ghost predicate NoWikiIn(s: string, a: int, b: int) {
    forall q: nat :: a <= q < b && q <= |s| ==> WikiAt(s, q).None?
  }

  /** Gap `i` of a scan from `p`: from the end of match `i - 1` (or `p`) up to
      the start of match `i` (or past the end of the text). */
  function GapStart(r: seq<WikiMatch>, p: nat, i: nat): int
    requires i <= |r|
  {
    if i == 0 then p else MatchEnd(r[i - 1])
  }

  function GapEnd(s: string, r: seq<WikiMatch>, i: nat): int
    requires i <= |r|
  {
    if i == |r| then |s| + 1 else r[i].start
  }

  /** The scan is exactly the global regex: each match is the pattern's match
      at its start, and between consecutive matches (and before the first and
      after the last) the pattern matches nowhere. */
  lemma {:induction false} WikiMatchesExact(s: string, p: nat)
    requires p <= |s|
    ensures var r := WikiMatchesFrom(s, p);
      && (forall i :: 0 <= i < |r| ==> p <= r[i].start && WikiAt(s, r[i].start) == Some(r[i].content))
      && (forall i :: 0 <= i < |r| - 1 ==> MatchEnd(r[i]) <= r[i + 1].start)
      && (forall i :: 0 <= i <= |r| ==> NoWikiIn(s, GapStart(r, p, i), GapEnd(s, r, i)))
  {
    var r := WikiMatchesFrom(s, p);
    forall i | 0 <= i < |r| ensures p <= r[i].start && WikiAt(s, r[i].start) == Some(r[i].content) {
      WikiMatchAt(s, p, i);
    }
    forall i | 0 <= i <= |r| ensures NoWikiIn(s, GapStart(r, p, i), GapEnd(s, r, i)) {
      WikiGap(s, p, i);
    }
  }

  lemma {:induction false} WikiMatchAt(s: string, p: nat, i: nat)
    requires p <= |s| && i < |WikiMatchesFrom(s, p)|
    ensures var m := WikiMatchesFrom(s, p)[i]; WikiAt(s, m.start) == Some(m.content)
    decreases |s| - p
  {
    var r := WikiMatchesFrom(s, p);
    assert p < |s|;
    match WikiAt(s, p)
    case Some(c) =>
      var rest := WikiMatchesFrom(s, p + |c| + 4);
      assert r == [WikiMatch(p, c)] + rest;
      if i > 0 {
        assert r[i] == rest[i - 1];
        WikiMatchAt(s, p + |c| + 4, i - 1);
      }
    case None =>
      assert r == WikiMatchesFrom(s, p + 1);
      WikiMatchAt(s, p + 1, i);
  }

  lemma {:induction false} WikiGap(s: string, p: nat, i: nat)
    requires p <= |s| && i <= |WikiMatchesFrom(s, p)|
    ensures var r := WikiMatchesFrom(s, p); NoWikiIn(s, GapStart(r, p, i), GapEnd(s, r, i))
    decreases |s| - p, 1
  {
    var r := WikiMatchesFrom(s, p);
    if p == |s| {
      assert r == [] && GapStart(r, p, i) == |s| && GapEnd(s, r, i) == |s| + 1;
      assert WikiAt(s, |s|).None?;
    } else if WikiAt(s, p).Some? {
      if i > 0 {
        WikiGapAfterHit(s, p, i);
      } else {
        assert GapStart(r, p, i) == p && GapEnd(s, r, i) == p;
      }
    } else {
      WikiGap(s, p + 1, i);
      assert r == WikiMatchesFrom(s, p + 1);
      if i == 0 {
        NoWikiExtend(s, p, GapEnd(s, r, 0));
      } else {
        assert GapStart(r, p, i) == GapStart(r, p + 1, i);
      }
    }
  }

  /** After a match at `p`, gap `i` of the scan from `p` is gap `i - 1` of the
      scan that resumes past the match. */
  lemma {:induction false} WikiGapAfterHit(s: string, p: nat, i: nat)
    requires p < |s| && WikiAt(s, p).Some? && 0 < i <= |WikiMatchesFrom(s, p)|
    ensures var r := WikiMatchesFrom(s, p); NoWikiIn(s, GapStart(r, p, i), GapEnd(s, r, i))
    decreases |s| - p, 0
  {
    var c := WikiAt(s, p).value;
    var next := p + |c| + 4;
    var r := WikiMatchesFrom(s, p);
    var rest := WikiMatchesFrom(s, next);
    assert r == [WikiMatch(p, c)] + rest;
    assert GapStart(r, p, i) == GapStart(rest, next, i - 1);
    assert GapEnd(s, r, i) == GapEnd(s, rest, i - 1);
    WikiGap(s, next, i - 1);
  }

  lemma {:induction false} NoWikiExtend(s: string, p: nat, b: int)
    requires p <= |s| && WikiAt(s, p).None? && NoWikiIn(s, p + 1, b)
    ensures NoWikiIn(s, p, b)
  {
  }

  /** `content.split('|')[0]`: the text before the first `|`, all of it when
      there is none. */
  function LinkTarget(content: string): (r: string)
    ensures |r| <= |content| && r == content[..|r|]
    ensures forall i :: 0 <= i < |r| ==> r[i] != '|'
    ensures |r| < |content| ==> content[|r|] == '|'
  {
    content[..IndexOfChar(content, '|', 0)]
  }

  /** The replacement text: `content.split('|')[1]` (the text between the first
      and second `|`) when the content has a `|`, otherwise the target. */
  function DisplayText(content: string): string {
    var i := IndexOfChar(content, '|', 0);
    if i == |content| then content
    else content[i + 1..IndexOfChar(content, '|', i + 1)]
  }

  /** Without a pipe the display text is the whole content; otherwise the
      content is the target, a pipe, the display text, and then nothing or a
      further pipe with anything after it. */
  lemma {:induction false} DisplayTextParts(content: string)
    ensures var r := DisplayText(content);
      && (forall i :: 0 <= i < |r| ==> r[i] != '|')
      && (|LinkTarget(content)| == |content| ==> r == content)
      && (|LinkTarget(content)| < |content| ==> |LinkTarget(content)| + 1 + |r| <= |content|)
      && (|LinkTarget(content)| < |content| ==>
        var rest := content[|LinkTarget(content)| + 1 + |r|..];
        content == LinkTarget(content) + "|" + r + rest && (|rest| == 0 || rest[0] == '|'))
  {
    var i := IndexOfChar(content, '|', 0);
    if i < |content| {
      var j := IndexOfChar(content, '|', i + 1);
      assert content == content[..i] + "|" + content[i + 1..j] + content[j..];
    }
  }

  function Targets(ms: seq<WikiMatch>): (r: seq<string>)
    ensures |r| == |ms|
    ensures forall i :: 0 <= i < |ms| ==> r[i] == LinkTarget(ms[i].content)
  {
    if |ms| == 0 then [] else [LinkTarget(ms[0].content)] + Targets(ms[1..])
  }

  /** Replaces, for each match in order, the first remaining occurrence of its
      span in `text` with its display text. */
  function ReplaceLinks(text: string, ms: seq<WikiMatch>): string
    decreases |ms|
  {
    if |ms| == 0 then text
    else ReplaceLinks(ReplaceFirst(text, WikiSpan(ms[0].content), DisplayText(ms[0].content)), ms[1..])
  }

  /** Each match of the scan from `p`, in place, replaced by its display text;
      everything between the matches kept. */
  function ReplaceLinksScan(s: string, p: nat): (r: string)
    requires p <= |s|
    decreases |s| - p
  {
    if p == |s| then []
    else
      match WikiAt(s, p)
      case Some(c) => DisplayText(c) + ReplaceLinksScan(s, p + |c| + 4)
      case None => [s[p]] + ReplaceLinksScan(s, p + 1)
  }

  /** `ms` are matches in `s` from `p` on, in order and not overlapping. */
  ghost predicate InOrder(s: string, ms: seq<WikiMatch>, p: nat) {
    && (forall i :: 0 <= i < |ms| ==> ms[i].start <= MatchEnd(ms[i]) <= |s|)
    && (|ms| > 0 ==> p <= ms[0].start)
    && (forall i :: 0 <= i < |ms| - 1 ==> MatchEnd(ms[i]) <= ms[i + 1].start)
  }

  /** The text from `p` with the span of each of `ms` replaced by its display
      text and everything else kept. */
  function Splice(s: string, ms: seq<WikiMatch>, p: nat): string
    requires p <= |s| && InOrder(s, ms, p)
    decreases |ms|
  {
    if |ms| == 0 then s[p..]
    else s[p..ms[0].start] + DisplayText(ms[0].content) + Splice(s, ms[1..], MatchEnd(ms[0]))
  }

  lemma {:induction false} ScanInOrder(s: string, p: nat)
    requires p <= |s|
    ensures InOrder(s, WikiMatchesFrom(s, p), p)
  {
  }

  /** A character before the first match is kept. */
  lemma {:induction false} InOrderFrom(s: string, ms: seq<WikiMatch>, p: nat, q: nat)
    requires InOrder(s, ms, p) && p <= q
    requires |ms| == 0 || q <= ms[0].start
    ensures InOrder(s, ms, q)
  {
  }

  lemma {:induction false} SpliceCons(s: string, ms: seq<WikiMatch>, p: nat)
    requires p < |s| && InOrder(s, ms, p) && InOrder(s, ms, p + 1)
    requires |ms| == 0 || p < ms[0].start
    ensures Splice(s, ms, p) == [s[p]] + Splice(s, ms, p + 1)
  {
    if |ms| == 0 {
      assert s[p..] == [s[p]] + s[p + 1..];
    } else {
      var a := ms[0].start;
      var d := DisplayText(ms[0].content);
      var x := Splice(s, ms[1..], MatchEnd(ms[0]));
      var u := s[p + 1..a];
      assert s[p..a] == [s[p]] + u;
      Regroup([s[p]], u, d, x);
    }
  }

  lemma {:induction false} Regroup(a: string, b: string, c: string, d: string)
    ensures (a + b) + c + d == a + (b + c + d)
  {
  }

  /** The corrected replacement splices every match of the global regex in
      place: the text between the matches is kept and each link reads as its
      display text. */
  lemma {:induction false} ReplaceLinksSplices(s: string, p: nat)
    requires p <= |s|
    ensures InOrder(s, WikiMatchesFrom(s, p), p)
    ensures ReplaceLinksScan(s, p) == Splice(s, WikiMatchesFrom(s, p), p)
    decreases |s| - p, 1
  {
    if p < |s| {
      if WikiAt(s, p).Some? {
        SplicesAtLink(s, p);
      } else {
        SplicesAtChar(s, p);
      }
    }
  }

  lemma {:induction false} SplicesAtLink(s: string, p: nat)
    requires p < |s| && WikiAt(s, p).Some?
    ensures InOrder(s, WikiMatchesFrom(s, p), p)
    ensures ReplaceLinksScan(s, p) == Splice(s, WikiMatchesFrom(s, p), p)
    decreases |s| - p, 0
  {
    var c := WikiAt(s, p).value;
    var next := p + |c| + 4;
    var rest := WikiMatchesFrom(s, next);
    var r := WikiMatchesFrom(s, p);
    assert |WikiSpan(c)| == |c| + 4;
    assert r == [WikiMatch(p, c)] + rest;
    assert r[0] == WikiMatch(p, c) && r[1..] == rest;
    assert MatchEnd(r[0]) == next;
    ReplaceLinksSplices(s, next);
    assert Splice(s, r, p) == s[p..p] + DisplayText(c) + Splice(s, rest, next);
    assert s[p..p] + DisplayText(c) == DisplayText(c);
    assert ReplaceLinksScan(s, p) == DisplayText(c) + ReplaceLinksScan(s, next);
  }

  lemma {:induction false} SplicesAtChar(s: string, p: nat)
    requires p < |s| && WikiAt(s, p).None?
    ensures InOrder(s, WikiMatchesFrom(s, p), p)
    ensures ReplaceLinksScan(s, p) == Splice(s, WikiMatchesFrom(s, p), p)
    decreases |s| - p, 0
  {
    var r := WikiMatchesFrom(s, p);
    ReplaceLinksSplices(s, p + 1);
    assert r == WikiMatchesFrom(s, p + 1);
    InOrderFrom(s, r, p, p + 1);
    SpliceCons(s, r, p);
    assert ReplaceLinksScan(s, p) == [s[p]] + ReplaceLinksScan(s, p + 1);
  }

  /** The text `[[a|[[]]b]][[b]]` has two links: `a|[[` at 0, displayed as
      `[[`, and `b` at 11. Replacing the first occurrence of each span in the
      text rewritten so far turns the first link into `[[` and so forms a new
      `[[b]]` in front of the real one; the second replacement then rewrites the
      wrong occurrence. */
  lemma {:induction false} ReplaceLinksFirstOccurrence()
    ensures WikiMatches("[[a|[[]]b]][[b]]") == [WikiMatch(0, "a|[["), WikiMatch(11, "b")]
    ensures ReplaceLinks("[[a|[[]]b]][[b]]", WikiMatches("[[a|[[]]b]][[b]]")) == "b[[b]]"
    ensures ReplaceLinksScan("[[a|[[]]b]][[b]]", 0) == "[[b]]b"
  {
    ExampleMatches();
    ExampleAsWritten();
    ExampleScan();
  }

  lemma {:induction false} ExampleLinks()
    ensures WikiAt("[[a|[[]]b]][[b]]", 0) == Some("a|[[")
    ensures WikiAt("[[a|[[]]b]][[b]]", 11) == Some("b")
  {
    var s := "[[a|[[]]b]][[b]]";
    assert OccursAt(s, WikiSpan("a|[["), 0) by {
      assert s[0..8] == WikiSpan("a|[[");
    }
    WikiAtComplete(s, 0, "a|[[");
    assert OccursAt(s, WikiSpan("b"), 11) by {
      assert s[11..16] == WikiSpan("b");
    }
    WikiAtComplete(s, 11, "b");
  }

  lemma {:induction false} ExampleDisplay()
    ensures DisplayText("a|[[") == "[["
    ensures DisplayText("b") == "b"
  {
    AliasParts("a", "[[");
    IndexOfCharExact("b", '|', 0, 1);
  }

  lemma {:induction false} ExampleMatches()
    ensures WikiMatches("[[a|[[]]b]][[b]]") == [WikiMatch(0, "a|[["), WikiMatch(11, "b")]
  {
    var s := "[[a|[[]]b]][[b]]";
    ExampleLinks();
    assert WikiAt(s, 8).None? && WikiAt(s, 9).None? && WikiAt(s, 10).None?;
    assert WikiMatchesFrom(s, 16) == [];
    assert WikiMatchesFrom(s, 11) == [WikiMatch(11, "b")];
    assert WikiMatchesFrom(s, 10) == [WikiMatch(11, "b")];
    assert WikiMatchesFrom(s, 9) == [WikiMatch(11, "b")];
    assert WikiMatchesFrom(s, 8) == [WikiMatch(11, "b")];
  }

  /** When the span of the first match starts the text, `ReplaceLinks`
      replaces exactly that span. */
  lemma {:induction false} ReplaceLinksFront(text: string, m: WikiMatch, rest: seq<WikiMatch>, after: string)
    requires OccursAt(text, WikiSpan(m.content), 0)
    requires after == text[|m.content| + 4..]
    ensures ReplaceLinks(text, [m] + rest) == ReplaceLinks(DisplayText(m.content) + after, rest)
  {
    var ms := [m] + rest;
    var span := WikiSpan(m.content);
    assert |span| == |m.content| + 4;
    assert FindFrom(text, span, 0) == Some(0);
    assert text[..0] == [];
    assert ReplaceFirst(text, span, DisplayText(m.content)) == DisplayText(m.content) + after;
    assert ms[0] == m && ms[1..] == rest;
  }

  lemma {:induction false} ExampleAsWritten()
    ensures ReplaceLinks("[[a|[[]]b]][[b]]", [WikiMatch(0, "a|[["), WikiMatch(11, "b")]) == "b[[b]]"
  {
    var s := "[[a|[[]]b]][[b]]";
    var m1, m2 := WikiMatch(0, "a|[["), WikiMatch(11, "b");
    ExampleDisplay();
    ExampleFirstSpan();
    ReplaceLinksFront(s, m1, [m2], "b]][[b]]");
    ExampleSecondSpan();
    ReplaceLinksFront("[[b]][[b]]", m2, [], "[[b]]");
    assert [m1, m2] == [m1] + [m2];
    assert [m2] == [m2] + [];
  }

  lemma {:induction false} ExampleFirstSpan()
    ensures OccursAt("[[a|[[]]b]][[b]]", WikiSpan("a|[["), 0)
    ensures "[[a|[[]]b]][[b]]"[8..] == "b]][[b]]"
    ensures "[[" + "b]][[b]]" == "[[b]][[b]]"
  {
  }

  lemma {:induction false} ExampleSecondSpan()
    ensures OccursAt("[[b]][[b]]", WikiSpan("b"), 0)
    ensures "[[b]][[b]]"[5..] == "[[b]]"
    ensures "b" + "[[b]]" == "b[[b]]"
  {
  }

  lemma {:induction false} ExampleScan()
    ensures ReplaceLinksScan("[[a|[[]]b]][[b]]", 0) == "[[b]]b"
  {
    var s := "[[a|[[]]b]][[b]]";
    ExampleLinks();
    ExampleDisplay();
    assert WikiAt(s, 8).None? && WikiAt(s, 9).None? && WikiAt(s, 10).None?;
    assert ReplaceLinksScan(s, 16) == [];
    assert ReplaceLinksScan(s, 11) == "b";
    assert ReplaceLinksScan(s, 10) == "]b";
    assert ReplaceLinksScan(s, 9) == "]]b";
    assert ReplaceLinksScan(s, 8) == "b]]b";
  }

  // ---------------------------------------------------------------- code

  /** The fence at `p` closes at the first later "```" that starts at least three
      characters after it (the lazy `[\s\S]*?`). */
  function FenceEnd(s: string, p: nat): (r: Option<nat>)
    requires p <= |s|
    ensures r.Some? ==> OccursAt(s, "```", p) && OccursAt(s, "```", r.value - 3)
                        && r.value <= |s| && r.value >= p + 6
    ensures r.Some? ==> forall k :: p + 3 <= k < r.value - 3 ==> !OccursAt(s, "```", k)
    ensures r.None? ==> !OccursAt(s, "```", p) || forall k :: p + 3 <= k ==> !OccursAt(s, "```", k)
  {
    if OccursAt(s, "```", p) then
      match FindFrom(s, "```", p + 3)
      case Some(q) => Some(q + 3)
      case None => None
    else None
  }

  /** `replace(/```[\s\S]*?```/g, '')` from position `p`. */
  function StripFencesFrom(s: string, p: nat): (r: string)
    requires p <= |s|
    ensures |r| <= |s| - p
    decreases |s| - p
  {
    if p == |s| then []
    else
      match FenceEnd(s, p)
      case Some(e) => StripFencesFrom(s, e)
      case None => [s[p]] + StripFencesFrom(s, p + 1)
  }

  function StripFences(s: string): string {
    StripFencesFrom(s, 0)
  }

  /** No two non-overlapping "```" occur: then no fence can close. */
  ghost predicate NoClosableFence(s: string) {
    forall i, j :: OccursAt(s, "```", i) && OccursAt(s, "```", j) ==> j < i + 3
  }

  /** An unterminated fence (or none at all) is left as literal text. */
  lemma {:induction false} UnterminatedFenceKept(s: string, p: nat)
    requires p <= |s|
    requires NoClosableFence(s)
    ensures StripFencesFrom(s, p) == s[p..]
    decreases |s| - p
  {
    if p < |s| {
      if OccursAt(s, "```", p) {
        assert FindFrom(s, "```", p + 3).None?;
      }
      UnterminatedFenceKept(s, p + 1);
      assert s[p..] == [s[p]] + s[p + 1..];
    }
  }

  /** A closed fence whose body has no backtick is removed entirely. */
  lemma {:induction false} FencedBlockRemoved(body: string)
    requires forall i :: 0 <= i < |body| ==> body[i] != '`'
    ensures StripFences("```" + body + "```") == []
  {
    var s := "```" + body + "```";
    var e := 3 + |body|;
    assert s[e..e + 3] == "```";
    assert OccursAt(s, "```", e);
    assert s[0..3] == "```";
    var q := FindFrom(s, "```", 3);
    assert q.Some?;
    var v := q.value;
    assert s[v] == '`' by {
      assert s[v..v + 3] == "```";
      assert s[v..v + 3][0] == s[v];
    }
    assert forall k :: 3 <= k < e ==> s[k] == body[k - 3];
    assert v == e;
    assert StripFencesFrom(s, |s|) == [];
  }

  /** One copied character in front of a copied stretch. */
  lemma {:induction false} KeptStep(whole: string, x: char, mid: string, out: string, outNext: string, rest: string)
    requires whole == [x] + mid && out == [x] + outNext && outNext == mid + rest
    ensures out == whole + rest
  {
  }

  /** No fence opens at `k`: no "```" there, or none after it to close it. */
  ghost predicate NoFenceAt(s: string, k: nat) {
    !OccursAt(s, "```", k) || forall j :: k + 3 <= j ==> !OccursAt(s, "```", j)
  }

  /** Where no fence opens, the fence pass copies the text unchanged. */
  lemma {:induction false} FencesKeptBetween(s: string, p: nat, q: nat)
    requires p <= q <= |s|
    requires forall k: nat :: p <= k < q ==> NoFenceAt(s, k)
    ensures StripFencesFrom(s, p) == s[p..q] + StripFencesFrom(s, q)
    decreases q - p
  {
    if p < q {
      assert s[p..q] == [s[p]] + s[p + 1..q];
      assert StripFencesFrom(s, p) == [s[p]] + StripFencesFrom(s, p + 1) by {
        assert NoFenceAt(s, p);
        assert FenceEnd(s, p).None?;
      }
      FencesKeptBetween(s, p + 1, q);
      KeptStep(s[p..q], s[p], s[p + 1..q], StripFencesFrom(s, p), StripFencesFrom(s, p + 1), StripFencesFrom(s, q));
    }
  }

  /** A fence that opens at `p` and first closes with the "```" ending at `e`
      is removed with everything inside it. */
  lemma {:induction false} FenceRemoved(s: string, p: nat, e: nat)
    requires p + 6 <= e <= |s|
    requires OccursAt(s, "```", p) && OccursAt(s, "```", e - 3)
    requires forall k :: p + 3 <= k < e - 3 ==> !OccursAt(s, "```", k)
    ensures StripFencesFrom(s, p) == StripFencesFrom(s, e)
  {
    var f := FindFrom(s, "```", p + 3);
    assert f.Some? && f.value == e - 3;
    assert FenceEnd(s, p) == Some(e);
  }

  function CountChar(s: string, c: char): (n: nat)
    ensures n <= |s|
  {
    if |s| == 0 then 0 else (if s[0] == c then 1 else 0) + CountChar(s[1..], c)
  }

  /** `replace(/`[^`]*`/g, '')` from position `p`: a backtick with a later
      backtick starts a span that ends at that later one and is removed. */
  function StripInlineFrom(s: string, p: nat): (r: string)
    requires p <= |s|
    ensures |r| <= |s| - p
    decreases |s| - p
  {
    if p == |s| then []
    else if s[p] == '`' && IndexOfChar(s, '`', p + 1) < |s| then
      StripInlineFrom(s, IndexOfChar(s, '`', p + 1) + 1)
    else [s[p]] + StripInlineFrom(s, p + 1)
  }

  function StripInlineCode(s: string): string {
    StripInlineFrom(s, 0)
  }

  lemma {:induction false} CountCharZero(s: string, c: char)
    requires forall i :: 0 <= i < |s| ==> s[i] != c
    ensures CountChar(s, c) == 0
  {
    if |s| > 0 {
      CountCharZero(s[1..], c);
    }
  }

  /** After inline-code removal at most one backtick is left: the last one,
      when it has no partner. */
  lemma {:induction false} InlineCodeLeavesOneBacktick(s: string, p: nat)
    requires p <= |s|
    ensures CountChar(StripInlineFrom(s, p), '`') <= 1
    ensures CountChar(StripInlineFrom(s, p), '`') == 1 ==> IndexOfChar(s, '`', p) < |s|
    decreases |s| - p
  {
    if p < |s| {
      if s[p] == '`' && IndexOfChar(s, '`', p + 1) < |s| {
        InlineCodeLeavesOneBacktick(s, IndexOfChar(s, '`', p + 1) + 1);
      } else {
        InlineCodeLeavesOneBacktick(s, p + 1);
        var rest := StripInlineFrom(s, p + 1);
        assert ([s[p]] + rest)[1..] == rest;
        if s[p] == '`' {
          assert IndexOfChar(s, '`', p + 1) == |s|;
        }
      }
    }
  }

  /** A backtick at `k` opens no span when no backtick follows it. */
  predicate NoSpanAt(s: string, k: nat) {
    k < |s| && (s[k] != '`' || forall j :: k < j < |s| ==> s[j] != '`')
  }

  /** Where no span opens, the inline-code pass copies the text unchanged. */
  lemma {:induction false} InlineKeptBetween(s: string, p: nat, q: nat)
    requires p <= q <= |s|
    requires forall k: nat :: p <= k < q ==> NoSpanAt(s, k)
    ensures StripInlineFrom(s, p) == s[p..q] + StripInlineFrom(s, q)
    decreases q - p
  {
    if p < q {
      assert s[p..q] == [s[p]] + s[p + 1..q];
      assert StripInlineFrom(s, p) == [s[p]] + StripInlineFrom(s, p + 1) by {
        assert NoSpanAt(s, p);
        if s[p] == '`' {
          IndexOfCharExact(s, '`', p + 1, |s|);
        }
      }
      InlineKeptBetween(s, p + 1, q);
      KeptStep(s[p..q], s[p], s[p + 1..q], StripInlineFrom(s, p), StripInlineFrom(s, p + 1), StripInlineFrom(s, q));
    }
  }

  /** A backtick at `p` and the next backtick at `e` delimit a span that is
      removed with both backticks. */
  lemma {:induction false} InlineSpanSkipped(s: string, p: nat, e: nat)
    requires p < e < |s| && s[p] == '`' && s[e] == '`'
    requires forall k :: p < k < e ==> s[k] != '`'
    ensures StripInlineFrom(s, p) == StripInlineFrom(s, e + 1)
  {
    IndexOfCharExact(s, '`', p + 1, e);
  }

  /** Text without backticks passes the inline-code pass unchanged. */
  lemma {:induction false} NoBacktickKept(s: string, p: nat)
    requires p <= |s|
    requires forall i :: p <= i < |s| ==> s[i] != '`'
    ensures StripInlineFrom(s, p) == s[p..]
    decreases |s| - p
  {
    if p < |s| {
      NoBacktickKept(s, p + 1);
      assert s[p..] == [s[p]] + s[p + 1..];
    }
  }

  /** A closed span `` `code` `` with no backtick inside is removed entirely. */
  lemma {:induction false} InlineSpanRemoved(code: string)
    requires forall i :: 0 <= i < |code| ==> code[i] != '`'
    ensures StripInlineCode("`" + code + "`") == []
  {
    var s := "`" + code + "`";
    IndexOfCharExact(s, '`', 1, |s| - 1);
    assert StripInlineFrom(s, |s|) == [];
  }

  // ---------------------------------------------------------------- headings

  /** `^` of a multi-line regex holds at `p`. */
  predicate LineStart(s: string, p: nat) {
    p == 0 || (0 < p <= |s| && IsLineTerminator(s[p - 1]))
  }

  function HashRunEnd(s: string, from: nat): (e: nat)
    requires from <= |s|
    ensures from <= e <= |s|
    ensures forall k :: from <= k < e ==> s[k] == '#'
    ensures e < |s| ==> s[e] != '#'
    decreases |s| - from
  {
    if from == |s| || s[from] != '#' then from else HashRunEnd(s, from + 1)
  }

  /** The first line terminator at or after `from` (where `$` matches), or `|s|`. */
  function LineEnd(s: string, from: nat): (e: nat)
    requires from <= |s|
    ensures from <= e <= |s|
    ensures forall k :: from <= k < e ==> !IsLineTerminator(s[k])
    ensures e < |s| ==> IsLineTerminator(s[e])
    decreases |s| - from
  {
    if from == |s| || IsLineTerminator(s[from]) then from else LineEnd(s, from + 1)
  }

  datatype HeadingMatch = HeadingMatch(hashes: nat, titleStart: nat, titleEnd: nat)

  /** A heading line at `p`: `hashes` is the number of `#` there. */
  ghost predicate HeadingShape(s: string, p: nat, m: HeadingMatch) {
    && LineStart(s, p)
    && m.hashes >= 1 && p + m.hashes < m.titleStart <= m.titleEnd <= |s|
    && (forall k :: p <= k < p + m.hashes ==> s[k] == '#')
    && (forall k :: p + m.hashes <= k < m.titleStart ==> IsWhite(s[k]))
    && (m.titleStart == |s| || !IsWhite(s[m.titleStart]))
    && (forall k :: m.titleStart <= k < m.titleEnd ==> !IsLineTerminator(s[k]))
    && (m.titleEnd == |s| || IsLineTerminator(s[m.titleEnd]))
  }

  /** The match of `^#+\s+(.*?)$` at `p`: a line start, all the `#` there, the
      greedy whitespace run (which may cross line breaks) and the rest of that
      line as the title. */
  function HeadingAt(s: string, p: nat): (r: Option<HeadingMatch>)
    requires p < |s|
    ensures r.Some? ==> HeadingShape(s, p, r.value)
  {
    if !LineStart(s, p) then None
    else
      var h := HashRunEnd(s, p);
      if h == p then None
      else
        var w := WhiteRunEnd(s, h);
        if w == h then None
        else Some(HeadingMatch(h - p, w, LineEnd(s, w)))
  }

  /** `HeadingAt` finds the heading shape at `p` exactly when there is one:
      the shape fixes the match, so it is the one `HeadingAt` returns. */
  lemma {:induction false} HeadingAtExact(s: string, p: nat, m: HeadingMatch)
    requires p < |s|
    ensures HeadingShape(s, p, m) <==> HeadingAt(s, p) == Some(m)
  {
    if HeadingShape(s, p, m) {
      var h := p + m.hashes;
      assert s[h] != '#' by {
        assert IsWhite(s[h]);
      }
      HashRunEndExact(s, p, h);
      WhiteRunEndExact(s, h, m.titleStart);
      LineEndExact(s, m.titleStart, m.titleEnd);
    }
  }

  /** No heading shape at `p` exactly when `HeadingAt` finds nothing. */
  lemma {:induction false} HeadingAtNone(s: string, p: nat)
    requires p < |s|
    ensures HeadingAt(s, p).None? <==> forall m :: !HeadingShape(s, p, m)
  {
    if HeadingAt(s, p).Some? {
      HeadingAtExact(s, p, HeadingAt(s, p).value);
    } else {
      forall m ensures !HeadingShape(s, p, m) {
        HeadingAtExact(s, p, m);
      }
    }
  }

  datatype Heading = Heading(level: int, title: string, position: int)

  /** A well-formed outline entry for `s`. */
  ghost predicate ValidEntry(s: string, e: Heading) {
    && 0 <= e.position < |s|
    && 1 <= e.level <= 6
    && LineStart(s, e.position)
    && e.position + e.level < |s|
    && (forall k :: e.position <= k < e.position + e.level ==> s[k] == '#')
    && IsWhite(s[e.position + e.level])
    && (|e.title| == 0 || (!IsWhite(e.title[0]) && !IsWhite(e.title[|e.title| - 1])))
    && (forall k :: 0 <= k < |e.title| ==> !IsLineTerminator(e.title[k]))
  }

  /** Trimming a single line leaves a single line. */
  lemma {:induction false} TrimKeepsLine(s: string)
    requires forall k :: 0 <= k < |s| ==> !IsLineTerminator(s[k])
    ensures forall k :: 0 <= k < |Trim(s)| ==> !IsLineTerminator(Trim(s)[k])
  {
    var t := TrimStart(s);
    var r := TrimEnd(t);
    assert Trim(s) == r;
    forall k | 0 <= k < |r| ensures !IsLineTerminator(r[k]) {
      assert r[k] == t[k];
      assert t[k] == s[|s| - |t| + k];
    }
  }

  /** The outline entry a heading match with at most six `#` yields. */
  function EntryOf(s: string, p: nat, m: HeadingMatch): (e: Heading)
    requires HeadingShape(s, p, m) && m.hashes <= 6
    ensures ValidEntry(s, e) && e.position == p
  {
    EntryValid(s, p, m);
    Heading(m.hashes, Trim(s[m.titleStart..m.titleEnd]), p)
  }

  lemma {:induction false} EntryValid(s: string, p: nat, m: HeadingMatch)
    requires HeadingShape(s, p, m) && m.hashes <= 6
    ensures ValidEntry(s, Heading(m.hashes, Trim(s[m.titleStart..m.titleEnd]), p))
  {
    TitleLine(s, m.titleStart, m.titleEnd);
    EntryWithTitle(s, p, m, Trim(s[m.titleStart..m.titleEnd]));
  }

  lemma {:induction false} EntryWithTitle(s: string, p: nat, m: HeadingMatch, t: string)
    requires HeadingShape(s, p, m) && m.hashes <= 6
    requires |t| == 0 || (!IsWhite(t[0]) && !IsWhite(t[|t| - 1]))
    requires forall k :: 0 <= k < |t| ==> !IsLineTerminator(t[k])
    ensures ValidEntry(s, Heading(m.hashes, t, p))
  {
  }

  /** The trimmed rest of a line is a single line. */
  lemma {:induction false} TitleLine(s: string, a: nat, b: nat)
    requires a <= b <= |s|
    requires forall k :: a <= k < b ==> !IsLineTerminator(s[k])
    ensures forall k :: 0 <= k < |Trim(s[a..b])| ==> !IsLineTerminator(Trim(s[a..b])[k])
  {
    var line := s[a..b];
    forall k | 0 <= k < |line| ensures !IsLineTerminator(line[k]) {
      assert line[k] == s[a + k];
    }
    TrimKeepsLine(line);
  }

  /** The outline scan of `parseDocumentStructure` from `p` on. */
  function StructureFrom(s: string, p: nat): seq<Heading>
    requires p <= |s|
    decreases |s| - p
  {
    if p == |s| then []
    else
      match HeadingAt(s, p)
      case Some(m) =>
        if m.hashes <= 6 then [EntryOf(s, p, m)] + StructureFrom(s, m.titleEnd)
        else StructureFrom(s, p + 1)
      case None => StructureFrom(s, p + 1)
  }

  /** Every entry of `r` is valid for `s` and lies at or after `p`. */
  ghost predicate EntriesFrom(s: string, r: seq<Heading>, p: int) {
    forall i :: 0 <= i < |r| ==> ValidEntry(s, r[i]) && p <= r[i].position
  }

  ghost predicate Increasing(r: seq<Heading>) {
    forall i, j :: 0 <= i < j < |r| ==> r[i].position < r[j].position
  }

  lemma {:induction false} ConsEntry(s: string, e: Heading, rest: seq<Heading>, next: int)
    requires ValidEntry(s, e) && e.position < next
    requires EntriesFrom(s, rest, next) && Increasing(rest)
    ensures EntriesFrom(s, [e] + rest, e.position) && Increasing([e] + rest)
  {
    var r := [e] + rest;
    assert forall i :: 1 <= i < |r| ==> r[i] == rest[i - 1];
  }

  lemma {:induction false} StructureFromValid(s: string, p: nat)
    requires p <= |s|
    ensures EntriesFrom(s, StructureFrom(s, p), p) && Increasing(StructureFrom(s, p))
    decreases |s| - p, 1
  {
    if p < |s| {
      match HeadingAt(s, p)
      case Some(m) =>
        if m.hashes <= 6 {
          StructureFromValid(s, m.titleEnd);
          var e := EntryOf(s, p, m);
          ConsEntry(s, e, StructureFrom(s, m.titleEnd), m.titleEnd);
          StructureFromHit(s, p, m);
        } else {
          SkipPosition(s, p);
        }
      case None =>
        SkipPosition(s, p);
    }
  }

  lemma {:induction false} StructureFromHit(s: string, p: nat, m: HeadingMatch)
    requires p < |s| && HeadingAt(s, p) == Some(m) && m.hashes <= 6
    ensures StructureFrom(s, p) == [EntryOf(s, p, m)] + StructureFrom(s, m.titleEnd)
  {
  }

  lemma {:induction false} SkipPosition(s: string, p: nat)
    requires p < |s|
    requires HeadingAt(s, p).None? || HeadingAt(s, p).value.hashes > 6
    ensures EntriesFrom(s, StructureFrom(s, p), p) && Increasing(StructureFrom(s, p))
    decreases |s| - p, 0
  {
    StructureFromValid(s, p + 1);
    assert StructureFrom(s, p) == StructureFrom(s, p + 1);
  }

  /** Entry `e` is what a heading match at its position yields: the match's
      `#` count as level and its trimmed line as title. */
  ghost predicate EntryMatched(s: string, e: Heading) {
    && 0 <= e.position < |s|
    && exists m :: HeadingShape(s, e.position, m) && m.hashes == e.level && e.title == Trim(s[m.titleStart..m.titleEnd])
  }

  /** Where the scan resumes after entry `e`: the end of its match. */
  function EntryEnd(s: string, e: Heading): int {
    if 0 <= e.position < |s| then
      match HeadingAt(s, e.position)
      case Some(m) => m.titleEnd
      case None => e.position
    else e.position
  }

  /** No heading of one to six `#` starts in `[a, b)`. */
  ghost predicate NoHeadingIn(s: string, a: int, b: int) {
    forall q: nat, m :: a <= q < b && HeadingShape(s, q, m) ==> m.hashes > 6
  }

  /** Gap `i` of the outline scan from `p`: from the end of entry `i - 1` (or
      `p`) up to the position of entry `i` (or the end of the text). */
  function HeadingGapStart(s: string, r: seq<Heading>, p: nat, i: nat): int
    requires i <= |r|
  {
    if i == 0 then p else EntryEnd(s, r[i - 1])
  }

  function HeadingGapEnd(s: string, r: seq<Heading>, i: nat): int
    requires i <= |r|
  {
    if i == |r| then |s| else r[i].position
  }

  /** The scan is exactly the global regex `^(#{1,6})\s+(.*?)$`: every entry is
      the entry of a heading match at its position, and between consecutive
      entries (and before the first and after the last) no heading of one to
      six `#` starts. */
  lemma {:induction false} StructureExact(s: string, p: nat)
    requires p <= |s|
    ensures var r := StructureFrom(s, p);
      && EntriesFrom(s, r, p) && Increasing(r)
      && (forall i :: 0 <= i < |r| ==> EntryMatched(s, r[i]))
      && (forall i :: 0 <= i <= |r| ==> NoHeadingIn(s, HeadingGapStart(s, r, p, i), HeadingGapEnd(s, r, i)))
  {
    var r := StructureFrom(s, p);
    StructureFromValid(s, p);
    forall i | 0 <= i < |r| ensures EntryMatched(s, r[i]) {
      StructureEntryAt(s, p, i);
      HeadingEntryMatched(s, r[i]);
    }
    forall i | 0 <= i <= |r| ensures NoHeadingIn(s, HeadingGapStart(s, r, p, i), HeadingGapEnd(s, r, i)) {
      StructureGap(s, p, i);
    }
  }

  /** `e` is the entry of the heading `HeadingAt` finds at its position. */
  ghost predicate EntryFromHeading(s: string, e: Heading) {
    && 0 <= e.position < |s| && HeadingAt(s, e.position).Some?
    && var m := HeadingAt(s, e.position).value;
      m.hashes <= 6 && e == Heading(m.hashes, Trim(s[m.titleStart..m.titleEnd]), e.position)
  }

  /** A heading of one to six `#` starts at `p`. */
  predicate EntryHere(s: string, p: nat)
    requires p < |s|
  {
    HeadingAt(s, p).Some? && HeadingAt(s, p).value.hashes <= 6
  }

  lemma {:induction false} StructureFromSkip(s: string, p: nat)
    requires p < |s| && !EntryHere(s, p)
    ensures StructureFrom(s, p) == StructureFrom(s, p + 1)
  {
  }

  /** Entry `i` of the scan is `EntryOf` the heading `HeadingAt` finds at its
      position. */
  lemma {:induction false} StructureEntryAt(s: string, p: nat, i: nat)
    requires p <= |s| && i < |StructureFrom(s, p)|
    ensures EntryFromHeading(s, StructureFrom(s, p)[i])
    decreases |s| - p, 2
  {
    if !EntryHere(s, p) {
      StructureEntrySkip(s, p, i);
    } else if i == 0 {
      StructureEntryFirst(s, p);
    } else {
      StructureEntryLater(s, p, i);
    }
  }

  lemma {:induction false} StructureEntrySkip(s: string, p: nat, i: nat)
    requires p < |s| && !EntryHere(s, p) && i < |StructureFrom(s, p)|
    ensures EntryFromHeading(s, StructureFrom(s, p)[i])
    decreases |s| - p, 1
  {
    StructureFromSkip(s, p);
    StructureEntryAt(s, p + 1, i);
  }

  lemma {:induction false} StructureEntryFirst(s: string, p: nat)
    requires p < |s| && EntryHere(s, p)
    ensures |StructureFrom(s, p)| > 0 && EntryFromHeading(s, StructureFrom(s, p)[0])
  {
    var m := HeadingAt(s, p).value;
    StructureFromHit(s, p, m);
    var e := EntryOf(s, p, m);
    assert e == Heading(m.hashes, Trim(s[m.titleStart..m.titleEnd]), p);
    assert StructureFrom(s, p)[0] == e;
  }

  lemma {:induction false} StructureEntryLater(s: string, p: nat, i: nat)
    requires p < |s| && EntryHere(s, p) && 0 < i < |StructureFrom(s, p)|
    ensures EntryFromHeading(s, StructureFrom(s, p)[i])
    decreases |s| - p, 1
  {
    var next := HeadingAt(s, p).value.titleEnd;
    var r := StructureFrom(s, p);
    StructureHitTail(s, p);
    var rest := r[1..];
    assert rest == StructureFrom(s, next);
    StructureEntryAt(s, next, i - 1);
    assert r[i] == rest[i - 1];
  }

  /** After an entry at `p` the scan resumes at the end of its match. */
  lemma {:induction false} StructureHitTail(s: string, p: nat)
    requires p < |s| && EntryHere(s, p)
    ensures var r := StructureFrom(s, p);
      && |r| > 0 && r[0].position == p
      && EntryEnd(s, r[0]) == HeadingAt(s, p).value.titleEnd
      && r[1..] == StructureFrom(s, HeadingAt(s, p).value.titleEnd)
  {
    var m := HeadingAt(s, p).value;
    StructureFromHit(s, p, m);
    var r := StructureFrom(s, p);
    assert r[0] == EntryOf(s, p, m);
  }

  lemma {:induction false} StructureGap(s: string, p: nat, i: nat)
    requires p <= |s| && i <= |StructureFrom(s, p)|
    ensures var r := StructureFrom(s, p); NoHeadingIn(s, HeadingGapStart(s, r, p, i), HeadingGapEnd(s, r, i))
    decreases |s| - p, 2
  {
    if p == |s| {
      var r := StructureFrom(s, p);
      assert r == [] && HeadingGapStart(s, r, p, i) == |s| && HeadingGapEnd(s, r, i) == |s|;
    } else if !EntryHere(s, p) {
      StructureGapSkip(s, p, i);
    } else if i == 0 {
      StructureGapFirst(s, p);
    } else {
      StructureGapAfterHit(s, p, i);
    }
  }

  lemma {:induction false} StructureGapFirst(s: string, p: nat)
    requires p < |s| && EntryHere(s, p)
    ensures var r := StructureFrom(s, p); NoHeadingIn(s, HeadingGapStart(s, r, p, 0), HeadingGapEnd(s, r, 0))
  {
    var r := StructureFrom(s, p);
    StructureFromHit(s, p, HeadingAt(s, p).value);
    assert r[0].position == p;
    assert HeadingGapStart(s, r, p, 0) == p && HeadingGapEnd(s, r, 0) == p;
  }

  lemma {:induction false} StructureGapSkip(s: string, p: nat, i: nat)
    requires p < |s| && !EntryHere(s, p) && i <= |StructureFrom(s, p)|
    ensures var r := StructureFrom(s, p); NoHeadingIn(s, HeadingGapStart(s, r, p, i), HeadingGapEnd(s, r, i))
    decreases |s| - p, 1
  {
    var r := StructureFrom(s, p);
    StructureFromSkip(s, p);
    StructureGap(s, p + 1, i);
    if i == 0 {
      NoHeadingExtend(s, p, HeadingGapEnd(s, r, 0));
    } else {
      assert HeadingGapStart(s, r, p, i) == HeadingGapStart(s, r, p + 1, i);
    }
  }

  /** After an entry at `p`, gap `i` of the scan from `p` is gap `i - 1` of the
      scan that resumes at the end of the match. */
  lemma {:induction false} StructureGapAfterHit(s: string, p: nat, i: nat)
    requires p < |s| && EntryHere(s, p) && 0 < i <= |StructureFrom(s, p)|
    ensures var r := StructureFrom(s, p); NoHeadingIn(s, HeadingGapStart(s, r, p, i), HeadingGapEnd(s, r, i))
    decreases |s| - p, 0
  {
    var next := HeadingAt(s, p).value.titleEnd;
    var r := StructureFrom(s, p);
    StructureHitTail(s, p);
    var rest := r[1..];
    assert rest == StructureFrom(s, next);
    assert |r| == |rest| + 1;
    if i > 1 {
      assert r[i - 1] == rest[i - 2];
    }
    if i < |r| {
      assert r[i] == rest[i - 1];
    }
    assert HeadingGapStart(s, r, p, i) == HeadingGapStart(s, rest, next, i - 1);
    assert HeadingGapEnd(s, r, i) == HeadingGapEnd(s, rest, i - 1);
    StructureGap(s, next, i - 1);
  }

  lemma {:induction false} HeadingEntryMatched(s: string, e: Heading)
    requires EntryFromHeading(s, e)
    ensures EntryMatched(s, e)
  {
    var m := HeadingAt(s, e.position).value;
    assert HeadingShape(s, e.position, m) && m.hashes == e.level && e.title == Trim(s[m.titleStart..m.titleEnd]);
  }

  /** The entry built from a heading match carries that match's level and
      trimmed title. */
  lemma {:induction false} EntryOfMatched(s: string, p: nat, m: HeadingMatch)
    requires HeadingShape(s, p, m) && m.hashes <= 6
    ensures EntryMatched(s, EntryOf(s, p, m)) && EntryOf(s, p, m).level == m.hashes
  {
    var e := EntryOf(s, p, m);
    assert HeadingShape(s, e.position, m) && m.hashes == e.level && e.title == Trim(s[m.titleStart..m.titleEnd]);
  }

  lemma {:induction false} NoHeadingExtend(s: string, p: nat, b: int)
    requires p < |s| && !EntryHere(s, p) && NoHeadingIn(s, p + 1, b)
    ensures NoHeadingIn(s, p, b)
  {
    forall q: nat, m | p <= q < b && HeadingShape(s, q, m) ensures m.hashes > 6 {
      if q == p {
        HeadingAtExact(s, p, m);
      }
    }
  }

  /** `parseDocumentStructure`: the headings of the original markdown, in
      increasing source position, each at a line start with its `#` count
      (1 to 6) as level and a trimmed single-line title. */
  function ParseDocumentStructure(markdown: string): (r: seq<Heading>)
    ensures forall i :: 0 <= i < |r| ==> ValidEntry(markdown, r[i])
    ensures forall i, j :: 0 <= i < j < |r| ==> r[i].position < r[j].position
  {
    StructureFromValid(markdown, 0);
    StructureFrom(markdown, 0)
  }

  /** A line starting with seven or more `#` is never an outline entry. */
  lemma {:induction false} SevenHashesNoEntry(s: string, p: nat)
    requires p + 7 <= |s|
    requires forall k :: p <= k < p + 7 ==> s[k] == '#'
    ensures forall e :: e in ParseDocumentStructure(s) ==> e.position != p
  {
  }

  /** The heading pass `replace(/^#+\s+(.*?)$/gm, '$1\n')` from `p` on: any
      number of `#` is stripped and the title is followed by a line break. */
  function StripHeadingsFrom(s: string, p: nat): string
    requires p <= |s|
    decreases |s| - p
  {
    if p == |s| then []
    else
      match HeadingAt(s, p)
      case Some(m) => s[m.titleStart..m.titleEnd] + "\n" + StripHeadingsFrom(s, m.titleEnd)
      case None => [s[p]] + StripHeadingsFrom(s, p + 1)
  }

  function StripHeadings(s: string): string {
    StripHeadingsFrom(s, 0)
  }

  /** Where no heading line starts, the heading pass copies the text
      unchanged. */
  lemma {:induction false} HeadingsKeptBetween(s: string, p: nat, q: nat)
    requires p <= q <= |s|
    requires forall k: nat, m :: p <= k < q ==> !HeadingShape(s, k, m)
    ensures StripHeadingsFrom(s, p) == s[p..q] + StripHeadingsFrom(s, q)
    decreases q - p
  {
    if p < q {
      assert s[p..q] == [s[p]] + s[p + 1..q];
      assert StripHeadingsFrom(s, p) == [s[p]] + StripHeadingsFrom(s, p + 1) by {
        HeadingAtNone(s, p);
      }
      HeadingsKeptBetween(s, p + 1, q);
      KeptStep(s[p..q], s[p], s[p + 1..q], StripHeadingsFrom(s, p), StripHeadingsFrom(s, p + 1), StripHeadingsFrom(s, q));
    }
  }

  /** A heading line, whatever its number of `#`, becomes its title and a line
      feed; the pass resumes at the end of the title's line. */
  lemma {:induction false} HeadingReplaced(s: string, p: nat, m: HeadingMatch)
    requires p < |s| && HeadingShape(s, p, m)
    ensures StripHeadingsFrom(s, p) == s[m.titleStart..m.titleEnd] + "\n" + StripHeadingsFrom(s, m.titleEnd)
  {
    HeadingAtExact(s, p, m);
  }

  /** Text without `#` passes the heading pass unchanged. */
  lemma {:induction false} NoHashKept(s: string, p: nat)
    requires p <= |s|
    requires forall i :: p <= i < |s| ==> s[i] != '#'
    ensures StripHeadingsFrom(s, p) == s[p..]
    decreases |s| - p
  {
    if p < |s| {
      NoHashKept(s, p + 1);
      assert s[p..] == [s[p]] + s[p + 1..];
    }
  }

  /** A single heading line: `h` `#`, whitespace, and a title on the same line. */
  predicate IsHeadingLine(s: string, h: nat, gap: nat) {
    && 1 <= h && h + gap <= |s| && gap >= 1
    && (forall k :: 0 <= k < h ==> s[k] == '#')
    && (forall k :: h <= k < h + gap ==> s[k] == ' ')
    && (h + gap == |s| || !IsWhite(s[h + gap]))
    && (forall k :: h + gap <= k < |s| ==> !IsLineTerminator(s[k]))
  }

  lemma {:induction false} HeadingLineMatch(s: string, h: nat, gap: nat)
    requires IsHeadingLine(s, h, gap)
    ensures HeadingAt(s, 0) == Some(HeadingMatch(h, h + gap, |s|))
  {
    assert HashRunEnd(s, 0) == h by {
      assert forall k :: 0 <= k < h ==> s[k] == '#';
      if h < |s| { assert s[h] == ' '; }
      HashRunEndExact(s, 0, h);
    }
    WhiteRunEndExact(s, h, h + gap);
    LineEndExact(s, h + gap, |s|);
  }

  lemma {:induction false} HashRunEndExact(s: string, from: nat, e: nat)
    requires from <= e <= |s|
    requires forall k :: from <= k < e ==> s[k] == '#'
    requires e == |s| || s[e] != '#'
    ensures HashRunEnd(s, from) == e
    decreases e - from
  {
    if from < e {
      HashRunEndExact(s, from + 1, e);
    }
  }

  lemma {:induction false} LineEndExact(s: string, from: nat, e: nat)
    requires from <= e <= |s|
    requires forall k :: from <= k < e ==> !IsLineTerminator(s[k])
    requires e == |s| || IsLineTerminator(s[e])
    ensures LineEnd(s, from) == e
    decreases e - from
  {
    if from < e {
      LineEndExact(s, from + 1, e);
    }
  }

  /** A heading line is reduced to its title and a line break, whatever its
      number of `#`. */
  lemma {:induction false} HeadingLineStripped(s: string, h: nat, gap: nat)
    requires IsHeadingLine(s, h, gap)
    ensures StripHeadings(s) == s[h + gap..] + "\n"
  {
    HeadingLineMatch(s, h, gap);
    assert StripHeadingsFrom(s, |s|) == [];
    assert s[h + gap..|s|] == s[h + gap..];
  }

  /** A heading line with one to six `#` is the single outline entry, at
      position 0 with the trimmed title. */
  lemma {:induction false} HeadingLineEntry(s: string, h: nat, gap: nat)
    requires IsHeadingLine(s, h, gap) && h <= 6
    ensures ParseDocumentStructure(s) == [Heading(h, Trim(s[h + gap..|s|]), 0)]
  {
    var m := HeadingMatch(h, h + gap, |s|);
    HeadingLineMatch(s, h, gap);
    OnlyEntry(s, m, h, h + gap, |s|);
  }

  /** A heading match at position 0 that runs to the end of the text is the
      whole outline. */
  lemma {:induction false} OnlyEntry(s: string, m: HeadingMatch, hashes: nat, a: nat, b: nat)
    requires 0 < |s| && HeadingAt(s, 0) == Some(m) && m.hashes <= 6 && m.titleEnd == |s|
    requires m == HeadingMatch(hashes, a, b)
    ensures ParseDocumentStructure(s) == [Heading(hashes, Trim(s[a..b]), 0)]
  {
    assert StructureFrom(s, 0) == [EntryOf(s, 0, m)] by {
      StructureFromHit(s, 0, m);
      assert StructureFrom(s, |s|) == [];
    }
    EntryOfFields(s, 0, m, hashes, a, b);
    ParseIsScan(s);
  }

  lemma {:induction false} EntryOfFields(s: string, p: nat, m: HeadingMatch, hashes: nat, a: nat, b: nat)
    requires HeadingShape(s, p, m) && m.hashes <= 6 && m == HeadingMatch(hashes, a, b)
    ensures EntryOf(s, p, m) == Heading(hashes, Trim(s[a..b]), p)
  {
  }

  lemma {:induction false} ParseIsScan(s: string)
    ensures ParseDocumentStructure(s) == StructureFrom(s, 0)
  {
  }

  /** The outline holds exactly the headings of one to six `#` that the global
      regex finds: each entry carries its match's level and trimmed title, and
      no such heading starts before the first entry, between the end of one
      entry's match and the next entry, or after the last. */
  lemma {:induction false} ParseStructureExact(s: string)
    ensures var r := ParseDocumentStructure(s);
      && (forall i :: 0 <= i < |r| ==> ValidEntry(s, r[i]))
      && (forall i, j :: 0 <= i < j < |r| ==> r[i].position < r[j].position)
      && (forall i :: 0 <= i < |r| ==> EntryMatched(s, r[i]))
      && (forall i :: 0 <= i <= |r| ==> NoHeadingIn(s, HeadingGapStart(s, r, 0, i), HeadingGapEnd(s, r, i)))
  {
    ParseIsScan(s);
    StructureExact(s, 0);
  }

  /** With seven or more `#` the line is not an outline entry at all. */
  lemma {:induction false} HeadingLineTooDeep(s: string, h: nat, gap: nat)
    requires IsHeadingLine(s, h, gap) && h > 6
    ensures ParseDocumentStructure(s) == []
  {
    HeadingLineMatch(s, h, gap);
    NoEntryAfterHashes(s, 1);
  }

  /** Inside the `#` run of a line start no other line starts, so the scan finds
      nothing before the end. */
  lemma {:induction false} NoEntryAfterHashes(s: string, p: nat)
    requires 1 <= p <= |s|
    requires forall k :: 0 <= k < |s| ==> !IsLineTerminator(s[k])
    ensures StructureFrom(s, p) == []
    decreases |s| - p
  {
    if p < |s| {
      NoEntryAfterHashes(s, p + 1);
    }
  }

  // ---------------------------------------------------------------- clean

  datatype Cleaned = Cleaned(cleanText: string, wikiLinks: seq<string>)

  /** `cleanMarkdown`: the wiki-link targets are collected from the original
      markdown, in source order with duplicates; the text has each link replaced
      by its display text, then code removed, then the other passes, then the
      heading markers stripped. Links are replaced in place (`ReplaceLinksScan`),
      the corrected form of the first-occurrence loop `ReplaceLinks`. The links
      never depend on `passes` (`LinksIndependentOfPasses`). */
  function CleanMarkdown(markdown: string, passes: string -> string): (r: Cleaned)
    ensures |r.wikiLinks| == |WikiMatches(markdown)|
    ensures forall i :: 0 <= i < |r.wikiLinks| ==>
      var m := WikiMatches(markdown)[i];
      OccursAt(markdown, WikiSpan(m.content), m.start) && r.wikiLinks[i] == LinkTarget(m.content)
  {
    var ms := WikiMatches(markdown);
    var linked := ReplaceLinksScan(markdown, 0);
    var noCode := StripInlineCode(StripFences(linked));
    Cleaned(StripHeadings(passes(noCode)), Targets(ms))
  }

  /** The links are read from the original markdown, so links inside code blocks
      are recorded, and the other passes cannot change them. */
  lemma {:induction false} LinksIndependentOfPasses(markdown: string, p1: string -> string, p2: string -> string)
    ensures CleanMarkdown(markdown, p1).wikiLinks == CleanMarkdown(markdown, p2).wikiLinks
  {
  }

  lemma {:induction false} IndexOfCharExact(s: string, c: char, from: nat, i: nat)
    requires from <= i <= |s|
    requires i < |s| ==> s[i] == c
    requires forall k :: from <= k < i ==> s[k] != c
    ensures IndexOfChar(s, c, from) == i
    decreases i - from
  {
    if from < i {
      IndexOfCharExact(s, c, from + 1, i);
    }
  }

  /** A text that is exactly one link is matched once, at 0, and is replaced
      as a whole by the display text. */
  lemma {:induction false} SingleLink(content: string)
    requires |content| > 0 && NoClose(content)
    ensures WikiMatches(WikiSpan(content)) == [WikiMatch(0, content)]
    ensures ReplaceLinks(WikiSpan(content), [WikiMatch(0, content)]) == DisplayText(content)
    ensures ReplaceLinksScan(WikiSpan(content), 0) == DisplayText(content)
  {
    var s := WikiSpan(content);
    assert s[0..|s|] == s;
    WikiAtComplete(s, 0, content);
    assert WikiMatchesFrom(s, |s|) == [];
    assert FindFrom(s, s, 0) == Some(0);
    assert ReplaceLinksScan(s, |s|) == [];
  }

  /** `target|display` splits into its two pieces. */
  lemma {:induction false} AliasParts(target: string, display: string)
    requires forall i :: 0 <= i < |target| ==> target[i] != '|'
    requires forall i :: 0 <= i < |display| ==> display[i] != '|'
    ensures LinkTarget(target + "|" + display) == target
    ensures DisplayText(target + "|" + display) == display
  {
    var c := target + "|" + display;
    IndexOfCharExact(c, '|', 0, |target|);
    assert c[..|target|] == target;
    IndexOfCharExact(c, '|', |target| + 1, |c|);
    assert c[|target| + 1..|c|] == display;
  }

  /** For `[[target|display]]` the recorded link is `target` and the text
      reads `display`. */
  lemma {:induction false} SingleAliasedLink(target: string, display: string, passes: string -> string)
    requires |target| > 0 && NoClose(target) && NoClose(display)
    requires forall i :: 0 <= i < |target| ==> target[i] != '|'
    requires forall i :: 0 <= i < |display| ==> display[i] != '|'
    ensures CleanMarkdown(WikiSpan(target + "|" + display), passes).wikiLinks == [target]
    ensures ReplaceLinks(WikiSpan(target + "|" + display), WikiMatches(WikiSpan(target + "|" + display))) == display
    ensures ReplaceLinksScan(WikiSpan(target + "|" + display), 0) == display
  {
    var c := target + "|" + display;
    assert NoClose(c) by {
      assert forall i :: 0 <= i < |c| ==> c[i] == (if i < |target| then target[i] else if i == |target| then '|' else display[i - |target| - 1]);
    }
    SingleLink(c);
    AliasParts(target, display);
  }

  /** `a|b|c` displays as `b`: only the piece after the first `|` is shown. */
  lemma {:induction false} DisplayTakesSecondPiece(a: string, b: string, c: string)
    requires forall i :: 0 <= i < |a| ==> a[i] != '|'
    requires forall i :: 0 <= i < |b| ==> b[i] != '|'
    ensures LinkTarget(a + "|" + b + "|" + c) == a
    ensures DisplayText(a + "|" + b + "|" + c) == b
  {
    var s := a + "|" + b + "|" + c;
    assert s[|a|] == '|';
    assert s[..|a|] == a;
    assert LinkTarget(s) == a;
    assert s[|a| + 1 + |b|] == '|';
    assert s[|a| + 1..|a| + 1 + |b|] == b;
  }
}
