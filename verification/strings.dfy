/** Optional values, standing in for the source's `null` / `undefined` results. */
module Wrappers {
  datatype Option<+T> = None | Some(value: T)
}

/**
 * String helpers shared by the text pipeline: the JavaScript whitespace class,
 * `trim`, `includes`, first-occurrence `replace`, splitting on newlines and on
 * whitespace runs, and ASCII lower-casing.
 */
module Strings {
  import opened Wrappers

  /** The characters matched by the `\s` class of JavaScript regular expressions
      (also the set `String.prototype.trim` removes). */
  predicate IsWhite(c: char) {
    || c == '\t' || c == '\n' || c == '\U{000B}' || c == '\U{000C}' || c == '\r'
    || c == ' ' || c == '\U{00A0}' || c == '\U{1680}'
    || ('\U{2000}' <= c <= '\U{200A}')
    || c == '\U{2028}' || c == '\U{2029}' || c == '\U{202F}' || c == '\U{205F}'
    || c == '\U{3000}' || c == '\U{FEFF}'
  }

  /** The characters at which `^` and `$` match in a multi-line JavaScript regex,
      and which `.` does not match. */
  predicate IsLineTerminator(c: char) {
    c == '\n' || c == '\r' || c == '\U{2028}' || c == '\U{2029}'
  }

  lemma {:induction false} LineTerminatorIsWhite(c: char)
    requires IsLineTerminator(c)
    ensures IsWhite(c)
  {
  }

  predicate AllWhite(s: string) {
    forall i :: 0 <= i < |s| ==> IsWhite(s[i])
  }

  predicate NoWhite(s: string) {
    forall i :: 0 <= i < |s| ==> !IsWhite(s[i])
  }

  /** Concatenation of a sequence of strings. */
  function Concat(ss: seq<string>): (r: string)
    ensures |ss| == 0 ==> r == []
  {
    if |ss| == 0 then [] else ss[0] + Concat(ss[1..])
  }

  lemma {:induction false} ConcatAppend(a: seq<string>, b: seq<string>)
    ensures Concat(a + b) == Concat(a) + Concat(b)
  {
    if |a| == 0 {
      assert a + b == b;
    } else {
      assert (a + b)[1..] == a[1..] + b;
      ConcatAppend(a[1..], b);
    }
  }

  /** Sum of the lengths of a sequence of strings equals the length of their concatenation. */
  lemma {:induction false} ConcatLength(ss: seq<string>, k: nat)
    requires forall i :: 0 <= i < |ss| ==> |ss[i]| >= k
    ensures |Concat(ss)| >= k * |ss|
  {
    if |ss| > 0 {
      ConcatLength(ss[1..], k);
    }
  }

  // ---------------------------------------------------------------- trim

  function TrimStart(s: string): (r: string)
    ensures |r| <= |s| && r == s[|s| - |r|..]
    ensures AllWhite(s[..|s| - |r|])
    ensures |r| == 0 || !IsWhite(r[0])
  {
    if |s| > 0 && IsWhite(s[0]) then TrimStart(s[1..]) else s
  }

  function TrimEnd(s: string): (r: string)
    ensures |r| <= |s| && r == s[..|r|]
    ensures AllWhite(s[|r|..])
    ensures |r| == 0 || !IsWhite(r[|r| - 1])
  {
    if |s| > 0 && IsWhite(s[|s| - 1]) then TrimEnd(s[..|s| - 1]) else s
  }

  /** `String.prototype.trim`: whitespace removed from both ends. */
  function Trim(s: string): (r: string)
    ensures |r| == 0 || (!IsWhite(r[0]) && !IsWhite(r[|r| - 1]))
  {
    TrimEnd(TrimStart(s))
  }

  /** Trimming keeps every non-whitespace character, and leaves nothing
      exactly when the text is all whitespace. */
  lemma {:induction false} TrimKeepsText(s: string)
    ensures RemoveWhite(Trim(s)) == RemoveWhite(s)
    ensures |Trim(s)| == 0 <==> AllWhite(s)
  {
    var r := Trim(s);
    RemoveWhiteTrimStart(s);
    RemoveWhiteTrimEnd(TrimStart(s));
    RemoveWhiteEmptyIff(s);
    assert |r| > 0 ==> RemoveWhite(r)[0] == r[0];
  }

  // ---------------------------------------------------------------- substring search

  /** `pat` occurs in `s` starting at index `i`. */
  predicate OccursAt(s: string, pat: string, i: int) {
    0 <= i && i + |pat| <= |s| && s[i..i + |pat|] == pat
  }

  /** The least index at or after `from` where `pat` occurs, if any. */
  function FindFrom(s: string, pat: string, from: nat): (r: Option<nat>)
    requires from <= |s|
    ensures r.Some? ==> from <= r.value && OccursAt(s, pat, r.value)
    ensures r.Some? ==> forall k :: from <= k < r.value ==> !OccursAt(s, pat, k)
    ensures r.None? ==> forall k :: from <= k ==> !OccursAt(s, pat, k)
    decreases |s| - from
  {
    if OccursAt(s, pat, from) then Some(from)
    else if from == |s| then None
    else FindFrom(s, pat, from + 1)
  }

  /** `String.prototype.includes`. */
  predicate Contains(s: string, pat: string) {
    FindFrom(s, pat, 0).Some?
  }

  lemma {:induction false} ContainsIff(s: string, pat: string)
    ensures Contains(s, pat) <==> exists i :: OccursAt(s, pat, i)
  {
  }

  /** `String.prototype.replace` with a string pattern: only the first
      occurrence is replaced; the string is unchanged if there is none. */
  function ReplaceFirst(s: string, pat: string, repl: string): (r: string)
    ensures FindFrom(s, pat, 0).None? ==> r == s
    ensures FindFrom(s, pat, 0).Some? ==>
      var i := FindFrom(s, pat, 0).value;
      r == s[..i] + repl + s[i + |pat|..] && forall k :: 0 <= k < i ==> !OccursAt(s, pat, k)
  {
    match FindFrom(s, pat, 0)
    case None => s
    case Some(i) => s[..i] + repl + s[i + |pat|..]
  }

  // ---------------------------------------------------------------- lines

  /** The index of the first `c` at or after `from`, or `|s|`. */
  function IndexOfChar(s: string, c: char, from: nat): (r: nat)
    requires from <= |s|
    ensures from <= r <= |s|
    ensures r < |s| ==> s[r] == c
    ensures forall k :: from <= k < r ==> s[k] != c
    decreases |s| - from
  {
    if from == |s| || s[from] == c then from else IndexOfChar(s, c, from + 1)
  }

  /** `s.split('\n')`. */
  function SplitLines(s: string): (r: seq<string>)
    ensures |r| >= 1
    ensures forall i, k :: 0 <= i < |r| && 0 <= k < |r[i]| ==> r[i][k] != '\n'
    decreases |s|
  {
    var i := IndexOfChar(s, '\n', 0);
    if i == |s| then [s] else [s[..i]] + SplitLines(s[i + 1..])
  }

  /** `lines.join('\n')`. */
  function JoinLines(lines: seq<string>): string {
    if |lines| == 0 then []
    else if |lines| == 1 then lines[0]
    else lines[0] + "\n" + JoinLines(lines[1..])
  }

  /** Joining the pieces of a split restores the string. */
  lemma {:induction false} JoinSplitLines(s: string)
    ensures JoinLines(SplitLines(s)) == s
    decreases |s|
  {
    var i := IndexOfChar(s, '\n', 0);
    if i < |s| {
      JoinSplitLines(s[i + 1..]);
      assert s == s[..i] + "\n" + s[i + 1..];
    }
  }

  lemma {:induction false} JoinLinesAppend(a: seq<string>, b: seq<string>)
    requires |a| > 0 && |b| > 0
    ensures JoinLines(a + b) == JoinLines(a) + "\n" + JoinLines(b)
  {
    if |a| == 1 {
      assert (a + b)[1..] == b;
    } else {
      assert (a + b)[1..] == a[1..] + b;
      JoinLinesAppend(a[1..], b);
    }
  }

  // ---------------------------------------------------------------- whitespace split

  /** The characters of `s` that are not whitespace, in order. */
  function RemoveWhite(s: string): (r: string)
    ensures NoWhite(r) && |r| <= |s|
  {
    if |s| == 0 then []
    else if IsWhite(s[0]) then RemoveWhite(s[1..])
    else [s[0]] + RemoveWhite(s[1..])
  }

  lemma {:induction false} RemoveWhiteAppend(a: string, b: string)
    ensures RemoveWhite(a + b) == RemoveWhite(a) + RemoveWhite(b)
  {
    if |a| > 0 {
      assert (a + b)[0] == a[0] && (a + b)[1..] == a[1..] + b;
      RemoveWhiteAppend(a[1..], b);
      if !IsWhite(a[0]) {
        assert [a[0]] + (RemoveWhite(a[1..]) + RemoveWhite(b)) == ([a[0]] + RemoveWhite(a[1..])) + RemoveWhite(b);
      }
    } else {
      assert a + b == b;
    }
  }

  lemma {:induction false} RemoveWhiteOfAllWhite(s: string)
    requires AllWhite(s)
    ensures RemoveWhite(s) == []
  {
    if |s| > 0 {
      RemoveWhiteOfAllWhite(s[1..]);
    }
  }

  lemma {:induction false} RemoveWhiteOfNoWhite(s: string)
    requires NoWhite(s)
    ensures RemoveWhite(s) == s
  {
    if |s| > 0 {
      RemoveWhiteOfNoWhite(s[1..]);
    }
  }

  /** The index of the first whitespace character at or after `from`, or `|s|`. */
  function FirstWhite(s: string, from: nat): (r: nat)
    requires from <= |s|
    ensures from <= r <= |s|
    ensures r < |s| ==> IsWhite(s[r])
    ensures forall k :: from <= k < r ==> !IsWhite(s[k])
    decreases |s| - from
  {
    if from == |s| || IsWhite(s[from]) then from else FirstWhite(s, from + 1)
  }

  /** The end of the whitespace run starting at `from`. */
  function WhiteRunEnd(s: string, from: nat): (r: nat)
    requires from <= |s|
    ensures from <= r <= |s|
    ensures r < |s| ==> !IsWhite(s[r])
    ensures forall k :: from <= k < r ==> IsWhite(s[k])
    decreases |s| - from
  {
    if from == |s| || !IsWhite(s[from]) then from else WhiteRunEnd(s, from + 1)
  }

  lemma {:induction false} FirstWhiteExact(s: string, from: nat, e: nat)
    requires from <= e <= |s|
    requires forall k :: from <= k < e ==> !IsWhite(s[k])
    requires e == |s| || IsWhite(s[e])
    ensures FirstWhite(s, from) == e
    decreases e - from
  {
    if from < e {
      FirstWhiteExact(s, from + 1, e);
    }
  }

  lemma {:induction false} WhiteRunEndExact(s: string, from: nat, e: nat)
    requires from <= e <= |s|
    requires forall k :: from <= k < e ==> IsWhite(s[k])
    requires e == |s| || !IsWhite(s[e])
    ensures WhiteRunEnd(s, from) == e
    decreases e - from
  {
    if from < e {
      WhiteRunEndExact(s, from + 1, e);
    }
  }

  /** `s.split(/\s+/)`: the pieces between maximal whitespace runs (a leading or
      trailing run yields an empty piece). */
  function SplitWhite(s: string): (r: seq<string>)
    ensures |r| >= 1
    ensures forall i :: 0 <= i < |r| ==> NoWhite(r[i])
    ensures Concat(r) == RemoveWhite(s)
    decreases |s|
  {
    var i := FirstWhite(s, 0);
    if i == |s| then
      RemoveWhiteOfNoWhite(s);
      [s]
    else
      var j := WhiteRunEnd(s, i);
      var rest := SplitWhite(s[j..]);
      RemoveWhiteSplit(s, i, j);
      assert NoWhite(s[..i]);
      [s[..i]] + rest
  }

  /** A piece without whitespace followed by a whitespace run: the piece is
      kept whole and the run dropped. */
  lemma {:induction false} RemoveWhiteSplit(s: string, i: nat, j: nat)
    requires i <= j <= |s|
    requires forall k :: 0 <= k < i ==> !IsWhite(s[k])
    requires forall k :: i <= k < j ==> IsWhite(s[k])
    ensures RemoveWhite(s) == s[..i] + RemoveWhite(s[j..])
  {
    assert s == s[..i] + s[i..j] + s[j..];
    RemoveWhiteAppend(s[..i] + s[i..j], s[j..]);
    RemoveWhiteAppend(s[..i], s[i..j]);
    RemoveWhiteOfNoWhite(s[..i]);
    RemoveWhiteOfAllWhite(s[i..j]);
  }

  function FilterNonEmpty(ss: seq<string>): (r: seq<string>)
    ensures forall i :: 0 <= i < |r| ==> |r[i]| > 0
    ensures (forall i :: 0 <= i < |ss| ==> NoWhite(ss[i])) ==> forall i :: 0 <= i < |r| ==> NoWhite(r[i])
    ensures Concat(r) == Concat(ss)
  {
    if |ss| == 0 then []
    else if |ss[0]| == 0 then FilterNonEmpty(ss[1..])
    else [ss[0]] + FilterNonEmpty(ss[1..])
  }

  lemma {:induction false} RemoveWhiteTrimStart(s: string)
    ensures RemoveWhite(TrimStart(s)) == RemoveWhite(s)
  {
    if |s| > 0 && IsWhite(s[0]) {
      RemoveWhiteTrimStart(s[1..]);
    }
  }

  lemma {:induction false} RemoveWhiteTrimEnd(s: string)
    ensures RemoveWhite(TrimEnd(s)) == RemoveWhite(s)
  {
    if |s| > 0 && IsWhite(s[|s| - 1]) {
      var p := s[..|s| - 1];
      RemoveWhiteTrimEnd(p);
      assert s == p + [s[|s| - 1]];
      RemoveWhiteAppend(p, [s[|s| - 1]]);
      assert RemoveWhite([s[|s| - 1]]) == [];
    }
  }

  lemma {:induction false} RemoveWhiteEmptyIff(s: string)
    ensures RemoveWhite(s) == [] <==> AllWhite(s)
  {
    if |s| > 0 {
      RemoveWhiteEmptyIff(s[1..]);
      if AllWhite(s) {
        assert AllWhite(s[1..]);
      } else if IsWhite(s[0]) {
        assert !AllWhite(s[1..]);
      }
    }
  }

  /** `text.trim().split(/\s+/).filter(w => w.length > 0)`: the words of `s` are
      non-empty, contain no whitespace, and together hold exactly the
      non-whitespace characters of `s`, in order. */
  function Words(s: string): (r: seq<string>)
    ensures forall i :: 0 <= i < |r| ==> |r[i]| > 0 && NoWhite(r[i])
    ensures Concat(r) == RemoveWhite(s)
  {
    TrimKeepsText(s);
    FilterNonEmpty(SplitWhite(Trim(s)))
  }

  /** A piece unless it is empty. */
  function Chunk(x: string): seq<string> {
    if |x| == 0 then [] else [x]
  }

  /** The non-empty pieces between whitespace runs, before trimming. */
  function Pieces(s: string): seq<string>
    decreases |s|
  {
    var i := FirstWhite(s, 0);
    if i == |s| then Chunk(s) else Chunk(s[..i]) + Pieces(s[WhiteRunEnd(s, i)..])
  }

  /** The pieces are what the filter keeps of the split. */
  lemma {:induction false} PiecesAreFiltered(s: string)
    ensures Pieces(s) == FilterNonEmpty(SplitWhite(s))
    decreases |s|
  {
    var i := FirstWhite(s, 0);
    if i < |s| {
      var rest := SplitWhite(s[WhiteRunEnd(s, i)..]);
      PiecesAreFiltered(s[WhiteRunEnd(s, i)..]);
      assert SplitWhite(s) == [s[..i]] + rest;
      assert ([s[..i]] + rest)[1..] == rest;
    }
  }

  /** `s` starts with a (possibly empty) piece `s[..i]` followed by the
      maximal non-empty whitespace run `s[i..j]`. */
  ghost predicate RunAt(s: string, i: nat, j: nat) {
    && i < j <= |s|
    && (forall k :: 0 <= k < i ==> !IsWhite(s[k]))
    && (forall k :: i <= k < j ==> IsWhite(s[k]))
    && (j == |s| || !IsWhite(s[j]))
  }

  /** The split of a string that begins with a whitespace run, or of a piece
      without whitespace followed by one, in terms of what follows the run. */
  lemma {:induction false} PiecesStep(s: string, i: nat, j: nat)
    requires RunAt(s, i, j)
    ensures Pieces(s) == Chunk(s[..i]) + Pieces(s[j..])
  {
    FirstWhiteExact(s, 0, i);
    WhiteRunEndExact(s, i, j);
  }

  /** A whitespace run splits the pieces in two: the pieces of `s` are those
      before the run followed by those after it. */
  lemma {:induction false} PiecesSplitAt(s: string, p: nat, q: nat, head: string, rest: string)
    requires p < q <= |s|
    requires forall k :: p <= k < q ==> IsWhite(s[k])
    requires head == s[..p] && rest == s[q..]
    ensures Pieces(s) == Pieces(head) + Pieces(rest)
    decreases p
  {
    var i := FirstWhite(s, 0);
    assert IsWhite(s[p]);
    assert i <= p;
    var j := WhiteRunEnd(s, i);
    assert forall k :: 0 <= k < p ==> head[k] == s[k];
    if j < p {
      PiecesRunInside(s, p, q, head, rest, i, j);
    } else {
      PiecesRunCovers(s, p, q, head, rest, i);
    }
  }

  /** The base case of `PiecesSplitAt`: the first whitespace run reaches the
      run at `p`, so it is the one that splits the pieces. */
  lemma {:induction false} PiecesRunCovers(s: string, p: nat, q: nat, head: string, rest: string, i: nat)
    requires p < q <= |s|
    requires forall k :: p <= k < q ==> IsWhite(s[k])
    requires head == s[..p] && rest == s[q..]
    requires i == FirstWhite(s, 0) && i <= p && WhiteRunEnd(s, i) >= p
    ensures Pieces(s) == Pieces(head) + Pieces(rest)
  {
    var e := WhiteRunEnd(s, q);
    assert Pieces(head) == Chunk(s[..i]) by {
      PiecesHead(s, p, head, i);
    }
    assert Pieces(s) == Chunk(s[..i]) + Pieces(s[e..]) by {
      assert forall k :: i <= k < e ==> IsWhite(s[k]);
      WhiteRunEndExact(s, i, e);
      PiecesStep(s, i, e);
    }
    assert Pieces(rest) == Pieces(s[e..]) by {
      PiecesTail(s, q);
    }
  }

  /** The text before a whitespace run at `p` that holds the first whitespace
      at `i` is the single piece `s[..i]` (or nothing). */
  lemma {:induction false} PiecesHead(s: string, p: nat, head: string, i: nat)
    requires p < |s| && IsWhite(s[p]) && head == s[..p]
    requires i == FirstWhite(s, 0) && i <= p && WhiteRunEnd(s, i) >= p
    ensures Pieces(head) == Chunk(s[..i])
  {
    assert forall k :: 0 <= k < p ==> head[k] == s[k];
    if i == p {
      assert s[..i] == head;
      FirstWhiteExact(head, 0, p);
    } else {
      assert head[..i] == s[..i];
      assert head[p..] == [];
      PiecesStep(head, i, p);
    }
  }

  /** The inductive step of `PiecesSplitAt`: a whitespace run that ends before
      `p` is dropped on both sides. */
  lemma {:induction false} PiecesRunInside(s: string, p: nat, q: nat, head: string, rest: string, i: nat, j: nat)
    requires p < q <= |s|
    requires forall k :: p <= k < q ==> IsWhite(s[k])
    requires head == s[..p] && rest == s[q..]
    requires i == FirstWhite(s, 0) && j == WhiteRunEnd(s, i) && i < j < p
    ensures Pieces(s) == Pieces(head) + Pieces(rest)
    decreases p, 0
  {
    var tail := s[j..];
    var mid := tail[..p - j];
    var a := Chunk(s[..i]);
    assert Pieces(s) == a + Pieces(tail) by {
      ShiftSlices(s, p, q, head, rest, i, j);
      PiecesStep(s, i, j);
    }
    assert Pieces(head) == a + Pieces(mid) by {
      ShiftSlices(s, p, q, head, rest, i, j);
      PiecesStep(head, i, j);
    }
    assert Pieces(tail) == Pieces(mid) + Pieces(rest) by {
      ShiftSlices(s, p, q, head, rest, i, j);
      assert p - j < q - j <= |tail|;
      assert forall k :: p - j <= k < q - j ==> IsWhite(tail[k]);
      PiecesSplitAt(tail, p - j, q - j, mid, rest);
    }
    Regroup(Pieces(s), Pieces(head), Pieces(tail), a, Pieces(mid), Pieces(rest));
  }

  lemma {:induction false} Regroup(whole: seq<string>, left: seq<string>, rest: seq<string>, a: seq<string>, c: seq<string>, d: seq<string>)
    requires whole == a + rest && rest == c + d && left == a + c
    ensures whole == left + d
  {
  }

  /** The slices `PiecesRunInside` works with, seen from `j`. */
  lemma {:induction false} ShiftSlices(s: string, p: nat, q: nat, head: string, rest: string, i: nat, j: nat)
    requires p < q <= |s|
    requires forall k :: p <= k < q ==> IsWhite(s[k])
    requires head == s[..p] && rest == s[q..]
    requires i == FirstWhite(s, 0) && j == WhiteRunEnd(s, i) && i < j < p
    ensures forall k :: p - j <= k < q - j ==> IsWhite(s[j..][k])
    ensures rest == s[j..][q - j..]
    ensures head[j..] == s[j..][..p - j]
    ensures head[..i] == s[..i]
    ensures RunAt(s, i, j) && RunAt(head, i, j)
  {
    assert forall k :: 0 <= k < p ==> head[k] == s[k];
  }

  /** The pieces after a position are those after the whitespace run there. */
  lemma {:induction false} PiecesTail(s: string, q: nat)
    requires q <= |s|
    ensures Pieces(s[q..]) == Pieces(s[WhiteRunEnd(s, q)..])
  {
    var e := WhiteRunEnd(s, q);
    if e > q {
      var t := s[q..];
      assert RunAt(t, 0, e - q);
      PiecesStep(t, 0, e - q);
      assert t[e - q..] == s[e..];
      assert Chunk(t[..0]) == [];
    }
  }

  lemma {:induction false} PiecesSplit(a: string, w: string, b: string)
    requires |w| > 0 && AllWhite(w)
    ensures Pieces(a + w + b) == Pieces(a) + Pieces(b)
  {
    var s := a + w + b;
    assert forall k :: |a| <= k < |a| + |w| ==> s[k] == w[k - |a|];
    assert s[..|a|] == a;
    assert s[|a| + |w|..] == b;
    PiecesSplitAt(s, |a|, |a| + |w|, a, b);
  }

  /** Trimming does not change the pieces, so the words are the pieces. */
  lemma {:induction false} WordsArePieces(s: string)
    ensures Words(s) == Pieces(s)
  {
    var t0 := TrimStart(s);
    PiecesTrimStart(s);
    PiecesTrimEnd(t0);
    PiecesAreFiltered(TrimEnd(t0));
  }

  lemma {:induction false} PiecesTrimStart(s: string)
    ensures Pieces(TrimStart(s)) == Pieces(s)
  {
    var t0 := TrimStart(s);
    var lead := s[..|s| - |t0|];
    assert s == [] + lead + t0;
    if |lead| > 0 {
      PiecesSplit([], lead, t0);
      assert Pieces([]) == [];
    }
  }

  lemma {:induction false} PiecesTrimEnd(s: string)
    ensures Pieces(TrimEnd(s)) == Pieces(s)
  {
    var t := TrimEnd(s);
    var trail := s[|t|..];
    assert s == t + trail + [];
    if |trail| > 0 {
      PiecesSplit(t, trail, []);
      assert Pieces([]) == [];
    }
  }

  /** A non-empty string without whitespace is one word. */
  lemma {:induction false} WordsSingle(x: string)
    requires |x| > 0 && NoWhite(x)
    ensures Words(x) == [x]
  {
    WordsArePieces(x);
    FirstWhiteExact(x, 0, |x|);
  }

  /** A whitespace run separates words: the words of `a + w + b` are those of
      `a` followed by those of `b`. */
  lemma {:induction false} WordsSplit(a: string, w: string, b: string)
    requires |w| > 0 && AllWhite(w)
    ensures Words(a + w + b) == Words(a) + Words(b)
  {
    WordsArePieces(a + w + b);
    WordsArePieces(a);
    WordsArePieces(b);
    PiecesSplit(a, w, b);
  }

  /** Words separated by single spaces. */
  function JoinSpaces(ws: seq<string>): string {
    if |ws| == 0 then []
    else if |ws| == 1 then ws[0]
    else ws[0] + " " + JoinSpaces(ws[1..])
  }

  lemma {:induction false} JoinSpacesEnds(ws: seq<string>)
    requires |ws| > 0
    requires forall i :: 0 <= i < |ws| ==> |ws[i]| > 0
    ensures |JoinSpaces(ws)| > 0
    ensures JoinSpaces(ws)[0] == ws[0][0]
    ensures JoinSpaces(ws)[|JoinSpaces(ws)| - 1] == ws[|ws| - 1][|ws[|ws| - 1]| - 1]
  {
    if |ws| > 1 {
      JoinSpacesEnds(ws[1..]);
    }
  }

  lemma {:induction false} SplitWhiteJoin(ws: seq<string>)
    requires |ws| > 0
    requires forall i :: 0 <= i < |ws| ==> |ws[i]| > 0 && NoWhite(ws[i])
    ensures SplitWhite(JoinSpaces(ws)) == ws
  {
    var s := JoinSpaces(ws);
    if |ws| == 1 {
      assert FirstWhite(s, 0) == |s|;
    } else {
      var t := JoinSpaces(ws[1..]);
      JoinSpacesEnds(ws[1..]);
      var n := |ws[0]|;
      assert s == ws[0] + " " + t;
      assert s[n] == ' ';
      assert forall k :: 0 <= k < n ==> s[k] == ws[0][k];
      assert FirstWhite(s, 0) == n;
      assert s[n + 1] == t[0];
      assert WhiteRunEnd(s, n) == n + 1;
      assert s[n + 1..] == t;
      assert s[..n] == ws[0];
      SplitWhiteJoin(ws[1..]);
    }
  }

  lemma {:induction false} FilterNonEmptyId(ws: seq<string>)
    requires forall i :: 0 <= i < |ws| ==> |ws[i]| > 0
    ensures FilterNonEmpty(ws) == ws
  {
    if |ws| > 0 {
      FilterNonEmptyId(ws[1..]);
      assert ws == [ws[0]] + ws[1..];
    }
  }

  /** Splitting words joined by single spaces gives the words back. */
  lemma {:induction false} WordsJoinSpaces(ws: seq<string>)
    requires forall i :: 0 <= i < |ws| ==> |ws[i]| > 0 && NoWhite(ws[i])
    ensures Words(JoinSpaces(ws)) == ws
  {
    if |ws| == 0 {
      assert SplitWhite([]) == [[]];
    } else {
      var s := JoinSpaces(ws);
      JoinSpacesEnds(ws);
      assert TrimStart(s) == s;
      assert TrimEnd(s) == s;
      SplitWhiteJoin(ws);
      FilterNonEmptyId(ws);
    }
  }

  // ---------------------------------------------------------------- case

  /** Lower-cases ASCII letters only. */
  function ToLowerAscii(s: string): (r: string)
    ensures |r| == |s|
    ensures forall i :: 0 <= i < |s| ==> !('A' <= r[i] <= 'Z')
  {
    if |s| == 0 then []
    else
      var c := s[0];
      var d := if 'A' <= c <= 'Z' then (c as int + 32) as char else c;
      [d] + ToLowerAscii(s[1..])
  }
}
