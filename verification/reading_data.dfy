/**
 * The reading history: every finished session in the order it was added, and
 * per file the totals kept up to date as sessions arrive.
 */
module ReadingData {
  import opened Wrappers
  import JsNumber
  import Sorting

  /** Timestamps and durations are whole milliseconds. */
  datatype Session = Session(
    fileId: string,
    fileName: string,
    startTimestamp: int,
    endTimestamp: int,
    duration: int,
    startPosition: int,
    endPosition: int,
    wordsRead: int,
    averageSpeed: real)

  datatype Stat = Stat(
    totalSessions: int,
    totalTimeSpent: int,
    totalWordsRead: int,
    averageSpeed: JsNumber.Number,
    lastReadDate: int)

  datatype Data = Data(sessions: seq<Session>, stats: map<string, Stat>)

  const Empty: Data := Data([], map[])

  /** The statistics a file starts from before its first session. */
  const ZeroStat: Stat := Stat(0, 0, 0, JsNumber.Finite(0.0), 0)

  function MaxInt(a: int, b: int): int { if a >= b then a else b }

  /** Words per minute: words over minutes, where a minute is 60000 ms. */
  function Speed(words: int, time: int): JsNumber.Number {
    JsNumber.Div(words as real, time as real / 60000.0)
  }

  /** The statistics after one more session of the file. */
  function Bump(st: Stat, s: Session): (r: Stat)
    ensures r.totalSessions == st.totalSessions + 1
    ensures r.totalTimeSpent - st.totalTimeSpent == s.duration
    ensures r.totalWordsRead - st.totalWordsRead == s.wordsRead
    ensures r.lastReadDate >= st.lastReadDate && r.lastReadDate >= s.endTimestamp
    ensures r.lastReadDate == st.lastReadDate || r.lastReadDate == s.endTimestamp
  {
    var time := st.totalTimeSpent + s.duration;
    var words := st.totalWordsRead + s.wordsRead;
    Stat(st.totalSessions + 1, time, words, Speed(words, time), MaxInt(st.lastReadDate, s.endTimestamp))
  }

  /** `addSession` with `updateStats`: the session is appended and only its
      file's statistics change, starting from zero for a file not seen yet. */
  function AddSession(d: Data, s: Session): (r: Data)
    ensures r.sessions == d.sessions + [s]
    ensures r.stats.Keys == d.stats.Keys + {s.fileId}
    ensures forall id :: id in d.stats && id != s.fileId ==> r.stats[id] == d.stats[id]
    ensures s.fileId !in d.stats ==> r.stats[s.fileId].totalSessions == 1
    ensures s.fileId in d.stats ==> r.stats[s.fileId].totalSessions == d.stats[s.fileId].totalSessions + 1
  {
    var prior := if s.fileId in d.stats then d.stats[s.fileId] else ZeroStat;
    Data(d.sessions + [s], d.stats[s.fileId := Bump(prior, s)])
  }

  /** `getFileStat`: none for a file without sessions. */
  function GetFileStat(d: Data, fileId: string): (r: Option<Stat>)
    ensures r.Some? <==> fileId in d.stats
    ensures r.Some? ==> r.value == d.stats[fileId]
  {
    if fileId in d.stats then Some(d.stats[fileId]) else None
  }

  // ---------------------------------------------------------------- history as a whole

  /** The sessions added one after another to `d`. */
  function AddAll(d: Data, ss: seq<Session>): Data {
    if |ss| == 0 then d
    else AddSession(AddAll(d, ss[..|ss| - 1]), ss[|ss| - 1])
  }

  /** The number of sessions of a file. */
  function SessionsOf(ss: seq<Session>, fileId: string): nat {
    if |ss| == 0 then 0
    else SessionsOf(ss[..|ss| - 1], fileId) + (if ss[|ss| - 1].fileId == fileId then 1 else 0)
  }

  /** The time spent in a file's sessions. */
  function TimeOf(ss: seq<Session>, fileId: string): int {
    if |ss| == 0 then 0
    else TimeOf(ss[..|ss| - 1], fileId) + (if ss[|ss| - 1].fileId == fileId then ss[|ss| - 1].duration else 0)
  }

  /** The words read in a file's sessions. */
  function WordsOf(ss: seq<Session>, fileId: string): int {
    if |ss| == 0 then 0
    else WordsOf(ss[..|ss| - 1], fileId) + (if ss[|ss| - 1].fileId == fileId then ss[|ss| - 1].wordsRead else 0)
  }

  /** The latest end among a file's sessions, and never below 0. */
  function LastReadOf(ss: seq<Session>, fileId: string): (r: int)
    ensures r >= 0
    ensures forall i :: 0 <= i < |ss| && ss[i].fileId == fileId ==> ss[i].endTimestamp <= r
  {
    if |ss| == 0 then 0
    else
      var rest := LastReadOf(ss[..|ss| - 1], fileId);
      assert forall i :: 0 <= i < |ss| - 1 ==> ss[..|ss| - 1][i] == ss[i];
      if ss[|ss| - 1].fileId == fileId then MaxInt(rest, ss[|ss| - 1].endTimestamp) else rest
  }

  /** The statistics of a file as totals over its sessions. */
  function StatOf(ss: seq<Session>, fileId: string): Stat {
    Stat(SessionsOf(ss, fileId), TimeOf(ss, fileId), WordsOf(ss, fileId),
         Speed(WordsOf(ss, fileId), TimeOf(ss, fileId)), LastReadOf(ss, fileId))
  }

  ghost predicate HasFile(ss: seq<Session>, fileId: string) {
    exists i :: 0 <= i < |ss| && ss[i].fileId == fileId
  }

  lemma {:induction false} HasFileSnoc(ss: seq<Session>, fileId: string)
    requires |ss| > 0
    ensures HasFile(ss, fileId) <==> HasFile(ss[..|ss| - 1], fileId) || ss[|ss| - 1].fileId == fileId
  {
    if HasFile(ss, fileId) && ss[|ss| - 1].fileId != fileId {
      var i :| 0 <= i < |ss| && ss[i].fileId == fileId;
      assert ss[..|ss| - 1][i] == ss[i];
    }
    if HasFile(ss[..|ss| - 1], fileId) {
      var i :| 0 <= i < |ss| - 1 && ss[..|ss| - 1][i].fileId == fileId;
      assert ss[i] == ss[..|ss| - 1][i];
    }
  }

  /** Starting from an empty history, the history holds exactly the sessions
      added, a file has statistics exactly when one of them is of that file,
      and those statistics are the totals over its sessions: the count, the
      time, the words, the speed over all of them and the latest end. */
  lemma {:induction false} AddAllTotals(ss: seq<Session>, fileId: string)
    ensures AddAll(Empty, ss).sessions == ss
    ensures fileId in AddAll(Empty, ss).stats <==> HasFile(ss, fileId)
    ensures fileId in AddAll(Empty, ss).stats ==> AddAll(Empty, ss).stats[fileId] == StatOf(ss, fileId)
  {
    AddAllSessions(ss);
    AddAllKeys(ss, fileId);
    if fileId in AddAll(Empty, ss).stats {
      AddAllStat(ss, fileId);
    }
  }

  lemma {:induction false} AddAllSessions(ss: seq<Session>)
    ensures AddAll(Empty, ss).sessions == ss
  {
    if |ss| > 0 {
      var init := ss[..|ss| - 1];
      AddAllSessions(init);
      assert AddAll(Empty, ss).sessions == init + [ss[|ss| - 1]];
      DropLast(ss);
    }
  }

  lemma {:induction false} DropLast(ss: seq<Session>)
    requires |ss| > 0
    ensures ss[..|ss| - 1] + [ss[|ss| - 1]] == ss
  {
  }

  lemma {:induction false} AddAllKeys(ss: seq<Session>, fileId: string)
    ensures fileId in AddAll(Empty, ss).stats <==> HasFile(ss, fileId)
  {
    if |ss| > 0 {
      AddAllKeys(ss[..|ss| - 1], fileId);
      HasFileSnoc(ss, fileId);
    }
  }

  /** The totals after one more session: bumped for its file, unchanged for
      any other. */
  lemma {:induction false} StatOfSnoc(ss: seq<Session>, fileId: string)
    requires |ss| > 0
    ensures ss[|ss| - 1].fileId == fileId ==> StatOf(ss, fileId) == Bump(StatOf(ss[..|ss| - 1], fileId), ss[|ss| - 1])
    ensures ss[|ss| - 1].fileId != fileId ==> StatOf(ss, fileId) == StatOf(ss[..|ss| - 1], fileId)
  {
  }

  lemma {:induction false} AddAllStat(ss: seq<Session>, fileId: string)
    requires fileId in AddAll(Empty, ss).stats
    ensures AddAll(Empty, ss).stats[fileId] == StatOf(ss, fileId)
  {
    var init := ss[..|ss| - 1];
    var s := ss[|ss| - 1];
    var prior := AddAll(Empty, init);
    assert AddAll(Empty, ss) == AddSession(prior, s);
    StatOfSnoc(ss, fileId);
    if s.fileId == fileId {
      if fileId in prior.stats {
        AddAllStat(init, fileId);
      } else {
        AddAllKeys(init, fileId);
        NoFileZero(init, fileId);
        assert Bump(StatOf(init, fileId), s) == Bump(ZeroStat, s);
      }
    } else {
      AddAllStat(init, fileId);
    }
  }

  /** A file without sessions has all-zero totals. */
  lemma {:induction false} NoFileZero(ss: seq<Session>, fileId: string)
    requires !HasFile(ss, fileId)
    ensures SessionsOf(ss, fileId) == 0 && TimeOf(ss, fileId) == 0
    ensures WordsOf(ss, fileId) == 0 && LastReadOf(ss, fileId) == 0
  {
    if |ss| > 0 {
      HasFileSnoc(ss, fileId);
      NoFileZero(ss[..|ss| - 1], fileId);
    }
  }

  /** A file whose sessions took no time at all has a speed of NaN when no
      word was read and of Infinity otherwise. */
  lemma {:induction false} ZeroTimeSpeed(d: Data, s: Session)
    requires s.fileId !in d.stats && s.duration == 0 && s.wordsRead >= 0
    ensures var st := AddSession(d, s).stats[s.fileId];
      (st.averageSpeed.NaN? <==> s.wordsRead == 0) && (st.averageSpeed.Infinity? <==> s.wordsRead > 0)
  {
  }

  // ---------------------------------------------------------------- recent sessions

  function EndTimestamp(s: Session): int { s.endTimestamp }

  /** `Array.prototype.slice(0, count)`: a negative count drops that many
      elements from the end. */
  function SliceEnd(len: nat, count: int): (r: nat)
    ensures r <= len
    ensures count >= 0 ==> r == if count < len then count else len
    ensures count < 0 ==> r == if len + count > 0 then len + count else 0
  {
    if count >= 0 then (if count < len then count else len)
    else if len + count > 0 then len + count else 0
  }

  /** The sessions from latest to earliest end, equal ends in the order they
      were added. */
  function ByRecency(d: Data): (r: seq<Session>)
    ensures Sorting.SortedDesc(r, EndTimestamp)
    ensures multiset(r) == multiset(d.sessions)
    ensures forall k :: Sorting.WithKey(r, EndTimestamp, k) == Sorting.WithKey(d.sessions, EndTimestamp, k)
  {
    Sorting.SortDesc(d.sessions, EndTimestamp)
  }

  /** `getRecentSessions`: the first `count` sessions by recency (all of them
      for a count past the end), without changing the stored order. */
  function GetRecentSessions(d: Data, count: int): (r: seq<Session>)
    ensures |r| == SliceEnd(|d.sessions|, count)
    ensures r == ByRecency(d)[..|r|]
    ensures forall i, j :: 0 <= i < j < |r| ==> r[i].endTimestamp >= r[j].endTimestamp
    ensures forall i :: 0 <= i < |r| ==> r[i] in d.sessions
  {
    var sorted := ByRecency(d);
    var r := sorted[..SliceEnd(|sorted|, count)];
    assert forall i, j :: 0 <= i < j < |r| ==> EndTimestamp(sorted[i]) >= EndTimestamp(sorted[j]);
    forall i | 0 <= i < |r| ensures r[i] in d.sessions {
      assert r[i] == sorted[i];
      assert sorted[i] in multiset(sorted);
    }
    r
  }

  /** No session left out of the recent ones ended later than any returned
      one; with the default count of 10 there are ten of them whenever one is
      left out, and asking for at least as many as there are returns every
      session. */
  lemma {:induction false} RecentAreLatest(d: Data, count: int)
    ensures var r := GetRecentSessions(d, count);
      forall i, j :: 0 <= i < |r| <= j < |d.sessions| ==>
        ByRecency(d)[j].endTimestamp <= r[i].endTimestamp
    ensures |d.sessions| > 10 ==> |GetRecentSessions(d, 10)| == 10
    ensures count >= |d.sessions| ==> multiset(GetRecentSessions(d, count)) == multiset(d.sessions)
  {
    var sorted := ByRecency(d);
    var r := GetRecentSessions(d, count);
    forall i, j | 0 <= i < |r| <= j < |d.sessions|
      ensures sorted[j].endTimestamp <= r[i].endTimestamp
    {
      assert r[i] == sorted[i];
      assert EndTimestamp(sorted[i]) >= EndTimestamp(sorted[j]);
    }
    if count >= |d.sessions| {
      assert r == sorted;
    }
  }

  /** Sessions that ended at the same moment are returned in the order they
      were added. */
  lemma {:induction false} RecentKeepsAddedOrder(d: Data, k: int)
    ensures Sorting.WithKey(GetRecentSessions(d, |d.sessions|), EndTimestamp, k)
            == Sorting.WithKey(d.sessions, EndTimestamp, k)
  {
    assert GetRecentSessions(d, |d.sessions|) == ByRecency(d);
  }
}
