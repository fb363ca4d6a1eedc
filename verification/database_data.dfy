/** The reductions inside the `DataBaseData` methods of
    ParticipantsTracking.py. Each takes the rows its query already fetched
    (filtered to one day and ordered by the database) and folds them, in
    fetch order, into the summary the report is written from. */
module DataBaseData {
  import opened Wrappers
  import opened Text
  import opened Timedelta
  import opened TimesHelper
  import opened Dicts
  import opened Seqs

  /** Whole seconds of each fetched millisecond timestamp. */
  function ToSeconds(ms: seq<nat>): (ts: seq<nat>)
    ensures |ts| == |ms|
    ensures forall i :: 0 <= i < |ms| ==> ts[i] == EpochSeconds(ms[i])
  {
    seq(|ms|, i requires 0 <= i < |ms| => EpochSeconds(ms[i]))
  }

  lemma ReadableIsNotEmpty(t: nat, offset: UtcOffset)
    ensures ConvertTimestampToReadable(t, offset) != ""
  {
    assert |ConvertTimestampToReadable(t, offset)| >= 19;
  }

  // ---------------------------------------------------------------------
  // Mood reports
  // ---------------------------------------------------------------------

  type MoodReports = Dict<Session, string>

  const MoodKeys: seq<Session> := [Morning, Afternoon, Evening, NoSession]
  const EmptyMoodReports: MoodReports := [(Morning, ""), (Afternoon, ""), (Evening, ""), (NoSession, "")]

  /** `reports[s]`; every session is always present. */
  function MoodSlot(reports: MoodReports, s: Session): string {
    match Get(reports, s)
    case Some(v) => v
    case None => ""
  }

  /** One turn of the loop: a row fills its own window's slot while that
      slot is still empty, otherwise it overwrites the "no session" slot. */
  function MoodStep(reports: MoodReports, t: nat, offset: UtcOffset): MoodReports {
    var readable := ConvertTimestampToReadable(t, offset);
    if IsMorningTimestamp(t, offset) && MoodSlot(reports, Morning) == "" then Put(reports, Morning, readable)
    else if IsAfternoonTimestamp(t, offset) && MoodSlot(reports, Afternoon) == "" then Put(reports, Afternoon, readable)
    else if IsEveningTimestamp(t, offset) && MoodSlot(reports, Evening) == "" then Put(reports, Evening, readable)
    else Put(reports, NoSession, readable)
  }

  function MoodFold(times: seq<nat>, offset: UtcOffset): MoodReports
    decreases |times|
  {
    if |times| == 0 then EmptyMoodReports
    else MoodStep(MoodFold(times[..|times| - 1], offset), times[|times| - 1], offset)
  }

  /** A fetched answer as the loop sees it: the window its time falls in
      and its readable text. */
  datatype Answer = Answer(session: Session, shown: string)

  function AnswersOf(times: seq<nat>, offset: UtcOffset): (answers: seq<Answer>)
    ensures |answers| == |times|
    ensures forall i :: 0 <= i < |times| ==>
              answers[i] == Answer(SessionOf(times[i], offset), ConvertTimestampToReadable(times[i], offset))
  {
    seq(|times|, i requires 0 <= i < |times| => Answer(SessionOf(times[i], offset), ConvertTimestampToReadable(times[i], offset)))
  }

  /** The step stated on the session alone: the three window tests are
      exclusive, so the chain of tests picks the answer's own window. */
  function Place(reports: MoodReports, a: Answer): MoodReports {
    if a.session != NoSession && MoodSlot(reports, a.session) == "" then Put(reports, a.session, a.shown)
    else Put(reports, NoSession, a.shown)
  }

  function PlaceFold(answers: seq<Answer>): MoodReports
    decreases |answers|
  {
    if |answers| == 0 then EmptyMoodReports
    else Place(PlaceFold(answers[..|answers| - 1]), answers[|answers| - 1])
  }

  lemma MoodStepPlaces(reports: MoodReports, t: nat, offset: UtcOffset)
    ensures MoodStep(reports, t, offset) == Place(reports, Answer(SessionOf(t, offset), ConvertTimestampToReadable(t, offset)))
  {
  }

  lemma {:induction false} MoodFoldPlaces(times: seq<nat>, offset: UtcOffset)
    ensures MoodFold(times, offset) == PlaceFold(AnswersOf(times, offset))
    decreases |times|
  {
    if |times| > 0 {
      var n := |times|;
      MoodFoldPlaces(times[..n - 1], offset);
      assert AnswersOf(times, offset)[..n - 1] == AnswersOf(times[..n - 1], offset);
      MoodStepPlaces(MoodFold(times[..n - 1], offset), times[n - 1], offset);
    }
  }

  /** Answer `i` is the earliest of its session. */
  predicate FirstOfSession(answers: seq<Answer>, i: nat)
    requires i < |answers|
  {
    forall j :: 0 <= j < i ==> answers[j].session != answers[i].session
  }

  /** Answer `i` is reported as off schedule: it is outside every window,
      or an earlier answer already took its window. */
  predicate OffSchedule(answers: seq<Answer>, i: nat)
    requires i < |answers|
  {
    answers[i].session == NoSession || !FirstOfSession(answers, i)
  }

  /** After the first `n` answers: a named slot is empty exactly when no
      answer falls in its window, and otherwise holds the first such one. */
  ghost predicate NamedSlotsHoldFirstRows(answers: seq<Answer>, n: nat, r: MoodReports)
    requires n <= |answers|
  {
    && (forall s :: s != NoSession ==>
          (MoodSlot(r, s) == "" <==> forall i :: 0 <= i < n ==> answers[i].session != s))
    && (forall i :: 0 <= i < n && answers[i].session != NoSession && FirstOfSession(answers, i) ==>
          MoodSlot(r, answers[i].session) == answers[i].shown)
  }

  /** After the first `n` answers: the "no session" slot is empty exactly
      when no answer is off schedule, and otherwise holds the last such one. */
  ghost predicate NoSessionSlotHoldsLastOffSchedule(answers: seq<Answer>, n: nat, r: MoodReports)
    requires n <= |answers|
  {
    && (MoodSlot(r, NoSession) == "" <==> forall i :: 0 <= i < n ==> !OffSchedule(answers, i))
    && (forall i :: 0 <= i < n && OffSchedule(answers, i) && (forall j :: i < j < n ==> !OffSchedule(answers, j)) ==>
          MoodSlot(r, NoSession) == answers[i].shown)
  }

  ghost predicate MoodSpec(answers: seq<Answer>, n: nat, r: MoodReports)
    requires n <= |answers|
  {
    && Keys(r) == MoodKeys
    && NamedSlotsHoldFirstRows(answers, n, r)
    && NoSessionSlotHoldsLastOffSchedule(answers, n, r)
  }

  /** Every answer has a readable text, which is never empty. */
  predicate AllShown(answers: seq<Answer>) {
    forall i :: 0 <= i < |answers| ==> answers[i].shown != ""
  }

  lemma PutSlot(r: MoodReports, s: Session, v: string)
    ensures MoodSlot(Put(r, s, v), s) == v
    ensures forall s' :: s' != s ==> MoodSlot(Put(r, s, v), s') == MoodSlot(r, s')
  {
    PutGet(r, s, v);
  }

  /** Filling an empty window slot with the first answer of that window
      keeps every named slot right. */
  lemma FillKeepsNamedSlots(answers: seq<Answer>, n: nat, r: MoodReports, r': MoodReports)
    requires n < |answers| && NamedSlotsHoldFirstRows(answers, n, r)
    requires answers[n].session != NoSession && MoodSlot(r, answers[n].session) == ""
    requires answers[n].shown != ""
    requires MoodSlot(r', answers[n].session) == answers[n].shown
    requires forall s :: s != answers[n].session ==> MoodSlot(r', s) == MoodSlot(r, s)
    ensures FirstOfSession(answers, n)
    ensures NamedSlotsHoldFirstRows(answers, n + 1, r')
  {
    var a := answers[n];
    forall s | s != NoSession
      ensures MoodSlot(r', s) == "" <==> forall i :: 0 <= i < n + 1 ==> answers[i].session != s
    {
      if s != a.session {
        assert MoodSlot(r', s) == MoodSlot(r, s);
      }
    }
    forall i | 0 <= i < n + 1 && answers[i].session != NoSession && FirstOfSession(answers, i)
      ensures MoodSlot(r', answers[i].session) == answers[i].shown
    {
      if i < n {
        assert answers[i].session != a.session;
      }
    }
  }

  /** A first answer of its window is not off schedule, so the "no session"
      slot stays right when the slot is left alone. */
  lemma FillKeepsNoSessionSlot(answers: seq<Answer>, n: nat, r: MoodReports, r': MoodReports)
    requires n < |answers| && NoSessionSlotHoldsLastOffSchedule(answers, n, r)
    requires !OffSchedule(answers, n)
    requires MoodSlot(r', NoSession) == MoodSlot(r, NoSession)
    ensures NoSessionSlotHoldsLastOffSchedule(answers, n + 1, r')
  {
    forall i | 0 <= i < n + 1 && OffSchedule(answers, i) && (forall j :: i < j < n + 1 ==> !OffSchedule(answers, j))
      ensures MoodSlot(r', NoSession) == answers[i].shown
    {
      assert i != n;
    }
  }

  /** An answer whose window slot is still empty fills it. */
  lemma PlaceFills(answers: seq<Answer>, n: nat, r: MoodReports)
    requires n < |answers| && AllShown(answers) && MoodSpec(answers, n, r)
    requires answers[n].session != NoSession && MoodSlot(r, answers[n].session) == ""
    ensures MoodSpec(answers, n + 1, Place(r, answers[n]))
  {
    var a := answers[n];
    var r' := Place(r, a);
    assert r' == Put(r, a.session, a.shown);
    PutSlot(r, a.session, a.shown);
    FillKeepsNamedSlots(answers, n, r, r');
    FillKeepsNoSessionSlot(answers, n, r, r');
  }

  /** An off-schedule answer leaves every named slot alone, and no named
      slot's first answer is it. */
  lemma OverflowKeepsNamedSlots(answers: seq<Answer>, n: nat, r: MoodReports, r': MoodReports)
    requires n < |answers| && NamedSlotsHoldFirstRows(answers, n, r)
    requires answers[n].session == NoSession || MoodSlot(r, answers[n].session) != ""
    requires forall s :: s != NoSession ==> MoodSlot(r', s) == MoodSlot(r, s)
    ensures OffSchedule(answers, n)
    ensures NamedSlotsHoldFirstRows(answers, n + 1, r')
  {
    var a := answers[n];
    if a.session != NoSession {
      var k :| 0 <= k < n && answers[k].session == a.session;
      assert !FirstOfSession(answers, n);
    }
    forall s | s != NoSession
      ensures MoodSlot(r', s) == "" <==> forall i :: 0 <= i < n + 1 ==> answers[i].session != s
    {
      if a.session == s {
        assert MoodSlot(r, s) != "";
      }
    }
    forall i | 0 <= i < n + 1 && answers[i].session != NoSession && FirstOfSession(answers, i)
      ensures MoodSlot(r', answers[i].session) == answers[i].shown
    {
      assert i != n;
    }
  }

  /** The off-schedule answer becomes the latest one, and the slot holds it. */
  lemma OverflowSetsNoSessionSlot(answers: seq<Answer>, n: nat, r': MoodReports)
    requires n < |answers| && OffSchedule(answers, n) && answers[n].shown != ""
    requires MoodSlot(r', NoSession) == answers[n].shown
    ensures NoSessionSlotHoldsLastOffSchedule(answers, n + 1, r')
  {
    forall i | 0 <= i < n + 1 && OffSchedule(answers, i) && (forall j :: i < j < n + 1 ==> !OffSchedule(answers, j))
      ensures MoodSlot(r', NoSession) == answers[i].shown
    {
      assert i == n;
    }
  }

  /** An answer outside every window, or in a window already taken, goes to
      the "no session" slot. */
  lemma PlaceOverflows(answers: seq<Answer>, n: nat, r: MoodReports)
    requires n < |answers| && AllShown(answers) && MoodSpec(answers, n, r)
    requires answers[n].session == NoSession || MoodSlot(r, answers[n].session) != ""
    ensures MoodSpec(answers, n + 1, Place(r, answers[n]))
  {
    var a := answers[n];
    var r' := Place(r, a);
    assert r' == Put(r, NoSession, a.shown);
    PutSlot(r, NoSession, a.shown);
    OverflowKeepsNamedSlots(answers, n, r, r');
    OverflowSetsNoSessionSlot(answers, n, r');
  }

  lemma {:induction false} PlaceFoldPrefix(answers: seq<Answer>, n: nat)
    requires n <= |answers| && AllShown(answers)
    ensures MoodSpec(answers, n, PlaceFold(answers[..n]))
    decreases n
  {
    if n == 0 {
      assert PlaceFold(answers[..0]) == EmptyMoodReports;
    } else {
      PlaceFoldPrefix(answers, n - 1);
      var r := PlaceFold(answers[..n - 1]);
      assert answers[..n][..n - 1] == answers[..n - 1];
      assert PlaceFold(answers[..n]) == Place(r, answers[n - 1]);
      var s0 := answers[n - 1].session;
      if s0 != NoSession && MoodSlot(r, s0) == "" {
        PlaceFills(answers, n - 1, r);
      } else {
        PlaceOverflows(answers, n - 1, r);
      }
    }
  }

  lemma AnswersAreShown(times: seq<nat>, offset: UtcOffset)
    ensures AllShown(AnswersOf(times, offset))
  {
    forall i | 0 <= i < |times|
      ensures AnswersOf(times, offset)[i].shown != ""
    {
      ReadableIsNotEmpty(times[i], offset);
    }
  }

  /** `get_mood_reports`: all four keys, each named slot holding the first
      answer of its window (or `""`), the "no session" slot holding the
      last off-schedule answer (or `""`). */
  function GetMoodReports(answerTimesMs: seq<nat>, offset: UtcOffset): (r: MoodReports)
    ensures Keys(r) == MoodKeys
    ensures NamedSlotsHoldFirstRows(AnswersOf(ToSeconds(answerTimesMs), offset), |answerTimesMs|, r)
    ensures NoSessionSlotHoldsLastOffSchedule(AnswersOf(ToSeconds(answerTimesMs), offset), |answerTimesMs|, r)
  {
    var times := ToSeconds(answerTimesMs);
    var answers := AnswersOf(times, offset);
    AnswersAreShown(times, offset);
    PlaceFoldPrefix(answers, |answers|);
    assert answers[..|answers|] == answers;
    MoodFoldPlaces(times, offset);
    MoodFold(times, offset)
  }

  /** Once a named slot is filled it never changes as more answers arrive. */
  lemma MoodSlotNeverChanges(answers: seq<Answer>, n: nat, m: nat, s: Session)
    requires n <= m <= |answers| && s != NoSession && AllShown(answers)
    requires MoodSlot(PlaceFold(answers[..n]), s) != ""
    ensures MoodSlot(PlaceFold(answers[..m]), s) == MoodSlot(PlaceFold(answers[..n]), s)
  {
    PlaceFoldPrefix(answers, n);
    PlaceFoldPrefix(answers, m);
    var k :| 0 <= k < n && answers[k].session == s;
    var i := EarliestOfSession(answers, k);
  }

  /** The earliest answer at or before `k` sharing answer `k`'s session. */
  lemma {:induction false} EarliestOfSession(answers: seq<Answer>, k: nat) returns (i: nat)
    requires k < |answers|
    ensures i <= k && answers[i].session == answers[k].session
    ensures FirstOfSession(answers, i)
    decreases k
  {
    if FirstOfSession(answers, k) {
      i := k;
    } else {
      var j :| 0 <= j < k && answers[j].session == answers[k].session;
      i := EarliestOfSession(answers, j);
    }
  }

  /** The latest off-schedule answer among the first `n`, at or after `i`. */
  lemma {:induction false} LatestOffSchedule(answers: seq<Answer>, n: nat, i: nat) returns (j: nat)
    requires i < n <= |answers| && OffSchedule(answers, i)
    ensures i <= j < n && OffSchedule(answers, j)
    ensures forall k :: j < k < n ==> !OffSchedule(answers, k)
    decreases n - i
  {
    if forall k :: i < k < n ==> !OffSchedule(answers, k) {
      j := i;
    } else {
      var k :| i < k < n && OffSchedule(answers, k);
      j := LatestOffSchedule(answers, n, k);
    }
  }

  /** A filled slot of any report that keeps the mood invariant holds the
      readable time of one of the answers. */
  lemma SlotIsShown(answers: seq<Answer>, r: MoodReports, s: Session) returns (i: nat)
    requires NamedSlotsHoldFirstRows(answers, |answers|, r)
    requires NoSessionSlotHoldsLastOffSchedule(answers, |answers|, r)
    requires MoodSlot(r, s) != ""
    ensures i < |answers| && MoodSlot(r, s) == answers[i].shown
  {
    var n := |answers|;
    if s == NoSession {
      var k :| 0 <= k < n && OffSchedule(answers, k);
      i := LatestOffSchedule(answers, n, k);
    } else {
      var k :| 0 <= k < n && answers[k].session == s;
      i := EarliestOfSession(answers, k);
    }
  }

  /** Every non-empty value of the mood report is the readable time of one
      of the fetched answers. */
  lemma MoodSlotIsShown(answerTimesMs: seq<nat>, offset: UtcOffset, s: Session) returns (i: nat)
    requires MoodSlot(GetMoodReports(answerTimesMs, offset), s) != ""
    ensures i < |answerTimesMs|
    ensures MoodSlot(GetMoodReports(answerTimesMs, offset), s) == AnswersOf(ToSeconds(answerTimesMs), offset)[i].shown
  {
    i := SlotIsShown(AnswersOf(ToSeconds(answerTimesMs), offset), GetMoodReports(answerTimesMs, offset), s);
  }

  // ---------------------------------------------------------------------
  // Sleep diary
  // ---------------------------------------------------------------------

  /** A fetched `(event, time, date)` row of the sleep table. */
  datatype SleepRow = SleepRow(event: string, time: int, date: string)

  type SleepDiary = Dict<string, string>

  function SleepStep(diary: SleepDiary, row: SleepRow): SleepDiary {
    if row.event !in Keys(diary) then Put(diary, row.event, row.date) else diary
  }

  function SleepFold(rows: seq<SleepRow>): SleepDiary
    decreases |rows|
  {
    if |rows| == 0 then [] else SleepStep(SleepFold(rows[..|rows| - 1]), rows[|rows| - 1])
  }

  /** Row `i` is the first fetched row carrying its label. */
  predicate FirstOfLabel(rows: seq<SleepRow>, i: nat)
    requires i < |rows|
  {
    forall j :: 0 <= j < i ==> rows[j].event != rows[i].event
  }

  ghost predicate SleepSpec(rows: seq<SleepRow>, n: nat, d: SleepDiary)
    requires n <= |rows|
  {
    && DistinctKeys(d)
    && (forall k :: k in Keys(d) <==> exists i :: 0 <= i < n && rows[i].event == k)
    && (forall i :: 0 <= i < n && FirstOfLabel(rows, i) ==> Get(d, rows[i].event) == Some(rows[i].date))
    && (forall i, j :: 0 <= i < j < n && FirstOfLabel(rows, i) && FirstOfLabel(rows, j) ==>
          Position(Keys(d), rows[i].event) < Position(Keys(d), rows[j].event))
  }

  lemma SleepStepNew(rows: seq<SleepRow>, n: nat, d: SleepDiary)
    requires n < |rows| && SleepSpec(rows, n, d) && rows[n].event !in Keys(d)
    ensures SleepSpec(rows, n + 1, SleepStep(d, rows[n]))
  {
    var row := rows[n];
    var d' := Put(d, row.event, row.date);
    assert SleepStep(d, row) == d';
    PutGet(d, row.event, row.date);
    PutKeepsKeysDistinct(d, row.event, row.date);
    assert Keys(d') == Keys(d) + [row.event];
    assert FirstOfLabel(rows, n);
    forall i, j | 0 <= i < j < n + 1 && FirstOfLabel(rows, i) && FirstOfLabel(rows, j)
      ensures Position(Keys(d'), rows[i].event) < Position(Keys(d'), rows[j].event)
    {
      PositionAppend(Keys(d), row.event, rows[i].event);
      PositionAppend(Keys(d), row.event, rows[j].event);
      if j == n {
        assert rows[i].event in Keys(d);
      } else {
        assert rows[i].event in Keys(d) && rows[j].event in Keys(d);
      }
    }
  }

  lemma SleepStepRepeat(rows: seq<SleepRow>, n: nat, d: SleepDiary)
    requires n < |rows| && SleepSpec(rows, n, d) && rows[n].event in Keys(d)
    ensures SleepSpec(rows, n + 1, SleepStep(d, rows[n]))
  {
    assert SleepStep(d, rows[n]) == d;
    var k :| 0 <= k < n && rows[k].event == rows[n].event;
    assert !FirstOfLabel(rows, n);
    forall key | key in Keys(d)
      ensures exists i :: 0 <= i < n + 1 && rows[i].event == key
    {
      var i :| 0 <= i < n && rows[i].event == key;
    }
    forall key | exists i :: 0 <= i < n + 1 && rows[i].event == key
      ensures key in Keys(d)
    {
      var i :| 0 <= i < n + 1 && rows[i].event == key;
      if i == n {
        assert rows[k].event == key;
      }
    }
    forall i | 0 <= i < n + 1 && FirstOfLabel(rows, i)
      ensures Get(d, rows[i].event) == Some(rows[i].date)
    {
      assert i != n;
    }
    forall i, j | 0 <= i < j < n + 1 && FirstOfLabel(rows, i) && FirstOfLabel(rows, j)
      ensures Position(Keys(d), rows[i].event) < Position(Keys(d), rows[j].event)
    {
      assert j != n;
    }
  }

  lemma SleepStepKeepsSpec(rows: seq<SleepRow>, n: nat, d: SleepDiary)
    requires n < |rows| && SleepSpec(rows, n, d)
    ensures SleepSpec(rows, n + 1, SleepStep(d, rows[n]))
  {
    if rows[n].event in Keys(d) {
      SleepStepRepeat(rows, n, d);
    } else {
      SleepStepNew(rows, n, d);
    }
  }

  lemma SleepFoldStep(rows: seq<SleepRow>, n: nat)
    requires n < |rows|
    ensures SleepFold(rows[..n + 1]) == SleepStep(SleepFold(rows[..n]), rows[n])
  {
    assert rows[..n + 1][..n] == rows[..n];
  }

  lemma SleepSpecEmpty(rows: seq<SleepRow>)
    ensures SleepSpec(rows, 0, [])
  {
    assert Keys<string, string>([]) == [];
  }

  lemma {:induction false} SleepFoldPrefix(rows: seq<SleepRow>, n: nat)
    requires n <= |rows|
    ensures SleepSpec(rows, n, SleepFold(rows[..n]))
    decreases n
  {
    if n == 0 {
      assert rows[..0] == [];
      SleepSpecEmpty(rows);
    } else {
      SleepFoldPrefix(rows, n - 1);
      SleepFoldStep(rows, n - 1);
      SleepStepKeepsSpec(rows, n - 1, SleepFold(rows[..n - 1]));
    }
  }

  /** `get_sleep_diary_reports`: one entry per distinct label, valued by
      the date of the first row with that label, in order of first
      appearance; empty exactly when no row was fetched. */
  function GetSleepDiaryReports(rows: seq<SleepRow>): (d: SleepDiary)
    ensures DistinctKeys(d)
    ensures forall k :: k in Keys(d) <==> exists i :: 0 <= i < |rows| && rows[i].event == k
    ensures forall i :: 0 <= i < |rows| && FirstOfLabel(rows, i) ==> Get(d, rows[i].event) == Some(rows[i].date)
    ensures forall i, j :: 0 <= i < j < |rows| && FirstOfLabel(rows, i) && FirstOfLabel(rows, j) ==>
              Position(Keys(d), rows[i].event) < Position(Keys(d), rows[j].event)
    ensures |d| == 0 <==> |rows| == 0
  {
    SleepFoldPrefix(rows, |rows|);
    assert rows[..|rows|] == rows;
    var d := SleepFold(rows);
    assert |rows| > 0 ==> rows[0].event in Keys(d);
    d
  }

  /** The earliest row at or before `k` sharing row `k`'s label. */
  lemma {:induction false} EarliestOfLabel(rows: seq<SleepRow>, k: nat) returns (i: nat)
    requires k < |rows|
    ensures i <= k && rows[i].event == rows[k].event && FirstOfLabel(rows, i)
    decreases k
  {
    if FirstOfLabel(rows, k) {
      i := k;
    } else {
      var j :| 0 <= j < k && rows[j].event == rows[k].event;
      i := EarliestOfLabel(rows, j);
    }
  }

  /** Every entry of the diary is the label and date of the first row with
      that label. */
  lemma SleepEntryIsFirstRow(rows: seq<SleepRow>, k: nat) returns (i: nat)
    requires k < |GetSleepDiaryReports(rows)|
    ensures i < |rows| && FirstOfLabel(rows, i)
    ensures GetSleepDiaryReports(rows)[k] == (rows[i].event, rows[i].date)
  {
    var d := GetSleepDiaryReports(rows);
    assert d[k].0 in Keys(d) by { assert Keys(d)[k] == d[k].0; }
    var j :| 0 <= j < |rows| && rows[j].event == d[k].0;
    i := EarliestOfLabel(rows, j);
    GetEntry(d, k);
  }

  // ---------------------------------------------------------------------
  // Video recording
  // ---------------------------------------------------------------------

  /** `has_recorded_video_recording`: whether the query fetched any row. */
  function HasRecordedVideoRecording<R>(rows: seq<R>): (b: bool)
    ensures b <==> rows != []
  {
    |rows| > 0
  }

  // ---------------------------------------------------------------------
  // Games
  // ---------------------------------------------------------------------

  /** A fetched `(choice_time, scheduled_time)` row, both in milliseconds. */
  datatype GameRow = GameRow(choiceTime: nat, scheduledTime: nat)

  /** The pair stored per game: when it was played, and the delay after
      its scheduled time. */
  datatype GameResult = GameResult(playedAt: string, delay: string)

  type GamesPlayed = Dict<Session, seq<GameResult>>

  const GameKeys: seq<Session> := [Morning, Evening, NoSession]
  const EmptyGamesPlayed: GamesPlayed := [(Morning, []), (Evening, []), (NoSession, [])]

  /** Actual time made readable, and actual minus scheduled, both taken in
      whole seconds first. */
  function GameResultOf(row: GameRow, offset: UtcOffset): GameResult {
    var played := EpochSeconds(row.choiceTime);
    GameResult(ConvertTimestampToReadable(played, offset),
               GetTimeDiffOfTwoTimestamps(played, EpochSeconds(row.scheduledTime), offset))
  }

  /** The stored pair reads back as the local time the game was played and
      as the whole-second delay after its schedule; equal timestamps give
      the zero duration. */
  lemma GameResultMeaning(row: GameRow, offset: UtcOffset)
    ensures ParseReadable(GameResultOf(row, offset).playedAt) == Some(LocalSeconds(EpochSeconds(row.choiceTime), offset))
    ensures ParseTimedelta(GameResultOf(row, offset).delay) == Some(EpochSeconds(row.choiceTime) - EpochSeconds(row.scheduledTime))
    ensures EpochSeconds(row.choiceTime) == EpochSeconds(row.scheduledTime) ==> GameResultOf(row, offset).delay == "0:00:00"
  {
    var played := EpochSeconds(row.choiceTime);
    var scheduled := EpochSeconds(row.scheduledTime);
    ReadableRoundTrip(played, offset);
    TimeDiffDependsOnDifference(played, scheduled, played, scheduled, offset, offset);
  }

  /** The bucket a game goes to: only morning and evening are named, so an
      afternoon game counts as off schedule. */
  function GameBucket(row: GameRow, offset: UtcOffset): (s: Session)
    ensures s != Afternoon
    ensures s == Morning <==> 5 <= HourOf(EpochSeconds(row.choiceTime), offset) <= 11
    ensures s == Evening <==> 18 <= HourOf(EpochSeconds(row.choiceTime), offset) <= 23
  {
    var t := EpochSeconds(row.choiceTime);
    if IsMorningTimestamp(t, offset) then Morning
    else if IsEveningTimestamp(t, offset) then Evening
    else NoSession
  }

  /** The bucket and result of a row as functions of the row, for a fixed
      offset. */
  function BucketOf(offset: UtcOffset): GameRow -> Session {
    (row: GameRow) => GameBucket(row, offset)
  }

  function ResultOf(offset: UtcOffset): GameRow -> GameResult {
    (row: GameRow) => GameResultOf(row, offset)
  }

  function RoutedTo(offset: UtcOffset, s: Session): GameRow -> bool {
    HasKey(BucketOf(offset), s)
  }

  /** The loop of `get_games_play_report`: each row's result is appended
      to the list of its bucket. */
  function GamesFold(rows: seq<GameRow>, offset: UtcOffset): GamesPlayed {
    GroupInto(EmptyGamesPlayed, rows, BucketOf(offset), ResultOf(offset))
  }

  /** Reference: the results of the rows routed to bucket `s`, in fetch
      order. */
  function ResultsIn(rows: seq<GameRow>, s: Session, offset: UtcOffset): seq<GameResult> {
    FilterMap(rows, RoutedTo(offset, s), ResultOf(offset))
  }

  lemma GamesFoldKeys(rows: seq<GameRow>, offset: UtcOffset)
    ensures forall row :: BucketOf(offset)(row) in Keys(EmptyGamesPlayed)
    ensures Keys(GamesFold(rows, offset)) == GameKeys
  {
    assert Keys(EmptyGamesPlayed) == GameKeys;
    GroupIntoLists(EmptyGamesPlayed, rows, BucketOf(offset), ResultOf(offset));
  }

  lemma GamesFoldBucket(rows: seq<GameRow>, offset: UtcOffset, s: Session)
    requires s in GameKeys
    ensures ListAt(GamesFold(rows, offset), s) == ResultsIn(rows, s, offset)
  {
    GamesFoldKeys(rows, offset);
    GroupIntoLists(EmptyGamesPlayed, rows, BucketOf(offset), ResultOf(offset));
    assert ListAt(EmptyGamesPlayed, s) == [];
  }

  lemma GamesFoldBuckets(rows: seq<GameRow>, offset: UtcOffset)
    ensures Keys(GamesFold(rows, offset)) == GameKeys
    ensures forall s :: s in GameKeys ==> ListAt(GamesFold(rows, offset), s) == ResultsIn(rows, s, offset)
  {
    GamesFoldKeys(rows, offset);
    forall s | s in GameKeys
      ensures ListAt(GamesFold(rows, offset), s) == ResultsIn(rows, s, offset)
    {
      GamesFoldBucket(rows, offset, s);
    }
  }

  /** Every row lands in exactly one bucket. */
  lemma BucketsPartitionRows(rows: seq<GameRow>, offset: UtcOffset)
    ensures |ResultsIn(rows, Morning, offset)| + |ResultsIn(rows, Evening, offset)|
          + |ResultsIn(rows, NoSession, offset)| == |rows|
  {
    FilterMapPartition(rows, RoutedTo(offset, Morning), RoutedTo(offset, Evening), RoutedTo(offset, NoSession),
                       ResultOf(offset));
  }

  /** `get_games_play_report`: three buckets; each holds, in fetch order,
      the results of exactly the rows routed to it, with no cap on how
      many, and together they hold every row. */
  function GetGamesPlayReport(rows: seq<GameRow>, offset: UtcOffset): (g: GamesPlayed)
    ensures Keys(g) == GameKeys
    ensures forall s :: s in GameKeys ==> ListAt(g, s) == ResultsIn(rows, s, offset)
    ensures |ListAt(g, Morning)| + |ListAt(g, Evening)| + |ListAt(g, NoSession)| == |rows|
  {
    GamesFoldBuckets(rows, offset);
    BucketsPartitionRows(rows, offset);
    GamesFold(rows, offset)
  }
}
