/** `generate_analysis_text` of ParticipantsTracking.py: the daily report,
    assembled as a sequence of lines, each written with a trailing newline.
    The four summaries are taken as values; the UTC clock reading the title
    date comes from is a parameter. */
module Report {
  import opened Wrappers
  import opened Text
  import opened Calendar
  import opened Timedelta
  import opened TimesHelper
  import opened Dicts
  import opened Seqs
  import opened DataBaseData

  // ---------------------------------------------------------------------
  // Title
  // ---------------------------------------------------------------------

  function Title(date: string): string {
    "DAILY TRACKING ANALYSIS - " + date
  }

  /** `datetime.utcnow().date()`, or the day before it, as `YYYY-MM-DD`:
      the date it reads back as is the UTC day of `nowUtc`, less one for
      yesterday's report. */
  function TargetDate(nowUtc: nat, fromToday: bool): (s: string)
    ensures ParseIsoDate(s).Some? && ValidDate(ParseIsoDate(s).value)
    ensures DayNumber(ParseIsoDate(s).value) == nowUtc / 86400 - (if fromToday then 0 else 1)
    ensures ParseIsoDate(s).value.year >= EpochYear - 1
  {
    var d := FromDayNumber(nowUtc / 86400 - (if fromToday then 0 else 1));
    IsoDateRoundTrip(d);
    IsoDate(d)
  }

  // ---------------------------------------------------------------------
  // Mood section
  // ---------------------------------------------------------------------

  function CompletedMoodLine(s: Session, at: string): string {
    "Completed " + SessionName(s) + " mood report at " + at + "."
  }

  function MissingMoodLine(s: Session): string {
    "Has not completed " + SessionName(s) + " mood report."
  }

  function OffScheduleMoodLine(at: string): string {
    "Some session completed at " + at + ", but not in scheduled time."
  }

  /** The line, if any, written for one entry of the mood report. */
  function MoodLine(s: Session, data: string): seq<string> {
    if s == NoSession then
      if data != "" then [OffScheduleMoodLine(data)] else []
    else if data != "" then [CompletedMoodLine(s, data)]
    else [MissingMoodLine(s)]
  }

  function MoodEntryLines(entry: (Session, string)): seq<string> {
    MoodLine(entry.0, entry.1)
  }

  /** The entries of the mood report, in the dictionary's order. */
  function MoodLines(reports: MoodReports): seq<string> {
    FlatMap(reports, MoodEntryLines)
  }

  /** A report with the four keys is the four lookups in key order. */
  lemma MoodReportsAreLookups(r: MoodReports)
    requires Keys(r) == MoodKeys
    ensures r == [(Morning, MoodSlot(r, Morning)), (Afternoon, MoodSlot(r, Afternoon)),
                  (Evening, MoodSlot(r, Evening)), (NoSession, MoodSlot(r, NoSession))]
  {
    assert Keys(r)[0] == Morning && Keys(r)[1] == Afternoon && Keys(r)[2] == Evening && Keys(r)[3] == NoSession;
    assert DistinctKeys(r);
    GetEntry(r, 0);
    GetEntry(r, 1);
    GetEntry(r, 2);
    GetEntry(r, 3);
  }

  lemma MoodLinesOfFour(a: string, b: string, c: string, e: string)
    ensures MoodLines([(Morning, a), (Afternoon, b), (Evening, c), (NoSession, e)])
         == MoodLine(Morning, a) + MoodLine(Afternoon, b) + MoodLine(Evening, c) + MoodLine(NoSession, e)
  {
    FlatMapFour([(Morning, a), (Afternoon, b), (Evening, c), (NoSession, e)], MoodEntryLines);
  }

  /** Walking a report with the four keys in their order gives one line
      per named session and a line for the "no session" slot only when it
      is filled; every line is what a lookup of its key gives. */
  lemma MoodSection(r: MoodReports)
    requires Keys(r) == MoodKeys
    ensures |MoodLines(r)| == 3 + (if MoodSlot(r, NoSession) != "" then 1 else 0)
    ensures forall k :: 0 <= k < 3 ==> MoodLines(r)[k] == MoodLine(MoodKeys[k], MoodSlot(r, MoodKeys[k]))[0]
    ensures MoodSlot(r, NoSession) != "" ==> MoodLines(r)[3] == OffScheduleMoodLine(MoodSlot(r, NoSession))
  {
    MoodReportsAreLookups(r);
    var l0 := MoodLine(Morning, MoodSlot(r, Morning));
    var l1 := MoodLine(Afternoon, MoodSlot(r, Afternoon));
    var l2 := MoodLine(Evening, MoodSlot(r, Evening));
    var l3 := MoodLine(NoSession, MoodSlot(r, NoSession));
    MoodLinesOfFour(MoodSlot(r, Morning), MoodSlot(r, Afternoon), MoodSlot(r, Evening), MoodSlot(r, NoSession));
    var lines := MoodLines(r);
    assert lines == l0 + l1 + l2 + l3;
    assert |l0| == 1 && |l1| == 1 && |l2| == 1;
    assert lines[0] == l0[0] && lines[1] == l1[0] && lines[2] == l2[0];
    assert MoodKeys[0] == Morning && MoodKeys[1] == Afternoon && MoodKeys[2] == Evening;
    if MoodSlot(r, NoSession) != "" {
      assert lines[3] == l3[0];
    }
  }

  lemma CompletedIsNotMissing(s: Session, s': Session, at: string)
    ensures CompletedMoodLine(s, at) != MissingMoodLine(s')
  {
    assert CompletedMoodLine(s, at)[0] == 'C';
    assert MissingMoodLine(s')[0] == 'H';
  }

  /** The line of a named session says it was missed exactly when its slot
      is empty, and otherwise gives the slot's time. */
  lemma NamedMoodLine(r: MoodReports, k: nat)
    requires Keys(r) == MoodKeys && k < 3
    ensures k < |MoodLines(r)|
    ensures MoodLines(r)[k] == MissingMoodLine(MoodKeys[k]) <==> MoodSlot(r, MoodKeys[k]) == ""
    ensures MoodSlot(r, MoodKeys[k]) != "" ==> MoodLines(r)[k] == CompletedMoodLine(MoodKeys[k], MoodSlot(r, MoodKeys[k]))
  {
    MoodSection(r);
    CompletedIsNotMissing(MoodKeys[k], MoodKeys[k], MoodSlot(r, MoodKeys[k]));
  }

  /** The named-session line for any report that keeps the mood
      invariant over `answers`: a session is reported missed exactly when
      no answer falls in its window, and otherwise as completed at the time
      of the first answer in it. */
  lemma NamedMoodLineOfAnswers(answers: seq<Answer>, r: MoodReports, k: nat)
    requires Keys(r) == MoodKeys && NamedSlotsHoldFirstRows(answers, |answers|, r) && k < 3
    ensures k < |MoodLines(r)|
    ensures MoodLines(r)[k] == MissingMoodLine(MoodKeys[k]) <==>
              forall i :: 0 <= i < |answers| ==> answers[i].session != MoodKeys[k]
    ensures forall i :: (0 <= i < |answers| && answers[i].session == MoodKeys[k] && FirstOfSession(answers, i)) ==>
              MoodLines(r)[k] == CompletedMoodLine(MoodKeys[k], answers[i].shown)
  {
    var s := MoodKeys[k];
    assert s != NoSession;
    assert MoodSlot(r, s) == "" <==> forall i :: 0 <= i < |answers| ==> answers[i].session != s;
    NamedMoodLine(r, k);
  }

  /** The "no session" line for any report that keeps the mood invariant
      over `answers`: it appears exactly when some answer is off schedule,
      and gives the time of the last such answer. */
  lemma OffScheduleMoodLineOfAnswers(answers: seq<Answer>, r: MoodReports)
    requires Keys(r) == MoodKeys && NoSessionSlotHoldsLastOffSchedule(answers, |answers|, r)
    ensures 3 <= |MoodLines(r)| <= 4
    ensures |MoodLines(r)| == 4 <==> exists i :: 0 <= i < |answers| && OffSchedule(answers, i)
    ensures forall i :: (0 <= i < |answers| && OffSchedule(answers, i)
                         && forall j :: i < j < |answers| ==> !OffSchedule(answers, j)) ==>
              |MoodLines(r)| == 4 && MoodLines(r)[3] == OffScheduleMoodLine(answers[i].shown)
  {
    MoodSection(r);
  }

  /** The mood section of `generate_analysis_text`, stated on the fetched
      answer times through the invariant `get_mood_reports` establishes. */
  lemma MoodReportLines(answerTimesMs: seq<nat>, offset: UtcOffset, k: nat)
    requires k < 3
    ensures var lines := MoodLines(GetMoodReports(answerTimesMs, offset));
            var answers := AnswersOf(ToSeconds(answerTimesMs), offset);
            && 3 <= |lines| <= 4
            && (lines[k] == MissingMoodLine(MoodKeys[k]) <==>
                  forall i :: 0 <= i < |answers| ==> answers[i].session != MoodKeys[k])
            && (|lines| == 4 <==> exists i :: 0 <= i < |answers| && OffSchedule(answers, i))
  {
    var answers := AnswersOf(ToSeconds(answerTimesMs), offset);
    var r := GetMoodReports(answerTimesMs, offset);
    NamedMoodLineOfAnswers(answers, r, k);
    OffScheduleMoodLineOfAnswers(answers, r);
  }

  // ---------------------------------------------------------------------
  // Sleep section
  // ---------------------------------------------------------------------

  const NoSleepLine: string := "No sleeping data added."

  function SleepLine(event: string, date: string): string {
    event + " at " + date + "."
  }

  /** One line per diary entry in the dictionary's order, or a single line
      saying there is none. */
  function SleepLines(diary: SleepDiary): seq<string> {
    if |diary| == 0 then [NoSleepLine]
    else seq(|diary|, i requires 0 <= i < |diary| => SleepLine(diary[i].0, diary[i].1))
  }

  /** The "no data" line is written exactly when no sleep row was
      fetched; otherwise there is one line per distinct event. */
  lemma SleepReportEmpty(rows: seq<SleepRow>)
    ensures |rows| == 0 <==> SleepLines(GetSleepDiaryReports(rows)) == [NoSleepLine]
    ensures |rows| > 0 ==> |SleepLines(GetSleepDiaryReports(rows))| == |GetSleepDiaryReports(rows)|
  {
    var d := GetSleepDiaryReports(rows);
    if |rows| > 0 {
      SleepLineIsNotNoSleepLine(d[0].0, d[0].1);
      assert SleepLines(d)[0] == SleepLine(d[0].0, d[0].1);
    }
  }

  /** The diary lines, stated on the fetched rows: in order of first
      appearance, each event with the date of its first row. */
  lemma SleepReportEntries(rows: seq<SleepRow>, i: nat)
    requires i < |rows| && FirstOfLabel(rows, i)
    ensures var d := GetSleepDiaryReports(rows);
            && Position(Keys(d), rows[i].event) < |SleepLines(d)|
            && SleepLines(d)[Position(Keys(d), rows[i].event)] == SleepLine(rows[i].event, rows[i].date)
  {
    var d := GetSleepDiaryReports(rows);
    var p := Position(Keys(d), rows[i].event);
    assert Keys(d)[p] == d[p].0;
    GetEntry(d, p);
  }

  /** A diary line always has " at " after its event, which the "no data"
      line never does, so the two can never be confused. */
  lemma SleepLineIsNotNoSleepLine(event: string, date: string)
    ensures SleepLine(event, date) != NoSleepLine
  {
    var line := SleepLine(event, date);
    var n := |event|;
    assert line[n] == ' ' && line[n + 1] == 'a' && line[n + 2] == 't';
  }

  // ---------------------------------------------------------------------
  // Video section
  // ---------------------------------------------------------------------

  function VideoLine(recorded: bool): string {
    if recorded then "Has completed a video recording." else "Has not completed a video recording."
  }

  // ---------------------------------------------------------------------
  // Games section
  // ---------------------------------------------------------------------

  function GameSentence(head: string, g: GameResult): string {
    head + g.playedAt + " with delay of " + g.delay + "."
  }

  function LateGameLine(g: GameResult): string {
    GameSentence("Has completed a game but not in time, at ", g)
  }

  function FirstGameLine(s: Session, g: GameResult): string {
    GameSentence("Has completed " + SessionName(s) + " game at ", g)
  }

  function SecondGameLine(s: Session, g: GameResult): string {
    GameSentence("Has completed another " + SessionName(s) + " game at ", g)
  }

  function MissingSecondGameLine(s: Session): string {
    "Has not completed the second game of the " + SessionName(s) + "."
  }

  function NoGamesLine(s: Session): string {
    "No games of the " + SessionName(s) + " have been completed."
  }

  /** The lines written for one bucket of the games report. */
  function GameLines(s: Session, data: seq<GameResult>): seq<string> {
    if s == NoSession then seq(|data|, i requires 0 <= i < |data| => LateGameLine(data[i]))
    else if |data| >= 1 then
      [FirstGameLine(s, data[0])]
      + (if |data| == 2 then [SecondGameLine(s, data[1])] else [MissingSecondGameLine(s)])
    else [NoGamesLine(s)]
  }

  function GameEntryLines(entry: (Session, seq<GameResult>)): seq<string> {
    GameLines(entry.0, entry.1)
  }

  /** The buckets of the games report, in the dictionary's order. */
  function GamesLines(games: GamesPlayed): seq<string> {
    FlatMap(games, GameEntryLines)
  }

  /** Per bucket: every off-schedule game has its own line; a named bucket
      has one line when empty and two otherwise, the second naming the
      other game exactly when there are two and reporting a missing second
      game otherwise, for one game and for three or more alike. */
  lemma GameLinesShape(s: Session, data: seq<GameResult>)
    ensures s == NoSession ==> |GameLines(s, data)| == |data|
    ensures s == NoSession ==> forall i :: 0 <= i < |data| ==> GameLines(s, data)[i] == LateGameLine(data[i])
    ensures s != NoSession ==> |GameLines(s, data)| == if |data| == 0 then 1 else 2
    ensures s != NoSession && |data| == 0 ==> GameLines(s, data) == [NoGamesLine(s)]
    ensures s != NoSession && |data| >= 1 ==> GameLines(s, data)[0] == FirstGameLine(s, data[0])
    ensures s != NoSession && |data| == 2 ==> GameLines(s, data)[1] == SecondGameLine(s, data[1])
    ensures s != NoSession && |data| >= 1 && |data| != 2 ==> GameLines(s, data)[1] == MissingSecondGameLine(s)
  {
  }

  /** Walking a games report with its three keys in order gives the lines
      of the morning, evening and off-schedule buckets, one after another. */
  lemma GamesSection(g: GamesPlayed)
    requires Keys(g) == GameKeys
    ensures GamesLines(g) == GameLines(Morning, ListAt(g, Morning)) + GameLines(Evening, ListAt(g, Evening))
                             + GameLines(NoSession, ListAt(g, NoSession))
  {
    assert Keys(g)[0] == Morning && Keys(g)[1] == Evening && Keys(g)[2] == NoSession;
    assert DistinctKeys(g);
    GetEntry(g, 0);
    GetEntry(g, 1);
    GetEntry(g, 2);
    FlatMapThree(g, GameEntryLines);
  }

  /** The games section, stated on the fetched rows: the morning lines, the
      evening lines and then one line per off-schedule game, each bucket's
      games in fetch order. */
  lemma GamesReportLines(rows: seq<GameRow>, offset: UtcOffset)
    ensures GamesLines(GetGamesPlayReport(rows, offset))
         == GameLines(Morning, ResultsIn(rows, Morning, offset)) + GameLines(Evening, ResultsIn(rows, Evening, offset))
            + GameLines(NoSession, ResultsIn(rows, NoSession, offset))
    ensures |GamesLines(GetGamesPlayReport(rows, offset))|
         == (if |ResultsIn(rows, Morning, offset)| == 0 then 1 else 2)
            + (if |ResultsIn(rows, Evening, offset)| == 0 then 1 else 2)
            + |ResultsIn(rows, NoSession, offset)|
  {
    var g := GetGamesPlayReport(rows, offset);
    GamesSection(g);
    GameLinesShape(Morning, ResultsIn(rows, Morning, offset));
    GameLinesShape(Evening, ResultsIn(rows, Evening, offset));
    GameLinesShape(NoSession, ResultsIn(rows, NoSession, offset));
  }

  // ---------------------------------------------------------------------
  // The whole report
  // ---------------------------------------------------------------------

  /** Title and a blank line, then the mood, sleep, video and games
      sections, each pair separated by one blank line. */
  function AnalysisLines(date: string, mood: MoodReports, sleep: SleepDiary, video: bool, games: GamesPlayed): seq<string> {
    [Title(date), ""] + MoodLines(mood) + [""] + SleepLines(sleep) + [""] + [VideoLine(video)] + [""] + GamesLines(games)
  }

  /** The report's text: every line followed by a newline, the title
      first. */
  function ReportText(date: string, mood: MoodReports, sleep: SleepDiary, video: bool, games: GamesPlayed): (txt: string)
    ensures |txt| > |Title(date)| && txt[..|Title(date)|] == Title(date)
    ensures txt[|txt| - 1] == '\n'
  {
    var lines := AnalysisLines(date, mood, sleep, video, games);
    UnlinesFrame(lines);
    Unlines(lines)
  }

  /** `generate_analysis_text` on the rows its queries fetched. What the
      text holds is stated by `GeneratedTextReadsBack` below. */
  function GenerateAnalysisText(nowUtc: nat, fromToday: bool, offset: UtcOffset, moodTimesMs: seq<nat>,
                                sleepRows: seq<SleepRow>, videoRows: seq<nat>, gameRows: seq<GameRow>): string
  {
    ReportText(TargetDate(nowUtc, fromToday), GetMoodReports(moodTimesMs, offset), GetSleepDiaryReports(sleepRows),
               HasRecordedVideoRecording(videoRows), GetGamesPlayReport(gameRows, offset))
  }

  // ---------------------------------------------------------------------
  // Reading the report back
  // ---------------------------------------------------------------------

  predicate MoodValuesArePlain(r: MoodReports) {
    forall k :: 0 <= k < |r| ==> NoNewline(r[k].1)
  }

  predicate SleepEntriesArePlain(d: SleepDiary) {
    forall k :: 0 <= k < |d| ==> NoNewline(d[k].0) && NoNewline(d[k].1)
  }

  predicate GameResultsArePlain(g: GamesPlayed) {
    forall k, j :: 0 <= k < |g| && 0 <= j < |g[k].1| ==> NoNewline(g[k].1[j].playedAt) && NoNewline(g[k].1[j].delay)
  }

  lemma SessionNameIsPlain(s: Session)
    ensures NoNewline(SessionName(s))
  {
  }

  lemma CompletedMoodLineIsPlain(s: Session, at: string)
    requires NoNewline(at)
    ensures NoNewline(CompletedMoodLine(s, at))
  {
    var name := SessionName(s);
    SessionNameIsPlain(s);
    var a, b := "Completed ", " mood report at ";
    assert NoNewline(a) && NoNewline(b) && NoNewline(".");
    NoNewlineAppend(a, name);
    NoNewlineAppend(a + name, b);
    NoNewlineAppend(a + name + b, at);
    NoNewlineAppend(a + name + b + at, ".");
  }

  lemma MissingMoodLineIsPlain(s: Session)
    ensures NoNewline(MissingMoodLine(s))
  {
    var name := SessionName(s);
    SessionNameIsPlain(s);
    var a, b := "Has not completed ", " mood report.";
    assert NoNewline(a) && NoNewline(b);
    NoNewlineAppend(a, name);
    NoNewlineAppend(a + name, b);
  }

  lemma OffScheduleMoodLineIsPlain(at: string)
    requires NoNewline(at)
    ensures NoNewline(OffScheduleMoodLine(at))
  {
    var a, b := "Some session completed at ", ", but not in scheduled time.";
    assert NoNewline(a) && NoNewline(b);
    NoNewlineAppend(a, at);
    NoNewlineAppend(a + at, b);
  }

  lemma MoodLineIsPlain(s: Session, data: string)
    requires NoNewline(data)
    ensures forall j :: 0 <= j < |MoodLine(s, data)| ==> NoNewline(MoodLine(s, data)[j])
  {
    if s == NoSession {
      OffScheduleMoodLineIsPlain(data);
    } else if data != "" {
      CompletedMoodLineIsPlain(s, data);
    } else {
      MissingMoodLineIsPlain(s);
    }
  }

  lemma MoodLinesArePlain(r: MoodReports)
    requires MoodValuesArePlain(r)
    ensures forall j :: 0 <= j < |MoodLines(r)| ==> NoNewline(MoodLines(r)[j])
  {
    forall i | 0 <= i < |r|
      ensures forall j :: 0 <= j < |MoodEntryLines(r[i])| ==> NoNewline(MoodEntryLines(r[i])[j])
    {
      MoodLineIsPlain(r[i].0, r[i].1);
    }
    FlatMapAll(r, MoodEntryLines, NoNewline);
  }

  lemma GameSentenceIsPlain(head: string, g: GameResult)
    requires NoNewline(head) && NoNewline(g.playedAt) && NoNewline(g.delay)
    ensures NoNewline(GameSentence(head, g))
  {
    var a := " with delay of ";
    assert NoNewline(a) && NoNewline(".");
    NoNewlineAppend(head, g.playedAt);
    NoNewlineAppend(head + g.playedAt, a);
    NoNewlineAppend(head + g.playedAt + a, g.delay);
    NoNewlineAppend(head + g.playedAt + a + g.delay, ".");
  }

  lemma LateGameHeadIsPlain()
    ensures NoNewline("Has completed a game but not in time, at ")
  {
  }

  lemma GameHeadsArePlain(s: Session)
    ensures NoNewline("Has completed " + SessionName(s) + " game at ")
    ensures NoNewline("Has completed another " + SessionName(s) + " game at ")
  {
    var name := SessionName(s);
    SessionNameIsPlain(s);
    var done, another, game := "Has completed ", "Has completed another ", " game at ";
    assert NoNewline(done) && NoNewline(another) && NoNewline(game);
    NoNewlineAppend(done, name);
    NoNewlineAppend(done + name, game);
    NoNewlineAppend(another, name);
    NoNewlineAppend(another + name, game);
  }

  lemma MissingSecondGameLineIsPlain(s: Session)
    ensures NoNewline(MissingSecondGameLine(s))
  {
    var name := SessionName(s);
    SessionNameIsPlain(s);
    var second := "Has not completed the second game of the ";
    assert NoNewline(second) && NoNewline(".");
    NoNewlineAppend(second, name);
    NoNewlineAppend(second + name, ".");
  }

  lemma NoGamesLineIsPlain(s: Session)
    ensures NoNewline(NoGamesLine(s))
  {
    var name := SessionName(s);
    SessionNameIsPlain(s);
    var none, completed := "No games of the ", " have been completed.";
    assert NoNewline(none) && NoNewline(completed);
    NoNewlineAppend(none, name);
    NoNewlineAppend(none + name, completed);
  }

  lemma GameLinesArePlain(s: Session, data: seq<GameResult>)
    requires forall m :: 0 <= m < |data| ==> NoNewline(data[m].playedAt) && NoNewline(data[m].delay)
    ensures forall j :: 0 <= j < |GameLines(s, data)| ==> NoNewline(GameLines(s, data)[j])
  {
    LateGameHeadIsPlain();
    GameHeadsArePlain(s);
    MissingSecondGameLineIsPlain(s);
    NoGamesLineIsPlain(s);
    forall m | 0 <= m < |data|
      ensures NoNewline(LateGameLine(data[m])) && NoNewline(FirstGameLine(s, data[m]))
      ensures NoNewline(SecondGameLine(s, data[m]))
    {
      GameSentenceIsPlain("Has completed a game but not in time, at ", data[m]);
      GameSentenceIsPlain("Has completed " + SessionName(s) + " game at ", data[m]);
      GameSentenceIsPlain("Has completed another " + SessionName(s) + " game at ", data[m]);
    }
  }

  lemma GamesLinesArePlain(g: GamesPlayed)
    requires GameResultsArePlain(g)
    ensures forall j :: 0 <= j < |GamesLines(g)| ==> NoNewline(GamesLines(g)[j])
  {
    forall i | 0 <= i < |g|
      ensures forall j :: 0 <= j < |GameEntryLines(g[i])| ==> NoNewline(GameEntryLines(g[i])[j])
    {
      GameLinesArePlain(g[i].0, g[i].1);
    }
    FlatMapAll(g, GameEntryLines, NoNewline);
  }

  lemma SleepLinesArePlain(d: SleepDiary)
    requires SleepEntriesArePlain(d)
    ensures forall j :: 0 <= j < |SleepLines(d)| ==> NoNewline(SleepLines(d)[j])
  {
    assert NoNewline(NoSleepLine) && NoNewline(" at ") && NoNewline(".");
    forall k | 0 <= k < |d|
      ensures NoNewline(SleepLine(d[k].0, d[k].1))
    {
      NoNewlineAppend(d[k].0, " at ");
      NoNewlineAppend(d[k].0 + " at ", d[k].1);
      NoNewlineAppend(d[k].0 + " at " + d[k].1, ".");
    }
  }

  lemma TitleIsPlain(date: string)
    requires NoNewline(date)
    ensures NoNewline(Title(date))
  {
    assert NoNewline("DAILY TRACKING ANALYSIS - ");
    NoNewlineAppend("DAILY TRACKING ANALYSIS - ", date);
  }

  lemma VideoLineIsPlain(video: bool)
    ensures NoNewline(VideoLine(video))
  {
    if video {
      assert NoNewline("Has completed a video recording.");
    } else {
      assert NoNewline("Has not completed a video recording.");
    }
  }

  /** When the date and every value the summaries hold are single lines,
      so is every line of the report. */
  lemma AnalysisLinesArePlain(date: string, mood: MoodReports, sleep: SleepDiary, video: bool, games: GamesPlayed)
    requires NoNewline(date) && MoodValuesArePlain(mood) && SleepEntriesArePlain(sleep) && GameResultsArePlain(games)
    ensures AllPlain(AnalysisLines(date, mood, sleep, video, games))
  {
    MoodLinesArePlain(mood);
    GamesLinesArePlain(games);
    SleepLinesArePlain(sleep);
    TitleIsPlain(date);
    VideoLineIsPlain(video);
    assert NoNewline("");
    var blank: seq<string> := [""];
    var q0: seq<string> := [Title(date), ""];
    var q1 := q0 + MoodLines(mood);
    var q2 := q1 + blank;
    var q3 := q2 + SleepLines(sleep);
    var q4 := q3 + blank;
    var q5 := q4 + [VideoLine(video)];
    var q6 := q5 + blank;
    assert AllPlain(q0) && AllPlain(blank) && AllPlain([VideoLine(video)]);
    AllPlainAppend(q0, MoodLines(mood));
    AllPlainAppend(q1, blank);
    AllPlainAppend(q2, SleepLines(sleep));
    AllPlainAppend(q3, blank);
    AllPlainAppend(q4, [VideoLine(video)]);
    AllPlainAppend(q5, blank);
    AllPlainAppend(q6, GamesLines(games));
  }

  /** A report built from single-line values reads back, line by line, as
      exactly the lines it was built from. */
  lemma ReportTextReadsBack(date: string, mood: MoodReports, sleep: SleepDiary, video: bool, games: GamesPlayed)
    requires NoNewline(date) && MoodValuesArePlain(mood) && SleepEntriesArePlain(sleep) && GameResultsArePlain(games)
    ensures SplitLines(ReportText(date, mood, sleep, video, games)) == AnalysisLines(date, mood, sleep, video, games)
  {
    AnalysisLinesArePlain(date, mood, sleep, video, games);
    SplitUnlines(AnalysisLines(date, mood, sleep, video, games));
  }

  lemma TargetDateIsPlain(nowUtc: nat, fromToday: bool)
    ensures NoNewline(TargetDate(nowUtc, fromToday))
  {
    IsoDateHasNoNewline(FromDayNumber(nowUtc / 86400 - (if fromToday then 0 else 1)));
  }

  lemma ReadableIsPlain(t: nat, offset: UtcOffset)
    ensures NoNewline(ConvertTimestampToReadable(t, offset))
  {
    ShapeHasNoNewline(ConvertTimestampToReadable(t, offset));
  }

  /** A report whose every looked-up slot is a single line has only
      single-line values. */
  lemma MoodSlotsArePlain(r: MoodReports)
    requires Keys(r) == MoodKeys
    requires forall s :: NoNewline(MoodSlot(r, s))
    ensures MoodValuesArePlain(r)
  {
    assert Keys(r)[0] == Morning && Keys(r)[1] == Afternoon && Keys(r)[2] == Evening && Keys(r)[3] == NoSession;
    assert DistinctKeys(r);
    forall k | 0 <= k < |r|
      ensures NoNewline(r[k].1)
    {
      GetEntry(r, k);
      assert MoodSlot(r, r[k].0) == r[k].1;
    }
  }

  lemma MoodSlotIsPlain(answerTimesMs: seq<nat>, offset: UtcOffset, s: Session)
    ensures NoNewline(MoodSlot(GetMoodReports(answerTimesMs, offset), s))
  {
    if MoodSlot(GetMoodReports(answerTimesMs, offset), s) != "" {
      var i := MoodSlotIsShown(answerTimesMs, offset, s);
      ReadableIsPlain(ToSeconds(answerTimesMs)[i], offset);
    }
  }

  lemma MoodReportIsPlain(answerTimesMs: seq<nat>, offset: UtcOffset)
    ensures MoodValuesArePlain(GetMoodReports(answerTimesMs, offset))
  {
    forall s | true
      ensures NoNewline(MoodSlot(GetMoodReports(answerTimesMs, offset), s))
    {
      MoodSlotIsPlain(answerTimesMs, offset, s);
    }
    MoodSlotsArePlain(GetMoodReports(answerTimesMs, offset));
  }

  lemma SleepDiaryIsPlain(rows: seq<SleepRow>)
    requires forall i :: 0 <= i < |rows| ==> NoNewline(rows[i].event) && NoNewline(rows[i].date)
    ensures SleepEntriesArePlain(GetSleepDiaryReports(rows))
  {
    var d := GetSleepDiaryReports(rows);
    forall k | 0 <= k < |d|
      ensures NoNewline(d[k].0) && NoNewline(d[k].1)
    {
      var i := SleepEntryIsFirstRow(rows, k);
    }
  }

  lemma GameResultIsPlain(row: GameRow, offset: UtcOffset)
    ensures NoNewline(GameResultOf(row, offset).playedAt) && NoNewline(GameResultOf(row, offset).delay)
  {
    var played := EpochSeconds(row.choiceTime);
    ReadableIsPlain(played, offset);
    TimedeltaHasNoNewline(LocalSeconds(played, offset) - LocalSeconds(EpochSeconds(row.scheduledTime), offset));
  }

  lemma ResultsInArePlain(rows: seq<GameRow>, s: Session, offset: UtcOffset)
    ensures forall j :: 0 <= j < |ResultsIn(rows, s, offset)| ==>
              NoNewline(ResultsIn(rows, s, offset)[j].playedAt) && NoNewline(ResultsIn(rows, s, offset)[j].delay)
  {
    forall j | 0 <= j < |ResultsIn(rows, s, offset)|
      ensures NoNewline(ResultsIn(rows, s, offset)[j].playedAt) && NoNewline(ResultsIn(rows, s, offset)[j].delay)
    {
      var i := FilterMapElements(rows, RoutedTo(offset, s), ResultOf(offset), j);
      GameResultIsPlain(rows[i], offset);
    }
  }

  /** A games report whose lists are the selections of the rows holds
      only single-line values. */
  lemma GameListsArePlain(g: GamesPlayed, rows: seq<GameRow>, offset: UtcOffset)
    requires Keys(g) == GameKeys
    requires forall s :: s in GameKeys ==> ListAt(g, s) == ResultsIn(rows, s, offset)
    ensures GameResultsArePlain(g)
  {
    assert Keys(g)[0] == Morning && Keys(g)[1] == Evening && Keys(g)[2] == NoSession;
    assert DistinctKeys(g);
    forall k | 0 <= k < |g|
      ensures forall j :: 0 <= j < |g[k].1| ==> NoNewline(g[k].1[j].playedAt) && NoNewline(g[k].1[j].delay)
    {
      GetEntry(g, k);
      assert g[k].0 in GameKeys;
      ResultsInArePlain(rows, g[k].0, offset);
    }
  }

  lemma GamesReportIsPlain(rows: seq<GameRow>, offset: UtcOffset)
    ensures GameResultsArePlain(GetGamesPlayReport(rows, offset))
  {
    GameListsArePlain(GetGamesPlayReport(rows, offset), rows, offset);
  }

  /** The text `generate_analysis_text` writes reads back, line by line, as
      the report's lines, provided the sleep rows' events and dates are
      single lines (every other value in it is generated). */
  lemma GeneratedTextReadsBack(nowUtc: nat, fromToday: bool, offset: UtcOffset, moodTimesMs: seq<nat>,
                               sleepRows: seq<SleepRow>, videoRows: seq<nat>, gameRows: seq<GameRow>)
    requires forall i :: 0 <= i < |sleepRows| ==> NoNewline(sleepRows[i].event) && NoNewline(sleepRows[i].date)
    ensures SplitLines(GenerateAnalysisText(nowUtc, fromToday, offset, moodTimesMs, sleepRows, videoRows, gameRows))
         == AnalysisLines(TargetDate(nowUtc, fromToday), GetMoodReports(moodTimesMs, offset), GetSleepDiaryReports(sleepRows),
                          HasRecordedVideoRecording(videoRows), GetGamesPlayReport(gameRows, offset))
  {
    TargetDateIsPlain(nowUtc, fromToday);
    MoodReportIsPlain(moodTimesMs, offset);
    SleepDiaryIsPlain(sleepRows);
    GamesReportIsPlain(gameRows, offset);
    ReportTextReadsBack(TargetDate(nowUtc, fromToday), GetMoodReports(moodTimesMs, offset), GetSleepDiaryReports(sleepRows),
                        HasRecordedVideoRecording(videoRows), GetGamesPlayReport(gameRows, offset));
  }
}
