/** The session documents of models/GameSession.js: their defaults, the
    duration derived from the start and end times, the hook that fills the
    duration in before a save, and the per-game-type statistics over a
    user's completed sessions. */
module GameSessionModel {
  import opened Common
  import opened Ordering
  import opened LeaderboardModel

  datatype Status = Active | Completed | Abandoned

  function StatusName(s: Status): string {
    match s
    case Active => "active"
    case Completed => "completed"
    case Abandoned => "abandoned"
  }

  /** The schema's enum check on status. */
  function ParseStatus(s: string): (r: Option<Status>)
    ensures r.Some? ==> StatusName(r.value) == s
  {
    if s == "active" then Some(Active)
    else if s == "completed" then Some(Completed)
    else if s == "abandoned" then Some(Abandoned)
    else None
  }

  lemma StatusRoundTrip(s: Status)
    ensures ParseStatus(StatusName(s)) == Some(s)
  {
  }

  /** One session document.  Times are milliseconds since the epoch; a
      Date is always truthy, so a time is either absent or set.  The
      duration is in seconds and may be null.  gameData, deviceInfo and
      location are not modelled. */
  datatype Session = Session(
    userId: string,
    gameType: GameType,
    startTime: Option<int>,
    endTime: Option<int>,
    duration: Option<int>,
    score: int,
    status: Status)

  /** Math.floor(ms / 1000); Dafny's division rounds down for a positive
      divisor, negative differences included. */
  function Seconds(ms: int): int { ms / 1000 }

  /** The calculatedDuration virtual: whole seconds between start and end
      when both are set, null otherwise. */
  function CalculatedDuration(s: Session): (r: Option<int>)
    ensures r.Some? <==> s.startTime.Some? && s.endTime.Some?
  {
    if s.startTime.Some? && s.endTime.Some? then Some(Seconds(s.endTime.value - s.startTime.value))
    else None
  }

  /** The derived duration is the floor of the elapsed time in seconds:
      the largest whole number of seconds not exceeding it.  It is never
      negative when the session ends no earlier than it starts. */
  lemma CalculatedDurationIsFloor(s: Session)
    requires s.startTime.Some? && s.endTime.Some?
    ensures var d := CalculatedDuration(s).value; var ms := s.endTime.value - s.startTime.value;
      && d * 1000 <= ms < d * 1000 + 1000
      && (ms >= 0 ==> d >= 0)
      && (ms < 0 ==> d < 0)
  {
  }

  /** The pre-save hook: with both times set and a duration that is null
      or 0, the duration becomes the derived one; otherwise nothing
      changes. */
  function Hooked(s: Session): (r: Session)
    ensures r == s.(duration := r.duration)
  {
    if s.startTime.Some? && s.endTime.Some? && (s.duration.None? || s.duration.value == 0) then
      s.(duration := CalculatedDuration(s))
    else s
  }

  /** The hook never overwrites a non-zero duration; a null or zero one is
      replaced by the derived duration exactly when both times are set, and
      the result is not negative when the session ends no earlier than it
      starts. */
  lemma HookedSpec(s: Session)
    ensures s.duration.Some? && s.duration.value != 0 ==> Hooked(s) == s
    ensures s.duration.None? || s.duration.value == 0 ==>
      Hooked(s).duration == if CalculatedDuration(s).Some? then CalculatedDuration(s) else s.duration
    ensures s.startTime.Some? && s.endTime.Some? && s.endTime.value >= s.startTime.value ==>
      Hooked(s).duration.Some? && ((s.duration.Some? && s.duration.value != 0) || Hooked(s).duration.value >= 0)
  {
  }

  /** Saving twice is the same as saving once: a second run of the hook
      either finds a non-zero duration or derives the same one again. */
  lemma HookedIdempotent(s: Session)
    ensures Hooked(Hooked(s)) == Hooked(s)
  {
  }

  /** A document in memory, saved through the pre-save hook. */
  class SessionDocument {
    var session: Session

    /** A new document: game type race, started now, not ended, no
        duration, score 0, status active. */
    constructor (userId: string, now: int)
      ensures session == Session(userId, Race, Some(now), None, None, 0, Active)
    {
      session := Session(userId, Race, Some(now), None, None, 0, Active);
    }

    /** Runs the hook on the document: only the duration may change. */
    method PreSave()
      modifies this
      ensures session == Hooked(old(session))
      ensures old(session).startTime.Some? && old(session).endTime.Some? ==> session.duration.Some?
      ensures old(session).duration.Some? && old(session).duration.value != 0 ==> session == old(session)
    {
      if session.startTime.Some? && session.endTime.Some? && (session.duration.None? || session.duration.value == 0) {
        session := session.(duration := Some(Seconds(session.endTime.value - session.startTime.value)));
      }
    }
  }

  // ---------------------------------------------------------------------
  // getUserStats

  /** The figures of one $group: count, sum of scores, sum of durations
      (null counts as nothing) and highest score. */
  datatype TypeStats = TypeStats(totalSessions: nat, totalScore: int, totalDuration: int, bestScore: int)

  function DurationOrNothing(s: Session): int { if s.duration.Some? then s.duration.value else 0 }

  function AddToStats(m: map<GameType, TypeStats>, s: Session): map<GameType, TypeStats> {
    if s.gameType in m then
      var g := m[s.gameType];
      m[s.gameType := TypeStats(g.totalSessions + 1, g.totalScore + s.score,
                                g.totalDuration + DurationOrNothing(s),
                                if s.score > g.bestScore then s.score else g.bestScore)]
    else
      m[s.gameType := TypeStats(1, s.score, DurationOrNothing(s), s.score)]
  }

  function GroupStats(ss: seq<Session>): map<GameType, TypeStats> {
    if ss == [] then map[] else AddToStats(GroupStats(ss[..|ss| - 1]), ss[|ss| - 1])
  }

  function CompletedBy(userId: string): Session -> bool {
    (s: Session) => s.userId == userId && s.status == Completed
  }

  /** $match on the user and the completed status, then $group by game
      type. */
  function UserStats(sessions: seq<Session>, userId: string): map<GameType, TypeStats> {
    GroupStats(Filter(sessions, CompletedBy(userId)))
  }

  function SessionOfType(t: GameType): Session -> bool {
    (s: Session) => s.gameType == t
  }

  /** The sum of the scores of the sessions of one type. */
  function ScoreOfType(ss: seq<Session>, t: GameType): int {
    if ss == [] then 0
    else ScoreOfType(ss[..|ss| - 1], t) + (if ss[|ss| - 1].gameType == t then ss[|ss| - 1].score else 0)
  }

  /** The sum of the durations of the sessions of one type. */
  function DurationOfType(ss: seq<Session>, t: GameType): int {
    if ss == [] then 0
    else DurationOfType(ss[..|ss| - 1], t) + (if ss[|ss| - 1].gameType == t then DurationOrNothing(ss[|ss| - 1]) else 0)
  }

  ghost predicate StatsSummarise(ss: seq<Session>, t: GameType, g: TypeStats) {
    && g.totalSessions == Count(ss, SessionOfType(t))
    && g.totalScore == ScoreOfType(ss, t)
    && g.totalDuration == DurationOfType(ss, t)
    && (exists s :: s in ss && s.gameType == t && s.score == g.bestScore)
    && (forall s :: s in ss && s.gameType == t ==> s.score <= g.bestScore)
  }

  /** Each group holds the count, the sums and the highest score of
      exactly the sessions of its game type. */
  lemma {:induction false} GroupStatsSpec(ss: seq<Session>, t: GameType)
    ensures t in GroupStats(ss) <==> exists s :: s in ss && s.gameType == t
    ensures t in GroupStats(ss) ==> StatsSummarise(ss, t, GroupStats(ss)[t])
  {
    if ss != [] {
      var init := ss[..|ss| - 1];
      GroupStatsSpec(init, t);
      assert ss == init + [ss[|ss| - 1]];
      GroupStep(init, ss[|ss| - 1], t);
    }
  }

  /** One more session keeps the groups summarising their sessions. */
  lemma GroupStep(init: seq<Session>, last: Session, t: GameType)
    requires t in GroupStats(init) <==> exists s :: s in init && s.gameType == t
    requires t in GroupStats(init) ==> StatsSummarise(init, t, GroupStats(init)[t])
    ensures t in GroupStats(init + [last]) <==> exists s :: s in init + [last] && s.gameType == t
    ensures t in GroupStats(init + [last]) ==> StatsSummarise(init + [last], t, GroupStats(init + [last])[t])
  {
    var ss := init + [last];
    SumsStep(init, last, t);
    var m := GroupStats(init);
    if last.gameType != t {
      if t in m {
        SummaryKept(init, last, t, m[t]);
      }
    } else if t in m {
      SummaryGrows(init, last, t, m[t]);
    } else {
      SummaryStarts(init, last, t);
    }
  }

  /** A session of another type leaves a group's summary as it is. */
  lemma SummaryKept(init: seq<Session>, last: Session, t: GameType, g: TypeStats)
    requires last.gameType != t && StatsSummarise(init, t, g)
    ensures StatsSummarise(init + [last], t, g)
  {
    SumsStep(init, last, t);
    assert forall s :: s in init + [last] <==> s in init || s == last;
  }

  /** A session of the group's type is added into its figures. */
  lemma SummaryGrows(init: seq<Session>, last: Session, t: GameType, g: TypeStats)
    requires last.gameType == t && StatsSummarise(init, t, g)
    ensures StatsSummarise(init + [last], t, TypeStats(g.totalSessions + 1, g.totalScore + last.score,
      g.totalDuration + DurationOrNothing(last), if last.score > g.bestScore then last.score else g.bestScore))
  {
    SumsStep(init, last, t);
    assert forall s :: s in init + [last] <==> s in init || s == last;
  }

  /** The first session of a type starts its group. */
  lemma SummaryStarts(init: seq<Session>, last: Session, t: GameType)
    requires last.gameType == t && !exists s :: s in init && s.gameType == t
    ensures StatsSummarise(init + [last], t, TypeStats(1, last.score, DurationOrNothing(last), last.score))
  {
    SumsStep(init, last, t);
    NoneOfType(init, t);
    assert forall s :: s in init + [last] <==> s in init || s == last;
  }

  /** The group and the sums after one more session. */
  lemma SumsStep(init: seq<Session>, last: Session, t: GameType)
    ensures GroupStats(init + [last]) == AddToStats(GroupStats(init), last)
    ensures ScoreOfType(init + [last], t) == ScoreOfType(init, t) + (if last.gameType == t then last.score else 0)
    ensures DurationOfType(init + [last], t) == DurationOfType(init, t) + (if last.gameType == t then DurationOrNothing(last) else 0)
    ensures Count(init + [last], SessionOfType(t)) == Count(init, SessionOfType(t)) + (if last.gameType == t then 1 else 0)
    ensures (exists s :: s in init + [last] && s.gameType == t) <==>
      (exists s :: s in init && s.gameType == t) || last.gameType == t
  {
    var ss := init + [last];
    assert forall s :: s in ss <==> s in init || s == last;
    assert ss[..|ss| - 1] == init;
    assert ss[|ss| - 1] == last;
    CountAppend(init, [last], SessionOfType(t));
    assert [last][1..] == [];
  }

  /** Sessions none of which has type t count nothing towards it. */
  lemma NoneOfType(ss: seq<Session>, t: GameType)
    requires !exists s :: s in ss && s.gameType == t
    ensures Count(ss, SessionOfType(t)) == 0 && ScoreOfType(ss, t) == 0 && DurationOfType(ss, t) == 0
  {
    forall i | 0 <= i < |ss| ensures !SessionOfType(t)(ss[i]) {
      assert ss[i] in ss;
    }
    CountNone(ss, SessionOfType(t));
    NothingOfType(ss, t);
  }

  lemma {:induction false} NothingOfType(ss: seq<Session>, t: GameType)
    requires forall i :: 0 <= i < |ss| ==> ss[i].gameType != t
    ensures ScoreOfType(ss, t) == 0 && DurationOfType(ss, t) == 0
  {
    if ss != [] {
      NothingOfType(ss[..|ss| - 1], t);
    }
  }

  /** The statistics report a game type exactly when the user has a
      completed session of it, and then summarise exactly the user's
      completed sessions of that type; active and abandoned sessions and
      other users' sessions never count. */
  lemma UserStatsSpec(sessions: seq<Session>, userId: string, t: GameType)
    ensures t in UserStats(sessions, userId) <==>
      exists s :: s in sessions && s.userId == userId && s.status == Completed && s.gameType == t
    ensures t in UserStats(sessions, userId) ==>
      StatsSummarise(Filter(sessions, CompletedBy(userId)), t, UserStats(sessions, userId)[t])
    ensures t in UserStats(sessions, userId) ==>
      UserStats(sessions, userId)[t].totalSessions == Count(sessions, CompletedOfType(userId, t))
  {
    var mine := Filter(sessions, CompletedBy(userId));
    GroupStatsSpec(mine, t);
    CountCompletedOfType(sessions, userId, t);
    if exists s :: s in sessions && s.userId == userId && s.status == Completed && s.gameType == t {
      var s :| s in sessions && s.userId == userId && s.status == Completed && s.gameType == t;
      assert CompletedBy(userId)(s);
    }
  }

  function CompletedOfType(userId: string, t: GameType): Session -> bool {
    (s: Session) => s.userId == userId && s.status == Completed && s.gameType == t
  }

  lemma {:induction false} CountCompletedOfType(sessions: seq<Session>, userId: string, t: GameType)
    ensures Count(Filter(sessions, CompletedBy(userId)), SessionOfType(t))
         == Count(sessions, CompletedOfType(userId, t))
  {
    if sessions != [] {
      CountCompletedOfType(sessions[1..], userId, t);
      var rest := Filter(sessions[1..], CompletedBy(userId));
      if CompletedBy(userId)(sessions[0]) {
        assert Filter(sessions, CompletedBy(userId)) == [sessions[0]] + rest;
        assert ([sessions[0]] + rest)[1..] == rest;
      } else {
        assert Filter(sessions, CompletedBy(userId)) == rest;
      }
    }
  }
}
