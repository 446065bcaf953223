/** The SQL-backed game endpoints of controllers/gameController.js: a table
    of game sessions keyed by a serial id, and a per-user leaderboard table
    keyed by user id that every successfully ended session folds its score
    into with an INSERT ... ON CONFLICT (user_id) DO UPDATE. */
module GameController {
  import opened Common
  import opened Ordering

  /** A field of the JSON request body as the handler sees it: undefined,
      null, a whole number, a string, a boolean, or an array or object. */
  datatype BodyValue = Absent | Null | Number(n: int) | Text(s: string) | Flag(b: bool) | Structured

  /** JavaScript truthiness: undefined, null, 0, "" and false are falsy. */
  predicate TruthyValue(v: BodyValue) {
    match v
    case Absent => false
    case Null => false
    case Number(n) => n != 0
    case Text(s) => s != ""
    case Flag(b) => b
    case Structured => true
  }

  /** `v || 0` for a body value. */
  function OrZeroValue(v: BodyValue): BodyValue {
    if TruthyValue(v) then v else Number(0)
  }

  /** A game_sessions row.  `userId` is None for an anonymous start (SQL
      NULL); `score`, `duration` and `endTime` are NULL until the session is
      ended, and an end with a null score leaves the score NULL. */
  datatype Session = Session(
    userId: Option<int>,
    gameMode: string,
    difficulty: string,
    score: Option<int>,
    duration: Option<int>,
    startTime: int,
    endTime: Option<int>)

  /** A leaderboard row.  The name is copied from the users table when the
      row is first inserted and is never refreshed; the best score is NULL
      while every score folded in was NULL. */
  datatype Row = Row(username: string, bestScore: Option<int>, totalGames: nat, totalPlaytime: int, lastPlayed: int)

  /** One score (None for NULL) folded into a user's row, with its playtime. */
  datatype Play = Play(score: Option<int>, duration: int)

  function Max(a: int, b: int): int { if a >= b then a else b }

  /** GREATEST(a, b): the larger of the two, ignoring NULLs; NULL only when
      both are. */
  function Greatest(a: Option<int>, b: Option<int>): (r: Option<int>)
    ensures r.None? <==> a.None? && b.None?
    ensures r == a || r == b
    ensures a.Some? ==> r.Some? && a.value <= r.value
    ensures b.Some? ==> r.Some? && b.value <= r.value
  {
    if a.None? then b
    else if b.None? then a
    else Some(Max(a.value, b.value))
  }

  /** JavaScript truthiness of the caller's user id (undefined, null and 0
      are falsy). */
  predicate Truthy(v: Option<int>) { v.Some? && v.value != 0 }

  /** `v || fallback` for an optional string (undefined, null and "" are
      falsy). */
  function TextOr(v: Option<string>, fallback: string): string {
    if v.Some? && v.value != "" then v.value else fallback
  }

  // ---------------------------------------------------------------------
  // Binding body values to integer parameters

  /** Text PostgreSQL reads as an integer: an optional sign, then digits. */
  predicate IntegerText(s: string) {
    var digits := Unsigned(s);
    digits != [] && forall i :: 0 <= i < |digits| ==> IsDigit(digits[i])
  }

  /** The text after a leading sign. */
  function Unsigned(s: string): string {
    if s != [] && (s[0] == '+' || s[0] == '-') then s[1..] else s
  }

  function IntegerTextValue(s: string): int
    requires IntegerText(s)
  {
    if s[0] == '-' then -(DecimalValue(Unsigned(s)) as int) else DecimalValue(Unsigned(s))
  }

  /** A statement parameter for an integer column. */
  datatype Param = NullParam | IntParam(n: int) | BadParam

  /** What a body value becomes as a parameter of an integer column:
      undefined and null are NULL, a number is itself, integer text is the
      number it spells, and anything else (other text, a boolean, an array
      or an object) makes PostgreSQL refuse the statement. */
  function BindInt(v: BodyValue): Param {
    match v
    case Absent => NullParam
    case Null => NullParam
    case Number(n) => IntParam(n)
    case Text(s) => if IntegerText(s) then IntParam(IntegerTextValue(s)) else BadParam
    case Flag(_) => BadParam
    case Structured => BadParam
  }

  /** A whole number sent as decimal text binds as the number itself, with
      or without a sign; text that is not a signed run of digits is
      refused. */
  lemma BindIntText(n: nat, s: string)
    ensures BindInt(Text(DecimalString(n))) == BindInt(Number(n))
    ensures BindInt(Text("+" + DecimalString(n))) == BindInt(Number(n))
    ensures BindInt(Text("-" + DecimalString(n))) == BindInt(Number(-(n as int)))
    ensures !IntegerText(s) ==> BindInt(Text(s)).BadParam?
  {
    PlainDecimalBind(n);
    PlusDecimalBind(n);
    MinusDecimalBind(n);
  }

  lemma PlainDecimalBind(n: nat)
    ensures BindInt(Text(DecimalString(n))) == BindInt(Number(n))
  {
    DecimalRoundTrip(n);
    DigitsBind(DecimalString(n));
  }

  lemma PlusDecimalBind(n: nat)
    ensures BindInt(Text("+" + DecimalString(n))) == BindInt(Number(n))
  {
    DecimalRoundTrip(n);
    SignedDigitsBind('+', DecimalString(n));
  }

  lemma MinusDecimalBind(n: nat)
    ensures BindInt(Text("-" + DecimalString(n))) == BindInt(Number(-(n as int)))
  {
    DecimalRoundTrip(n);
    SignedDigitsBind('-', DecimalString(n));
  }

  /** A run of digits binds as its decimal value. */
  lemma DigitsBind(d: string)
    requires d != [] && forall i :: 0 <= i < |d| ==> IsDigit(d[i])
    ensures BindInt(Text(d)) == IntParam(DecimalValue(d))
  {
    assert IsDigit(d[0]);
    assert Unsigned(d) == d;
    assert IntegerText(d);
  }

  /** A run of digits after a sign binds as its decimal value, negated
      after a minus. */
  lemma SignedDigitsBind(sign: char, d: string)
    requires sign == '+' || sign == '-'
    requires d != [] && forall i :: 0 <= i < |d| ==> IsDigit(d[i])
    ensures BindInt(Text([sign] + d))
         == IntParam(if sign == '-' then -(DecimalValue(d) as int) else DecimalValue(d))
  {
    var s := [sign] + d;
    assert s[0] == sign && s[1..] == d;
    assert Unsigned(s) == d;
    assert IntegerText(s);
  }

  /** The bound parameters of the UPDATE: the session id, the score (None
      for NULL) and the duration. */
  datatype EndArgs = EndArgs(id: int, score: Option<int>, duration: int)

  /** Binding `[score, duration || 0, sessionId]`; None when PostgreSQL
      refuses one of them. */
  function BindEnd(sessionId: BodyValue, score: BodyValue, duration: BodyValue): Option<EndArgs> {
    var id := BindInt(sessionId);
    var s := BindInt(score);
    var d := BindInt(OrZeroValue(duration));
    if id.IntParam? && !s.BadParam? && d.IntParam? then
      Some(EndArgs(id.n, if s.IntParam? then Some(s.n) else None, d.n))
    else None
  }

  /** After the handler's guard (a truthy session id and a score that is
      not undefined): a null score binds as NULL, a missing or falsy
      duration as 0, and a request is refused exactly when one of the three
      values is neither null, a number nor integer text. */
  lemma BindEndSpec(sessionId: BodyValue, score: BodyValue, duration: BodyValue)
    requires TruthyValue(sessionId) && !score.Absent?
    ensures BindEnd(sessionId, score, duration).None? <==>
      || BindInt(sessionId).BadParam? || BindInt(score).BadParam?
      || (TruthyValue(duration) && BindInt(duration).BadParam?)
    ensures BindEnd(sessionId, score, duration).Some? ==>
      var a := BindEnd(sessionId, score, duration).value;
      && (score.Null? <==> a.score.None?)
      && (score.Number? ==> a.score == Some(score.n))
      && (!TruthyValue(duration) ==> a.duration == 0)
      && (duration.Number? ==> a.duration == duration.n)
  {
  }

  /** `WHERE id = $3 AND user_id = $4`: comparing with SQL NULL is never
      true, so a row started anonymously, or a request without a user, never
      matches. */
  predicate Matches(sessions: map<int, Session>, id: int, userId: Option<int>) {
    id in sessions && userId.Some? && sessions[id].userId == userId
  }

  /** The row update of a successful end: score, duration and the end time. */
  function Closed(s: Session, score: Option<int>, duration: int, now: int): Session {
    s.(score := score, duration := Some(duration), endTime := Some(now))
  }

  // ---------------------------------------------------------------------
  // The upsert and what a leaderboard row means

  /** INSERT ... VALUES (user, name, score, 1, duration, now) ON CONFLICT
      (user_id) DO UPDATE SET best_score = GREATEST(old, new), total_games
      + 1, total_playtime + duration, last_played = now.  Only the user's
      row changes. */
  function Upsert(board: map<int, Row>, userId: int, username: string, score: Option<int>, duration: int, now: int)
    : (b: map<int, Row>)
    ensures b.Keys == board.Keys + {userId}
    ensures forall u :: u in board && u != userId ==> b[u] == board[u]
  {
    if userId in board then
      var r := board[userId];
      board[userId := r.(bestScore := Greatest(r.bestScore, score), totalGames := r.totalGames + 1,
                         totalPlaytime := r.totalPlaytime + duration, lastPlayed := now)]
    else
      board[userId := Row(username, score, 1, duration, now)]
  }

  function PlayDuration(p: Play): int { p.duration }

  function TotalPlaytime(plays: seq<Play>): int {
    Sum(plays, PlayDuration)
  }

  /** The highest score among the plays, ignoring NULLs; None when every
      score is NULL. */
  function BestPlay(plays: seq<Play>): (m: Option<int>)
    ensures m.None? <==> forall i :: 0 <= i < |plays| ==> plays[i].score.None?
    ensures m.Some? ==> exists i :: 0 <= i < |plays| && plays[i].score == m
    ensures m.Some? ==> forall i :: 0 <= i < |plays| && plays[i].score.Some? ==> plays[i].score.value <= m.value
  {
    if plays == [] then None
    else
      var init := plays[..|plays| - 1];
      assert forall i :: 0 <= i < |init| ==> init[i] == plays[i];
      Greatest(BestPlay(init), plays[|plays| - 1].score)
  }

  /** A row summarises the plays folded into it: its best score is the
      highest of them, its game count is their number and its playtime their
      total. */
  predicate Summarises(r: Row, plays: seq<Play>) {
    && plays != []
    && r.bestScore == BestPlay(plays)
    && r.totalGames == |plays|
    && r.totalPlaytime == TotalPlaytime(plays)
  }

  /** Every row of the board summarises the plays recorded for its user,
      and only users with recorded plays have a row. */
  ghost predicate BoardSummarises(board: map<int, Row>, recorded: map<int, seq<Play>>) {
    && board.Keys == recorded.Keys
    && forall u :: u in board ==> Summarises(board[u], recorded[u])
  }

  /** A user's first upsert creates a row summarising that one play; each
      later upsert keeps the row summarising the plays so far plus the new
      one. */
  lemma UpsertSummarises(board: map<int, Row>, plays: seq<Play>, userId: int, username: string,
                         score: Option<int>, duration: int, now: int)
    requires userId in board ==> Summarises(board[userId], plays)
    requires userId !in board ==> plays == []
    ensures Summarises(Upsert(board, userId, username, score, duration, now)[userId],
                       plays + [Play(score, duration)])
  {
    var p := plays + [Play(score, duration)];
    assert p[..|p| - 1] == plays;
    SumAppend(plays, [Play(score, duration)], PlayDuration);
    assert Sum([Play(score, duration)], PlayDuration) == duration by {
      assert [Play(score, duration)][1..] == [];
    }
  }

  /** Upserting keeps the whole board summarising the plays, with the new
      play appended to the user's list. */
  lemma {:induction false} UpsertKeepsBoard(board: map<int, Row>, recorded: map<int, seq<Play>>, userId: int, username: string,
                         score: Option<int>, duration: int, now: int)
    requires BoardSummarises(board, recorded)
    ensures BoardSummarises(Upsert(board, userId, username, score, duration, now),
                            recorded[userId := Recorded(recorded, userId) + [Play(score, duration)]])
  {
    var plays := Recorded(recorded, userId);
    var b := Upsert(board, userId, username, score, duration, now);
    var rec := recorded[userId := plays + [Play(score, duration)]];
    assert userId in board ==> Summarises(board[userId], plays) by {
      if userId in board {
        assert userId in recorded && plays == recorded[userId];
      }
    }
    assert userId !in board ==> plays == [] by {
      assert board.Keys == recorded.Keys;
    }
    UpsertSummarises(board, plays, userId, username, score, duration, now);
    assert Summarises(b[userId], rec[userId]);
    assert b.Keys == board.Keys + {userId} && rec.Keys == recorded.Keys + {userId};
    assert forall u :: u in recorded && u != userId ==> rec[u] == recorded[u];
    BoardChangedAt(board, recorded, b, rec, userId);
  }

  /** Changing one user's row and plays keeps the board summarising the
      plays when the new row summarises the new plays. */
  lemma BoardChangedAt(board: map<int, Row>, recorded: map<int, seq<Play>>,
                       b: map<int, Row>, rec: map<int, seq<Play>>, userId: int)
    requires BoardSummarises(board, recorded)
    requires b.Keys == board.Keys + {userId} && rec.Keys == recorded.Keys + {userId}
    requires forall u :: u in board && u != userId ==> b[u] == board[u]
    requires forall u :: u in recorded && u != userId ==> rec[u] == recorded[u]
    requires Summarises(b[userId], rec[userId])
    ensures BoardSummarises(b, rec)
  {
    forall u | u in b ensures Summarises(b[u], rec[u]) {
      if u != userId {
        assert b[u] == board[u] && rec[u] == recorded[u];
      }
    }
  }

  function Recorded(recorded: map<int, seq<Play>>, userId: int): seq<Play> {
    if userId in recorded then recorded[userId] else []
  }

  /** The row built by upserting a user's plays one after another into a
      board that has no row for the user yet. */
  function Replay(board: map<int, Row>, userId: int, username: string, plays: seq<Play>, now: int)
    : map<int, Row>
  {
    if plays == [] then board
    else
      var last := plays[|plays| - 1];
      Upsert(Replay(board, userId, username, plays[..|plays| - 1], now), userId, username, last.score, last.duration, now)
  }

  /** However many ends a user makes, their row holds the best of the
      scores, the number of ends and the total playtime. */
  lemma {:induction false} ReplaySummarises(board: map<int, Row>, userId: int, username: string,
                                            plays: seq<Play>, now: int)
    requires userId !in board && plays != []
    ensures userId in Replay(board, userId, username, plays, now)
    ensures Summarises(Replay(board, userId, username, plays, now)[userId], plays)
  {
    var init := plays[..|plays| - 1];
    var last := plays[|plays| - 1];
    assert plays == init + [last];
    if init != [] {
      ReplaySummarises(board, userId, username, init, now);
    }
    UpsertSummarises(Replay(board, userId, username, init, now), init, userId, username,
                     last.score, last.duration, now);
  }

  /** The best of a set of plays is at least the best of any of its
      subsets. */
  lemma BestPlayBelow(a: seq<Play>, b: seq<Play>)
    requires forall x :: x in a ==> x in b
    ensures BestPlay(a).Some? ==> BestPlay(b).Some? && BestPlay(a).value <= BestPlay(b).value
  {
    if BestPlay(a).Some? {
      var i :| 0 <= i < |a| && a[i].score == BestPlay(a);
      assert a[i] in a;
      var j :| 0 <= j < |b| && b[j] == a[i];
    }
  }

  /** A row's figures do not depend on the order in which the ends arrived. */
  lemma SummaryIsOrderFree(r1: Row, a: seq<Play>, r2: Row, b: seq<Play>)
    requires Summarises(r1, a) && Summarises(r2, b) && multiset(a) == multiset(b)
    ensures r1.bestScore == r2.bestScore
    ensures r1.totalGames == r2.totalGames
    ensures r1.totalPlaytime == r2.totalPlaytime
  {
    assert |a| == |multiset(a)| == |multiset(b)| == |b|;
    SumPermutation(a, b, PlayDuration);
    assert forall x :: x in a <==> x in b by {
      forall x ensures x in a <==> x in b {
        assert x in a <==> x in multiset(a);
        assert x in b <==> x in multiset(b);
      }
    }
    BestPlayBelow(a, b);
    BestPlayBelow(b, a);
  }

  // ---------------------------------------------------------------------
  // The two tables

  class GameStore {
    var sessions: map<int, Session>
    var leaderboard: map<int, Row>
    /** The next value of the sessions' serial id. */
    var nextId: int
    /** The plays folded into each user's leaderboard row, in order. */
    ghost var recorded: map<int, seq<Play>>

    ghost predicate Valid()
      reads this
    {
      && nextId >= 1
      && (forall id :: id in sessions ==> 1 <= id < nextId)
      && BoardSummarises(leaderboard, recorded)
    }

    constructor ()
      ensures Valid()
      ensures sessions == map[] && leaderboard == map[] && recorded == map[]
    {
      sessions := map[];
      leaderboard := map[];
      nextId := 1;
      recorded := map[];
    }

    /** start: a missing or empty game mode is a 400 and inserts nothing;
        otherwise a new row with the next id, the caller (or NULL), and the
        difficulty defaulting to "medium". */
    method Start(gameMode: Option<string>, difficulty: Option<string>, userId: Option<int>, now: int)
      returns (status: int, sessionId: int)
      requires Valid()
      modifies this
      ensures Valid()
      ensures status == 400 || status == 200
      ensures status == 400 <==> gameMode.None? || gameMode.value == ""
      ensures status == 400 ==> sessions == old(sessions) && nextId == old(nextId)
      ensures status == 200 ==>
        && sessionId !in old(sessions)
        && sessions == old(sessions)[sessionId := Session(userId, gameMode.value, TextOr(difficulty, "medium"),
                                                          None, None, now, None)]
        && nextId == sessionId + 1
      ensures leaderboard == old(leaderboard) && recorded == old(recorded)
    {
      if gameMode.None? || gameMode.value == "" {
        return 400, 0;
      }
      sessionId := nextId;
      sessions := sessions[sessionId := Session(userId, gameMode.value, TextOr(difficulty, "medium"),
                                                None, None, now, None)];
      nextId := nextId + 1;
      status := 200;
    }

    /** end: 400 without a truthy session id or when the score is
        undefined (a null score passes); 500 when PostgreSQL refuses one of
        the bound values; 404 when no session has that id and the caller's
        user id; otherwise the session is closed and, for a known user, the
        score (NULL included) is folded into their leaderboard row.
        `reportedDuration` is the `duration || 0` echoed in the response. */
    method End(sessionId: BodyValue, score: BodyValue, duration: BodyValue, userId: Option<int>,
               users: map<int, string>, now: int)
      returns (status: int, reportedDuration: BodyValue)
      requires Valid()
      modifies this
      ensures Valid()
      ensures nextId == old(nextId)
      ensures status == 400 || status == 500 || status == 404 || status == 200
      ensures status == 400 <==> !TruthyValue(sessionId) || score.Absent?
      ensures status == 500 <==>
        TruthyValue(sessionId) && !score.Absent? && BindEnd(sessionId, score, duration).None?
      ensures status == 404 <==>
        && TruthyValue(sessionId) && !score.Absent? && BindEnd(sessionId, score, duration).Some?
        && !Matches(old(sessions), BindEnd(sessionId, score, duration).value.id, userId)
      ensures status != 200 ==>
        sessions == old(sessions) && leaderboard == old(leaderboard) && recorded == old(recorded)
      ensures status == 200 ==>
        && BindEnd(sessionId, score, duration).Some?
        && var a := BindEnd(sessionId, score, duration).value;
        && reportedDuration == OrZeroValue(duration)
        && sessions == old(sessions)[a.id := Closed(old(sessions)[a.id], a.score, a.duration, now)]
      ensures status == 200 && Truthy(userId) && userId.value in users ==>
        && BindEnd(sessionId, score, duration).Some?
        && var a := BindEnd(sessionId, score, duration).value;
        && leaderboard == Upsert(old(leaderboard), userId.value, users[userId.value], a.score, a.duration, now)
        && recorded == old(recorded)[userId.value := Recorded(old(recorded), userId.value) + [Play(a.score, a.duration)]]
      ensures status == 200 && !(Truthy(userId) && userId.value in users) ==>
        leaderboard == old(leaderboard) && recorded == old(recorded)
      ensures userId.None? ==> status != 200
    {
      if !TruthyValue(sessionId) || score.Absent? {
        return 400, Number(0);
      }
      var args := BindEnd(sessionId, score, duration);
      if args.None? {
        return 500, Number(0);
      }
      var a := args.value;
      if !Matches(sessions, a.id, userId) {
        return 404, Number(0);
      }
      reportedDuration := OrZeroValue(duration);
      sessions := sessions[a.id := Closed(sessions[a.id], a.score, a.duration, now)];
      if Truthy(userId) && userId.value in users {
        var u := userId.value;
        UpsertKeepsBoard(leaderboard, recorded, u, users[u], a.score, a.duration, now);
        leaderboard := Upsert(leaderboard, u, users[u], a.score, a.duration, now);
        recorded := recorded[u := Recorded(recorded, u) + [Play(a.score, a.duration)]];
      }
      status := 200;
    }

    /** Nothing marks a session as already ended: ending the same session
        twice succeeds both times and counts two games. */
    method EndTwice(sessionId: int, score: int, duration: int, userId: int,
                    users: map<int, string>, now: int)
      returns (first: int, second: int)
      requires Valid() && sessionId != 0 && userId != 0 && userId in users
      requires Matches(sessions, sessionId, Some(userId))
      modifies this
      ensures Valid()
      ensures first == 200 && second == 200
      ensures userId in leaderboard
      ensures leaderboard[userId].totalGames
           == (if userId in old(leaderboard) then old(leaderboard)[userId].totalGames else 0) + 2
    {
      var d;
      first, d := End(Number(sessionId), Number(score), Number(duration), Some(userId), users, now);
      second, d := End(Number(sessionId), Number(score), Number(duration), Some(userId), users, now);
    }

    /** A null score ends the session: it is stored as NULL, the game and
        its playtime are counted, and an existing best score stays as it
        was. */
    method EndWithNullScore(sessionId: int, userId: int, users: map<int, string>, now: int)
      returns (status: int)
      requires Valid() && sessionId != 0 && userId != 0 && userId in users
      requires Matches(sessions, sessionId, Some(userId))
      modifies this
      ensures Valid()
      ensures status == 200
      ensures sessionId in sessions && sessions[sessionId].score.None?
      ensures userId in leaderboard
      ensures leaderboard[userId].bestScore
           == (if userId in old(leaderboard) then old(leaderboard)[userId].bestScore else None)
    {
      var d;
      status, d := End(Number(sessionId), Null, Absent, Some(userId), users, now);
    }

    /** A session id sent as the text "0" is truthy, so it passes the guard
        and finds no session; sent as the number 0 it is refused as
        missing. */
    method EndSessionZero(score: int, userId: Option<int>, users: map<int, string>, now: int)
      returns (asText: int, asNumber: int)
      requires Valid()
      modifies this
      ensures Valid()
      ensures asText == 404 && asNumber == 400
      ensures sessions == old(sessions) && leaderboard == old(leaderboard)
    {
      var d;
      assert IntegerText("0") && IntegerTextValue("0") == 0 by {
        assert "0"[0] == '0' && Unsigned("0") == "0";
        assert "0"[..0] == [];
      }
      asText, d := End(Text("0"), Number(score), Absent, userId, users, now);
      asNumber, d := End(Number(0), Number(score), Absent, userId, users, now);
    }
  }

  // ---------------------------------------------------------------------
  // Reading the tables back in a fixed order

  lemma HasElement(keys: set<int>)
    requires keys != {}
    ensures exists k :: k in keys
  {
    if forall k :: k !in keys {
      assert false;
    }
  }

  lemma MinExists(keys: set<int>)
    requires keys != {}
    ensures exists m :: IsLeast(m, keys)
  {
    HasElement(keys);
    var x :| x in keys;
    if keys != {x} {
      var rest := keys - {x};
      MinExists(rest);
      var m :| IsLeast(m, rest);
      var least := if x < m then x else m;
      forall k | k in keys ensures least <= k {
        if k != x {
          assert k in rest;
        }
      }
      assert IsLeast(least, keys);
    } else {
      assert IsLeast(x, keys);
    }
  }

  predicate IsLeast(m: int, keys: set<int>) {
    m in keys && forall k :: k in keys ==> m <= k
  }

  /** The keys of a table in ascending order. */
  function AscendingKeys(keys: set<int>): (r: seq<int>)
    ensures |r| == |keys|
    ensures forall k :: k in r <==> k in keys
    ensures forall i, j :: 0 <= i < j < |r| ==> r[i] < r[j]
    decreases |keys|
  {
    if keys == {} then []
    else
      MinExists(keys);
      var m :| IsLeast(m, keys);
      var rest := AscendingKeys(keys - {m});
      LeastInFront(m, keys, rest);
      [m] + rest
  }

  /** The least key in front of the other keys in ascending order lists all
      the keys in ascending order. */
  lemma LeastInFront(m: int, keys: set<int>, rest: seq<int>)
    requires IsLeast(m, keys)
    requires |rest| == |keys - {m}|
    requires forall k :: k in rest <==> k in keys - {m}
    requires forall i, j :: 0 <= i < j < |rest| ==> rest[i] < rest[j]
    ensures |[m] + rest| == |keys|
    ensures forall k :: k in [m] + rest <==> k in keys
    ensures var r := [m] + rest; forall i, j :: 0 <= i < j < |r| ==> r[i] < r[j]
  {
    assert |keys - {m}| == |keys| - 1;
    var r := [m] + rest;
    assert forall k :: k in r <==> k == m || k in rest;
    forall i, j | 0 <= i < j < |r| ensures r[i] < r[j] {
      assert r[j] == rest[j - 1];
      if i == 0 {
        assert rest[j - 1] in rest;
      } else {
        assert r[i] == rest[i - 1];
      }
    }
  }

  // ---------------------------------------------------------------------
  // getLeaderboard

  function HexDigitValue(c: char): (d: nat)
    ensures d < 16
  {
    if '0' <= c <= '9' then c as int - '0' as int
    else if 'a' <= c <= 'f' then c as int - 'a' as int + 10
    else if 'A' <= c <= 'F' then c as int - 'A' as int + 10
    else 0
  }

  predicate IsHexDigit(c: char) { IsDigit(c) || 'a' <= c <= 'f' || 'A' <= c <= 'F' }

  /** The longest prefix of s whose characters all satisfy p. */
  function Prefix(s: string, p: char -> bool): (r: string)
    ensures |r| <= |s| && r == s[..|r|]
    ensures forall i :: 0 <= i < |r| ==> p(r[i])
    ensures |r| < |s| ==> !p(s[|r|])
  {
    if s == [] || !p(s[0]) then [] else [s[0]] + Prefix(s[1..], p)
  }

  function HexValue(s: string): nat {
    if s == [] then 0 else HexValue(s[..|s| - 1]) * 16 + HexDigitValue(s[|s| - 1])
  }

  function DigitRun(s: string): (r: string)
    ensures forall i :: 0 <= i < |r| ==> IsDigit(r[i])
  {
    Prefix(s, IsDigit)
  }

  /** parseInt without a radix: leading white space, an optional sign, then
      a "0x"/"0X" prefix selects base 16; the longest run of digits is read
      and the rest ignored; no digit at all is NaN (None). */
  function ParseInt(s: string): (r: Option<int>)
  {
    var t := TrimStart(s);
    var negative := t != [] && t[0] == '-';
    var body := if t != [] && (t[0] == '-' || t[0] == '+') then t[1..] else t;
    var magnitude := Magnitude(body);
    if magnitude.None? then None
    else if negative then Some(-magnitude.value)
    else Some(magnitude.value)
  }

  /** The unsigned part: hexadecimal after "0x"/"0X", decimal otherwise. */
  function Magnitude(body: string): Option<int> {
    if |body| >= 2 && body[0] == '0' && (body[1] == 'x' || body[1] == 'X') then
      var run := Prefix(body[2..], IsHexDigit);
      if run == [] then None else Some(HexValue(run))
    else
      var run := DigitRun(body);
      if run == [] then None else Some(DecimalValue(run))
  }

  lemma MagnitudeOfDigits(s: string)
    requires s != [] && forall i :: 0 <= i < |s| ==> IsDigit(s[i])
    ensures Magnitude(s) == Some(DecimalValue(s))
  {
    DigitRunOfDigits(s);
    if |s| >= 2 {
      assert IsDigit(s[1]);
    }
  }

  /** parseInt reads back what Number.prototype.toString writes, and its
      negation. */
  lemma ParseIntRoundTrip(n: nat)
    ensures ParseInt(DecimalString(n)) == Some(n)
    ensures ParseInt("-" + DecimalString(n)) == Some(-(n as int))
  {
    ParseDecimal(n);
    ParseNegatedDecimal(n);
  }

  lemma ParseDecimal(n: nat)
    ensures ParseInt(DecimalString(n)) == Some(n)
  {
    var s := DecimalString(n);
    DecimalRoundTrip(n);
    MagnitudeOfDigits(s);
    assert IsDigit(s[0]);
    TrimStartOfTrimmed(s);
    ParseUnsigned(s);
  }

  /** Text without a sign reads as its magnitude. */
  lemma ParseUnsigned(t: string)
    requires t != [] && t[0] != '-' && t[0] != '+' && TrimStart(t) == t
    ensures Magnitude(t).Some? ==> ParseInt(t) == Some(Magnitude(t).value)
  {
  }

  lemma ParseNegatedDecimal(n: nat)
    ensures ParseInt("-" + DecimalString(n)) == Some(-(n as int))
  {
    var s := DecimalString(n);
    DecimalRoundTrip(n);
    MagnitudeOfDigits(s);
    var m := "-" + s;
    assert m[0] == '-' && m[1..] == s;
    TrimStartOfTrimmed(m);
    ParseNegative(m);
  }

  /** Text that starts with a minus sign reads as the negated magnitude of
      the rest. */
  lemma ParseNegative(t: string)
    requires t != [] && t[0] == '-' && TrimStart(t) == t
    ensures Magnitude(t[1..]).Some? ==> ParseInt(t) == Some(-Magnitude(t[1..]).value)
  {
  }

  lemma {:induction false} DigitRunOfDigits(s: string)
    requires forall i :: 0 <= i < |s| ==> IsDigit(s[i])
    ensures DigitRun(s) == s
  {
    if s != [] {
      DigitRunOfDigits(s[1..]);
      assert s == [s[0]] + s[1..];
    }
  }

  /** `parseInt(limit) || 10`: NaN and 0 fall back to 10.  A negative
      value reaches `LIMIT $1`, which PostgreSQL refuses. */
  function EffectiveLimit(limit: Option<string>): (r: int)
    ensures r != 0
  {
    var parsed := if limit.Some? then ParseInt(limit.value) else None;
    if parsed.None? || parsed.value == 0 then 10 else parsed.value
  }

  lemma EffectiveLimitCases(limit: Option<string>)
    ensures limit.None? ==> EffectiveLimit(limit) == 10
    ensures forall n: nat :: n != 0 && limit == Some(DecimalString(n)) ==> EffectiveLimit(limit) == n
    ensures limit == Some("0") ==> EffectiveLimit(limit) == 10
  {
    forall n: nat | n != 0 && limit == Some(DecimalString(n))
      ensures EffectiveLimit(limit) == n
    {
      ParseIntRoundTrip(n);
    }
    if limit == Some("0") {
      assert DecimalString(0) == "0";
      ParseIntRoundTrip(0);
    }
  }

  datatype Keyed = Keyed(userId: int, row: Row)

  predicate NullBest(k: Keyed) { k.row.bestScore.None? }

  predicate HasBest(k: Keyed) { k.row.bestScore.Some? }

  function BestOf(k: Keyed): int { if k.row.bestScore.Some? then k.row.bestScore.value else 0 }

  /** Where a comes no later than b under ORDER BY ... DESC: PostgreSQL
      sorts NULL above every value in descending order. */
  predicate NoLaterDesc(a: Option<int>, b: Option<int>) {
    a.None? || (b.Some? && a.value >= b.value)
  }

  /** The leaderboard table as rows, in ascending user id order. */
  function Table(board: map<int, Row>): (r: seq<Keyed>)
    ensures |r| == |board|
    ensures forall i :: 0 <= i < |r| ==> r[i].userId in board && board[r[i].userId] == r[i].row
    ensures forall u :: u in board ==> Keyed(u, board[u]) in r
  {
    var keys := AscendingKeys(board.Keys);
    assert |board.Keys| == |board|;
    var r := seq(|keys|, i requires 0 <= i < |keys| => Keyed(keys[i], board[keys[i]]));
    forall i | 0 <= i < |r| ensures r[i].userId in board && board[r[i].userId] == r[i].row {
      assert keys[i] in keys;
    }
    forall u | u in board ensures Keyed(u, board[u]) in r {
      var i :| 0 <= i < |keys| && keys[i] == u;
      assert r[i] == Keyed(u, board[u]);
    }
    r
  }

  /** A listed row; `score` is None where parseInt(null) gives NaN. */
  datatype Ranked = Ranked(rank: nat, username: string, score: Option<int>, totalGames: nat, lastPlayed: int)

  datatype Listing = Listing(rows: seq<Ranked>) | ServerError

  /** Number the rows from 1 and keep the columns the endpoint returns. */
  function RankRows(rows: seq<Keyed>): (r: seq<Ranked>)
    ensures |r| == |rows|
    ensures forall i :: 0 <= i < |r| ==> r[i].rank == i + 1
    ensures forall i :: 0 <= i < |r| ==> r[i].score == rows[i].row.bestScore && r[i].username == rows[i].row.username
  {
    seq(|rows|, i requires 0 <= i < |rows| =>
      Ranked(i + 1, rows[i].row.username, rows[i].row.bestScore, rows[i].row.totalGames, rows[i].row.lastPlayed))
  }

  /** ORDER BY best_score DESC: the rows without a best score first, then
      the others by best score from highest to lowest.  PostgreSQL leaves
      the order of tied rows open; the model fixes it to ascending user id. */
  function SortedTable(board: map<int, Row>): seq<Keyed> {
    var table := Table(board);
    Filter(table, NullBest) + SortDesc(Filter(table, HasBest), BestOf)
  }

  /** The sorted table holds exactly the board's rows, each row tied to its
      user, in descending order with NULLs first. */
  lemma SortedTableSpec(board: map<int, Row>)
    ensures |SortedTable(board)| == |board|
    ensures forall x :: x in SortedTable(board) <==> x in Table(board)
    ensures var sorted := SortedTable(board);
      forall i :: 0 <= i < |sorted| ==> sorted[i].userId in board && board[sorted[i].userId] == sorted[i].row
    ensures var sorted := SortedTable(board);
      forall i, j :: 0 <= i < j < |sorted| ==> NoLaterDesc(sorted[i].row.bestScore, sorted[j].row.bestScore)
  {
    var table := Table(board);
    var nulls := Filter(table, NullBest);
    var scored := SortDesc(Filter(table, HasBest), BestOf);
    FilterCount(table, NullBest);
    FilterCount(table, HasBest);
    CountSplit(table, NullBest, HasBest);
    NullRows(table);
    ScoredRows(table, scored);
    NullsThenScored(nulls, scored);
    RowsOfTable(board, table, nulls + scored);
  }

  lemma NullRows(table: seq<Keyed>)
    ensures forall x :: x in Filter(table, NullBest) <==> x in table && NullBest(x)
  {
    var nulls := Filter(table, NullBest);
    forall x | x in nulls ensures NullBest(x) {
      var k :| 0 <= k < |nulls| && nulls[k] == x;
    }
  }

  /** The sorted selection of rows with a best score holds exactly those
      rows. */
  lemma ScoredRows(table: seq<Keyed>, sorted: seq<Keyed>)
    requires multiset(sorted) == multiset(Filter(table, HasBest))
    ensures forall x :: x in sorted <==> x in table && HasBest(x)
  {
    var scored := Filter(table, HasBest);
    forall x ensures x in sorted <==> x in scored {
      assert x in sorted <==> x in multiset(sorted);
      assert x in scored <==> x in multiset(scored);
    }
    forall x | x in scored ensures HasBest(x) {
      var k :| 0 <= k < |scored| && scored[k] == x;
    }
  }

  /** Rows without a best score followed by rows with one in non-increasing
      order are in descending order with NULLs first. */
  lemma NullsThenScored(nulls: seq<Keyed>, sorted: seq<Keyed>)
    requires forall x :: x in nulls ==> NullBest(x)
    requires forall x :: x in sorted ==> HasBest(x)
    requires SortedDesc(sorted, BestOf)
    ensures var s := nulls + sorted;
      forall i, j :: 0 <= i < j < |s| ==> NoLaterDesc(s[i].row.bestScore, s[j].row.bestScore)
  {
    var s := nulls + sorted;
    forall i, j | 0 <= i < j < |s| ensures NoLaterDesc(s[i].row.bestScore, s[j].row.bestScore) {
      if i < |nulls| {
        assert nulls[i] in nulls;
      } else {
        var a := sorted[i - |nulls|];
        var b := sorted[j - |nulls|];
        assert s[i] == a && s[j] == b;
        assert a in sorted && b in sorted;
        assert BestOf(a) >= BestOf(b);
      }
    }
  }

  /** Rows drawn from the board's table are tied to their users' rows. */
  lemma RowsOfTable(board: map<int, Row>, table: seq<Keyed>, rows: seq<Keyed>)
    requires forall i :: 0 <= i < |table| ==> table[i].userId in board && board[table[i].userId] == table[i].row
    requires forall x :: x in rows ==> x in table
    ensures forall i :: 0 <= i < |rows| ==> rows[i].userId in board && board[rows[i].userId] == rows[i].row
  {
    forall i | 0 <= i < |rows| ensures rows[i].userId in board && board[rows[i].userId] == rows[i].row {
      assert rows[i] in rows;
      var k :| 0 <= k < |table| && table[k] == rows[i];
    }
  }

  /** ORDER BY best_score DESC LIMIT n, numbered from 1.  A negative limit
      is refused by PostgreSQL. */
  function Leaderboard(board: map<int, Row>, limit: Option<string>): (p: Listing)
    ensures p.ServerError? <==> EffectiveLimit(limit) < 0
  {
    var n := EffectiveLimit(limit);
    if n < 0 then ServerError
    else Listing(RankRows(Take(SortedTable(board), n)))
  }

  /** The page has min(limit, rows) entries ranked 1..n without gaps, in
      descending score order with the rows without a score first. */
  lemma LeaderboardSpec(board: map<int, Row>, limit: Option<string>)
    requires EffectiveLimit(limit) > 0
    ensures var p := Leaderboard(board, limit).rows; var n := EffectiveLimit(limit);
      && |p| == (if n < |board| then n else |board|)
      && (forall i :: 0 <= i < |p| ==> p[i].rank == i + 1)
      && (forall i, j :: 0 <= i < j < |p| ==> NoLaterDesc(p[i].score, p[j].score))
  {
    BoardPage(board, EffectiveLimit(limit), Leaderboard(board, limit).rows);
  }

  /** The first n rows of the board's sorted table, ranked. */
  lemma BoardPage(board: map<int, Row>, n: nat, p: seq<Ranked>)
    requires p == RankRows(Take(SortedTable(board), n))
    ensures |p| == (if n < |board| then n else |board|)
    ensures forall i :: 0 <= i < |p| ==> p[i].rank == i + 1
    ensures forall i, j :: 0 <= i < j < |p| ==> NoLaterDesc(p[i].score, p[j].score)
  {
    SortedTableSpec(board);
    RankedPage(SortedTable(board), n, p);
  }

  /** Ranking the first n rows of a sorted table lists min(n, rows) rows,
      ranked 1.. without gaps, in the table's order. */
  lemma RankedPage(sorted: seq<Keyed>, n: nat, p: seq<Ranked>)
    requires forall i, j :: 0 <= i < j < |sorted| ==> NoLaterDesc(sorted[i].row.bestScore, sorted[j].row.bestScore)
    requires p == RankRows(Take(sorted, n))
    ensures |p| == (if n < |sorted| then n else |sorted|)
    ensures forall i :: 0 <= i < |p| ==> p[i].rank == i + 1
    ensures forall i, j :: 0 <= i < j < |p| ==> NoLaterDesc(p[i].score, p[j].score)
  {
    var top := Take(sorted, n);
    forall i, j | 0 <= i < j < |p| ensures NoLaterDesc(p[i].score, p[j].score) {
      assert top[i] == sorted[i] && top[j] == sorted[j];
    }
  }

  /** A user whose every ended game carried a null score has a NULL best
      score, and any such row heads the leaderboard. */
  lemma NullBestListedFirst(board: map<int, Row>, limit: Option<string>, u: int)
    requires EffectiveLimit(limit) > 0
    requires u in board && board[u].bestScore.None?
    ensures var p := Leaderboard(board, limit).rows; p != [] && p[0].score.None?
  {
    var table := Table(board);
    assert Keyed(u, board[u]) in Filter(table, NullBest);
    var sorted := SortedTable(board);
    assert sorted[0] == Filter(table, NullBest)[0];
    SortedTableSpec(board);
  }

  /** Some user of the board has the listed row's score and name. */
  ghost predicate ListedFromBoard(board: map<int, Row>, r: Ranked) {
    exists u :: u in board && board[u].bestScore == r.score && board[u].username == r.username
  }

  /** Every listed row is a leaderboard row. */
  lemma LeaderboardRowsExist(board: map<int, Row>, limit: Option<string>)
    requires EffectiveLimit(limit) > 0
    ensures var p := Leaderboard(board, limit).rows; forall i :: 0 <= i < |p| ==> ListedFromBoard(board, p[i])
  {
    var n := EffectiveLimit(limit);
    var p := Leaderboard(board, limit).rows;
    assert p == RankRows(Take(SortedTable(board), n));
    SortedTableSpec(board);
    RowsOfPage(board, SortedTable(board), n, p);
  }

  /** Every row on a page of rows of the board is a row of the board. */
  lemma RowsOfPage(board: map<int, Row>, sorted: seq<Keyed>, n: nat, p: seq<Ranked>)
    requires forall i :: 0 <= i < |sorted| ==> sorted[i].userId in board && board[sorted[i].userId] == sorted[i].row
    requires p == RankRows(Take(sorted, n))
    ensures forall i :: 0 <= i < |p| ==> ListedFromBoard(board, p[i])
  {
    var top := Take(sorted, n);
    forall i | 0 <= i < |p| ensures ListedFromBoard(board, p[i]) {
      assert top[i] == sorted[i];
      var u := sorted[i].userId;
      assert u in board && board[u] == sorted[i].row;
    }
  }

  /** The user ids of the rows the LIMIT keeps. */
  function PageUsers(board: map<int, Row>, limit: Option<string>): (ids: seq<int>)
    requires EffectiveLimit(limit) > 0
    ensures |ids| == |Leaderboard(board, limit).rows|
    ensures var rows := Take(SortedTable(board), EffectiveLimit(limit));
      |ids| == |rows| && forall i :: 0 <= i < |rows| ==> ids[i] == rows[i].userId
  {
    var rows := Take(SortedTable(board), EffectiveLimit(limit));
    assert Leaderboard(board, limit).rows == RankRows(rows);
    UserIds(rows)
  }

  function UserIds(rows: seq<Keyed>): (ids: seq<int>)
    ensures |ids| == |rows| && forall i :: 0 <= i < |rows| ==> ids[i] == rows[i].userId
  {
    seq(|rows|, i requires 0 <= i < |rows| => rows[i].userId)
  }

  /** The i-th listed row is the row of the i-th kept user. */
  lemma PageUsersRows(board: map<int, Row>, limit: Option<string>)
    requires EffectiveLimit(limit) > 0
    ensures var p := Leaderboard(board, limit).rows; var ids := PageUsers(board, limit);
      forall i :: 0 <= i < |p| ==>
        ids[i] in board && p[i].score == board[ids[i]].bestScore && p[i].username == board[ids[i]].username
  {
    var n := EffectiveLimit(limit);
    assert Leaderboard(board, limit).rows == RankRows(Take(SortedTable(board), n));
    SortedTableSpec(board);
    PageRowsOf(board, SortedTable(board), n, Leaderboard(board, limit).rows, PageUsers(board, limit));
  }

  lemma PageRowsOf(board: map<int, Row>, sorted: seq<Keyed>, n: nat, p: seq<Ranked>, ids: seq<int>)
    requires forall i :: 0 <= i < |sorted| ==> sorted[i].userId in board && board[sorted[i].userId] == sorted[i].row
    requires p == RankRows(Take(sorted, n))
    requires |ids| == |Take(sorted, n)| && forall i :: 0 <= i < |ids| ==> ids[i] == Take(sorted, n)[i].userId
    ensures forall i :: 0 <= i < |p| ==>
      ids[i] in board && p[i].score == board[ids[i]].bestScore && p[i].username == board[ids[i]].username
  {
    var top := Take(sorted, n);
    forall i | 0 <= i < |p|
      ensures ids[i] in board && p[i].score == board[ids[i]].bestScore && p[i].username == board[ids[i]].username
    {
      assert top[i] == sorted[i];
    }
  }

  /** A user the LIMIT leaves off the page sorts no earlier than any listed
      row: the page is the top of the table. */
  lemma LeaderboardKeepsTop(board: map<int, Row>, limit: Option<string>)
    requires EffectiveLimit(limit) > 0
    ensures var p := Leaderboard(board, limit).rows; var ids := PageUsers(board, limit);
      forall u :: u in board && u !in ids ==>
        forall i :: 0 <= i < |p| ==> NoLaterDesc(p[i].score, board[u].bestScore)
  {
    var n := EffectiveLimit(limit);
    var p := Leaderboard(board, limit).rows;
    var ids := PageUsers(board, limit);
    SortedTableSpec(board);
    KeepsTopOf(board, Take(SortedTable(board), n), p, ids);
  }

  lemma KeepsTopOf(board: map<int, Row>, top: seq<Keyed>, p: seq<Ranked>, ids: seq<int>)
    requires |SortedTable(board)| == |board|
    requires forall x :: x in SortedTable(board) <==> x in Table(board)
    requires var sorted := SortedTable(board);
      forall i, j :: 0 <= i < j < |sorted| ==> NoLaterDesc(sorted[i].row.bestScore, sorted[j].row.bestScore)
    requires |top| <= |SortedTable(board)| && top == SortedTable(board)[..|top|]
    requires p == RankRows(top)
    requires |ids| == |top| && forall i :: 0 <= i < |top| ==> ids[i] == top[i].userId
    ensures forall u :: u in board && u !in ids ==>
      forall i :: 0 <= i < |p| ==> NoLaterDesc(p[i].score, board[u].bestScore)
  {
    forall u, i | u in board && u !in ids && 0 <= i < |p|
      ensures NoLaterDesc(p[i].score, board[u].bestScore)
    {
      assert Keyed(u, board[u]) in Table(board);
      OffPageAfter(SortedTable(board), top, p, ids, Keyed(u, board[u]), i);
    }
  }

  /** A row of a sorted table whose user is not among the kept ones sorts
      no earlier than any kept row. */
  lemma OffPageAfter(sorted: seq<Keyed>, top: seq<Keyed>, p: seq<Ranked>, ids: seq<int>, x: Keyed, i: nat)
    requires forall i, j :: 0 <= i < j < |sorted| ==> NoLaterDesc(sorted[i].row.bestScore, sorted[j].row.bestScore)
    requires |top| <= |sorted| && top == sorted[..|top|]
    requires p == RankRows(top)
    requires |ids| == |top| && forall k :: 0 <= k < |top| ==> ids[k] == top[k].userId
    requires x in sorted && x.userId !in ids && i < |p|
    ensures NoLaterDesc(p[i].score, x.row.bestScore)
  {
    forall k | 0 <= k < |top| ensures sorted[k] != x {
      assert top[k] == sorted[k];
      assert ids[k] in ids;
    }
    var m :| 0 <= m < |sorted| && sorted[m] == x;
    assert top[i] == sorted[i];
  }

  // ---------------------------------------------------------------------
  // getUserStats

  datatype Stats = Stats(totalGames: nat, totalScore: int, bestScore: int, totalPlaytime: int)

  datatype StatsReply = StatsOk(stats: Stats) | StatsUnauthorized

  function SessionsTable(sessions: map<int, Session>): (r: seq<Session>)
    ensures |r| == |sessions|
    ensures forall s :: s in r <==> exists id :: id in sessions && sessions[id] == s
  {
    var keys := AscendingKeys(sessions.Keys);
    assert |sessions.Keys| == |sessions|;
    var r := seq(|keys|, i requires 0 <= i < |keys| => sessions[keys[i]]);
    ValuesInKeyOrder(sessions, keys, r);
    r
  }

  /** The values of a table listed key by key are exactly its values. */
  lemma ValuesInKeyOrder(m: map<int, Session>, keys: seq<int>, r: seq<Session>)
    requires forall k :: k in keys <==> k in m
    requires |r| == |keys|
    requires forall i :: 0 <= i < |keys| ==> keys[i] in m && r[i] == m[keys[i]]
    ensures forall v :: v in r <==> exists id :: id in m && m[id] == v
  {
    forall v | v in r ensures exists id :: id in m && m[id] == v {
      var i :| 0 <= i < |r| && r[i] == v;
      var id := keys[i];
      assert id in m && m[id] == v;
    }
    forall id | id in m ensures m[id] in r {
      assert id in keys;
      var i :| 0 <= i < |keys| && keys[i] == id;
      assert r[i] == m[id];
    }
  }

  function OwnedBy(userId: int): Session -> bool {
    (s: Session) => s.userId == Some(userId)
  }

  function ScoreOrZero(s: Session): int { if s.score.Some? then s.score.value else 0 }

  function DurationOrZero(s: Session): int { if s.duration.Some? then s.duration.value else 0 }

  /** COALESCE(SUM(score), 0): the sum of the non-NULL scores, 0 when there
      are none. */
  function SumScores(ss: seq<Session>): int {
    Sum(ss, ScoreOrZero)
  }

  /** COALESCE(SUM(duration), 0). */
  function SumDurations(ss: seq<Session>): int {
    Sum(ss, DurationOrZero)
  }

  /** MAX over the non-NULL scores; None when every score is NULL. */
  function MaxScore(ss: seq<Session>): (m: Option<int>)
    ensures m.None? <==> forall i :: 0 <= i < |ss| ==> ss[i].score.None?
    ensures m.Some? ==> exists i :: 0 <= i < |ss| && ss[i].score == m
    ensures m.Some? ==> forall i :: 0 <= i < |ss| && ss[i].score.Some? ==> ss[i].score.value <= m.value
  {
    if ss == [] then None
    else
      var init := ss[..|ss| - 1];
      var last := ss[|ss| - 1].score;
      var m := MaxScore(init);
      assert forall i :: 0 <= i < |init| ==> init[i] == ss[i];
      if m.None? then last
      else if last.None? then m
      else Some(Max(m.value, last.value))
  }

  /** getUserStats: 401 without a (truthy) user; otherwise COUNT(*) of the
      user's sessions, ended or not, the sums of the non-NULL scores and
      durations, and the highest score (0 when none). */
  function UserStats(sessions: map<int, Session>, userId: Option<int>): (r: StatsReply)
    ensures r.StatsUnauthorized? <==> !Truthy(userId)
  {
    if !Truthy(userId) then StatsUnauthorized
    else
      var mine := Filter(SessionsTable(sessions), OwnedBy(userId.value));
      var best := MaxScore(mine);
      StatsOk(Stats(|mine|, SumScores(mine), if best.Some? then best.value else 0, SumDurations(mine)))
  }

  /** The stats count every session of the user, and the best score is one
      of their recorded scores, beats all of them, and is 0 when none of
      their sessions has been ended. */
  lemma UserStatsSpec(sessions: map<int, Session>, userId: int)
    requires userId != 0
    ensures var r := UserStats(sessions, Some(userId)).stats; var table := SessionsTable(sessions);
      && r.totalGames == Count(table, OwnedBy(userId))
      && (forall s :: s in table && s.userId == Some(userId) && s.score.Some? ==> s.score.value <= r.bestScore)
      && ((exists s :: s in table && s.userId == Some(userId) && s.score == Some(r.bestScore))
          || (r.bestScore == 0 && forall s :: s in table && s.userId == Some(userId) ==> s.score.None?))
  {
    var table := SessionsTable(sessions);
    var mine := Filter(table, OwnedBy(userId));
    FilterCount(table, OwnedBy(userId));
    var best := MaxScore(mine);
    forall s | s in table && s.userId == Some(userId) && s.score.Some?
      ensures s.score.value <= best.value
    {
      assert OwnedBy(userId)(s);
      var i :| 0 <= i < |mine| && mine[i] == s;
    }
    if best.Some? {
      var i :| 0 <= i < |mine| && mine[i].score == best;
      assert mine[i] in mine;
    } else {
      forall s | s in table && s.userId == Some(userId) ensures s.score.None? {
        assert OwnedBy(userId)(s);
        var i :| 0 <= i < |mine| && mine[i] == s;
      }
    }
  }

  /** The total score and playtime are the sums over the user's sessions
      whatever order the table is read in: any listing of the same sessions
      gives the same totals, and a session adds its score and duration
      (NULL as 0). */
  lemma UserStatsTotals(sessions: map<int, Session>, userId: int, listing: seq<Session>)
    requires userId != 0
    requires multiset(listing) == multiset(Filter(SessionsTable(sessions), OwnedBy(userId)))
    ensures var r := UserStats(sessions, Some(userId)).stats;
      && r.totalScore == Sum(listing, ScoreOrZero)
      && r.totalPlaytime == Sum(listing, DurationOrZero)
      && r.totalGames == |listing|
  {
    var mine := Filter(SessionsTable(sessions), OwnedBy(userId));
    SumPermutation(mine, listing, ScoreOrZero);
    SumPermutation(mine, listing, DurationOrZero);
    assert |listing| == |multiset(listing)| == |multiset(mine)| == |mine|;
  }

  /** One more session adds its score and its duration to the totals. */
  lemma SumsGrow(ss: seq<Session>, s: Session)
    ensures SumScores(ss + [s]) == SumScores(ss) + ScoreOrZero(s)
    ensures SumDurations(ss + [s]) == SumDurations(ss) + DurationOrZero(s)
  {
    SumAppend(ss, [s], ScoreOrZero);
    SumAppend(ss, [s], DurationOrZero);
    assert [s][1..] == [];
  }

  // ---------------------------------------------------------------------
  // getUserPersonalBests

  /** The reply's figures; `bestScore` is None where parseInt(null) gives
      NaN. */
  datatype Bests = Bests(bestScore: Option<int>, totalGames: nat, totalPlaytime: int, lastPlayed: Option<int>)

  datatype BestsReply = BestsOk(bests: Bests) | BestsUnauthorized

  /** The user's leaderboard row, or zeros and no last-played time. */
  function PersonalBests(board: map<int, Row>, userId: Option<int>): (r: BestsReply)
    ensures r.BestsUnauthorized? <==> !Truthy(userId)
  {
    if !Truthy(userId) then BestsUnauthorized
    else if userId.value in board then
      var row := board[userId.value];
      BestsOk(Bests(row.bestScore, row.totalGames, row.totalPlaytime, Some(row.lastPlayed)))
    else BestsOk(Bests(Some(0), 0, 0, None))
  }

  /** On a board that summarises the recorded plays, a user's personal
      bests report the highest of their scores, the number of their ended
      games and their total playtime; a user who has never finished a game
      gets zeros. */
  lemma PersonalBestsReportPlays(board: map<int, Row>, recorded: map<int, seq<Play>>, userId: int)
    requires BoardSummarises(board, recorded) && userId != 0
    ensures var b := PersonalBests(board, Some(userId)).bests; var plays := Recorded(recorded, userId);
      && b.totalGames == |plays|
      && b.totalPlaytime == TotalPlaytime(plays)
      && (forall i :: 0 <= i < |plays| && plays[i].score.Some? ==>
            b.bestScore.Some? && plays[i].score.value <= b.bestScore.value)
      && (plays == [] <==> b.lastPlayed.None?)
      && (plays == [] ==> b.bestScore == Some(0))
      && (plays != [] ==> (b.bestScore.None? <==> forall i :: 0 <= i < |plays| ==> plays[i].score.None?))
      && (plays != [] && b.bestScore.Some? ==> exists i :: 0 <= i < |plays| && plays[i].score == b.bestScore)
  {
  }
}
