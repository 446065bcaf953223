/** The per-game-type score list of models/Leaderboard.js: one document per
    recorded score, queried for a ranked top list, a user's rank and a
    user's best score per game type. */
module LeaderboardModel {
  import opened Common
  import opened Ordering

  datatype GameType = Race | TimeTrial | Practice | Tournament

  function GameTypeName(t: GameType): string {
    match t
    case Race => "race"
    case TimeTrial => "time-trial"
    case Practice => "practice"
    case Tournament => "tournament"
  }

  /** The schema's enum check on gameType. */
  function ParseGameType(s: string): (r: Option<GameType>)
    ensures r.Some? ==> GameTypeName(r.value) == s
  {
    if s == "race" then Some(Race)
    else if s == "time-trial" then Some(TimeTrial)
    else if s == "practice" then Some(Practice)
    else if s == "tournament" then Some(Tournament)
    else None
  }

  lemma GameTypeRoundTrip(t: GameType)
    ensures ParseGameType(GameTypeName(t)) == Some(t)
  {
  }

  /** One score document.  Object ids are opaque strings; `gameData` and
      the display-only `formattedScore` are not modelled. */
  datatype Entry = Entry(
    userId: string,
    userName: string,
    score: int,
    gameType: GameType,
    gameSessionId: string,
    achievedAt: int,
    isActive: bool)

  /** The schema bounds that `save` enforces: a non-empty (trimmed) name
      and a score of at least 0; the game type is one of the four by
      construction. */
  predicate ValidEntry(e: Entry) {
    e.userName != [] && e.score >= 0
  }

  datatype SchemaError = UserNameRequired | ScoreNegative | GameTypeNotAllowed

  datatype Created = Created(entry: Entry) | Rejected(errors: set<SchemaError>)

  /** Creating a document: the name is trimmed by the schema's setter, the
      game type defaults to race, isActive to true and achievedAt to the
      current time; validation reports every failing path at once. */
  function CreateEntry(userId: string, userName: string, score: int, gameType: Option<string>,
                       gameSessionId: string, now: int): (r: Created)
    ensures r.Created? ==> ValidEntry(r.entry) && r.entry.isActive && r.entry.achievedAt == now
    ensures r.Created? ==> r.entry.userName == Trim(userName) && r.entry.score == score
    ensures r.Created? && gameType.None? ==> r.entry.gameType == Race
    ensures r.Created? && gameType.Some? ==> GameTypeName(r.entry.gameType) == gameType.value
    ensures r.Rejected? ==> r.errors != {}
    ensures r.Rejected? ==> (UserNameRequired in r.errors <==> Trim(userName) == [])
    ensures r.Rejected? ==> (ScoreNegative in r.errors <==> score < 0)
    ensures r.Rejected? ==> (GameTypeNotAllowed in r.errors <==> gameType.Some? && ParseGameType(gameType.value).None?)
  {
    var name := Trim(userName);
    var parsed := if gameType.None? then Some(Race) else ParseGameType(gameType.value);
    if name != [] && score >= 0 && parsed.Some? then
      Created(Entry(userId, name, score, parsed.value, gameSessionId, now, true))
    else
      Rejected(SchemaErrors(name == [], score < 0, parsed.None?))
  }

  /** The failing paths, one error per failed rule. */
  function SchemaErrors(nameEmpty: bool, negative: bool, typeBad: bool): (errors: set<SchemaError>)
    ensures UserNameRequired in errors <==> nameEmpty
    ensures ScoreNegative in errors <==> negative
    ensures GameTypeNotAllowed in errors <==> typeBad
    ensures errors == {} <==> !nameEmpty && !negative && !typeBad
  {
    (if nameEmpty then {UserNameRequired} else {})
    + (if negative then {ScoreNegative} else {})
    + (if typeBad then {GameTypeNotAllowed} else {})
  }

  // ---------------------------------------------------------------------
  // getTopScores

  datatype RankedEntry = RankedEntry(entry: Entry, rank: nat)

  function ScoreOf(e: Entry): int { e.score }

  function ActiveOfType(t: GameType): Entry -> bool {
    (e: Entry) => e.isActive && e.gameType == t
  }

  /** MongoDB's reading of a cursor limit: 0 means no limit and a negative
      limit is taken by its absolute value; the JavaScript default is 10. */
  function CursorLimit(limit: Option<int>): nat {
    match limit
    case None => 10
    case Some(n) => if n < 0 then -n else n
  }

  function Page(sorted: seq<Entry>, limit: Option<int>): (r: seq<Entry>)
    ensures |r| <= |sorted| && r == sorted[..|r|]
    ensures |r| == if CursorLimit(limit) == 0 || |sorted| <= CursorLimit(limit) then |sorted| else CursorLimit(limit)
  {
    var n := CursorLimit(limit);
    if n == 0 then sorted else Take(sorted, n)
  }

  function Entries(r: seq<RankedEntry>): (es: seq<Entry>)
    ensures |es| == |r|
    ensures forall i :: 0 <= i < |r| ==> es[i] == r[i].entry
  {
    seq(|r|, i requires 0 <= i < |r| => r[i].entry)
  }

  /** Active entries of one game type, highest score first, cut to the
      limit, each ranked by its position. */
  function TopScores(entries: seq<Entry>, t: GameType, limit: Option<int>): (r: seq<RankedEntry>)
    ensures forall i :: 0 <= i < |r| ==> r[i].rank == i + 1
  {
    var page := Page(SortDesc(Filter(entries, ActiveOfType(t)), ScoreOf), limit);
    seq(|page|, i requires 0 <= i < |page| => RankedEntry(page[i], i + 1))
  }

  function SortedMatching(entries: seq<Entry>, t: GameType): seq<Entry> {
    SortDesc(Filter(entries, ActiveOfType(t)), ScoreOf)
  }

  lemma TopIsPageOfSorted(entries: seq<Entry>, t: GameType, limit: Option<int>)
    ensures Entries(TopScores(entries, t, limit)) == Page(SortedMatching(entries, t), limit)
  {
  }

  /** The top list holds only active entries of the requested type, in
      non-increasing score order, as many as the limit allows, and no
      entry left out scores higher than one listed. */
  lemma TopScoresSpec(entries: seq<Entry>, t: GameType, limit: Option<int>)
    ensures var r := TopScores(entries, t, limit);
      && (forall i :: 0 <= i < |r| ==> r[i].entry in entries && r[i].entry.isActive && r[i].entry.gameType == t)
      && (forall i, j :: 0 <= i < j < |r| ==> r[i].entry.score >= r[j].entry.score)
      && |r| == (var n := Count(entries, ActiveOfType(t));
                 if CursorLimit(limit) == 0 || n <= CursorLimit(limit) then n else CursorLimit(limit))
      && (forall e :: e in entries && e.isActive && e.gameType == t && e !in Entries(r) ==>
            forall i :: 0 <= i < |r| ==> e.score <= r[i].entry.score)
  {
    TopEntriesMatch(entries, t, limit);
    TopDominates(entries, t, limit);
    SortedSelection(entries, ActiveOfType(t), ScoreOf);
  }

  lemma TopEntriesMatch(entries: seq<Entry>, t: GameType, limit: Option<int>)
    ensures var r := TopScores(entries, t, limit);
      && (forall i :: 0 <= i < |r| ==> r[i].entry in entries && ActiveOfType(t)(r[i].entry))
      && (forall i, j :: 0 <= i < j < |r| ==> r[i].entry.score >= r[j].entry.score)
  {
    var sorted := SortedMatching(entries, t);
    var page := Page(sorted, limit);
    var r := TopScores(entries, t, limit);
    TopIsPageOfSorted(entries, t, limit);
    SortedSelection(entries, ActiveOfType(t), ScoreOf);
    forall i | 0 <= i < |r| ensures r[i].entry in entries && ActiveOfType(t)(r[i].entry) {
      assert r[i].entry == Entries(r)[i] == sorted[i];
    }
    TopMembers(sorted, page, r);
  }

  lemma TopDominates(entries: seq<Entry>, t: GameType, limit: Option<int>)
    ensures var r := TopScores(entries, t, limit);
      forall e :: e in entries && e.isActive && e.gameType == t && e !in Entries(r) ==>
        forall i :: 0 <= i < |r| ==> e.score <= r[i].entry.score
  {
    var sorted := SortedMatching(entries, t);
    var page := Page(sorted, limit);
    var r := TopScores(entries, t, limit);
    TopIsPageOfSorted(entries, t, limit);
    SortedSelection(entries, ActiveOfType(t), ScoreOf);
    forall e | e in entries && e.isActive && e.gameType == t && e !in Entries(r)
      ensures forall i :: 0 <= i < |r| ==> e.score <= r[i].entry.score
    {
      assert ActiveOfType(t)(e);
      OutsidePageBelow(sorted, page, r, e);
    }
  }

  /** A row of a sorted sequence that did not make it onto the page scores
      no higher than any row on it. */
  lemma OutsidePageBelow(sorted: seq<Entry>, page: seq<Entry>, r: seq<RankedEntry>, e: Entry)
    requires SortedDesc(sorted, ScoreOf) && |page| <= |sorted| && page == sorted[..|page|]
    requires Entries(r) == page
    requires e in multiset(sorted) && e !in page
    ensures forall i :: 0 <= i < |r| ==> e.score <= r[i].entry.score
  {
    PrefixDominates(sorted, ScoreOf, |page|);
    assert e in multiset(sorted) - multiset(page);
    forall i | 0 <= i < |r| ensures e.score <= r[i].entry.score {
      assert r[i].entry == Entries(r)[i] == page[i] == sorted[i];
      assert ScoreOf(e) <= ScoreOf(sorted[i]);
    }
  }

  lemma TopMembers(sorted: seq<Entry>, page: seq<Entry>, r: seq<RankedEntry>)
    requires SortedDesc(sorted, ScoreOf) && |page| <= |sorted| && page == sorted[..|page|]
    requires Entries(r) == page
    ensures forall i :: 0 <= i < |r| ==> r[i].entry in sorted
    ensures forall i, j :: 0 <= i < j < |r| ==> r[i].entry.score >= r[j].entry.score
  {
    forall i | 0 <= i < |r| ensures r[i].entry in sorted {
      assert r[i].entry == Entries(r)[i] == sorted[i];
    }
    forall i, j | 0 <= i < j < |r| ensures r[i].entry.score >= r[j].entry.score {
      assert r[i].entry == Entries(r)[i] == sorted[i];
      assert r[j].entry == Entries(r)[j] == sorted[j];
      assert ScoreOf(sorted[i]) >= ScoreOf(sorted[j]);
    }
  }

  // ---------------------------------------------------------------------
  // getUserRank

  function OwnActive(userId: string, t: GameType): Entry -> bool {
    (e: Entry) => e.userId == userId && e.isActive && e.gameType == t
  }

  function ActiveAbove(t: GameType, score: int): Entry -> bool {
    (e: Entry) => e.isActive && e.gameType == t && e.score > score
  }

  ghost predicate HasActiveEntry(entries: seq<Entry>, userId: string, t: GameType) {
    exists e :: e in entries && OwnActive(userId, t)(e)
  }

  /** The score of the user's first active entry of the type once sorted
      by score descending: the user's best. */
  function UserBest(entries: seq<Entry>, userId: string, t: GameType): (b: int)
    requires HasActiveEntry(entries, userId, t)
    ensures exists e :: e in entries && OwnActive(userId, t)(e) && e.score == b
    ensures forall e :: e in entries && OwnActive(userId, t)(e) ==> e.score <= b
  {
    var own := Filter(entries, OwnActive(userId, t));
    var e :| e in entries && OwnActive(userId, t)(e);
    assert e in own;
    SortedFirstIsMax(own, ScoreOf);
    SortDesc(own, ScoreOf)[0].score
  }

  /** null when the user has no active entry of the type; otherwise one
      more than the number of active entries of the type that score
      strictly higher than the user's best. */
  function UserRank(entries: seq<Entry>, userId: string, t: GameType): (r: Option<nat>)
    ensures r.None? <==> !HasActiveEntry(entries, userId, t)
    ensures r.Some? ==> r.value >= 1
    ensures r.Some? ==> r.value == 1 + Count(entries, ActiveAbove(t, UserBest(entries, userId, t)))
  {
    if exists e :: e in entries && OwnActive(userId, t)(e) then
      Some(1 + Count(entries, ActiveAbove(t, UserBest(entries, userId, t))))
    else
      None
  }

  /** Counting the entries that beat a score over the whole collection or
      over the type's active entries only gives the same number. */
  lemma CountAboveInMatching(entries: seq<Entry>, t: GameType, b: int)
    ensures Count(entries, ActiveAbove(t, b)) == Count(Filter(entries, ActiveOfType(t)), ActiveAbove(t, b))
  {
    var matching := Filter(entries, ActiveOfType(t));
    FilterImplied(entries, ActiveOfType(t), ActiveAbove(t, b));
    FilterCount(matching, ActiveAbove(t, b));
    FilterCount(entries, ActiveAbove(t, b));
  }

  /** A user's rank never exceeds the position of any of their entries in
      the top list, and it equals that position when every entry listed
      before it scores strictly higher and the entry is the user's best
      (the tie-free case). */
  lemma RankWithinTopPosition(entries: seq<Entry>, userId: string, t: GameType, limit: Option<int>, j: nat)
    requires j < |TopScores(entries, t, limit)|
    requires TopScores(entries, t, limit)[j].entry.userId == userId
    ensures UserRank(entries, userId, t).Some?
    ensures UserRank(entries, userId, t).value <= TopScores(entries, t, limit)[j].rank
    ensures var top := TopScores(entries, t, limit);
      top[j].entry.score == UserBest(entries, userId, t)
      && (forall i :: 0 <= i < j ==> top[i].entry.score > top[j].entry.score)
      ==> UserRank(entries, userId, t).value == top[j].rank
  {
    var top := TopScores(entries, t, limit);
    var sorted := SortedMatching(entries, t);
    TopIsPageOfSorted(entries, t, limit);
    SortedSelection(entries, ActiveOfType(t), ScoreOf);
    assert top[j].entry == Entries(top)[j] == sorted[j];
    assert sorted[j] in entries && OwnActive(userId, t)(sorted[j]);
    var b := UserBest(entries, userId, t);
    RankCount(entries, t, b, j);
    if forall i :: 0 <= i < j ==> top[i].entry.score > top[j].entry.score {
      forall i | 0 <= i < j ensures sorted[i].score > sorted[j].score {
        assert top[i].entry == Entries(top)[i] == sorted[i];
      }
    }
  }

  /** Over the sorted active entries of the type, the entries beating a
      score at least that of row j all sit before row j. */
  lemma RankCount(entries: seq<Entry>, t: GameType, b: int, j: nat)
    requires j < |SortedMatching(entries, t)| && SortedMatching(entries, t)[j].score <= b
    ensures Count(entries, ActiveAbove(t, b)) <= j
    ensures var sorted := SortedMatching(entries, t);
      sorted[j].score == b && (forall i :: 0 <= i < j ==> sorted[i].score > b)
      ==> Count(entries, ActiveAbove(t, b)) == j
  {
    var matching := Filter(entries, ActiveOfType(t));
    var sorted := SortedMatching(entries, t);
    var above := ActiveAbove(t, b);
    CountAboveInMatching(entries, t, b);
    CountPermutation(matching, sorted, above);
    assert forall x :: above(x) ==> ScoreOf(x) > ScoreOf(sorted[j]);
    RowsAboveSitBefore(sorted, ScoreOf, j, above);
    if forall i :: 0 <= i < j ==> sorted[i].score > b {
      forall i | 0 <= i < j ensures above(sorted[i]) {
        assert sorted[i] in multiset(matching);
      }
    }
  }

  // ---------------------------------------------------------------------
  // getUserPersonalBests

  datatype Group = Group(bestScore: int, achievedAt: int, totalEntries: nat)

  function OwnActiveAny(userId: string): Entry -> bool {
    (e: Entry) => e.userId == userId && e.isActive
  }

  /** One $group step: fold an entry into its game type's group. */
  function AddToGroups(m: map<GameType, Group>, e: Entry): map<GameType, Group> {
    if e.gameType in m then
      var g := m[e.gameType];
      m[e.gameType := Group(
        if e.score > g.bestScore then e.score else g.bestScore,
        if e.achievedAt > g.achievedAt then e.achievedAt else g.achievedAt,
        g.totalEntries + 1)]
    else
      m[e.gameType := Group(e.score, e.achievedAt, 1)]
  }

  function GroupByType(s: seq<Entry>): map<GameType, Group> {
    if s == [] then map[] else AddToGroups(GroupByType(s[..|s| - 1]), s[|s| - 1])
  }

  /** $match on the user and isActive, then $group by gameType. */
  function PersonalBests(entries: seq<Entry>, userId: string): map<GameType, Group> {
    GroupByType(Filter(entries, OwnActiveAny(userId)))
  }

  function OfType(t: GameType): Entry -> bool {
    (e: Entry) => e.gameType == t
  }

  ghost predicate GroupIsSummary(s: seq<Entry>, t: GameType, g: Group) {
    && g.totalEntries == Count(s, OfType(t))
    && (exists e :: e in s && e.gameType == t && e.score == g.bestScore)
    && (forall e :: e in s && e.gameType == t ==> e.score <= g.bestScore)
    && (exists e :: e in s && e.gameType == t && e.achievedAt == g.achievedAt)
    && (forall e :: e in s && e.gameType == t ==> e.achievedAt <= g.achievedAt)
  }

  /** Each group summarises exactly the entries of its game type. */
  lemma {:induction false} GroupByTypeSpec(s: seq<Entry>, t: GameType)
    ensures t in GroupByType(s) <==> exists e :: e in s && e.gameType == t
    ensures t in GroupByType(s) ==> GroupIsSummary(s, t, GroupByType(s)[t])
  {
    if s != [] {
      var init := s[..|s| - 1];
      GroupByTypeSpec(init, t);
      assert s == init + [s[|s| - 1]];
      GroupsStep(init, s[|s| - 1], t);
    }
  }

  /** One more entry keeps the groups summarising their entries. */
  lemma GroupsStep(init: seq<Entry>, last: Entry, t: GameType)
    requires t in GroupByType(init) <==> exists e :: e in init && e.gameType == t
    requires t in GroupByType(init) ==> GroupIsSummary(init, t, GroupByType(init)[t])
    ensures t in GroupByType(init + [last]) <==> exists e :: e in init + [last] && e.gameType == t
    ensures t in GroupByType(init + [last]) ==> GroupIsSummary(init + [last], t, GroupByType(init + [last])[t])
  {
    var s := init + [last];
    GroupsStepCount(init, last, t);
    var m := GroupByType(init);
    if last.gameType != t {
      if t in m {
        assert GroupByType(s)[t] == m[t];
        GroupKept(init, last, t, m[t]);
      }
    } else if t in m {
      var g := m[t];
      var grown := Group(
        if last.score > g.bestScore then last.score else g.bestScore,
        if last.achievedAt > g.achievedAt then last.achievedAt else g.achievedAt,
        g.totalEntries + 1);
      assert GroupByType(s)[t] == grown;
      GroupGrows(init, last, t, g, grown);
    } else {
      assert GroupByType(s)[t] == Group(last.score, last.achievedAt, 1);
      GroupStarts(init, last, t);
    }
  }

  /** An entry of another type leaves a group's summary as it is. */
  lemma GroupKept(init: seq<Entry>, last: Entry, t: GameType, g: Group)
    requires last.gameType != t && GroupIsSummary(init, t, g)
    ensures GroupIsSummary(init + [last], t, g)
  {
    GroupsStepCount(init, last, t);
    assert forall e :: e in init + [last] <==> e in init || e == last;
  }

  /** An entry of the group's type is folded into it. */
  lemma GroupGrows(init: seq<Entry>, last: Entry, t: GameType, g: Group, grown: Group)
    requires last.gameType == t && GroupIsSummary(init, t, g)
    requires grown == Group(
      if last.score > g.bestScore then last.score else g.bestScore,
      if last.achievedAt > g.achievedAt then last.achievedAt else g.achievedAt,
      g.totalEntries + 1)
    ensures GroupIsSummary(init + [last], t, grown)
  {
    GroupsStepCount(init, last, t);
    assert forall e :: e in init + [last] <==> e in init || e == last;
  }

  /** The first entry of a type starts its group. */
  lemma GroupStarts(init: seq<Entry>, last: Entry, t: GameType)
    requires last.gameType == t && !exists e :: e in init && e.gameType == t
    ensures GroupIsSummary(init + [last], t, Group(last.score, last.achievedAt, 1))
  {
    GroupsStepCount(init, last, t);
    forall i | 0 <= i < |init| ensures !OfType(t)(init[i]) {
      assert init[i] in init;
    }
    CountNone(init, OfType(t));
    assert forall e :: e in init + [last] <==> e in init || e == last;
  }

  /** The groups and the count after one more entry. */
  lemma GroupsStepCount(init: seq<Entry>, last: Entry, t: GameType)
    ensures GroupByType(init + [last]) == AddToGroups(GroupByType(init), last)
    ensures Count(init + [last], OfType(t)) == Count(init, OfType(t)) + (if last.gameType == t then 1 else 0)
    ensures (exists e :: e in init + [last] && e.gameType == t) <==>
      (exists e :: e in init && e.gameType == t) || last.gameType == t
  {
    assert forall e :: e in init + [last] <==> e in init || e == last;
    var s := init + [last];
    assert s[..|s| - 1] == init;
    assert s[|s| - 1] == last;
    CountAppend(init, [last], OfType(t));
    assert [last][1..] == [];
  }

  /** The personal bests hold one group per game type the user has an
      active entry of, with the best score, the latest achievement time and
      the number of such entries. */
  lemma PersonalBestsSpec(entries: seq<Entry>, userId: string, t: GameType)
    ensures t in PersonalBests(entries, userId) <==> HasActiveEntry(entries, userId, t)
    ensures t in PersonalBests(entries, userId) ==>
      var g := PersonalBests(entries, userId)[t];
      && g.totalEntries == Count(entries, OwnActive(userId, t))
      && g.bestScore == UserBest(entries, userId, t)
      && (forall e :: e in entries && OwnActive(userId, t)(e) ==> e.achievedAt <= g.achievedAt)
      && (exists e :: e in entries && OwnActive(userId, t)(e) && e.achievedAt == g.achievedAt)
  {
    var own := Filter(entries, OwnActiveAny(userId));
    GroupByTypeSpec(own, t);
    OwnOfType(entries, userId, t, own);
    if t in PersonalBests(entries, userId) {
      CountOwnOfType(entries, userId, t);
      OwnSummary(entries, userId, t, own, GroupByType(own)[t]);
    }
  }

  /** The user's active entries of type t are the entries of type t among
      the user's active entries. */
  lemma OwnOfType(entries: seq<Entry>, userId: string, t: GameType, own: seq<Entry>)
    requires own == Filter(entries, OwnActiveAny(userId))
    ensures forall e :: e in own && e.gameType == t <==> e in entries && OwnActive(userId, t)(e)
    ensures (exists e :: e in own && e.gameType == t) <==> HasActiveEntry(entries, userId, t)
  {
    forall e | e in own ensures OwnActiveAny(userId)(e) {
      var i :| 0 <= i < |own| && own[i] == e;
    }
  }

  /** A summary of the user's own entries of type t has the user's best
      score and the latest achievement time. */
  lemma OwnSummary(entries: seq<Entry>, userId: string, t: GameType, own: seq<Entry>, g: Group)
    requires forall e :: e in own && e.gameType == t <==> e in entries && OwnActive(userId, t)(e)
    requires GroupIsSummary(own, t, g)
    ensures HasActiveEntry(entries, userId, t)
    ensures g.bestScore == UserBest(entries, userId, t)
    ensures forall e :: e in entries && OwnActive(userId, t)(e) ==> e.achievedAt <= g.achievedAt
    ensures exists e :: e in entries && OwnActive(userId, t)(e) && e.achievedAt == g.achievedAt
  {
    var b := UserBest(entries, userId, t);
    var top :| top in own && top.gameType == t && top.score == g.bestScore;
    assert top in entries && OwnActive(userId, t)(top);
    var latest :| latest in own && latest.gameType == t && latest.achievedAt == g.achievedAt;
    assert latest in entries && OwnActive(userId, t)(latest);
    var best :| best in entries && OwnActive(userId, t)(best) && best.score == b;
    assert best in own && best.gameType == t;
  }

  lemma {:induction false} CountOwnOfType(entries: seq<Entry>, userId: string, t: GameType)
    ensures Count(Filter(entries, OwnActiveAny(userId)), OfType(t))
         == Count(entries, OwnActive(userId, t))
  {
    if entries != [] {
      CountOwnOfType(entries[1..], userId, t);
      var rest := Filter(entries[1..], OwnActiveAny(userId));
      if OwnActiveAny(userId)(entries[0]) {
        assert Filter(entries, OwnActiveAny(userId)) == [entries[0]] + rest;
        assert ([entries[0]] + rest)[1..] == rest;
      } else {
        assert Filter(entries, OwnActiveAny(userId)) == rest;
      }
    }
  }

  // ---------------------------------------------------------------------
  // updateUserName

  /** A loaded score document: the in-memory copy the method assigns to,
      and the copy the collection holds. */
  class EntryDocument {
    var entry: Entry
    var stored: Entry

    constructor Load(e: Entry)
      ensures entry == e && stored == e
    {
      entry := e;
      stored := e;
    }

    /** Assign the (trimmed) name and save: only userName changes, and the
        collection takes the document when the schema accepts it. */
    method UpdateUserName(newName: string) returns (saved: bool)
      modifies this
      ensures entry == old(entry).(userName := Trim(newName))
      ensures saved <==> ValidEntry(entry)
      ensures stored == if saved then entry else old(stored)
    {
      entry := entry.(userName := Trim(newName));
      saved := ValidEntry(entry);
      if saved {
        stored := entry;
      }
    }
  }
}
