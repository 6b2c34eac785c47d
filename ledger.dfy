/** The `scores` table and the best-score rule applied by `POST /api/scores`.

    The schema declares no uniqueness on `(user_id, game_id)`; that a user has at most
    one row per game follows only from the handler's read-compare-write, taken here as
    one atomic step. */
module Ledger {
  import opened Wrappers
  import opened Seqs

  datatype Score = Score(id: int, userId: int, gameId: string, score: int, updatedAt: int)

  /** The rows in storage order, and the last id the AUTOINCREMENT sequence handed out. */
  datatype ScoreTable = ScoreTable(rows: seq<Score>, lastId: int)

  /** A freshly created table. */
  const Empty := ScoreTable([], 0)

  predicate IsFor(row: Score, userId: int, gameId: string) {
    row.userId == userId && row.gameId == gameId
  }

  ghost predicate OnePerPair(rows: seq<Score>) {
    forall i, j :: 0 <= i < j < |rows| ==> rows[i].userId != rows[j].userId || rows[i].gameId != rows[j].gameId
  }

  /** Ids come from the AUTOINCREMENT sequence, in insertion order; one row per pair. */
  ghost predicate Valid(t: ScoreTable) {
    && t.lastId >= 0
    && (forall i :: 0 <= i < |t.rows| ==> 1 <= t.rows[i].id <= t.lastId)
    && (forall i, j :: 0 <= i < j < |t.rows| ==> t.rows[i].id < t.rows[j].id)
    && OnePerPair(t.rows)
  }

  /** `SELECT * FROM scores WHERE user_id = ? AND game_id = ?` with `.get()`: the first
      matching row in storage order. */
  function SelectScore(rows: seq<Score>, userId: int, gameId: string): (r: Option<Score>)
    ensures r.Some? ==> r.value in rows && IsFor(r.value, userId, gameId)
    ensures r.None? ==> forall s :: s in rows ==> !IsFor(s, userId, gameId)
  {
    if rows == [] then None
    else
      var init, last := rows[..|rows| - 1], rows[|rows| - 1];
      assert rows == init + [last];
      var earlier := SelectScore(init, userId, gameId);
      if earlier.Some? then earlier
      else if IsFor(last, userId, gameId) then Some(last)
      else None
  }

  /** With one row per pair, a matching row is the row the query finds. */
  lemma SelectScoreUnique(rows: seq<Score>, userId: int, gameId: string, row: Score)
    requires OnePerPair(rows)
    requires row in rows && IsFor(row, userId, gameId)
    ensures SelectScore(rows, userId, gameId) == Some(row)
  {
    var found := SelectScore(rows, userId, gameId);
    var i :| 0 <= i < |rows| && rows[i] == row;
    var j :| 0 <= j < |rows| && rows[j] == found.value;
    assert i == j;
  }

  function OwnedBy(userId: int): Score -> bool {
    (row: Score) => row.userId == userId
  }

  function Elsewhere(userId: int, gameId: string): Score -> bool {
    (row: Score) => !IsFor(row, userId, gameId)
  }

  function Here(userId: int, gameId: string): Score -> bool {
    (row: Score) => IsFor(row, userId, gameId)
  }

  /** `SELECT * FROM scores WHERE user_id = ?` with `.all()`: exactly the user's rows,
      in storage order. */
  function SelectByUser(rows: seq<Score>, userId: int): (r: seq<Score>)
    ensures forall s :: s in r <==> s in rows && s.userId == userId
    ensures forall s :: multiset(r)[s] == if s.userId == userId then multiset(rows)[s] else 0
    ensures IsSubsequence(r, rows)
  {
    FilterMultiplicity(rows, OwnedBy(userId));
    Filter(rows, OwnedBy(userId))
  }

  /** `UPDATE scores SET score = ?, updated_at = CURRENT_TIMESTAMP WHERE id = ?`. */
  function UpdateById(rows: seq<Score>, id: int, score: int, now: int): (r: seq<Score>)
    ensures |r| == |rows|
    ensures forall i :: 0 <= i < |rows| && rows[i].id != id ==> r[i] == rows[i]
    ensures forall i :: 0 <= i < |rows| && rows[i].id == id ==>
              && r[i].id == id && r[i].userId == rows[i].userId && r[i].gameId == rows[i].gameId
              && r[i].score == score && r[i].updatedAt == now
  {
    seq(|rows|, i requires 0 <= i < |rows| =>
      if rows[i].id == id then rows[i].(score := score, updatedAt := now) else rows[i])
  }

  /** The handler of `POST /api/scores` for the authenticated user: insert when the pair
      has no row, replace on a strictly greater score, otherwise change nothing. */
  function Submit(t: ScoreTable, userId: int, gameId: string, score: int, now: int): (r: ScoreTable)
    ensures |t.rows| <= |r.rows| <= |t.rows| + 1
    ensures |r.rows| == |t.rows| + 1 <==> SelectScore(t.rows, userId, gameId).None?
  {
    match SelectScore(t.rows, userId, gameId)
    case Some(existing) =>
      if score > existing.score then t.(rows := UpdateById(t.rows, existing.id, score, now))
      else t
    case None =>
      var id := t.lastId + 1;
      ScoreTable(t.rows + [Score(id, userId, gameId, score, now)], id)
  }

  /** Every row's `user_id` names a user: the `FOREIGN KEY (user_id) REFERENCES users(id)`
      clause, which better-sqlite3's bundled SQLite enforces by default. */
  ghost predicate References(t: ScoreTable, userIds: set<int>) {
    forall i :: 0 <= i < |t.rows| ==> t.rows[i].userId in userIds
  }

  /** `Submit` as the database carries it out, given the ids of the `users` table: an
      INSERT for a `user_id` with no user fails the foreign key and throws, leaving the
      table as it was (None). The UPDATE branch leaves `user_id` alone, so the foreign
      key is not checked there. */
  function Store(t: ScoreTable, userIds: set<int>, userId: int, gameId: string, score: int, now: int)
    : (r: Option<ScoreTable>)
    ensures r.None? <==> SelectScore(t.rows, userId, gameId).None? && userId !in userIds
    ensures r.Some? ==> r.value == Submit(t, userId, gameId, score, now)
  {
    if SelectScore(t.rows, userId, gameId).None? && userId !in userIds then None
    else Some(Submit(t, userId, gameId, score, now))
  }

  /** While every row names a user, a submission is refused exactly when the caller's id
      names no user, whatever the game. */
  lemma StoreRefusesExactlyStrangers(t: ScoreTable, userIds: set<int>, userId: int, gameId: string,
                                     score: int, now: int)
    requires References(t, userIds)
    ensures Store(t, userIds, userId, gameId, score, now).None? <==> userId !in userIds
  {
    var found := SelectScore(t.rows, userId, gameId);
    if found.Some? {
      var k :| 0 <= k < |t.rows| && t.rows[k] == found.value;
    }
  }

  /** A stored submission keeps both invariants: ids fresh and ordered with one row per
      pair, and every row naming a user. */
  lemma StoreValid(t: ScoreTable, userIds: set<int>, userId: int, gameId: string, score: int, now: int)
    requires Valid(t) && References(t, userIds)
    requires Store(t, userIds, userId, gameId, score, now).Some?
    ensures var r := Store(t, userIds, userId, gameId, score, now).value;
            Valid(r) && References(r, userIds)
  {
    SubmitValid(t, userId, gameId, score, now);
  }

  /** The row a pair holds after one submission, by the state it was in before:
      ABSENT becomes HELD(score); HELD(s) becomes HELD(score) only when score > s. */
  lemma {:induction false} SubmitSelect(t: ScoreTable, userId: int, gameId: string, score: int, now: int)
    requires Valid(t)
    ensures var after := SelectScore(Submit(t, userId, gameId, score, now).rows, userId, gameId);
            match SelectScore(t.rows, userId, gameId)
            case None => after == Some(Score(t.lastId + 1, userId, gameId, score, now))
            case Some(e) => after == Some(if score > e.score then e.(score := score, updatedAt := now) else e)
  {
    var r := Submit(t, userId, gameId, score, now);
    match SelectScore(t.rows, userId, gameId)
    case None =>
      var row := Score(t.lastId + 1, userId, gameId, score, now);
      assert r.rows[..|t.rows|] == t.rows;
    case Some(e) =>
      if score > e.score {
        SubmitValid(t, userId, gameId, score, now);
        var k :| 0 <= k < |t.rows| && t.rows[k] == e;
        assert r.rows[k] == e.(score := score, updatedAt := now);
        SelectScoreUnique(r.rows, userId, gameId, r.rows[k]);
      }
  }

  /** Submitting keeps the ids fresh and ordered and the pairs distinct. */
  lemma SubmitValid(t: ScoreTable, userId: int, gameId: string, score: int, now: int)
    requires Valid(t)
    ensures Valid(Submit(t, userId, gameId, score, now))
  {
    var r := Submit(t, userId, gameId, score, now);
    match SelectScore(t.rows, userId, gameId)
    case None =>
      assert forall i :: 0 <= i < |t.rows| ==> t.rows[i] in t.rows;
    case Some(e) =>
  }

  /** A submission that does not beat the stored score leaves the whole table unchanged. */
  lemma SubmitNotImproving(t: ScoreTable, userId: int, gameId: string, score: int, now: int)
    requires SelectScore(t.rows, userId, gameId).Some?
    requires score <= SelectScore(t.rows, userId, gameId).value.score
    ensures Submit(t, userId, gameId, score, now) == t
  {
  }

  /** Rows of every other pair are untouched, and keep their order. */
  lemma SubmitElsewhere(t: ScoreTable, userId: int, gameId: string, score: int, now: int)
    requires Valid(t)
    ensures Filter(Submit(t, userId, gameId, score, now).rows, Elsewhere(userId, gameId))
         == Filter(t.rows, Elsewhere(userId, gameId))
  {
    var r := Submit(t, userId, gameId, score, now);
    var p := Elsewhere(userId, gameId);
    match SelectScore(t.rows, userId, gameId)
    case None =>
      var row := Score(t.lastId + 1, userId, gameId, score, now);
      FilterConcat(t.rows, [row], p);
      assert [row][..0] == [];
    case Some(e) =>
      if score > e.score {
        var k :| 0 <= k < |t.rows| && t.rows[k] == e;
        forall i | 0 <= i < |t.rows|
          ensures (p(t.rows[i]) <==> p(r.rows[i])) && (p(t.rows[i]) ==> t.rows[i] == r.rows[i])
        {
          if t.rows[i].id == e.id {
            assert i == k;
          }
        }
        FilterPointwise(t.rows, r.rows, p);
      }
  }

  /** How one row may change in a submission: not at all, or to a strictly greater score
      stamped with the submission's time, keeping its id and its pair. */
  predicate Advanced(before: Score, after: Score, now: int) {
    || after == before
    || (after.score > before.score && after == before.(score := after.score, updatedAt := now))
  }

  /** Scores never decrease: every existing row stays where it is and only advances. */
  lemma SubmitAdvances(t: ScoreTable, userId: int, gameId: string, score: int, now: int)
    requires Valid(t)
    ensures var r := Submit(t, userId, gameId, score, now);
            && |t.rows| <= |r.rows|
            && forall i :: 0 <= i < |t.rows| ==> Advanced(t.rows[i], r.rows[i], now)
  {
    match SelectScore(t.rows, userId, gameId)
    case None =>
    case Some(e) =>
      var k :| 0 <= k < |t.rows| && t.rows[k] == e;
      assert forall i :: 0 <= i < |t.rows| && t.rows[i].id == e.id ==> i == k;
  }

  /** The one-row-per-pair invariant, counted. */
  lemma {:induction false} AtMostOneRowPerPair(t: ScoreTable, userId: int, gameId: string)
    requires Valid(t)
    ensures |Filter(t.rows, Here(userId, gameId))| <= 1
  {
    OnePerPairCount(t.rows, userId, gameId);
  }

  lemma {:induction false} OnePerPairCount(rows: seq<Score>, userId: int, gameId: string)
    requires OnePerPair(rows)
    ensures |Filter(rows, Here(userId, gameId))| <= 1
  {
    if rows != [] {
      var init, last := rows[..|rows| - 1], rows[|rows| - 1];
      assert OnePerPair(init);
      OnePerPairCount(init, userId, gameId);
      if IsFor(last, userId, gameId) {
        forall x | x in init ensures !Here(userId, gameId)(x) {
          var i :| 0 <= i < |init| && init[i] == x;
          assert rows[i] == x;
        }
        FilterNone(init, Here(userId, gameId));
      }
    }
  }

  // ---------------------------------------------------------------------------
  // A run of submissions for one pair

  datatype Submission = Submission(score: int, at: int)

  /** Apply the submissions for one pair in order. */
  function SubmitAll(t: ScoreTable, userId: int, gameId: string, subs: seq<Submission>): ScoreTable
    decreases |subs|
  {
    if subs == [] then t
    else
      var last := subs[|subs| - 1];
      Submit(SubmitAll(t, userId, gameId, subs[..|subs| - 1]), userId, gameId, last.score, last.at)
  }

  /** The first submission with the greatest score. */
  function Best(subs: seq<Submission>): (k: nat)
    requires subs != []
    ensures k < |subs|
    ensures forall i :: 0 <= i < |subs| ==> subs[i].score <= subs[k].score
    ensures forall i :: 0 <= i < k ==> subs[i].score < subs[k].score
  {
    if |subs| == 1 then 0
    else
      var k := Best(subs[..|subs| - 1]);
      if subs[|subs| - 1].score > subs[k].score then |subs| - 1 else k
  }

  lemma {:induction false} SubmitAllValid(t: ScoreTable, userId: int, gameId: string, subs: seq<Submission>)
    requires Valid(t)
    ensures Valid(SubmitAll(t, userId, gameId, subs))
    decreases |subs|
  {
    if subs != [] {
      var last := subs[|subs| - 1];
      SubmitAllValid(t, userId, gameId, subs[..|subs| - 1]);
      SubmitValid(SubmitAll(t, userId, gameId, subs[..|subs| - 1]), userId, gameId, last.score, last.at);
    }
  }

  /** After any non-empty run of submissions for a pair that had no row, the pair's row
      is the one inserted first, holding the greatest score submitted and the time of the
      first submission that reached it. */
  lemma {:induction false} SubmitAllSelect(t: ScoreTable, userId: int, gameId: string, subs: seq<Submission>)
    requires Valid(t) && SelectScore(t.rows, userId, gameId).None?
    requires subs != []
    ensures SelectScore(SubmitAll(t, userId, gameId, subs).rows, userId, gameId)
         == Some(Score(t.lastId + 1, userId, gameId, subs[Best(subs)].score, subs[Best(subs)].at))
    decreases |subs|
  {
    var init, last := subs[..|subs| - 1], subs[|subs| - 1];
    var before := SubmitAll(t, userId, gameId, init);
    assert SubmitAll(t, userId, gameId, subs) == Submit(before, userId, gameId, last.score, last.at);
    SubmitAllValid(t, userId, gameId, init);
    SubmitSelect(before, userId, gameId, last.score, last.at);
    if init == [] {
      assert before == t;
      assert Best(subs) == 0;
    } else {
      SubmitAllSelect(t, userId, gameId, init);
      var k := Best(init);
      assert subs[k] == init[k];
      var e := Score(t.lastId + 1, userId, gameId, init[k].score, init[k].at);
      assert SelectScore(before.rows, userId, gameId) == Some(e);
      if last.score > e.score {
        assert Best(subs) == |subs| - 1;
      } else {
        assert Best(subs) == k;
      }
    }
  }

  /** A run of submissions for one pair leaves every other pair's rows as they were. */
  lemma {:induction false} SubmitAllElsewhere(t: ScoreTable, userId: int, gameId: string, subs: seq<Submission>)
    requires Valid(t)
    ensures Filter(SubmitAll(t, userId, gameId, subs).rows, Elsewhere(userId, gameId))
         == Filter(t.rows, Elsewhere(userId, gameId))
    decreases |subs|
  {
    if subs != [] {
      var init, last := subs[..|subs| - 1], subs[|subs| - 1];
      SubmitAllValid(t, userId, gameId, init);
      SubmitAllElsewhere(t, userId, gameId, init);
      SubmitElsewhere(SubmitAll(t, userId, gameId, init), userId, gameId, last.score, last.at);
    }
  }

  /** The run leaves exactly one row for the pair. */
  lemma SubmitAllOneRow(t: ScoreTable, userId: int, gameId: string, subs: seq<Submission>)
    requires Valid(t) && SelectScore(t.rows, userId, gameId).None?
    requires subs != []
    ensures |Filter(SubmitAll(t, userId, gameId, subs).rows, Here(userId, gameId))| == 1
  {
    var r := SubmitAll(t, userId, gameId, subs);
    SubmitAllValid(t, userId, gameId, subs);
    SubmitAllSelect(t, userId, gameId, subs);
    HereCount(r.rows, userId, gameId, SelectScore(r.rows, userId, gameId).value);
  }

  /** Three submissions for one game on a fresh table: the first is stored, the lower
      second is ignored, the higher third replaces it; the user's listing shows that row. */
  lemma BestSubmissionKept()
    ensures var t1 := Submit(Empty, 1, "asdd", 500, 3);
            var t2 := Submit(t1, 1, "asdd", 300, 4);
            var t3 := Submit(t2, 1, "asdd", 900, 5);
            && t1 == ScoreTable([Score(1, 1, "asdd", 500, 3)], 1)
            && t2 == t1
            && t3 == ScoreTable([Score(1, 1, "asdd", 900, 5)], 1)
            && SelectByUser(t3.rows, 1) == t3.rows
  {
    var first := Score(1, 1, "asdd", 500, 3);
    assert [first][..0] == [];
    assert SelectScore([first], 1, "asdd") == Some(first);
    var best := Score(1, 1, "asdd", 900, 5);
    assert UpdateById([first], 1, 900, 5) == [best];
    FilterKeepsAll([best], OwnedBy(1));
  }

  /** A pair with a row has exactly one, under the invariant. */
  lemma HereCount(rows: seq<Score>, userId: int, gameId: string, row: Score)
    requires OnePerPair(rows) && row in rows && IsFor(row, userId, gameId)
    ensures |Filter(rows, Here(userId, gameId))| == 1
  {
    OnePerPairCount(rows, userId, gameId);
    assert row in Filter(rows, Here(userId, gameId));
  }
}
