/**
 * Likes on the public feed. The `ae_votes` table and the anonymous voter's record
 * in local storage (a list of `{ae_id, id}` pairs) are the model's state; a toggle
 * inserts or deletes vote rows and, for an anonymous voter, rewrites the record.
 * What the backend answers (success or failure, the id of an inserted row) is a
 * parameter.
 */
module Feed {
  import opened Wrappers

  /** A row of the `ae_votes` table; `user_id` is none for an anonymous vote. */
  datatype VoteRow = VoteRow(id: string, ae_id: int, user_id: Option<string>)

  /** An entry of the anonymous record: the list voted for and the id of the vote row. */
  datatype LedgerEntry = LedgerEntry(ae_id: int, id: string)

  /** The vote table and the anonymous record together. */
  datatype Board = Board(rows: seq<VoteRow>, ledger: seq<LedgerEntry>)

  /** Which notice a toggle ends with: "Like adicionado!", "Like removido", none, or "Erro ao dar like". */
  datatype Outcome = Added | Removed | Unchanged | Failed

  datatype Step = Step(board: Board, outcome: Outcome)

  /** What a feed card shows for one list. */
  datatype FeedItem = FeedItem(ae_id: int, vote_count: nat, user_has_voted: bool)

  // ---------------------------------------------------------------------------
  // Queries over the state

  /** Number of vote rows for list `x`: what the exact count query returns. */
  function VotesFor(rows: seq<VoteRow>, x: int): (n: nat)
    ensures n <= |rows|
  {
    if rows == [] then 0
    else VotesFor(rows[..|rows| - 1], x) + (if rows[|rows| - 1].ae_id == x then 1 else 0)
  }

  /** Number of rows of list `x` cast by user `u`. */
  function UserVotes(rows: seq<VoteRow>, x: int, u: string): (n: nat)
    ensures n <= VotesFor(rows, x)
  {
    if rows == [] then 0
    else
      var r := rows[|rows| - 1];
      UserVotes(rows[..|rows| - 1], x, u) + (if r.ae_id == x && r.user_id == Some(u) then 1 else 0)
  }

  /** The anonymous record holds some entry for list `x` (`some(v => v.ae_id === x)`). */
  predicate InLedger(ledger: seq<LedgerEntry>, x: int) {
    exists i :: 0 <= i < |ledger| && ledger[i].ae_id == x
  }

  /** The first entry for list `x` (`find(v => v.ae_id === x)`). */
  function FirstEntryFor(ledger: seq<LedgerEntry>, x: int): (e: Option<LedgerEntry>)
    ensures e.None? <==> !InLedger(ledger, x)
    ensures e.Some? ==> exists i :: 0 <= i < |ledger| && ledger[i] == e.value && e.value.ae_id == x
                                    && forall k :: 0 <= k < i ==> ledger[k].ae_id != x
  {
    if ledger == [] then None
    else if ledger[0].ae_id == x then Some(ledger[0])
    else
      var e := FirstEntryFor(ledger[1..], x);
      assert forall i :: 1 <= i < |ledger| ==> ledger[i] == ledger[1..][i - 1];
      assert e.Some? ==> exists i :: 0 <= i < |ledger| - 1 && ledger[1..][i] == e.value && e.value.ae_id == x
                                     && forall k :: 0 <= k < i ==> ledger[1..][k].ae_id != x;
      e
  }

  /**
   * What a card shows: the exact count of the list's rows when the count query
   * answers, and 0 when it does not (`count || 0`); whether the viewer voted comes
   * from the record for an anonymous viewer and from a `maybeSingle` lookup for a
   * signed-in one, which answers with a row only when it succeeds and exactly one
   * row matches (a failed lookup reads as "not voted").
   */
  function ItemFor(b: Board, x: int, countAnswered: bool, lookupAnswered: bool, user: Option<string>): (item: FeedItem)
    ensures item.ae_id == x
    ensures item.vote_count == if countAnswered then VotesFor(b.rows, x) else 0
    ensures user.None? ==> (item.user_has_voted <==> InLedger(b.ledger, x))
    ensures user.Some? ==> (item.user_has_voted <==> lookupAnswered && UserVotes(b.rows, x, user.value) == 1)
  {
    FeedItem(x, if countAnswered then VotesFor(b.rows, x) else 0,
             if user.Some? then lookupAnswered && UserVotes(b.rows, x, user.value) == 1 else InLedger(b.ledger, x))
  }

  // ---------------------------------------------------------------------------
  // Updates: the specification

  /** The rows left after deleting those of list `x` by user `u`. */
  function DeleteUserVotes(rows: seq<VoteRow>, x: int, u: string): (r: seq<VoteRow>)
    ensures UserVotes(r, x, u) == 0
  {
    if rows == [] then []
    else
      var rest := DeleteUserVotes(rows[..|rows| - 1], x, u);
      var last := rows[|rows| - 1];
      if last.ae_id == x && last.user_id == Some(u) then rest
      else
        var r := rest + [last];
        assert r[..|r| - 1] == rest;
        r
  }

  /** The rows left after deleting those whose id is `id`. */
  function DeleteById(rows: seq<VoteRow>, id: string): (r: seq<VoteRow>)
    ensures forall i :: 0 <= i < |r| ==> r[i].id != id
  {
    if rows == [] then []
    else
      var last := rows[|rows| - 1];
      DeleteById(rows[..|rows| - 1], id) + (if last.id == id then [] else [last])
  }

  /** Number of rows of list `y` whose id is `id`. */
  function IdVotes(rows: seq<VoteRow>, id: string, y: int): (n: nat)
    ensures n <= VotesFor(rows, y)
  {
    if rows == [] then 0
    else
      var r := rows[|rows| - 1];
      IdVotes(rows[..|rows| - 1], id, y) + (if r.id == id && r.ae_id == y then 1 else 0)
  }

  /** The record without its entries for list `x` (`filter(v => v.ae_id !== x)`). */
  function WithoutList(ledger: seq<LedgerEntry>, x: int): (l: seq<LedgerEntry>)
    ensures !InLedger(l, x)
  {
    if ledger == [] then []
    else
      var rest := WithoutList(ledger[..|ledger| - 1], x);
      var last := ledger[|ledger| - 1];
      assert forall i :: 0 <= i < |rest + [last]| ==> (rest + [last])[i].ae_id == x ==> i == |rest|;
      rest + (if last.ae_id == x then [] else [last])
  }

  /**
   * `handleVote(x, hasVoted)` with backend answer `ok` and, for an insert, the id
   * `newId` the backend gives the new row.
   */
  function Vote(b: Board, x: int, hasVoted: bool, user: Option<string>, ok: bool, newId: string): Step {
    if user.Some? then
      if !ok then Step(b, Failed)
      else if hasVoted then Step(Board(DeleteUserVotes(b.rows, x, user.value), b.ledger), Removed)
      else Step(Board(b.rows + [VoteRow(newId, x, user)], b.ledger), Added)
    else if hasVoted then
      match FirstEntryFor(b.ledger, x)
      case None => Step(b, Unchanged)
      case Some(e) =>
        if !ok then Step(b, Failed)
        else Step(Board(DeleteById(b.rows, e.id), WithoutList(b.ledger, x)), Removed)
    else if !ok then Step(b, Failed)
    else Step(Board(b.rows + [VoteRow(newId, x, None)], b.ledger + [LedgerEntry(x, newId)]), Added)
  }

  // ---------------------------------------------------------------------------
  // Updates: the page's handler over mutable state

  class VoteBoard {
    /** The `ae_votes` table. */
    var rows: seq<VoteRow>
    /** The anonymous voter's record, already decoded from local storage. */
    var ledger: seq<LedgerEntry>

    constructor (rows: seq<VoteRow>, ledger: seq<LedgerEntry>)
      ensures this.rows == rows && this.ledger == ledger
    {
      this.rows := rows;
      this.ledger := ledger;
    }

    function State(): Board
      reads this
    {
      Board(rows, ledger)
    }

    /**
     * `handleVote`: a signed-in user deletes their rows for the list or inserts one;
     * an anonymous voter deletes the row of the first record entry for the list and
     * drops every such entry, or inserts a row and appends an entry. A failed
     * backend call ends the handler before the record is written.
     */
    method HandleVote(x: int, hasVoted: bool, user: Option<string>, ok: bool, newId: string)
      returns (outcome: Outcome)
      modifies this
      ensures Step(State(), outcome) == Vote(old(State()), x, hasVoted, user, ok, newId)
    {
      if user.Some? {
        if !ok {
          return Failed;
        }
        if hasVoted {
          rows := DeleteUserVotes(rows, x, user.value);
          outcome := Removed;
        } else {
          rows := rows + [VoteRow(newId, x, user)];
          outcome := Added;
        }
      } else {
        if hasVoted {
          var voteToRemove := FirstEntryFor(ledger, x);
          if voteToRemove.None? {
            return Unchanged;
          }
          if !ok {
            return Failed;
          }
          rows := DeleteById(rows, voteToRemove.value.id);
          ledger := WithoutList(ledger, x);
          outcome := Removed;
        } else {
          if !ok {
            return Failed;
          }
          rows := rows + [VoteRow(newId, x, None)];
          ledger := ledger + [LedgerEntry(x, newId)];
          outcome := Added;
        }
      }
    }
  }

  // ---------------------------------------------------------------------------
  // Properties

  lemma VotesForSnoc(rows: seq<VoteRow>, r: VoteRow, y: int)
    ensures VotesFor(rows + [r], y) == VotesFor(rows, y) + (if r.ae_id == y then 1 else 0)
  {
    assert (rows + [r])[..|rows|] == rows;
  }

  /** Deleting a user's rows for `x` removes exactly those rows: other lists keep their counts. */
  lemma {:induction false} DeleteUserVotesCounts(rows: seq<VoteRow>, x: int, u: string, y: int)
    ensures VotesFor(DeleteUserVotes(rows, x, u), y)
         == VotesFor(rows, y) - (if y == x then UserVotes(rows, x, u) else 0)
  {
    if rows != [] {
      var init, last := rows[..|rows| - 1], rows[|rows| - 1];
      DeleteUserVotesCounts(init, x, u, y);
      var d := DeleteUserVotes(init, x, u);
      assert VotesFor(rows, y) == VotesFor(init, y) + (if last.ae_id == y then 1 else 0);
      assert UserVotes(rows, x, u) == UserVotes(init, x, u) + (if last.ae_id == x && last.user_id == Some(u) then 1 else 0);
      if last.ae_id == x && last.user_id == Some(u) {
        assert DeleteUserVotes(rows, x, u) == d;
      } else {
        assert DeleteUserVotes(rows, x, u) == d + [last];
        VotesForSnoc(d, last, y);
      }
    }
  }

  /** Deleting by an id no row has changes nothing. */
  lemma {:induction false} DeleteByAbsentId(rows: seq<VoteRow>, id: string)
    requires forall i :: 0 <= i < |rows| ==> rows[i].id != id
    ensures DeleteById(rows, id) == rows
  {
    if rows != [] {
      DeleteByAbsentId(rows[..|rows| - 1], id);
    }
  }

  /** Dropping the entries of a list the record does not mention changes nothing. */
  lemma {:induction false} WithoutAbsentList(ledger: seq<LedgerEntry>, x: int)
    requires !InLedger(ledger, x)
    ensures WithoutList(ledger, x) == ledger
  {
    if ledger != [] {
      var init := ledger[..|ledger| - 1];
      assert forall i :: 0 <= i < |init| ==> init[i] == ledger[i];
      WithoutAbsentList(init, x);
    }
  }

  /** A user's rows for `x` that were not there stay absent: deleting them is a no-op. */
  lemma {:induction false} DeleteAbsentUserVotes(rows: seq<VoteRow>, x: int, u: string)
    requires UserVotes(rows, x, u) == 0
    ensures DeleteUserVotes(rows, x, u) == rows
  {
    if rows != [] {
      var init, last := rows[..|rows| - 1], rows[|rows| - 1];
      assert !(last.ae_id == x && last.user_id == Some(u));
      DeleteAbsentUserVotes(init, x, u);
      assert DeleteUserVotes(rows, x, u) == init + [last];
    }
  }

  /**
   * A successful toggle that adds inserts exactly one row for `x` and leaves every
   * other list's count alone; an anonymous add also records the new row's id.
   */
  lemma AddedCounts(b: Board, x: int, user: Option<string>, newId: string, y: int)
    ensures Vote(b, x, false, user, true, newId).outcome == Added
    ensures VotesFor(Vote(b, x, false, user, true, newId).board.rows, y)
         == VotesFor(b.rows, y) + (if y == x then 1 else 0)
    ensures user.None? ==> Vote(b, x, false, user, true, newId).board.ledger == b.ledger + [LedgerEntry(x, newId)]
    ensures user.Some? ==> Vote(b, x, false, user, true, newId).board.ledger == b.ledger
  {
    VotesForSnoc(b.rows, VoteRow(newId, x, user), y);
  }

  /** A failed backend call leaves the table and the record as they were. */
  lemma FailureChangesNothing(b: Board, x: int, hasVoted: bool, user: Option<string>, newId: string)
    ensures Vote(b, x, hasVoted, user, false, newId).board == b
    ensures Vote(b, x, hasVoted, user, false, newId).outcome in {Failed, Unchanged}
  {
  }

  /** Deleting by id keeps exactly the rows with another id. */
  lemma {:induction false} DeleteByIdKeeps(rows: seq<VoteRow>, id: string, row: VoteRow)
    ensures row in DeleteById(rows, id) <==> row in rows && row.id != id
  {
    if rows != [] {
      var init, last := rows[..|rows| - 1], rows[|rows| - 1];
      DeleteByIdKeeps(init, id, row);
      assert rows == init + [last];
    }
  }

  /** Deleting by id works row by row, so the rows kept stay in their order. */
  lemma {:induction false} DeleteByIdAppend(a: seq<VoteRow>, b: seq<VoteRow>, id: string)
    ensures DeleteById(a + b, id) == DeleteById(a, id) + DeleteById(b, id)
    decreases |b|
  {
    if b != [] {
      var init, last := b[..|b| - 1], b[|b| - 1];
      assert (a + b)[..|a + b| - 1] == a + init && (a + b)[|a + b| - 1] == last;
      DeleteByIdAppend(a, init, id);
      var tail := if last.id == id then [] else [last];
      assert DeleteById(a + b, id) == DeleteById(a + init, id) + tail;
      assert DeleteById(b, id) == DeleteById(init, id) + tail;
    } else {
      assert a + b == a;
    }
  }

  /** Deleting by id lowers each list's count by the rows of that list with the id. */
  lemma {:induction false} DeleteByIdCounts(rows: seq<VoteRow>, id: string, y: int)
    ensures VotesFor(DeleteById(rows, id), y) == VotesFor(rows, y) - IdVotes(rows, id, y)
  {
    if rows != [] {
      var init, last := rows[..|rows| - 1], rows[|rows| - 1];
      DeleteByIdCounts(init, id, y);
      var d := DeleteById(init, id);
      assert VotesFor(rows, y) == VotesFor(init, y) + (if last.ae_id == y then 1 else 0);
      assert IdVotes(rows, id, y) == IdVotes(init, id, y) + (if last.id == id && last.ae_id == y then 1 else 0);
      if last.id != id {
        assert DeleteById(rows, id) == d + [last];
        VotesForSnoc(d, last, y);
      } else {
        assert DeleteById(rows, id) == d + [] == d;
      }
    }
  }

  /** Dropping a list's entries keeps exactly the entries of other lists. */
  lemma {:induction false} WithoutListKeeps(ledger: seq<LedgerEntry>, x: int, e: LedgerEntry)
    ensures e in WithoutList(ledger, x) <==> e in ledger && e.ae_id != x
  {
    if ledger != [] {
      var init, last := ledger[..|ledger| - 1], ledger[|ledger| - 1];
      WithoutListKeeps(init, x, e);
      assert ledger == init + [last];
    }
  }

  /** Dropping a list's entries works entry by entry, so the entries kept stay in their order. */
  lemma {:induction false} WithoutListAppend(a: seq<LedgerEntry>, b: seq<LedgerEntry>, x: int)
    ensures WithoutList(a + b, x) == WithoutList(a, x) + WithoutList(b, x)
    decreases |b|
  {
    if b != [] {
      var init, last := b[..|b| - 1], b[|b| - 1];
      assert (a + b)[..|a + b| - 1] == a + init && (a + b)[|a + b| - 1] == last;
      WithoutListAppend(a, init, x);
      var tail := if last.ae_id == x then [] else [last];
      assert WithoutList(a + b, x) == WithoutList(a + init, x) + tail;
      assert WithoutList(b, x) == WithoutList(init, x) + tail;
    } else {
      assert a + b == a;
    }
  }

  /**
   * An anonymous removal for a list the record does not mention changes nothing;
   * otherwise the rows with the id of the first entry for the list are deleted and
   * every other row kept, each list's count drops by its rows with that id, and
   * the record keeps exactly its entries for other lists.
   */
  lemma AnonymousRemove(b: Board, x: int, ok: bool, newId: string)
    ensures !InLedger(b.ledger, x) ==> Vote(b, x, true, None, ok, newId) == Step(b, Unchanged)
    ensures InLedger(b.ledger, x) && ok ==>
      var e := FirstEntryFor(b.ledger, x).value;
      var b' := Vote(b, x, true, None, ok, newId).board;
      && (forall row :: row in b'.rows <==> row in b.rows && row.id != e.id)
      && (forall y :: VotesFor(b'.rows, y) == VotesFor(b.rows, y) - IdVotes(b.rows, e.id, y))
      && (forall l :: l in b'.ledger <==> l in b.ledger && l.ae_id != x)
      && !InLedger(b'.ledger, x)
  {
    if InLedger(b.ledger, x) && ok {
      var e := FirstEntryFor(b.ledger, x).value;
      forall row {
        DeleteByIdKeeps(b.rows, e.id, row);
      }
      forall y {
        DeleteByIdCounts(b.rows, e.id, y);
      }
      forall l {
        WithoutListKeeps(b.ledger, x, l);
      }
    }
  }

  /** A signed-in user's removal leaves none of their rows for the list and the other lists' counts alone. */
  lemma UserRemove(b: Board, x: int, u: string, newId: string, y: int)
    ensures var b' := Vote(b, x, true, Some(u), true, newId).board;
      && UserVotes(b'.rows, x, u) == 0
      && VotesFor(b'.rows, y) == VotesFor(b.rows, y) - (if y == x then UserVotes(b.rows, x, u) else 0)
      && b'.ledger == b.ledger
  {
    DeleteUserVotesCounts(b.rows, x, u, y);
  }

  /**
   * Liking and then unliking a list as an anonymous voter, with no earlier record
   * entry for it, restores both the table and the record (the new row's id is
   * one no row has).
   */
  lemma AnonymousToggleTwiceRestores(b: Board, x: int, newId: string, anyId: string)
    requires !InLedger(b.ledger, x)
    requires forall i :: 0 <= i < |b.rows| ==> b.rows[i].id != newId
    ensures var s1 := Vote(b, x, false, None, true, newId);
            var s2 := Vote(s1.board, x, true, None, true, anyId);
            s1.outcome == Added && s2.outcome == Removed && s2.board == b
  {
    var b1 := Board(b.rows + [VoteRow(newId, x, None)], b.ledger + [LedgerEntry(x, newId)]);
    assert FirstEntryFor(b1.ledger, x) == Some(LedgerEntry(x, newId)) by {
      var e := FirstEntryFor(b1.ledger, x);
      var i :| 0 <= i < |b1.ledger| && b1.ledger[i] == e.value && e.value.ae_id == x
               && forall k :: 0 <= k < i ==> b1.ledger[k].ae_id != x;
    }
    DeleteByAbsentId(b.rows, newId);
    assert DeleteById(b1.rows, newId) == b.rows by {
      assert b1.rows[..|b1.rows| - 1] == b.rows;
    }
    WithoutAbsentList(b.ledger, x);
    assert WithoutList(b1.ledger, x) == b.ledger by {
      assert b1.ledger[..|b1.ledger| - 1] == b.ledger;
    }
  }

  /** Liking and then unliking a list as a signed-in user with no earlier vote for it restores the table. */
  lemma UserToggleTwiceRestores(b: Board, x: int, u: string, newId: string, anyId: string)
    requires UserVotes(b.rows, x, u) == 0
    ensures var s1 := Vote(b, x, false, Some(u), true, newId);
            var s2 := Vote(s1.board, x, true, Some(u), true, anyId);
            s1.outcome == Added && s2.outcome == Removed && s2.board == b
  {
    var rows1 := b.rows + [VoteRow(newId, x, Some(u))];
    assert rows1[..|rows1| - 1] == b.rows;
    DeleteAbsentUserVotes(b.rows, x, u);
  }

  /**
   * After an anonymous like the card shows the vote and one more in the count;
   * after an anonymous unlike it no longer shows the vote.
   */
  lemma AnonymousItemFollowsToggle(b: Board, x: int, hasVoted: bool, newId: string)
    ensures var s := Vote(b, x, hasVoted, None, true, newId);
      && (s.outcome != Unchanged ==> ItemFor(s.board, x, true, true, None).user_has_voted == !hasVoted)
      && (!hasVoted ==> ItemFor(s.board, x, true, true, None).vote_count == ItemFor(b, x, true, true, None).vote_count + 1)
  {
    var s := Vote(b, x, hasVoted, None, true, newId);
    if !hasVoted {
      assert s.board.ledger[|b.ledger|].ae_id == x;
      VotesForSnoc(b.rows, VoteRow(newId, x, None), x);
    }
  }
}
