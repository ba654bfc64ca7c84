/**
 * The question board of server.js: the `questions` table with its
 * AUTOINCREMENT counter, and one method per route handler that reads or
 * changes it. Request parsing is done by the caller: a text, an id that is
 * `None` when `Number(...)` did not give an integer, a direction, a sort
 * query, the admin headers; `Date.now()` arrives as `createdAt`.
 */
module Board {
  import opened Wrappers
  import opened Errors
  import opened Auth
  import opened Questions
  import opened Ordering

  class QuestionStore {
    /** The admin token, username and password the server was started with. */
    const admin: AdminConfig
    /** The table's rows, in id order. */
    var rows: seq<Question>
    /** The id AUTOINCREMENT hands out next: one more than the largest id ever issued. */
    var nextId: int
    /** Every id ever issued, including those of rows deleted since. */
    ghost var issued: set<int>

    ghost predicate Valid()
      reads this
    {
      && 1 <= nextId
      && TableValid(rows, nextId, issued)
    }

    /** A fresh, empty database. */
    constructor (admin: AdminConfig)
      ensures Valid()
      ensures this.admin == admin && rows == [] && nextId == 1 && issued == {}
    {
      this.admin := admin;
      rows := [];
      nextId := 1;
      issued := {};
    }

    /**
     * POST /question: validate the text; on success insert it with no votes
     * under a fresh id and answer the stored row.
     */
    method Submit(text: string, createdAt: int) returns (r: Result<Question, Error>)
      requires Valid()
      modifies this
      ensures Valid()
      ensures CheckText(text).Err? ==>
        && r == Err(CheckText(text).error)
        && rows == old(rows) && nextId == old(nextId) && issued == old(issued)
      ensures CheckText(text).Ok? ==>
        && r == Ok(Question(old(nextId), CheckText(text).value, 0, createdAt))
        && rows == old(rows) + [r.value]
        && (forall x | x in old(issued) :: x < r.value.id)
        && issued == old(issued) + {r.value.id} && nextId == r.value.id + 1
    {
      var checked := CheckText(text);
      if checked.Err? {
        return Err(checked.error);
      }
      var q := Question(nextId, checked.value, 0, createdAt);
      AppendKeepsValid(rows, nextId, issued, q);
      rows := rows + [q];
      issued := issued + {nextId};
      nextId := nextId + 1;
      r := Ok(q);
    }

    /**
     * POST /vote: the id must be an integer, the direction "up" or "down" and
     * the question must exist; then the count read is moved by one and
     * written back, and the new count is the answer.
     */
    method Vote(id: Option<int>, direction: string) returns (r: Result<int, Error>)
      requires Valid()
      modifies this
      ensures Valid()
      ensures nextId == old(nextId) && issued == old(issued)
      ensures id.None? ==> r == Err(InvalidId)
      ensures id.Some? && direction != "up" && direction != "down" ==> r == Err(BadDirection)
      ensures id.Some? && (direction == "up" || direction == "down") && !HasId(old(rows), id.value) ==> r == Err(NotFound)
      ensures id.Some? && (direction == "up" || direction == "down") && HasId(old(rows), id.value) ==> r.Ok?
      ensures r.Err? ==> rows == old(rows)
      ensures r.Ok? ==>
        && id.Some? && Find(old(rows), id.value).Some?
        && r.value == old(rows)[Find(old(rows), id.value).value].votes + (if direction == "up" then 1 else -1)
        && (direction == "up" || direction == "down")
        && rows == SetVotes(old(rows), id.value, r.value)
    {
      if id.None? {
        return Err(InvalidId);
      }
      var delta := Delta(direction);
      if delta.None? {
        return Err(BadDirection);
      }
      var found := Find(rows, id.value);
      if found.None? {
        return Err(NotFound);
      }
      var nextVotes := rows[found.value].votes + delta.value;
      SetVotesKeepsValid(rows, nextId, issued, id.value, nextVotes);
      rows := SetVotes(rows, id.value, nextVotes);
      r := Ok(nextVotes);
    }

    /** GET /questions: every stored row, in the order the sort query selects. */
    method List(sort: Option<string>) returns (r: seq<Question>)
      ensures multiset(r) == multiset(rows)
      ensures Sorted(RequestedMode(sort), r)
    {
      r := SortRows(RequestedMode(sort), rows);
    }

    /** POST /admin/clear: for an admin, empty the table; the id counter is kept. */
    method Clear(headers: Headers) returns (r: Outcome<Error>)
      requires Valid()
      modifies this
      ensures Valid()
      ensures nextId == old(nextId) && issued == old(issued)
      ensures r.Pass? <==> IsAdmin(admin, headers)
      ensures r.Fail? ==> r.error == Unauthorized && rows == old(rows)
      ensures r.Pass? ==> rows == []
    {
      if !IsAdmin(admin, headers) {
        return Fail(Unauthorized);
      }
      rows := [];
      r := Pass;
    }

    /**
     * DELETE /admin/question/:id: authorization first, then the id's shape;
     * the row is deleted and "not found" reported when nothing was deleted.
     */
    method Delete(headers: Headers, id: Option<int>) returns (r: Outcome<Error>)
      requires Valid()
      modifies this
      ensures Valid()
      ensures nextId == old(nextId) && issued == old(issued)
      ensures !IsAdmin(admin, headers) ==> r == Fail(Unauthorized)
      ensures IsAdmin(admin, headers) && id.None? ==> r == Fail(InvalidId)
      ensures IsAdmin(admin, headers) && id.Some? && !HasId(old(rows), id.value) ==> r == Fail(NotFound)
      ensures IsAdmin(admin, headers) && id.Some? && HasId(old(rows), id.value) ==> r.Pass?
      ensures r.Fail? ==> rows == old(rows)
      ensures r.Pass? ==>
        && IsAdmin(admin, headers) && id.Some? && Find(old(rows), id.value).Some?
        && var k := Find(old(rows), id.value).value;
           rows == old(rows)[..k] + old(rows)[k + 1..]
    {
      if !IsAdmin(admin, headers) {
        return Fail(Unauthorized);
      }
      if id.None? {
        return Fail(InvalidId);
      }
      var remaining := DeleteWhere(rows, id.value);
      var changes := |rows| - |remaining|;
      if changes == 0 {
        return Fail(NotFound);
      }
      DeleteExistingKeepsValid(rows, nextId, issued, id.value);
      rows := remaining;
      r := Pass;
    }
  }

  /**
   * A client of the board: an up-vote and then a down-vote on an existing
   * question answer the count plus one and then the original count, and the
   * table ends as it started.
   */
  method UpThenDown(board: QuestionStore, id: int) returns (first: Result<int, Error>, second: Result<int, Error>)
    requires board.Valid() && HasId(board.rows, id)
    modifies board
    ensures board.Valid()
    ensures board.rows == old(board.rows)
    ensures var votes := old(board.rows)[Find(old(board.rows), id).value].votes;
      first == Ok(votes + 1) && second == Ok(votes)
  {
    var k := Find(board.rows, id).value;
    ghost var before := board.rows;
    VoteRoundTrip(before, k, 1);
    VoteKeepsPosition(before, k, before[k].votes + 1);
    first := board.Vote(Some(id), "up");
    second := board.Vote(Some(id), "down");
  }
}
