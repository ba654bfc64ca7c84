/**
 * GET /questions: which ordering a `sort` query selects, and the three
 * `ORDER BY` clauses of server.js as orders on rows. The database sorts; the
 * model sorts by insertion and proves the result is an ordered permutation
 * of the table.
 */
module Ordering {
  import opened Wrappers
  import opened Text
  import opened Questions

  datatype SortMode = Top | Newest | Low

  /**
   * `listQuestions(String(query || "top").toLowerCase())`: "newest" and "low"
   * select their own orderings, whatever the letter case; anything else,
   * including a missing or empty query, falls back to "top".
   */
  function RequestedMode(query: Option<string>): (m: SortMode)
    ensures m == Newest <==> query.Some? && Lower(query.value) == "newest"
    ensures m == Low <==> query.Some? && Lower(query.value) == "low"
    ensures m == Top <==> query.None? || (Lower(query.value) != "newest" && Lower(query.value) != "low")
  {
    var sort := Lower(if query.Some? && query.value != "" then query.value else "top");
    assert Lower("top") == "top";
    if sort == "newest" then Newest else if sort == "low" then Low else Top
  }

  /**
   * `a` may be listed before `b`:
   * top    = ORDER BY votes DESC, created_at DESC;
   * newest = ORDER BY created_at DESC;
   * low    = ORDER BY votes ASC, created_at DESC.
   */
  predicate Precedes(mode: SortMode, a: Question, b: Question) {
    match mode
    case Top => a.votes > b.votes || (a.votes == b.votes && a.createdAt >= b.createdAt)
    case Newest => a.createdAt >= b.createdAt
    case Low => a.votes < b.votes || (a.votes == b.votes && a.createdAt >= b.createdAt)
  }

  predicate Sorted(mode: SortMode, s: seq<Question>) {
    forall i, j | 0 <= i < j < |s| :: Precedes(mode, s[i], s[j])
  }

  /** Puts `q` into the ordered `s` before the first row it may precede. */
  function Insert(mode: SortMode, q: Question, s: seq<Question>): seq<Question> {
    if s == [] || Precedes(mode, q, s[0]) then [q] + s
    else [s[0]] + Insert(mode, q, s[1..])
  }

  /**
   * The rows of the table in the order the mode asks for: exactly the rows
   * of the table, each as often as stored, in the mode's order.
   */
  function SortRows(mode: SortMode, rows: seq<Question>): (r: seq<Question>)
    ensures multiset(r) == multiset(rows)
    ensures Sorted(mode, r)
  {
    if rows == [] then []
    else
      var rest := SortRows(mode, rows[1..]);
      InsertSorted(mode, rows[0], rest);
      assert rows == [rows[0]] + rows[1..];
      Insert(mode, rows[0], rest)
  }

  /** Each `ORDER BY` is transitive: a row listed before one listed before a third may be listed before the third. */
  lemma PrecedesTransitive(mode: SortMode, a: Question, b: Question, c: Question)
    requires Precedes(mode, a, b) && Precedes(mode, b, c)
    ensures Precedes(mode, a, c)
  {
  }

  /** Each `ORDER BY` is total: of any two rows, one may be listed before the other. */
  lemma PrecedesTotal(mode: SortMode, a: Question, b: Question)
    ensures Precedes(mode, a, b) || Precedes(mode, b, a)
  {
  }

  /** Inserting keeps the order and adds exactly the one row. */
  lemma {:induction false} InsertSorted(mode: SortMode, q: Question, s: seq<Question>)
    requires Sorted(mode, s)
    ensures multiset(Insert(mode, q, s)) == multiset(s) + multiset{q}
    ensures Sorted(mode, Insert(mode, q, s))
    decreases |s|, 1
  {
    if s == [] || Precedes(mode, q, s[0]) {
      assert [q] + s == Insert(mode, q, s);
      forall j | 1 <= j < |s| ensures Precedes(mode, q, s[j]) {
        PrecedesTransitive(mode, q, s[0], s[j]);
      }
    } else {
      PrecedesTotal(mode, q, s[0]);
      InsertAfterFirst(mode, q, s);
    }
  }

  /** The step of `InsertSorted` where `q` goes after the first row of `s`. */
  lemma {:induction false} InsertAfterFirst(mode: SortMode, q: Question, s: seq<Question>)
    requires Sorted(mode, s) && s != [] && Precedes(mode, s[0], q) && !Precedes(mode, q, s[0])
    ensures multiset(Insert(mode, q, s)) == multiset(s) + multiset{q}
    ensures Sorted(mode, Insert(mode, q, s))
    decreases |s|, 0
  {
    assert s == [s[0]] + s[1..];
    var rest := Insert(mode, q, s[1..]);
    assert Insert(mode, q, s) == [s[0]] + rest;
    InsertSorted(mode, q, s[1..]);
    FirstPrecedesRest(mode, s);
    PrecedesAllAdded(mode, s[0], s[1..], q, rest);
  }

  /** In an ordered listing the first row may precede every later one. */
  lemma FirstPrecedesRest(mode: SortMode, s: seq<Question>)
    requires Sorted(mode, s) && s != []
    ensures forall x | x in s[1..] :: Precedes(mode, s[0], x)
  {
    forall x | x in s[1..] ensures Precedes(mode, s[0], x) {
      var i :| 0 <= i < |s[1..]| && s[1..][i] == x;
      assert s[i + 1] == x;
    }
  }

  /** A row that may precede every row of `t` and `q` may precede every row of a listing holding exactly those. */
  lemma PrecedesAllAdded(mode: SortMode, p: Question, t: seq<Question>, q: Question, u: seq<Question>)
    requires forall x | x in t :: Precedes(mode, p, x)
    requires Precedes(mode, p, q) && multiset(u) == multiset(t) + multiset{q}
    ensures forall j | 0 <= j < |u| :: Precedes(mode, p, u[j])
  {
    forall j | 0 <= j < |u| ensures Precedes(mode, p, u[j]) {
      assert u[j] in multiset(u);
      assert u[j] == q || u[j] in multiset(t);
    }
  }

  /**
   * Three questions A, B, C submitted in that order with 3, 1 and 3 votes:
   * the top listing is C, A, B, since the tie on votes puts the newer C first.
   */
  lemma TopListingExample(a: Question, b: Question, c: Question)
    requires a.votes == 3 && b.votes == 1 && c.votes == 3
    requires a.createdAt < b.createdAt < c.createdAt
    ensures SortRows(Top, [a, b, c]) == [c, a, b]
  {
    TopListingOfTwo(b, c);
    TopInsertBetween(a, b, c);
    assert [a, b, c][1..] == [b, c];
  }

  /** A, tied with C on votes but older, goes after C and before B, which has fewer votes. */
  lemma TopInsertBetween(a: Question, b: Question, c: Question)
    requires a.votes == c.votes && a.createdAt < c.createdAt && b.votes < a.votes
    ensures Insert(Top, a, [c, b]) == [c, a, b]
  {
    assert [c, b][1..] == [b];
  }

  /** The last two of those: B with fewer votes comes after C. */
  lemma TopListingOfTwo(b: Question, c: Question)
    requires b.votes < c.votes
    ensures SortRows(Top, [b, c]) == [c, b]
  {
    assert [b, c][1..] == [c] && [c][1..] == [];
    assert Insert(Top, b, [c]) == [c] + Insert(Top, b, []);
  }
}
