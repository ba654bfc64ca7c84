/**
 * The questions table and the statements server.js runs against it, as
 * operations on the sequence of rows in id order: text validation for
 * POST /question, lookup by id, the vote update and delete-by-id.
 */
module Questions {
  import opened Wrappers
  import opened Errors
  import opened Text

  /** One row of the `questions` table (the `created_at` column is `createdAt`). */
  datatype Question = Question(id: int, text: string, votes: int, createdAt: int)

  /** The largest accepted question length, in JavaScript (UTF-16) length units. */
  const MaxLength := 280

  /** What the table holds in its `text` column: non-empty, no surrounding whitespace, at most 280 long. */
  predicate ValidText(t: string) {
    t != [] && !IsSpace(t[0]) && !IsSpace(t[|t| - 1]) && Utf16Length(t) <= MaxLength
  }

  /** A valid text is its own trimmed form, so checking it again accepts it unchanged. */
  lemma ValidTextRechecks(t: string)
    requires ValidText(t)
    ensures Trim(t) == t && CheckText(t) == Ok(t)
  {
    assert t[..0] == [] && t[|t|..] == [] && t[0..|t|] == t;
    TrimIsMiddle(t, 0, |t|);
  }

  /**
   * The validation of POST /question: the trimmed text, or why it is refused.
   * Only whitespace (or nothing) is "required"; a trimmed text longer than
   * 280 is "too long"; everything else is accepted as its trimmed form.
   */
  function CheckText(raw: string): (r: Result<string, Error>)
    ensures r == Err(TextRequired) <==> AllSpace(raw)
    ensures r == Err(TextTooLong) <==> !AllSpace(raw) && Utf16Length(Trim(raw)) > MaxLength
    ensures r.Ok? ==> ValidText(r.value) && r.value == Trim(raw)
    ensures r.Ok? || r == Err(TextRequired) || r == Err(TextTooLong)
  {
    TrimEmpty(raw);
    var text := Trim(raw);
    if text == [] then Err(TextRequired)
    else if Utf16Length(text) > MaxLength then Err(TextTooLong)
    else Ok(text)
  }

  /**
   * The boundary: a text that has no surrounding whitespace and is exactly
   * 280 characters of the Basic Multilingual Plane is accepted unchanged.
   */
  lemma MaxLengthAccepted(text: string)
    requires |text| == MaxLength
    requires forall k | 0 <= k < |text| :: text[k] as int < 0x1_0000
    requires !IsSpace(text[0]) && !IsSpace(text[|text| - 1])
    ensures CheckText(text) == Ok(text)
  {
    assert text[..0] == [] && text[|text|..] == [] && text[0..|text|] == text;
    TrimIsMiddle(text, 0, |text|);
    Utf16LengthBmp(text);
  }

  /** One character more than that is refused as too long. */
  lemma OverMaxLengthRefused(text: string)
    requires |text| == MaxLength + 1
    requires !IsSpace(text[0]) && !IsSpace(text[|text| - 1])
    ensures CheckText(text) == Err(TextTooLong)
  {
    assert text[..0] == [] && text[|text|..] == [] && text[0..|text|] == text;
    TrimIsMiddle(text, 0, |text|);
  }

  /** Ids strictly increase along the table: AUTOINCREMENT hands them out in insertion order. */
  predicate IdsIncreasing(rows: seq<Question>) {
    forall i, j | 0 <= i < j < |rows| :: rows[i].id < rows[j].id
  }

  /**
   * What the handlers keep true of the table: ids increase along it, every
   * row's id is one AUTOINCREMENT has issued, every issued id lies below the
   * next one it will hand out, and every text passed `CheckText`.
   */
  predicate TableValid(rows: seq<Question>, nextId: int, issued: set<int>) {
    && IdsIncreasing(rows)
    && (forall i | 0 <= i < |rows| :: rows[i].id in issued)
    && (forall x | x in issued :: 1 <= x < nextId)
    && (forall i | 0 <= i < |rows| :: ValidText(rows[i].text))
  }

  /** Appending a checked text under the next id keeps the table valid, with that id issued and the counter moved on. */
  lemma AppendKeepsValid(rows: seq<Question>, nextId: int, issued: set<int>, q: Question)
    requires TableValid(rows, nextId, issued) && 1 <= nextId
    requires q.id == nextId && ValidText(q.text)
    ensures TableValid(rows + [q], nextId + 1, issued + {nextId})
  {
    var r := rows + [q];
    assert forall i | 0 <= i < |rows| :: r[i] == rows[i];
  }

  /** Removing one row keeps the table valid. */
  lemma RemoveKeepsValid(rows: seq<Question>, nextId: int, issued: set<int>, k: nat)
    requires TableValid(rows, nextId, issued) && k < |rows|
    ensures TableValid(rows[..k] + rows[k + 1..], nextId, issued)
  {
    var r := rows[..k] + rows[k + 1..];
    assert forall i | 0 <= i < |r| :: r[i] == rows[if i < k then i else i + 1];
  }

  predicate HasId(rows: seq<Question>, id: int) {
    exists i | 0 <= i < |rows| :: rows[i].id == id
  }

  /** `SELECT * FROM questions WHERE id = ?`: the position of the first row with that id. */
  function Find(rows: seq<Question>, id: int): (k: Option<nat>)
    ensures k.Some? ==> k.value < |rows| && rows[k.value].id == id
    ensures k.Some? ==> forall i | 0 <= i < k.value :: rows[i].id != id
    ensures k.None? <==> !HasId(rows, id)
  {
    if rows == [] then None
    else if rows[0].id == id then Some(0)
    else match Find(rows[1..], id)
      case None =>
        assert forall i | 1 <= i < |rows| :: rows[i] == rows[1..][i - 1];
        None
      case Some(k) => Some(k + 1)
  }

  /** With distinct ids, the row `Find` returns is the only one with that id. */
  lemma FindUnique(rows: seq<Question>, k: nat)
    requires IdsIncreasing(rows) && k < |rows|
    ensures Find(rows, rows[k].id) == Some(k)
  {
  }

  /** `UPDATE questions SET votes = ? WHERE id = ?`: every row with the id gets the new count, nothing else changes. */
  function SetVotes(rows: seq<Question>, id: int, votes: int): (r: seq<Question>)
    ensures |r| == |rows|
    ensures forall i | 0 <= i < |rows| ::
      r[i] == if rows[i].id == id then rows[i].(votes := votes) else rows[i]
  {
    if rows == [] then []
    else [if rows[0].id == id then rows[0].(votes := votes) else rows[0]] + SetVotes(rows[1..], id, votes)
  }

  /** The change a vote makes: +1 for "up", -1 for "down", and none for any other direction. */
  function Delta(direction: string): (d: Option<int>)
    ensures d.Some? <==> direction == "up" || direction == "down"
    ensures d == Some(1) <==> direction == "up"
    ensures d == Some(-1) <==> direction == "down"
  {
    if direction == "up" then Some(1) else if direction == "down" then Some(-1) else None
  }

  /** A vote changes no id and no text, so it keeps the table valid. */
  lemma SetVotesKeepsValid(rows: seq<Question>, nextId: int, issued: set<int>, id: int, votes: int)
    requires TableValid(rows, nextId, issued)
    ensures TableValid(SetVotes(rows, id, votes), nextId, issued)
  {
    var r := SetVotes(rows, id, votes);
    assert forall i | 0 <= i < |r| :: r[i].id == rows[i].id && r[i].text == rows[i].text;
  }

  /**
   * A vote followed by the opposite vote puts the table back as it was:
   * the second vote reads the count the first one wrote and writes the
   * original count back (`d` is +1 for up then down, -1 for down then up).
   */
  lemma VoteRoundTrip(rows: seq<Question>, k: nat, d: int)
    requires IdsIncreasing(rows) && k < |rows|
    ensures var id := rows[k].id;
      var once := SetVotes(rows, id, rows[k].votes + d);
      once[k].votes == rows[k].votes + d && SetVotes(once, id, once[k].votes - d) == rows
  {
    var id, v := rows[k].id, rows[k].votes;
    var once := SetVotes(rows, id, v + d);
    assert once[k] == rows[k].(votes := v + d);
    var twice := SetVotes(once, id, v);
    forall i | 0 <= i < |rows| ensures twice[i] == rows[i] {
      if i == k {
        assert twice[i] == once[i].(votes := v);
      } else {
        assert rows[i].id != id;
        assert once[i] == rows[i];
      }
    }
    assert |twice| == |rows|;
  }

  /** A vote moves no row: the lookup by id still finds the voted row where it was. */
  lemma VoteKeepsPosition(rows: seq<Question>, k: nat, votes: int)
    requires IdsIncreasing(rows) && k < |rows|
    ensures Find(SetVotes(rows, rows[k].id, votes), rows[k].id) == Some(k)
  {
    var once := SetVotes(rows, rows[k].id, votes);
    assert forall i | 0 <= i < |rows| :: once[i].id == rows[i].id;
    FindUnique(once, k);
  }

  /** `DELETE FROM questions WHERE id = ?`: the table without the rows carrying that id, in the same order. */
  function DeleteWhere(rows: seq<Question>, id: int): (r: seq<Question>)
    ensures |r| <= |rows|
    ensures forall i | 0 <= i < |r| :: r[i].id != id
    ensures |r| == |rows| <==> !HasId(rows, id)
    ensures !HasId(rows, id) ==> r == rows
  {
    if rows == [] then []
    else
      var rest := DeleteWhere(rows[1..], id);
      assert forall i | 1 <= i < |rows| :: rows[i] == rows[1..][i - 1];
      assert HasId(rows[1..], id) ==> HasId(rows, id);
      if rows[0].id == id then rest else [rows[0]] + rest
  }

  /** A row survives the delete exactly when it was in the table and carries another id. */
  lemma {:induction false} DeleteKeepsOthers(rows: seq<Question>, id: int, q: Question)
    ensures q in DeleteWhere(rows, id) <==> q in rows && q.id != id
  {
    if rows != [] {
      DeleteKeepsOthers(rows[1..], id, q);
      assert rows == [rows[0]] + rows[1..];
    }
  }

  /** With distinct ids, deleting an existing id removes exactly that one row and keeps the rest in order. */
  lemma DeleteRemovesOne(rows: seq<Question>, k: nat)
    requires IdsIncreasing(rows) && k < |rows|
    ensures DeleteWhere(rows, rows[k].id) == rows[..k] + rows[k + 1..]
  {
    DeleteOnlyAt(rows, k);
  }

  /** Deleting an id the valid table holds removes the row `Find` locates, and the table stays valid. */
  lemma DeleteExistingKeepsValid(rows: seq<Question>, nextId: int, issued: set<int>, id: int)
    requires TableValid(rows, nextId, issued) && HasId(rows, id)
    ensures Find(rows, id).Some?
    ensures var k := Find(rows, id).value;
      && DeleteWhere(rows, id) == rows[..k] + rows[k + 1..]
      && TableValid(DeleteWhere(rows, id), nextId, issued)
  {
    var k := Find(rows, id).value;
    DeleteRemovesOne(rows, k);
    RemoveKeepsValid(rows, nextId, issued, k);
  }

  /** The induction behind `DeleteRemovesOne`, for an id that only row `k` carries. */
  lemma {:induction false} DeleteOnlyAt(rows: seq<Question>, k: nat)
    requires k < |rows|
    requires forall i | 0 <= i < |rows| && i != k :: rows[i].id != rows[k].id
    ensures DeleteWhere(rows, rows[k].id) == rows[..k] + rows[k + 1..]
  {
    var id := rows[k].id;
    var rest := rows[1..];
    assert forall i | 0 <= i < |rest| :: rest[i] == rows[i + 1];
    if k == 0 {
      assert !HasId(rest, id);
      assert DeleteWhere(rows, id) == DeleteWhere(rest, id);
    } else {
      assert DeleteWhere(rows, id) == [rows[0]] + DeleteWhere(rest, id);
      DeleteOnlyAt(rest, k - 1);
      assert rows[..k] == [rows[0]] + rest[..k - 1];
      assert rest[k..] == rows[k + 1..];
    }
  }
}
