/** The `tasks` table and what the to-do list's INSERT, UPDATE and DELETE statements
    do to it, as functions on an in-memory table value. */
module Tasks {
  import opened Strings

  datatype Option<T> = None | Some(value: T)

  /** The two statuses the program ever writes: the column default and the UPDATE's value. */
  const Pending: string := "Pending"
  const Complete: string := "Complete"

  /** One row of `tasks` (its `created_at` column is not modelled). */
  datatype Task = Task(id: nat, user: string, description: string, status: string)

  /** The rows in storage order (ascending id) and the AUTO_INCREMENT counter. */
  datatype Table = Table(rows: seq<Task>, nextId: nat)

  /** A freshly created table: no rows, AUTO_INCREMENT starts at 1. */
  const EmptyTable: Table := Table([], 1)

  predicate IdsIncreasing(rows: seq<Task>) {
    forall i, j :: 0 <= i < j < |rows| ==> rows[i].id < rows[j].id
  }

  /** Ids are unique, in storage order and below the counter; statuses are ones the program writes. */
  predicate WellFormed(t: Table) {
    1 <= t.nextId
    && IdsIncreasing(t.rows)
    && (forall i :: 0 <= i < |t.rows| ==> 1 <= t.rows[i].id < t.nextId)
    && (forall i :: 0 <= i < |t.rows| ==> t.rows[i].status == Pending || t.rows[i].status == Complete)
  }

  /** `WHERE user_name = %s AND description = %s` */
  predicate Matches(x: Task, user: string, description: string) {
    x.user == user && x.description == description
  }

  predicate HasMatch(rows: seq<Task>, user: string, description: string) {
    exists i :: 0 <= i < |rows| && Matches(rows[i], user, description)
  }

  /** `WHERE user_name = %s AND description = %s AND status != 'Complete'` */
  predicate HasPendingMatch(rows: seq<Task>, user: string, description: string) {
    exists i :: 0 <= i < |rows| && Matches(rows[i], user, description) && rows[i].status != Complete
  }

  /** `WHERE user_name = %s`, keeping storage order. */
  function OwnedBy(rows: seq<Task>, user: string): (r: seq<Task>)
    ensures |r| <= |rows|
    ensures forall x :: x in r <==> x in rows && x.user == user
  {
    if rows == [] then []
    else
      var last := rows[|rows| - 1];
      assert rows == rows[..|rows| - 1] + [last];
      OwnedBy(rows[..|rows| - 1], user) + (if last.user == user then [last] else [])
  }

  // ---------------------------------------------------------------------------
  // INSERT INTO tasks (user_name, description) VALUES (%s, %s)

  function Inserted(t: Table, user: string, description: string): Table {
    Table(t.rows + [Task(t.nextId, user, description, Pending)], t.nextId + 1)
  }

  /** The insert appends one Pending row for the user whose id is above every existing id. */
  lemma InsertedAppendsFreshRow(t: Table, user: string, description: string)
    requires WellFormed(t)
    ensures var r := Inserted(t, user, description);
      WellFormed(r) && |r.rows| == |t.rows| + 1 && r.rows[..|t.rows|] == t.rows
      && r.rows[|t.rows|] == Task(t.nextId, user, description, Pending)
      && (forall i :: 0 <= i < |t.rows| ==> t.rows[i].id < r.rows[|t.rows|].id)
  {
    var r := Inserted(t, user, description);
    assert r.rows[..|t.rows|] == t.rows;
  }

  /** Inserting for one user leaves every other user's rows as they were. */
  lemma {:induction false} InsertedIsolation(t: Table, user: string, description: string, other: string)
    requires other != user
    ensures OwnedBy(Inserted(t, user, description).rows, other) == OwnedBy(t.rows, other)
  {
    var rows := Inserted(t, user, description).rows;
    assert rows[..|rows| - 1] == t.rows;
  }

  // ---------------------------------------------------------------------------
  // UPDATE tasks SET status = 'Complete'
  //   WHERE user_name = %s AND description = %s AND status != 'Complete'

  function MarkRow(x: Task, user: string, description: string): Task {
    if Matches(x, user, description) && x.status != Complete then x.(status := Complete) else x
  }

  /** The table after the UPDATE: each matching row ends up Complete, nothing else moves. */
  function CompletedRows(rows: seq<Task>, user: string, description: string): (r: seq<Task>)
    ensures |r| == |rows|
    ensures forall i :: 0 <= i < |rows| ==>
      r[i].id == rows[i].id && r[i].user == rows[i].user && r[i].description == rows[i].description
    ensures forall i :: 0 <= i < |rows| ==>
      r[i].status == if Matches(rows[i], user, description) then Complete else rows[i].status
  {
    if rows == [] then []
    else
      var n := |rows| - 1;
      CompletedRows(rows[..n], user, description) + [MarkRow(rows[n], user, description)]
  }

  /** The UPDATE's `rowcount`: the rows it actually changes. */
  function PendingCount(rows: seq<Task>, user: string, description: string): nat {
    if rows == [] then 0
    else
      var n := |rows| - 1;
      PendingCount(rows[..n], user, description)
      + (if Matches(rows[n], user, description) && rows[n].status != Complete then 1 else 0)
  }

  lemma {:induction false} PendingCountPositive(rows: seq<Task>, user: string, description: string)
    ensures PendingCount(rows, user, description) > 0 <==> HasPendingMatch(rows, user, description)
  {
    if rows != [] {
      var n := |rows| - 1;
      PendingCountPositive(rows[..n], user, description);
      if HasPendingMatch(rows[..n], user, description) {
        var i :| 0 <= i < n && Matches(rows[..n][i], user, description) && rows[..n][i].status != Complete;
        assert rows[i] == rows[..n][i];
      }
      if HasPendingMatch(rows, user, description) {
        var i :| 0 <= i < |rows| && Matches(rows[i], user, description) && rows[i].status != Complete;
        if i < n {
          assert rows[..n][i] == rows[i];
        }
      }
    }
  }

  /** `SELECT status ... WHERE user_name = %s AND description = %s` then `fetchone()`:
      the status of the first matching row, if any. */
  function FirstMatchStatus(rows: seq<Task>, user: string, description: string): (r: Option<string>)
    ensures r.None? <==> !HasMatch(rows, user, description)
    ensures r.Some? ==> exists i :: 0 <= i < |rows| && Matches(rows[i], user, description) && rows[i].status == r.value
  {
    if rows == [] then None
    else if Matches(rows[0], user, description) then Some(rows[0].status)
    else
      var r := FirstMatchStatus(rows[1..], user, description);
      assert forall i :: 0 < i < |rows| ==> rows[i] == rows[1..][i - 1];
      r
  }

  datatype CompleteOutcome =
    | CompleteEmpty     // "Task description cannot be empty."
    | Marked            // "Task '...' marked as Complete!"
    | AlreadyComplete   // "Task '...' was already Complete."
    | NoPendingMatch    // "No pending task found matching the exact description: ..."
    | TaskNotFound      // "Task '...' not found for user ..."

  /** The decision after the UPDATE, from its rowcount and the follow-up SELECT. */
  function ClassifyComplete(affected: nat, found: Option<string>): CompleteOutcome {
    if affected > 0 then Marked
    else match found
      case Some(status) => if status == Complete then AlreadyComplete else NoPendingMatch
      case None => TaskNotFound
  }

  /** `mark_complete(description_input)` on a table. */
  function CompleteTask(t: Table, user: string, input: string): (Table, CompleteOutcome) {
    var description := Trim(input);
    if description == [] then (t, CompleteEmpty)
    else
      var rows := CompletedRows(t.rows, user, description);
      (Table(rows, t.nextId),
       ClassifyComplete(PendingCount(t.rows, user, description), FirstMatchStatus(rows, user, description)))
  }

  /** The three reachable outcomes of `mark_complete`, each exactly when its condition
      holds; the "No pending task found" branch is never taken. */
  lemma CompleteOutcomeCases(t: Table, user: string, input: string)
    ensures var (r, o) := CompleteTask(t, user, input); var d := Trim(input);
      && (o == CompleteEmpty <==> d == [])
      && (d == [] ==> r == t)
      && (d != [] ==> (o == Marked <==> HasPendingMatch(t.rows, user, d)))
      && (d != [] ==> (o == AlreadyComplete <==> HasMatch(t.rows, user, d) && !HasPendingMatch(t.rows, user, d)))
      && (d != [] ==> (o == TaskNotFound <==> !HasMatch(t.rows, user, d)))
      && o != NoPendingMatch
  {
    var d := Trim(input);
    if d != [] {
      PendingCountPositive(t.rows, user, d);
      var rows := CompletedRows(t.rows, user, d);
      assert HasMatch(rows, user, d) <==> HasMatch(t.rows, user, d) by {
        if HasMatch(rows, user, d) {
          var i :| 0 <= i < |rows| && Matches(rows[i], user, d);
          assert Matches(t.rows[i], user, d);
        }
        if HasMatch(t.rows, user, d) {
          var i :| 0 <= i < |t.rows| && Matches(t.rows[i], user, d);
          assert Matches(rows[i], user, d);
        }
      }
    }
  }

  /** The UPDATE keeps row count, ids, owners and descriptions, never moves a row away
      from Complete, and leaves every row outside the match untouched. */
  lemma CompletedFrame(t: Table, user: string, input: string)
    requires WellFormed(t)
    ensures var (r, _) := CompleteTask(t, user, input);
      && WellFormed(r) && r.nextId == t.nextId && |r.rows| == |t.rows|
      && (forall i :: 0 <= i < |t.rows| ==> r.rows[i].id == t.rows[i].id)
      && (forall i :: 0 <= i < |t.rows| && t.rows[i].status == Complete ==> r.rows[i].status == Complete)
      && (forall i :: 0 <= i < |t.rows| && !Matches(t.rows[i], user, Trim(input)) ==> r.rows[i] == t.rows[i])
  {
  }

  /** The UPDATE leaves the rows exactly as they were when, and only when, no matching row
      is still pending. */
  lemma CompletedRowsUnchanged(rows: seq<Task>, user: string, description: string)
    ensures CompletedRows(rows, user, description) == rows <==> !HasPendingMatch(rows, user, description)
  {
    var r := CompletedRows(rows, user, description);
    if HasPendingMatch(rows, user, description) {
      var i :| 0 <= i < |rows| && Matches(rows[i], user, description) && rows[i].status != Complete;
      assert r[i] != rows[i];
    } else {
      forall i | 0 <= i < |rows| ensures r[i] == rows[i] {
      }
    }
  }

  /** The UPDATE only touches the current user's rows. */
  lemma {:induction false} CompletedIsolation(rows: seq<Task>, user: string, description: string, other: string)
    requires other != user
    ensures OwnedBy(CompletedRows(rows, user, description), other) == OwnedBy(rows, other)
  {
    if rows != [] {
      var n := |rows| - 1;
      CompletedIsolation(rows[..n], user, description, other);
      var r := CompletedRows(rows, user, description);
      assert r[..n] == CompletedRows(rows[..n], user, description);
    }
  }

  /** Marking the same description complete twice leaves the table as marking it once, and
      the second call reports "already Complete" (or the same rejection / not found). */
  lemma CompleteIdempotent(t: Table, user: string, input: string)
    ensures var (once, o1) := CompleteTask(t, user, input);
      var (twice, o2) := CompleteTask(once, user, input);
      && twice == once
      && (o1 == Marked || o1 == AlreadyComplete ==> o2 == AlreadyComplete)
      && (o1 == TaskNotFound ==> o2 == TaskNotFound)
      && (o1 == CompleteEmpty ==> o2 == CompleteEmpty)
  {
    var d := Trim(input);
    if d != [] {
      var once := CompleteTask(t, user, input).0;
      var again := CompletedRows(once.rows, user, d);
      assert again == once.rows;
      CompleteOutcomeCases(t, user, input);
      CompleteOutcomeCases(once, user, input);
      assert !HasPendingMatch(once.rows, user, d);
      assert HasMatch(once.rows, user, d) <==> HasMatch(t.rows, user, d) by {
        if HasMatch(t.rows, user, d) {
          var i :| 0 <= i < |t.rows| && Matches(t.rows[i], user, d);
          assert Matches(once.rows[i], user, d);
        }
      }
    }
  }

  // ---------------------------------------------------------------------------
  // DELETE FROM tasks WHERE user_name = %s AND description = %s

  /** The rows left by the DELETE, in storage order. */
  function DeletedRows(rows: seq<Task>, user: string, description: string): (r: seq<Task>)
    ensures |r| <= |rows|
    ensures forall x :: x in r <==> x in rows && !Matches(x, user, description)
  {
    if rows == [] then []
    else
      var n := |rows| - 1;
      assert rows == rows[..n] + [rows[n]];
      DeletedRows(rows[..n], user, description)
      + (if Matches(rows[n], user, description) then [] else [rows[n]])
  }

  lemma HasMatchSnoc(rows: seq<Task>, user: string, description: string)
    requires rows != []
    ensures var n := |rows| - 1;
      HasMatch(rows, user, description) <==> HasMatch(rows[..n], user, description) || Matches(rows[n], user, description)
  {
    var n := |rows| - 1;
    if HasMatch(rows[..n], user, description) {
      var i :| 0 <= i < n && Matches(rows[..n][i], user, description);
      assert rows[i] == rows[..n][i];
    }
    if HasMatch(rows, user, description) && !Matches(rows[n], user, description) {
      var i :| 0 <= i < |rows| && Matches(rows[i], user, description);
      assert rows[..n][i] == rows[i];
    }
  }

  /** Some row goes exactly when some row matches; none is left matching. */
  lemma {:induction false} DeletedShrinks(rows: seq<Task>, user: string, description: string)
    ensures |DeletedRows(rows, user, description)| < |rows| <==> HasMatch(rows, user, description)
    ensures !HasMatch(rows, user, description) ==> DeletedRows(rows, user, description) == rows
  {
    if rows != [] {
      var n := |rows| - 1;
      DeletedShrinks(rows[..n], user, description);
      HasMatchSnoc(rows, user, description);
      assert rows == rows[..n] + [rows[n]];
    }
  }

  /** The DELETE keeps the survivors' storage order, so ids stay increasing. */
  lemma {:induction false} DeletedKeepsOrder(rows: seq<Task>, user: string, description: string)
    requires IdsIncreasing(rows)
    ensures IdsIncreasing(DeletedRows(rows, user, description))
  {
    if rows != [] {
      var n := |rows| - 1;
      assert IdsIncreasing(rows[..n]);
      DeletedKeepsOrder(rows[..n], user, description);
      var r := DeletedRows(rows, user, description);
      var prefix := DeletedRows(rows[..n], user, description);
      forall i, j | 0 <= i < j < |r| ensures r[i].id < r[j].id {
        if j >= |prefix| {
          assert r[j] == rows[n];
          assert r[i] in rows[..n];
        }
      }
    }
  }

  /** The DELETE only touches the current user's rows. */
  lemma {:induction false} DeletedIsolation(rows: seq<Task>, user: string, description: string, other: string)
    requires other != user
    ensures OwnedBy(DeletedRows(rows, user, description), other) == OwnedBy(rows, other)
  {
    if rows != [] {
      var n := |rows| - 1;
      DeletedIsolation(rows[..n], user, description, other);
      var r := DeletedRows(rows, user, description);
      var prefix := DeletedRows(rows[..n], user, description);
      var tail := if rows[n].user == other then [rows[n]] else [];
      assert OwnedBy(rows, other) == OwnedBy(rows[..n], other) + tail;
      if Matches(rows[n], user, description) {
        assert r == prefix;
      } else {
        assert r == prefix + [rows[n]];
        assert r[..|r| - 1] == prefix;
        assert OwnedBy(r, other) == OwnedBy(prefix, other) + tail;
      }
    }
  }

  datatype DeleteOutcome =
    | DeleteEmpty      // "Task description cannot be empty."
    | Deleted          // "Task '...' deleted."
    | NoMatchingTask   // "No task found matching the exact description: ..."

  /** `delete_task(description_input)` on a table. */
  function DeleteTask(t: Table, user: string, input: string): (Table, DeleteOutcome) {
    var description := Trim(input);
    if description == [] then (t, DeleteEmpty)
    else
      var rows := DeletedRows(t.rows, user, description);
      (Table(rows, t.nextId), if |t.rows| - |rows| > 0 then Deleted else NoMatchingTask)
  }

  /** `delete_task` reports "deleted" exactly when a row of the user had that description,
      afterwards none has, and the table stays well formed. */
  lemma DeleteOutcomeCases(t: Table, user: string, input: string)
    requires WellFormed(t)
    ensures var (r, o) := DeleteTask(t, user, input); var d := Trim(input);
      && WellFormed(r) && r.nextId == t.nextId
      && (o == DeleteEmpty <==> d == [])
      && (d == [] ==> r == t)
      && (d != [] ==> (o == Deleted <==> HasMatch(t.rows, user, d)))
      && (d != [] ==> !HasMatch(r.rows, user, d))
      && (forall x :: x in r.rows <==> x in t.rows && (d == [] || !Matches(x, user, d)))
  {
    var d := Trim(input);
    if d != [] {
      DeletedShrinks(t.rows, user, d);
      DeletedKeepsOrder(t.rows, user, d);
      var r := DeletedRows(t.rows, user, d);
      forall i | 0 <= i < |r| ensures 1 <= r[i].id < t.nextId && (r[i].status == Pending || r[i].status == Complete) {
        assert r[i] in t.rows;
      }
    }
  }

  /** A description nobody of this user has: complete and delete both report "not found"
      and change nothing. */
  lemma NotFoundChangesNothing(t: Table, user: string, input: string)
    requires Trim(input) != [] && !HasMatch(t.rows, user, Trim(input))
    ensures CompleteTask(t, user, input) == (t, TaskNotFound)
    ensures DeleteTask(t, user, input) == (t, NoMatchingTask)
  {
    var d := Trim(input);
    CompleteOutcomeCases(t, user, input);
    DeletedShrinks(t.rows, user, d);
    assert CompletedRows(t.rows, user, d) == t.rows;
  }
}
