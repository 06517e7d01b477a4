/** The session: the name rule of `startup_prompt` and the menu of `main_menu`, as a
    function from the console lines read to the table, the outcomes shown and whether the
    user chose to exit. */
module Menu {
  import opened Strings
  import opened Tasks
  import opened View

  /** The name kept for the session: the stripped input, or "Guest" when nothing is left. */
  function SessionName(line: string): string {
    var name := Trim(line);
    if name == [] then "Guest" else name
  }

  /** A blank entry (empty or whitespace only) gives "Guest"; any other entry gives the
      entry stripped. */
  lemma SessionNameDefault(line: string)
    ensures AllSpace(line) ==> SessionName(line) == "Guest"
    ensures !AllSpace(line) ==> SessionName(line) == Trim(line)
  {
    TrimEmptyIff(line);
  }

  /** The session name is never empty and never has surrounding whitespace. */
  lemma SessionNameTrimmed(line: string)
    ensures SessionName(line) != [] && Trim(SessionName(line)) == SessionName(line)
  {
    TrimIdempotent(line);
    if Trim(line) == [] {
      GuestIsTrimmed();
    }
  }

  lemma GuestIsTrimmed()
    ensures Trim("Guest") == "Guest"
  {
    var guest := "Guest";
    assert !IsSpace(guest[0]) && !IsSpace(guest[|guest| - 1]);
    TrimPadded([], guest, []);
    assert [] + guest + [] == guest;
  }

  /** What one pass of the menu loop shows. */
  datatype Event =
    | Viewed(view: ViewOutcome)
    | Added(description: string)          // "Task added for {user}: '...'"
    | AddRejected                         // "Task description cannot be empty."
    | Completion(complete: CompleteOutcome)
    | Deletion(delete: DeleteOutcome)
    | InvalidChoice                       // "Invalid choice. Please enter a number between 1 and 5."
    | Goodbye                             // "Exiting To-Do List, {user}. Goodbye!"

  /** The table left, the events shown, and whether the loop ended by choice '5'. */
  datatype MenuRun = MenuRun(table: Table, events: seq<Event>, exited: bool)

  function Then(before: seq<Event>, run: MenuRun): MenuRun {
    MenuRun(run.table, before + run.events, run.exited)
  }

  /** Choices '2', '3' and '4' read a second line, the task description. */
  predicate ReadsDescription(choice: string) {
    choice == "2" || choice == "3" || choice == "4"
  }

  /** Choices '2'-'4': the description line is stripped; '2' rejects an empty one itself,
      '3' and '4' hand it to `mark_complete` / `delete_task`, which strip and check again. */
  function Dispatch(t: Table, user: string, choice: string, line: string): (Table, Event)
    requires ReadsDescription(choice)
  {
    var description := Trim(line);
    if choice == "2" then
      if description == [] then (t, AddRejected) else (Inserted(t, user, description), Added(description))
    else if choice == "3" then
      var (r, o) := CompleteTask(t, user, description); (r, Completion(o))
    else
      var (r, o) := DeleteTask(t, user, description); (r, Deletion(o))
  }

  /** The `while True` loop of `main_menu` over the remaining console lines. When the lines
      run out (where `input()` would raise), the run stops without exiting. */
  function RunMenu(t: Table, user: string, inputs: seq<string>): MenuRun
    decreases |inputs|
  {
    if inputs == [] then MenuRun(t, [], false)
    else
      var choice := inputs[0];
      if choice == "5" then MenuRun(t, [Goodbye], true)
      else if ReadsDescription(choice) then
        if |inputs| == 1 then MenuRun(t, [], false)
        else
          var (next, e) := Dispatch(t, user, choice, inputs[1]);
          Then([e], RunMenu(next, user, inputs[2..]))
      else if choice == "1" then Then([Viewed(ViewOf(t.rows, user))], RunMenu(t, user, inputs[1..]))
      else Then([InvalidChoice], RunMenu(t, user, inputs[1..]))
  }

  lemma ThenThen(first: seq<Event>, second: seq<Event>, run: MenuRun)
    ensures Then(first, Then(second, run)) == Then(first + second, run)
  {
    assert first + (second + run.events) == (first + second) + run.events;
  }

  /** One pass of the loop, as `main_menu` runs it. */
  lemma RunMenuUnfold(t: Table, user: string, inputs: seq<string>)
    requires inputs != []
    ensures var choice := inputs[0];
      && (choice == "5" ==> RunMenu(t, user, inputs) == MenuRun(t, [Goodbye], true))
      && (ReadsDescription(choice) && |inputs| == 1 ==> RunMenu(t, user, inputs) == MenuRun(t, [], false))
      && (ReadsDescription(choice) && |inputs| > 1 ==>
            RunMenu(t, user, inputs)
            == Then([Dispatch(t, user, choice, inputs[1]).1], RunMenu(Dispatch(t, user, choice, inputs[1]).0, user, inputs[2..])))
      && (choice == "1" ==> RunMenu(t, user, inputs) == Then([Viewed(ViewOf(t.rows, user))], RunMenu(t, user, inputs[1..])))
      && (choice != "5" && choice != "1" && !ReadsDescription(choice) ==>
            RunMenu(t, user, inputs) == Then([InvalidChoice], RunMenu(t, user, inputs[1..])))
  {
  }

  /** One dispatched choice keeps the table well formed and never lowers the id counter. */
  lemma DispatchWellFormed(t: Table, user: string, choice: string, line: string)
    requires WellFormed(t) && ReadsDescription(choice)
    ensures WellFormed(Dispatch(t, user, choice, line).0)
    ensures Dispatch(t, user, choice, line).0.nextId >= t.nextId
  {
    var d := Trim(line);
    if choice == "2" && d != [] {
      InsertedAppendsFreshRow(t, user, d);
    } else if choice == "3" {
      CompletedFrame(t, user, d);
    } else if choice == "4" {
      DeleteOutcomeCases(t, user, d);
    }
  }

  /** A whole session keeps the table well formed (so ids are never reused) and never
      lowers the id counter. */
  lemma {:induction false} RunMenuWellFormed(t: Table, user: string, inputs: seq<string>)
    requires WellFormed(t)
    ensures WellFormed(RunMenu(t, user, inputs).table)
    ensures RunMenu(t, user, inputs).table.nextId >= t.nextId
    decreases |inputs|
  {
    if inputs != [] && inputs[0] != "5" {
      if ReadsDescription(inputs[0]) {
        if |inputs| > 1 {
          DispatchWellFormed(t, user, inputs[0], inputs[1]);
          RunMenuWellFormed(Dispatch(t, user, inputs[0], inputs[1]).0, user, inputs[2..]);
        }
      } else {
        RunMenuWellFormed(t, user, inputs[1..]);
      }
    }
  }

  lemma DispatchIsolation(t: Table, user: string, choice: string, line: string, other: string)
    requires ReadsDescription(choice) && other != user
    ensures OwnedBy(Dispatch(t, user, choice, line).0.rows, other) == OwnedBy(t.rows, other)
  {
    var d := Trim(line);
    if choice == "2" && d != [] {
      InsertedIsolation(t, user, d, other);
    } else if choice == "3" && Trim(d) != [] {
      CompletedIsolation(t.rows, user, Trim(d), other);
    } else if choice == "4" && Trim(d) != [] {
      DeletedIsolation(t.rows, user, Trim(d), other);
    }
  }

  /** Nothing a session does can add, change or remove a row of another user. */
  lemma {:induction false} RunMenuIsolation(t: Table, user: string, inputs: seq<string>, other: string)
    requires other != user
    ensures OwnedBy(RunMenu(t, user, inputs).table.rows, other) == OwnedBy(t.rows, other)
    decreases |inputs|
  {
    if inputs != [] && inputs[0] != "5" {
      if ReadsDescription(inputs[0]) {
        if |inputs| > 1 {
          DispatchIsolation(t, user, inputs[0], inputs[1], other);
          RunMenuIsolation(Dispatch(t, user, inputs[0], inputs[1]).0, user, inputs[2..], other);
        }
      } else {
        RunMenuIsolation(t, user, inputs[1..], other);
      }
    }
  }

  /** The events that report a change to the table: a task added, marked complete or deleted. */
  predicate ReportsChange(e: Event) {
    e.Added? || e == Completion(Marked) || e == Deletion(Deleted)
  }

  /** One choice '2'-'4' changes the table exactly when its event reports a change; in
      particular a description that is blank after stripping changes nothing. */
  lemma DispatchChangesIffReported(t: Table, user: string, choice: string, line: string)
    requires ReadsDescription(choice)
    ensures Trim(line) == [] ==> Dispatch(t, user, choice, line).0 == t
    ensures Dispatch(t, user, choice, line).0 == t <==> !ReportsChange(Dispatch(t, user, choice, line).1)
  {
    var d := Trim(line);
    TrimIdempotent(line);
    if choice == "2" && d != [] {
      assert |Inserted(t, user, d).rows| == |t.rows| + 1;
    } else if choice == "3" && d != [] {
      CompleteOutcomeCases(t, user, d);
      CompletedRowsUnchanged(t.rows, user, d);
    } else if choice == "4" && d != [] {
      DeletedShrinks(t.rows, user, d);
    }
  }

  /** A session in which no event reports an added, completed or deleted task leaves the
      table exactly as it found it: listing, invalid choices, blank descriptions, "already
      Complete" and "not found" change nothing. */
  lemma {:induction false} RunMenuQuietKeepsTable(t: Table, user: string, inputs: seq<string>)
    requires forall i :: 0 <= i < |RunMenu(t, user, inputs).events| ==> !ReportsChange(RunMenu(t, user, inputs).events[i])
    ensures RunMenu(t, user, inputs).table == t
    decreases |inputs|
  {
    if inputs != [] && inputs[0] != "5" {
      if ReadsDescription(inputs[0]) && |inputs| > 1 {
        var (next, e) := Dispatch(t, user, inputs[0], inputs[1]);
        var run := RunMenu(next, user, inputs[2..]);
        assert RunMenu(t, user, inputs).events == [e] + run.events;
        assert !ReportsChange(RunMenu(t, user, inputs).events[0]);
        forall i | 0 <= i < |run.events| ensures !ReportsChange(run.events[i]) {
          assert run.events[i] == RunMenu(t, user, inputs).events[i + 1];
        }
        DispatchChangesIffReported(t, user, inputs[0], inputs[1]);
        RunMenuQuietKeepsTable(next, user, inputs[2..]);
      } else if !ReadsDescription(inputs[0]) {
        var run := RunMenu(t, user, inputs[1..]);
        forall i | 0 <= i < |run.events| ensures !ReportsChange(run.events[i]) {
          assert run.events[i] == RunMenu(t, user, inputs).events[i + 1];
        }
        RunMenuQuietKeepsTable(t, user, inputs[1..]);
      }
    }
  }

  /** The goodbye is shown exactly once, as the last event, when and only when the run exited. */
  predicate GoodbyeOnlyLast(r: MenuRun) {
    && (r.exited ==> r.events != [])
    && forall i :: 0 <= i < |r.events| ==> (r.events[i] == Goodbye <==> r.exited && i == |r.events| - 1)
  }

  lemma GoodbyeOnlyLastThen(e: Event, r: MenuRun)
    requires e != Goodbye && GoodbyeOnlyLast(r)
    ensures GoodbyeOnlyLast(Then([e], r))
  {
    var s := Then([e], r);
    forall i | 0 < i < |s.events| ensures s.events[i] == r.events[i - 1] {
    }
  }

  /** A session shows the goodbye exactly once, as its last event, when and only when the
      loop ended by choice '5'. */
  lemma {:induction false} RunMenuGoodbyeLast(t: Table, user: string, inputs: seq<string>)
    ensures GoodbyeOnlyLast(RunMenu(t, user, inputs))
    decreases |inputs|
  {
    if inputs != [] && inputs[0] != "5" {
      if ReadsDescription(inputs[0]) {
        if |inputs| > 1 {
          var (next, e) := Dispatch(t, user, inputs[0], inputs[1]);
          RunMenuGoodbyeLast(next, user, inputs[2..]);
          GoodbyeOnlyLastThen(e, RunMenu(next, user, inputs[2..]));
        }
      } else {
        RunMenuGoodbyeLast(t, user, inputs[1..]);
        var e := if inputs[0] == "1" then Viewed(ViewOf(t.rows, user)) else InvalidChoice;
        GoodbyeOnlyLastThen(e, RunMenu(t, user, inputs[1..]));
      }
    }
  }

  /** Adding a task and then viewing the list shows it: unchecked, Pending, with a fresh id. */
  lemma AddedTaskIsListed(t: Table, user: string, description: string)
    ensures var v := ViewOf(Inserted(t, user, description).rows, user);
      v.Listing? && LineOf(Task(t.nextId, user, description, Pending)) in v.lines
      && LineOf(Task(t.nextId, user, description, Pending)).symbol == "[ ]"
  {
    var rows := Inserted(t, user, description).rows;
    var x := Task(t.nextId, user, description, Pending);
    assert rows[|rows| - 1] == x;
    UserViewExact(rows, user);
    var u := UserView(rows, user);
    assert x in u;
    var i :| 0 <= i < |u| && u[i] == x;
    assert ViewOf(rows, user).lines[i] == LineOf(x);
    SymbolOfStoredStatus(Pending);
  }
}
