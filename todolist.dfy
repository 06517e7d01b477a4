/** The program itself: its process-wide state (the session name and the `tasks` table it
    talks to) and the functions of `todolist.py` as methods that update that state in place. */
module TodoList {
  import opened Strings
  import opened Tasks
  import opened View
  import opened Menu

  class TodoApp {
    /** `CURRENT_USER_NAME`; empty until `StartupPrompt` has run. */
    var user: string
    /** The `tasks` table: its rows in storage order and its AUTO_INCREMENT counter. */
    var rows: seq<Task>
    var nextId: nat

    ghost predicate Valid()
      reads this
    {
      WellFormed(Table(rows, nextId))
    }

    function Snapshot(): Table
      reads this
    {
      Table(rows, nextId)
    }

    /** A process starting against whatever the table already holds. */
    constructor (existing: Table)
      requires WellFormed(existing)
      ensures Valid() && Snapshot() == existing && user == ""
    {
      user := "";
      rows := existing.rows;
      nextId := existing.nextId;
    }

    /** `startup_prompt`: keep the stripped name, "Guest" when nothing is left. */
    method StartupPrompt(line: string)
      modifies this`user
      ensures user == SessionName(line)
    {
      var name := Trim(line);
      if name == [] {
        name := "Guest";
      }
      user := name;
    }

    /** `add_task`: INSERT one row; the id comes from the counter, the status from the
        column default. */
    method AddTask(description: string)
      requires Valid()
      modifies this`rows, this`nextId
      ensures Valid()
      ensures rows == old(rows) + [Task(old(nextId), user, description, Pending)]
      ensures nextId == old(nextId) + 1
      ensures forall i :: 0 <= i < |old(rows)| ==> old(rows)[i].id < old(nextId)
      ensures Snapshot() == Inserted(old(Snapshot()), user, description)
    {
      InsertedAppendsFreshRow(Snapshot(), user, description);
      rows := rows + [Task(nextId, user, description, Pending)];
      nextId := nextId + 1;
    }

    /** `view_tasks`: fetch the user's rows in `ORDER BY status, id` order and render them,
        or report the empty list. */
    method ViewTasks() returns (outcome: ViewOutcome)
      ensures outcome == ViewOf(rows, user)
    {
      var tasks := UserView(rows, user);
      if tasks == [] {
        return EmptyList;
      }
      var lines := RenderLines(tasks);
      assert lines == seq(|tasks|, k requires 0 <= k < |tasks| => LineOf(tasks[k]));
      outcome := Listing(lines);
    }

    /** The `for task_id, description, status in tasks` loop of `view_tasks`: one line per
        fetched row, with its status symbol. */
    static method RenderLines(tasks: seq<Task>) returns (lines: seq<Line>)
      ensures |lines| == |tasks|
      ensures forall k :: 0 <= k < |tasks| ==> lines[k] == LineOf(tasks[k])
    {
      lines := [];
      for i := 0 to |tasks|
        invariant |lines| == i
        invariant forall k :: 0 <= k < i ==> lines[k] == LineOf(tasks[k])
      {
        var task := tasks[i];
        var symbol := StatusSymbol(Some(task.status));
        lines := lines + [Line(task.id, symbol, task.description, task.status)];
      }
    }

    /** `mark_complete`: reject an empty description, otherwise run the UPDATE and
        classify its outcome from the rowcount and the follow-up SELECT. */
    method MarkComplete(descriptionInput: string) returns (outcome: CompleteOutcome)
      requires Valid()
      modifies this`rows
      ensures Valid()
      ensures (Snapshot(), outcome) == CompleteTask(old(Snapshot()), user, descriptionInput)
    {
      var description := Trim(descriptionInput);
      if description == [] {
        return CompleteEmpty;
      }
      CompletedFrame(Snapshot(), user, descriptionInput);
      var affected := ExecuteUpdate(description);
      outcome := ClassifyComplete(affected, FirstMatchStatus(rows, user, description));
    }

    /** The UPDATE statement run over the table in place: every row of the user with this
        description that is not yet Complete becomes Complete; returns the rowcount. */
    method ExecuteUpdate(description: string) returns (affected: nat)
      modifies this`rows
      ensures rows == CompletedRows(old(rows), user, description)
      ensures affected == PendingCount(old(rows), user, description)
    {
      affected := 0;
      var i := 0;
      while i < |rows|
        invariant 0 <= i <= |rows| == |old(rows)|
        invariant forall k :: 0 <= k < i ==> rows[k] == MarkRow(old(rows)[k], user, description)
        invariant forall k :: i <= k < |rows| ==> rows[k] == old(rows)[k]
        invariant affected == PendingCount(old(rows)[..i], user, description)
      {
        var task := rows[i];
        if Matches(task, user, description) && task.status != Complete {
          rows := rows[i := task.(status := Complete)];
          affected := affected + 1;
        }
        assert old(rows)[..i + 1][..i] == old(rows)[..i];
        i := i + 1;
      }
      assert old(rows)[..i] == old(rows);
    }

    /** `delete_task`: reject an empty description, otherwise run the DELETE and report
        whether it removed anything. */
    method DeleteTask(descriptionInput: string) returns (outcome: DeleteOutcome)
      requires Valid()
      modifies this`rows
      ensures Valid()
      ensures (Snapshot(), outcome) == Tasks.DeleteTask(old(Snapshot()), user, descriptionInput)
    {
      var description := Trim(descriptionInput);
      if description == [] {
        return DeleteEmpty;
      }
      DeleteOutcomeCases(Snapshot(), user, descriptionInput);
      var removed := ExecuteDelete(description);
      if removed > 0 {
        outcome := Deleted;
      } else {
        outcome := NoMatchingTask;
      }
    }

    /** The DELETE statement run over the table: the rows of the user with this description
        go, the others stay in order; returns the rowcount. */
    method ExecuteDelete(description: string) returns (removed: nat)
      modifies this`rows
      ensures rows == DeletedRows(old(rows), user, description)
      ensures removed == |old(rows)| - |rows|
    {
      var kept: seq<Task> := [];
      var i := 0;
      while i < |rows|
        invariant 0 <= i <= |rows|
        invariant kept == DeletedRows(rows[..i], user, description)
      {
        if !Matches(rows[i], user, description) {
          kept := kept + [rows[i]];
        }
        assert rows[..i + 1][..i] == rows[..i];
        i := i + 1;
      }
      assert rows[..i] == rows;
      removed := |rows| - |kept|;
      rows := kept;
    }

    /** One pass of the `main_menu` loop for choices '2'-'4': strip the description line,
        then add it (rejecting an empty one), mark it complete, or delete it. */
    method HandleDescriptionChoice(choice: string, line: string) returns (event: Event)
      requires Valid() && ReadsDescription(choice)
      modifies this`rows, this`nextId
      ensures Valid()
      ensures (Snapshot(), event) == Dispatch(old(Snapshot()), user, choice, line)
    {
      var description := Trim(line);
      if choice == "2" {
        if description != [] {
          AddTask(description);
          event := Added(description);
        } else {
          event := AddRejected;
        }
      } else if choice == "3" {
        var outcome := MarkComplete(description);
        event := Completion(outcome);
      } else {
        var outcome := DeleteTask(description);
        event := Deletion(outcome);
      }
    }

    /** `main_menu`: take the session name from the first line, then read a choice per
        pass (and a description for '2'-'4') until '5' or the end of the input. */
    method MainMenu(nameLine: string, inputs: seq<string>) returns (events: seq<Event>, exited: bool)
      requires Valid()
      modifies this
      ensures Valid()
      ensures user == SessionName(nameLine)
      ensures RunMenu(old(Snapshot()), user, inputs) == MenuRun(Snapshot(), events, exited)
    {
      StartupPrompt(nameLine);
      ghost var start := Snapshot();
      events, exited := [], false;
      var i := 0;
      while i < |inputs|
        invariant 0 <= i <= |inputs|
        invariant Valid() && user == SessionName(nameLine)
        invariant !exited
        invariant RunMenu(start, user, inputs) == Then(events, RunMenu(Snapshot(), user, inputs[i..]))
      {
        ghost var before := Snapshot();
        ghost var past := events;
        var choice := inputs[i];
        RunMenuUnfold(before, user, inputs[i..]);
        if choice == "5" {
          events, exited := events + [Goodbye], true;
          break;
        } else if ReadsDescription(choice) {
          if i + 1 == |inputs| {
            break;
          }
          var event := HandleDescriptionChoice(choice, inputs[i + 1]);
          assert inputs[i..][1] == inputs[i + 1] && inputs[i..][2..] == inputs[i + 2..];
          ThenThen(past, [event], RunMenu(Snapshot(), user, inputs[i + 2..]));
          events := events + [event];
          i := i + 2;
        } else {
          var event;
          if choice == "1" {
            var view := ViewTasks();
            event := Viewed(view);
          } else {
            event := InvalidChoice;
          }
          assert inputs[i..][1..] == inputs[i + 1..];
          ThenThen(past, [event], RunMenu(Snapshot(), user, inputs[i + 1..]));
          events := events + [event];
          i := i + 1;
        }
      }
    }
  }
}
