/** What `view_tasks` shows: the current user's rows `ORDER BY status, id`, each with
    its `[X]` / `[ ]` symbol, or the empty-list message. */
module View {
  import opened Strings
  import opened Tasks

  /** The sort key of `ORDER BY status, id`, compared as code points. */
  predicate KeyLe(a: Task, b: Task) {
    StrLt(a.status, b.status) || (a.status == b.status && a.id <= b.id)
  }

  predicate SortedByKey(s: seq<Task>) {
    forall i, j :: 0 <= i < j < |s| ==> KeyLe(s[i], s[j])
  }

  lemma KeyLeTotal(a: Task, b: Task)
    ensures KeyLe(a, b) || KeyLe(b, a)
  {
    StrLtTotal(a.status, b.status);
  }

  lemma KeyLeTransitive(a: Task, b: Task, c: Task)
    requires KeyLe(a, b) && KeyLe(b, c)
    ensures KeyLe(a, c)
  {
    if StrLt(a.status, b.status) && StrLt(b.status, c.status) {
      StrLtTransitive(a.status, b.status, c.status);
    }
  }

  function InsertByKey(x: Task, s: seq<Task>): (r: seq<Task>)
    ensures |r| == |s| + 1
    ensures multiset(r) == multiset(s) + multiset{x}
  {
    if s == [] then [x]
    else if KeyLe(x, s[0]) then [x] + s
    else
      assert s == [s[0]] + s[1..];
      [s[0]] + InsertByKey(x, s[1..])
  }

  function SortByKey(s: seq<Task>): (r: seq<Task>)
    ensures |r| == |s|
    ensures multiset(r) == multiset(s)
  {
    if s == [] then []
    else
      assert s == [s[0]] + s[1..];
      InsertByKey(s[0], SortByKey(s[1..]))
  }

  lemma SortedCons(a: Task, s: seq<Task>)
    requires SortedByKey(s) && forall j :: 0 <= j < |s| ==> KeyLe(a, s[j])
    ensures SortedByKey([a] + s)
  {
    var r := [a] + s;
    forall i, j | 0 <= i < j < |r| ensures KeyLe(r[i], r[j]) {
      assert r[j] == s[j - 1];
      if i > 0 {
        assert r[i] == s[i - 1];
      }
    }
  }

  /** Inserting keeps a lower bound that holds for the element and the sequence. */
  lemma InsertByKeyLowerBound(b: Task, x: Task, s: seq<Task>)
    requires KeyLe(b, x) && forall j :: 0 <= j < |s| ==> KeyLe(b, s[j])
    ensures forall j :: 0 <= j < |InsertByKey(x, s)| ==> KeyLe(b, InsertByKey(x, s)[j])
  {
    var r := InsertByKey(x, s);
    forall j | 0 <= j < |r| ensures KeyLe(b, r[j]) {
      assert r[j] in multiset(r);
      if r[j] != x {
        assert r[j] in multiset(s);
        var k :| 0 <= k < |s| && s[k] == r[j];
      }
    }
  }

  lemma {:induction false} InsertByKeySorted(x: Task, s: seq<Task>)
    requires SortedByKey(s)
    ensures SortedByKey(InsertByKey(x, s))
  {
    if s != [] {
      if KeyLe(x, s[0]) {
        forall j | 0 <= j < |s| ensures KeyLe(x, s[j]) {
          if j > 0 {
            KeyLeTransitive(x, s[0], s[j]);
          }
        }
        SortedCons(x, s);
      } else {
        KeyLeTotal(x, s[0]);
        var rest := s[1..];
        assert SortedByKey(rest);
        InsertByKeySorted(x, rest);
        InsertByKeyLowerBound(s[0], x, rest);
        SortedCons(s[0], InsertByKey(x, rest));
      }
    }
  }

  lemma {:induction false} SortByKeySorted(s: seq<Task>)
    ensures SortedByKey(SortByKey(s))
  {
    if s != [] {
      SortByKeySorted(s[1..]);
      InsertByKeySorted(s[0], SortByKey(s[1..]));
    }
  }

  /** The rows `SELECT id, description, status FROM tasks WHERE user_name = %s
      ORDER BY status, id` returns. */
  function UserView(rows: seq<Task>, user: string): seq<Task> {
    SortByKey(OwnedBy(rows, user))
  }

  /** The view holds exactly the user's rows, each as often as stored, in key order. */
  lemma UserViewExact(rows: seq<Task>, user: string)
    ensures var v := UserView(rows, user);
      && SortedByKey(v)
      && multiset(v) == multiset(OwnedBy(rows, user))
      && (forall x :: x in v <==> x in rows && x.user == user)
  {
    SortByKeySorted(OwnedBy(rows, user));
    var v := UserView(rows, user);
    forall x ensures x in v <==> x in OwnedBy(rows, user) {
      assert x in v <==> x in multiset(v);
      assert x in OwnedBy(rows, user) <==> x in multiset(OwnedBy(rows, user));
    }
  }

  lemma {:induction false} OwnedByKeepsOrder(rows: seq<Task>, user: string)
    requires IdsIncreasing(rows)
    ensures IdsIncreasing(OwnedBy(rows, user))
  {
    if rows != [] {
      var n := |rows| - 1;
      assert IdsIncreasing(rows[..n]);
      OwnedByKeepsOrder(rows[..n], user);
      var r := OwnedBy(rows, user);
      var prefix := OwnedBy(rows[..n], user);
      forall i, j | 0 <= i < j < |r| ensures r[i].id < r[j].id {
        if j >= |prefix| {
          assert r[j] == rows[n];
          assert r[i] in rows[..n];
        }
      }
    }
  }

  lemma {:induction false} IncreasingOccursOnce(s: seq<Task>, x: Task)
    requires IdsIncreasing(s)
    ensures multiset(s)[x] <= 1
  {
    if s != [] {
      assert s == [s[0]] + s[1..];
      IncreasingOccursOnce(s[1..], x);
      if x == s[0] {
        assert x !in s[1..];
      }
    }
  }

  lemma RepeatedOccursTwice(s: seq<Task>, i: nat, j: nat)
    requires i < j < |s| && s[i] == s[j]
    ensures multiset(s)[s[i]] >= 2
  {
    assert s == s[..j] + [s[j]] + s[j + 1..];
    assert s[i] in s[..j];
  }

  /** Two positions of the view never hold rows with the same id. */
  lemma ViewIdsDistinct(t: Table, user: string, i: nat, j: nat)
    requires WellFormed(t) && i < j < |UserView(t.rows, user)|
    ensures UserView(t.rows, user)[i].id != UserView(t.rows, user)[j].id
  {
    var v := UserView(t.rows, user);
    UserViewExact(t.rows, user);
    OwnedByKeepsOrder(t.rows, user);
    if v[i].id == v[j].id {
      assert v[i] in t.rows && v[j] in t.rows;
      var a :| 0 <= a < |t.rows| && t.rows[a] == v[i];
      var b :| 0 <= b < |t.rows| && t.rows[b] == v[j];
      assert a == b;
      RepeatedOccursTwice(v, i, j);
      IncreasingOccursOnce(OwnedBy(t.rows, user), v[i]);
      assert false;
    }
  }

  /** In a well-formed table, the view lists Complete rows before Pending ones, and rows of
      equal status by strictly increasing id. */
  lemma ViewOrder(t: Table, user: string)
    requires WellFormed(t)
    ensures var v := UserView(t.rows, user);
      forall i, j :: 0 <= i < j < |v| ==>
        && (v[i].status == Pending ==> v[j].status != Complete)
        && (v[i].status == v[j].status ==> v[i].id < v[j].id)
  {
    var v := UserView(t.rows, user);
    UserViewExact(t.rows, user);
    forall i, j | 0 <= i < j < |v|
      ensures v[i].status == Pending ==> v[j].status != Complete
      ensures v[i].status == v[j].status ==> v[i].id < v[j].id
    {
      assert KeyLe(v[i], v[j]);
      ViewIdsDistinct(t, user, i, j);
    }
  }

  const CompleteWord: string := "complete"

  /** The status symbol: `[X]` when the status, stripped and lower-cased, is "complete";
      `[ ]` otherwise, including a missing status. */
  function StatusSymbol(status: Option<string>): string {
    if status.Some? && Lower(Trim(status.value)) == CompleteWord then "[X]" else "[ ]"
  }

  lemma LowerOfComplete()
    ensures Lower(Complete) == CompleteWord
  {
    var l := Lower(Complete);
    assert l[0] == 'c' && l[1] == 'o' && l[2] == 'm' && l[3] == 'p';
    assert l[4] == 'l' && l[5] == 'e' && l[6] == 't' && l[7] == 'e';
  }

  lemma TrimOfStored(status: string)
    requires status == Pending || status == Complete
    ensures Trim(status) == status
  {
    assert !IsSpace(status[0]) && !IsSpace(status[|status| - 1]);
    TrimPadded([], status, []);
    assert [] + status + [] == status;
  }

  lemma SymbolOfComplete()
    ensures StatusSymbol(Some(Complete)) == "[X]"
  {
    TrimOfStored(Complete);
    LowerOfComplete();
  }

  lemma SymbolOfPending()
    ensures StatusSymbol(Some(Pending)) == "[ ]"
  {
    TrimOfStored(Pending);
    assert |Lower(Pending)| == 7;
  }

  /** For the statuses the program stores the symbol is `[X]` exactly for Complete, and a
      missing status shows `[ ]`. */
  lemma SymbolOfStoredStatus(status: string)
    requires status == Pending || status == Complete
    ensures StatusSymbol(Some(status)) == "[X]" <==> status == Complete
    ensures StatusSymbol(None) == "[ ]"
  {
    if status == Complete {
      SymbolOfComplete();
    } else {
      SymbolOfPending();
    }
  }

  /** Reading is tolerant: any capitalisation of "complete", with any surrounding
      whitespace, shows `[X]`. */
  lemma SymbolIgnoresCaseAndPadding(pre: string, word: string, post: string)
    requires AllSpace(pre) && AllSpace(post) && Lower(word) == CompleteWord
    ensures StatusSymbol(Some(pre + word + post)) == "[X]"
  {
    LowerSpec(word);
    assert LowerChar(word[0]) == 'c' && LowerChar(word[|word| - 1]) == 'e';
    TrimPadded(pre, word, post);
  }

  /** One printed line: `[{task_id:3}] {status_symbol} {description} ({status})`. */
  datatype Line = Line(id: nat, symbol: string, description: string, status: string)

  datatype ViewOutcome =
    | EmptyList                 // "--- {user}'s To-Do List is Empty! ---"
    | Listing(lines: seq<Line>)

  function LineOf(x: Task): Line {
    Line(x.id, StatusSymbol(Some(x.status)), x.description, x.status)
  }

  /** What `view_tasks` shows for the user. */
  function ViewOf(rows: seq<Task>, user: string): ViewOutcome {
    var v := UserView(rows, user);
    if v == [] then EmptyList else Listing(seq(|v|, i requires 0 <= i < |v| => LineOf(v[i])))
  }

  /** The empty-list message appears exactly when the user owns no row; otherwise the lines
      are the fetched rows in order, one each, and every row of the user gets its line. */
  lemma ViewOfCases(rows: seq<Task>, user: string)
    ensures ViewOf(rows, user).EmptyList? <==> forall x :: x in rows ==> x.user != user
    ensures ViewOf(rows, user).Listing? ==>
      && |ViewOf(rows, user).lines| == |OwnedBy(rows, user)|
      && (forall i :: 0 <= i < |ViewOf(rows, user).lines| ==>
            ViewOf(rows, user).lines[i] == LineOf(UserView(rows, user)[i]))
      && (forall x :: x in rows && x.user == user ==> LineOf(x) in ViewOf(rows, user).lines)
      && (forall l :: l in ViewOf(rows, user).lines ==>
            exists x :: x in rows && x.user == user && l == LineOf(x))
  {
    UserViewExact(rows, user);
    var v := UserView(rows, user);
    if v == [] {
      forall x | x in rows ensures x.user != user {
        assert x !in v;
      }
    } else {
      assert v[0] in rows;
      var lines := ViewOf(rows, user).lines;
      forall l | l in lines ensures exists x :: x in rows && x.user == user && l == LineOf(x) {
        var i :| 0 <= i < |lines| && lines[i] == l;
        assert v[i] in v;
      }
      forall x | x in rows && x.user == user ensures LineOf(x) in lines {
        var i :| 0 <= i < |v| && v[i] == x;
        assert lines[i] == LineOf(x);
      }
    }
  }

  /** What is printed follows `ORDER BY status, id`: in a well-formed table no Pending line
      comes before a Complete one, and lines of equal status show strictly increasing ids. */
  lemma ListingOrder(t: Table, user: string)
    requires WellFormed(t)
    ensures ViewOf(t.rows, user).Listing? ==>
      var lines := ViewOf(t.rows, user).lines;
      forall i, j :: 0 <= i < j < |lines| ==>
        && (lines[i].status == Pending ==> lines[j].status != Complete)
        && (lines[i].status == lines[j].status ==> lines[i].id < lines[j].id)
  {
    ViewOrder(t, user);
    ViewOfCases(t.rows, user);
  }

  /** A freshly created table is well formed, and every user's list shows the empty-list
      message. */
  lemma EmptyTableIsWellFormed(user: string)
    ensures WellFormed(EmptyTable) && EmptyTable.nextId == 1
    ensures ViewOf(EmptyTable.rows, user) == EmptyList
  {
    ViewOfCases(EmptyTable.rows, user);
  }
}
