/** The client: the local view of the list, the reducers that fold server
    events into it, and the pure decisions behind the form, the columns and
    the status buttons of a card. */
module Client {
  import opened SeqOps
  import opened Tasks
  import opened Protocol

  /** One event handler: `tasks:load` replaces the view, `task:created`
      appends, `task:updated` replaces by id and `task:deleted` removes by id. */
  function Apply(view: seq<Task>, e: Event): (r: seq<Task>)
    ensures e.TasksLoad? ==> r == e.tasks
    ensures e.TaskCreated? ==> |r| == |view| + 1 && r[..|view|] == view && r[|view|] == e.task
    ensures e.TaskUpdated? ==> |r| == |view|
    ensures e.TaskUpdated? ==>
      forall i :: 0 <= i < |view| ==> r[i] == if view[i].id == e.task.id then e.task else view[i]
    ensures e.TaskDeleted? ==> !HasId(r, e.id) && (forall t :: t in r <==> t in view && t.id != e.id)
  {
    match e
    case TasksLoad(ts) => ts
    case TaskCreated(t) => view + [t]
    case TaskUpdated(u) => ReplaceById(view, u)
    case TaskDeleted(id) => RemoveLeavesNoId(view, id); RemoveById(view, id)
  }

  /** The view after the events `evs`, received in order. With no event the
      view is unchanged; a `tasks:load` received last overrides everything
      received before it. */
  function Replay(view: seq<Task>, evs: seq<Event>): (r: seq<Task>)
    ensures |evs| == 0 ==> r == view
    ensures |evs| > 0 && evs[|evs| - 1].TasksLoad? ==> r == evs[|evs| - 1].tasks
    decreases |evs|
  {
    if |evs| == 0 then view else Apply(Replay(view, evs[..|evs| - 1]), evs[|evs| - 1])
  }

  /** Events are applied one after another: receiving `a` and then `b` is
      receiving `a + b`. */
  lemma {:induction false} ReplayConcat(view: seq<Task>, a: seq<Event>, b: seq<Event>)
    ensures Replay(view, a + b) == Replay(Replay(view, a), b)
    decreases |b|
  {
    if |b| == 0 {
      assert a + b == a;
    } else {
      assert (a + b)[..|a + b| - 1] == a + b[..|b| - 1];
      assert (a + b)[|a + b| - 1] == b[|b| - 1];
      ReplayConcat(view, a, b[..|b| - 1]);
    }
  }

  /** Once a `tasks:load` arrives, what the view held before it no longer
      matters. */
  lemma ReplayForgetsBeforeLoad(view: seq<Task>, other: seq<Task>, ts: seq<Task>, evs: seq<Event>)
    ensures Replay(view, [TasksLoad(ts)] + evs) == Replay(other, [TasksLoad(ts)] + evs)
  {
    ReplayConcat(view, [TasksLoad(ts)], evs);
    ReplayConcat(other, [TasksLoad(ts)], evs);
    assert [TasksLoad(ts)][..0] == [];
  }

  /** The code points `String.prototype.trim` strips: the WhiteSpace and
      LineTerminator code points of sections 12.2 and 12.3 of ECMA-262. */
  predicate IsJsSpace(c: char) {
    c == '\t' || c == '\n' || c == '\U{000B}' || c == '\U{000C}' || c == '\r' ||
    c == ' ' || c == '\U{00A0}' || c == '\U{1680}' || ('\U{2000}' <= c <= '\U{200A}') ||
    c == '\U{2028}' || c == '\U{2029}' || c == '\U{202F}' || c == '\U{205F}' ||
    c == '\U{3000}' || c == '\U{FEFF}'
  }

  /** `s` without its leading white space. */
  function TrimStart(s: string): (r: string)
    ensures |r| <= |s| && r == s[|s| - |r|..]
    ensures forall i :: 0 <= i < |s| - |r| ==> IsJsSpace(s[i])
    ensures |r| > 0 ==> !IsJsSpace(r[0])
  {
    if |s| > 0 && IsJsSpace(s[0]) then TrimStart(s[1..]) else s
  }

  /** `s` without its trailing white space. */
  function TrimEnd(s: string): (r: string)
    ensures |r| <= |s| && r == s[..|r|]
    ensures forall i :: |r| <= i < |s| ==> IsJsSpace(s[i])
    ensures |r| > 0 ==> !IsJsSpace(r[|r| - 1])
  {
    if |s| > 0 && IsJsSpace(s[|s| - 1]) then TrimEnd(s[..|s| - 1]) else s
  }

  /** `s.trim()`: the middle slice of `s` left after dropping white space at
      both ends; it neither starts nor ends with white space. */
  function Trim(s: string): (r: string)
    ensures |r| <= |s|
    ensures var k := |s| - |TrimStart(s)|;
            && k + |r| <= |s|
            && r == s[k..k + |r|]
            && (forall i :: 0 <= i < k ==> IsJsSpace(s[i]))
            && (forall i :: k + |r| <= i < |s| ==> IsJsSpace(s[i]))
    ensures |r| > 0 ==> !IsJsSpace(r[0]) && !IsJsSpace(r[|r| - 1])
  {
    var a := TrimStart(s);
    TrimEndOfSuffix(s);
    TrimmedEnds(s);
    assert |a| <= |s|;
    TrimEnd(a)
  }

  /** Trailing white space of the suffix `TrimStart(s)` is trailing white
      space of `s`. */
  lemma TrimEndOfSuffix(s: string)
    ensures var a := TrimStart(s); var k := |s| - |a|; var r := TrimEnd(a);
            && r == s[k..k + |r|]
            && (forall i :: k + |r| <= i < |s| ==> IsJsSpace(s[i]))
  {
    var a := TrimStart(s);
    var k := |s| - |a|;
    var r := TrimEnd(a);
    assert a == s[k..];
    assert r == a[..|r|];
    forall i | k + |r| <= i < |s|
      ensures IsJsSpace(s[i])
    {
      assert s[i] == a[i - k];
    }
  }

  /** Trimming both ends leaves no white space at either end. */
  lemma TrimmedEnds(s: string)
    ensures var r := TrimEnd(TrimStart(s));
            |r| > 0 ==> !IsJsSpace(r[0]) && !IsJsSpace(r[|r| - 1])
  {
    var a := TrimStart(s);
    var r := TrimEnd(a);
    if |r| > 0 {
      assert r[0] == a[0];
    }
  }

  /** `!title.trim()`: the trimmed title is the empty string, which happens
      exactly when every character of the title is white space. */
  predicate IsBlank(title: string): (b: bool)
    ensures b <==> forall i :: 0 <= i < |title| ==> IsJsSpace(title[i])
  {
    var a := TrimStart(title);
    assert |Trim(title)| != 0 ==> a[0] == title[|title| - |a|];
    |Trim(title)| == 0
  }

  /** `createTask`: nothing when the title is blank, otherwise a `todo` payload
      with the form's title and description and the client clock reading. */
  function CreateTask(title: string, description: string, now: int): (r: Option<Draft>)
    ensures r.None? <==> forall i :: 0 <= i < |title| ==> IsJsSpace(title[i])
    ensures r.Some? ==> r.value == Draft(title, description, Todo, now)
  {
    if IsBlank(title) then None else Some(Draft(title, description, Todo, now))
  }

  /** `updateStatus`: when the view holds `id`, the first task with that id
      with only its status changed; otherwise nothing. */
  function UpdateStatus(view: seq<Task>, id: string, status: Status): (r: Option<Task>)
    ensures r.None? <==> !HasId(view, id)
    ensures r.Some? ==>
      exists i :: 0 <= i < |view| && view[i].id == id &&
        (forall j :: 0 <= j < i ==> view[j].id != id) &&
        r.value == view[i].(status := status)
  {
    match Find((t: Task) => t.id == id, view)
    case None => None
    case Some(t) => Some(t.(status := status))
  }

  /** `getTasksByStatus`: the column of tasks with one status. */
  function TasksByStatus(view: seq<Task>, status: Status): (r: seq<Task>)
    ensures forall t :: t in r <==> t in view && t.status == status
  {
    Filter((t: Task) => t.status == status, view)
  }

  /** A column lists its tasks in view order: it distributes over
      concatenation. */
  lemma ColumnKeepsViewOrder(a: seq<Task>, b: seq<Task>, status: Status)
    ensures TasksByStatus(a + b, status) == TasksByStatus(a, status) + TasksByStatus(b, status)
  {
    FilterConcat((t: Task) => t.status == status, a, b);
  }

  /** A one-task view puts its task in exactly one column. */
  lemma SingletonColumns(h: Task)
    ensures multiset(TasksByStatus([h], Todo)) + multiset(TasksByStatus([h], InProgress))
            + multiset(TasksByStatus([h], Done)) == multiset{h}
  {
    assert [h][1..] == [];
  }

  /** The three columns together hold every task of the view exactly once. */
  lemma {:induction false} ColumnsPartitionView(view: seq<Task>)
    ensures multiset(TasksByStatus(view, Todo)) + multiset(TasksByStatus(view, InProgress))
            + multiset(TasksByStatus(view, Done)) == multiset(view)
  {
    if |view| > 0 {
      var h, rest := view[0], view[1..];
      assert view == [h] + rest;
      ColumnsPartitionView(rest);
      SingletonColumns(h);
      ColumnKeepsViewOrder([h], rest, Todo);
      ColumnKeepsViewOrder([h], rest, InProgress);
      ColumnKeepsViewOrder([h], rest, Done);
      var t1, i1, d1 := TasksByStatus([h], Todo), TasksByStatus([h], InProgress), TasksByStatus([h], Done);
      var t2, i2, d2 := TasksByStatus(rest, Todo), TasksByStatus(rest, InProgress), TasksByStatus(rest, Done);
      assert multiset(t1 + t2) == multiset(t1) + multiset(t2);
      assert multiset(i1 + i2) == multiset(i1) + multiset(i2);
      assert multiset(d1 + d2) == multiset(d1) + multiset(d2);
      assert multiset(view) == multiset{h} + multiset(rest);
    }
  }

  /** Left-to-right position of a column on the board. */
  function Rank(s: Status): nat {
    match s
    case Todo => 0
    case InProgress => 1
    case Done => 2
  }

  /** The status buttons a card shows, left to right. */
  function Transitions(t: Task): (r: seq<Status>)
    ensures forall s :: s in r <==> s != t.status
    ensures |r| == 2
    ensures forall i, j :: 0 <= i < j < |r| ==> Rank(r[i]) < Rank(r[j])
  {
    (if t.status != Todo then [Todo] else [])
    + (if t.status != InProgress then [InProgress] else [])
    + (if t.status != Done then [Done] else [])
  }
}
