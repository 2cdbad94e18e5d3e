/** Server and client together: every client reducer performs the same list
    operation as the server handler whose broadcast it receives, so a client
    that loads the snapshot and then hears every broadcast in order holds the
    server's list after each event. */
module Sync {
  import opened SeqOps
  import opened Tasks
  import opened Protocol
  import opened Server
  import opened Client

  /** The events broadcast while handling `qs` from `s`. */
  function Broadcasts(s: State, qs: seq<Request>): (evs: seq<Event>)
    ensures |evs| == |qs|
  {
    Run(s, qs).broadcasts[|s.broadcasts|..]
  }

  /** Whatever the view held, the snapshot of a new connection makes it the
      server's list. */
  lemma SnapshotLoadsServerList(s: State, view: seq<Task>)
    ensures Apply(view, OnConnection(s)) == s.tasks
  {
  }

  /** Applying a handler's broadcast to the server's list before the handler
      gives the server's list after it. */
  lemma ReducerMirrorsHandler(s: State, q: Request)
    ensures Apply(s.tasks, Handle(s, q).broadcasts[|s.broadcasts|]) == Handle(s, q).tasks
  {
  }

  /** A client that loads the snapshot of `s` and then applies every broadcast
      of `qs` in order holds the server's list. */
  lemma {:induction false} Convergence(s: State, qs: seq<Request>, view: seq<Task>)
    ensures Replay(Apply(view, OnConnection(s)), Broadcasts(s, qs)) == Run(s, qs).tasks
    decreases |qs|
  {
    var v0 := Apply(view, OnConnection(s));
    if |qs| == 0 {
      assert Broadcasts(s, qs) == [];
    } else {
      var pre, q := qs[..|qs| - 1], qs[|qs| - 1];
      Convergence(s, pre, view);
      var prev := Run(s, pre);
      var evs := Broadcasts(s, qs);
      RunPrefix(s, qs, |pre|);
      assert qs[..|pre|] == pre;
      assert evs[..|evs| - 1] == Broadcasts(s, pre);
      assert evs[|evs| - 1] == Handle(prev, q).broadcasts[|prev.broadcasts|];
      ReducerMirrorsHandler(prev, q);
    }
  }

  /** After the k-th broadcast the client's view equals the server's list
      right after the k-th request. */
  lemma ConvergesAfterEachEvent(s: State, qs: seq<Request>, view: seq<Task>, k: nat)
    requires k <= |qs|
    ensures Replay(Apply(view, OnConnection(s)), Broadcasts(s, qs)[..k]) == Run(s, qs[..k]).tasks
  {
    RunPrefix(s, qs, k);
    assert Broadcasts(s, qs)[..k] == Broadcasts(s, qs[..k]);
    Convergence(s, qs[..k], view);
  }

  /** A task made from the form reaches the list with a non-blank title, the
      form's title and description, status `todo`, and the server's clock id. */
  lemma FormCreateStoresTask(s: State, title: string, description: string, clientNow: int, now: nat)
    requires CreateTask(title, description, clientNow).Some?
    ensures var t := OnCreate(s, CreateTask(title, description, clientNow).value, now).tasks[|s.tasks|];
            !IsBlank(t.title) && t.title == title && t.description == description &&
            t.status == Todo && t.createdAt == clientNow && t.id == ClockId(now)
  {
  }

  /** In a view with unique ids, the update payload for a task of the view is
      that task with only its status changed. */
  lemma UpdateStatusOfListedTask(view: seq<Task>, t: Task, st: Status)
    requires DistinctIds(view)
    requires t in view
    ensures UpdateStatus(view, t.id, st) == Some(t.(status := st))
  {
    var k :| 0 <= k < |view| && view[k] == t;
    var r := UpdateStatus(view, t.id, st);
    assert HasId(view, t.id);
    var i :| 0 <= i < |view| && view[i].id == t.id &&
      (forall j :: 0 <= j < i ==> view[j].id != t.id) && r.value == view[i].(status := st);
    assert i == k;
  }

  /** Pressing a status button of a card whose id is unique in the view moves
      that task, with only its status changed, from its column to the chosen
      one once the server's broadcast comes back. */
  lemma CardButtonMovesTask(view: seq<Task>, t: Task, st: Status)
    requires DistinctIds(view)
    requires t in view
    requires st in Transitions(t)
    ensures UpdateStatus(view, t.id, st) == Some(t.(status := st))
    ensures var after := Apply(view, TaskUpdated(t.(status := st)));
            && |after| == |view|
            && t.(status := st) in TasksByStatus(after, st)
            && forall u :: u in TasksByStatus(after, t.status) ==> u.id != t.id
  {
    UpdateStatusOfListedTask(view, t, st);
    assert st != t.status;
    var k :| 0 <= k < |view| && view[k] == t;
    var u := t.(status := st);
    var after := Apply(view, TaskUpdated(u));
    assert after[k] == u;
    forall v | v in TasksByStatus(after, t.status)
      ensures v.id != t.id
    {
      var m :| 0 <= m < |after| && after[m] == v;
      if m != k {
        assert view[m].id != t.id;
      }
    }
  }

  /** Without unique ids the button does more: when two records share an id,
      the card of the first sends that record, and the server and every client
      overwrite both records with it, so the second record's fields are lost. */
  lemma CollidingIdsCardButton(a: Task, b: Task, st: Status, log: seq<Event>)
    requires a.id == b.id
    ensures UpdateStatus([a, b], a.id, st) == Some(a.(status := st))
    ensures OnUpdate(State([a, b], log), a.(status := st)).tasks == [a.(status := st), a.(status := st)]
    ensures Apply([a, b], TaskUpdated(a.(status := st))) == [a.(status := st), a.(status := st)]
    ensures b.title != a.title ==> b.(status := st) !in Apply([a, b], TaskUpdated(a.(status := st)))
  {
  }
}
