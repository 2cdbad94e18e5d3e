/** The server: one in-memory task list, a handler per intent, and the log of
    events broadcast to every connected client. Handlers run one at a time in
    the order the intents arrive. */
module Server {
  import opened Tasks
  import opened Protocol
  import Decimal

  /** The authoritative list and every event broadcast so far. */
  datatype State = State(tasks: seq<Task>, broadcasts: seq<Event>)

  /** An intent together with the clock reading when it was handled. */
  datatype Request = Request(intent: Intent, now: nat)

  /** The server starts with an empty list and has broadcast nothing. */
  function Initial(): (s: State)
    ensures forall id :: !HasId(s.tasks, id)
    ensures DistinctIds(s.tasks)
    ensures |s.broadcasts| == 0
  {
    State([], [])
  }

  /** The id the server gives a task created at clock reading `now`: a
      non-empty digit string that reads back as `now`. */
  function ClockId(now: nat): (id: string)
    ensures |id| > 0 && Decimal.AllDigits(id)
    ensures Decimal.ParseDecimal(id) == now
  {
    Decimal.ParseToDecimal(now);
    Decimal.ToDecimal(now)
  }

  /** On a new connection the server sends the whole list to that client
      only; nothing is broadcast. */
  function OnConnection(s: State): Event {
    TasksLoad(s.tasks)
  }

  /** `task:create`: stamp the payload with the clock id, append it, and
      broadcast the appended record. */
  function OnCreate(s: State, d: Draft, now: nat): (r: State)
    ensures |r.tasks| == |s.tasks| + 1
    ensures r.tasks[..|s.tasks|] == s.tasks
    ensures r.tasks[|s.tasks|].id == ClockId(now)
    ensures Unstamp(r.tasks[|s.tasks|]) == d
    ensures r.broadcasts == s.broadcasts + [TaskCreated(r.tasks[|s.tasks|])]
  {
    var t := Stamp(d, ClockId(now));
    State(s.tasks + [t], s.broadcasts + [TaskCreated(t)])
  }

  /** `task:update`: every element with the payload's id becomes the payload;
      the payload is broadcast whether or not any element matched. */
  function OnUpdate(s: State, u: Task): (r: State)
    ensures |r.tasks| == |s.tasks|
    ensures forall i :: 0 <= i < |s.tasks| && s.tasks[i].id == u.id ==> r.tasks[i] == u
    ensures forall i :: 0 <= i < |s.tasks| && s.tasks[i].id != u.id ==> r.tasks[i] == s.tasks[i]
    ensures r.broadcasts == s.broadcasts + [TaskUpdated(u)]
  {
    State(ReplaceById(s.tasks, u), s.broadcasts + [TaskUpdated(u)])
  }

  /** `task:delete`: drop every element with the id; the id is broadcast
      whether or not any element matched. */
  function OnDelete(s: State, id: string): (r: State)
    ensures forall t :: t in r.tasks <==> t in s.tasks && t.id != id
    ensures !HasId(r.tasks, id)
    ensures r.broadcasts == s.broadcasts + [TaskDeleted(id)]
  {
    RemoveLeavesNoId(s.tasks, id);
    State(RemoveById(s.tasks, id), s.broadcasts + [TaskDeleted(id)])
  }

  /** Dispatch one request to its handler. */
  function Handle(s: State, q: Request): (r: State)
    ensures |r.broadcasts| == |s.broadcasts| + 1
    ensures r.broadcasts[..|s.broadcasts|] == s.broadcasts
  {
    match q.intent
    case TaskCreate(d) => OnCreate(s, d, q.now)
    case TaskUpdate(u) => OnUpdate(s, u)
    case TaskDelete(id) => OnDelete(s, id)
  }

  /** Handle `qs` in order, starting from `s`. */
  function Run(s: State, qs: seq<Request>): (r: State)
    ensures |r.broadcasts| == |s.broadcasts| + |qs|
    ensures r.broadcasts[..|s.broadcasts|] == s.broadcasts
    decreases |qs|
  {
    if |qs| == 0 then s
    else
      var prev := Run(s, qs[..|qs| - 1]);
      var r := Handle(prev, qs[|qs| - 1]);
      assert r.broadcasts[..|s.broadcasts|] == prev.broadcasts[..|prev.broadcasts|][..|s.broadcasts|];
      r
  }

  /** Running a prefix of the requests broadcasts a prefix of the events. */
  lemma {:induction false} RunPrefix(s: State, qs: seq<Request>, k: nat)
    requires k <= |qs|
    ensures Run(s, qs[..k]).broadcasts == Run(s, qs).broadcasts[..|s.broadcasts| + k]
    decreases |qs|
  {
    if k < |qs| {
      var pre := qs[..|qs| - 1];
      assert pre[..k] == qs[..k];
      RunPrefix(s, pre, k);
      var prev := Run(s, pre);
      assert Run(s, qs).broadcasts[..|prev.broadcasts|] == prev.broadcasts;
    } else {
      assert qs[..k] == qs;
    }
  }

  /** Updating an id no element carries leaves the list as it was, yet the
      update is still broadcast. */
  lemma UpdateAbsentKeepsList(s: State, u: Task)
    requires !HasId(s.tasks, u.id)
    ensures OnUpdate(s, u).tasks == s.tasks
    ensures OnUpdate(s, u).broadcasts == s.broadcasts + [TaskUpdated(u)]
  {
    ReplaceAbsentIsIdentity(s.tasks, u);
  }

  /** Deleting an id no element carries leaves the list as it was, yet the
      deletion is still broadcast. */
  lemma DeleteAbsentKeepsList(s: State, id: string)
    requires !HasId(s.tasks, id)
    ensures OnDelete(s, id).tasks == s.tasks
    ensures OnDelete(s, id).broadcasts == s.broadcasts + [TaskDeleted(id)]
  {
    RemoveAbsentIsIdentity(s.tasks, id);
  }

  /** Deleting the same id twice leaves the list the first deletion left,
      and broadcasts twice. */
  lemma DeleteTwiceIsDeleteOnce(s: State, id: string)
    ensures OnDelete(OnDelete(s, id), id).tasks == OnDelete(s, id).tasks
    ensures OnDelete(OnDelete(s, id), id).broadcasts == s.broadcasts + [TaskDeleted(id), TaskDeleted(id)]
  {
    RemoveIdempotent(s.tasks, id);
  }

  /** Every handler keeps the ids pairwise distinct, a create only when its
      clock id is not already in the list. */
  lemma HandleKeepsDistinctIds(s: State, q: Request)
    requires DistinctIds(s.tasks)
    requires q.intent.TaskCreate? ==> !HasId(s.tasks, ClockId(q.now))
    ensures DistinctIds(Handle(s, q).tasks)
  {
    match q.intent
    case TaskCreate(d) =>
      AppendKeepsDistinctIds(s.tasks, Stamp(d, ClockId(q.now)));
    case TaskUpdate(u) =>
      ReplaceKeepsDistinctIds(s.tasks, u);
    case TaskDelete(id) =>
      RemoveKeepsDistinctIds(s.tasks, id);
  }

  /** The clock readings of the create requests among `qs`, in order. */
  function CreateClocks(qs: seq<Request>): seq<nat>
    decreases |qs|
  {
    if |qs| == 0 then []
    else
      var q := qs[|qs| - 1];
      CreateClocks(qs[..|qs| - 1]) + (if q.intent.TaskCreate? then [q.now] else [])
  }

  predicate DistinctClocks(cs: seq<nat>) {
    forall i, j :: 0 <= i < |cs| && 0 <= j < |cs| && i != j ==> cs[i] != cs[j]
  }

  /** Every id in the list was produced by some create request: updates never
      change an id and deletions only drop elements. */
  lemma {:induction false} IdsComeFromCreates(qs: seq<Request>)
    ensures forall t :: t in Run(Initial(), qs).tasks ==>
              exists c :: c in CreateClocks(qs) && t.id == ClockId(c)
    decreases |qs|
  {
    if |qs| > 0 {
      var pre, q := qs[..|qs| - 1], qs[|qs| - 1];
      IdsComeFromCreates(pre);
      var before := Run(Initial(), pre).tasks;
      var after := Run(Initial(), qs).tasks;
      assert after == Handle(Run(Initial(), pre), q).tasks;
      forall t | t in after
        ensures exists c :: c in CreateClocks(qs) && t.id == ClockId(c)
      {
        match q.intent
        case TaskCreate(d) =>
          if t in before {
            var c :| c in CreateClocks(pre) && t.id == ClockId(c);
            assert c in CreateClocks(qs);
          } else {
            assert t == after[|after| - 1];
            assert q.now in CreateClocks(qs);
          }
        case TaskUpdate(u) =>
          var i :| 0 <= i < |after| && after[i] == t;
          assert before[i] in before && before[i].id == t.id;
          var c :| c in CreateClocks(pre) && before[i].id == ClockId(c);
          assert c in CreateClocks(qs);
        case TaskDelete(id) =>
          assert t in before;
          var c :| c in CreateClocks(pre) && t.id == ClockId(c);
          assert c in CreateClocks(qs);
      }
    }
  }

  /** A clock reading that no create request used names no element. */
  lemma FreshClockIsNewId(qs: seq<Request>, now: nat)
    requires now !in CreateClocks(qs)
    ensures !HasId(Run(Initial(), qs).tasks, ClockId(now))
  {
    var ts := Run(Initial(), qs).tasks;
    IdsComeFromCreates(qs);
    forall i | 0 <= i < |ts|
      ensures ts[i].id != ClockId(now)
    {
      assert ts[i] in ts;
      var c :| c in CreateClocks(qs) && ts[i].id == ClockId(c);
      Decimal.ToDecimalInjective(c, now);
    }
  }

  /** From the empty start, the ids stay pairwise distinct as long as no two
      create requests are handled at the same clock reading. */
  lemma {:induction false} RunKeepsDistinctIds(qs: seq<Request>)
    requires DistinctClocks(CreateClocks(qs))
    ensures DistinctIds(Run(Initial(), qs).tasks)
    decreases |qs|
  {
    if |qs| > 0 {
      var pre, q := qs[..|qs| - 1], qs[|qs| - 1];
      var cs := CreateClocks(pre);
      assert CreateClocks(qs)[..|cs|] == cs;
      assert DistinctClocks(cs) by {
        forall i, j | 0 <= i < |cs| && 0 <= j < |cs| && i != j
          ensures cs[i] != cs[j]
        {
          assert cs[i] == CreateClocks(qs)[i] && cs[j] == CreateClocks(qs)[j];
        }
      }
      RunKeepsDistinctIds(pre);
      var prev := Run(Initial(), pre);
      if q.intent.TaskCreate? {
        assert CreateClocks(qs) == cs + [q.now];
        forall k | 0 <= k < |cs|
          ensures cs[k] != q.now
        {
          assert CreateClocks(qs)[k] == cs[k] && CreateClocks(qs)[|cs|] == q.now;
        }
        FreshClockIsNewId(pre, q.now);
      }
      HandleKeepsDistinctIds(prev, q);
    }
  }

  /** Two creates handled in the same millisecond receive the same id, so
      distinct ids are not guaranteed: one later delete of that id removes
      both tasks. */
  lemma SameMillisecondCreatesCollide(d1: Draft, d2: Draft, now: nat)
    ensures var s := Run(Initial(), [Request(TaskCreate(d1), now), Request(TaskCreate(d2), now)]);
            |s.tasks| == 2 && s.tasks[0].id == s.tasks[1].id && !DistinctIds(s.tasks)
            && OnDelete(s, ClockId(now)).tasks == []
  {
    var qs := [Request(TaskCreate(d1), now), Request(TaskCreate(d2), now)];
    assert qs[..1][..0] == [] && qs[..1][0] == qs[0];
    assert Run(Initial(), qs[..1][..0]) == Initial();
    var s1 := Run(Initial(), qs[..1]);
    assert s1 == OnCreate(Initial(), d1, now);
    var s := Run(Initial(), qs);
    assert s == OnCreate(s1, d2, now);
    assert s.tasks[0].id == ClockId(now) && s.tasks[1].id == ClockId(now);
  }
}
