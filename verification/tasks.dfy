/** The task record and the three list operations the board is built from:
    append, replace-by-id (`map`) and remove-by-id (`filter`). The server
    handlers and the client reducers both apply exactly these operations. */
module Tasks {
  import opened SeqOps

  /** The three column statuses, on the wire `'todo'`, `'inprogress'` and
      `'done'`. */
  datatype Status = Todo | InProgress | Done

  datatype Task = Task(id: string, title: string, description: string, status: Status, createdAt: int)

  /** A create payload: a task without its id. */
  datatype Draft = Draft(title: string, description: string, status: Status, createdAt: int)

  /** The payload part of a task: everything but the id. */
  function Unstamp(t: Task): Draft {
    Draft(t.title, t.description, t.status, t.createdAt)
  }

  /** `{ ...d, id }`: the payload with the id set and nothing else added. */
  function Stamp(d: Draft, id: string): (t: Task)
    ensures t.id == id
    ensures Unstamp(t) == d
  {
    Task(id, d.title, d.description, d.status, d.createdAt)
  }

  /** Some element of `ts` carries `id`. */
  predicate HasId(ts: seq<Task>, id: string) {
    exists i :: 0 <= i < |ts| && ts[i].id == id
  }

  /** No two positions of `ts` carry the same id. */
  predicate DistinctIds(ts: seq<Task>) {
    forall i, j :: 0 <= i < |ts| && 0 <= j < |ts| && i != j ==> ts[i].id != ts[j].id
  }

  /** The ids of `ts`, position by position. */
  function Ids(ts: seq<Task>): (r: seq<string>)
    ensures |r| == |ts|
    ensures forall i :: 0 <= i < |ts| ==> r[i] == ts[i].id
  {
    Map((t: Task) => t.id, ts)
  }

  /** `ts.map(t => t.id === u.id ? u : t)`. */
  function ReplaceById(ts: seq<Task>, u: Task): (r: seq<Task>)
    ensures |r| == |ts|
    ensures forall i :: 0 <= i < |ts| ==> r[i] == if ts[i].id == u.id then u else ts[i]
  {
    Map((t: Task) => if t.id == u.id then u else t, ts)
  }

  /** `ts.filter(t => t.id !== id)`. */
  function RemoveById(ts: seq<Task>, id: string): (r: seq<Task>)
    ensures |r| <= |ts|
    ensures forall t :: t in r <==> t in ts && t.id != id
  {
    Filter((t: Task) => t.id != id, ts)
  }

  /** Replacing never changes an id, so the id sequence is the same. */
  lemma ReplaceKeepsIds(ts: seq<Task>, u: Task)
    ensures Ids(ReplaceById(ts, u)) == Ids(ts)
  {
  }

  /** Replacing with an id that no element carries changes nothing. */
  lemma ReplaceAbsentIsIdentity(ts: seq<Task>, u: Task)
    requires !HasId(ts, u.id)
    ensures ReplaceById(ts, u) == ts
  {
    var r := ReplaceById(ts, u);
    forall i | 0 <= i < |ts|
      ensures r[i] == ts[i]
    {
      assert ts[i].id != u.id;
    }
  }

  /** Replacing twice with the same record is replacing once. */
  lemma ReplaceIdempotent(ts: seq<Task>, u: Task)
    ensures ReplaceById(ReplaceById(ts, u), u) == ReplaceById(ts, u)
  {
  }

  /** Replacing keeps the ids pairwise distinct. */
  lemma ReplaceKeepsDistinctIds(ts: seq<Task>, u: Task)
    requires DistinctIds(ts)
    ensures DistinctIds(ReplaceById(ts, u))
  {
    ReplaceKeepsIds(ts, u);
    var r := ReplaceById(ts, u);
    forall i, j | 0 <= i < |r| && 0 <= j < |r| && i != j
      ensures r[i].id != r[j].id
    {
      assert Ids(r)[i] == Ids(ts)[i] && Ids(r)[j] == Ids(ts)[j];
    }
  }

  /** Removal is order-preserving: it distributes over concatenation, and on
      one element it keeps exactly the elements with a different id. */
  lemma RemoveConcat(a: seq<Task>, b: seq<Task>, id: string)
    ensures RemoveById(a + b, id) == RemoveById(a, id) + RemoveById(b, id)
  {
    FilterConcat((t: Task) => t.id != id, a, b);
  }

  /** Removal of a single element keeps it exactly when its id differs. */
  lemma RemoveSingleton(t: Task, id: string)
    ensures RemoveById([t], id) == if t.id == id then [] else [t]
  {
    assert [t][1..] == [];
  }

  /** Removing an id that no element carries changes nothing. */
  lemma RemoveAbsentIsIdentity(ts: seq<Task>, id: string)
    requires !HasId(ts, id)
    ensures RemoveById(ts, id) == ts
  {
    FilterAllPass((t: Task) => t.id != id, ts);
  }

  /** Removing the same id twice is removing it once. */
  lemma RemoveIdempotent(ts: seq<Task>, id: string)
    ensures RemoveById(RemoveById(ts, id), id) == RemoveById(ts, id)
  {
    FilterIdempotent((t: Task) => t.id != id, ts);
  }

  /** After removal no element carries the removed id. */
  lemma RemoveLeavesNoId(ts: seq<Task>, id: string)
    ensures !HasId(RemoveById(ts, id), id)
  {
    var r := RemoveById(ts, id);
    forall i | 0 <= i < |r|
      ensures r[i].id != id
    {
      assert r[i] in r;
    }
  }

  /** Distinct ids of a non-empty list: distinct ids in the tail, and a head
      id the tail does not carry. */
  lemma DistinctIdsCons(t: Task, ts: seq<Task>)
    ensures DistinctIds([t] + ts) <==> DistinctIds(ts) && !HasId(ts, t.id)
  {
    var r := [t] + ts;
    if DistinctIds(r) {
      forall i, j | 0 <= i < |ts| && 0 <= j < |ts| && i != j
        ensures ts[i].id != ts[j].id
      {
        assert ts[i] == r[i + 1] && ts[j] == r[j + 1];
      }
      forall i | 0 <= i < |ts|
        ensures ts[i].id != t.id
      {
        assert ts[i] == r[i + 1] && t == r[0];
      }
    }
    if DistinctIds(ts) && !HasId(ts, t.id) {
      forall i, j | 0 <= i < |r| && 0 <= j < |r| && i != j
        ensures r[i].id != r[j].id
      {
        if i > 0 && j > 0 {
          assert r[i] == ts[i - 1] && r[j] == ts[j - 1];
        } else if i == 0 {
          assert r[j] == ts[j - 1];
        } else {
          assert r[i] == ts[i - 1];
        }
      }
    }
  }

  /** Removal keeps the ids pairwise distinct. */
  lemma {:induction false} RemoveKeepsDistinctIds(ts: seq<Task>, id: string)
    requires DistinctIds(ts)
    ensures DistinctIds(RemoveById(ts, id))
  {
    if |ts| > 0 {
      var h, rest := ts[0], ts[1..];
      assert ts == [h] + rest;
      DistinctIdsCons(h, rest);
      RemoveKeepsDistinctIds(rest, id);
      RemoveConcat([h], rest, id);
      RemoveSingleton(h, id);
      var tail := RemoveById(rest, id);
      if h.id != id {
        assert !HasId(tail, h.id) by {
          forall k | 0 <= k < |tail|
            ensures tail[k].id != h.id
          {
            assert tail[k] in tail;
          }
        }
        DistinctIdsCons(h, tail);
      }
    }
  }

  /** Appending a task whose id is new keeps the ids pairwise distinct. */
  lemma AppendKeepsDistinctIds(ts: seq<Task>, t: Task)
    requires DistinctIds(ts)
    requires !HasId(ts, t.id)
    ensures DistinctIds(ts + [t])
  {
    var r := ts + [t];
    forall i, j | 0 <= i < |r| && 0 <= j < |r| && i != j
      ensures r[i].id != r[j].id
    {
      if i == |ts| {
        assert r[j] == ts[j];
      } else if j == |ts| {
        assert r[i] == ts[i];
      }
    }
  }
}
