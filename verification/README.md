# Real-time task board: the synchronised task list

This project models the synchronisation core of a small real-time task board.
The server keeps one in-memory list of tasks. Clients send it `task:create`,
`task:update` and `task:delete` intents over a socket. The server applies each
intent to its list and broadcasts the resulting `task:created`, `task:updated`
or `task:deleted` event to every client. A newly connected client receives the
whole list once as `tasks:load`. Each client folds these events into its own
view of the list with four reducers. The view is then split into three status
columns, and each card offers buttons for moving it to the other two statuses.

Everything in the core is a pure operation on a sequence of task records:
append, replace-by-id (`map`) and remove-by-id (`filter`). The model follows
that shape.

- `SeqOps` defines `Filter`, `Map` and `Find` with the meaning of the
  JavaScript array methods, plus lemmas about order and idempotence.
- `Decimal` defines the decimal numeral the server uses as a task id
  (`Date.now().toString()`) and proves that it is injective.
- `Tasks` defines the `Task` and `Draft` records and the `Todo | InProgress | Done`
  statuses. It also defines the three list operations and proves their invariants.
- `Protocol` defines the intents and events on the wire.
- `Server` defines the server state (the list plus the log of broadcasts),
  one handler per intent, and the serial run of a sequence of requests.
- `Client` defines the reducers, `trim`-based title validation, the create and
  update payloads, the status columns and the card buttons.
- `Sync` proves convergence. A client that loads the snapshot and then applies
  every broadcast in order holds the server's list after each event.

The clock is a parameter. A `Server.Request` pairs an intent with the
millisecond reading `now` at which the server handles it. The form's own
`Date.now()` is the `now` argument of `Client.CreateTask`. A broadcast is an
event appended to `State.broadcasts`. The connection snapshot is returned by
`Server.OnConnection` and not logged, because it goes to one client only.

Some behaviour of the code is easy to mistake; the model follows the code:

- The server does not validate titles. Only the client form rejects blank titles.
- Updating or deleting an id that is not in the list still broadcasts the event.
- The server does not assign `createdAt`. The client sets it in the create payload.
- The snapshot is the list in insertion order. It is not sorted by `createdAt`.
- Ids are the clock's decimal text, so they are not guaranteed unique.
  `Server.SameMillisecondCreatesCollide` shows two creates colliding.
  Distinctness is proved only when no two creates share a clock reading.
  With colliding ids a status button overwrites both records, as
  `Sync.CollidingIdsCardButton` shows.

## Model

| member | source | states |
|---|---|---|
| SeqOps.Filter | server/src/index.ts:43 | the result holds exactly the elements that pass, is no longer than the input, and is a sub-multiset of it |
| SeqOps.Map | server/src/index.ts:37 | the result has the input's length and position i holds f of input position i |
| SeqOps.Find | client/src/App.tsx:62 | nothing is found exactly when no element passes; otherwise the result is the first element that passes |
| SeqOps.FilterConcat | server/src/index.ts:43 | filtering distributes over concatenation, so kept elements keep their relative order |
| SeqOps.FilterIdempotent | server/src/index.ts:43 | filtering twice with one predicate equals filtering once |
| Decimal.ToDecimal | server/src/index.ts:30 | the id text is a non-empty string of decimal digits with no leading zero |
| Decimal.ParseToDecimal | server/src/index.ts:30 | reading the numeral of n back gives n |
| Decimal.ToDecimalInjective | server/src/index.ts:30 | two different clock readings never give the same id text |
| Tasks.Stamp | server/src/index.ts:30 | the stored record is the payload with its id set and nothing else changed |
| Tasks.ReplaceById | server/src/index.ts:37 | the length is kept; elements with the payload's id become the payload and all others stay at their index |
| Tasks.RemoveById | server/src/index.ts:43 | exactly the elements with a different id remain |
| Tasks.ReplaceKeepsIds | server/src/index.ts:37 | replacing by id never changes the id at any position |
| Tasks.ReplaceAbsentIsIdentity | server/src/index.ts:37 | replacing with an id no element carries leaves the list unchanged |
| Tasks.ReplaceIdempotent | client/src/App.tsx:30 | applying the same update twice equals applying it once |
| Tasks.ReplaceKeepsDistinctIds | server/src/index.ts:37 | pairwise distinct ids stay pairwise distinct after an update |
| Tasks.RemoveConcat | server/src/index.ts:43 | removal distributes over concatenation, so survivors keep their original relative order |
| Tasks.RemoveSingleton | server/src/index.ts:43 | removal keeps a single element exactly when its id differs |
| Tasks.RemoveAbsentIsIdentity | server/src/index.ts:43 | removing an id no element carries leaves the list unchanged |
| Tasks.RemoveIdempotent | server/src/index.ts:43 | removing the same id twice equals removing it once |
| Tasks.RemoveLeavesNoId | server/src/index.ts:43 | after removal no element carries the removed id |
| Tasks.RemoveKeepsDistinctIds | server/src/index.ts:43 | pairwise distinct ids stay pairwise distinct after a delete |
| Tasks.AppendKeepsDistinctIds | server/src/index.ts:31 | appending a task whose id is new keeps ids pairwise distinct |
| Server.Initial | server/src/index.ts:19 | the server starts with an empty list, so no id is present and ids are trivially distinct, and nothing has been broadcast |
| Server.ClockId | server/src/index.ts:30 | the id of a task created at clock reading `now` is a non-empty digit string that reads back as `now` |
| Server.OnCreate | server/src/index.ts:29-33 | exactly one element is appended at the end; earlier elements are unchanged and in order; the new element is the payload with the clock id; the broadcast carries exactly that element |
| Server.OnUpdate | server/src/index.ts:36-39 | the length is kept; every element with the payload's id becomes the payload; all others stay at their index; `task:updated` with the payload is broadcast |
| Server.OnDelete | server/src/index.ts:42-45 | exactly the elements with another id remain, none carries the deleted id, and `task:deleted` with the id is broadcast |
| Server.Handle | server/src/index.ts:28-45 | every handled intent appends exactly one broadcast and leaves earlier broadcasts untouched |
| Server.Run | server/src/index.ts:28-45 | handling n requests appends exactly n broadcasts to the log and keeps its earlier entries |
| Server.RunPrefix | server/src/index.ts:28-45 | handling a prefix of the requests broadcasts the matching prefix of the events |
| Server.UpdateAbsentKeepsList | server/src/index.ts:36-38 | an update for an absent id leaves the list unchanged but is still broadcast |
| Server.DeleteAbsentKeepsList | server/src/index.ts:42-44 | a delete of an absent id leaves the list unchanged but is still broadcast |
| Server.DeleteTwiceIsDeleteOnce | server/src/index.ts:42-44 | deleting an id twice leaves the list as one delete did, with two broadcasts |
| Server.HandleKeepsDistinctIds | server/src/index.ts:30-43 | every handler keeps ids pairwise distinct; a create needs its clock id to be new |
| Server.IdsComeFromCreates | server/src/index.ts:19-43 | from the empty start, every id in the list is the clock id of some create request |
| Server.FreshClockIsNewId | server/src/index.ts:30 | a clock reading no create used is not the id of any listed task |
| Server.RunKeepsDistinctIds | server/src/index.ts:19-43 | from the empty start, ids stay pairwise distinct when no two creates share a clock reading |
| Server.SameMillisecondCreatesCollide | server/src/index.ts:30-31 | two creates in the same millisecond get the same id, and one delete of it removes both |
| Client.Apply | client/src/App.tsx:21-35 | `tasks:load` replaces the view; `task:created` appends exactly the task; `task:updated` replaces by id keeping length; `task:deleted` keeps exactly the tasks with another id |
| Client.Replay | client/src/App.tsx:21-35 | folding no event keeps the view; a `tasks:load` received last overrides every earlier event |
| Client.ReplayConcat | client/src/App.tsx:21-35 | events are applied one after another in arrival order: receiving `a` then `b` equals receiving `a + b` |
| Client.ReplayForgetsBeforeLoad | client/src/App.tsx:21-23 | after a `tasks:load`, the view held before it has no influence on any later view |
| Client.TrimStart | client/src/App.tsx:47 | the result is a suffix, everything dropped is white space, and it does not start with white space |
| Client.TrimEnd | client/src/App.tsx:47 | the result is a prefix, everything dropped is white space, and it does not end with white space |
| Client.Trim | client/src/App.tsx:47 | `trim` returns the middle slice of the title: everything dropped at either end is white space and the result neither starts nor ends with white space |
| Client.IsBlank | client/src/App.tsx:47 | `!title.trim()` holds exactly when every character of the title is white space |
| Client.CreateTask | client/src/App.tsx:45-56 | nothing is emitted exactly when the title is all white space; otherwise the payload is a `todo` draft with the form's title, description and clock |
| Client.UpdateStatus | client/src/App.tsx:61-66 | a payload is emitted exactly when the view holds the id; it is the first such task with only its status changed |
| Client.TasksByStatus | client/src/App.tsx:72-74 | a column holds exactly the view's tasks with that status |
| Client.ColumnKeepsViewOrder | client/src/App.tsx:72-74 | a column lists its tasks in view order |
| Client.SingletonColumns | client/src/App.tsx:104-138 | a single task appears in exactly one of the three columns |
| Client.ColumnsPartitionView | client/src/App.tsx:104-138 | the three columns together hold every task of the view exactly once |
| Client.Transitions | client/src/App.tsx:159-182 | a card offers every status but its own, two buttons in board order |
| Sync.Broadcasts | server/src/index.ts:32-44 | each handled request yields exactly one broadcast event |
| Sync.SnapshotLoadsServerList | server/src/index.ts:26 | the snapshot `Server.OnConnection` sends a new connection carries exactly the server's list: whatever a client held, loading it leaves the client with that list |
| Sync.ReducerMirrorsHandler | client/src/App.tsx:25-35 | applying a handler's broadcast to the server's old list gives the server's new list |
| Sync.Convergence | client/src/App.tsx:21-35 | after the snapshot and every broadcast in order, the client's view equals the server's list |
| Sync.ConvergesAfterEachEvent | client/src/App.tsx:21-35 | after the first k broadcasts, the client's view equals the server's list after the first k requests |
| Sync.FormCreateStoresTask | client/src/App.tsx:45-56 | a task created from the form is stored with a non-blank title, the form's fields, status `todo` and the server's clock id |
| Sync.UpdateStatusOfListedTask | client/src/App.tsx:61-66 | with unique ids, the update payload for a listed task is that task with only its status changed |
| Sync.CardButtonMovesTask | client/src/App.tsx:159-182 | with unique ids, pressing a card's status button moves the task, with only its status changed, into the chosen column and out of its old one |
| Sync.CollidingIdsCardButton | client/src/App.tsx:62-64 | when two records share an id, the button sends the first one and both the server's `map` and the client reducer overwrite both records with it, so the second record's fields are lost |

## Left out

- The socket.io transport, delivery to many clients, CORS and connect/disconnect logging. A broadcast is an event appended to the server's log, and each client is assumed to receive the log in order.
- Concurrency between clients. Requests are handled one at a time, in one serial order.
- `server/src/database.ts`. It is a PostgreSQL wrapper that the server never calls, and it is not part of this model.
- React rendering, hooks and form state, including clearing the form after a create. Only the pure decisions behind them are modelled.
- The wall clock. Each reading is a parameter.
- Untyped payloads. The server accepts any JSON value; the model takes well-formed drafts, tasks and id strings. A create payload that itself carried an `id` would have it overwritten by the spread; the client never sends one.
- `deleteTask` in the client only emits the id. It is the `TaskDelete` intent and has no logic of its own.
- Decimal.ToDecimal: does not model JavaScript's exponent notation for numbers of 10^21 and above, which no millisecond clock reading reaches.
- Strings are sequences of Unicode code points, not JavaScript's UTF-16 code units. Nothing modelled depends on the difference: every code point `trim` strips lies in the Basic Multilingual Plane, and ids are ASCII digits.
