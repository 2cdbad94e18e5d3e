/** The socket messages of the board. Intents go from a client to the server;
    events go from the server to clients. */
module Protocol {
  import opened Tasks

  /** `task:create` (a payload without id), `task:update` (a whole task) and
      `task:delete` (an id). */
  datatype Intent =
    | TaskCreate(draft: Draft)
    | TaskUpdate(task: Task)
    | TaskDelete(id: string)

  /** `tasks:load` (the snapshot sent to one new connection), and the three
      broadcasts `task:created`, `task:updated` and `task:deleted`. */
  datatype Event =
    | TasksLoad(tasks: seq<Task>)
    | TaskCreated(task: Task)
    | TaskUpdated(task: Task)
    | TaskDeleted(id: string)
}
