/** The two tables of the to-do store (users and tasks) and the store object
    that holds them. The row types follow how the handlers construct and read
    `User` and `Task` records; the declarations of the ORM models are not part
    of this model. */
module Models {

  datatype Option<T> = None | Some(value: T) {
    /** The wrapped value, or `default` when there is none (Python's `dict.get(key, default)`). */
    function GetOr(default: T): T
    {
      match this
      case Some(v) => v
      case None => default
    }
  }

  /** A row of the user table. `password` holds what the hasher produced from
      the chosen password, never the password itself. */
  datatype User = User(username: string, password: string)

  /** A row of the task table. `userId` is the id of the owning user. */
  datatype Task = Task(title: string, description: Option<string>, completed: bool, userId: int)

  /** Every key of `m` is an id that the store has already handed out. */
  ghost predicate IdsBelow<V>(m: map<int, V>, next: int)
  {
    forall id :: id in m ==> 1 <= id < next
  }

  /** No two users share a username. */
  ghost predicate UniqueUsernames(users: map<int, User>)
  {
    forall i, j :: i in users && j in users && users[i].username == users[j].username ==> i == j
  }

  /** The database: the user table, the task table, and the next id each table
      assigns on insert. A commit is the assignment of a new table value. */
  class Db {
    var users: map<int, User>
    var tasks: map<int, Task>
    var nextUserId: int
    var nextTaskId: int

    ghost predicate Valid()
      reads this
    {
      && 1 <= nextUserId && 1 <= nextTaskId
      && IdsBelow(users, nextUserId)
      && IdsBelow(tasks, nextTaskId)
      && UniqueUsernames(users)
    }

    /** The freshly created, empty schema. */
    constructor ()
      ensures Valid()
      ensures users == map[] && tasks == map[]
      ensures nextUserId == 1 && nextTaskId == 1
    {
      users, tasks := map[], map[];
      nextUserId, nextTaskId := 1, 1;
    }
  }
}
