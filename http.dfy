/** What a handler hands back to the web framework: a status code with a JSON
    body, or an exception raised inside the handler, which leaves no
    well-formed response. */
module Http {
  import opened Models

  /** The JSON object a task is rendered as: id, title, description, completed. */
  datatype TaskView = TaskView(id: int, title: string, description: Option<string>, completed: bool)

  /** An access token, reduced to the identity it carries. */
  datatype Token = Token(identity: int)

  datatype Body =
    | Message(text: string)
    | TaskJson(task: TaskView)
    | TaskListJson(tasks: seq<TaskView>)
    | AccessToken(token: Token)

  /** Why a handler raised instead of returning. */
  datatype Fault =
    | MissingKey(key: string)     // `data[key]` on a request body without that key
    | UndefinedName(name: string) // a name used that is bound nowhere
    | NoReturnValue               // the view function fell off its end and returned None
  | EmptyPassword               // Flask-Bcrypt's `ValueError` on hashing an empty password

  datatype Response = Reply(status: int, body: Body) | Crash(fault: Fault)
}
