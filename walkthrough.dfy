/** One user's session against an empty store, with the test suite's data:
    register and log in as the suite's fixture does, create a task, read it,
    delete it, and read it again. */
module Walkthrough {
  import opened Models
  import opened Http
  import opened Auth
  import opened Tasks

  lemma TestUserSession(h: Hasher, salt: Salt)
    requires Sound(h)
    ensures
      var reg := RegisterStep(map[], 1, h, salt, Credentials(Some("testuser"), Some("testpass")));
      var login := Login(reg.users, h, "testuser", "testpass");
      var user := 1;
      var created := CreateStep(map[], 1, user, NewTask(Some("Task to Delete"), Some("Task description"), Some(false)));
      var deleted := DeleteStep(created.tasks, user, 1);
      && reg.resp == UserCreated
      && login == Reply(200, AccessToken(Token(user)))
      // as written, create answers with no well-formed response, but the task is stored
      && created.resp.Crash?
      && GetTask(created.tasks, user, 1) ==
           Reply(200, TaskJson(TaskView(1, "Task to Delete", Some("Task description"), false)))
      && deleted.resp == Deleted
      && GetTask(deleted.tasks, user, 1) == NotFound
  {
    RegisterThenLogin(map[], 1, h, salt, "testuser", "testpass");
  }
}
