/**
 The request handlers of the to-do application as pure transitions of the
 store. Each returns the reply the handler produces together with the new
 store; a rejected request returns the store it was given.
 */
module App {

  import opened Wrappers
  import opened Store
  import Listing
  import Password

  /** Why a request was turned away. */
  datatype Error =
    | PasswordMismatch  // register page: "Passwords do not match."
    | UsernameExists    // register page: "Username already exists."
    | LoginFailed       // login page: "Login failed. Check your username and password."
    | Unauthenticated   // `login_required`: redirect to the login view
    | NotFound          // `get_or_404`: status 404
    | Forbidden         // delete of another user's task: "Unauthorized", status 403

  datatype Reply =
    | Ok                       // the handler's redirect after a successful POST or delete
    | Listed(tasks: seq<Task>) // the rendered task list
    | Rejected(error: Error)

  datatype Outcome = Outcome(reply: Reply, state: State)

  /**
   POST /register. The confirmation is checked before the username; a new
   account is logged in at once.
   */
  function Register(s: State, username: string, password: string, confirm: string, salt: Password.Salt): (o: Outcome)
    requires Valid(s)
    ensures Valid(o.state)
    ensures password != confirm ==> o == Outcome(Rejected(PasswordMismatch), s)
    ensures password == confirm && UsernameTaken(s.users, username) ==> o == Outcome(Rejected(UsernameExists), s)
    ensures password == confirm && !UsernameTaken(s.users, username) ==>
      && o.reply == Ok
      && o.state.session.Some?
      && var id := o.state.session.value;
      && id !in s.users
      && o.state.users.Keys == s.users.Keys + {id}
      && (forall k :: k in s.users ==> o.state.users[k] == s.users[k])
      && o.state.users[id].username == username
      && (forall guess :: CheckPassword(o.state.users[id], guess) <==> guess == password)
      && o.state.tasks == s.tasks
  {
    if password != confirm then
      Outcome(Rejected(PasswordMismatch), s)
    else if FindByUsername(s, username).Some? then
      Outcome(Rejected(UsernameExists), s)
    else
      var id := NextId(s.users);
      var users := s.users[id := NewUser(id, username, password, salt)];
      Outcome(Ok, s.(users := users, session := Some(id)))
  }

  /**
   POST /login. Succeeds exactly when a user of that name exists and the
   password checks; a failed attempt leaves the session as it was.
   */
  function Login(s: State, username: string, password: string): (o: Outcome)
    requires Valid(s)
    ensures Valid(o.state)
    ensures o.reply == Ok <==>
      exists k :: k in s.users && s.users[k].username == username && CheckPassword(s.users[k], password)
    ensures o.reply == Ok ==>
      && o.state.session.Some?
      && var k := o.state.session.value;
      && k in s.users && s.users[k].username == username
      && o.state == s.(session := Some(k))
    ensures o.reply != Ok ==> o == Outcome(Rejected(LoginFailed), s)
  {
    match FindByUsername(s, username)
    case Some(k) =>
      if CheckPassword(s.users[k], password) then Outcome(Ok, s.(session := Some(k)))
      else Outcome(Rejected(LoginFailed), s)
    case None => Outcome(Rejected(LoginFailed), s)
  }

  /** GET /logout: protected; returns the session to anonymous. */
  function Logout(s: State): (o: Outcome)
    requires Valid(s)
    ensures Valid(o.state)
    ensures CurrentUser(s).None? ==> o == Outcome(Rejected(Unauthenticated), s)
    ensures CurrentUser(s).Some? ==> o.reply == Ok && CurrentUser(o.state).None?
    ensures o.state.users == s.users && o.state.tasks == s.tasks
  {
    if CurrentUser(s).None? then Outcome(Rejected(Unauthenticated), s)
    else Outcome(Ok, s.(session := None))
  }

  /**
   POST /: protected; stores one new task stamped `now` whose owner is the
   logged-in user, whatever the form holds, under the key SQLite assigns.
   Every existing row stays as it was.
   */
  function AddTask(s: State, content: string, now: int): (o: Outcome)
    requires Valid(s)
    ensures Valid(o.state)
    ensures CurrentUser(s).None? ==> o == Outcome(Rejected(Unauthenticated), s)
    ensures CurrentUser(s).Some? ==>
      && o.reply == Ok
      && var id := NextId(s.tasks);
      && id !in s.tasks
      && o.state.tasks.Keys == s.tasks.Keys + {id}
      && (forall k :: k in s.tasks ==> o.state.tasks[k] == s.tasks[k])
      && o.state.tasks[id] == Task(id, content, CurrentUser(s).value, now)
      && o.state.users == s.users && o.state.session == s.session
  {
    match CurrentUser(s)
    case None => Outcome(Rejected(Unauthenticated), s)
    case Some(u) =>
      var id := NextId(s.tasks);
      Outcome(Ok, s.(tasks := s.tasks[id := Task(id, content, u, now)]))
  }

  /**
   GET /: protected; lists the logged-in user's tasks, and only theirs, in
   order of creation time. Reading changes nothing.
   */
  function ListTasks(s: State): (o: Outcome)
    requires Valid(s)
    ensures o.state == s
    ensures CurrentUser(s).None? ==> o.reply == Rejected(Unauthenticated)
    ensures CurrentUser(s).Some? ==>
      && o.reply.Listed?
      && (forall t :: t in o.reply.tasks <==> t in s.tasks.Values && t.userId == CurrentUser(s).value)
      && |o.reply.tasks| == |Listing.Owned(s.tasks, CurrentUser(s).value)|
      && Listing.SortedByDate(o.reply.tasks)
  {
    match CurrentUser(s)
    case None => Outcome(Rejected(Unauthenticated), s)
    case Some(u) => Outcome(Listed(Listing.TasksOf(s, u)), s)
  }

  /**
   GET /delete/<id>: protected; a missing task is NotFound, somebody else's
   task is Forbidden and stays, otherwise exactly that task goes.
   */
  function DeleteTask(s: State, id: TaskId): (o: Outcome)
    requires Valid(s)
    ensures Valid(o.state)
    ensures CurrentUser(s).None? ==> o == Outcome(Rejected(Unauthenticated), s)
    ensures CurrentUser(s).Some? && id !in s.tasks ==> o == Outcome(Rejected(NotFound), s)
    ensures CurrentUser(s).Some? && id in s.tasks && s.tasks[id].userId != CurrentUser(s).value ==>
      o == Outcome(Rejected(Forbidden), s)
    ensures CurrentUser(s).Some? && id in s.tasks && s.tasks[id].userId == CurrentUser(s).value ==>
      && o.reply == Ok
      && o.state.tasks.Keys == s.tasks.Keys - {id}
      && (forall k :: k in o.state.tasks ==> o.state.tasks[k] == s.tasks[k])
      && o.state.users == s.users && o.state.session == s.session
  {
    match CurrentUser(s)
    case None => Outcome(Rejected(Unauthenticated), s)
    case Some(u) =>
      if id !in s.tasks then Outcome(Rejected(NotFound), s)
      else if s.tasks[id].userId != u then Outcome(Rejected(Forbidden), s)
      else Outcome(Ok, s.(tasks := s.tasks - {id}))
  }
}
