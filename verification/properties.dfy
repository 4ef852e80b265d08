/**
 The application as a state machine driven by requests, and the properties
 that relate its handlers to one another.
 */
module Properties {

  import opened Wrappers
  import opened Store
  import opened App
  import Listing
  import Password

  /** One request, named after its route and method. */
  datatype Request =
    | PostRegister(username: string, password: string, confirm: string, salt: Password.Salt)
    | PostLogin(username: string, password: string)
    | GetLogout
    | PostIndex(content: string, now: int)
    | GetIndex
    | GetDelete(id: TaskId)

  /**
   Serving one request. The store stays consistent, a rejected request
   changes nothing, and no stored task is ever rewritten: rows are only
   inserted or removed.
   */
  function Step(s: State, req: Request): (o: Outcome)
    requires Valid(s)
    ensures Valid(o.state)
    ensures o.reply.Rejected? ==> o.state == s
    ensures forall k :: k in s.tasks && k in o.state.tasks ==> o.state.tasks[k] == s.tasks[k]
    ensures o.state.users.Keys >= s.users.Keys
    ensures forall k :: k in s.users ==> o.state.users[k] == s.users[k]
  {
    match req
    case PostRegister(username, password, confirm, salt) => Register(s, username, password, confirm, salt)
    case PostLogin(username, password) => Login(s, username, password)
    case GetLogout => Logout(s)
    case PostIndex(content, now) => AddTask(s, content, now)
    case GetIndex => ListTasks(s)
    case GetDelete(id) => DeleteTask(s, id)
  }

  /** Serving a sequence of requests in order. Every reachable store is consistent. */
  function Run(s: State, reqs: seq<Request>): (r: State)
    requires Valid(s)
    ensures Valid(r)
    ensures r.users.Keys >= s.users.Keys
    ensures forall k :: k in s.users ==> r.users[k] == s.users[k]
    decreases |reqs|
  {
    if reqs == [] then s
    else Run(Step(s, reqs[0]).state, reqs[1..])
  }

  /** From freshly created tables, usernames stay unique and every task has an existing owner. */
  lemma ReachableConsistent(reqs: seq<Request>)
    ensures var s := Run(Init(), reqs);
      && (forall a, b :: a in s.users && b in s.users && s.users[a].username == s.users[b].username ==> a == b)
      && (forall k :: k in s.tasks ==> s.tasks[k].userId in s.users)
  {
  }

  /** No request changes the tasks of a user other than the one logged in. */
  lemma StepIsolation(s: State, req: Request, other: UserId)
    requires Valid(s)
    requires CurrentUser(s) != Some(other)
    ensures Listing.Owned(Step(s, req).state.tasks, other) == Listing.Owned(s.tasks, other)
  {
  }

  /** ... and so no request changes what another user's task list shows. */
  lemma {:induction false} StepKeepsOthersList(s: State, req: Request, other: UserId)
    requires Valid(s)
    requires CurrentUser(s) != Some(other)
    ensures Listing.TasksOf(Step(s, req).state, other) == Listing.TasksOf(s, other)
  {
    var s' := Step(s, req).state;
    StepIsolation(s, req, other);
    var n, n' := NextId(s.tasks), NextId(s'.tasks);
    var m := if n <= n' then n' else n;
    Listing.OwnedBelowOnlyOwned(s'.tasks, s.tasks, other, m);
    Listing.OwnedBelowBound(s.tasks, other, n, m);
    Listing.OwnedBelowBound(s'.tasks, other, n', m);
  }

  /** Registration completes a login round trip: after logging out, exactly the registered password logs back in. */
  lemma RegisterThenLogin(s: State, username: string, password: string, salt: Password.Salt, guess: string)
    requires Valid(s)
    requires !UsernameTaken(s.users, username)
    ensures Register(s, username, password, password, salt).reply == Ok
    ensures var s1 := Register(s, username, password, password, salt).state;
      Login(Logout(s1).state, username, guess).reply == Ok <==> guess == password
  {
  }

  /** A second registration of the same name is refused, whatever passwords it brings. */
  lemma RegisterTwice(s: State, username: string, p1: string, p2: string, salt1: Password.Salt, salt2: Password.Salt)
    requires Valid(s)
    requires Register(s, username, p1, p1, salt1).reply == Ok
    ensures var s1 := Register(s, username, p1, p1, salt1).state;
      Register(s1, username, p2, p2, salt2) == Outcome(Rejected(UsernameExists), s1)
  {
  }

  /**
   With a clock that does not run backwards, a newly added task is listed
   last, after the owner's earlier tasks in their old order.
   */
  lemma {:induction false} AddThenList(s: State, content: string, now: int)
    requires Valid(s)
    requires CurrentUser(s).Some?
    requires forall t :: t in Listing.TasksOf(s, CurrentUser(s).value) ==> t.dateCreated <= now
    ensures var u := CurrentUser(s).value;
      Listing.TasksOf(AddTask(s, content, now).state, u)
        == Listing.TasksOf(s, u) + [Task(NextId(s.tasks), content, u, now)]
  {
    var u := CurrentUser(s).value;
    var t := Task(NextId(s.tasks), content, u, now);
    Listing.ListAfterInsert(s, AddTask(s, content, now).state, t);
  }

  /** Deleting a task just added restores the store exactly. */
  lemma AddThenDelete(s: State, content: string, now: int)
    requires Valid(s)
    requires CurrentUser(s).Some?
    ensures DeleteTask(AddTask(s, content, now).state, NextId(s.tasks)) == Outcome(Ok, s)
  {
    assert AddTask(s, content, now).state.tasks - {NextId(s.tasks)} == s.tasks;
  }

  /**
   Since SQLite hands a freed largest key out again, a task added after the
   newest one was deleted takes over its id, and a stale `/delete/<id>` link
   for the deleted task now removes the new one.
   */
  lemma {:induction false} DeletedIdReused(s: State, first: string, second: string, t1: int, t2: int)
    requires Valid(s)
    requires CurrentUser(s).Some?
    ensures var id := NextId(s.tasks);
      var s1 := DeleteTask(AddTask(s, first, t1).state, id).state;
      var s2 := AddTask(s1, second, t2).state;
      && id in s2.tasks && s2.tasks[id].content == second
      && DeleteTask(s2, id) == Outcome(Ok, s)
  {
    var id := NextId(s.tasks);
    AddThenDelete(s, first, t1);
    AddThenDelete(s, second, t2);
  }

  /** After logging out every protected request is turned away and changes nothing. */
  lemma LogoutClosesSession(s: State, req: Request)
    requires Valid(s)
    requires CurrentUser(s).Some?
    requires req.GetLogout? || req.PostIndex? || req.GetIndex? || req.GetDelete?
    ensures var s' := Logout(s).state;
      Step(s', req) == Outcome(Rejected(Unauthenticated), s')
  {
  }
}
