/**
 The persistent state behind the to-do application: the `user` and `task`
 tables and the Flask-Login session, as one immutable value.
 */
module Store {

  import opened Wrappers
  import Password

  type UserId = nat
  type TaskId = nat

  /** A row of the `user` table. */
  datatype User = User(id: UserId, username: string, passwordHash: Password.PasswordHash)

  /** A row of the `task` table; `dateCreated` is the clock reading taken at insertion. */
  datatype Task = Task(id: TaskId, content: string, userId: UserId, dateCreated: int)

  /** Both tables, keyed by primary key, and the identity stored in the session cookie. */
  datatype State = State(
    users: map<UserId, User>,
    tasks: map<TaskId, Task>,
    session: Option<UserId>)

  /**
   What every reachable store satisfies: rows are stored under their own
   primary key, usernames are unique, every task references an existing user,
   and a logged-in session names an existing user. Each request handler keeps
   it (see `Properties.Step`).
   */
  ghost predicate Valid(s: State)
  {
    && (forall k :: k in s.users ==> s.users[k].id == k)
    && (forall a, b :: a in s.users && b in s.users && s.users[a].username == s.users[b].username ==> a == b)
    && (forall k :: k in s.tasks ==> s.tasks[k].id == k && s.tasks[k].userId in s.users)
    && (s.session.Some? ==> s.session.value in s.users)
  }

  /** Freshly created tables and an anonymous session. */
  function Init(): (s: State)
    ensures Valid(s)
    ensures s.users == map[] && s.tasks == map[] && s.session == None
  {
    State(map[], map[], None)
  }

  /** Every finite, non-empty set of keys has a largest element. */
  lemma {:induction false} LargestKeyExists(keys: set<nat>)
    requires keys != {}
    ensures exists m :: m in keys && forall k :: k in keys ==> k <= m
    decreases keys
  {
    var x :| x in keys;
    if keys != {x} {
      LargestKeyExists(keys - {x});
      var m :| m in keys - {x} && forall k :: k in keys - {x} ==> k <= m;
      var top := if x <= m then m else x;
      forall k | k in keys
        ensures k <= top
      {
        if k != x {
          assert k in keys - {x};
        }
      }
      assert top in keys;
    } else {
      assert forall k :: k in keys ==> k <= x;
    }
  }

  /**
   The primary key SQLite gives a new row of a table declared
   `INTEGER PRIMARY KEY`: one more than the largest key in use, or 1 when the
   table is empty. A key freed by deleting the last row is handed out again.
   */
  function NextId<T>(m: map<nat, T>): (r: nat)
    ensures r !in m
    ensures forall k :: k in m ==> k < r
    ensures m == map[] ==> r == 1
    ensures m != map[] ==> r - 1 in m
  {
    if m == map[] then 1
    else
      LargestKeyExists(m.Keys);
      var largest :| largest in m.Keys && forall k :: k in m.Keys ==> k <= largest;
      largest + 1
  }

  /** `User(username=...)` followed by `set_password`: a new row whose hash accepts exactly `password`. */
  function NewUser(id: UserId, username: string, password: string, salt: Password.Salt): (u: User)
    ensures u.id == id && u.username == username
    ensures forall guess :: CheckPassword(u, guess) <==> guess == password
  {
    User(id, username, Password.Generate(password, salt))
  }

  /** `User.check_password`. */
  predicate CheckPassword(u: User, guess: string)
  {
    Password.Check(u.passwordHash, guess)
  }

  /** The `user_loader` callback: the user with this primary key, if there is one. */
  function LoadUser(s: State, id: UserId): (r: Option<User>)
    ensures r.Some? <==> id in s.users
    ensures r.Some? ==> r.value == s.users[id]
    ensures Valid(s) && r.Some? ==> r.value.id == id
  {
    if id in s.users then Some(s.users[id]) else None
  }

  /**
   `current_user` as `login_required` sees it: the session identity, but only
   when `load_user` finds that user; otherwise the request is anonymous.
   */
  function CurrentUser(s: State): (r: Option<UserId>)
    ensures r.Some? ==> r.value in s.users && s.session == r
    ensures Valid(s) ==> r == s.session
  {
    match s.session
    case Some(id) => if LoadUser(s, id).Some? then Some(id) else None
    case None => None
  }

  /** Inserting under the assigned key makes the key after it the next one. */
  lemma NextIdAfterInsert<T>(m: map<nat, T>, v: T)
    ensures NextId(m[NextId(m) := v]) == NextId(m) + 1
  {
    var m' := m[NextId(m) := v];
    assert NextId(m) in m';
    assert NextId(m') - 1 in m';
  }

  ghost predicate UsernameTaken(users: map<UserId, User>, name: string)
  {
    exists k :: k in users && users[k].username == name
  }

  /** A row with this username among the primary keys below `n`, searching down from `n - 1`. */
  function FindBelow(users: map<UserId, User>, name: string, n: nat): (r: Option<UserId>)
    ensures r.Some? ==> r.value < n && r.value in users && users[r.value].username == name
    ensures r.None? ==> forall k :: k in users && k < n ==> users[k].username != name
  {
    if n == 0 then None
    else if n - 1 in users && users[n - 1].username == name then Some(n - 1)
    else FindBelow(users, name, n - 1)
  }

  /**
   `User.query.filter_by(username=name).first()`. Usernames are unique, so the
   row found is the only one with that name.
   */
  function FindByUsername(s: State, name: string): (r: Option<UserId>)
    requires Valid(s)
    ensures r.None? <==> !UsernameTaken(s.users, name)
    ensures r.Some? ==> r.value in s.users && s.users[r.value].username == name
    ensures r.Some? ==> forall k :: k in s.users && s.users[k].username == name ==> k == r.value
  {
    FindBelow(s.users, name, NextId(s.users))
  }
}
