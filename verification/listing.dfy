/**
 The query behind the task list:
 `Task.query.filter_by(user_id=owner).order_by(Task.date_created)`.

 The filter walks the primary keys in ascending order, the order in which
 SQLite scans the table, and the ordering is a stable insertion sort on
 `dateCreated`. SQL leaves the relative order of equal timestamps open; the
 stable sort settles it by primary key.
 */
module Listing {

  import opened Store

  predicate SortedByDate(xs: seq<Task>)
  {
    forall i, j :: 0 <= i < j < |xs| ==> xs[i].dateCreated <= xs[j].dateCreated
  }

  /** The rows of `tasks` that belong to `owner`. */
  ghost function Owned(tasks: map<TaskId, Task>, owner: UserId): map<TaskId, Task>
  {
    map k | k in tasks && tasks[k].userId == owner :: tasks[k]
  }

  ghost function OwnedKeysBelow(tasks: map<TaskId, Task>, owner: UserId, n: nat): set<TaskId>
  {
    set k | k in tasks && k < n && tasks[k].userId == owner
  }

  /** Every row is stored under its own primary key. */
  ghost predicate KeyedById(tasks: map<TaskId, Task>)
  {
    forall k :: k in tasks ==> tasks[k].id == k
  }

  /** The tasks of `owner` whose primary key is below `n`, in ascending key order. */
  function OwnedBelow(tasks: map<TaskId, Task>, owner: UserId, n: nat): (r: seq<Task>)
    requires KeyedById(tasks)
    ensures forall t :: t in r ==> t.userId == owner
    ensures forall t :: t in r <==> t.id in tasks && t.id < n && tasks[t.id] == t && t.userId == owner
  {
    if n == 0 then []
    else
      OwnedBelow(tasks, owner, n - 1)
      + (if n - 1 in tasks && tasks[n - 1].userId == owner then [tasks[n - 1]] else [])
  }

  /** Moving the bound up by one adds key `n - 1` to the owned keys exactly when `owner` owns it. */
  lemma OwnedKeysBelowStep(tasks: map<TaskId, Task>, owner: UserId, n: nat)
    requires n > 0
    ensures n - 1 !in OwnedKeysBelow(tasks, owner, n - 1)
    ensures OwnedKeysBelow(tasks, owner, n)
      == OwnedKeysBelow(tasks, owner, n - 1) + (if n - 1 in tasks && tasks[n - 1].userId == owner then {n - 1} else {})
  {
  }

  /** Each owned row below `n` appears once. */
  lemma {:induction false} OwnedBelowCount(tasks: map<TaskId, Task>, owner: UserId, n: nat)
    requires KeyedById(tasks)
    ensures |OwnedBelow(tasks, owner, n)| == |OwnedKeysBelow(tasks, owner, n)|
  {
    if n > 0 {
      var k := n - 1;
      OwnedBelowCount(tasks, owner, k);
      OwnedKeysBelowStep(tasks, owner, n);
      var owned := k in tasks && tasks[k].userId == owner;
      var extra: seq<Task> := if owned then [tasks[k]] else [];
      var extraKeys: set<TaskId> := if owned then {k} else {};
      assert OwnedBelow(tasks, owner, n) == OwnedBelow(tasks, owner, k) + extra;
      assert |extra| == |extraKeys|;
      assert OwnedKeysBelow(tasks, owner, k) !! extraKeys;
    }
  }

  /** Writing a row at key `n` does not change what the keys below `n` list. */
  lemma {:induction false} OwnedBelowFrame(tasks: map<TaskId, Task>, owner: UserId, n: nat, t: Task, m: nat)
    requires KeyedById(tasks) && t.id == n
    requires m <= n
    ensures OwnedBelow(tasks[n := t], owner, m) == OwnedBelow(tasks, owner, m)
  {
    if m > 0 {
      OwnedBelowFrame(tasks, owner, n, t, m - 1);
    }
  }

  /** The listing of `owner` depends only on `owner`'s own rows. */
  lemma {:induction false} OwnedBelowOnlyOwned(tasks: map<TaskId, Task>, other: map<TaskId, Task>, owner: UserId, n: nat)
    requires KeyedById(tasks) && KeyedById(other)
    requires Owned(tasks, owner) == Owned(other, owner)
    ensures OwnedBelow(tasks, owner, n) == OwnedBelow(other, owner, n)
  {
    if n > 0 {
      OwnedBelowOnlyOwned(tasks, other, owner, n - 1);
      var k := n - 1;
      var mine: seq<Task> := if k in tasks && tasks[k].userId == owner then [tasks[k]] else [];
      var theirs: seq<Task> := if k in other && other[k].userId == owner then [other[k]] else [];
      assert k in tasks && tasks[k].userId == owner <==> k in Owned(tasks, owner);
      assert k in other && other[k].userId == owner <==> k in Owned(other, owner);
      if k in Owned(tasks, owner) {
        assert tasks[k] == Owned(tasks, owner)[k] == Owned(other, owner)[k] == other[k];
      }
      assert mine == theirs;
      assert OwnedBelow(tasks, owner, n) == OwnedBelow(tasks, owner, k) + mine;
      assert OwnedBelow(other, owner, n) == OwnedBelow(other, owner, k) + theirs;
    }
  }

  /** Raising the bound past keys no row uses lists nothing more. */
  lemma {:induction false} OwnedBelowBound(tasks: map<TaskId, Task>, owner: UserId, n: nat, m: nat)
    requires KeyedById(tasks)
    requires n <= m
    requires forall k :: k in tasks ==> k < n
    ensures OwnedBelow(tasks, owner, m) == OwnedBelow(tasks, owner, n)
  {
    if n < m {
      OwnedBelowBound(tasks, owner, n, m - 1);
    }
  }

  /** Stable insertion: `t` goes before the first element not earlier than it. */
  function Insert(t: Task, xs: seq<Task>): (r: seq<Task>)
    ensures multiset(r) == multiset(xs) + multiset{t}
  {
    if xs == [] || t.dateCreated <= xs[0].dateCreated then [t] + xs
    else
      assert xs == [xs[0]] + xs[1..];
      [xs[0]] + Insert(t, xs[1..])
  }

  /** Inserting into a sorted sequence keeps it sorted. */
  lemma {:induction false} InsertSorted(t: Task, xs: seq<Task>)
    requires SortedByDate(xs)
    ensures SortedByDate(Insert(t, xs))
  {
    if xs != [] && t.dateCreated > xs[0].dateCreated {
      var rest := Insert(t, xs[1..]);
      InsertSorted(t, xs[1..]);
      assert xs == [xs[0]] + xs[1..];
      forall y | y in rest
        ensures xs[0].dateCreated <= y.dateCreated
      {
        assert y in multiset(rest);
        if y != t {
          assert y in multiset(xs[1..]);
        }
      }
      SortedCons(xs[0], rest);
    } else {
      SortedCons(t, xs);
    }
  }

  lemma SortedCons(x: Task, ys: seq<Task>)
    requires SortedByDate(ys)
    requires forall y :: y in ys ==> x.dateCreated <= y.dateCreated
    ensures SortedByDate([x] + ys)
  {
  }

  /** Orders tasks by `dateCreated`, keeping the given order among equal timestamps. */
  function SortByDate(xs: seq<Task>): (r: seq<Task>)
    ensures multiset(r) == multiset(xs)
    ensures SortedByDate(r)
  {
    if xs == [] then []
    else
      assert xs == [xs[0]] + xs[1..];
      InsertSorted(xs[0], SortByDate(xs[1..]));
      Insert(xs[0], SortByDate(xs[1..]))
  }

  /** Inserting an element no later than the last one lands it before the last one. */
  lemma {:induction false} InsertBeforeLast(a: Task, ys: seq<Task>, t: Task)
    requires a.dateCreated <= t.dateCreated
    ensures Insert(a, ys + [t]) == Insert(a, ys) + [t]
  {
    if ys != [] && a.dateCreated > ys[0].dateCreated {
      assert (ys + [t])[1..] == ys[1..] + [t];
      InsertBeforeLast(a, ys[1..], t);
    }
  }

  /** A task no earlier than every other is listed last. */
  lemma {:induction false} SortAppendLatest(xs: seq<Task>, t: Task)
    requires forall x :: x in xs ==> x.dateCreated <= t.dateCreated
    ensures SortByDate(xs + [t]) == SortByDate(xs) + [t]
  {
    if xs == [] {
      assert xs + [t] == [t];
    } else {
      assert (xs + [t])[0] == xs[0];
      assert (xs + [t])[1..] == xs[1..] + [t];
      SortAppendLatest(xs[1..], t);
      InsertBeforeLast(xs[0], SortByDate(xs[1..]), t);
    }
  }

  /** A sorted copy holds the same elements as the original, and as many. */
  lemma SortByDateSameElements(xs: seq<Task>)
    ensures |SortByDate(xs)| == |xs|
    ensures forall t :: t in SortByDate(xs) <==> t in xs
  {
    var r := SortByDate(xs);
    assert |r| == |multiset(r)| == |multiset(xs)| == |xs|;
    forall t
      ensures t in r <==> t in xs
    {
      assert t in r <==> t in multiset(r);
      assert t in xs <==> t in multiset(xs);
    }
  }

  /** In a consistent store, the rows listed below the next key are all rows of `owner`. */
  lemma OwnedBelowAll(s: State, owner: UserId)
    requires Valid(s)
    ensures forall t :: t in OwnedBelow(s.tasks, owner, NextId(s.tasks)) <==> t in s.tasks.Values && t.userId == owner
    ensures |OwnedBelow(s.tasks, owner, NextId(s.tasks))| == |Owned(s.tasks, owner)|
  {
    var xs := OwnedBelow(s.tasks, owner, NextId(s.tasks));
    forall t
      ensures t in xs <==> t in s.tasks.Values && t.userId == owner
    {
      if t in s.tasks.Values {
        var k :| k in s.tasks && s.tasks[k] == t;
        assert k == t.id;
      }
      if t in xs {
        assert s.tasks[t.id] in s.tasks.Values;
      }
    }
    OwnedBelowCount(s.tasks, owner, NextId(s.tasks));
    assert OwnedKeysBelow(s.tasks, owner, NextId(s.tasks)) == Owned(s.tasks, owner).Keys;
  }

  /**
   The task list of `owner`: exactly the rows owned by `owner`, each once,
   never a row of anybody else, in nondecreasing order of creation time.
   */
  function TasksOf(s: State, owner: UserId): (r: seq<Task>)
    requires Valid(s)
    ensures forall t :: t in r ==> t.userId == owner
    ensures forall t :: t in r <==> t in s.tasks.Values && t.userId == owner
    ensures |r| == |Owned(s.tasks, owner)|
    ensures SortedByDate(r)
  {
    OwnedBelowAll(s, owner);
    SortByDateSameElements(OwnedBelow(s.tasks, owner, NextId(s.tasks)));
    SortByDate(OwnedBelow(s.tasks, owner, NextId(s.tasks)))
  }

  /** A row inserted under the key SQLite assigns extends its owner's rows by exactly that row. */
  lemma OwnedBelowAfterInsert(tasks: map<TaskId, Task>, t: Task)
    requires KeyedById(tasks)
    requires t.id == NextId(tasks)
    ensures KeyedById(tasks[t.id := t])
    ensures OwnedBelow(tasks[t.id := t], t.userId, NextId(tasks[t.id := t]))
      == OwnedBelow(tasks, t.userId, NextId(tasks)) + [t]
  {
    var n := t.id;
    NextIdAfterInsert(tasks, t);
    OwnedBelowFrame(tasks, t.userId, n, t, n);
  }

  /** A row inserted under the key SQLite assigns, no earlier than its owner's other tasks, is listed last. */
  lemma {:induction false} ListAfterInsert(s: State, s': State, t: Task)
    requires Valid(s) && Valid(s')
    requires t.id == NextId(s.tasks)
    requires s'.tasks == s.tasks[t.id := t]
    requires forall x :: x in TasksOf(s, t.userId) ==> x.dateCreated <= t.dateCreated
    ensures TasksOf(s', t.userId) == TasksOf(s, t.userId) + [t]
  {
    var xs := OwnedBelow(s.tasks, t.userId, NextId(s.tasks));
    OwnedBelowAfterInsert(s.tasks, t);
    SortByDateSameElements(xs);
    SortAppendLatest(xs, t);
  }
}
