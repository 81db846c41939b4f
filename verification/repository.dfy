/** The repository primitives over the store: list, first-match lookup by key,
    append, and overwrite-by-key. No domain rules live here. */
module Repository {
  import opened Wrappers
  import opened TaskModel

  /** Position of the first record whose key is `id`, scanning in store order,
      or None when no record carries that key. */
  function FindIndex(s: Store, id: int): (r: Option<nat>)
    ensures r.None? <==> id !in Ids(s)
    ensures r.Some? ==> FirstMatch(s, id, r.value)
  {
    if |s| == 0 then None
    else if s[0].TaskId == id then Some(0)
    else
      match FindIndex(s[1..], id)
      case None =>
        assert Ids(s) == {s[0].TaskId} + Ids(s[1..]) by {
          assert s == [s[0]] + s[1..];
        }
        None
      case Some(k) =>
        assert s[k + 1] == s[1..][k];
        Some(k + 1)
  }

  /** Every stored record, in store order. */
  function GetTasks(s: Store): (r: seq<MyTask>)
    ensures |r| == |s|
    ensures forall i :: 0 <= i < |s| ==> r[i] == s[i]
  {
    s
  }

  /** The first record whose key is `id`, or None if the key is absent. */
  function GetTaskById(s: Store, id: int): (r: Option<MyTask>)
    ensures r.None? <==> id !in Ids(s)
    ensures r.Some? ==> exists i :: FirstMatch(s, id, i) && r.value == s[i]
  {
    match FindIndex(s, id)
    case None => None
    case Some(i) => Some(s[i])
  }

  /** Appends a task whose id the caller has already chosen and returns it
      unchanged. The key must not be present yet. */
  function CreateTask(s: Store, t: MyTask): (r: (Store, MyTask))
    requires t.TaskId !in Ids(s)
    ensures r.1 == t
    ensures |r.0| == |s| + 1 && r.0[..|s|] == s && r.0[|s|] == t
    ensures Ids(r.0) == Ids(s) + {t.TaskId}
    ensures UniqueIds(s) ==> UniqueIds(r.0)
  {
    var s' := s + [t];
    assert Ids(s') == Ids(s) + {t.TaskId} by {
      forall id | id in Ids(s')
        ensures id in Ids(s) + {t.TaskId}
      {
        var u :| u in s' && u.TaskId == id;
        if u != t {
          assert u in s;
        }
      }
    }
    assert UniqueIds(s) ==> UniqueIds(s') by {
      if UniqueIds(s) {
        forall i | 0 <= i < |s|
          ensures s'[i].TaskId != t.TaskId
        {
          assert s'[i] == s[i] && s[i] in s;
        }
      }
    }
    (s', t)
  }

  /** Looks the stored record up by `t`'s key; if present, overwrites its
      `Done` and `Description` with `t`'s and returns the updated record,
      otherwise leaves the store alone and returns None. */
  function UpdateTask(s: Store, t: MyTask): (r: (Store, Option<MyTask>))
    ensures r.1.None? <==> t.TaskId !in Ids(s)
    ensures r.1.None? ==> r.0 == s
    ensures r.1.Some? ==> r.1.value == t
    ensures r.1.Some? ==> exists i :: FirstMatch(s, t.TaskId, i) && r.0 == s[i := t]
    ensures |r.0| == |s|
    ensures forall i :: 0 <= i < |s| && s[i].TaskId != t.TaskId ==> r.0[i] == s[i]
    ensures Ids(r.0) == Ids(s)
    ensures UniqueIds(s) ==> UniqueIds(r.0)
  {
    match FindIndex(s, t.TaskId)
    case None => (s, None)
    case Some(i) =>
      var updated := s[i].(Done := t.Done, Description := t.Description);
      assert updated == t;
      ReplaceKeepsIds(s, i, t);
      (s[i := updated], Some(updated))
  }

  /** Replacing a record by one with the same key changes neither the key set
      nor key uniqueness. */
  lemma ReplaceKeepsIds(s: Store, i: int, t: MyTask)
    requires 0 <= i < |s| && s[i].TaskId == t.TaskId
    ensures Ids(s[i := t]) == Ids(s)
    ensures UniqueIds(s) ==> UniqueIds(s[i := t])
  {
    var s' := s[i := t];
    forall id | id in Ids(s')
      ensures id in Ids(s)
    {
      IdsMember(s', id);
      IdsMember(s, id);
    }
    forall id | id in Ids(s)
      ensures id in Ids(s')
    {
      IdsMember(s, id);
      var k :| 0 <= k < |s| && s[k].TaskId == id;
      assert s'[k].TaskId == id;
      IdsMember(s', id);
    }
  }

  /** For a store with unique keys, lookup answers exactly the record that
      carries the key. */
  lemma GetTaskByIdUnique(s: Store, id: int, t: MyTask)
    requires UniqueIds(s)
    ensures GetTaskById(s, id) == Some(t) <==> t in s && t.TaskId == id
  {
  }

  /** After appending a task with a fresh key, the listing contains it and
      lookup by its key returns it. */
  lemma CreateThenFind(s: Store, t: MyTask)
    requires t.TaskId !in Ids(s)
    ensures t in GetTasks(CreateTask(s, t).0)
    ensures GetTaskById(CreateTask(s, t).0, t.TaskId) == Some(t)
  {
  }

  /** Updating twice with the same argument gives the store and the answer of
      updating once. */
  lemma {:induction false} UpdateIdempotent(s: Store, t: MyTask)
    ensures UpdateTask(UpdateTask(s, t).0, t) == UpdateTask(s, t)
  {
    var (s1, r1) := UpdateTask(s, t);
    if r1.Some? {
      var i :| FirstMatch(s, t.TaskId, i) && s1 == s[i := t];
      assert FirstMatch(s1, t.TaskId, i);
      assert t.TaskId in Ids(s1);
      var (s2, r2) := UpdateTask(s1, t);
      var j :| FirstMatch(s1, t.TaskId, j) && s2 == s1[j := t];
      assert s2 == s1;
    }
  }
}
