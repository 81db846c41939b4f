/** The service rules over the repository: listing, lookup, id assignment on
    create (largest existing id plus one, or 1 on an empty store), and the
    read-modify-write that sets a task's completion flag. */
module Service {
  import opened Wrappers
  import opened TaskModel
  import Repository

  /** Largest key in a non-empty store. */
  function MaxId(s: Store): (m: int)
    requires |s| > 0
    ensures forall t :: t in s ==> t.TaskId <= m
    ensures m in Ids(s)
  {
    if |s| == 1 then
      assert s[0] in s;
      s[0].TaskId
    else
      var rest := MaxId(s[1..]);
      assert s == [s[0]] + s[1..];
      assert Ids(s) == {s[0].TaskId} + Ids(s[1..]);
      if s[0].TaskId >= rest then s[0].TaskId else rest
  }

  /** The id a new task receives. */
  function NextId(s: Store): (id: int)
    ensures |s| == 0 ==> id == 1
    ensures forall t :: t in s ==> t.TaskId < id
    ensures id !in Ids(s)
    ensures |s| > 0 ==> id - 1 in Ids(s)
  {
    if |s| == 0 then 1 else MaxId(s) + 1
  }

  /** Lists all tasks, delegating to the repository without transformation. */
  function GetTasks(s: Store): (r: seq<MyTask>)
    ensures r == Repository.GetTasks(s)
    ensures multiset(r) == multiset(s)
  {
    Repository.GetTasks(s)
  }

  /** Looks a task up by key, delegating to the repository. */
  function GetTaskById(s: Store, id: int): (r: Option<MyTask>)
    ensures r == Repository.GetTaskById(s, id)
    ensures r.None? <==> id !in Ids(s)
    ensures r.Some? ==> r.value in s && r.value.TaskId == id
  {
    Repository.GetTaskById(s, id)
  }

  /** Creates a pending task with the caller's description under a fresh id
      and returns it together with the grown store. */
  function CreateTask(s: Store, description: string): (r: (Store, MyTask))
    ensures r.1.Description == description && !r.1.Done
    ensures |s| == 0 ==> r.1.TaskId == 1
    ensures forall t :: t in s ==> t.TaskId < r.1.TaskId
    ensures r.1.TaskId !in Ids(s)
    ensures |s| > 0 ==> r.1.TaskId - 1 in Ids(s)
    ensures r.0 == s + [r.1]
    ensures Ids(r.0) == Ids(s) + {r.1.TaskId}
    ensures UniqueIds(s) ==> UniqueIds(r.0)
  {
    var tasks := Repository.GetTasks(s);
    var newTask := MyTask(NextId(tasks), description, false);
    Repository.CreateTask(s, newTask)
  }

  /** Sets the completion flag of the task with key `id`. An unknown key
      yields None and leaves the store as it was; otherwise the first record
      with that key gets `Done == done` and is returned. */
  function ToggleTaskStatus(s: Store, id: int, done: bool): (r: (Store, Option<MyTask>))
    ensures r.1.None? <==> id !in Ids(s)
    ensures r.1.None? ==> r.0 == s
    ensures r.1.Some? ==> exists i :: FirstMatch(s, id, i)
                                      && r.1.value == s[i].(Done := done)
                                      && r.0 == s[i := r.1.value]
    ensures r.1.Some? ==> r.1.value.TaskId == id && r.1.value.Done == done
    ensures |r.0| == |s|
    ensures forall i :: 0 <= i < |s| && s[i].TaskId != id ==> r.0[i] == s[i]
    ensures Ids(r.0) == Ids(s)
    ensures UniqueIds(s) ==> UniqueIds(r.0)
  {
    match Repository.GetTaskById(s, id)
    case None => (s, None)
    case Some(task) =>
      Repository.UpdateTask(s, task.(Done := done))
  }

  /** Fetching a task right after setting its flag returns the record the
      toggle returned, so the new flag is what a later read sees. */
  lemma {:induction false} ToggleThenFetch(s: Store, id: int, done: bool)
    requires id in Ids(s)
    ensures GetTaskById(ToggleTaskStatus(s, id, done).0, id) == ToggleTaskStatus(s, id, done).1
    ensures GetTaskById(ToggleTaskStatus(s, id, done).0, id).value.Done == done
  {
    var (s1, r1) := ToggleTaskStatus(s, id, done);
    var i :| FirstMatch(s, id, i) && r1.value == s[i].(Done := done) && s1 == s[i := r1.value];
    assert FirstMatch(s1, id, i);
    var r2 := GetTaskById(s1, id);
    var j :| FirstMatch(s1, id, j) && r2.value == s1[j];
  }

  /** Setting the flag twice to the same value gives the store and the answer
      of setting it once. */
  lemma {:induction false} ToggleIdempotent(s: Store, id: int, done: bool)
    ensures ToggleTaskStatus(ToggleTaskStatus(s, id, done).0, id, done) == ToggleTaskStatus(s, id, done)
  {
    var (s1, r1) := ToggleTaskStatus(s, id, done);
    if r1.Some? {
      var i :| FirstMatch(s, id, i) && r1.value == s[i].(Done := done) && s1 == s[i := r1.value];
      assert FirstMatch(s1, id, i);
      var (s2, r2) := ToggleTaskStatus(s1, id, done);
      var j :| FirstMatch(s1, id, j) && r2.value == s1[j].(Done := done) && s2 == s1[j := r2.value];
      assert s2 == s1;
    }
  }

  /** Setting the flag to any value and then back to the value it had restores
      the store exactly. */
  lemma {:induction false} ToggleRevert(s: Store, id: int, done: bool)
    requires id in Ids(s)
    ensures ToggleTaskStatus(ToggleTaskStatus(s, id, done).0, id, GetTaskById(s, id).value.Done).0 == s
  {
    var (s1, r1) := ToggleTaskStatus(s, id, done);
    var i :| FirstMatch(s, id, i) && r1.value == s[i].(Done := done) && s1 == s[i := r1.value];
    var r0 := GetTaskById(s, id);
    var k :| FirstMatch(s, id, k) && r0.value == s[k];
    assert k == i;
    assert FirstMatch(s1, id, i);
    var (s2, r2) := ToggleTaskStatus(s1, id, r0.value.Done);
    var j :| FirstMatch(s1, id, j) && r2.value == s1[j].(Done := r0.value.Done) && s2 == s1[j := r2.value];
    assert s2 == s;
  }
}
