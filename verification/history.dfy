/** Sequences of service requests replayed from an empty store, and what the
    resulting listing looks like: task i (from 0) has id i + 1, the i-th
    created description, and the flag of the latest toggle that reached it. */
module History {
  import opened Wrappers
  import opened TaskModel
  import Service

  /** A state-changing service request. */
  datatype Request = Create(description: string) | Toggle(taskId: int, done: bool)

  /** The store after one request. */
  function Apply(s: Store, req: Request): Store
  {
    match req
    case Create(d) => Service.CreateTask(s, d).0
    case Toggle(id, done) => Service.ToggleTaskStatus(s, id, done).0
  }

  /** The store after serving `reqs` one after another, starting empty. */
  function Replay(reqs: seq<Request>): Store
  {
    if |reqs| == 0 then [] else Apply(Replay(reqs[..|reqs| - 1]), reqs[|reqs| - 1])
  }

  /** The descriptions of the create requests, in order. */
  function CreatedDescriptions(reqs: seq<Request>): seq<string>
  {
    if |reqs| == 0 then []
    else
      var prior := CreatedDescriptions(reqs[..|reqs| - 1]);
      match reqs[|reqs| - 1]
      case Create(d) => prior + [d]
      case Toggle(_, _) => prior
  }

  /** The flag the k-th created task should show: the value of the latest
      toggle naming id k that arrived after k was created, or false. */
  function LatestDone(reqs: seq<Request>, k: int): bool
  {
    if |reqs| == 0 then false
    else
      var prior := reqs[..|reqs| - 1];
      match reqs[|reqs| - 1]
      case Create(_) => LatestDone(prior, k)
      case Toggle(id, done) =>
        if id == k && 1 <= k <= |CreatedDescriptions(prior)| then done else LatestDone(prior, k)
  }

  /** The store is exactly the created tasks, numbered 1, 2, ... in creation order. */
  ghost predicate Sequential(s: Store)
  {
    forall i :: 0 <= i < |s| ==> s[i].TaskId == i + 1
  }

  /** A task that has not been created yet has no toggle to show. */
  lemma {:induction false} LatestDoneBeforeCreation(reqs: seq<Request>, k: int)
    requires k > |CreatedDescriptions(reqs)|
    ensures !LatestDone(reqs, k)
  {
    if |reqs| > 0 {
      LatestDoneBeforeCreation(reqs[..|reqs| - 1], k);
    }
  }

  /** On a sequentially numbered store, the next id is one past the count. */
  lemma SequentialNextId(s: Store)
    requires Sequential(s)
    ensures Service.NextId(s) == |s| + 1
  {
    if |s| > 0 {
      assert s[|s| - 1] in s;
      var m := Service.MaxId(s);
      IdsMember(s, m);
    }
  }

  /** `s` is the listing that serving `reqs` from an empty store should give. */
  ghost predicate Listing(s: Store, reqs: seq<Request>)
  {
    && |s| == |CreatedDescriptions(reqs)|
    && forall i :: 0 <= i < |s| ==> s[i] == MyTask(i + 1, CreatedDescriptions(reqs)[i], LatestDone(reqs, i + 1))
  }

  /** A create request extends an expected listing to the expected listing. */
  lemma CreateStep(s: Store, prior: seq<Request>, d: string)
    requires Listing(s, prior)
    ensures Listing(Apply(s, Create(d)), prior + [Create(d)])
  {
    var reqs := prior + [Create(d)];
    assert reqs[..|reqs| - 1] == prior;
    assert Sequential(s);
    SequentialNextId(s);
    LatestDoneBeforeCreation(prior, |s| + 1);
  }

  /** A toggle request takes an expected listing to the expected listing. */
  lemma ToggleStep(s: Store, prior: seq<Request>, id: int, done: bool)
    requires Listing(s, prior)
    ensures Listing(Apply(s, Toggle(id, done)), prior + [Toggle(id, done)])
  {
  }

  /** After any mix of creates and toggles from an empty store, the listing
      holds exactly one task per create, with ids 1..K in creation order, each
      carrying its description and the flag of its most recent toggle. */
  lemma {:induction false} ReplayListing(reqs: seq<Request>)
    ensures Listing(Replay(reqs), reqs)
  {
    if |reqs| > 0 {
      var prior := reqs[..|reqs| - 1];
      var last := reqs[|reqs| - 1];
      ReplayListing(prior);
      assert reqs == prior + [last];
      assert Replay(reqs) == Apply(Replay(prior), last);
      match last
      case Create(d) => CreateStep(Replay(prior), prior, d);
      case Toggle(id, done) => ToggleStep(Replay(prior), prior, id, done);
    }
  }

  /** The create requests for a list of descriptions, in order. */
  function CreateAll(descs: seq<string>): seq<Request>
  {
    seq(|descs|, i requires 0 <= i < |descs| => Create(descs[i]))
  }

  /** N successive creates from an empty store produce ids 1..N in order,
      each pending and carrying its description. */
  lemma {:induction false} SequentialIdsFromEmpty(descs: seq<string>)
    ensures |Replay(CreateAll(descs))| == |descs|
    ensures forall i :: 0 <= i < |descs| ==> Replay(CreateAll(descs))[i] == MyTask(i + 1, descs[i], false)
  {
    OnlyCreates(descs);
    ReplayListing(CreateAll(descs));
    assert Listing(Replay(CreateAll(descs)), CreateAll(descs));
  }

  /** With creates only, the created descriptions are the inputs and no task
      has been toggled. */
  lemma {:induction false} OnlyCreates(descs: seq<string>)
    ensures CreatedDescriptions(CreateAll(descs)) == descs
    ensures forall k :: !LatestDone(CreateAll(descs), k)
  {
    if |descs| > 0 {
      var n := |descs| - 1;
      assert CreateAll(descs)[..n] == CreateAll(descs[..n]);
      OnlyCreates(descs[..n]);
      assert descs == descs[..n] + [descs[n]];
    }
  }

  /** Create "buy milk" on an empty store, mark id 1 done in the resulting
      store and list it; separately, marking id 99 on an empty store finds
      nothing and changes nothing. */
  lemma BuyMilkScenario()
    ensures Service.CreateTask([], "buy milk") == ([MyTask(1, "buy milk", false)], MyTask(1, "buy milk", false))
    ensures var created := Service.CreateTask([], "buy milk").0;
            && Service.ToggleTaskStatus(created, 1, true) == ([MyTask(1, "buy milk", true)], Some(MyTask(1, "buy milk", true)))
            && Service.GetTasks(Service.ToggleTaskStatus(created, 1, true).0) == [MyTask(1, "buy milk", true)]
    ensures Service.ToggleTaskStatus([], 99, true) == ([], None)
  {
    var s := [MyTask(1, "buy milk", false)];
    assert 1 in Ids(s) by { assert s[0] in s; }
    var (s1, r1) := Service.ToggleTaskStatus(s, 1, true);
    var i :| FirstMatch(s, 1, i) && r1.value == s[i].(Done := true) && s1 == s[i := r1.value];
    assert i == 0;
    assert s1 == [MyTask(1, "buy milk", true)];
  }
}
