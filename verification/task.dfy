/** The single entity of the task store and the store that holds it. */
module TaskModel {

  /** One to-do item: its key, the caller's text and its completion flag. */
  datatype MyTask = MyTask(TaskId: int, Description: string, Done: bool)

  /** The persisted task collection, in the order the store returns it. */
  type Store = seq<MyTask>

  /** The keys present in a store. */
  function Ids(s: Store): set<int>
  {
    set t | t in s :: t.TaskId
  }

  /** The store's key invariant: no two records share a TaskId. */
  ghost predicate UniqueIds(s: Store)
  {
    forall i, j :: 0 <= i < |s| && 0 <= j < |s| && i != j ==> s[i].TaskId != s[j].TaskId
  }

  /** Position `i` holds the first record of `s` whose key is `id`. */
  ghost predicate FirstMatch(s: Store, id: int, i: int)
  {
    && 0 <= i < |s|
    && s[i].TaskId == id
    && forall j :: 0 <= j < i ==> s[j].TaskId != id
  }

  lemma IdsMember(s: Store, id: int)
    ensures id in Ids(s) <==> exists i :: 0 <= i < |s| && s[i].TaskId == id
  {
  }
}
