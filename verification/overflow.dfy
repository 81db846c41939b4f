/** Id assignment with the source's 32-bit `int` keys. `max + 1` is evaluated
    in unchecked C# arithmetic, so at the largest 32-bit value it wraps to the
    smallest one, which may already be taken. The rest of the model uses the
    unbounded `Service.NextId`, which is always fresh. */
module IdOverflow {
  import opened TaskModel
  import Service

  const Int32Min: int := -0x8000_0000
  const Int32Max: int := 0x7FFF_FFFF

  /** Two's-complement truncation of an integer to 32 bits. */
  function Wrap32(x: int): (r: int)
    ensures Int32Min <= r <= Int32Max
    ensures Int32Min <= x <= Int32Max ==> r == x
    ensures (x - r) % 0x1_0000_0000 == 0
  {
    (x - Int32Min) % 0x1_0000_0000 + Int32Min
  }

  /** The id the source computes: 1 on an empty store, otherwise the
      largest key plus one, wrapped to 32 bits. It agrees with the unbounded
      rule whenever the largest key is below the 32-bit maximum. */
  function NextIdUnchecked(s: Store): (id: int)
    ensures Int32Min <= id <= Int32Max
    ensures (|s| == 0 || Service.MaxId(s) < Int32Max) && (forall t :: t in s ==> Int32Min <= t.TaskId)
            ==> id == Service.NextId(s)
    ensures |s| > 0 && Service.MaxId(s) == Int32Max ==> id == Int32Min
  {
    if |s| == 0 then 1 else Wrap32(Service.MaxId(s) + 1)
  }

  /** A store holding both the smallest and the largest 32-bit key (reached,
      for instance, by one create past the maximum) gets a duplicate key
      from the unchecked rule, while the unbounded rule stays fresh. */
  lemma UncheckedNextIdCollides()
    ensures var s := [MyTask(Int32Min, "a", false), MyTask(Int32Max, "b", false)];
            && UniqueIds(s)
            && NextIdUnchecked(s) in Ids(s)
            && Service.NextId(s) !in Ids(s)
  {
  }
}
