// The memory a replicated table lives in, as the worker threads see it: raw cells behind a base
// pointer, addressed with the layout plan.

module Tables {
  import opened Layout

  // One element-sized cell: still the zero bytes the mapping started with, or a stored value.
  datatype Cell<+T> = Zeroed | Holds(value: T)

  datatype Table<+T> = Table(plan: LayoutPlan, memory: seq<Cell<T>>, len: nat)
  {
    // The cell a worker loads: its replica's base pointer plus the element offset.
    function Load(replica: nat, index: nat): Cell<T>
      requires plan.Valid()
    {
      var offset := plan.ReplicaBase(replica) + plan.ElementOffset(index);
      if offset < |memory| then memory[offset] else Zeroed
    }
  }

  // Every replica holds the same sequence.
  ghost predicate Represents<T>(table: Table<T>, contents: seq<T>) {
    && table.plan.Valid()
    && table.len == |contents|
    && forall r: nat, i: nat | r < table.plan.spec.replicas && i < table.len ::
         && table.plan.SlotOffset(r, i) < |table.memory|
         && table.memory[table.plan.SlotOffset(r, i)] == Holds(contents[i])
  }

  lemma LoadsContents<T>(table: Table<T>, contents: seq<T>, replica: nat, index: nat)
    requires Represents(table, contents) && replica < table.plan.spec.replicas && index < |contents|
    ensures table.Load(replica, index) == Holds(contents[index])
  {
    assert table.plan.SlotOffset(replica, index) < |table.memory|;
  }
}
