// The callback-driven reader of src/linux_low_level.rs: fill the buffer, start one worker per replica,
// join them.

module LowLevel {
  import opened Buffers
  import opened Channels
  import opened Errors
  import opened Layout
  import opened Tables
  import opened Words

  const CORE_MEAS_A: nat := 11
  const CORE_MEAS_B: nat := 12

  // What a worker's callbacks do: the index wait_work returns, unless it panics, and whether final_work
  // panics on a given value.
  datatype Callbacks<!T> = Callbacks(wait: Option<nat>, panicsOn: Cell<T> -> bool)

  // A spawned worker: its replica's base, the plan and length it captured, and its callbacks.
  datatype Handle<!T> = Handle(base: nat, plan: LayoutPlan, len: nat, callbacks: Callbacks<T>)
  {
    // What the worker hands to final_work, reading the memory as it stands when the worker gets there;
    // nothing if it panics before.
    function Received(memory: seq<Cell<T>>): Option<Cell<T>>
      requires plan.Valid()
    {
      match callbacks.wait
      case None => None
      case Some(index) =>
        if index >= len then None
        else
          var offset := base + plan.ElementOffset(index);
          Some(if offset < |memory| then memory[offset] else Zeroed)
    }

    predicate Panics(memory: seq<Cell<T>>)
      requires plan.Valid()
    {
      var received := Received(memory);
      received.None? || callbacks.panicsOn(received.value)
    }
  }

  // The workers that panic.
  ghost function Panicked<T>(handles: seq<Handle<T>>, memory: seq<Cell<T>>): set<int>
    requires forall k | 0 <= k < |handles| :: handles[k].plan.Valid()
  {
    set k | 0 <= k < |handles| && handles[k].Panics(memory)
  }

  // A worker fails on a table if its wait callback panics or gives no index of the table, or its final
  // callback panics on the value there.
  predicate FailsOn<T>(callbacks: Callbacks<T>, contents: seq<T>) {
    || callbacks.wait.None?
    || callbacks.wait.value >= |contents|
    || callbacks.panicsOn(Holds(contents[callbacks.wait.value]))
  }

  ghost function Failing<T>(handles: seq<Handle<T>>, contents: seq<T>): set<int> {
    set k | 0 <= k < |handles| && FailsOn(handles[k].callbacks, contents)
  }

  function PanicCount<T>(handles: seq<Handle<T>>, memory: seq<Cell<T>>): (count: nat)
    requires forall k | 0 <= k < |handles| :: handles[k].plan.Valid()
    ensures count == |Panicked(handles, memory)| && count <= |handles|
    ensures count == 0 <==> forall k | 0 <= k < |handles| :: !handles[k].Panics(memory)
  {
    if handles == [] then 0
    else
      var last := |handles| - 1;
      assert handles == handles[..last] + [handles[last]];
      assert Panicked(handles, memory)
          == Panicked(handles[..last], memory) + (if handles[last].Panics(memory) then {last} else {});
      PanicCount(handles[..last], memory) + (if handles[last].Panics(memory) then 1 else 0)
  }

  // A worker whose callback gives an in-range index receives that index's value, through its own
  // replica's base; it panics exactly if the index is missing or out of range, or the callback panics.
  lemma WorkerReceivesContents<T>(table: Table<T>, contents: seq<T>, replica: nat, handle: Handle<T>)
    requires Represents(table, contents) && replica < table.plan.spec.replicas
    requires handle.base == table.plan.ReplicaBase(replica)
    requires handle.plan == table.plan && handle.len == |contents|
    ensures handle.Received(table.memory) ==
            match handle.callbacks.wait
            case None => None
            case Some(index) => if index < |contents| then Some(Holds(contents[index])) else None
    ensures handle.Panics(table.memory) <==> FailsOn(handle.callbacks, contents)
  {
    if handle.callbacks.wait.Some? && handle.callbacks.wait.value < |contents| {
      LoadsContents(table, contents, replica, handle.callbacks.wait.value);
    }
  }

  method DefaultWorkerCores(replicas: nat) returns (cores: seq<nat>)
    ensures |cores| == replicas
    ensures forall r | 0 <= r < replicas :: cores[r] == 11 + r
  {
    cores := [];
    if replicas >= 1 { cores := cores + [CORE_MEAS_A]; }
    if replicas >= 2 { cores := cores + [CORE_MEAS_B]; }
    if replicas > 2 {
      for replica := 2 to replicas
        invariant |cores| == replica
        invariant forall r | 0 <= r < replica :: cores[r] == CORE_MEAS_A + r
      {
        cores := cores + [CORE_MEAS_B + replica - 1];
      }
    }
  }

  const STARTED_ALREADY: Error :=
    InvalidConfig("cannot modify or restart LinuxHedgedReader after workers have started")

  class LinuxHedgedReader<T> {
    const buffer: ReplicatedBuffer<T>
    const workerCores: seq<nat>
    var workers: seq<Handle<T>>
    var started: bool

    // The contents the workers were started on.
    ghost var frozen: seq<T>

    ghost predicate Valid()
      reads this, buffer, buffer.cells
    {
      && buffer.Valid()
      && |workerCores| == buffer.layout.spec.replicas
      && (started ==> buffer.contents == frozen)
      && |workers| <= |workerCores| && (workers != [] ==> started)
      && forall k | 0 <= k < |workers| ::
           && workers[k].base == buffer.layout.ReplicaBase(k)
           && workers[k].plan == buffer.layout && workers[k].len == |frozen|
    }

    constructor (buffer: ReplicatedBuffer<T>, workerCores: seq<nat>)
      requires buffer.Valid() && |workerCores| == buffer.layout.spec.replicas
      ensures Valid() && this.buffer == buffer && this.workerCores == workerCores
      ensures !started && workers == []
    {
      this.buffer := buffer;
      this.workerCores := workerCores;
      this.workers := [];
      this.started := false;
      this.frozen := [];
    }

    // `build`: one core per replica, by default consecutive cores from CORE_MEAS_A.
    static method Build(
        spec: LayoutSpec, elementSize: nat, capacity: nat, page: HugePageSize, validation: ChannelValidation,
        cores: Option<seq<nat>>, mapping: nat -> Option<nat>, translate: Translation)
      returns (r: Result<LinuxHedgedReader<T>>)
      requires ForType(spec, elementSize).Ok? ==> Fits(ForType(spec, elementSize).value, capacity, page.Bytes())
      ensures ForType(spec, elementSize).Err? ==> r == Err(ForType(spec, elementSize).error)
      ensures ForType(spec, elementSize).Ok? ==>
                var plan := ForType(spec, elementSize).value;
                forall size: nat | IsMappingSize(size, plan.AllocationBytes(capacity), page) ::
                  var start := mapping(size);
                  var accepted := start.Some? && Accepts(validation, plan, translate, start.value);
                  && (start.None? ==> r == Err(Io))
                  && (start.Some? && !accepted ==>
                        r.Err? && CheckRefusesWith(BaseLookups(plan, translate, start.value), r.error))
                  && (r.Ok? <==> accepted && (cores.None? || |cores.value| == spec.replicas))
                  && (accepted && r.Err? ==>
                        r.error == InvalidConfig("worker_cores must provide one CPU id per replica"))
                  && (r.Ok? ==>
                        && r.value.buffer.layout == plan && r.value.buffer.start == start.value
                        && r.value.buffer.bytes == size)
      ensures r.Ok? ==>
                IsMappingSize(
                  r.value.buffer.bytes, ForType(spec, elementSize).value.AllocationBytes(capacity), page)
      ensures r.Ok? ==>
                && fresh(r.value) && r.value.Valid() && !r.value.started && r.value.buffer.contents == []
                && r.value.buffer.capacity == capacity
                && |r.value.workerCores| == spec.replicas
                && (cores.Some? ==> r.value.workerCores == cores.value)
                && (cores.None? ==> forall k | 0 <= k < spec.replicas :: r.value.workerCores[k] == 11 + k)
    {
      hide IsMappingSize;
      hide Accepts;
      hide CheckRefusesWith;
      hide BaseLookups;
      hide ForType;
      hide LayoutPlan.AllocationLen;
      var buffer := ReplicatedBuffer<T>.WithOptions(
        spec, elementSize, capacity, page, validation, mapping, translate);
      if buffer.Err? { return Err(buffer.error); }
      var replicas := buffer.value.layout.spec.replicas;
      var workerCores;
      match cores {
        case Some(given) => workerCores := given;
        case None => workerCores := DefaultWorkerCores(replicas);
      }
      if |workerCores| != replicas {
        return Err(InvalidConfig("worker_cores must provide one CPU id per replica"));
      }
      var reader := new LinuxHedgedReader<T>(buffer.value, workerCores);
      return Ok(reader);
    }

    // Once started, inserting fails and changes nothing; before, it is the buffer's push.
    method Insert(value: T) returns (r: Result<()>)
      requires Valid()
      modifies buffer`len, buffer`contents, buffer.cells
      ensures Valid()
      ensures started ==>
                && r == Err(InvalidConfig("cannot modify or restart LinuxHedgedReader after workers have started"))
                && buffer.contents == old(buffer.contents)
                && buffer.cells[..] == old(buffer.cells[..])
      ensures !started ==>
                r == (if |old(buffer.contents)| < buffer.capacity then Ok(())
                      else Err(CapacityExceeded(|old(buffer.contents)|, buffer.capacity)))
                && buffer.contents == old(buffer.contents) + (if r.Ok? then [value] else [])
    {
      if started { return Err(STARTED_ALREADY); }
      r := buffer.Push(value);
    }

    method ExtendFromSlice(values: seq<T>) returns (r: Result<()>)
      requires Valid()
      modifies buffer`len, buffer`contents, buffer.cells
      ensures Valid()
      ensures started ==>
                && r == Err(InvalidConfig("cannot modify or restart LinuxHedgedReader after workers have started"))
                && buffer.contents == old(buffer.contents)
                && buffer.cells[..] == old(buffer.cells[..])
      ensures !started ==>
                var room := buffer.capacity - |old(buffer.contents)|;
                && r == (if |values| <= room then Ok(()) else Err(CapacityExceeded(buffer.capacity, buffer.capacity)))
                && buffer.contents == old(buffer.contents) + values[..if |values| <= room then |values| else room]
    {
      if started { return Err(STARTED_ALREADY); }
      r := buffer.ExtendFromSlice(values);
    }

    // Spawns one worker per replica, once and for all. The callbacks are shared closures, so what they do
    // may differ from worker to worker.
    method StartWorkers(callbacks: nat -> Callbacks<T>) returns (r: Result<()>)
      requires Valid()
      modifies this
      ensures Valid() && started
      ensures old(started) ==>
                && r == Err(InvalidConfig("cannot modify or restart LinuxHedgedReader after workers have started"))
                && workers == old(workers) && frozen == old(frozen)
      ensures !old(started) ==>
                && r == Ok(()) && frozen == buffer.contents && |workers| == |workerCores|
                && forall k | 0 <= k < |workers| :: workers[k].callbacks == callbacks(k)
    {
      if started { return Err(STARTED_ALREADY); }
      started := true;
      frozen := buffer.contents;
      workers := [];
      for replica := 0 to |workerCores|
        invariant buffer.Valid() && started && frozen == buffer.contents && |workers| == replica
        invariant forall k | 0 <= k < |workers| ::
                    workers[k] == Handle(buffer.layout.ReplicaBase(k), buffer.layout, buffer.len, callbacks(k))
      {
        var base := buffer.ReplicaBasePtr(replica);
        workers := workers + [Handle(base.value, buffer.layout, buffer.len, callbacks(replica))];
      }
      return Ok(());
    }

    // Joins whatever has been started and not joined: reports exactly how many of those workers panicked.
    method Join() returns (r: Result<()>)
      requires Valid()
      modifies this`workers
      ensures Valid() && workers == []
      ensures var panicked := |Failing(old(workers), frozen)|;
              r == if panicked == 0 then Ok(()) else Err(WorkerPanicked(panicked))
    {
      hide Handle.Panics;
      hide Failing;
      hide Panicked;
      PanickedAreThoseThatFail();
      var drained, count := workers, 0;
      workers := [];
      for k := 0 to |drained|
        invariant buffer.Valid() && workers == []
        invariant count == PanicCount(drained[..k], buffer.cells[..])
      {
        assert drained[..k + 1][..k] == drained[..k];
        if drained[k].Panics(buffer.cells[..]) { count := count + 1; }
      }
      assert drained[..|drained|] == drained;
      if count == 0 { return Ok(()); }
      return Err(WorkerPanicked(count));
    }

    // As long as the reader exists, started workers receive from the contents they were started on: no
    // method changes `frozen` or a started reader's buffer.
    lemma WorkersReceiveFrozenContents(k: nat)
      requires Valid() && k < |workers|
      ensures workers[k].Received(buffer.cells[..]) ==
              match workers[k].callbacks.wait
              case None => None
              case Some(index) => if index < |frozen| then Some(Holds(frozen[index])) else None
      ensures workers[k].Panics(buffer.cells[..]) <==> FailsOn(workers[k].callbacks, frozen)
    {
      WorkerReceivesContents(buffer.Snapshot(), buffer.contents, k, workers[k]);
    }

    lemma PanickedAreThoseThatFail()
      requires Valid()
      ensures Panicked(workers, buffer.cells[..]) == Failing(workers, frozen)
    {
      forall k: nat | k < |workers|
        ensures workers[k].Panics(buffer.cells[..]) <==> FailsOn(workers[k].callbacks, frozen)
      {
        WorkersReceiveFrozenContents(k);
      }
    }
  }
}
