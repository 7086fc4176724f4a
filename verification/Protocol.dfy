// The hedged read protocol of src/runtime.rs as a transition system: any number of reader threads
// behind one mutex, N worker threads, and `drop`. Each step is one atomic access or one access to the
// shared value slot.
//
// Memory is weak. Every atomic keeps the history of its stores, and every thread a view: for each
// location, the position of the latest store it must have seen. A load may return any store at or
// after the loading thread's view of that location. A Release store attaches the storing thread's view
// to its message and an Acquire load joins it in; Relaxed accesses transfer nothing. A
// read-modify-write that succeeds reads the last store. The non-atomic slot is treated the same way
// to tell whether its accesses race: a view counts the slot writes and the slot copies that happened
// before.

module Protocol {
  import opened Errors
  import opened Tables
  import opened Words

  // Positions in the histories of request_id, request_index, winner_state and shutdown, and the number
  // of slot writes and slot copies known to have happened.
  datatype View = View(ids: nat, idxs: nat, wins: nat, shuts: nat, writes: nat, copies: nat)
  {
    function Join(other: View): View {
      View(Max(ids, other.ids), Max(idxs, other.idxs), Max(wins, other.wins),
           Max(shuts, other.shuts), Max(writes, other.writes), Max(copies, other.copies))
    }
  }

  const BOTTOM: View := View(0, 0, 0, 0, 0, 0)

  function Max(x: nat, y: nat): nat { if x < y then y else x }

  datatype Message<+V> = Message(value: V, view: View)

  // winner_state tags: the request id shifted left by two, or-ed with a phase. The shifted word's two
  // low bits are clear, so or-ing in 1 or 2 adds it.
  function Pending(id: nat): nat { Wrap(id * 4) }

  function Claimed(id: nat): nat { Pending(id) + 1 }

  function Ready(id: nat): nat { Pending(id) + 2 }

  // Ids from here on lose high bits to the shift.
  const ID_LIMIT: nat := 0x4000_0000_0000_0000

  datatype WorkerPc =
    | Top
    | LoadId
    | Recheck(request: nat)
    | LoadIndex
    | LoadValue
    | TryClaim
    | WriteSlot
    | PublishReady
    | Exited

  datatype Worker<+T> = Worker(pc: WorkerPc, seen: nat, index: nat, value: Cell<T>, view: View)

  datatype ReaderPc<+T> =
    | Idle
    | Queued
    | Entered
    | Numbered
    | IndexStored
    | PendingStored
    | PollShutdown
    | PollWinner
    | CopySlot
    | Leaving(result: Result<Cell<T>>)

  datatype Reader<+T> = Reader(pc: ReaderPc<T>, index: nat, request: nat, view: View)

  datatype DropPhase = Live | Flagged | Draining | Closed

  // A read that has returned: who called it, for which index, and what came back.
  datatype Answer<+T> = Answer(reader: nat, index: nat, result: Result<Cell<T>>)

  datatype State<+T> = State(
    ids: seq<Message<nat>>,
    idxs: seq<nat>,
    wins: seq<Message<nat>>,
    shuts: seq<Message<bool>>,
    slot: seq<Cell<T>>,
    copies: nat,
    nextId: nat,
    lock: Option<nat>,
    lockView: View,
    workers: seq<Worker<T>>,
    readers: seq<Reader<T>>,
    drop: DropPhase,
    dropView: View,
    answers: seq<Answer<T>>)

  // What the workers captured when they were spawned.
  datatype Config<!T> = Config(workers: nat, len: nat, load: (nat, nat) -> Cell<T>)

  datatype Action =
    | WorkerStep(worker: nat, pos: nat)
    | Invoke(reader: nat, index: nat)
    | ReaderStep(reader: nat, pos: nat)
    | DropStep

  function Init<T>(c: Config<T>, readers: nat): State<T> {
    State([Message(0, BOTTOM)], [0], [Message(0, BOTTOM)], [Message(false, BOTTOM)],
          [], 0, 1, None, BOTTOM,
          seq(c.workers, _ => Worker(Top, 0, 0, Zeroed, BOTTOM)),
          seq(readers, _ => Reader(Idle, 0, 0, BOTTOM)),
          Live, BOTTOM, [])
  }

  predicate Readable<V>(history: seq<V>, from: nat, pos: nat) {
    from <= pos < |history|
  }

  // The worker loop. `pos` names the store that a load returns.

  predicate WorkerEnabled<T>(s: State<T>, w: nat, pos: nat) {
    w < |s.workers| &&
    var me := s.workers[w];
    match me.pc
    case Top => Readable(s.shuts, me.view.shuts, pos)
    case LoadId => Readable(s.ids, me.view.ids, pos)
    case Recheck(_) => Readable(s.shuts, me.view.shuts, pos)
    case LoadIndex => Readable(s.idxs, me.view.idxs, pos)
    // The strong compare-exchange fails only on a different value, and succeeds only on the last store.
    case TryClaim =>
      Readable(s.wins, me.view.wins, pos) && (s.wins[pos].value == Pending(me.seen) ==> pos == |s.wins| - 1)
    case LoadValue | WriteSlot | PublishReady => true
    case Exited => false
  }

  function WorkerNext<T>(c: Config<T>, s: State<T>, w: nat, pos: nat): State<T>
    requires WorkerEnabled(s, w, pos)
  {
    var me := s.workers[w];
    match me.pc
    case Top =>
      var view := me.view.(shuts := pos).Join(s.shuts[pos].view);
      SetWorker(s, w, me.(pc := if s.shuts[pos].value then Exited else LoadId, view := view))
    case LoadId =>
      var id, view := s.ids[pos].value, me.view.(ids := pos).Join(s.ids[pos].view);
      SetWorker(s, w, me.(pc := if id == 0 || id == me.seen then Top else Recheck(id), view := view))
    case Recheck(request) =>
      var view := me.view.(shuts := pos).Join(s.shuts[pos].view);
      if s.shuts[pos].value then SetWorker(s, w, me.(pc := Exited, view := view))
      else SetWorker(s, w, me.(pc := LoadIndex, seen := request, view := view))
    case LoadIndex =>
      var index := s.idxs[pos];
      SetWorker(s, w, me.(pc := if index >= c.len then Top else LoadValue, index := index,
                          view := me.view.(idxs := pos)))
    case LoadValue =>
      SetWorker(s, w, me.(pc := TryClaim, value := c.load(w, me.index)))
    case TryClaim =>
      var view := me.view.(wins := pos).Join(s.wins[pos].view);
      if s.wins[pos].value == Pending(me.seen) then
        var claimView := view.(wins := |s.wins|);
        SetWorker(s, w, me.(pc := WriteSlot, view := claimView))
          .(wins := s.wins + [Message(Claimed(me.seen), claimView)])
      else SetWorker(s, w, me.(pc := Top, view := view))
    case WriteSlot =>
      SetWorker(s, w, me.(pc := PublishReady, view := me.view.(writes := |s.slot| + 1)))
        .(slot := s.slot + [me.value])
    case PublishReady =>
      var view := me.view.(wins := |s.wins|);
      SetWorker(s, w, me.(pc := Top, view := view)).(wins := s.wins + [Message(Ready(me.seen), view)])
  }

  function SetWorker<T>(s: State<T>, w: nat, worker: Worker<T>): State<T>
    requires w < |s.workers|
  {
    s.(workers := s.workers[w := worker])
  }

  // `read`: an out-of-range index returns at once, any other call queues on the mutex.

  predicate InvokeEnabled<T>(s: State<T>, r: nat) {
    r < |s.readers| && s.readers[r].pc.Idle? && s.drop == Live
  }

  function InvokeNext<T>(c: Config<T>, s: State<T>, r: nat, index: nat): State<T>
    requires InvokeEnabled(s, r)
  {
    if index >= c.len then s.(answers := s.answers + [Answer(r, index, Err(OutOfBounds(index, c.len)))])
    else SetReader(s, r, s.readers[r].(pc := Queued, index := index))
  }

  predicate ReaderEnabled<T>(s: State<T>, r: nat, pos: nat) {
    r < |s.readers| &&
    var me := s.readers[r];
    match me.pc
    case Idle => false
    case Queued => s.lock == None
    case PollShutdown => Readable(s.shuts, me.view.shuts, pos)
    case PollWinner => Readable(s.wins, me.view.wins, pos)
    case _ => true
  }

  function ReaderNext<T>(s: State<T>, r: nat, pos: nat): State<T>
    requires ReaderEnabled(s, r, pos)
  {
    var me := s.readers[r];
    match me.pc
    case Queued =>
      SetReader(s, r, me.(pc := Entered, view := me.view.Join(s.lockView))).(lock := Some(r))
    case Entered =>
      SetReader(s, r, me.(pc := Numbered, request := s.nextId)).(nextId := Wrap(s.nextId + 1))
    case Numbered =>
      SetReader(s, r, me.(pc := IndexStored, view := me.view.(idxs := |s.idxs|)))
        .(idxs := s.idxs + [me.index])
    case IndexStored =>
      SetReader(s, r, me.(pc := PendingStored, view := me.view.(wins := |s.wins|)))
        .(wins := s.wins + [Message(Pending(me.request), BOTTOM)])
    case PendingStored =>
      var view := me.view.(ids := |s.ids|);
      SetReader(s, r, me.(pc := PollShutdown, view := view)).(ids := s.ids + [Message(me.request, view)])
    case PollShutdown =>
      var view := me.view.(shuts := pos).Join(s.shuts[pos].view);
      SetReader(s, r, me.(pc := if s.shuts[pos].value then Leaving(Err(RuntimeClosed)) else PollWinner,
                          view := view))
    case PollWinner =>
      var view := me.view.(wins := pos).Join(s.wins[pos].view);
      SetReader(s, r, me.(pc := if s.wins[pos].value == Ready(me.request) then CopySlot else PollShutdown,
                          view := view))
    case CopySlot =>
      var value := if s.slot == [] then Zeroed else s.slot[|s.slot| - 1];
      SetReader(s, r, me.(pc := Leaving(Ok(value)), view := me.view.(copies := s.copies + 1)))
        .(copies := s.copies + 1)
    case Leaving(result) =>
      SetReader(s, r, me.(pc := Idle))
        .(lock := None, lockView := me.view, answers := s.answers + [Answer(r, me.index, result)])
  }

  function SetReader<T>(s: State<T>, r: nat, reader: Reader<T>): State<T>
    requires r < |s.readers|
  {
    s.(readers := s.readers[r := reader])
  }

  // `drop` owns the runtime, so no call is in progress and the mutex is free; it has seen at least what
  // the last unlock published.

  predicate DropEnabled<T>(s: State<T>) {
    match s.drop
    case Live => forall r | 0 <= r < |s.readers| :: s.readers[r].pc.Idle?
    case Flagged => |s.ids| > 0
    case Draining => forall w | 0 <= w < |s.workers| :: s.workers[w].pc.Exited?
    case Closed => false
  }

  function DropNext<T>(s: State<T>): State<T>
    requires DropEnabled(s)
  {
    match s.drop
    case Live =>
      var view := s.lockView.(shuts := |s.shuts|);
      s.(drop := Flagged, dropView := view, shuts := s.shuts + [Message(true, view)])
    case Flagged =>
      // fetch_add carries on the release sequence of the store it reads.
      var last, view := s.ids[|s.ids| - 1], s.dropView.(ids := |s.ids|);
      s.(drop := Draining, dropView := view,
         ids := s.ids + [Message(Wrap(last.value + 1), view.Join(last.view))])
    case Draining => s.(drop := Closed)
  }

  predicate Enabled<T>(s: State<T>, a: Action) {
    match a
    case WorkerStep(w, pos) => WorkerEnabled(s, w, pos)
    case Invoke(r, _) => InvokeEnabled(s, r)
    case ReaderStep(r, pos) => ReaderEnabled(s, r, pos)
    case DropStep => DropEnabled(s)
  }

  function Next<T>(c: Config<T>, s: State<T>, a: Action): State<T>
    requires Enabled(s, a)
  {
    match a
    case WorkerStep(w, pos) => WorkerNext(c, s, w, pos)
    case Invoke(r, index) => InvokeNext(c, s, r, index)
    case ReaderStep(r, pos) => ReaderNext(s, r, pos)
    case DropStep => DropNext(s)
  }

  // A run: its states, each reached from the one before by the action between them.
  ghost predicate IsRun<T>(c: Config<T>, states: seq<State<T>>, actions: seq<Action>) {
    && |states| == |actions| + 1
    && forall k | 0 <= k < |actions| ::
         Enabled(states[k], actions[k]) && states[k + 1] == Next(c, states[k], actions[k])
  }

  // No id issued so far loses bits to the shift.
  predicate InBudget<T>(s: State<T>) {
    s.nextId <= ID_LIMIT
  }

  ghost predicate IsReachingRun<T>(c: Config<T>, states: seq<State<T>>, actions: seq<Action>, readers: nat) {
    && IsRun(c, states, actions)
    && states[0] == Init(c, readers)
    && forall k | 0 <= k < |states| :: InBudget(states[k])
  }

  // Some run, with some number of readers, ends in s.
  ghost predicate Reachable<T(!new)>(c: Config<T>, s: State<T>) {
    exists states: seq<State<T>>, actions: seq<Action>, readers: nat ::
      IsReachingRun(c, states, actions, readers) && states[|states| - 1] == s
  }

  // What a plain sequence would answer.
  function Lookup<T>(contents: seq<T>, index: nat): Result<Cell<T>> {
    if index < |contents| then Ok(Holds(contents[index])) else Err(OutOfBounds(index, |contents|))
  }
}
