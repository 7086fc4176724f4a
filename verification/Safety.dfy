// What the invariant says about whole runs: hedged reads answer like a plain sequence, the slot is free
// of races, and the histories only move forward.

module Safety {
  import opened Arithmetic
  import opened Errors
  import opened Invariant
  import opened Layout
  import opened Protocol
  import opened Steps
  import opened Tables
  import opened Words

  lemma {:induction false} RunKeepsInv<T>(
      c: Config<T>, contents: seq<T>, states: seq<State<T>>, actions: seq<Action>, readers: nat, k: nat)
    requires Faithful(c, contents) && IsReachingRun(c, states, actions, readers) && k < |states|
    ensures Inv(c, contents, states[k])
  {
    hide Inv;
    if k == 0 {
      InitInv(c, contents, readers);
    } else {
      RunKeepsInv(c, contents, states, actions, readers, k - 1);
      StepKeeps(c, contents, states[k - 1], actions[k - 1]);
      assert states[k - 1 + 1] == Next(c, states[k - 1], actions[k - 1]);
    }
  }

  lemma ReachableInv<T(!new)>(c: Config<T>, contents: seq<T>, s: State<T>)
    requires Faithful(c, contents) && Reachable(c, s)
    ensures Inv(c, contents, s) && InBudget(s)
  {
    hide Inv;
    var states, actions, readers :| IsReachingRun(c, states, actions, readers) && states[|states| - 1] == s;
    RunKeepsInv(c, contents, states, actions, readers, |states| - 1);
  }

  // The workers of a runtime over a table: each captures its replica's base, the plan and the length.
  function ConfigOf<T>(table: Table<T>): Config<T>
    requires table.plan.Valid()
  {
    Config(table.plan.spec.replicas, table.len, (replica, index) => table.Load(replica, index))
  }

  lemma TableIsFaithful<T>(table: Table<T>, contents: seq<T>)
    requires Represents(table, contents)
    ensures Faithful(ConfigOf(table), contents)
  {
    forall r: nat, i: nat | r < table.plan.spec.replicas && i < table.len
      ensures ConfigOf(table).load(r, i) == Holds(contents[i])
    {
      LoadsContents(table, contents, r, i);
    }
  }

  // Every answer in the log of a reachable state is the lookup of the index it is logged with.
  lemma AnswersAreLookups<T(!new)>(c: Config<T>, contents: seq<T>, s: State<T>, answer: Answer<T>)
    requires Faithful(c, contents) && Reachable(c, s) && answer in s.answers
    ensures answer.result == Lookup(contents, answer.index)
  {
    ReachableInv(c, contents, s);
  }

  // Each worker of a runtime over a table, whatever its replicas hold, carries what is stored in its own
  // replica's slot for the index it loaded.
  ghost predicate CarriesOwnLoads<T>(c: Config<T>, s: State<T>) {
    && |s.workers| == c.workers
    && forall w: nat | w < |s.workers| ::
         s.workers[w].pc.TryClaim? || Claims(s.workers[w]) ==>
           s.workers[w].value == c.load(w, s.workers[w].index)
  }

  lemma StepCarriesOwnLoads<T>(c: Config<T>, s: State<T>, a: Action)
    requires CarriesOwnLoads(c, s) && Enabled(s, a)
    ensures CarriesOwnLoads(c, Next(c, s, a))
  {
    hide WorkerNext;
    hide CarriesOwnLoads;
    match a
    case WorkerStep(w, pos) => WorkerCarriesOwnLoads(c, s, w, pos);
    case _ => OthersLeaveLoads(c, s, a);
  }

  lemma WorkerCarriesOwnLoads<T>(c: Config<T>, s: State<T>, w: nat, pos: nat)
    requires CarriesOwnLoads(c, s) && WorkerEnabled(s, w, pos)
    ensures CarriesOwnLoads(c, WorkerNext(c, s, w, pos))
  {
  }

  lemma OthersLeaveLoads<T>(c: Config<T>, s: State<T>, a: Action)
    requires CarriesOwnLoads(c, s) && Enabled(s, a) && !a.WorkerStep?
    ensures CarriesOwnLoads(c, Next(c, s, a))
  {
    hide WorkerNext;
  }

  lemma WorkersLoadTheirOwnReplica<T>(
      table: Table<T>, states: seq<State<T>>, actions: seq<Action>, readers: nat, k: nat, w: nat)
    requires table.plan.Valid() && IsReachingRun(ConfigOf(table), states, actions, readers)
    requires k < |states|
    ensures |states[k].workers| == table.plan.spec.replicas
    ensures w < |states[k].workers| && states[k].workers[w].pc.TryClaim? ==>
              var offset := w * table.plan.channelOffsetElements + table.plan.ElementOffset(states[k].workers[w].index);
              && table.plan.Locate(offset) == Some(Slot(w, states[k].workers[w].index))
              && (offset < |table.memory| ==> states[k].workers[w].value == table.memory[offset])
  {
    hide LayoutPlan.ElementOffset;
    hide LayoutPlan.Locate;
    hide Next;
    for n := 0 to k
      invariant CarriesOwnLoads(ConfigOf(table), states[n])
    {
      StepCarriesOwnLoads(ConfigOf(table), states[n], actions[n]);
      assert states[n + 1] == Next(ConfigOf(table), states[n], actions[n]);
    }
    if w < |states[k].workers| {
      LocateInvertsOffset(table.plan, w, states[k].workers[w].index);
    }
  }

  // drop returns only when every worker has exited.
  lemma {:induction false} ClosedMeansJoined<T>(
      c: Config<T>, states: seq<State<T>>, actions: seq<Action>, readers: nat, k: nat)
    requires IsReachingRun(c, states, actions, readers) && k < |states| && states[k].drop.Closed?
    ensures forall w: nat | w < |states[k].workers| :: states[k].workers[w].pc.Exited?
  {
    hide Next;
    if k > 0 {
      assert states[k - 1 + 1] == Next(c, states[k - 1], actions[k - 1]);
      if states[k - 1].drop.Closed? {
        ClosedMeansJoined(c, states, actions, readers, k - 1);
      }
      ClosingIsAfterExits(c, states[k - 1], actions[k - 1]);
    }
  }

  lemma ClosingIsAfterExits<T>(c: Config<T>, s: State<T>, a: Action)
    requires Enabled(s, a) && Next(c, s, a).drop.Closed?
    requires s.drop.Closed? ==> forall w: nat | w < |s.workers| :: s.workers[w].pc.Exited?
    ensures forall w: nat | w < |Next(c, s, a).workers| :: Next(c, s, a).workers[w].pc.Exited?
  {
  }

  // A worker's compare-exchange succeeds exactly when its request is the one still pending, and then it
  // carries the index stored for that request, though it loaded the index Relaxed and may have slept
  // through later requests. A stale worker's always fails.
  lemma ClaimWinsOnlyCurrentRequest<T(!new)>(c: Config<T>, contents: seq<T>, s: State<T>, w: nat, pos: nat)
    requires Faithful(c, contents) && Reachable(c, s)
    requires WorkerEnabled(s, w, pos) && s.workers[w].pc.TryClaim?
    ensures var me := s.workers[w];
            && (s.wins[pos].value == Pending(me.seen) <==> |s.wins| == 3 * me.seen - 1)
            && (s.wins[pos].value == Pending(me.seen) ==>
                  me.seen == Requests(s) && me.index == s.idxs[me.seen]
                  && me.index < |contents| && me.value == Holds(contents[me.index]))
    ensures s.workers[w].seen < Requests(s) ==> s.wins[pos].value != Pending(s.workers[w].seen)
  {
    ReachableInv(c, contents, s);
    ClaimIffPending(c, contents, s, w, pos);
  }

  ghost predicate WritesSlot<T>(s: State<T>, w: nat) {
    w < |s.workers| && s.workers[w].pc.WriteSlot?
  }

  ghost predicate CopiesSlot<T>(s: State<T>, r: nat) {
    r < |s.readers| && s.readers[r].pc.CopySlot?
  }

  // The non-atomic slot is race-free: whoever is about to write it has seen every write and every copy
  // before, is alone in doing so, and no reader is about to copy; ...
  lemma SlotWritesDoNotRace<T(!new)>(c: Config<T>, contents: seq<T>, s: State<T>, w: nat)
    requires Faithful(c, contents) && Reachable(c, s) && WritesSlot(s, w)
    ensures s.workers[w].view.writes == |s.slot| && s.workers[w].view.copies == s.copies
    ensures forall v: nat | WritesSlot(s, v) :: v == w
    ensures forall r: nat :: !CopiesSlot(s, r)
    ensures |s.slot| == s.workers[w].seen - 1
  {
    ReachableInv(c, contents, s);
    assert WorkerOK(c, contents, s, s.workers[w]);
    forall r: nat | r < |s.readers| ensures !CopiesSlot(s, r) {
      assert ReaderOK(c, s, r);
    }
  }

  // ... whoever is about to copy it has seen every write, and finds it initialised with the value of the
  // request it made: the one write made for that request.
  lemma SlotCopiesDoNotRace<T(!new)>(c: Config<T>, contents: seq<T>, s: State<T>, r: nat)
    requires Faithful(c, contents) && Reachable(c, s) && CopiesSlot(s, r)
    ensures var me := s.readers[r];
            && me.view.writes == |s.slot| && s.copies == |s.slot| - 1
            && |s.slot| == me.request == Requests(s)
            && me.index < |contents| && s.slot[|s.slot| - 1] == Holds(contents[me.index])
    ensures forall q: nat | CopiesSlot(s, q) :: q == r
    ensures forall w: nat :: !WritesSlot(s, w)
  {
    ReachableInv(c, contents, s);
    assert ReaderOK(c, s, r);
    assert s.idxs[|s.slot| - 1 + 1] == s.readers[r].index;
    forall q: nat | CopiesSlot(s, q) ensures q == r {
      assert ReaderOK(c, s, q);
    }
    forall w: nat | w < |s.workers| ensures !WritesSlot(s, w) {
      assert WorkerOK(c, contents, s, s.workers[w]);
    }
  }

  // The thread that stores to a location has already seen that location's last store, so coherence
  // leaves its store no place but the end of the history, which is where the steps put it.
  lemma StoresFollowLatest<T(!new)>(c: Config<T>, contents: seq<T>, s: State<T>, w: nat, r: nat)
    requires Faithful(c, contents) && Reachable(c, s) && w < |s.workers| && r < |s.readers|
    ensures s.workers[w].pc.PublishReady? ==> s.workers[w].view.wins == |s.wins| - 1
    ensures s.readers[r].pc.Numbered? ==> s.readers[r].view.idxs == |s.idxs| - 1
    ensures s.readers[r].pc.IndexStored? ==> s.readers[r].view.wins == |s.wins| - 1
    ensures s.readers[r].pc.PendingStored? ==> s.readers[r].view.ids == |s.ids| - 1
  {
    ReachableInv(c, contents, s);
    assert WorkerOK(c, contents, s, s.workers[w]);
    assert ReaderOK(c, s, r);
  }

  // The worker's out-of-range skip is never taken: no published request is dropped.
  lemma LoadedIndexIsInRange<T(!new)>(c: Config<T>, contents: seq<T>, s: State<T>, w: nat, pos: nat)
    requires Faithful(c, contents) && Reachable(c, s) && WorkerEnabled(s, w, pos) && s.workers[w].pc.LoadIndex?
    ensures s.idxs[pos] < c.len && WorkerNext(c, s, w, pos).workers[w].pc.LoadValue?
  {
    ReachableInv(c, contents, s);
    assert WorkerOK(c, contents, s, s.workers[w]);
  }

  // No `read` sees shutdown: one is in progress only while the runtime is alive.
  lemma ReadNeverSeesShutdown<T(!new)>(c: Config<T>, contents: seq<T>, s: State<T>, r: nat, pos: nat)
    requires Faithful(c, contents) && Reachable(c, s) && ReaderEnabled(s, r, pos) && s.readers[r].pc.PollShutdown?
    ensures !s.shuts[pos].value && ReaderNext(s, r, pos).readers[r].pc.PollWinner?
  {
    ReachableInv(c, contents, s);
    assert ReaderOK(c, s, r);
  }

  // The id that drop adds was never issued, and no worker takes it up: one that has loaded it must see
  // the flag when it checks again, whichever store that load returns.
  lemma DropIdIsNeverServiced<T(!new)>(c: Config<T>, contents: seq<T>, s: State<T>, w: nat, pos: nat)
    requires Faithful(c, contents) && Reachable(c, s) && WorkerEnabled(s, w, pos)
    requires s.workers[w].pc.Recheck? && s.workers[w].pc.request > Requests(s)
    ensures s.workers[w].pc.request == s.nextId
    ensures s.shuts[pos].value && WorkerNext(c, s, w, pos).workers[w].pc.Exited?
  {
    ReachableInv(c, contents, s);
    assert WorkerOK(c, contents, s, s.workers[w]);
  }

  lemma SeenIdsWereIssued<T(!new)>(c: Config<T>, contents: seq<T>, s: State<T>, w: nat)
    requires Faithful(c, contents) && Reachable(c, s) && w < |s.workers|
    ensures s.workers[w].seen < s.nextId
  {
    ReachableInv(c, contents, s);
    assert WorkerOK(c, contents, s, s.workers[w]);
  }

  // winner_state only goes up: every store is greater than the one before, and they come in the order
  // pending k, claimed k, ready k, pending k + 1.
  lemma WinnerStateClimbs<T(!new)>(c: Config<T>, contents: seq<T>, s: State<T>, i: nat, j: nat)
    requires Faithful(c, contents) && Reachable(c, s) && i < j < |s.wins|
    ensures s.wins[i].value < s.wins[j].value
    ensures var k := (j + 2) / 3;
            s.wins[j].value == (if j % 3 == 1 then Pending(k) else if j % 3 == 2 then Claimed(k) else Ready(k))
  {
    ReachableInv(c, contents, s);
    var k := (j + 2) / 3;
    assert k <= Requests(s) && Requests(s) < s.nextId by {
      WinnersBelong(c, contents, s);
    }
    WinnerIsPending(j, k);
  }

  lemma WinnersBelong<T>(c: Config<T>, contents: seq<T>, s: State<T>)
    requires Inv(c, contents, s)
    ensures |s.wins| <= 3 * Requests(s) + 1 && Requests(s) < s.nextId
  {
  }

  lemma OneMoreStep<T>(c: Config<T>, states: seq<State<T>>, actions: seq<Action>, readers: nat, a: Action)
    requires IsReachingRun(c, states, actions, readers)
    requires Enabled(states[|actions|], a) && InBudget(Next(c, states[|actions|], a))
    ensures IsReachingRun(c, states + [Next(c, states[|actions|], a)], actions + [a], readers)
  {
    hide Next;
    hide Enabled;
    hide InBudget;
  }

  lemma PublishingStep<T>(c: Config<T>, s: State<T>, k: nat, a: Action)
    requires PublishedIn(c, s, k) && k < 7 && c.len > 0
    requires a == if k == 0 then WorkerStep(0, 0) else if k == 1 then Invoke(0, 0) else ReaderStep(0, 0)
    ensures Enabled(s, a) && InBudget(Next(c, s, a)) && PublishedIn(c, Next(c, s, a), k + 1)
  {
  }

  // Memory really is weak: here request 1 is published, and a worker's load of request_id may still return
  // either store.
  lemma LoadsMayBeStale<T(!new)>(c: Config<T>) returns (s: State<T>)
    requires c.workers > 0 && c.len > 0
    ensures Reachable(c, s) && s.workers != [] && s.workers[0].pc.LoadId?
    ensures |s.ids| == 2 && s.ids[0].value == 0 && s.ids[1].value == 1
    ensures WorkerEnabled(s, 0, 0) && WorkerEnabled(s, 0, 1)
  {
    hide Next;
    hide Enabled;
    var steps := [WorkerStep(0, 0), Invoke(0, 0)] + seq(5, _ => ReaderStep(0, 0));
    var states, actions := [Init(c, 1)], [];
    s := Init(c, 1);
    for k := 0 to |steps|
      invariant IsReachingRun(c, states, actions, 1) && states[|actions|] == s && |actions| == k
      invariant PublishedIn(c, s, k)
    {
      PublishingStep(c, s, k, steps[k]);
      OneMoreStep(c, states, actions, 1, steps[k]);
      s := Next(c, s, steps[k]);
      states, actions := states + [s], actions + [steps[k]];
    }
  }

  // How far the first k of its steps get.
  ghost predicate PublishedIn<T>(c: Config<T>, s: State<T>, k: nat) {
    && |s.workers| == c.workers > 0 && |s.readers| == 1
    && s.workers[0].view == BOTTOM && s.workers[0].pc == (if k == 0 then Top else LoadId)
    && s.shuts == [Message(false, BOTTOM)] && s.drop.Live?
    && s.nextId == (if k < 4 then 1 else 2)
    && s.lock == (if k < 3 then None else Some(0))
    && |s.ids| == (if k < 7 then 1 else 2) && s.ids[0] == Message(0, BOTTOM)
    && (k == 7 ==> s.ids[1].value == 1)
    && s.readers[0].pc ==
       (if k < 2 then Idle else if k == 2 then Queued else if k == 3 then Entered else if k == 4 then Numbered
        else if k == 5 then IndexStored else if k == 6 then PendingStored else PollShutdown)
    && (k >= 4 ==> s.readers[0].request == 1)
  }

  // From s to t nothing stored is lost or changed, and no worker forgets what it took up.
  ghost predicate OnlyAdds<T>(s: State<T>, t: State<T>) {
    && s.ids <= t.ids && s.idxs <= t.idxs && s.wins <= t.wins && s.shuts <= t.shuts
    && s.slot <= t.slot && s.copies <= t.copies && s.answers <= t.answers
    && |t.workers| == |s.workers|
    && forall w: nat | w < |s.workers| :: t.workers[w].seen >= s.workers[w].seen
  }

  // A worker takes up only ids above every one it took up before.
  lemma WorkerStepOnlyAdds<T>(c: Config<T>, contents: seq<T>, s: State<T>, w: nat, pos: nat)
    requires Inv(c, contents, s) && WorkerEnabled(s, w, pos)
    ensures var t := WorkerNext(c, s, w, pos);
            && OnlyAdds(s, t)
            && (t.workers[w].pc.LoadIndex? ==> t.workers[w].seen > s.workers[w].seen)
  {
    hide Control;
    hide Messages;
    assert WorkerOK(c, contents, s, s.workers[w]);
  }

  lemma StepOnlyAdds<T>(c: Config<T>, contents: seq<T>, s: State<T>, a: Action)
    requires Inv(c, contents, s) && Enabled(s, a)
    ensures OnlyAdds(s, Next(c, s, a))
  {
    hide Inv;
    hide WorkerNext;
    hide OnlyAdds;
    match a
    case WorkerStep(w, pos) => WorkerStepOnlyAdds(c, contents, s, w, pos);
    case _ => OtherStepOnlyAdds(c, s, a);
  }

  lemma OtherStepOnlyAdds<T>(c: Config<T>, s: State<T>, a: Action)
    requires Enabled(s, a) && !a.WorkerStep?
    ensures OnlyAdds(s, Next(c, s, a))
  {
    hide WorkerNext;
  }

  lemma {:induction false} RunOnlyAdds<T>(
      c: Config<T>, contents: seq<T>, states: seq<State<T>>, actions: seq<Action>, readers: nat, i: nat, j: nat)
    requires Faithful(c, contents) && IsReachingRun(c, states, actions, readers) && i <= j < |states|
    ensures OnlyAdds(states[i], states[j])
    decreases j
  {
    hide Inv;
    hide OnlyAdds;
    hide Next;
    if i == j {
      AddsNothing(states[i]);
    } else {
      RunOnlyAdds(c, contents, states, actions, readers, i, j - 1);
      RunKeepsInv(c, contents, states, actions, readers, j - 1);
      StepOnlyAdds(c, contents, states[j - 1], actions[j - 1]);
      assert states[j - 1 + 1] == Next(c, states[j - 1], actions[j - 1]);
      OnlyAddsTransitive(states[i], states[j - 1], states[j]);
    }
  }

  lemma AddsNothing<T>(s: State<T>)
    ensures OnlyAdds(s, s)
  {
  }

  lemma OnlyAddsTransitive<T>(s: State<T>, t: State<T>, u: State<T>)
    requires OnlyAdds(s, t) && OnlyAdds(t, u)
    ensures OnlyAdds(s, u)
  {
    forall w: nat | w < |s.workers| ensures u.workers[w].seen >= s.workers[w].seen {
      assert t.workers[w].seen >= s.workers[w].seen;
    }
  }

  // The worker has competed for request k, or gone on to a later one.
  predicate Past<T>(me: Worker<T>, k: nat) {
    me.seen > k || (me.seen == k && !InFlight(me))
  }

  lemma WorkerKeepsPast<T>(c: Config<T>, contents: seq<T>, s: State<T>, w: nat, pos: nat, v: nat, k: nat)
    requires Inv(c, contents, s) && WorkerEnabled(s, w, pos) && v < |s.workers| && Past(s.workers[v], k)
    ensures var t := WorkerNext(c, s, w, pos);
            v < |t.workers| && Past(t.workers[v], k)
  {
    hide Control;
    hide Messages;
    assert WorkerOK(c, contents, s, s.workers[w]);
  }

  lemma StepKeepsPast<T>(c: Config<T>, contents: seq<T>, s: State<T>, a: Action, w: nat, k: nat)
    requires Inv(c, contents, s) && Enabled(s, a) && w < |s.workers| && Past(s.workers[w], k)
    ensures w < |Next(c, s, a).workers| && Past(Next(c, s, a).workers[w], k)
  {
    hide Inv;
    hide WorkerNext;
    match a
    case WorkerStep(v, pos) => WorkerKeepsPast(c, contents, s, v, pos, w, k);
    case _ =>
  }

  lemma ClaimIsPast<T>(c: Config<T>, s: State<T>, w: nat, pos: nat)
    requires WorkerEnabled(s, w, pos) && s.workers[w].pc.TryClaim?
    ensures var t := WorkerNext(c, s, w, pos);
            w < |t.workers| && Past(t.workers[w], s.workers[w].seen)
  {
  }

  predicate Attempts<T>(s: State<T>, a: Action, w: nat) {
    a.WorkerStep? && a.worker == w && w < |s.workers| && s.workers[w].pc.TryClaim?
  }

  // A worker attempts each request at most once: in any run, its compare-exchanges are for ever later ones.
  lemma AttemptsClimb<T>(
      c: Config<T>, contents: seq<T>, states: seq<State<T>>, actions: seq<Action>, readers: nat,
      w: nat, i: nat, j: nat)
    requires Faithful(c, contents) && IsReachingRun(c, states, actions, readers) && i < j < |actions|
    requires Attempts(states[i], actions[i], w) && Attempts(states[j], actions[j], w)
    ensures states[i].workers[w].seen < states[j].workers[w].seen
  {
    hide Inv;
    hide WorkerNext;
    var seen := states[i].workers[w].seen;
    ClaimIsPast(c, states[i], w, actions[i].pos);
    assert states[i + 1] == Next(c, states[i], actions[i]);
    for n := i + 1 to j
      invariant w < |states[n].workers| && Past(states[n].workers[w], seen)
    {
      RunKeepsInv(c, contents, states, actions, readers, n);
      StepKeepsPast(c, contents, states[n], actions[n], w, seen);
      assert states[n + 1] == Next(c, states[n], actions[n]);
    }
  }

  // The shift keeps an id's low 62 bits, so tags collide exactly when ids agree modulo 2^62, and below
  // that limit they never do.
  lemma TagsCollideIff(a: nat, b: nat)
    ensures Pending(a) == Pending(b) <==> a % ID_LIMIT == b % ID_LIMIT
    ensures Pending(a) != Claimed(b) && Pending(a) != Ready(b) && Claimed(a) != Ready(b)
  {
    hide Pending;
    ShiftKeepsLowBits(a);
    ShiftKeepsLowBits(b);
  }

  lemma ShiftKeepsLowBits(id: nat)
    ensures Pending(id) == 4 * (id % ID_LIMIT)
  {
    var q, r := id / ID_LIMIT, id % ID_LIMIT;
    assert id * 4 == q * WORD + 4 * r;
    DivModUnique(q, WORD, 4 * r);
  }

  // On 64-bit words, or-ing a phase into a shifted id adds it.
  lemma TagsAreShiftedWords(id: bv64)
    ensures ((id << 2) | 1) == (id << 2) + 1 && ((id << 2) | 2) == (id << 2) + 2
    ensures id < 0x4000_0000_0000_0000 ==> (id << 2) >> 2 == id
  {
  }
}
