// The protocol cannot get stuck: while a request is out, every worker step that is not a fruitless poll
// brings its answer nearer, and shutdown drains in a few steps of each worker.

module Progress {
  import opened Errors
  import opened Invariant
  import opened Protocol
  import opened Safety
  import opened Steps

  // Request k has been published; its tag is pending, claimed or ready.
  ghost predicate Out<T>(s: State<T>, k: int) {
    k >= 1 && s.drop.Live? && |s.ids| == k + 1 && |s.idxs| == k + 1 && 3 * k - 1 <= |s.wins| <= 3 * k + 1
  }

  ghost predicate AnswerReady<T>(s: State<T>, k: int) {
    |s.wins| == 3 * k + 1
  }

  // The number of steps a worker may still take before it can only poll. A worker that has not taken up
  // request k may first work through stale ids, seven steps each.
  function WorkerRank<T>(me: Worker<T>, k: int): int {
    match me.pc
    case Top | LoadId => 7 * (k - me.seen)
    case Recheck(id) => 7 * (k - id) + 6
    case LoadIndex => 7 * (k - me.seen) + 5
    case LoadValue => 7 * (k - me.seen) + 4
    case TryClaim => 7 * (k - me.seen) + 3
    case WriteSlot => 7 * (k - me.seen) + 2
    case PublishReady => 7 * (k - me.seen) + 1
    case Exited => 0
  }

  function Rank<T>(workers: seq<Worker<T>>, k: int): int {
    if workers == [] then 0 else WorkerRank(workers[0], k) + Rank(workers[1..], k)
  }

  // A step that only looks: the shutdown check, or a load of request_id that brings nothing new.
  predicate IsPoll<T>(s: State<T>, w: nat, pos: nat)
    requires WorkerEnabled(s, w, pos)
  {
    var me := s.workers[w];
    me.pc.Top? || (me.pc.LoadId? && (s.ids[pos].value == 0 || s.ids[pos].value == me.seen))
  }

  lemma {:induction false} RankChange<T>(workers: seq<Worker<T>>, w: nat, me: Worker<T>, k: int)
    requires w < |workers|
    ensures Rank(workers[w := me], k) == Rank(workers, k) - WorkerRank(workers[w], k) + WorkerRank(me, k)
  {
    var changed := workers[w := me];
    if w == 0 {
      assert changed[1..] == workers[1..];
    } else {
      assert changed[1..] == workers[1..][w - 1 := me];
      RankChange(workers[1..], w - 1, me, k);
    }
  }

  lemma {:induction false} RankIsSum<T>(workers: seq<Worker<T>>, k: int)
    requires forall w: nat | w < |workers| :: WorkerRank(workers[w], k) >= 0
    ensures Rank(workers, k) >= 0
    ensures Rank(workers, k) == 0 ==> forall w: nat | w < |workers| :: WorkerRank(workers[w], k) == 0
  {
    if workers != [] {
      forall w: nat | w < |workers[1..]| ensures workers[1..][w] == workers[w + 1] {
      }
      RankIsSum(workers[1..], k);
      forall w: nat | Rank(workers, k) == 0 && w < |workers| ensures WorkerRank(workers[w], k) == 0 {
        if w > 0 { assert workers[1..][w - 1] == workers[w]; }
      }
    }
  }

  lemma RanksAreNatural<T>(c: Config<T>, contents: seq<T>, s: State<T>, k: int)
    requires Inv(c, contents, s) && Out(s, k)
    ensures forall w: nat | w < |s.workers| :: WorkerRank(s.workers[w], k) >= 0
    ensures Rank(s.workers, k) >= 0
  {
    hide Control;
    hide Messages;
    forall w: nat | w < |s.workers| ensures WorkerRank(s.workers[w], k) >= 0 {
      assert WorkerOK(c, contents, s, s.workers[w]);
    }
    RankIsSum(s.workers, k);
  }

  // Every worker step while request k is out lowers the rank, except a poll, which leaves it alone.
  lemma WorkerStepLowersRank<T>(c: Config<T>, contents: seq<T>, s: State<T>, w: nat, pos: nat, k: int)
    requires Inv(c, contents, s) && Out(s, k) && WorkerEnabled(s, w, pos)
    ensures var t := WorkerNext(c, s, w, pos);
            if IsPoll(s, w, pos) then Rank(t.workers, k) == Rank(s.workers, k)
            else Rank(t.workers, k) < Rank(s.workers, k)
  {
    var t := WorkerNext(c, s, w, pos);
    OneWorkerRank(c, contents, s, w, pos, k);
    assert t.workers == s.workers[w := t.workers[w]];
    RankChange(s.workers, w, t.workers[w], k);
  }

  lemma OneWorkerRank<T>(c: Config<T>, contents: seq<T>, s: State<T>, w: nat, pos: nat, k: int)
    requires Inv(c, contents, s) && Out(s, k) && WorkerEnabled(s, w, pos)
    ensures var t := WorkerNext(c, s, w, pos);
            if IsPoll(s, w, pos) then WorkerRank(t.workers[w], k) == WorkerRank(s.workers[w], k)
            else WorkerRank(t.workers[w], k) < WorkerRank(s.workers[w], k)
  {
    hide Control;
    hide Messages;
    assert WorkerOK(c, contents, s, s.workers[w]);
  }

  // A load of request_id that returns its latest store is a poll only for a worker that has already
  // taken request k up.
  lemma FreshLoadIsFruitful<T(!new)>(c: Config<T>, contents: seq<T>, s: State<T>, w: nat, k: int)
    requires Faithful(c, contents) && Reachable(c, s) && Out(s, k) && w < |s.workers| && s.workers[w].pc.LoadId?
    ensures WorkerEnabled(s, w, |s.ids| - 1)
    ensures IsPoll(s, w, |s.ids| - 1) <==> s.workers[w].seen == k
  {
    ReachableInv(c, contents, s);
    assert WorkerOK(c, contents, s, s.workers[w]);
  }

  // While request k is out, each worker has yet to take it up, or is in flight with its index, or holds
  // the claim, or has already competed for it, and then somebody has claimed it.
  lemma WhereWorkersAre<T(!new)>(c: Config<T>, contents: seq<T>, s: State<T>, w: nat, k: int)
    requires Faithful(c, contents) && Reachable(c, s) && Out(s, k) && w < |s.workers|
    ensures var me := s.workers[w];
            || me.seen < k
            || (me.seen == k && InFlight(me) && (me.pc.LoadIndex? || me.index == s.idxs[k]))
            || (me.seen == k && Claims(me) && |s.wins| == 3 * k)
            || (me.seen == k && (me.pc.Top? || me.pc.LoadId?) && |s.wins| >= 3 * k)
  {
    ReachableInv(c, contents, s);
    assert WorkerOK(c, contents, s, s.workers[w]);
  }

  lemma RankZeroMeansReady<T>(c: Config<T>, contents: seq<T>, s: State<T>, k: int)
    requires Faithful(c, contents) && Inv(c, contents, s) && Out(s, k) && Rank(s.workers, k) == 0
    ensures AnswerReady(s, k)
  {
    hide Control;
    hide Messages;
    RanksAreNatural(c, contents, s, k);
    RankIsSum(s.workers, k);
    assert WorkerRank(s.workers[0], k) == 0 && WorkerOK(c, contents, s, s.workers[0]);
    forall w: nat | w < |s.workers| ensures !Claims(s.workers[w]) {
      assert WorkerOK(c, contents, s, s.workers[w]) && WorkerRank(s.workers[w], k) == 0;
    }
  }

  // What the steps between states i and n of a run are worth together.
  ghost function Total<T>(
      worth: (State<T>, Action) -> nat, states: seq<State<T>>, actions: seq<Action>, i: nat, n: nat): nat
    requires |states| == |actions| + 1 && i <= n <= |actions|
  {
    if n == i then 0 else Total(worth, states, actions, i, n - 1) + worth(states[n - 1], actions[n - 1])
  }

  // One for a worker step that is not a poll.
  predicate IsFruitful<T>(s: State<T>, a: Action) {
    a.WorkerStep? && WorkerEnabled(s, a.worker, a.pos) && !IsPoll(s, a.worker, a.pos)
  }

  function Fruitful<T>(s: State<T>, a: Action): nat { if IsFruitful(s, a) then 1 else 0 }

  lemma StepRank<T>(c: Config<T>, contents: seq<T>, s: State<T>, a: Action, k: int)
    requires Inv(c, contents, s) && Out(s, k) && Enabled(s, a)
    ensures Rank(Next(c, s, a).workers, k) + Fruitful(s, a) <= Rank(s.workers, k)
  {
    hide Inv;
    hide WorkerNext;
    match a
    case WorkerStep(w, pos) => WorkerStepLowersRank(c, contents, s, w, pos, k);
    case _ =>
  }

  // So in any stretch of a run during which request k stays out, whatever the other threads do, the
  // workers take at most Rank steps other than polls.
  lemma {:induction false} FruitfulStepsAreBounded<T>(
      c: Config<T>, contents: seq<T>, states: seq<State<T>>, actions: seq<Action>, readers: nat,
      k: int, i: nat, n: nat)
    requires Faithful(c, contents) && IsReachingRun(c, states, actions, readers) && i <= n <= |actions|
    requires forall j | i <= j <= n :: Out(states[j], k)
    ensures Total(Fruitful, states, actions, i, n) + Rank(states[n].workers, k) <= Rank(states[i].workers, k)
    decreases n
  {
    hide Inv;
    hide Next;
    hide Fruitful;
    if n > i {
      FruitfulStepsAreBounded(c, contents, states, actions, readers, k, i, n - 1);
      RunKeepsInv(c, contents, states, actions, readers, n - 1);
      assert states[n - 1 + 1] == Next(c, states[n - 1], actions[n - 1]);
      StepRank(c, contents, states[n - 1], actions[n - 1], k);
    }
  }

  // Workers about to check for shutdown that have yet to take request k up.
  function Late<T>(workers: seq<Worker<T>>, k: int): nat {
    if workers == [] then 0 else (if IsLate(workers[0], k) then 1 else 0) + Late(workers[1..], k)
  }

  predicate IsLate<T>(me: Worker<T>, k: int) { me.pc.Top? && me.seen < k }

  lemma {:induction false} LateChange<T>(workers: seq<Worker<T>>, w: nat, me: Worker<T>, k: int)
    requires w < |workers|
    ensures Late(workers[w := me], k)
         == Late(workers, k) - (if IsLate(workers[w], k) then 1 else 0) + (if IsLate(me, k) then 1 else 0)
  {
    var changed := workers[w := me];
    if w == 0 {
      assert changed[1..] == workers[1..];
    } else {
      assert changed[1..] == workers[1..][w - 1 := me];
      LateChange(workers[1..], w - 1, me, k);
    }
  }

  function Potential<T>(workers: seq<Worker<T>>, k: int): int { 2 * Rank(workers, k) + Late(workers, k) }

  // A poll by a worker that has taken request k up: all it can do until the next request.
  predicate IsIdle<T>(s: State<T>, w: nat, pos: nat, k: int)
    requires WorkerEnabled(s, w, pos)
  {
    IsPoll(s, w, pos) && s.workers[w].seen == k
  }

  // A load of request_id that does not return its latest store.
  predicate IsStale<T>(s: State<T>, w: nat, pos: nat)
    requires WorkerEnabled(s, w, pos)
  {
    s.workers[w].pc.LoadId? && pos < |s.ids| - 1
  }

  // Apart from stale loads, every worker step while request k is out brings its answer nearer, shutdown
  // checks included, except those of workers that have done their part.
  lemma FreshStepLowersPotential<T>(c: Config<T>, contents: seq<T>, s: State<T>, w: nat, pos: nat, k: int)
    requires Inv(c, contents, s) && Out(s, k) && WorkerEnabled(s, w, pos)
    ensures var t := WorkerNext(c, s, w, pos);
            && (IsIdle(s, w, pos, k) ==> Potential(t.workers, k) == Potential(s.workers, k))
            && (!IsIdle(s, w, pos, k) && !IsStale(s, w, pos) ==> Potential(t.workers, k) < Potential(s.workers, k))
            && Potential(t.workers, k) <= Potential(s.workers, k) + 1
  {
    hide Inv;
    var t := WorkerNext(c, s, w, pos);
    WorkerStepLowersRank(c, contents, s, w, pos, k);
    OneWorkerLateness(c, contents, s, w, pos, k);
    assert t.workers == s.workers[w := t.workers[w]];
    LateChange(s.workers, w, t.workers[w], k);
  }

  lemma OneWorkerLateness<T>(c: Config<T>, contents: seq<T>, s: State<T>, w: nat, pos: nat, k: int)
    requires Inv(c, contents, s) && Out(s, k) && WorkerEnabled(s, w, pos)
    ensures var me := s.workers[w];
            && me.seen <= k && (me.pc.LoadId? && pos == |s.ids| - 1 && me.seen < k ==> !IsPoll(s, w, pos))
            && (me.pc.Top? || (me.pc.LoadId? && me.seen == k) ==> !IsLate(WorkerNext(c, s, w, pos).workers[w], k))
  {
    hide Control;
    hide Messages;
    assert WorkerOK(c, contents, s, s.workers[w]);
  }

  function Busy<T>(k: int): (State<T>, Action) -> nat {
    (s: State<T>, a: Action) =>
      if a.WorkerStep? && WorkerEnabled(s, a.worker, a.pos) && !IsIdle(s, a.worker, a.pos, k) then 1 else 0
  }

  function Stale<T>(s: State<T>, a: Action): nat {
    if a.WorkerStep? && WorkerEnabled(s, a.worker, a.pos) && IsStale(s, a.worker, a.pos) then 1 else 0
  }

  lemma StepPotential<T>(c: Config<T>, contents: seq<T>, s: State<T>, a: Action, k: int)
    requires Inv(c, contents, s) && Out(s, k) && Enabled(s, a)
    ensures Potential(Next(c, s, a).workers, k) + Busy(k)(s, a) <= Potential(s.workers, k) + 2 * Stale(s, a)
  {
    hide Inv;
    hide WorkerNext;
    hide Potential;
    hide IsIdle;
    hide IsStale;
    match a
    case WorkerStep(w, pos) => FreshStepLowersPotential(c, contents, s, w, pos, k);
    case _ =>
  }

  // So in any stretch of a run during which request k stays out, the workers that have yet to do their part
  // take a bounded number of steps, save two for each load that misses the latest store.
  lemma {:induction false} BusyStepsAreBounded<T>(
      c: Config<T>, contents: seq<T>, states: seq<State<T>>, actions: seq<Action>, readers: nat,
      k: int, i: nat, n: nat)
    requires Faithful(c, contents) && IsReachingRun(c, states, actions, readers) && i <= n <= |actions|
    requires forall j | i <= j <= n :: Out(states[j], k)
    ensures 0 <= Potential(states[n].workers, k)
    ensures Total(Busy(k), states, actions, i, n) + Potential(states[n].workers, k)
         <= Potential(states[i].workers, k) + 2 * Total(Stale, states, actions, i, n)
    decreases n
  {
    hide Inv;
    hide Next;
    hide Busy;
    hide Stale;
    RunKeepsInv(c, contents, states, actions, readers, n);
    RanksAreNatural(c, contents, states[n], k);
    if n > i {
      BusyStepsAreBounded(c, contents, states, actions, readers, k, i, n - 1);
      RunKeepsInv(c, contents, states, actions, readers, n - 1);
      assert states[n - 1 + 1] == Next(c, states[n - 1], actions[n - 1]);
      StepPotential(c, contents, states[n - 1], actions[n - 1], k);
    }
  }

  lemma ConsRun<T>(c: Config<T>, s: State<T>, a: Action, states: seq<State<T>>, actions: seq<Action>)
    requires Enabled(s, a) && IsRun(c, states, actions) && states[0] == Next(c, s, a)
    ensures IsRun(c, [s] + states, [a] + actions)
  {
    var ss, aa := [s] + states, [a] + actions;
    forall k | 0 <= k < |aa| ensures Enabled(ss[k], aa[k]) && ss[k + 1] == Next(c, ss[k], aa[k]) {
      if k > 0 {
        assert ss[k] == states[k - 1] && aa[k] == actions[k - 1] && ss[k + 1] == states[k - 1 + 1];
      }
    }
  }

  // Some worker can always make headway: one step, or a poll of shutdown and then a fresh load.
  lemma Headway<T>(c: Config<T>, contents: seq<T>, s: State<T>, k: int) returns (w: nat, pos: nat)
    requires Faithful(c, contents) && Inv(c, contents, s) && InBudget(s) && Out(s, k) && !AnswerReady(s, k)
    ensures WorkerEnabled(s, w, pos)
    ensures var t := WorkerNext(c, s, w, pos);
            && Out(t, k) && Inv(c, contents, t) && t.nextId == s.nextId && t.readers == s.readers && t.lock == s.lock
            && Potential(t.workers, k) < Potential(s.workers, k)
  {
    w := BusyWorker(c, contents, s, k);
    var me := s.workers[w];
    pos := if me.pc.Top? || me.pc.Recheck? then 0 else if me.pc.LoadId? then |s.ids| - 1
           else if me.pc.LoadIndex? then |s.idxs| - 1 else |s.wins| - 1;
    FreshStepEnabled(c, contents, s, w, pos, k);
    WorkerStepKeeps(c, contents, s, w, pos);
    FreshStepLowersPotential(c, contents, s, w, pos, k);
  }

  lemma BusyWorker<T>(c: Config<T>, contents: seq<T>, s: State<T>, k: int) returns (w: nat)
    requires Faithful(c, contents) && Inv(c, contents, s) && Out(s, k) && !AnswerReady(s, k)
    ensures w < |s.workers| && WorkerRank(s.workers[w], k) > 0
  {
    hide Inv;
    RanksAreNatural(c, contents, s, k);
    if forall v: nat | v < |s.workers| :: WorkerRank(s.workers[v], k) == 0 {
      ZeroRanks(s.workers, k);
      RankZeroMeansReady(c, contents, s, k);
    }
    w :| w < |s.workers| && WorkerRank(s.workers[w], k) != 0;
  }

  lemma {:induction false} ZeroRanks<T>(workers: seq<Worker<T>>, k: int)
    requires forall v: nat | v < |workers| :: WorkerRank(workers[v], k) == 0
    ensures Rank(workers, k) == 0
  {
    if workers != [] {
      forall v: nat | v < |workers[1..]| ensures workers[1..][v] == workers[v + 1] {
      }
      ZeroRanks(workers[1..], k);
    }
  }

  lemma FreshStepEnabled<T>(c: Config<T>, contents: seq<T>, s: State<T>, w: nat, pos: nat, k: int)
    requires Inv(c, contents, s) && Out(s, k) && w < |s.workers| && WorkerRank(s.workers[w], k) > 0
    requires var me := s.workers[w];
             pos == (if me.pc.Top? || me.pc.Recheck? then 0 else if me.pc.LoadId? then |s.ids| - 1
                     else if me.pc.LoadIndex? then |s.idxs| - 1 else |s.wins| - 1)
    ensures WorkerEnabled(s, w, pos) && !IsStale(s, w, pos) && !IsIdle(s, w, pos, k)
    ensures var t := WorkerNext(c, s, w, pos);
            Out(t, k) && t.nextId == s.nextId && t.readers == s.readers && t.lock == s.lock
  {
    hide Messages;
    assert WorkerOK(c, contents, s, s.workers[w]);
  }

  // From every reachable state in which request k is out, the workers alone can answer it.
  lemma {:induction false} WorkersAnswer<T>(c: Config<T>, contents: seq<T>, s: State<T>, k: int)
    returns (states: seq<State<T>>, actions: seq<Action>)
    requires Faithful(c, contents) && Inv(c, contents, s) && InBudget(s) && Out(s, k)
    ensures IsRun(c, states, actions) && states[0] == s
    ensures forall a | a in actions :: a.WorkerStep?
    ensures |actions| <= Potential(s.workers, k)
    ensures forall j | 0 <= j < |states| :: InBudget(states[j])
    ensures var t := states[|states| - 1];
            && Inv(c, contents, t) && InBudget(t) && Out(t, k) && AnswerReady(t, k)
            && t.readers == s.readers && t.lock == s.lock && t.nextId == s.nextId
    decreases Potential(s.workers, k)
  {
    hide Inv;
    hide WorkerNext;
    RanksAreNatural(c, contents, s, k);
    if AnswerReady(s, k) {
      states, actions := [s], [];
    } else {
      var w, pos := Headway(c, contents, s, k);
      var t := WorkerNext(c, s, w, pos);
      RanksAreNatural(c, contents, t, k);
      states, actions := WorkersAnswer(c, contents, t, k);
      ConsRun(c, s, WorkerStep(w, pos), states, actions);
      states, actions := [s] + states, [WorkerStep(w, pos)] + actions;
    }
  }

  // A run in which nobody makes a new call and no id above the limit is issued.
  ghost predicate IsQuietRun<T>(c: Config<T>, states: seq<State<T>>, actions: seq<Action>) {
    && IsRun(c, states, actions)
    && (forall k | 0 <= k < |states| :: InBudget(states[k]))
    && forall k | 0 <= k < |actions| :: !actions[k].Invoke?
  }

  // Some quiet run leads from s to t.
  ghost predicate Reaches<T(!new)>(c: Config<T>, s: State<T>, t: State<T>) {
    exists states: seq<State<T>>, actions: seq<Action> ::
      IsQuietRun(c, states, actions) && states[0] == s && states[|states| - 1] == t
  }

  lemma ReachesNext<T(!new)>(c: Config<T>, s: State<T>, a: Action)
    requires Enabled(s, a) && !a.Invoke? && InBudget(s) && InBudget(Next(c, s, a))
    ensures Reaches(c, s, Next(c, s, a))
  {
    var t := Next(c, s, a);
    assert IsRun(c, [t], []);
    ConsRun(c, s, a, [t], []);
    assert IsQuietRun(c, [s] + [t], [a] + []) && ([s] + [t])[1] == t;
  }

  lemma {:induction false} RunsJoin<T>(
      c: Config<T>, first: seq<State<T>>, firstActions: seq<Action>, rest: seq<State<T>>, restActions: seq<Action>)
    requires IsRun(c, first, firstActions) && IsRun(c, rest, restActions) && first[|first| - 1] == rest[0]
    ensures var states := first + rest[1..];
            IsRun(c, states, firstActions + restActions) && states[|states| - 1] == rest[|rest| - 1]
  {
    hide Next;
    hide Enabled;
    var states, actions := first + rest[1..], firstActions + restActions;
    forall k | 0 <= k < |actions|
      ensures Enabled(states[k], actions[k]) && states[k + 1] == Next(c, states[k], actions[k])
    {
      if k < |firstActions| {
        assert states[k] == first[k] && states[k + 1] == first[k + 1];
      } else {
        var j := k - |firstActions|;
        assert states[k] == rest[j] && states[k + 1] == rest[j + 1] && actions[k] == restActions[j];
      }
    }
  }

  lemma ReachesTransitive<T(!new)>(c: Config<T>, s: State<T>, t: State<T>, u: State<T>)
    requires Reaches(c, s, t) && Reaches(c, t, u)
    ensures Reaches(c, s, u)
  {
    hide Next;
    hide Enabled;
    hide InBudget;
    var a, aa :| IsQuietRun(c, a, aa) && a[0] == s && a[|a| - 1] == t;
    var b, bb :| IsQuietRun(c, b, bb) && b[0] == t && b[|b| - 1] == u;
    RunsJoin(c, a, aa, b, bb);
    assert IsQuietRun(c, a + b[1..], aa + bb);
  }

  // The steps the mutex holder still has to take, once its answer is ready.
  function HolderRank<T>(me: Reader<T>): nat {
    match me.pc
    case Entered => 8
    case Numbered => 7
    case IndexStored => 6
    case PendingStored => 5
    case PollShutdown => 4
    case PollWinner => 3
    case CopySlot => 2
    case Leaving(_) => 1
    case _ => 0
  }

  predicate Polling<T>(me: Reader<T>) { me.pc.PollShutdown? || me.pc.PollWinner? }

  ghost predicate OthersWait<T>(s: State<T>, t: State<T>, r: nat) {
    |t.readers| == |s.readers| && forall q | 0 <= q < |s.readers| && q != r :: t.readers[q] == s.readers[q]
  }

  // The holder's step that reads the latest stores.
  lemma HolderStep<T>(c: Config<T>, contents: seq<T>, s: State<T>, r: nat) returns (a: Action)
    requires Faithful(c, contents) && Inv(c, contents, s) && InBudget(s)
    requires r < |s.readers| && s.lock == Some(r)
    requires s.readers[r].pc.Entered? ==> s.nextId < ID_LIMIT
    requires Polling(s.readers[r]) ==> AnswerReady(s, s.readers[r].request)
    requires !s.readers[r].pc.Leaving?
    ensures Enabled(s, a)
    ensures var t := Next(c, s, a);
            && Inv(c, contents, t) && InBudget(t) && t.lock == Some(r) && t.answers == s.answers
            && OthersWait(s, t, r) && t.nextId <= s.nextId + (if s.readers[r].pc.Entered? then 1 else 0)
            && t.drop == s.drop && a.ReaderStep?
            && t.readers[r].index == s.readers[r].index && !t.readers[r].pc.Entered?
            && HolderRank(t.readers[r]) < HolderRank(s.readers[r])
            && (Polling(s.readers[r]) && Polling(t.readers[r]) ==> AnswerReady(t, t.readers[r].request))
  {
    hide WorkerOK;
    hide OneClaimer;
    hide IdOK;
    hide Messages;
    hide AnswersOK;
    var me := s.readers[r];
    var pos := if me.pc.PollWinner? then |s.wins| - 1 else 0;
    a := ReaderStep(r, pos);
    assert ReaderOK(c, s, r);
    if me.pc.PollWinner? {
      WinnerIsPending(|s.wins| - 1, me.request);
    }
    ReaderKeeps(c, contents, s, r, pos);
  }

  // Whoever holds the mutex can always go on to return, with the right answer.
  lemma {:induction false} HolderCanReturn<T(!new)>(c: Config<T>, contents: seq<T>, s: State<T>, r: nat)
    returns (t: State<T>)
    requires Faithful(c, contents) && Inv(c, contents, s) && InBudget(s)
    requires r < |s.readers| && s.lock == Some(r)
    requires s.readers[r].pc.Entered? ==> s.nextId < ID_LIMIT
    ensures Reaches(c, s, t) && Inv(c, contents, t) && InBudget(t) && t.lock == None
    ensures OthersWait(s, t, r) && t.nextId <= s.nextId + (if s.readers[r].pc.Entered? then 1 else 0)
    ensures t.drop == s.drop && t.readers[r].pc.Idle?
    ensures var index := s.readers[r].index;
            t.answers == s.answers + [Answer(r, index, Lookup(contents, index))]
    decreases HolderRank(s.readers[r]), !AnswerReady(s, s.readers[r].request)
  {
    hide Inv;
    hide Reaches;
    if s.readers[r].pc.Leaving? {
      LeavingReturns(c, contents, s, r);
      LeavingKeeps(c, contents, s, r, 0);
      ReachesNext(c, s, ReaderStep(r, 0));
      t := ReaderNext(s, r, 0);
    } else if Polling(s.readers[r]) && !AnswerReady(s, s.readers[r].request) {
      var u := AnswerComes(c, contents, s, r);
      t := HolderCanReturn(c, contents, u, r);
      ReachesTransitive(c, s, u, t);
    } else {
      var a := HolderStep(c, contents, s, r);
      ReachesNext(c, s, a);
      t := HolderCanReturn(c, contents, Next(c, s, a), r);
      ReachesTransitive(c, s, Next(c, s, a), t);
    }
  }

  // From every reachable state, every call in progress can go on to return what indexing the contents gives,
  // one that still waits for the mutex included. (Two more ids must be left: one for the mutex holder, one
  // for the call.)
  lemma CallCanReturn<T(!new)>(c: Config<T>, contents: seq<T>, s: State<T>, r: nat) returns (t: State<T>)
    requires Faithful(c, contents) && Inv(c, contents, s) && s.nextId + 2 <= ID_LIMIT
    requires r < |s.readers| && !s.readers[r].pc.Idle?
    ensures Reaches(c, s, t) && Inv(c, contents, t) && InBudget(t) && t.lock == None && t.drop == s.drop
    ensures |t.readers| == |s.readers| && t.readers[r].pc.Idle?
    ensures t.nextId <= s.nextId + (if s.lock == None then 1 else 2)
    ensures s.lock == None ==> OthersWait(s, t, r)
    ensures var index := s.readers[r].index;
            t.answers != [] && t.answers[|t.answers| - 1] == Answer(r, index, Lookup(contents, index))
  {
    hide Inv;
    hide Reaches;
    if s.lock == Some(r) {
      t := HolderCanReturn(c, contents, s, r);
    } else {
      QueuedWaits(c, contents, s, r);
      var u := s;
      ReachesItself(c, s);
      if s.lock.Some? {
        u := HolderCanReturn(c, contents, s, s.lock.value);
      }
      var v := ReaderNext(u, r, 0);
      QueuedKeeps(c, contents, u, r, 0);
      ReachesNext(c, u, ReaderStep(r, 0));
      t := HolderCanReturn(c, contents, v, r);
      ReachesTransitive(c, s, u, v);
      ReachesTransitive(c, s, v, t);
    }
  }

  lemma QueuedWaits<T>(c: Config<T>, contents: seq<T>, s: State<T>, r: nat)
    requires Inv(c, contents, s) && r < |s.readers| && !s.readers[r].pc.Idle? && s.lock != Some(r)
    ensures s.readers[r].pc.Queued? && (s.lock.Some? ==> s.lock.value < |s.readers|)
  {
    assert ReaderOK(c, s, r);
  }

  lemma LeavingReturns<T>(c: Config<T>, contents: seq<T>, s: State<T>, r: nat)
    requires Faithful(c, contents) && Inv(c, contents, s) && s.lock == Some(r) && s.readers[r].pc.Leaving?
    ensures ReaderEnabled(s, r, 0) && ReaderNext(s, r, 0).lock == None && ReaderNext(s, r, 0).drop == s.drop
    ensures ReaderNext(s, r, 0).readers[r].pc.Idle?
    ensures var index := s.readers[r].index;
            ReaderNext(s, r, 0).answers == s.answers + [Answer(r, index, Lookup(contents, index))]
  {
    hide WorkerOK;
    hide Messages;
  }

  lemma AnswerComes<T(!new)>(c: Config<T>, contents: seq<T>, s: State<T>, r: nat) returns (u: State<T>)
    requires Faithful(c, contents) && Inv(c, contents, s) && InBudget(s)
    requires r < |s.readers| && s.lock == Some(r)
    requires Polling(s.readers[r])
    ensures Reaches(c, s, u) && Inv(c, contents, u) && InBudget(u) && u.lock == s.lock && u.readers == s.readers
    ensures u.answers == s.answers && u.nextId == s.nextId && AnswerReady(u, s.readers[r].request)
    ensures u.drop == s.drop
  {
    hide WorkerOK;
    hide Messages;
    var k := s.readers[r].request;
    var states, actions := WorkersAnswer(c, contents, s, k);
    u := states[|states| - 1];
    WorkersLeaveAnswers(c, states, actions, |actions|);
    assert IsQuietRun(c, states, actions);
  }

  lemma {:induction false} WorkersLeaveAnswers<T>(c: Config<T>, states: seq<State<T>>, actions: seq<Action>, n: nat)
    requires IsRun(c, states, actions) && n <= |actions| && forall a | a in actions :: a.WorkerStep?
    ensures states[n].answers == states[0].answers
  {
    if n > 0 {
      WorkersLeaveAnswers(c, states, actions, n - 1);
      assert actions[n - 1] in actions && states[n - 1 + 1] == Next(c, states[n - 1], actions[n - 1]);
    }
  }

  // Once drop has raised the flag, each step of a worker that reads the flag's latest store brings it
  // nearer its exit, at most four steps away.
  function ExitRank<T>(me: Worker<T>): nat {
    match me.pc
    case Exited => 0
    case Top | Recheck(_) => 1
    case LoadId | TryClaim => 2
    case LoadValue => 3
    case LoadIndex => 4
    case WriteSlot => 4
    case PublishReady => 3
  }

  lemma WorkersDrain<T>(c: Config<T>, contents: seq<T>, s: State<T>, w: nat, pos: nat)
    requires Faithful(c, contents) && Inv(c, contents, s) && InBudget(s) && !s.drop.Live?
    requires WorkerEnabled(s, w, pos)
    requires s.workers[w].pc.Top? || s.workers[w].pc.Recheck? ==> pos == |s.shuts| - 1
    ensures ExitRank(WorkerNext(c, s, w, pos).workers[w]) < ExitRank(s.workers[w]) <= 4
  {
    hide Messages;
    assert WorkerOK(c, contents, s, s.workers[w]);
    if s.workers[w].pc.TryClaim? {
      ClaimIffPending(c, contents, s, w, pos);
    }
  }

  function StepsToExit<T>(workers: seq<Worker<T>>): nat {
    if workers == [] then 0 else ExitRank(workers[0]) + StepsToExit(workers[1..])
  }

  lemma {:induction false} StepsToExitUpdate<T>(workers: seq<Worker<T>>, w: nat, me: Worker<T>)
    requires w < |workers|
    ensures StepsToExit(workers[w := me]) == StepsToExit(workers) - ExitRank(workers[w]) + ExitRank(me)
  {
    var changed := workers[w := me];
    if w == 0 {
      assert changed[1..] == workers[1..];
    } else {
      assert changed[1..] == workers[1..][w - 1 := me];
      StepsToExitUpdate(workers[1..], w - 1, me);
    }
  }

  // A worker that has not exited has a step that brings it nearer.
  lemma DrainStep<T>(c: Config<T>, contents: seq<T>, s: State<T>, w: nat) returns (a: Action)
    requires Faithful(c, contents) && Inv(c, contents, s) && InBudget(s) && !s.drop.Live?
    requires w < |s.workers| && !s.workers[w].pc.Exited?
    ensures Enabled(s, a)
    ensures var t := Next(c, s, a);
            && Inv(c, contents, t) && InBudget(t) && t.drop == s.drop && t.answers == s.answers
            && StepsToExit(t.workers) < StepsToExit(s.workers)
  {
    var pc := s.workers[w].pc;
    var pos := if pc.Top? || pc.Recheck? then 1 else if pc.LoadId? then |s.ids| - 1
               else if pc.LoadIndex? then |s.idxs| - 1 else |s.wins| - 1;
    a := WorkerStep(w, pos);
    WorkerCanStep(c, contents, s, w, pos);
    WorkersDrain(c, contents, s, w, pos);
    WorkerStepKeeps(c, contents, s, w, pos);
    StepsToExitUpdate(s.workers, w, WorkerNext(c, s, w, pos).workers[w]);
  }

  lemma WorkerCanStep<T>(c: Config<T>, contents: seq<T>, s: State<T>, w: nat, pos: nat)
    requires Inv(c, contents, s) && !s.drop.Live? && w < |s.workers| && !s.workers[w].pc.Exited?
    requires var pc := s.workers[w].pc;
             pos == if pc.Top? || pc.Recheck? then 1 else if pc.LoadId? then |s.ids| - 1
                    else if pc.LoadIndex? then |s.idxs| - 1 else |s.wins| - 1
    ensures WorkerEnabled(s, w, pos)
    ensures var t := WorkerNext(c, s, w, pos);
            && t.drop == s.drop && t.nextId == s.nextId && t.answers == s.answers
            && t.workers == s.workers[w := t.workers[w]]
  {
    hide Messages;
    assert WorkerOK(c, contents, s, s.workers[w]);
  }

  // Shutdown can always complete: from every reachable state after drop has begun, some run takes it to
  // the end, with every worker gone and no answer added.
  lemma ShutdownCanFinish<T(!new)>(c: Config<T>, contents: seq<T>, s: State<T>) returns (t: State<T>)
    requires Faithful(c, contents) && Reachable(c, s) && !s.drop.Live?
    ensures Reaches(c, s, t) && t.drop.Closed? && t.answers == s.answers
  {
    ReachableInv(c, contents, s);
    t := DropCanFinish(c, contents, s);
  }

  lemma {:induction false} DropCanFinish<T(!new)>(c: Config<T>, contents: seq<T>, s: State<T>)
    returns (t: State<T>)
    requires Faithful(c, contents) && Inv(c, contents, s) && InBudget(s) && !s.drop.Live?
    ensures Reaches(c, s, t) && t.drop.Closed? && t.answers == s.answers
    decreases s.drop.Flagged?, !s.drop.Closed?, StepsToExit(s.workers)
  {
    hide Inv;
    hide Reaches;
    if s.drop.Closed? {
      t := s;
      ReachesItself(c, s);
    } else if w: nat :| s.drop.Draining? && w < |s.workers| && !s.workers[w].pc.Exited? {
      var a := DrainStep(c, contents, s, w);
      ReachesNext(c, s, a);
      t := DropCanFinish(c, contents, Next(c, s, a));
      ReachesTransitive(c, s, Next(c, s, a), t);
    } else {
      DropGoesOn(c, contents, s);
      ReachesNext(c, s, DropStep);
      t := DropCanFinish(c, contents, DropNext(s));
      ReachesTransitive(c, s, DropNext(s), t);
    }
  }

  lemma ReachesItself<T(!new)>(c: Config<T>, s: State<T>)
    requires InBudget(s)
    ensures Reaches(c, s, s)
  {
    assert IsQuietRun(c, [s], []) && [s][0] == s;
  }

  lemma DropGoesOn<T>(c: Config<T>, contents: seq<T>, s: State<T>)
    requires Faithful(c, contents) && Inv(c, contents, s) && InBudget(s)
    requires s.drop.Flagged? || (s.drop.Draining? && forall w: nat | w < |s.workers| :: s.workers[w].pc.Exited?)
    ensures DropEnabled(s) && Inv(c, contents, DropNext(s)) && InBudget(DropNext(s))
    ensures DropNext(s).answers == s.answers && (s.drop.Flagged? ==> DropNext(s).drop.Draining?)
  {
    assert DropEnabled(s);
    DropKeeps(c, contents, s);
  }
}
