// Every step of the protocol keeps the invariant.

module Steps {
  import opened Errors
  import opened Invariant
  import opened Protocol
  import opened Tables

  // Histories only grow. A new index means nothing was being answered; once drop has added its id,
  // nothing is issued any more.
  ghost predicate Extends<T>(s: State<T>, t: State<T>) {
    && s.ids <= t.ids && s.idxs <= t.idxs && s.wins <= t.wins && s.shuts <= t.shuts
    && s.slot <= t.slot && s.copies <= t.copies && |t.shuts| <= 2
    && (s.drop.Draining? || s.drop.Closed? ==>
          t.ids == s.ids && t.idxs == s.idxs && (t.drop.Draining? || t.drop.Closed?))
    && (|t.idxs| > |s.idxs| ==> |s.idxs| >= |s.ids|)
  }

  lemma IdKeeps<T>(s: State<T>, t: State<T>, j: nat)
    requires Extends(s, t) && j < |s.ids| && IdOK(s, j) && |s.idxs| >= 1
    ensures IdOK(t, j)
  {
  }

  lemma MessagesKeep<T>(s: State<T>, t: State<T>)
    requires Extends(s, t) && Messages(s) && |s.idxs| >= 1
    requires forall j: nat | |s.ids| <= j < |t.ids| :: IdOK(t, j)
    requires forall j: nat | |s.wins| <= j < |t.wins| ::
               Bounded(t, t.wins[j].view) && (j % 3 == 0 ==> t.wins[j].view.writes >= j / 3)
    requires forall j: nat | |s.shuts| <= j < |t.shuts| :: Bounded(t, t.shuts[j].view)
    ensures Messages(t)
  {
    forall j: nat | j < |t.ids| ensures IdOK(t, j) {
      if j < |s.ids| { IdKeeps(s, t, j); }
    }
  }

  // A thread's facts about the world survive other threads' steps.
  lemma WorkerKeeps<T>(c: Config<T>, contents: seq<T>, s: State<T>, t: State<T>, me: Worker<T>)
    requires Extends(s, t) && WorkerOK(c, contents, s, me) && |s.idxs| >= 1
    requires Claims(me) ==> |t.idxs| == |s.idxs| && |t.wins| == |s.wins| && |t.slot| == |s.slot| && t.copies == s.copies
    ensures WorkerOK(c, contents, t, me)
  {
  }

  lemma WorkersKeep<T>(c: Config<T>, contents: seq<T>, s: State<T>, t: State<T>)
    requires Extends(s, t) && Inv(c, contents, s) && t.workers == s.workers
    requires |s.wins| % 3 == 0 ==>
               |t.idxs| == |s.idxs| && |t.wins| == |s.wins| && |t.slot| == |s.slot| && t.copies == s.copies
    ensures forall w: nat | w < |t.workers| :: WorkerOK(c, contents, t, t.workers[w])
  {
    forall w: nat | w < |t.workers| ensures WorkerOK(c, contents, t, t.workers[w]) {
      WorkerKeeps(c, contents, s, t, s.workers[w]);
    }
  }

  lemma OthersKeep<T>(c: Config<T>, contents: seq<T>, s: State<T>, t: State<T>, w: nat)
    requires Extends(s, t) && |s.idxs| >= 1 && w < |s.workers| == |t.workers|
    requires t.workers == s.workers[w := t.workers[w]]
    requires forall v: nat | v < |s.workers| :: WorkerOK(c, contents, s, s.workers[v])
    requires forall v: nat | v < |s.workers| && v != w :: !Claims(s.workers[v])
    requires WorkerOK(c, contents, t, t.workers[w])
    ensures forall v: nat | v < |t.workers| :: WorkerOK(c, contents, t, t.workers[v])
  {
    hide WorkerOK;
    forall v: nat | v < |t.workers| ensures WorkerOK(c, contents, t, t.workers[v]) {
      if v != w { WorkerKeeps(c, contents, s, t, s.workers[v]); }
    }
  }

  lemma ReadersKeep<T>(c: Config<T>, s: State<T>, t: State<T>)
    requires Extends(s, t) && t.readers == s.readers && t.lock == s.lock && t.drop == s.drop
    requires forall r: nat | r < |s.readers| :: ReaderOK(c, s, r)
    ensures forall r: nat | r < |t.readers| :: ReaderOK(c, t, r)
  {
    forall r: nat | r < |t.readers| ensures ReaderOK(c, t, r) {
      assert ReaderOK(c, s, r);
    }
  }

  // A worker step that leaves the shared memory alone.
  lemma LocalWorkerStep<T>(c: Config<T>, contents: seq<T>, s: State<T>, w: nat, me: Worker<T>)
    requires Inv(c, contents, s) && w < |s.workers|
    requires WorkerOK(c, contents, s, me) && !Claims(me) && !Claims(s.workers[w])
    ensures Inv(c, contents, SetWorker(s, w, me))
  {
    hide WorkerOK;
    hide IdOK;
    hide SlotOK;
    hide AnswersOK;
    var t := SetWorker(s, w, me);
    MessagesKeep(s, t);
    forall v: nat | v < |t.workers| ensures WorkerOK(c, contents, t, t.workers[v]) {
      WorkerKeeps(c, contents, s, t, t.workers[v]);
    }
    if |s.wins| % 3 == 0 {
      var v: nat :| v < |s.workers| && Claims(s.workers[v]);
      assert t.workers[v] == s.workers[v];
    }
    ReadersKeep(c, s, t);
  }

  lemma TopKeeps<T>(c: Config<T>, contents: seq<T>, s: State<T>, w: nat, pos: nat)
    requires Faithful(c, contents) && Inv(c, contents, s)
    requires WorkerEnabled(s, w, pos) && s.workers[w].pc.Top?
    ensures Inv(c, contents, WorkerNext(c, s, w, pos))
  {
    hide Control;
    hide OneClaimer;
    hide ReaderOK;
    hide SlotOK;
    hide AnswersOK;
    LocalWorkerStep(c, contents, s, w, WorkerNext(c, s, w, pos).workers[w]);
  }

  lemma LoadIdKeeps<T>(c: Config<T>, contents: seq<T>, s: State<T>, w: nat, pos: nat)
    requires Faithful(c, contents) && Inv(c, contents, s)
    requires WorkerEnabled(s, w, pos) && s.workers[w].pc.LoadId?
    ensures Inv(c, contents, WorkerNext(c, s, w, pos))
  {
    hide Control;
    hide OneClaimer;
    hide ReaderOK;
    hide SlotOK;
    hide AnswersOK;
    assert IdOK(s, pos);
    LocalWorkerStep(c, contents, s, w, WorkerNext(c, s, w, pos).workers[w]);
  }

  lemma RecheckKeeps<T>(c: Config<T>, contents: seq<T>, s: State<T>, w: nat, pos: nat)
    requires Faithful(c, contents) && Inv(c, contents, s)
    requires WorkerEnabled(s, w, pos) && s.workers[w].pc.Recheck?
    ensures Inv(c, contents, WorkerNext(c, s, w, pos))
  {
    hide Control;
    hide OneClaimer;
    hide ReaderOK;
    hide SlotOK;
    hide AnswersOK;
    LocalWorkerStep(c, contents, s, w, WorkerNext(c, s, w, pos).workers[w]);
  }

  lemma LoadIndexKeeps<T>(c: Config<T>, contents: seq<T>, s: State<T>, w: nat, pos: nat)
    requires Faithful(c, contents) && Inv(c, contents, s)
    requires WorkerEnabled(s, w, pos) && s.workers[w].pc.LoadIndex?
    ensures Inv(c, contents, WorkerNext(c, s, w, pos))
  {
    hide Control;
    hide OneClaimer;
    hide ReaderOK;
    hide SlotOK;
    hide AnswersOK;
    LocalWorkerStep(c, contents, s, w, WorkerNext(c, s, w, pos).workers[w]);
  }

  lemma LoadValueKeeps<T>(c: Config<T>, contents: seq<T>, s: State<T>, w: nat, pos: nat)
    requires Faithful(c, contents) && Inv(c, contents, s)
    requires WorkerEnabled(s, w, pos) && s.workers[w].pc.LoadValue?
    ensures Inv(c, contents, WorkerNext(c, s, w, pos))
  {
    hide Control;
    hide OneClaimer;
    hide ReaderOK;
    hide SlotOK;
    hide AnswersOK;
    LocalWorkerStep(c, contents, s, w, WorkerNext(c, s, w, pos).workers[w]);
  }

  // A claim succeeds exactly when the worker's request is the pending one: the tag read last is pending
  // for no other, and no later index has been stored.
  lemma ClaimIffPending<T>(c: Config<T>, contents: seq<T>, s: State<T>, w: nat, pos: nat)
    requires Faithful(c, contents) && Inv(c, contents, s) && InBudget(s)
    requires WorkerEnabled(s, w, pos) && s.workers[w].pc.TryClaim?
    ensures var me := s.workers[w];
            && (s.wins[pos].value == Pending(me.seen) <==> |s.wins| == 3 * me.seen - 1)
            && (s.wins[pos].value == Pending(me.seen) ==>
                  me.seen == Requests(s) && me.index == s.idxs[me.seen]
                  && me.index < |contents| && me.value == Holds(contents[me.index]))
  {
    hide OneClaimer;
    hide ReaderOK;
    hide SlotOK;
    hide AnswersOK;
    assert WorkerOK(c, contents, s, s.workers[w]);
    WinnerIsPending(pos, s.workers[w].seen);
  }

  lemma TryClaimKeeps<T>(c: Config<T>, contents: seq<T>, s: State<T>, w: nat, pos: nat)
    requires Faithful(c, contents) && Inv(c, contents, s) && InBudget(s)
    requires WorkerEnabled(s, w, pos) && s.workers[w].pc.TryClaim?
    ensures Inv(c, contents, WorkerNext(c, s, w, pos))
  {
    hide Control;
    hide OneClaimer;
    hide ReaderOK;
    hide SlotOK;
    hide AnswersOK;
    var me, t := s.workers[w], WorkerNext(c, s, w, pos);
    ClaimIffPending(c, contents, s, w, pos);
    if s.wins[pos].value != Pending(me.seen) {
      LocalWorkerStep(c, contents, s, w, t.workers[w]);
    } else {
      TagsFit(c, contents, s, w);
      WinnerIsPending(|s.wins|, me.seen);
      ClaimSucceeds(c, contents, s, w);
    }
  }

  lemma TagsFit<T>(c: Config<T>, contents: seq<T>, s: State<T>, w: nat)
    requires Inv(c, contents, s) && InBudget(s) && w < |s.workers| && s.workers[w].pc.TryClaim?
    ensures 1 <= s.workers[w].seen < ID_LIMIT
  {
    hide Messages;
    assert WorkerOK(c, contents, s, s.workers[w]);
  }

  lemma ClaimSucceeds<T>(c: Config<T>, contents: seq<T>, s: State<T>, w: nat)
    requires Inv(c, contents, s) && w < |s.workers| && s.workers[w].pc.TryClaim?
    requires |s.wins| == 3 * s.workers[w].seen - 1 && WorkerEnabled(s, w, |s.wins| - 1)
    requires s.wins[|s.wins| - 1].value == Pending(s.workers[w].seen)
    requires Claimed(s.workers[w].seen) == WinnerAt(|s.wins|)
    ensures Inv(c, contents, WorkerNext(c, s, w, |s.wins| - 1))
  {
    hide WorkerOK;
    hide ReaderOK;
    hide SlotOK;
    hide AnswersOK;
    var t := WorkerNext(c, s, w, |s.wins| - 1);
    ClaimerOwns(c, contents, s, w);
    NoClaimer(c, contents, s);
    MessagesKeep(s, t);
    ReadersKeep(c, s, t);
    OthersKeep(c, contents, s, t, w);
    assert Claims(t.workers[w]);
  }

  lemma NoClaimer<T>(c: Config<T>, contents: seq<T>, s: State<T>)
    requires Inv(c, contents, s) && |s.wins| % 3 != 0
    ensures forall v: nat | v < |s.workers| :: !Claims(s.workers[v])
  {
    hide Control;
    hide Messages;
    forall v: nat | v < |s.workers| ensures !Claims(s.workers[v]) {
      assert WorkerOK(c, contents, s, s.workers[v]);
    }
  }

  lemma ClaimerOwns<T>(c: Config<T>, contents: seq<T>, s: State<T>, w: nat)
    requires Inv(c, contents, s) && w < |s.workers| && s.workers[w].pc.TryClaim?
    requires |s.wins| == 3 * s.workers[w].seen - 1 && WorkerEnabled(s, w, |s.wins| - 1)
    requires s.wins[|s.wins| - 1].value == Pending(s.workers[w].seen)
    ensures var t := WorkerNext(c, s, w, |s.wins| - 1);
            WorkerOK(c, contents, t, t.workers[w]) && Extends(s, t) && t.workers[w].view.writes == |s.slot|
    ensures Bounded(WorkerNext(c, s, w, |s.wins| - 1), WorkerNext(c, s, w, |s.wins| - 1).workers[w].view)
    ensures s.workers[w].seen < |s.ids|
  {
    hide OneClaimer;
    hide ReaderOK;
    hide SlotOK;
    hide AnswersOK;
  }

  lemma WriteSlotKeeps<T>(c: Config<T>, contents: seq<T>, s: State<T>, w: nat, pos: nat)
    requires Faithful(c, contents) && Inv(c, contents, s)
    requires WorkerEnabled(s, w, pos) && s.workers[w].pc.WriteSlot?
    ensures Inv(c, contents, WorkerNext(c, s, w, pos))
  {
    hide ReaderOK;
    hide AnswersOK;
    var t := WorkerNext(c, s, w, pos);
    MessagesKeep(s, t);
    OthersKeep(c, contents, s, t, w);
    assert Claims(t.workers[w]);
    ReadersKeep(c, s, t);
  }

  lemma PublishReadyKeeps<T>(c: Config<T>, contents: seq<T>, s: State<T>, w: nat, pos: nat)
    requires Faithful(c, contents) && Inv(c, contents, s) && InBudget(s)
    requires WorkerEnabled(s, w, pos) && s.workers[w].pc.PublishReady?
    ensures Inv(c, contents, WorkerNext(c, s, w, pos))
  {
    hide ReaderOK;
    hide AnswersOK;
    var t := WorkerNext(c, s, w, pos);
    WinnerIsPending(|s.wins|, s.workers[w].seen);
    MessagesKeep(s, t);
    OthersKeep(c, contents, s, t, w);
    ReadersKeep(c, s, t);
  }

  // The parts of the invariant a reader's step leaves to check once its memory effects are known.
  lemma ReaderStepFrame<T>(c: Config<T>, contents: seq<T>, s: State<T>, r: nat, t: State<T>)
    requires Inv(c, contents, s) && Extends(s, t) && t.workers == s.workers && t.drop == s.drop
    requires r < |s.readers| == |t.readers| && t.readers == s.readers[r := t.readers[r]]
    requires |s.wins| % 3 == 0 ==>
               |t.idxs| == |s.idxs| && |t.wins| == |s.wins| && |t.slot| == |s.slot| && t.copies == s.copies
    requires |t.wins| % 3 == 0 ==> |s.wins| % 3 == 0
    requires ReaderOK(c, t, r) && Histories(c, t) && Control(c, contents, t) && Messages(t)
    requires t.lock == s.lock || s.lock == None || s.lock == Some(r)
    requires SlotOK(contents, t.idxs, t.slot) && AnswersOK(contents, t.answers)
    ensures Inv(c, contents, t)
  {
    WorkersKeep(c, contents, s, t);
    forall q: nat | q < |t.readers| ensures ReaderOK(c, t, q) {
      assert ReaderOK(c, s, q);
    }
  }

  lemma InvokeKeeps<T>(c: Config<T>, contents: seq<T>, s: State<T>, r: nat, index: nat)
    requires Faithful(c, contents) && Inv(c, contents, s) && InvokeEnabled(s, r)
    ensures Inv(c, contents, InvokeNext(c, s, r, index))
  {
    hide WorkerOK;
    hide OneClaimer;
    hide IdOK;
    hide SlotOK;
    var t := InvokeNext(c, s, r, index);
    MessagesKeep(s, t);
    assert ReaderOK(c, s, r);
    assert t.readers == s.readers[r := t.readers[r]];
    IdleIsNotHolder(c, contents, s, t, r);
    ReaderStepFrame(c, contents, s, r, t);
  }

  lemma IdleIsNotHolder<T>(c: Config<T>, contents: seq<T>, s: State<T>, t: State<T>, r: nat)
    requires Control(c, contents, s) && r < |s.readers| == |t.readers| && s.readers[r].pc.Idle?
    requires t == s.(readers := t.readers, answers := t.answers) && t.readers == s.readers[r := t.readers[r]]
    ensures Control(c, contents, t)
  {
  }

  lemma QueuedKeeps<T>(c: Config<T>, contents: seq<T>, s: State<T>, r: nat, pos: nat)
    requires Faithful(c, contents) && Inv(c, contents, s)
    requires ReaderEnabled(s, r, pos) && s.readers[r].pc.Queued?
    ensures Inv(c, contents, ReaderNext(s, r, pos))
  {
    hide WorkerOK;
    hide OneClaimer;
    var t := ReaderNext(s, r, pos);
    assert ReaderOK(c, s, r);
    MessagesKeep(s, t);
    ReaderStepFrame(c, contents, s, r, t);
  }

  lemma EnteredKeeps<T>(c: Config<T>, contents: seq<T>, s: State<T>, r: nat, pos: nat)
    requires Faithful(c, contents) && Inv(c, contents, s) && InBudget(s)
    requires ReaderEnabled(s, r, pos) && s.readers[r].pc.Entered?
    ensures Inv(c, contents, ReaderNext(s, r, pos))
  {
    hide WorkerOK;
    hide OneClaimer;
    var t := ReaderNext(s, r, pos);
    assert ReaderOK(c, s, r);
    MessagesKeep(s, t);
    ReaderStepFrame(c, contents, s, r, t);
  }

  lemma NumberedKeeps<T>(c: Config<T>, contents: seq<T>, s: State<T>, r: nat, pos: nat)
    requires Faithful(c, contents) && Inv(c, contents, s)
    requires ReaderEnabled(s, r, pos) && s.readers[r].pc.Numbered?
    ensures Inv(c, contents, ReaderNext(s, r, pos))
  {
    hide WorkerOK;
    hide OneClaimer;
    var t := ReaderNext(s, r, pos);
    assert ReaderOK(c, s, r);
    MessagesKeep(s, t);
    ReaderStepFrame(c, contents, s, r, t);
  }

  lemma IndexStoredKeeps<T>(c: Config<T>, contents: seq<T>, s: State<T>, r: nat, pos: nat)
    requires Faithful(c, contents) && Inv(c, contents, s) && InBudget(s)
    requires ReaderEnabled(s, r, pos) && s.readers[r].pc.IndexStored?
    ensures Inv(c, contents, ReaderNext(s, r, pos))
  {
    hide WorkerOK;
    hide OneClaimer;
    var t := ReaderNext(s, r, pos);
    assert ReaderOK(c, s, r);
    WinnerIsPending(|s.wins|, s.readers[r].request);
    MessagesKeep(s, t);
    ReaderStepFrame(c, contents, s, r, t);
  }

  lemma PendingStoredKeeps<T>(c: Config<T>, contents: seq<T>, s: State<T>, r: nat, pos: nat)
    requires Faithful(c, contents) && Inv(c, contents, s)
    requires ReaderEnabled(s, r, pos) && s.readers[r].pc.PendingStored?
    ensures Inv(c, contents, ReaderNext(s, r, pos))
  {
    hide WorkerOK;
    hide OneClaimer;
    var t := ReaderNext(s, r, pos);
    assert ReaderOK(c, s, r);
    assert IdOK(t, |s.ids|);
    MessagesKeep(s, t);
    ReaderStepFrame(c, contents, s, r, t);
  }

  lemma PollShutdownKeeps<T>(c: Config<T>, contents: seq<T>, s: State<T>, r: nat, pos: nat)
    requires Faithful(c, contents) && Inv(c, contents, s)
    requires ReaderEnabled(s, r, pos) && s.readers[r].pc.PollShutdown?
    ensures Inv(c, contents, ReaderNext(s, r, pos))
    ensures ReaderNext(s, r, pos).readers[r].pc.PollWinner?
  {
    hide WorkerOK;
    hide OneClaimer;
    var t := ReaderNext(s, r, pos);
    assert ReaderOK(c, s, r);
    MessagesKeep(s, t);
    ReaderStepFrame(c, contents, s, r, t);
  }

  lemma PollWinnerKeeps<T>(c: Config<T>, contents: seq<T>, s: State<T>, r: nat, pos: nat)
    requires Faithful(c, contents) && Inv(c, contents, s) && InBudget(s)
    requires ReaderEnabled(s, r, pos) && s.readers[r].pc.PollWinner?
    ensures Inv(c, contents, ReaderNext(s, r, pos))
  {
    hide WorkerOK;
    hide OneClaimer;
    var t := ReaderNext(s, r, pos);
    assert ReaderOK(c, s, r);
    WinnerIsPending(pos, s.readers[r].request);
    MessagesKeep(s, t);
    ReaderStepFrame(c, contents, s, r, t);
  }

  lemma CopySlotKeeps<T>(c: Config<T>, contents: seq<T>, s: State<T>, r: nat, pos: nat)
    requires Faithful(c, contents) && Inv(c, contents, s)
    requires ReaderEnabled(s, r, pos) && s.readers[r].pc.CopySlot?
    ensures Inv(c, contents, ReaderNext(s, r, pos))
  {
    hide WorkerOK;
    hide OneClaimer;
    var t := ReaderNext(s, r, pos);
    assert ReaderOK(c, s, r);
    MessagesKeep(s, t);
    ReaderStepFrame(c, contents, s, r, t);
  }

  lemma LeavingKeeps<T>(c: Config<T>, contents: seq<T>, s: State<T>, r: nat, pos: nat)
    requires Faithful(c, contents) && Inv(c, contents, s)
    requires ReaderEnabled(s, r, pos) && s.readers[r].pc.Leaving?
    ensures Inv(c, contents, ReaderNext(s, r, pos))
  {
    hide WorkerOK;
    hide OneClaimer;
    var t := ReaderNext(s, r, pos);
    assert ReaderOK(c, s, r);
    MessagesKeep(s, t);
    ReaderStepFrame(c, contents, s, r, t);
  }

  lemma FlagKeeps<T>(c: Config<T>, contents: seq<T>, s: State<T>)
    requires Faithful(c, contents) && Inv(c, contents, s) && DropEnabled(s) && s.drop.Live?
    ensures Inv(c, contents, DropNext(s))
  {
    hide WorkerOK;
    hide SlotOK;
    hide AnswersOK;
    var t := DropNext(s);
    assert s.lock == None;
    MessagesKeep(s, t);
    WorkersKeep(c, contents, s, t);
    forall r: nat | r < |t.readers| ensures ReaderOK(c, t, r) {
      assert ReaderOK(c, s, r);
    }
  }

  lemma BumpKeeps<T>(c: Config<T>, contents: seq<T>, s: State<T>)
    requires Faithful(c, contents) && Inv(c, contents, s) && InBudget(s) && DropEnabled(s) && s.drop.Flagged?
    ensures Inv(c, contents, DropNext(s))
  {
    hide WorkerOK;
    hide SlotOK;
    hide AnswersOK;
    var t := DropNext(s);
    assert s.lock == None;
    assert IdOK(s, |s.ids| - 1);
    assert IdOK(t, |s.ids|);
    MessagesKeep(s, t);
    WorkersKeep(c, contents, s, t);
    forall r: nat | r < |t.readers| ensures ReaderOK(c, t, r) {
      assert ReaderOK(c, s, r);
    }
  }

  lemma CloseKeeps<T>(c: Config<T>, contents: seq<T>, s: State<T>)
    requires Faithful(c, contents) && Inv(c, contents, s) && DropEnabled(s) && s.drop.Draining?
    ensures Inv(c, contents, DropNext(s))
  {
    hide WorkerOK;
    hide SlotOK;
    hide AnswersOK;
    var t := DropNext(s);
    assert s.lock == None;
    MessagesKeep(s, t);
    WorkersKeep(c, contents, s, t);
    forall r: nat | r < |t.readers| ensures ReaderOK(c, t, r) {
      assert ReaderOK(c, s, r);
    }
  }

  lemma DropKeeps<T>(c: Config<T>, contents: seq<T>, s: State<T>)
    requires Faithful(c, contents) && Inv(c, contents, s) && InBudget(s) && DropEnabled(s)
    ensures Inv(c, contents, DropNext(s))
  {
    hide Inv;
    match s.drop
    case Live => FlagKeeps(c, contents, s);
    case Flagged => BumpKeeps(c, contents, s);
    case Draining => CloseKeeps(c, contents, s);
  }

  lemma ReaderKeeps<T>(c: Config<T>, contents: seq<T>, s: State<T>, r: nat, pos: nat)
    requires Faithful(c, contents) && Inv(c, contents, s) && InBudget(s) && ReaderEnabled(s, r, pos)
    ensures Inv(c, contents, ReaderNext(s, r, pos))
  {
    hide Inv;
    match s.readers[r].pc
    case Queued => QueuedKeeps(c, contents, s, r, pos);
    case Entered => EnteredKeeps(c, contents, s, r, pos);
    case Numbered => NumberedKeeps(c, contents, s, r, pos);
    case IndexStored => IndexStoredKeeps(c, contents, s, r, pos);
    case PendingStored => PendingStoredKeeps(c, contents, s, r, pos);
    case PollShutdown => PollShutdownKeeps(c, contents, s, r, pos);
    case PollWinner => PollWinnerKeeps(c, contents, s, r, pos);
    case CopySlot => CopySlotKeeps(c, contents, s, r, pos);
    case Leaving(_) => LeavingKeeps(c, contents, s, r, pos);
  }

  lemma WorkerStepKeeps<T>(c: Config<T>, contents: seq<T>, s: State<T>, w: nat, pos: nat)
    requires Faithful(c, contents) && Inv(c, contents, s) && InBudget(s) && WorkerEnabled(s, w, pos)
    ensures Inv(c, contents, WorkerNext(c, s, w, pos))
  {
    hide Inv;
    match s.workers[w].pc
    case Top => TopKeeps(c, contents, s, w, pos);
    case LoadId => LoadIdKeeps(c, contents, s, w, pos);
    case Recheck(_) => RecheckKeeps(c, contents, s, w, pos);
    case LoadIndex => LoadIndexKeeps(c, contents, s, w, pos);
    case LoadValue => LoadValueKeeps(c, contents, s, w, pos);
    case TryClaim => TryClaimKeeps(c, contents, s, w, pos);
    case WriteSlot => WriteSlotKeeps(c, contents, s, w, pos);
    case PublishReady => PublishReadyKeeps(c, contents, s, w, pos);
  }

  lemma StepKeeps<T>(c: Config<T>, contents: seq<T>, s: State<T>, a: Action)
    requires Faithful(c, contents) && Inv(c, contents, s) && InBudget(s) && Enabled(s, a)
    ensures Inv(c, contents, Next(c, s, a))
  {
    hide Inv;
    match a
    case WorkerStep(w, pos) => WorkerStepKeeps(c, contents, s, w, pos);
    case Invoke(r, index) => InvokeKeeps(c, contents, s, r, index);
    case ReaderStep(r, pos) => ReaderKeeps(c, contents, s, r, pos);
    case DropStep => DropKeeps(c, contents, s);
  }
}
