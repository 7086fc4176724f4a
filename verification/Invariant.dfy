// What every reachable state of the hedged read protocol satisfies, and that every step keeps it.

module Invariant {
  import opened Errors
  import opened Protocol
  import opened Tables

  // Every worker's loads give the table's contents.
  ghost predicate Faithful<T>(c: Config<T>, contents: seq<T>) {
    && c.workers > 0
    && c.len == |contents|
    && forall r: nat, i: nat | r < c.workers && i < c.len :: c.load(r, i) == Holds(contents[i])
  }

  // The number of requests whose index has been stored; request k's index is idxs[k].
  function Requests<T>(s: State<T>): int { |s.idxs| - 1 }

  // winner_state's history: pending, claimed, ready for request 1, then for request 2, and so on,
  // after the initial zero.
  function WinnerAt(j: nat): nat {
    if j == 0 then 0 else 4 * ((j + 2) / 3) + (j + 2) % 3
  }

  ghost predicate Bounded<T>(s: State<T>, v: View) {
    && v.ids < |s.ids| && v.idxs < |s.idxs| && v.wins < |s.wins| && v.shuts < |s.shuts|
    && v.writes <= |s.slot| && v.copies <= s.copies
  }

  // The view has seen everything request k was published with: its index, its pending tag, and all
  // that happened to the slot for the requests before.
  ghost predicate Knows(v: View, k: nat) {
    v.ids >= k && v.idxs >= k && v.wins >= 3 * k - 2 && v.writes >= k - 1 && v.copies >= k - 1
  }

  ghost predicate Current<T>(s: State<T>, v: View) {
    && v.ids == |s.ids| - 1 && v.idxs == |s.idxs| - 1 && v.wins == |s.wins| - 1
    && v.writes == |s.slot| && v.copies == s.copies
  }

  // Exactly the first k requests have been issued, and each was answered and copied out.
  ghost predicate Settled<T>(s: State<T>, k: int) {
    |s.idxs| == k + 1 && |s.wins| == 3 * k + 1 && |s.slot| == k && s.copies == k
  }

  ghost predicate Histories<T>(c: Config<T>, s: State<T>) {
    && |s.workers| == c.workers
    && (forall j: nat | j < |s.ids| :: s.ids[j].value == j)
    && (forall j: nat | 1 <= j < |s.idxs| :: s.idxs[j] < c.len)
    && (forall j: nat | j < |s.wins| :: s.wins[j].value == WinnerAt(j))
    && |s.shuts| == (if s.drop.Live? then 1 else 2)
    && !s.shuts[0].value
    && (|s.shuts| == 2 ==> s.shuts[1].value)
  }

  // Where the histories stand, by what the mutex holder is doing.
  ghost predicate Control<T>(c: Config<T>, contents: seq<T>, s: State<T>) {
    match s.lock
    case None =>
      && s.nextId >= 1
      && Settled(s, s.nextId - 1)
      && |s.ids| == s.nextId + (if s.drop.Draining? || s.drop.Closed? then 1 else 0)
      && Bounded(s, s.lockView)
      && (s.drop.Live? ==> Current(s, s.lockView))
      && (!s.drop.Live? ==> Bounded(s, s.dropView) && s.dropView.shuts == 1)
    case Some(h) => h < |s.readers| && s.drop.Live? && Holding(contents, s, s.readers[h])
  }

  ghost predicate Holding<T>(contents: seq<T>, s: State<T>, me: Reader<T>) {
    var k := me.request;
    && s.nextId >= 1
    && (!me.pc.Entered? ==> k >= 1 && s.nextId == k + 1)
    && match me.pc
       case Idle | Queued => false
       case Entered => Settled(s, s.nextId - 1) && |s.ids| == s.nextId && Current(s, me.view)
       case Numbered => Settled(s, k - 1) && |s.ids| == k && Current(s, me.view)
       case IndexStored =>
         && Issued(s, me) && |s.ids| == k && Current(s, me.view) && |s.wins| == 3 * k - 2
         && |s.slot| == k - 1
       case PendingStored =>
         && Issued(s, me) && |s.ids| == k && Current(s, me.view) && |s.wins| == 3 * k - 1
         && |s.slot| == k - 1
       case PollShutdown | PollWinner => Issued(s, me) && Racing(s, k) && Published(s, me)
       case CopySlot =>
         && Issued(s, me) && Published(s, me)
         && |s.wins| == 3 * k + 1 && |s.slot| == k && me.view.wins == 3 * k && me.view.writes == k
       case Leaving(result) =>
         && Settled(s, k) && |s.ids| == k + 1 && s.idxs[k] == me.index && Current(s, me.view)
         && me.index < |contents| && result == Ok(Holds(contents[me.index]))
  }

  ghost predicate Issued<T>(s: State<T>, me: Reader<T>) {
    me.request >= 1 && |s.idxs| == me.request + 1 && s.idxs[me.request] == me.index && s.copies == me.request - 1
  }

  ghost predicate Published<T>(s: State<T>, me: Reader<T>) {
    && |s.ids| == me.request + 1
    && me.view.ids == me.request && me.view.idxs == me.request && me.view.copies == me.request - 1
    && me.view.wins >= 3 * me.request - 2
  }

  // Request k is pending, claimed (its value written or not), or ready.
  ghost predicate Racing<T>(s: State<T>, k: int) {
    || (|s.wins| == 3 * k - 1 && |s.slot| == k - 1)
    || (|s.wins| == 3 * k && k - 1 <= |s.slot| <= k)
    || (|s.wins| == 3 * k + 1 && |s.slot| == k)
  }

  // An id's message carries what its request was published with; the one that drop added carries the
  // shutdown flag.
  ghost predicate IdOK<T>(s: State<T>, j: nat)
    requires j < |s.ids|
  {
    && Bounded(s, s.ids[j].view)
    && (1 <= j <= Requests(s) ==> Knows(s.ids[j].view, j))
    && (j > Requests(s) ==> s.ids[j].view.ids >= j && s.ids[j].view.shuts == 1 && DropId(s, j))
  }

  ghost predicate DropId<T>(s: State<T>, j: nat) {
    j == |s.ids| - 1 && j > Requests(s) && (s.drop.Draining? || s.drop.Closed?)
  }

  ghost predicate Messages<T>(s: State<T>) {
    && (forall j: nat | j < |s.ids| :: IdOK(s, j))
    && (forall j: nat | j < |s.wins| :: Bounded(s, s.wins[j].view))
    && (forall j: nat | j < |s.wins| :: j % 3 == 0 ==> s.wins[j].view.writes >= j / 3)
    && (forall j: nat | j < |s.shuts| :: Bounded(s, s.shuts[j].view))
  }

  predicate Claims<T>(me: Worker<T>) { me.pc.WriteSlot? || me.pc.PublishReady? }

  // Between taking up a request and competing for it.
  predicate InFlight<T>(me: Worker<T>) {
    me.pc.LoadIndex? || me.pc.LoadValue? || me.pc.TryClaim?
  }

  ghost predicate WorkerOK<T>(c: Config<T>, contents: seq<T>, s: State<T>, me: Worker<T>) {
    && Bounded(s, me.view)
    && me.seen <= me.view.ids && me.seen <= Requests(s)
    && (!InFlight(me) && !Claims(me) && me.seen >= 1 ==> |s.wins| >= 3 * me.seen)
    && (InFlight(me) || Claims(me) ==> me.seen >= 1 && Knows(me.view, me.seen))
    && (me.pc.LoadValue? || me.pc.TryClaim? ==> me.index == s.idxs[me.view.idxs] && me.index < |contents|)
    && (me.pc.TryClaim? ==> me.value == Holds(contents[me.index]))
    && (Claims(me) ==> Owns(contents, s, me))
    && (me.pc.Recheck? ==> Fetched(s, me, me.pc.request))
    && (me.pc.Exited? ==> |s.shuts| == 2)
  }

  ghost predicate Fetched<T>(s: State<T>, me: Worker<T>, id: nat) {
    && me.seen < id <= me.view.ids
    && (id <= Requests(s) ==> Knows(me.view, id))
    && (id > Requests(s) ==> me.view.shuts == 1 && DropId(s, id))
  }

  // The claimer of the current request holds the slot and carries that request's value.
  ghost predicate Owns<T>(contents: seq<T>, s: State<T>, me: Worker<T>) {
    && me.seen == Requests(s) && |s.wins| == 3 * me.seen && s.copies == me.seen - 1
    && me.view.idxs == me.seen && me.view.wins == |s.wins| - 1
    && me.view.writes == |s.slot| && me.view.copies == s.copies
    && |s.slot| == (if me.pc.WriteSlot? then me.seen - 1 else me.seen)
    && me.index == s.idxs[me.seen] && me.index < |contents| && me.value == Holds(contents[me.index])
  }

  ghost predicate OneClaimer<T>(s: State<T>) {
    && (forall a: nat, b: nat | a < b < |s.workers| :: !(Claims(s.workers[a]) && Claims(s.workers[b])))
    && (|s.wins| % 3 == 0 ==> exists w: nat :: w < |s.workers| && Claims(s.workers[w]))
  }

  ghost predicate ReaderOK<T>(c: Config<T>, s: State<T>, r: nat)
    requires r < |s.readers|
  {
    var me := s.readers[r];
    && Bounded(s, me.view)
    && (!me.pc.Idle? && !me.pc.Queued? ==> s.lock == Some(r))
    && (!me.pc.Idle? ==> me.index < c.len && s.drop.Live?)
  }

  // Request j + 1 was answered, once, with the value at its index.
  ghost predicate SlotOK<T>(contents: seq<T>, idxs: seq<nat>, slot: seq<Cell<T>>) {
    && |slot| < |idxs|
    && forall j: nat | j < |slot| :: idxs[j + 1] < |contents| && slot[j] == Holds(contents[idxs[j + 1]])
  }

  ghost predicate AnswersOK<T>(contents: seq<T>, answers: seq<Answer<T>>) {
    forall j: nat | j < |answers| :: answers[j].result == Lookup(contents, answers[j].index)
  }

  ghost predicate Inv<T>(c: Config<T>, contents: seq<T>, s: State<T>) {
    && Histories(c, s)
    && Control(c, contents, s)
    && Messages(s)
    && (forall w: nat | w < |s.workers| :: WorkerOK(c, contents, s, s.workers[w]))
    && OneClaimer(s)
    && (forall r: nat | r < |s.readers| :: ReaderOK(c, s, r))
    && SlotOK(contents, s.idxs, s.slot)
    && AnswersOK(contents, s.answers)
  }

  lemma InitInv<T>(c: Config<T>, contents: seq<T>, readers: nat)
    requires Faithful(c, contents)
    ensures Inv(c, contents, Init(c, readers))
  {
    var s := Init(c, readers);
    forall w: nat | w < |s.workers| ensures WorkerOK(c, contents, s, s.workers[w]) {
      assert s.workers[w] == Worker(Top, 0, 0, Zeroed, BOTTOM);
    }
  }

  // Below the limit the shift loses nothing, and tags tell requests and phases apart.
  lemma TagExact(id: nat)
    requires id < ID_LIMIT
    ensures Pending(id) == 4 * id
  {
  }

  lemma WinnerIsPending(j: nat, id: nat)
    requires 1 <= id < ID_LIMIT
    ensures WinnerAt(j) == Pending(id) <==> j == 3 * id - 2
    ensures WinnerAt(j) == Claimed(id) <==> j == 3 * id - 1
    ensures WinnerAt(j) == Ready(id) <==> j == 3 * id
  {
    TagExact(id);
  }
}
