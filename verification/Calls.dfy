// Hedged reads seen from the callers: which calls a run makes, and what they are answered.

module Calls {
  import opened Errors
  import opened Invariant
  import opened Progress
  import opened Protocol
  import opened Safety
  import opened Tables

  // The indices reader r calls `read` with, in order.
  function Asked(actions: seq<Action>, r: nat): seq<nat> {
    if actions == [] then []
    else Asked(actions[..|actions| - 1], r) + AskedBy(actions[|actions| - 1], r)
  }

  function AskedBy(a: Action, r: nat): seq<nat> {
    if a.Invoke? && a.reader == r then [a.index] else []
  }

  // What reader r's calls have returned, in order.
  function AnswersTo<T>(answers: seq<Answer<T>>, r: nat): seq<Answer<T>> {
    if answers == [] then []
    else
      var last := answers[|answers| - 1];
      AnswersTo(answers[..|answers| - 1], r) + (if last.reader == r then [last] else [])
  }

  predicate InCall<T>(s: State<T>, r: nat) { r < |s.readers| && !s.readers[r].pc.Idle? }

  // Each of reader r's calls is answered in its turn, and the call in progress, if any, is the last one made.
  ghost predicate InStep<T>(s: State<T>, asked: seq<nat>, r: nat) {
    var given := AnswersTo(s.answers, r);
    && |asked| == |given| + (if InCall(s, r) then 1 else 0)
    && (forall k | 0 <= k < |given| :: given[k].index == asked[k])
    && (InCall(s, r) ==> s.readers[r].index == asked[|given|])
  }

  lemma OneMoreAnswer<T>(answers: seq<Answer<T>>, answer: Answer<T>, r: nat)
    ensures AnswersTo(answers + [answer], r) == AnswersTo(answers, r) + (if answer.reader == r then [answer] else [])
  {
    assert (answers + [answer])[..|answers|] == answers;
  }

  lemma OneMoreAction(actions: seq<Action>, a: Action, r: nat)
    ensures Asked(actions + [a], r) == Asked(actions, r) + AskedBy(a, r)
  {
    assert (actions + [a])[..|actions|] == actions;
  }

  lemma StepKeepsInStep<T>(c: Config<T>, s: State<T>, a: Action, asked: seq<nat>, r: nat)
    requires Enabled(s, a) && InStep(s, asked, r)
    ensures InStep(Next(c, s, a), asked + AskedBy(a, r), r)
  {
    hide AnswersTo;
    hide ReaderNext;
    hide InvokeNext;
    match a
    case WorkerStep(_, _) =>
    case DropStep =>
    case Invoke(q, index) => InvokeKeepsInStep(c, s, q, index, asked, r);
    case ReaderStep(q, pos) => ReaderKeepsInStep(s, q, pos, asked, r);
  }

  lemma InvokeKeepsInStep<T>(c: Config<T>, s: State<T>, q: nat, index: nat, asked: seq<nat>, r: nat)
    requires InvokeEnabled(s, q) && InStep(s, asked, r)
    ensures InStep(InvokeNext(c, s, q, index), asked + (if q == r then [index] else []), r)
  {
    hide AnswersTo;
    OneMoreAnswer(s.answers, Answer(q, index, Err(OutOfBounds(index, c.len))), r);
  }

  lemma ReaderKeepsInStep<T>(s: State<T>, q: nat, pos: nat, asked: seq<nat>, r: nat)
    requires ReaderEnabled(s, q, pos) && InStep(s, asked, r)
    ensures InStep(ReaderNext(s, q, pos), asked, r)
  {
    hide AnswersTo;
    var me := s.readers[q];
    if me.pc.Leaving? {
      OneMoreAnswer(s.answers, Answer(q, me.index, me.pc.result), r);
    }
  }

  lemma {:induction false} RunKeepsInStep<T>(
      c: Config<T>, states: seq<State<T>>, actions: seq<Action>, readers: nat, r: nat, n: nat)
    requires IsReachingRun(c, states, actions, readers) && n <= |actions|
    ensures InStep(states[n], Asked(actions[..n], r), r)
  {
    hide Next;
    if n > 0 {
      RunKeepsInStep(c, states, actions, readers, r, n - 1);
      StepKeepsInStep(c, states[n - 1], actions[n - 1], Asked(actions[..n - 1], r), r);
      assert states[n - 1 + 1] == Next(c, states[n - 1], actions[n - 1]);
      assert actions[..n] == actions[..n - 1] + [actions[n - 1]];
      OneMoreAction(actions[..n - 1], actions[n - 1], r);
    }
  }

  // Hedged reads refine indexing a plain sequence: over a table whose replicas hold `contents`, in every
  // interleaving of any number of readers and workers under weak memory, and at every moment n of the run,
  // the k-th call that a reader made is answered with what indexing `contents` with that call's index gives.
  // At most the last call of each reader is still open, and never one whose index is out of range: that one
  // is answered in the step that makes it.
  lemma HedgedReadsAreLookups<T>(
      table: Table<T>, contents: seq<T>, states: seq<State<T>>, actions: seq<Action>, readers: nat, r: nat, n: nat)
    requires Represents(table, contents)
    requires IsReachingRun(ConfigOf(table), states, actions, readers) && n <= |actions|
    ensures var asked, given := Asked(actions[..n], r), AnswersTo(states[n].answers, r);
            && |given| <= |asked| <= |given| + 1
            && (forall k | 0 <= k < |given| :: given[k].result == Lookup(contents, asked[k]))
            && (|given| < |asked| <==> InCall(states[n], r))
            && (|given| < |asked| ==> asked[|given|] < |contents|)
  {
    var c := ConfigOf(table);
    TableIsFaithful(table, contents);
    RunKeepsInv(c, contents, states, actions, readers, n);
    RunKeepsInStep(c, states, actions, readers, r, n);
    InvAnswers(c, contents, states[n], r);
  }

  lemma InvAnswers<T>(c: Config<T>, contents: seq<T>, s: State<T>, r: nat)
    requires Faithful(c, contents) && Inv(c, contents, s)
    ensures forall k | 0 <= k < |AnswersTo(s.answers, r)| ::
              AnswersTo(s.answers, r)[k].result == Lookup(contents, AnswersTo(s.answers, r)[k].index)
    ensures InCall(s, r) ==> s.readers[r].index < |contents|
  {
    AnswersAreLogged(s.answers, r);
    if InCall(s, r) {
      assert ReaderOK(c, s, r);
    }
  }

  lemma {:induction false} AnswersAreLogged<T>(answers: seq<Answer<T>>, r: nat)
    ensures forall answer | answer in AnswersTo(answers, r) :: answer in answers && answer.reader == r
  {
    if answers != [] {
      AnswersAreLogged(answers[..|answers| - 1], r);
    }
  }

  // A reaching run goes on with whatever quiet run leads on from its end; the calls made stay the same.
  lemma Continue<T(!new)>(c: Config<T>, states: seq<State<T>>, actions: seq<Action>, readers: nat, t: State<T>)
    returns (longer: seq<State<T>>, more: seq<Action>)
    requires IsReachingRun(c, states, actions, readers) && Reaches(c, states[|states| - 1], t)
    ensures IsReachingRun(c, longer, more, readers) && longer[|longer| - 1] == t && actions <= more
    ensures forall r: nat :: Asked(more, r) == Asked(actions, r)
  {
    hide Next;
    hide Enabled;
    hide InBudget;
    hide Asked;
    var rest, quiet :| IsQuietRun(c, rest, quiet) && rest[0] == states[|states| - 1] && rest[|rest| - 1] == t;
    RunsJoin(c, states, actions, rest, quiet);
    longer, more := states + rest[1..], actions + quiet;
    forall r: nat ensures Asked(more, r) == Asked(actions, r) {
      QuietAsksNothing(actions, quiet, r);
    }
  }

  lemma {:induction false} QuietAsksNothing(actions: seq<Action>, quiet: seq<Action>, r: nat)
    requires forall k | 0 <= k < |quiet| :: !quiet[k].Invoke?
    ensures Asked(actions + quiet, r) == Asked(actions, r)
  {
    if quiet == [] {
      assert actions + quiet == actions;
    } else {
      var last := |quiet| - 1;
      assert actions + quiet == (actions + quiet[..last]) + [quiet[last]];
      OneMoreAction(actions + quiet[..last], quiet[last], r);
      QuietAsksNothing(actions, quiet[..last], r);
    }
  }

  // The protocol has no dead end: every run in which a call is in progress, waiting for the mutex or not,
  // can go on, without another call being made, until that call has returned what indexing the contents
  // with its index gives.
  lemma EveryCallCanReturn<T(!new)>(
      c: Config<T>, contents: seq<T>, states: seq<State<T>>, actions: seq<Action>, readers: nat, r: nat)
    returns (longer: seq<State<T>>, more: seq<Action>)
    requires Faithful(c, contents) && IsReachingRun(c, states, actions, readers)
    requires states[|actions|].nextId + 2 <= ID_LIMIT && InCall(states[|actions|], r)
    ensures IsReachingRun(c, longer, more, readers) && actions <= more
    ensures forall q: nat :: Asked(more, q) == Asked(actions, q)
    ensures var asked, given := Asked(actions, r), AnswersTo(longer[|more|].answers, r);
            && |asked| == |given| > |AnswersTo(states[|actions|].answers, r)|
            && given[|given| - 1].result == Lookup(contents, asked[|asked| - 1])
  {
    hide Inv;
    hide Reaches;
    hide Next;
    hide Asked;
    hide AnswersTo;
    RunKeepsInv(c, contents, states, actions, readers, |actions|);
    var t := CallCanReturn(c, contents, states[|actions|], r);
    longer, more := Continue(c, states, actions, readers, t);
    RunKeepsInStep(c, states, actions, readers, r, |actions|);
    RunKeepsInStep(c, longer, more, readers, r, |more|);
    assert actions[..|actions|] == actions && more[..|more|] == more;
    InvAnswers(c, contents, t, r);
  }

  // Nobody is reading, and the runtime is alive.
  ghost predicate AtRest<T>(s: State<T>, readers: nat) {
    |s.readers| == readers && (forall r: nat :: !InCall(s, r)) && s.lock == None && s.drop.Live?
  }

  // Some run makes any given list of calls, one after the other.
  lemma {:induction false} ScriptRun<T(!new)>(
      c: Config<T>, contents: seq<T>, readers: nat, calls: seq<Action>)
    returns (states: seq<State<T>>, actions: seq<Action>)
    requires Faithful(c, contents) && |calls| + 2 <= ID_LIMIT
    requires forall k | 0 <= k < |calls| :: calls[k].Invoke? && calls[k].reader < readers
    ensures IsReachingRun(c, states, actions, readers)
    ensures forall r: nat :: Asked(actions, r) == Asked(calls, r)
    ensures AtRest(states[|actions|], readers) && states[|actions|].nextId <= |calls| + 1
    decreases |calls|
  {
    hide Inv;
    hide Reaches;
    hide Asked;
    hide Next;
    if calls == [] {
      states, actions := [Init(c, readers)], [];
    } else {
      var last := |calls| - 1;
      states, actions := ScriptRun(c, contents, readers, calls[..last]);
      RunKeepsInv(c, contents, states, actions, readers, |actions|);
      var s, a := states[|actions|], calls[last];
      states, actions := OneMoreCall(c, contents, states, actions, readers, a);
      forall r: nat ensures Asked(actions, r) == Asked(calls, r) {
        assert calls == calls[..last] + [a];
        OneMoreAction(calls[..last], a, r);
      }
    }
  }

  lemma CallFromRest<T>(c: Config<T>, s: State<T>, a: Action, readers: nat)
    requires AtRest(s, readers) && a.Invoke? && a.reader < readers
    ensures Enabled(s, a) && Next(c, s, a).nextId == s.nextId
    ensures var t := Next(c, s, a);
            && |t.readers| == readers && t.lock == None && t.drop.Live?
            && (forall q: nat | q != a.reader :: !InCall(t, q))
            && (!InCall(t, a.reader) ==> AtRest(t, readers))
  {
    assert !InCall(s, a.reader);
    var t := Next(c, s, a);
    forall q: nat | q != a.reader ensures !InCall(t, q) {
      assert !InCall(s, q);
    }
  }

  lemma RestAgain<T>(t: State<T>, u: State<T>, r: nat, readers: nat)
    requires r < |t.readers| == readers && t.drop.Live? && forall q: nat | q != r :: !InCall(t, q)
    requires OthersWait(t, u, r) && u.readers[r].pc.Idle? && u.lock == None && u.drop == t.drop
    ensures AtRest(u, readers)
  {
    forall q: nat ensures !InCall(u, q) {
      assert q != r ==> !InCall(t, q);
    }
  }

  lemma OneMoreCall<T(!new)>(
      c: Config<T>, contents: seq<T>, states: seq<State<T>>, actions: seq<Action>, readers: nat, a: Action)
    returns (longer: seq<State<T>>, more: seq<Action>)
    requires Faithful(c, contents) && IsReachingRun(c, states, actions, readers)
    requires a.Invoke? && a.reader < readers
    requires AtRest(states[|actions|], readers) && states[|actions|].nextId + 2 <= ID_LIMIT
    ensures IsReachingRun(c, longer, more, readers)
    ensures forall r: nat :: Asked(more, r) == Asked(actions, r) + AskedBy(a, r)
    ensures AtRest(longer[|more|], readers) && longer[|more|].nextId <= states[|actions|].nextId + 1
  {
    hide Inv;
    hide Reaches;
    hide Asked;
    hide Next;
    hide Enabled;
    hide AtRest;
    var s := states[|actions|];
    CallFromRest(c, s, a, readers);
    var t := Next(c, s, a);
    longer, more := states + [t], actions + [a];
    assert IsReachingRun(c, longer, more, readers);
    forall r: nat ensures Asked(more, r) == Asked(actions, r) + AskedBy(a, r) {
      OneMoreAction(actions, a, r);
    }
    if InCall(t, a.reader) {
      RunKeepsInv(c, contents, longer, more, readers, |more|);
      var u := CallCanReturn(c, contents, t, a.reader);
      longer, more := Continue(c, longer, more, readers, u);
      RestAgain(t, u, a.reader, readers);
    }
  }

  // So any list of calls, by any readers, can be made, and all of them answered with what indexing gives.
  lemma EveryScriptIsAnswered<T(!new)>(c: Config<T>, contents: seq<T>, readers: nat, calls: seq<Action>)
    returns (states: seq<State<T>>, actions: seq<Action>)
    requires Faithful(c, contents) && |calls| + 2 <= ID_LIMIT
    requires forall k | 0 <= k < |calls| :: calls[k].Invoke? && calls[k].reader < readers
    ensures IsReachingRun(c, states, actions, readers)
    ensures forall r: nat :: Asked(actions, r) == Asked(calls, r)
    ensures forall r: nat ::
              |AnswersTo(states[|actions|].answers, r)| == |Asked(calls, r)|
              && forall k | 0 <= k < |Asked(calls, r)| ::
                   AnswersTo(states[|actions|].answers, r)[k].result == Lookup(contents, Asked(calls, r)[k])
  {
    hide Inv;
    hide Asked;
    hide AnswersTo;
    states, actions := ScriptRun(c, contents, readers, calls);
    RunKeepsInv(c, contents, states, actions, readers, |actions|);
    assert actions[..|actions|] == actions;
    forall r: nat
      ensures |AnswersTo(states[|actions|].answers, r)| == |Asked(calls, r)|
      ensures forall k | 0 <= k < |Asked(calls, r)| ::
                AnswersTo(states[|actions|].answers, r)[k].result == Lookup(contents, Asked(calls, r)[k])
    {
      RunKeepsInStep(c, states, actions, readers, r, |actions|);
      InvAnswers(c, contents, states[|actions|], r);
      assert !InCall(states[|actions|], r);
    }
  }
}
