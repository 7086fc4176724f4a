// Pairing samples across channels (pair_samples_n in examples/hedged_read.rs): a greedy pass with one
// cursor per channel, and why no selection can pair more.

module Pairing {

  datatype Sample = Sample(timestamp: nat, latency: nat)

  const MAX_PAIR_GAP: nat := 400

  const U64_MAX: nat := 0xFFFF_FFFF_FFFF_FFFF

  // One sample position per channel.
  type Tuple = seq<nat>

  ghost predicate IsU64(all: seq<seq<Sample>>, n: nat)
    requires LongEnough(all, n)
  {
    forall c, i | 0 <= c < |all| && 0 <= i < n ::
      all[c][i].timestamp < 0x1_0000_0000_0000_0000 && all[c][i].latency < 0x1_0000_0000_0000_0000
  }

  ghost predicate LongEnough(all: seq<seq<Sample>>, n: nat) {
    forall c | 0 <= c < |all| :: |all[c]| >= n
  }

  // Each channel's samples were taken in time order.
  ghost predicate Chronological(all: seq<seq<Sample>>, n: nat)
    requires LongEnough(all, n)
  {
    forall c, i, j | 0 <= c < |all| && 0 <= i <= j < n :: all[c][i].timestamp <= all[c][j].timestamp
  }

  ghost predicate InRange(all: seq<seq<Sample>>, n: nat, t: Tuple) {
    |t| == |all| && forall c | 0 <= c < |t| :: t[c] < n
  }

  function TimeAt(all: seq<seq<Sample>>, n: nat, t: Tuple, c: nat): nat
    requires LongEnough(all, n) && InRange(all, n, t) && c < |all|
  {
    all[c][t[c]].timestamp
  }

  function LatencyAt(all: seq<seq<Sample>>, n: nat, t: Tuple, c: nat): nat
    requires LongEnough(all, n) && InRange(all, n, t) && c < |all|
  {
    all[c][t[c]].latency
  }

  // Any two of the tuple's samples are less than the gap apart.
  ghost predicate Close(all: seq<seq<Sample>>, n: nat, t: Tuple)
    requires LongEnough(all, n) && InRange(all, n, t)
  {
    forall c: nat, d: nat | c < |all| && d < |all| :: TimeAt(all, n, t, c) - TimeAt(all, n, t, d) < MAX_PAIR_GAP
  }

  // The channel holding the earliest of the tuple's samples; the first such, as a strict comparison finds.
  function Earliest(all: seq<seq<Sample>>, n: nat, t: Tuple, upTo: nat): (m: nat)
    requires LongEnough(all, n) && InRange(all, n, t) && 0 < upTo <= |all|
    ensures m < upTo
    ensures forall c: nat | c < upTo :: TimeAt(all, n, t, m) <= TimeAt(all, n, t, c)
    ensures forall c: nat | c < m :: TimeAt(all, n, t, m) < TimeAt(all, n, t, c)
  {
    if upTo == 1 then 0
    else
      var m := Earliest(all, n, t, upTo - 1);
      if TimeAt(all, n, t, upTo - 1) < TimeAt(all, n, t, m) then upTo - 1 else m
  }

  function Advance(t: Tuple): (r: Tuple)
    ensures |r| == |t| && forall c | 0 <= c < |t| :: r[c] == t[c] + 1
  {
    seq(|t|, c requires 0 <= c < |t| => t[c] + 1)
  }

  // How far the cursors are from the end.
  function Remaining(n: nat, t: Tuple): nat {
    if t == [] then 0 else (if t[0] < n then n - t[0] else 0) + Remaining(n, t[1..])
  }

  lemma {:induction false} RemainingDrops(n: nat, t: Tuple, u: Tuple, c: nat)
    requires |t| == |u| && c < |t| && t[c] < n && u[c] > t[c]
    requires forall d | 0 <= d < |t| :: t[d] <= u[d]
    ensures Remaining(n, u) < Remaining(n, t)
  {
    if c == 0 {
      RemainingNoMore(n, t[1..], u[1..]);
    } else {
      RemainingDrops(n, t[1..], u[1..], c - 1);
    }
  }

  lemma {:induction false} RemainingNoMore(n: nat, t: Tuple, u: Tuple)
    requires |t| == |u| && forall d | 0 <= d < |t| :: t[d] <= u[d]
    ensures Remaining(n, u) <= Remaining(n, t)
  {
    if t != [] {
      RemainingNoMore(n, t[1..], u[1..]);
    }
  }

  // The tuples the greedy pass pairs, from given cursors on.
  ghost function Greedy(all: seq<seq<Sample>>, n: nat, cursors: Tuple): seq<Tuple>
    requires LongEnough(all, n) && 0 < |all| == |cursors|
    decreases Remaining(n, cursors)
  {
    if !InRange(all, n, cursors) then []
    else if Close(all, n, cursors) then
      RemainingDrops(n, cursors, Advance(cursors), 0);
      [cursors] + Greedy(all, n, Advance(cursors))
    else
      var m := Earliest(all, n, cursors, |all|);
      RemainingDrops(n, cursors, cursors[m := cursors[m] + 1], m);
      Greedy(all, n, cursors[m := cursors[m] + 1])
  }

  ghost predicate IsMinLatency(all: seq<seq<Sample>>, n: nat, t: Tuple, latency: nat)
    requires LongEnough(all, n) && InRange(all, n, t)
  {
    && (forall c: nat | c < |all| :: latency <= LatencyAt(all, n, t, c))
    && exists c: nat :: c < |all| && latency == LatencyAt(all, n, t, c)
  }

  // Selections to compare with: tuples in range and close, no sample used twice.

  ghost predicate Valid(all: seq<seq<Sample>>, n: nat, t: Tuple)
    requires LongEnough(all, n)
  {
    InRange(all, n, t) && Close(all, n, t)
  }

  ghost predicate Apart(t: Tuple, u: Tuple)
    requires |t| == |u|
  {
    forall c | 0 <= c < |t| :: t[c] != u[c]
  }

  ghost predicate Below(t: Tuple, u: Tuple)
    requires |t| == |u|
  {
    forall c | 0 <= c < |t| :: t[c] < u[c]
  }

  ghost predicate AtMost(t: Tuple, u: Tuple)
    requires |t| == |u|
  {
    forall c | 0 <= c < |t| :: t[c] <= u[c]
  }

  ghost predicate IsSelection(all: seq<seq<Sample>>, n: nat, ts: seq<Tuple>)
    requires LongEnough(all, n)
  {
    && (forall k | 0 <= k < |ts| :: Valid(all, n, ts[k]))
    && (forall j, k | 0 <= j < k < |ts| :: Apart(ts[j], ts[k]))
  }

  ghost predicate From(cursors: Tuple, ts: seq<Tuple>) {
    forall k | 0 <= k < |ts| :: |ts[k]| == |cursors| && AtMost(cursors, ts[k])
  }

  // Uncrossing. Two close tuples that share no sample can be replaced by their componentwise minimum and
  // maximum: the same samples, and close again, since each channel is in time order.

  function Min(t: Tuple, u: Tuple): (r: Tuple)
    requires |t| == |u|
    ensures |r| == |t| && forall c | 0 <= c < |t| :: r[c] == if t[c] <= u[c] then t[c] else u[c]
  {
    seq(|t|, c requires 0 <= c < |t| => if t[c] <= u[c] then t[c] else u[c])
  }

  function Max(t: Tuple, u: Tuple): (r: Tuple)
    requires |t| == |u|
    ensures |r| == |t| && forall c | 0 <= c < |t| :: r[c] == if t[c] <= u[c] then u[c] else t[c]
  {
    seq(|t|, c requires 0 <= c < |t| => if t[c] <= u[c] then u[c] else t[c])
  }

  lemma UncrossedAreValid(all: seq<seq<Sample>>, n: nat, t: Tuple, u: Tuple)
    requires LongEnough(all, n) && Chronological(all, n) && Valid(all, n, t) && Valid(all, n, u)
    ensures Valid(all, n, Min(t, u)) && Valid(all, n, Max(t, u))
  {
    var lo, hi := Min(t, u), Max(t, u);
    forall c: nat, d: nat | c < |all| && d < |all|
      ensures TimeAt(all, n, lo, c) - TimeAt(all, n, lo, d) < MAX_PAIR_GAP
      ensures TimeAt(all, n, hi, c) - TimeAt(all, n, hi, d) < MAX_PAIR_GAP
    {
      // lo[d] comes from one of the two; in that one, channel c's sample is no earlier than lo's.
      var v := if lo[d] == t[d] then t else u;
      assert TimeAt(all, n, lo, c) <= TimeAt(all, n, v, c) && TimeAt(all, n, lo, d) == TimeAt(all, n, v, d);
      var w := if hi[c] == t[c] then t else u;
      assert TimeAt(all, n, w, d) <= TimeAt(all, n, hi, d) && TimeAt(all, n, hi, c) == TimeAt(all, n, w, c);
    }
  }

  // Sinks a tuple through a selection: what comes out at the bottom is below everything left.
  ghost function Sink(t: Tuple, rest: seq<Tuple>): (r: (Tuple, seq<Tuple>))
    requires forall k | 0 <= k < |rest| :: |rest[k]| == |t|
    ensures |r.0| == |t| && |r.1| == |rest| && forall k | 0 <= k < |rest| :: |r.1[k]| == |t|
    decreases rest
  {
    if rest == [] then (t, [])
    else
      var (bottom, others) := Sink(Min(t, rest[0]), rest[1..]);
      (bottom, [Max(t, rest[0])] + others)
  }

  // Sample x of channel c is used by one of the tuples.
  ghost predicate Uses(ts: seq<Tuple>, c: nat, x: nat) {
    exists k | 0 <= k < |ts| :: c < |ts[k]| && ts[k][c] == x
  }

  lemma {:induction false} SinkUsesSameSamples(t: Tuple, rest: seq<Tuple>, c: nat, x: nat)
    requires forall k | 0 <= k < |rest| :: |rest[k]| == |t|
    requires c < |t|
    requires Sink(t, rest).0[c] == x || Uses(Sink(t, rest).1, c, x)
    ensures t[c] == x || Uses(rest, c, x)
    decreases rest
  {
    if rest != [] {
      var lo, hi := Min(t, rest[0]), Max(t, rest[0]);
      var (bottom, others) := Sink(lo, rest[1..]);
      if bottom[c] == x || Uses(others, c, x) {
        SinkUsesSameSamples(lo, rest[1..], c, x);
        if Uses(rest[1..], c, x) {
          var k :| 0 <= k < |rest[1..]| && c < |rest[1..][k]| && rest[1..][k][c] == x;
          assert rest[k + 1][c] == x;
        } else {
          assert lo[c] == x;
          assert t[c] == x || rest[0][c] == x;
        }
      } else {
        assert hi[c] == x;
        assert t[c] == x || rest[0][c] == x;
      }
    }
  }

  lemma {:induction false} SinkKeepsSelection(all: seq<seq<Sample>>, n: nat, t: Tuple, rest: seq<Tuple>)
    requires LongEnough(all, n) && Chronological(all, n) && IsSelection(all, n, [t] + rest)
    requires forall k | 0 <= k < |rest| :: |rest[k]| == |t|
    ensures var (bottom, others) := Sink(t, rest);
            && Valid(all, n, bottom) && IsSelection(all, n, others)
            && forall k | 0 <= k < |others| :: Below(bottom, others[k])
    decreases rest
  {
    assert Valid(all, n, ([t] + rest)[0]);
    if rest != [] {
      var lo, hi, tail := Min(t, rest[0]), Max(t, rest[0]), rest[1..];
      assert ([t] + rest)[1] == rest[0] && Apart(t, rest[0]);
      UncrossedAreValid(all, n, t, rest[0]);
      forall k | 0 <= k < |tail|
        ensures Valid(all, n, tail[k]) && Apart(t, tail[k]) && Apart(rest[0], tail[k])
      {
        assert ([t] + rest)[k + 2] == tail[k] && ([t] + rest)[0] == t;
      }
      forall j, k | 0 <= j < k < |[lo] + tail| ensures Apart(([lo] + tail)[j], ([lo] + tail)[k]) {
        if j > 0 {
          assert ([t] + rest)[j + 1] == tail[j - 1] && ([t] + rest)[k + 1] == tail[k - 1];
        }
      }
      SinkKeepsSelection(all, n, lo, tail);
      var (bottom, others) := Sink(lo, tail);
      forall k | 0 <= k < |others| ensures Apart(hi, others[k]) {
        forall c | 0 <= c < |hi| ensures hi[c] != others[k][c] {
          SinkUsesSameSamples(lo, tail, c, others[k][c]);
        }
      }
      assert Below(bottom, hi) by {
        BottomAtMost(lo, tail);
      }
    }
  }

  lemma {:induction false} BottomAtMost(t: Tuple, rest: seq<Tuple>)
    requires forall k | 0 <= k < |rest| :: |rest[k]| == |t|
    ensures AtMost(Sink(t, rest).0, t)
    decreases rest
  {
    if rest != [] {
      BottomAtMost(Min(t, rest[0]), rest[1..]);
    }
  }

  // A non-empty selection from the cursors on can give up one tuple so that the others start beyond them.
  lemma GiveUpOne(all: seq<seq<Sample>>, n: nat, cursors: Tuple, ts: seq<Tuple>) returns (others: seq<Tuple>)
    requires LongEnough(all, n) && Chronological(all, n) && |cursors| == |all|
    requires IsSelection(all, n, ts) && From(cursors, ts) && ts != []
    ensures IsSelection(all, n, others) && From(Advance(cursors), others) && |others| == |ts| - 1
  {
    var t, rest := ts[0], ts[1..];
    assert ts == [t] + rest;
    forall k | 0 <= k < |rest| ensures |rest[k]| == |t| {
      assert rest[k] == ts[k + 1];
    }
    SinkKeepsSelection(all, n, t, rest);
    others := Sink(t, rest).1;
    var bottom := Sink(t, rest).0;
    forall c | 0 <= c < |t| ensures cursors[c] <= bottom[c] {
      SinkUsesSameSamples(t, rest, c, bottom[c]);
      if Uses(rest, c, bottom[c]) {
        var k :| 0 <= k < |rest| && c < |rest[k]| && rest[k][c] == bottom[c];
        assert AtMost(cursors, ts[k + 1]) && ts[k + 1] == rest[k];
      }
    }
    forall k | 0 <= k < |others| ensures AtMost(Advance(cursors), others[k]) {
      assert Below(bottom, others[k]);
    }
  }

  // When the samples at the cursors are too far apart, the earliest of them pairs with nothing later.
  lemma EarliestIsUseless(all: seq<seq<Sample>>, n: nat, cursors: Tuple, m: nat, t: Tuple)
    requires LongEnough(all, n) && Chronological(all, n) && InRange(all, n, cursors) && !Close(all, n, cursors)
    requires m < |all| && forall c: nat | c < |all| :: TimeAt(all, n, cursors, m) <= TimeAt(all, n, cursors, c)
    requires Valid(all, n, t) && AtMost(cursors, t)
    ensures t[m] > cursors[m]
  {
    var c: nat, d: nat :|
      c < |all| && d < |all| && TimeAt(all, n, cursors, c) - TimeAt(all, n, cursors, d) >= MAX_PAIR_GAP;
    assert TimeAt(all, n, cursors, c) <= TimeAt(all, n, t, c);
    assert TimeAt(all, n, t, c) - TimeAt(all, n, t, m) < MAX_PAIR_GAP;
  }

  lemma CursorsInRange(all: seq<seq<Sample>>, n: nat, cursors: Tuple, ts: seq<Tuple>)
    requires LongEnough(all, n) && |cursors| == |all| && IsSelection(all, n, ts) && From(cursors, ts) && ts != []
    ensures InRange(all, n, cursors)
  {
    assert Valid(all, n, ts[0]) && AtMost(cursors, ts[0]);
  }

  // Greedy pairing is optimal: no selection of close tuples that uses no sample twice, in whatever
  // order, has more tuples than the greedy pass pairs.
  lemma {:induction false} GreedyIsOptimal(all: seq<seq<Sample>>, n: nat, cursors: Tuple, ts: seq<Tuple>)
    requires LongEnough(all, n) && Chronological(all, n) && 0 < |all| == |cursors|
    requires IsSelection(all, n, ts) && From(cursors, ts)
    ensures |ts| <= |Greedy(all, n, cursors)|
    decreases Remaining(n, cursors)
  {
    hide Remaining;
    hide Chronological;
    if !InRange(all, n, cursors) {
      if ts != [] {
        CursorsInRange(all, n, cursors, ts);
        assert false;
      }
    } else if Close(all, n, cursors) {
      if ts != [] {
        var others := GiveUpOne(all, n, cursors, ts);
        RemainingDrops(n, cursors, Advance(cursors), 0);
        GreedyIsOptimal(all, n, Advance(cursors), others);
      }
    } else {
      var m := Earliest(all, n, cursors, |all|);
      var next := cursors[m := cursors[m] + 1];
      forall k | 0 <= k < |ts| ensures AtMost(next, ts[k]) {
        EarliestIsUseless(all, n, cursors, m, ts[k]);
      }
      RemainingDrops(n, cursors, next, m);
      GreedyIsOptimal(all, n, next, ts);
    }
  }

  // What greedy pairs is such a selection itself, in order: each tuple uses later samples than the one
  // before, in every channel. This needs no assumption on the timestamps.
  lemma {:induction false} GreedyIsSelection(all: seq<seq<Sample>>, n: nat, cursors: Tuple)
    requires LongEnough(all, n) && 0 < |all| == |cursors|
    ensures IsSelection(all, n, Greedy(all, n, cursors)) && From(cursors, Greedy(all, n, cursors))
    ensures Ordered(Greedy(all, n, cursors), |all|)
    decreases Remaining(n, cursors)
  {
    hide IsSelection;
    hide From;
    hide Ordered;
    hide Close;
    if !InRange(all, n, cursors) {
      NothingIsSelection(all, n, cursors);
    } else if Close(all, n, cursors) {
      GreedyPairs(all, n, cursors, []);
      GreedyIsSelection(all, n, Advance(cursors));
      PrependToSelection(all, n, cursors, Greedy(all, n, Advance(cursors)));
    } else {
      var m := Earliest(all, n, cursors, |all|);
      GreedySkips(all, n, cursors, m);
      GreedyIsSelection(all, n, cursors[m := cursors[m] + 1]);
      FromEarlier(cursors, cursors[m := cursors[m] + 1], Greedy(all, n, cursors));
    }
  }

  ghost predicate Ordered(g: seq<Tuple>, width: nat) {
    && (forall k | 0 <= k < |g| :: |g[k]| == width)
    && forall j, k | 0 <= j < k < |g| :: Below(g[j], g[k])
  }

  lemma NothingIsSelection(all: seq<seq<Sample>>, n: nat, cursors: Tuple)
    requires LongEnough(all, n)
    ensures IsSelection(all, n, []) && From(cursors, []) && Ordered([], |all|)
  {
  }

  lemma PrependToSelection(all: seq<seq<Sample>>, n: nat, t: Tuple, g: seq<Tuple>)
    requires LongEnough(all, n) && Valid(all, n, t) && IsSelection(all, n, g)
    requires From(Advance(t), g) && Ordered(g, |all|)
    ensures IsSelection(all, n, [t] + g) && From(t, [t] + g) && Ordered([t] + g, |all|)
  {
    forall k | 0 <= k < |g| ensures Below(t, g[k]) && Apart(t, g[k]) && AtMost(t, g[k]) {
      assert AtMost(Advance(t), g[k]);
    }
  }

  lemma FromEarlier(t: Tuple, u: Tuple, g: seq<Tuple>)
    requires |t| == |u| && AtMost(t, u) && From(u, g)
    ensures From(t, g)
  {
    forall k | 0 <= k < |g| ensures |g[k]| == |t| && AtMost(t, g[k]) {
      assert AtMost(u, g[k]);
    }
  }

  // Ordered tuples below n are at most n.
  lemma {:induction false} OrderedSelectionIsShort(all: seq<seq<Sample>>, n: nat, g: seq<Tuple>)
    requires LongEnough(all, n) && |all| > 0 && IsSelection(all, n, g)
    requires Ordered(g, |all|)
    ensures |g| <= n
    ensures g != [] ==> g[|g| - 1][0] >= |g| - 1
  {
    if g != [] {
      var last := |g| - 1;
      OrderedSelectionIsShort(all, n, g[..last]);
      assert Valid(all, n, g[last]) && g[last][0] < n;
      if last > 0 {
        assert Valid(all, n, g[last - 1]) && Below(g[last - 1], g[last]);
        assert g[..last][|g[..last]| - 1] == g[last - 1];
      }
    }
  }

  // What one look at the cursors' samples finds, as the scan over the channels accumulates it. The
  // accumulators start from the extremes of u64, so a channel is remembered only if its timestamp is
  // below u64::MAX.
  ghost predicate Scanned(
      all: seq<seq<Sample>>, n: nat, t: Tuple, upTo: nat,
      minTime: nat, maxTime: nat, minChannel: int, minLatency: nat)
    requires LongEnough(all, n) && |t| == |all| && upTo <= |all|
    requires forall c | 0 <= c < upTo :: t[c] < n
  {
    && (forall c | 0 <= c < upTo :: minTime <= all[c][t[c]].timestamp <= maxTime)
    && (forall c | 0 <= c < upTo :: minLatency <= all[c][t[c]].latency)
    && (if minChannel < 0 then minTime == U64_MAX
        else
          && minChannel < upTo && minTime == all[minChannel][t[minChannel]].timestamp
          && forall c | 0 <= c < minChannel :: minTime < all[c][t[c]].timestamp)
    && (maxTime == 0 || exists c :: 0 <= c < upTo && maxTime == all[c][t[c]].timestamp)
    && (minLatency == U64_MAX || exists c :: 0 <= c < upTo && minLatency == all[c][t[c]].latency)
  }

  // The latencies reported for a list of tuples: each the least of its samples'.
  ghost predicate ReportLatencies(all: seq<seq<Sample>>, n: nat, ts: seq<Tuple>, latencies: seq<nat>)
    requires LongEnough(all, n)
  {
    && |latencies| == |ts|
    && forall k | 0 <= k < |ts| :: InRange(all, n, ts[k]) && IsMinLatency(all, n, ts[k], latencies[k])
  }

  lemma ScanDecides(
      all: seq<seq<Sample>>, n: nat, t: Tuple, minTime: nat, maxTime: nat, minChannel: int, minLatency: nat)
    requires LongEnough(all, n) && IsU64(all, n) && 0 < |all| && InRange(all, n, t)
    requires Scanned(all, n, t, |all|, minTime, maxTime, minChannel, minLatency)
    ensures minTime <= maxTime
    ensures maxTime - minTime < MAX_PAIR_GAP <==> Close(all, n, t)
    ensures IsMinLatency(all, n, t, minLatency)
    ensures !Close(all, n, t) ==> minChannel == Earliest(all, n, t, |all|)
  {
    var e := Earliest(all, n, t, |all|);
    assert minTime <= TimeAt(all, n, t, 0) <= maxTime && minLatency <= LatencyAt(all, n, t, 0);
    assert minTime == TimeAt(all, n, t, e) by {
      if minChannel >= 0 { assert TimeAt(all, n, t, e) <= TimeAt(all, n, t, minChannel); }
    }
    var m: nat := 0;
    if maxTime > 0 {
      m :| m < |all| && maxTime == all[m][t[m]].timestamp;
    }
    assert maxTime == TimeAt(all, n, t, m);
    if Close(all, n, t) {
      assert TimeAt(all, n, t, m) - TimeAt(all, n, t, e) < MAX_PAIR_GAP;
    }
    var l: nat := 0;
    if minLatency < U64_MAX {
      l :| l < |all| && minLatency == all[l][t[l]].latency;
    }
    assert minLatency == LatencyAt(all, n, t, l);
  }

  lemma ScanStep(
      all: seq<seq<Sample>>, n: nat, t: Tuple, channel: nat,
      minTime: nat, maxTime: nat, minChannel: int, minLatency: nat)
    requires LongEnough(all, n) && IsU64(all, n) && |t| == |all| && channel < |all|
    requires forall c | 0 <= c <= channel :: t[c] < n
    requires minChannel < |all|
    requires Scanned(all, n, t, channel, minTime, maxTime, minChannel, minLatency)
    ensures var sample := all[channel][t[channel]];
            Scanned(all, n, t, channel + 1,
                    if sample.timestamp < minTime then sample.timestamp else minTime,
                    if sample.timestamp > maxTime then sample.timestamp else maxTime,
                    if sample.timestamp < minTime then channel else minChannel,
                    if sample.latency < minLatency then sample.latency else minLatency)
  {
    var sample := all[channel][t[channel]];
    assert sample.timestamp <= U64_MAX && sample.latency <= U64_MAX;
  }

  lemma ScanStart(all: seq<seq<Sample>>, n: nat, t: Tuple)
    requires LongEnough(all, n) && |t| == |all|
    ensures Scanned(all, n, t, 0, U64_MAX, 0, -1, U64_MAX)
  {
  }

  // One turn of the greedy pass: stop, ...
  lemma GreedyStops(all: seq<seq<Sample>>, n: nat, cursors: Tuple, done: seq<Tuple>)
    requires LongEnough(all, n) && 0 < |all| == |cursors| && !InRange(all, n, cursors)
    ensures done + Greedy(all, n, cursors) == done
  {
  }

  // ... pair and move every cursor, ...
  lemma GreedyPairs(all: seq<seq<Sample>>, n: nat, cursors: Tuple, done: seq<Tuple>)
    requires LongEnough(all, n) && 0 < |all| == |cursors| && Valid(all, n, cursors)
    ensures done + Greedy(all, n, cursors) == (done + [cursors]) + Greedy(all, n, Advance(cursors))
    ensures Remaining(n, Advance(cursors)) < Remaining(n, cursors)
  {
    hide Close;
    RemainingDrops(n, cursors, Advance(cursors), 0);
    assert Greedy(all, n, cursors) == [cursors] + Greedy(all, n, Advance(cursors));
  }

  lemma ReportOneMore(all: seq<seq<Sample>>, n: nat, done: seq<Tuple>, latencies: seq<nat>, t: Tuple, latency: nat)
    requires LongEnough(all, n) && InRange(all, n, t)
    requires ReportLatencies(all, n, done, latencies) && IsMinLatency(all, n, t, latency)
    ensures ReportLatencies(all, n, done + [t], latencies + [latency])
  {
    hide IsMinLatency;
  }

  // ... or move the earliest.
  lemma GreedySkips(all: seq<seq<Sample>>, n: nat, cursors: Tuple, m: nat)
    requires LongEnough(all, n) && 0 < |all| == |cursors| && InRange(all, n, cursors) && !Close(all, n, cursors)
    requires m == Earliest(all, n, cursors, |all|)
    ensures Greedy(all, n, cursors) == Greedy(all, n, cursors[m := cursors[m] + 1])
    ensures Remaining(n, cursors[m := cursors[m] + 1]) < Remaining(n, cursors)
  {
    RemainingDrops(n, cursors, cursors[m := cursors[m] + 1], m);
  }

  // The greedy pass itself. `out` is the caller's vector, appended to; the count returned is its length
  // afterwards, at most n more than before, or zero without looking at it when there are no channels.
  method PairSamplesN(all: seq<seq<Sample>>, n: nat, out: seq<nat>) returns (effective: seq<nat>, paired: nat)
    requires LongEnough(all, n) && IsU64(all, n)
    ensures all == [] ==> effective == out && paired == 0
    ensures all != [] ==>
              && paired == |effective| && out <= effective
              && ReportLatencies(all, n, Greedy(all, n, Origin(all)), effective[|out|..])
              && paired <= |out| + n
  {
    hide Greedy;
    hide Remaining;
    hide Scanned;
    hide ReportLatencies;
    hide Close;
    hide IsMinLatency;
    hide IsU64;
    effective := out;
    if |all| == 0 { return effective, 0; }
    ghost var done: seq<Tuple> := [];
    var indices := new nat[|all|](_ => 0);
    assert indices[..] == Origin(all);
    assert effective[|out|..] == [];
    NoLatencies(all, n);
    while true
      invariant fresh(indices)
      invariant out <= effective && |effective| == |out| + |done|
      invariant ReportLatencies(all, n, done, effective[|out|..])
      invariant Greedy(all, n, Origin(all)) == done + Greedy(all, n, indices[..])
      decreases Remaining(n, indices[..])
    {
      ghost var cursors := indices[..];
      var minTime: nat, maxTime: nat, minChannel: int, minLatency: nat := U64_MAX, 0, -1, U64_MAX;
      ScanStart(all, n, cursors);
      for channel := 0 to |all|
        invariant indices[..] == cursors
        invariant forall c | 0 <= c < channel :: cursors[c] < n
        invariant minChannel < |all|
        invariant Scanned(all, n, cursors, channel, minTime, maxTime, minChannel, minLatency)
      {
        if indices[channel] >= n {
          GreedyStops(all, n, cursors, done);
          GreedyIsShort(all, n);
          return effective, |effective|;
        }
        var sample := all[channel][indices[channel]];
        ScanStep(all, n, cursors, channel, minTime, maxTime, minChannel, minLatency);
        if sample.timestamp < minTime { minTime, minChannel := sample.timestamp, channel; }
        if sample.timestamp > maxTime { maxTime := sample.timestamp; }
        if sample.latency < minLatency { minLatency := sample.latency; }
      }
      ScanDecides(all, n, cursors, minTime, maxTime, minChannel, minLatency);
      if maxTime - minTime < MAX_PAIR_GAP {
        GreedyPairs(all, n, cursors, done);
        ReportOneMore(all, n, done, effective[|out|..], cursors, minLatency);
        assert (effective + [minLatency])[|out|..] == effective[|out|..] + [minLatency];
        effective := effective + [minLatency];
        done := done + [cursors];
        for k := 0 to |all|
          invariant forall c | 0 <= c < |all| :: indices[c] == cursors[c] + (if c < k then 1 else 0)
        {
          indices[k] := indices[k] + 1;
        }
        assert indices[..] == Advance(cursors);
      } else if minChannel >= 0 {
        GreedySkips(all, n, cursors, minChannel);
        indices[minChannel] := indices[minChannel] + 1;
        assert indices[..] == cursors[minChannel := cursors[minChannel] + 1];
      }
    }
  }

  // Every cursor at the start.
  function Origin(all: seq<seq<Sample>>): Tuple { seq(|all|, _ => 0) }

  lemma NoLatencies(all: seq<seq<Sample>>, n: nat)
    requires LongEnough(all, n)
    ensures ReportLatencies(all, n, [], [])
  {
  }

  // No order of time is needed for the count to be at most the number of samples.
  lemma GreedyIsShort(all: seq<seq<Sample>>, n: nat)
    requires LongEnough(all, n) && |all| > 0
    ensures |Greedy(all, n, Origin(all))| <= n
  {
    hide Greedy;
    GreedyIsSelection(all, n, Origin(all));
    OrderedSelectionIsShort(all, n, Greedy(all, n, Origin(all)));
  }

  // With chronological channels the count is the most any selection reaches, the greedy one included.
  lemma PairedIsMaximum(all: seq<seq<Sample>>, n: nat, ts: seq<Tuple>)
    requires LongEnough(all, n) && Chronological(all, n) && |all| > 0 && IsSelection(all, n, ts)
    ensures var g := Greedy(all, n, Origin(all));
            |ts| <= |g| <= n && IsSelection(all, n, g)
  {
    var start := Origin(all);
    assert From(start, ts) by {
      forall k | 0 <= k < |ts| ensures |ts[k]| == |start| && AtMost(start, ts[k]) {
        assert Valid(all, n, ts[k]);
      }
    }
    GreedyIsOptimal(all, n, start, ts);
    GreedyIsSelection(all, n, start);
    GreedyIsShort(all, n);
  }

  // What the gap comes to: of two channels with one sample each, the samples are paired exactly when their
  // timestamps are at most 399 apart.
  lemma PairsUpTo399Apart(a: Sample, b: Sample)
    ensures Greedy([[a], [b]], 1, [0, 0])
         == if -400 < a.timestamp - b.timestamp < 400 then [[0, 0]] else []
  {
    hide Greedy;
    hide Remaining;
    var all, t := [[a], [b]], [0, 0];
    assert TimeAt(all, 1, t, 0) == a.timestamp && TimeAt(all, 1, t, 1) == b.timestamp;
    if -400 < a.timestamp - b.timestamp < 400 {
      GreedyPairs(all, 1, t, []);
      assert Advance(t)[0] == 1;
      GreedyStops(all, 1, Advance(t), [t]);
      assert [] + Greedy(all, 1, t) == Greedy(all, 1, t) && [] + [t] == [t];
    } else {
      var m := Earliest(all, 1, t, 2);
      GreedySkips(all, 1, t, m);
      var u := t[m := t[m] + 1];
      assert u[m] == 1;
      GreedyStops(all, 1, u, []);
      assert [] + Greedy(all, 1, u) == Greedy(all, 1, u);
    }
  }

  // Time order is needed: in these two channels the samples at positions 1 and 0 are simultaneous, but
  // the second channel's is passed over before the first channel's comes up.
  function OutOfOrder(): seq<seq<Sample>> {
    [[Sample(1000, 1), Sample(0, 1)], [Sample(0, 1), Sample(2000, 1)]]
  }

  lemma OutOfOrderSkips(t0: nat, t1: nat)
    requires t0 < 2 && t1 < 2 && !(t0 == 1 && t1 == 0)
    ensures LongEnough(OutOfOrder(), 2)
    ensures var m := if t0 == 0 && t1 == 0 then 1 else 0;
            Greedy(OutOfOrder(), 2, [t0, t1]) == Greedy(OutOfOrder(), 2, [t0, t1][m := [t0, t1][m] + 1])
  {
    hide Greedy;
    hide Remaining;
    var all, t, m: nat := OutOfOrder(), [t0, t1], if t0 == 0 && t1 == 0 then 1 else 0;
    assert TimeAt(all, 2, t, 1 - m) - TimeAt(all, 2, t, m) >= MAX_PAIR_GAP;
    assert m == Earliest(all, 2, t, 2) by {
      var e := Earliest(all, 2, t, 2);
      assert TimeAt(all, 2, t, e) <= TimeAt(all, 2, t, m);
    }
    GreedySkips(all, 2, t, m);
  }

  lemma OutOfOrderMissesPair()
    ensures var all: seq<seq<Sample>> := OutOfOrder();
            && LongEnough(all, 2) && !Chronological(all, 2)
            && IsSelection(all, 2, [[1, 0]])
            && Greedy(all, 2, Origin(all)) == []
  {
    hide Greedy;
    var all: seq<seq<Sample>> := OutOfOrder();
    assert all[0][0].timestamp == 1000 && all[0][1].timestamp == 0;
    assert Origin(all) == [0, 0] && [0, 0][1 := 1] == [0, 1] && [0, 1][0 := 1] == [1, 1] && [1, 1][0 := 2] == [2, 1];
    OutOfOrderSkips(0, 0);
    OutOfOrderSkips(0, 1);
    OutOfOrderSkips(1, 1);
    assert [2, 1][0] == 2;
    GreedyStops(all, 2, [2, 1], []);
  }
}
