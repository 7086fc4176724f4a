// The components put together: a hedged runtime over a replicated buffer.

module EndToEnd {
  import opened Buffers
  import opened Calls
  import opened Channels
  import opened Protocol
  import opened Safety

  // A runtime takes its buffer over, so the cells stay as they are: at every moment of every run, the calls
  // that a reader made have returned, in order, what the buffer's logical sequence has at their indices, or
  // the out-of-range error, all but the last one if it is in progress.
  lemma HedgedReadsOfBuffer<T>(
      buffer: ReplicatedBuffer<T>, states: seq<State<T>>, actions: seq<Action>, readers: nat, r: nat, n: nat)
    requires buffer.Valid()
    requires IsReachingRun(ConfigOf(buffer.Snapshot()), states, actions, readers) && n <= |actions|
    ensures var asked, given := Asked(actions[..n], r), AnswersTo(states[n].answers, r);
            && |given| <= |asked| <= |given| + (if InCall(states[n], r) then 1 else 0)
            && forall k | 0 <= k < |given| :: given[k].result == Lookup(buffer.contents, asked[k])
  {
    HedgedReadsAreLookups(buffer.Snapshot(), buffer.contents, states, actions, readers, r, n);
  }

  // A buffer whose bases passed validation on hugepages keeps the copies of every byte of every element
  // it can hold in different channels if and only if it has one replica or its channel offset covers the
  // table.
  lemma ValidatedBufferIsSeparatedIff<T>(
      buffer: ReplicatedBuffer<T>, pagemap: Pagemap, pageBits: nat, bit: nat)
    requires buffer.Valid() && PAGE_BITS <= pageBits <= 64 && bit < pageBits
    requires HugepageBacked(pagemap, buffer.start, buffer.layout.AllocationBytes(buffer.capacity), pageBits)
    requires BasesSeparated(buffer.layout, addr => VirtToPhys(pagemap, addr), buffer.start, bit)
    ensures TableSeparated(
              buffer.layout, addr => VirtToPhys(pagemap, addr), buffer.start, buffer.capacity, bit)
       <==> buffer.layout.spec.replicas == 1 || OffsetCovers(buffer.layout, buffer.capacity, bit)
  {
    hide OffsetCovers;
    HugepagesKeepOffsets(pagemap, buffer.start, buffer.layout.AllocationBytes(buffer.capacity), pageBits);
    StartIsBlockAligned(buffer.start, pageBits, bit);
    if buffer.layout.spec.replicas >= 2 {
      BasesCoverTableIff(
        buffer.layout, addr => VirtToPhys(pagemap, addr), buffer.start, buffer.capacity, pageBits, bit);
    }
  }
}
