// The same addressing arithmetic on 64-bit words, where sums and products wrap around as in an
// optimised build (a checked build stops at the first overflow instead).

module Words {
  import opened Arithmetic
  import opened Layout

  const WORD: nat := 0x1_0000_0000_0000_0000

  function Wrap(x: nat): nat { x % WORD }

  function StrideWord(plan: LayoutPlan): nat {
    Wrap(plan.spec.channels * plan.channelOffsetElements)
  }

  function ElementOffsetWord(plan: LayoutPlan, index: nat): nat
    requires plan.Valid()
  {
    Wrap(Wrap((index / plan.elementsPerChunk) * StrideWord(plan)) + index % plan.elementsPerChunk)
  }

  function SlotOffsetWord(plan: LayoutPlan, replica: nat, index: nat): nat
    requires plan.Valid()
  {
    Wrap(Wrap(replica * plan.channelOffsetElements) + ElementOffsetWord(plan, index))
  }

  function AllocationLenWord(plan: LayoutPlan, capacity: nat): nat
    requires plan.Valid()
  {
    if capacity == 0 then Wrap(plan.spec.replicas * plan.channelOffsetElements)
    else
      Wrap(Wrap(Wrap((plan.spec.replicas - 1) * plan.channelOffsetElements)
                + ElementOffsetWord(plan, capacity - 1)) + 1)
  }

  function AllocationBytesWord(plan: LayoutPlan, capacity: nat): nat
    requires plan.Valid()
  {
    Wrap(AllocationLenWord(plan, capacity) * plan.elementSize)
  }

  function RoundUp(value: nat, alignment: nat): (r: nat)
    requires alignment > 0
    ensures r % alignment == 0 && 0 < r && value <= r < value + alignment + (if value == 0 then 1 else 0)
  {
    if value == 0 then alignment
    else
      var q := (value + alignment - 1) / alignment;
      assert value + alignment - 1 == q * alignment + (value + alignment - 1) % alignment;
      assert (q * alignment) % alignment == 0 by { DivModUnique(q, alignment, 0); }
      q * alignment
  }

  lemma ElementOffsetWraps(plan: LayoutPlan, index: nat)
    requires plan.Valid()
    ensures ElementOffsetWord(plan, index) == Wrap(plan.ElementOffset(index))
  {
    var q := index / plan.elementsPerChunk;
    ModMulReduce(q, plan.strideInElements, WORD);
    ModAddReduceLeft(q * plan.strideInElements, index % plan.elementsPerChunk, WORD);
  }

  // Wrapping anywhere along the way is wrapping once at the end.
  lemma SlotOffsetWraps(plan: LayoutPlan, replica: nat, index: nat)
    requires plan.Valid()
    ensures SlotOffsetWord(plan, replica, index) == Wrap(plan.SlotOffset(replica, index))
  {
    ElementOffsetWraps(plan, index);
    ModAddReduce(plan.ReplicaBase(replica), plan.ElementOffset(index), WORD);
  }

  // 64-bit offsets are the true offsets on the whole of a non-empty table if and only if its
  // allocation has at most 2^64 elements.
  lemma OffsetsExactIffAllocationFits(plan: LayoutPlan, capacity: nat)
    requires plan.Valid() && capacity > 0
    ensures (forall r, i | 0 <= r < plan.spec.replicas && 0 <= i < capacity ::
               SlotOffsetWord(plan, r, i) == plan.SlotOffset(r, i))
       <==> plan.AllocationLen(capacity) <= WORD
  {
    hide SlotOffsetWord;
    AllocationIsExact(plan, capacity, WORD);
    forall r, i | 0 <= r < plan.spec.replicas && 0 <= i < capacity
      ensures SlotOffsetWord(plan, r, i) == plan.SlotOffset(r, i) <==> plan.SlotOffset(r, i) < WORD
    {
      SlotOffsetWraps(plan, r, i);
    }
  }

  // Past that bound two different elements can share an offset: with a stride of 2^64 elements it
  // wraps to zero and every chunk lands on the first one.
  lemma WrappedStrideCollides()
    ensures var plan := LayoutPlan(LayoutSpec(1, 0x8000_0000_0000_0000, 2), 1, 2, 2, WORD);
            && plan.Valid()
            && SlotOffsetWord(plan, 0, 0) == SlotOffsetWord(plan, 0, 2)
            && plan.SlotOffset(0, 0) != plan.SlotOffset(0, 2)
  {
    var plan := LayoutPlan(LayoutSpec(1, 0x8000_0000_0000_0000, 2), 1, 2, 2, WORD);
    SlotOffsetWraps(plan, 0, 0);
    SlotOffsetWraps(plan, 0, 2);
  }

  ghost predicate Fits(plan: LayoutPlan, capacity: nat, page: nat)
    requires plan.Valid() && page > 0
  {
    RoundUp(plan.AllocationBytes(capacity), page) < WORD
  }

  lemma AllocationLenFits(plan: LayoutPlan, capacity: nat, page: nat)
    requires plan.Valid() && page > 0 && Fits(plan, capacity, page)
    ensures plan.AllocationLen(capacity) <= plan.AllocationBytes(capacity)
          <= RoundUp(plan.AllocationBytes(capacity), page) < WORD
  {
    MulMonotone(1, plan.elementSize, plan.AllocationLen(capacity));
  }

  lemma AllocationLenWraps(plan: LayoutPlan, capacity: nat)
    requires plan.Valid()
    ensures AllocationLenWord(plan, capacity) == Wrap(plan.AllocationLen(capacity))
  {
    if capacity > 0 {
      var replica, index := plan.spec.replicas - 1, capacity - 1;
      var last := plan.SlotOffset(replica, index);
      SlotOffsetWraps(plan, replica, index);
      ModAddReduceLeft(last, 1, WORD);
      assert AllocationLenWord(plan, capacity) == Wrap(SlotOffsetWord(plan, replica, index) + 1);
    }
  }

  // If the rounded mapping size fits in a word, the sizes the storage computes are the true ones.
  lemma SizesExact(plan: LayoutPlan, capacity: nat, page: nat)
    requires plan.Valid() && page > 0 && Fits(plan, capacity, page)
    ensures AllocationLenWord(plan, capacity) == plan.AllocationLen(capacity)
    ensures AllocationBytesWord(plan, capacity) == plan.AllocationBytes(capacity)
  {
    hide AllocationLenWord;
    hide LayoutPlan.AllocationLen;
    hide RoundUp;
    AllocationLenFits(plan, capacity, page);
    AllocationLenWraps(plan, capacity);
    assert AllocationLenWord(plan, capacity) == plan.AllocationLen(capacity);
  }

  lemma ByteInAllocation(plan: LayoutPlan, capacity: nat, offset: nat, byte: nat)
    requires plan.Valid() && offset < plan.AllocationLen(capacity) && byte < plan.elementSize
    ensures offset <= offset * plan.elementSize + byte < plan.AllocationBytes(capacity)
  {
    ItemInGroup(offset, plan.AllocationLen(capacity), plan.elementSize, byte);
  }

  // ... no step of any in-range offset overflows,
  lemma OffsetDoesNotOverflow(plan: LayoutPlan, capacity: nat, page: nat, replica: nat, index: nat)
    requires plan.Valid() && page > 0 && Fits(plan, capacity, page)
    requires replica < plan.spec.replicas && index < capacity
    ensures (index / plan.elementsPerChunk) * plan.strideInElements <= plan.ElementOffset(index) < WORD
    ensures plan.ReplicaBase(replica) <= plan.SlotOffset(replica, index) < WORD
    ensures SlotOffsetWord(plan, replica, index) == plan.SlotOffset(replica, index)
  {
    hide AllocationLenWord;
    hide LayoutPlan.AllocationLen;
    hide RoundUp;
    hide SlotOffsetWord;
    AllocationLenFits(plan, capacity, page);
    SlotInAllocation(plan, capacity, replica, index);
    SlotOffsetWraps(plan, replica, index);
  }

  // ... and every byte of every slot is inside the mapping.
  lemma AccessStaysInMapping(plan: LayoutPlan, capacity: nat, page: nat, replica: nat, index: nat, byte: nat)
    requires plan.Valid() && page > 0 && Fits(plan, capacity, page)
    requires replica < plan.spec.replicas && index < capacity && byte < plan.elementSize
    ensures SlotOffsetWord(plan, replica, index) * plan.elementSize + byte
          < RoundUp(AllocationBytesWord(plan, capacity), page) < WORD
  {
    hide AllocationLenWord;
    hide LayoutPlan.AllocationLen;
    hide RoundUp;
    hide SlotOffsetWord;
    AllocationLenFits(plan, capacity, page);
    SizesExact(plan, capacity, page);
    OffsetDoesNotOverflow(plan, capacity, page, replica, index);
    SlotInAllocation(plan, capacity, replica, index);
    ByteInAllocation(plan, capacity, plan.SlotOffset(replica, index), byte);
  }

  // The size that the storage asks to map. Rounding up wraps like everything else.
  function MappedBytesWord(plan: LayoutPlan, capacity: nat, page: nat): nat
    requires plan.Valid() && page > 0
  {
    Wrap(RoundUp(AllocationBytesWord(plan, capacity), page))
  }

  // Where a byte of a slot is, from the start of the mapping.
  function ByteOffset(plan: LayoutPlan, replica: nat, index: nat, byte: nat): nat
    requires plan.Valid()
  {
    plan.SlotOffset(replica, index) * plan.elementSize + byte
  }

  ghost predicate HoldsTable(bytes: nat, plan: LayoutPlan, capacity: nat)
    requires plan.Valid()
  {
    forall r: nat, i: nat, t: nat | r < plan.spec.replicas && i < capacity && t < plan.elementSize ::
      ByteOffset(plan, r, i, t) < bytes
  }

  // That condition is exact: the size asked for holds every byte of every slot of a non-empty table if and
  // only if the rounded size fits in a word.
  lemma MappingHoldsTableIffFits(plan: LayoutPlan, capacity: nat, page: nat)
    requires plan.Valid() && capacity > 0 && page > 0 && WORD % page == 0
    ensures HoldsTable(MappedBytesWord(plan, capacity, page), plan, capacity) <==> Fits(plan, capacity, page)
  {
    hide AllocationBytesWord;
    hide LayoutPlan.SlotOffset;
    hide RoundUp;
    if Fits(plan, capacity, page) {
      forall r: nat, i: nat, t: nat | r < plan.spec.replicas && i < capacity && t < plan.elementSize
        ensures ByteOffset(plan, r, i, t) < MappedBytesWord(plan, capacity, page)
      {
        OffsetDoesNotOverflow(plan, capacity, page, r, i);
        AccessStaysInMapping(plan, capacity, page, r, i, t);
      }
    } else {
      AllocationBytesWraps(plan, capacity);
      WrappedSizeFallsShort(plan.AllocationBytes(capacity), page);
      LastByte(plan, capacity);
    }
  }

  lemma AllocationBytesWraps(plan: LayoutPlan, capacity: nat)
    requires plan.Valid()
    ensures AllocationBytesWord(plan, capacity) == Wrap(plan.AllocationBytes(capacity))
  {
    hide AllocationLenWord;
    hide LayoutPlan.AllocationLen;
    AllocationLenWraps(plan, capacity);
    ModMulReduce(plan.elementSize, plan.AllocationLen(capacity), WORD);
  }

  lemma WrappedSizeFallsShort(bytes: nat, page: nat)
    requires page > 0 && WORD % page == 0 && RoundUp(bytes, page) >= WORD && bytes > 0
    ensures Wrap(RoundUp(Wrap(bytes), page)) < bytes
  {
    hide RoundUp;
    if bytes < WORD {
      assert Wrap(bytes) == bytes;
      NextMultiple(RoundUp(bytes, page), WORD, page);
    }
  }

  lemma NextMultiple(x: nat, y: nat, page: nat)
    requires page > 0 && x % page == 0 && y % page == 0 && y <= x < y + page
    ensures x == y
  {
    var k := ModOffset(x, y, page);
    if k >= 1 {
      MulMonotone(1, k, page);
    }
  }

  lemma LastByte(plan: LayoutPlan, capacity: nat)
    requires plan.Valid() && capacity > 0
    ensures ByteOffset(plan, plan.spec.replicas - 1, capacity - 1, plan.elementSize - 1)
         == plan.AllocationBytes(capacity) - 1
  {
    Distribute(plan.elementSize, plan.SlotOffset(plan.spec.replicas - 1, capacity - 1), 1);
  }
}
