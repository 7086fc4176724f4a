// The addressing plan of src/layout.rs: replicas interleaved chunk by chunk in one flat
// allocation. Offsets here are mathematical; module Words says when 64-bit arithmetic agrees.

module Layout {
  import opened Arithmetic
  import opened Errors

  datatype LayoutSpec = LayoutSpec(replicas: nat, channels: nat, channelOffsetBytes: nat)

  // A place in the table: which replica, and which logical element of it.
  datatype Slot = Slot(replica: nat, index: nat)

  datatype LayoutPlan = LayoutPlan(
    spec: LayoutSpec,
    elementSize: nat,
    channelOffsetElements: nat,
    elementsPerChunk: nat,
    strideInElements: nat)
  {
    ghost predicate Valid() {
      && 0 < elementSize
      && 0 < spec.replicas <= spec.channels
      && 0 < channelOffsetElements && 0 < spec.channelOffsetBytes
      && spec.channelOffsetBytes == channelOffsetElements * elementSize
      && elementsPerChunk == channelOffsetElements
      && strideInElements == spec.channels * channelOffsetElements
    }

    function ElementOffset(logicalIndex: nat): nat
      requires Valid()
    {
      Compose(logicalIndex / elementsPerChunk, strideInElements, logicalIndex % elementsPerChunk)
    }

    function ReplicaBase(replica: nat): nat {
      replica * channelOffsetElements
    }

    function SlotOffset(replica: nat, logicalIndex: nat): nat
      requires Valid()
    {
      ReplicaBase(replica) + ElementOffset(logicalIndex)
    }

    function ReplicaElementOffset(replica: nat, logicalIndex: nat): (r: Result<nat>)
      requires Valid()
      ensures r.Ok? <==> replica < spec.replicas
      ensures r.Err? ==> r.error == OutOfBounds(replica, spec.replicas)
      ensures r.Ok? ==> Locate(r.value) == Some(Slot(replica, logicalIndex))
      ensures r.Ok? ==>
                (logicalIndex / elementsPerChunk) * strideInElements <= r.value
                < (logicalIndex / elementsPerChunk + 1) * strideInElements
    {
      if replica >= spec.replicas then Err(OutOfBounds(replica, spec.replicas))
      else
        assert SlotOffset(replica, logicalIndex)
            == (logicalIndex / elementsPerChunk) * strideInElements
             + (replica * channelOffsetElements + logicalIndex % elementsPerChunk);
        assert replica * channelOffsetElements + logicalIndex % elementsPerChunk < strideInElements by {
          MulMonotone(replica + 1, spec.channels, channelOffsetElements);
        }
        LocateInvertsOffset(this, replica, logicalIndex);
        Ok(SlotOffset(replica, logicalIndex))
    }

    function AllocationLen(logicalCapacity: nat): nat
      requires Valid()
    {
      if logicalCapacity == 0 then spec.replicas * channelOffsetElements
      else ReplicaBase(spec.replicas - 1) + ElementOffset(logicalCapacity - 1) + 1
    }

    function AllocationBytes(logicalCapacity: nat): nat
      requires Valid()
    {
      AllocationLen(logicalCapacity) * elementSize
    }

    // The inverse of SlotOffset, by division and modulus: the slot stored at an offset, if any.
    function Locate(offset: nat): Option<Slot>
      requires elementsPerChunk > 0 && spec.channels > 0
    {
      var chunk := offset / elementsPerChunk;
      var replica := chunk % spec.channels;
      if replica >= spec.replicas then None
      else Some(Slot(replica, Compose(chunk / spec.channels, elementsPerChunk, offset % elementsPerChunk)))
    }
  }

  // What a rejected spec is told is true of it.
  ghost predicate IsFaultOf(message: string, spec: LayoutSpec, elementSize: nat) {
    || (message == "zero-sized types are not supported" && elementSize == 0)
    || (message == "replicas must be greater than zero" && spec.replicas == 0)
    || (message == "channels must be greater than zero" && spec.channels == 0)
    || (message == "replicas cannot exceed the configured channel count" && spec.replicas > spec.channels)
    || (message == "channel_offset_bytes must be non-zero" && spec.channelOffsetBytes == 0)
    || (message == "channel_offset_bytes must be a multiple of the element size"
        && elementSize > 0 && spec.channelOffsetBytes % elementSize != 0)
  }

  function ForType(spec: LayoutSpec, elementSize: nat): (r: Result<LayoutPlan>)
    ensures r.Ok? <==>
              && 0 < elementSize && 0 < spec.replicas <= spec.channels
              && 0 < spec.channelOffsetBytes && spec.channelOffsetBytes % elementSize == 0
    ensures r.Ok? ==> r.value.Valid() && r.value.spec == spec && r.value.elementSize == elementSize
    ensures r.Err? ==> r.error.InvalidConfig? && IsFaultOf(r.error.message, spec, elementSize)
  {
    if elementSize == 0 then Err(InvalidConfig("zero-sized types are not supported"))
    else if spec.replicas == 0 then Err(InvalidConfig("replicas must be greater than zero"))
    else if spec.channels == 0 then Err(InvalidConfig("channels must be greater than zero"))
    else if spec.replicas > spec.channels then
      Err(InvalidConfig("replicas cannot exceed the configured channel count"))
    else if spec.channelOffsetBytes == 0 then Err(InvalidConfig("channel_offset_bytes must be non-zero"))
    else if spec.channelOffsetBytes % elementSize != 0 then
      Err(InvalidConfig("channel_offset_bytes must be a multiple of the element size"))
    else
      var elements := spec.channelOffsetBytes / elementSize;
      assert spec.channelOffsetBytes == elements * elementSize + 0;
      assert elements > 0;
      Ok(LayoutPlan(spec, elementSize, elements, elements, spec.channels * elements))
  }

  // A slot's offset, written in mixed radix: chunk row, replica, place in chunk.
  lemma OffsetDigits(plan: LayoutPlan, replica: nat, index: nat)
    requires plan.Valid() && replica < plan.spec.channels
    ensures var chunk := Compose(index / plan.elementsPerChunk, plan.spec.channels, replica);
            && plan.SlotOffset(replica, index)
               == Compose(chunk, plan.elementsPerChunk, index % plan.elementsPerChunk)
            && plan.SlotOffset(replica, index) / plan.elementsPerChunk == chunk
            && plan.SlotOffset(replica, index) % plan.elementsPerChunk == index % plan.elementsPerChunk
  {
    var e, n, q := plan.elementsPerChunk, plan.spec.channels, index / plan.elementsPerChunk;
    MulAssoc(q, n, e);
    Distribute(e, q * n, replica);
    ComposeDigits(Compose(q, n, replica), e, index % e);
  }

  // The map from slots to offsets has Locate as its inverse, on either side: it is injective, and
  // its image is exactly the chunks whose number modulo `channels` names a replica.
  lemma LocateInvertsOffset(plan: LayoutPlan, replica: nat, index: nat)
    requires plan.Valid() && replica < plan.spec.replicas
    ensures plan.Locate(plan.SlotOffset(replica, index)) == Some(Slot(replica, index))
  {
    hide LayoutPlan.SlotOffset;
    OffsetDigits(plan, replica, index);
    ComposeDigits(index / plan.elementsPerChunk, plan.spec.channels, replica);
    DigitsCompose(index, plan.elementsPerChunk);
  }

  lemma OffsetInvertsLocate(plan: LayoutPlan, offset: nat)
    requires plan.Valid() && plan.Locate(offset).Some?
    ensures var slot := plan.Locate(offset).value;
            slot.replica < plan.spec.replicas && plan.SlotOffset(slot.replica, slot.index) == offset
  {
    hide LayoutPlan.SlotOffset;
    hide LayoutPlan.Locate;
    hide Compose;
    var slot := plan.Locate(offset).value;
    LocateDigits(plan, offset);
    OffsetDigits(plan, slot.replica, slot.index);
    DigitsCompose(offset / plan.elementsPerChunk, plan.spec.channels);
    DigitsCompose(offset, plan.elementsPerChunk);
  }

  lemma LocateDigits(plan: LayoutPlan, offset: nat)
    requires plan.elementsPerChunk > 0 && plan.spec.channels > 0 && plan.Locate(offset).Some?
    ensures var slot, e, n := plan.Locate(offset).value, plan.elementsPerChunk, plan.spec.channels;
            && slot.replica == offset / e % n < plan.spec.replicas
            && slot.index / e == offset / e / n && slot.index % e == offset % e
  {
    hide Compose;
    ComposeDigits(
      offset / plan.elementsPerChunk / plan.spec.channels, plan.elementsPerChunk, offset % plan.elementsPerChunk);
  }

  lemma SlotsAreDisjoint(plan: LayoutPlan, a: Slot, b: Slot)
    requires plan.Valid() && a.replica < plan.spec.replicas && b.replica < plan.spec.replicas
    requires plan.SlotOffset(a.replica, a.index) == plan.SlotOffset(b.replica, b.index)
    ensures a == b
  {
    LocateInvertsOffset(plan, a.replica, a.index);
    LocateInvertsOffset(plan, b.replica, b.index);
  }

  lemma OffsetIncreases(plan: LayoutPlan, i: nat, j: nat)
    requires plan.Valid() && i < j
    ensures plan.ElementOffset(i) < plan.ElementOffset(j)
  {
    var e, s := plan.elementsPerChunk, plan.strideInElements;
    assert i == (i / e) * e + i % e;
    assert j == (j / e) * e + j % e;
    MulMonotone(1, plan.spec.channels, e);
    assert i / e <= j / e by {
      if j / e < i / e {
        MulMonotone(j / e + 1, i / e, e);
        assert false;
      }
    }
    if i / e < j / e {
      MulMonotone(i / e + 1, j / e, s);
      assert (i / e + 1) * s == (i / e) * s + s;
    }
  }

  // Every byte of an element lies in one chunk, and that chunk's number names the replica: elements
  // never straddle a chunk boundary, so a whole element lives in one channel's column.
  lemma ByteStaysInReplicaChunk(plan: LayoutPlan, replica: nat, index: nat, byte: nat)
    requires plan.Valid() && replica < plan.spec.replicas && byte < plan.elementSize
    ensures var address := plan.SlotOffset(replica, index) * plan.elementSize + byte;
            && address / plan.spec.channelOffsetBytes
               == Compose(index / plan.elementsPerChunk, plan.spec.channels, replica)
            && (address / plan.spec.channelOffsetBytes) % plan.spec.channels == replica
  {
    hide LayoutPlan.SlotOffset;
    var e, z, inner := plan.elementsPerChunk, plan.elementSize, index % plan.elementsPerChunk;
    var chunk := Compose(index / e, plan.spec.channels, replica);
    OffsetDigits(plan, replica, index);
    ItemInGroup(inner, e, z, byte);
    ByteDigits(chunk, e, inner, z, byte);
    ComposeDigits(chunk, e * z, inner * z + byte);
    ComposeDigits(index / e, plan.spec.channels, replica);
  }

  lemma ByteDigits(chunk: nat, e: nat, inner: nat, z: nat, byte: nat)
    ensures 0 <= inner * z
    ensures Compose(chunk, e, inner) * z + byte == Compose(chunk, e * z, inner * z + byte)
  {
    MulAssoc(chunk, e, z);
    Distribute(z, chunk * e, inner);
  }

  // AllocationLen is the least length that contains every slot of a non-empty table.
  lemma AllocationIsExact(plan: LayoutPlan, capacity: nat, length: nat)
    requires plan.Valid() && capacity > 0
    ensures (forall r, i | 0 <= r < plan.spec.replicas && 0 <= i < capacity :: plan.SlotOffset(r, i) < length)
       <==> plan.AllocationLen(capacity) <= length
  {
    forall r, i | 0 <= r < plan.spec.replicas && 0 <= i < capacity
      ensures plan.SlotOffset(r, i) < plan.AllocationLen(capacity)
    {
      SlotInAllocation(plan, capacity, r, i);
    }
    assert plan.SlotOffset(plan.spec.replicas - 1, capacity - 1) == plan.AllocationLen(capacity) - 1;
  }

  lemma SlotInAllocation(plan: LayoutPlan, capacity: nat, replica: nat, index: nat)
    requires plan.Valid() && replica < plan.spec.replicas && index < capacity
    ensures plan.SlotOffset(replica, index) < plan.AllocationLen(capacity)
  {
    MulMonotone(replica, plan.spec.replicas - 1, plan.channelOffsetElements);
    if index < capacity - 1 {
      OffsetIncreases(plan, index, capacity - 1);
    }
  }

  // For an empty table it is the least length with a whole chunk for each replica.
  lemma EmptyAllocationIsExact(plan: LayoutPlan, length: nat)
    requires plan.Valid()
    ensures (forall r: nat | r < plan.spec.replicas :: plan.ReplicaBase(r) + plan.elementsPerChunk <= length)
       <==> plan.AllocationLen(0) <= length
  {
    forall r: nat | r < plan.spec.replicas
      ensures plan.ReplicaBase(r) + plan.elementsPerChunk <= plan.AllocationLen(0)
    {
      AllocationCoversBases(plan, 0, r);
    }
    var last: nat := plan.spec.replicas - 1;
    Distribute(plan.channelOffsetElements, last, 1);
    assert plan.ReplicaBase(last) + plan.elementsPerChunk == plan.AllocationLen(0);
  }

  // Every replica base lies inside the allocation, at capacity zero too.
  lemma AllocationCoversBases(plan: LayoutPlan, capacity: nat, replica: nat)
    requires plan.Valid() && replica < plan.spec.replicas
    ensures plan.ReplicaBase(replica) < plan.AllocationLen(capacity)
    ensures capacity == 0 ==>
              plan.ReplicaBase(replica) + plan.elementsPerChunk <= plan.AllocationLen(capacity)
  {
    if capacity == 0 {
      MulMonotone(replica + 1, plan.spec.replicas, plan.channelOffsetElements);
    } else {
      MulMonotone(replica, plan.spec.replicas - 1, plan.channelOffsetElements);
    }
  }
}
