// The replicated buffer of src/storage.rs: a mutable table written to every replica at once.

module Buffers {
  import opened Arithmetic
  import opened Channels
  import opened Errors
  import opened Layout
  import opened Tables
  import opened Words

  datatype HugePageSize = Size2MiB | Size1GiB
  {
    function Bytes(): nat {
      match this case Size2MiB => 0x20_0000 case Size1GiB => 0x4000_0000
    }
  }

  datatype ChannelValidation = NoValidation | PagemapValidation(channelBit: nat)

  class ReplicatedBuffer<T> {
    const layout: LayoutPlan
    const capacity: nat
    var len: nat

    // The storage: where the mapping starts, its size, and its element-sized cells.
    const start: nat
    const bytes: nat
    const cells: array<Cell<T>>

    // The logical sequence that every replica holds.
    ghost var contents: seq<T>

    ghost predicate Valid()
      reads this, cells
    {
      && layout.Valid()
      && len <= capacity
      && layout.AllocationLen(capacity) <= cells.Length
      && Represents(Snapshot(), contents)
    }

    function Snapshot(): Table<T>
      reads this, cells
    {
      Table(layout, cells[..], len)
    }

    // A zero-filled mapping of the rounded size.
    constructor (layout: LayoutPlan, capacity: nat, page: HugePageSize, start: nat)
      requires layout.Valid()
      ensures Valid() && fresh(cells)
      ensures this.layout == layout && this.capacity == capacity && this.start == start
      ensures this.bytes == RoundUp(layout.AllocationBytes(capacity), page.Bytes())
      ensures cells.Length == bytes / layout.elementSize
      ensures len == 0 && contents == []
      ensures forall o | 0 <= o < cells.Length :: cells[o] == Zeroed
    {
      hide RoundUp;
      hide LayoutPlan.AllocationLen;
      this.layout := layout;
      this.capacity := capacity;
      this.len := 0;
      this.start := start;
      this.bytes := RoundUp(layout.AllocationBytes(capacity), page.Bytes());
      this.cells := new Cell<T>[CellCount(layout, capacity, page)](_ => Zeroed);
      this.contents := [];
    }

    // `with_options`. The mapping primitive and the address translation are parameters: the first maps a
    // size to the start of a mapping or fails. Sizes must fit in a word; a checked build stops otherwise.
    static method WithOptions(
        spec: LayoutSpec, elementSize: nat, capacity: nat, page: HugePageSize, validation: ChannelValidation,
        mapping: nat -> Option<nat>, translate: Translation)
      returns (r: Result<ReplicatedBuffer<T>>)
      requires ForType(spec, elementSize).Ok? ==> Fits(ForType(spec, elementSize).value, capacity, page.Bytes())
      ensures ForType(spec, elementSize).Err? ==> r == Err(ForType(spec, elementSize).error)
      ensures ForType(spec, elementSize).Ok? ==>
                var plan := ForType(spec, elementSize).value;
                forall size: nat | IsMappingSize(size, plan.AllocationBytes(capacity), page) ::
                  var start := mapping(size);
                  && (start.None? ==> r == Err(Io))
                  && (start.Some? && !Accepts(validation, plan, translate, start.value) ==>
                        r.Err? && CheckRefusesWith(BaseLookups(plan, translate, start.value), r.error))
                  && (start.Some? && Accepts(validation, plan, translate, start.value) ==>
                        && r.Ok? && r.value.layout == plan && r.value.capacity == capacity
                        && r.value.start == start.value && r.value.bytes == size)
      ensures r.Ok? ==>
                IsMappingSize(r.value.bytes, ForType(spec, elementSize).value.AllocationBytes(capacity), page)
      ensures r.Ok? ==> fresh(r.value) && fresh(r.value.cells) && r.value.Valid() && r.value.contents == []
    {
      hide RoundUp;
      hide AllocatedBytes;
      hide BasesSeparated;
      hide CheckRefusesWith;
      hide IsMappingSize;
      hide LayoutPlan.AllocationLen;
      hide ForType;
      var plan := ForType(spec, elementSize);
      if plan.Err? { return Err(plan.error); }
      AskedSizeIsExact(plan.value, capacity, page);
      var mapped := mapping(AllocatedBytes(plan.value, capacity, page));
      if mapped.None? { return Err(Io); }
      var buffer := new ReplicatedBuffer<T>(plan.value, capacity, page, mapped.value);
      if validation.PagemapValidation? {
        var checked := buffer.ValidateChannels(validation.channelBit, translate);
        if checked.Err? { return Err(checked.error); }
      }
      return Ok(buffer);
    }

    // Pointers are cell numbers from the start of the storage.

    // A base is where the replica's first element is, and adding any element's offset to it gives that
    // element's slot.
    function ReplicaBasePtr(replica: nat): (r: Result<nat>)
      requires layout.Valid()
      ensures r.Ok? <==> replica < layout.spec.replicas
      ensures r.Err? ==> r.error == OutOfBounds(replica, layout.spec.replicas)
      ensures r.Ok? ==>
                && r.value < layout.AllocationLen(capacity)
                && layout.Locate(r.value) == Some(Slot(replica, 0))
                && forall i: nat :: layout.Locate(r.value + layout.ElementOffset(i)) == Some(Slot(replica, i))
    {
      if replica >= layout.spec.replicas then Err(OutOfBounds(replica, layout.spec.replicas))
      else
        BaseLeadsToSlots(layout, capacity, replica);
        Ok(replica * layout.channelOffsetElements)
    }

    function ReplicaSlotPtr(replica: nat, index: nat): (r: Result<nat>)
      requires layout.Valid()
      ensures r.Ok? <==> index < capacity && replica < layout.spec.replicas
      ensures index >= capacity ==> r == Err(OutOfBounds(index, capacity))
      ensures index < capacity && r.Err? ==> r.error == OutOfBounds(replica, layout.spec.replicas)
      ensures r.Ok? ==>
                && r.value == layout.SlotOffset(replica, index) < layout.AllocationLen(capacity)
                && layout.Locate(r.value) == Some(Slot(replica, index))
    {
      if index >= capacity then Err(OutOfBounds(index, capacity))
      else
        assert replica < layout.spec.replicas ==>
                 layout.SlotOffset(replica, index) < layout.AllocationLen(capacity) by {
          if replica < layout.spec.replicas {
            SlotInAllocation(layout, capacity, replica, index);
          }
        }
        layout.ReplicaElementOffset(replica, index)
    }

    function ReplicaPtr(replica: nat, index: nat): Result<nat>
      requires layout.Valid()
      reads this
    {
      if index >= len then Err(OutOfBounds(index, len)) else ReplicaSlotPtr(replica, index)
    }

    // Whichever replica is asked, the answer is the logical sequence's.
    function ReplicaValue(replica: nat, index: nat): (r: Result<T>)
      requires Valid()
      reads this, cells
      ensures r == if index >= |contents| then Err(OutOfBounds(index, |contents|))
                   else if replica >= layout.spec.replicas then Err(OutOfBounds(replica, layout.spec.replicas))
                   else Ok(contents[index])
    {
      var p := ReplicaPtr(replica, index);
      if p.Err? then Err(p.error)
      else
        assert Snapshot().memory[layout.SlotOffset(replica, index)] == Holds(contents[index]);
        Ok(cells[p.value].value)
    }

    function Get(index: nat): (r: Option<T>)
      requires Valid()
      reads this, cells
      ensures r == if index < |contents| then Some(contents[index]) else None
    {
      var r := ReplicaValue(0, index);
      if r.Ok? then Some(r.value) else None
    }

    // Appends one value to every replica. A full buffer is left alone; otherwise only the cells of the
    // new element change.
    method Push(value: T) returns (r: Result<()>)
      requires Valid()
      modifies this`len, this`contents, cells
      ensures Valid()
      ensures r == if old(len) < capacity then Ok(()) else Err(CapacityExceeded(old(len), capacity))
      ensures contents == if r.Ok? then old(contents) + [value] else old(contents)
      ensures forall o: nat | o < cells.Length && !(r.Ok? && IsCellOf(o, old(len))) :: cells[o] == old(cells[o])
    {
      hide LayoutPlan.SlotOffset;
      hide LayoutPlan.Locate;
      hide LayoutPlan.AllocationLen;
      if len >= capacity { return Err(CapacityExceeded(len, capacity)); }
      DistinctSlots(layout);
      assert forall q: nat, i: nat | q < layout.spec.replicas && i < len ::
               HoldsAt(layout.SlotOffset(q, i), contents[i]) by {
        assert Represents(Snapshot(), contents);
      }
      for replica := 0 to layout.spec.replicas
        invariant len == old(len) && contents == old(contents)
        invariant forall q: nat, i: nat | q < layout.spec.replicas && i < |contents| ::
                    HoldsAt(layout.SlotOffset(q, i), contents[i])
        invariant forall q: nat | q < replica :: HoldsAt(layout.SlotOffset(q, len), value)
        invariant forall o: nat | o < cells.Length && !IsCellOf(o, len) :: cells[o] == old(cells[o])
      {
        var p := ReplicaSlotPtr(replica, len);
        cells[p.value] := Holds(value);
      }
      len := len + 1;
      contents := contents + [value];
      return Ok(());
    }

    ghost predicate HoldsAt(offset: nat, value: T)
      reads cells
    {
      offset < cells.Length && cells[offset] == Holds(value)
    }

    ghost predicate IsCellOf(offset: nat, index: nat)
      requires layout.Valid()
    {
      layout.Locate(offset).Some? && layout.Locate(offset).value.index == index
    }

    // Appends the longest prefix that fits; succeeds exactly when that is everything.
    method ExtendFromSlice(values: seq<T>) returns (r: Result<()>)
      requires Valid()
      modifies this`len, this`contents, cells
      ensures Valid()
      ensures var fitting := if |values| <= capacity - old(len) then |values| else capacity - old(len);
              contents == old(contents) + values[..fitting]
      ensures r == if |values| <= capacity - old(len) then Ok(()) else Err(CapacityExceeded(capacity, capacity))
      ensures forall o: nat | o < cells.Length && !(exists i :: old(len) <= i < len && IsCellOf(o, i)) ::
                cells[o] == old(cells[o])
    {
      for k := 0 to |values|
        invariant Valid() && len == old(len) + k && contents == old(contents) + values[..k]
        invariant forall o: nat | o < cells.Length && !(exists i :: old(len) <= i < len && IsCellOf(o, i)) ::
                    cells[o] == old(cells[o])
      {
        var pushed := Push(values[k]);
        if pushed.Err? { return pushed; }
        assert values[..k] + [values[k]] == values[..k + 1];
      }
      assert values[..|values|] == values;
      return Ok(());
    }

    // Looks up the channel of every replica base, then compares them pairwise. Accepts exactly when every
    // base translates and the physical addresses' bits differ.
    method ValidateChannels(channelBit: nat, translate: Translation) returns (r: Result<()>)
      requires layout.Valid()
      ensures r.Ok? <==> ParitiesDiffer(BaseLookups(layout, translate, start), channelBit)
      ensures r.Ok? <==> BasesSeparated(layout, translate, start, channelBit)
      ensures r.Err? ==> CheckRefusesWith(BaseLookups(layout, translate, start), r.error)
    {
      hide ChannelAt;
      hide Pow2;
      hide BasesSeparated;
      hide ParitiesDiffer;
      hide CheckRefusesWith;
      hide BaseLookups;
      SeparatedMeansParitiesDiffer(layout, translate, start, channelBit);
      var channels: seq<nat> := [];
      for replica := 0 to layout.spec.replicas
        invariant |channels| == replica
        invariant forall q: nat | q < replica :: BaseChannelOf(translate, q, channelBit) == Ok(channels[q])
      {
        var channel := BaseChannelOf(translate, replica, channelBit);
        if channel.Err? {
          LookupFails(channels, translate, channelBit);
          return Err(channel.error);
        }
        channels := channels + [channel.value];
      }
      for left := 0 to |channels|
        invariant forall p: nat, q: nat | p < left && p < q < |channels| :: channels[p] != channels[q]
      {
        for right := left + 1 to |channels|
          invariant forall q: nat | left < q < right :: channels[left] != channels[q]
        {
          if channels[left] == channels[right] {
            ChannelsClash(channels, translate, channelBit, left, right);
            return Err(ValidationFailed("two replica bases resolved to the same channel"));
          }
        }
      }
      DistinctChannels(channels, translate, channelBit);
      return Ok(());
    }

    lemma LookupFails(channels: seq<nat>, translate: Translation, channelBit: nat)
      requires |channels| < layout.spec.replicas && BaseChannelOf(translate, |channels|, channelBit).Err?
      requires forall q: nat | q < |channels| :: BaseChannelOf(translate, q, channelBit) == Ok(channels[q])
      ensures !BasesSeparated(layout, translate, start, channelBit)
      ensures CheckRefusesWith(
                BaseLookups(layout, translate, start), BaseChannelOf(translate, |channels|, channelBit).error)
    {
      hide ChannelAt;
      hide BaseLookups;
      hide BaseAddress;
      var looked := BaseLookups(layout, translate, start);
      forall q: nat | q < |channels| ensures looked[q].Ok? {
        assert BaseChannelOf(translate, q, channelBit).Ok?;
      }
      assert looked[|channels|] == Err(BaseChannelOf(translate, |channels|, channelBit).error);
    }

    lemma ChannelsClash(channels: seq<nat>, translate: Translation, channelBit: nat, left: nat, right: nat)
      requires |channels| == layout.spec.replicas && left < right < |channels| && channels[left] == channels[right]
      requires forall q: nat | q < |channels| :: BaseChannelOf(translate, q, channelBit) == Ok(channels[q])
      ensures !BasesSeparated(layout, translate, start, channelBit)
      ensures CheckRefusesWith(
                BaseLookups(layout, translate, start),
                ValidationFailed("two replica bases resolved to the same channel"))
    {
      hide ChannelAt;
      hide BaseLookups;
      hide BaseAddress;
      forall q: nat | q < |channels| ensures BaseLookups(layout, translate, start)[q].Ok? {
        assert BaseChannelOf(translate, q, channelBit).Ok?;
      }
      assert BaseChannelOf(translate, left, channelBit) == BaseChannelOf(translate, right, channelBit);
    }

    lemma DistinctChannels(channels: seq<nat>, translate: Translation, channelBit: nat)
      requires |channels| == layout.spec.replicas
      requires forall q: nat | q < |channels| :: BaseChannelOf(translate, q, channelBit) == Ok(channels[q])
      requires forall p: nat, q: nat | p < q < |channels| :: channels[p] != channels[q]
      ensures BasesSeparated(layout, translate, start, channelBit)
    {
      hide ChannelAt;
      forall q: nat | q < |channels|
        ensures ChannelAt(translate, BaseAddress(layout, start, q), channelBit) == Ok(channels[q])
      {
        assert BaseChannelOf(translate, q, channelBit) == Ok(channels[q]);
      }
    }

    function BaseChannelOf(translate: Translation, replica: nat, channelBit: nat): Result<nat> {
      ChannelAt(translate, BaseAddress(layout, start, replica), channelBit)
    }
  }

  // The size to map for an allocation: the multiple of the page size next at or above it.
  ghost predicate IsMappingSize(size: nat, bytes: nat, page: HugePageSize) {
    match page
    case Size2MiB => 0 < size && size % 0x20_0000 == 0 && bytes <= size < bytes + 0x20_0000
    case Size1GiB => 0 < size && size % 0x4000_0000 == 0 && bytes <= size < bytes + 0x4000_0000
  }

  // The base check is made only when asked for.
  ghost predicate Accepts(validation: ChannelValidation, plan: LayoutPlan, translate: Translation, start: nat) {
    validation.PagemapValidation? ==> BasesSeparated(plan, translate, start, validation.channelBit)
  }

  lemma AskedSizeIsExact(plan: LayoutPlan, capacity: nat, page: HugePageSize)
    requires plan.Valid() && Fits(plan, capacity, page.Bytes())
    ensures AllocatedBytes(plan, capacity, page) == RoundUp(plan.AllocationBytes(capacity), page.Bytes())
    ensures forall size: nat | IsMappingSize(size, plan.AllocationBytes(capacity), page) ::
              size == AllocatedBytes(plan, capacity, page)
    ensures IsMappingSize(AllocatedBytes(plan, capacity, page), plan.AllocationBytes(capacity), page)
  {
    hide RoundUp;
    hide LayoutPlan.AllocationLen;
    SizesExact(plan, capacity, page.Bytes());
    AllocationCoversBases(plan, capacity, 0);
    var bytes, asked := plan.AllocationBytes(capacity), AllocatedBytes(plan, capacity, page);
    MulMonotone(1, plan.elementSize, plan.AllocationLen(capacity));
    forall size: nat | IsMappingSize(size, bytes, page) ensures size == asked {
      if size <= asked {
        NextMultiple(asked, size, page.Bytes());
      } else {
        NextMultiple(size, asked, page.Bytes());
      }
    }
  }

  // The size that is asked for.
  function AllocatedBytes(plan: LayoutPlan, capacity: nat, page: HugePageSize): nat
    requires plan.Valid()
  {
    RoundUp(AllocationBytesWord(plan, capacity), page.Bytes())
  }

  // The whole cells in the rounded mapping: at least as many as the allocation asks for.
  function CellCount(plan: LayoutPlan, capacity: nat, page: HugePageSize): (n: nat)
    requires plan.Valid()
    ensures plan.AllocationLen(capacity) <= n
  {
    var rounded := RoundUp(plan.AllocationBytes(capacity), page.Bytes());
    QuotientAtLeast(rounded, plan.elementSize, plan.AllocationLen(capacity));
    rounded / plan.elementSize
  }

  lemma BaseLeadsToSlots(plan: LayoutPlan, capacity: nat, replica: nat)
    requires plan.Valid() && replica < plan.spec.replicas
    ensures plan.ReplicaBase(replica) < plan.AllocationLen(capacity)
    ensures plan.Locate(plan.ReplicaBase(replica)) == Some(Slot(replica, 0))
    ensures forall i: nat ::
              plan.Locate(plan.ReplicaBase(replica) + plan.ElementOffset(i)) == Some(Slot(replica, i))
  {
    hide LayoutPlan.Locate;
    AllocationCoversBases(plan, capacity, replica);
    forall i: nat
      ensures plan.Locate(plan.ReplicaBase(replica) + plan.ElementOffset(i)) == Some(Slot(replica, i))
    {
      LocateInvertsOffset(plan, replica, i);
    }
    assert plan.ElementOffset(0) == 0;
  }

  lemma DistinctSlots(plan: LayoutPlan)
    requires plan.Valid()
    ensures forall r: nat, i: nat, q: nat, j: nat |
              r < plan.spec.replicas && q < plan.spec.replicas
              && plan.SlotOffset(r, i) == plan.SlotOffset(q, j) :: r == q && i == j
    ensures forall r: nat, i: nat | r < plan.spec.replicas ::
              plan.Locate(plan.SlotOffset(r, i)) == Some(Slot(r, i))
  {
    hide LayoutPlan.SlotOffset;
    hide LayoutPlan.Locate;
    forall r: nat, i: nat | r < plan.spec.replicas
      ensures plan.Locate(plan.SlotOffset(r, i)) == Some(Slot(r, i))
    {
      LocateInvertsOffset(plan, r, i);
    }
  }
}
