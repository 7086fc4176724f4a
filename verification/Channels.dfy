// Physical placement: the address arithmetic of src/sys.rs and what a check of the replica bases
// alone says about the rest of the table.

module Channels {
  import opened Arithmetic
  import opened Errors
  import opened Layout
  import opened Words

  // What /proc/self/pagemap answers for a virtual page number: an entry, or a failed read.
  type Pagemap = nat -> Option<nat>

  const PAGE: nat := 4096
  const PAGE_BITS: nat := 12

  function FrameNumber(entry: nat): nat { entry % 0x80_0000_0000_0000 }

  predicate Present(entry: nat) { (entry / 0x8000_0000_0000_0000) % 2 == 1 }

  function PhysicalAddress(entry: nat, addr: nat): nat {
    // The frame's address has twelve zero low bits, so or-ing the page offset in adds it.
    Wrap(FrameNumber(entry) * PAGE) + addr % PAGE
  }

  function VirtToPhys(pagemap: Pagemap, addr: nat): (r: Result<nat>)
    ensures r.Ok? ==> pagemap(addr / PAGE).Some?
  {
    match pagemap(addr / PAGE)
    case None => Err(Io)
    case Some(entry) =>
      if !Present(entry) then Err(ValidationFailed("page is not present"))
      else if FrameNumber(entry) == 0 then
        Err(ValidationFailed("PFN unavailable from /proc/self/pagemap; run with elevated privileges"))
      else
        Ok(PhysicalAddress(entry, addr))
  }

  // How an entry reads, bit by bit: bit 63 says the page is present, bits 0 to 54 are its frame number.
  lemma EntryDecodes(pagemap: Pagemap, addr: nat, flags: nat, pfn: nat)
    requires flags < 0x100 && pfn < 0x80_0000_0000_0000
    requires pagemap(addr / 4096) == Some(0x8000_0000_0000_0000 + flags * 0x80_0000_0000_0000 + pfn)
    ensures pfn == 0 ==>
              VirtToPhys(pagemap, addr)
              == Err(ValidationFailed("PFN unavailable from /proc/self/pagemap; run with elevated privileges"))
    ensures pfn > 0 ==>
              VirtToPhys(pagemap, addr) == Ok((pfn * 4096) % 0x1_0000_0000_0000_0000 + addr % 4096)
    ensures 0 < pfn < 0x10_0000_0000_0000 ==> VirtToPhys(pagemap, addr) == Ok(pfn * 4096 + addr % 4096)
  {
    var entry := 0x8000_0000_0000_0000 + flags * 0x80_0000_0000_0000 + pfn;
    assert entry == (0x100 + flags) * 0x80_0000_0000_0000 + pfn;
    DivModUnique(0x100 + flags, 0x80_0000_0000_0000, pfn);
  }

  lemma MissingPageRefused(pagemap: Pagemap, addr: nat)
    ensures pagemap(addr / 4096) == None ==> VirtToPhys(pagemap, addr) == Err(Io)
    ensures pagemap(addr / 4096).Some? && pagemap(addr / 4096).value < 0x8000_0000_0000_0000 ==>
              VirtToPhys(pagemap, addr) == Err(ValidationFailed("page is not present"))
  {
  }

  predicate Aligned(x: nat, block: nat)
    requires block > 0
  {
    x % block == 0
  }

  // The parity of the block that x falls in.
  function BlockBit(x: nat, block: nat): (bit: nat)
    requires block > 0
    ensures bit < 2
  {
    (x / block) % 2
  }

  // A word is shifted by the low six bits of the count.
  function ComputeChannel(phys: nat, channelBit: nat): (channel: nat)
    ensures channel < 2
  {
    BlockBit(phys, Pow2(channelBit % 64))
  }

  // Virtual to physical addresses, or the error that looking one up gave.
  type Translation = nat -> Result<nat>

  function ChannelAt(translate: Translation, addr: nat, channelBit: nat): (r: Result<nat>)
    ensures r.Ok? ==> r.value < 2
    ensures r.Ok? <==> translate(addr).Ok?
    ensures r.Err? ==> r.error == translate(addr).error
  {
    var phys := translate(addr);
    if phys.Err? then Err(phys.error) else Ok(ComputeChannel(phys.value, channelBit))
  }

  // Translation works on all of [start, start + bytes), and keeps each address' offset within its huge
  // page of 2^pageBits bytes.
  ghost predicate KeepsHugepageOffsets(translate: Translation, start: nat, bytes: nat, pageBits: nat) {
    forall addr: nat | start <= addr < start + bytes ::
         translate(addr).Ok? && translate(addr).value % Pow2(pageBits) == addr % Pow2(pageBits)
  }

  // The page of an address is present and its entry readable: bit 63 is set and the low 55 bits, the frame
  // number, are not zero. The frame has the page's position within the huge page.
  ghost predicate KeepsPlace(pagemap: Pagemap, addr: nat, pageBits: nat)
    requires PAGE_BITS <= pageBits
  {
    pagemap(addr / 4096).Some? &&
    var entry := pagemap(addr / 4096).value;
    var frame := entry % 0x80_0000_0000_0000;
    && 0x8000_0000_0000_0000 <= entry < 0x1_0000_0000_0000_0000 && frame > 0
    && frame % Pow2(pageBits - PAGE_BITS) == (addr / 4096) % Pow2(pageBits - PAGE_BITS)
  }

  // The mapping [start, start + bytes) is backed by naturally aligned huge pages of 2^pageBits bytes.
  ghost predicate HugepageBacked(pagemap: Pagemap, start: nat, bytes: nat, pageBits: nat)
    requires PAGE_BITS <= pageBits
  {
    && Aligned(start, Pow2(pageBits))
    && forall addr: nat | start <= addr < start + bytes :: KeepsPlace(pagemap, addr, pageBits)
  }

  // Splitting an address into a frame number and a page offset, then swapping in a congruent frame
  // and wrapping at 2^64, keeps it modulo the huge page's size.
  lemma FrameSwapKeepsResidue(pfn: nat, page: nat, offset: nat, frames: nat, wraps: nat)
    requires frames > 0 && wraps > 0 && pfn % frames == page % frames
    requires WORD == wraps * (frames * PAGE) && frames * PAGE > 0
    ensures (Wrap(pfn * PAGE) + offset) % (frames * PAGE) == (page * PAGE + offset) % (frames * PAGE)
  {
    var huge := frames * PAGE;
    var k := ModOffset(pfn, page, frames);
    MulAssoc(k, frames, PAGE);
    assert pfn * PAGE + offset == page * PAGE + offset + k * huge;
    ModAddMultiple(page * PAGE + offset, k, huge);
    var w := (pfn * PAGE) / WORD;
    MulAssoc(w, wraps, huge);
    assert pfn * PAGE == w * WORD + Wrap(pfn * PAGE);
    ModAddMultiple(Wrap(pfn * PAGE) + offset, w * wraps, huge);
  }

  lemma TranslationKeepsPageOffset(pagemap: Pagemap, addr: nat, pageBits: nat)
    requires PAGE_BITS <= pageBits <= 64 && KeepsPlace(pagemap, addr, pageBits)
    ensures VirtToPhys(pagemap, addr).Ok?
    ensures VirtToPhys(pagemap, addr).value % Pow2(pageBits) == addr % Pow2(pageBits)
  {
    hide Pow2;
    var frames, wraps := Pow2(pageBits - PAGE_BITS), Pow2(64 - pageBits);
    assert Pow2(pageBits) == frames * PAGE && WORD == wraps * (frames * PAGE) by {
      Pow2Values();
      Pow2Add(pageBits - PAGE_BITS, PAGE_BITS);
      Pow2Add(64 - pageBits, pageBits);
    }
    FrameSwapKeepsResidue(FrameNumber(pagemap(addr / PAGE).value), addr / PAGE, addr % PAGE, frames, wraps);
  }

  // Reading the pagemap of a hugepage-backed mapping is such a translation.
  lemma HugepagesKeepOffsets(pagemap: Pagemap, start: nat, bytes: nat, pageBits: nat)
    requires PAGE_BITS <= pageBits <= 64 && HugepageBacked(pagemap, start, bytes, pageBits)
    ensures KeepsHugepageOffsets(addr => VirtToPhys(pagemap, addr), start, bytes, pageBits)
  {
    forall addr: nat | start <= addr < start + bytes
      ensures VirtToPhys(pagemap, addr).Ok?
      ensures VirtToPhys(pagemap, addr).value % Pow2(pageBits) == addr % Pow2(pageBits)
    {
      TranslationKeepsPageOffset(pagemap, addr, pageBits);
    }
  }

  // The channel bit of an address depends only on the address modulo 2^(bit + 1).
  lemma ChannelBitOfResidue(x: nat, y: nat, bit: nat, pageBits: nat)
    requires bit < pageBits <= 64 && x % Pow2(pageBits) == y % Pow2(pageBits)
    ensures ComputeChannel(x, bit) == BlockBit(y, Pow2(bit))
  {
    hide Pow2;
    assert bit % 64 == bit;
    Pow2Add(pageBits - (bit + 1), bit + 1);
    Pow2Double(bit);
    BlockBitOfResidue(x, y, Pow2(bit), Pow2(pageBits - (bit + 1)));
  }

  lemma BlockBitOfResidue(x: nat, y: nat, b: nat, n: nat)
    requires b > 0 && n * (2 * b) > 0 && x % (n * (2 * b)) == y % (n * (2 * b))
    ensures BlockBit(x, b) == BlockBit(y, b)
  {
    var d := ModOffset(x, y, n * (2 * b));
    MulAssoc(d, n, 2 * b);
    EvenBlocksKeepBit(x, y, d * n, b);
  }

  lemma EvenBlocksKeepBit(x: nat, y: nat, k: int, b: nat)
    requires b > 0 && x == y + k * (2 * b)
    ensures BlockBit(x, b) == BlockBit(y, b)
  {
    MulAssoc(k, 2, b);
    ModAddMultiple(y, k * 2, b);
    ModAddMultiple(y / b, k, 2);
  }

  // Where offsets within huge pages are kept, an address' channel is read off its own bits.
  lemma ChannelIsVirtualBit(translate: Translation, start: nat, bytes: nat, pageBits: nat, addr: nat, bit: nat)
    requires bit < pageBits <= 64 && KeepsHugepageOffsets(translate, start, bytes, pageBits)
    requires start <= addr < start + bytes
    ensures ChannelAt(translate, addr, bit) == Ok(BlockBit(addr, Pow2(bit)))
  {
    hide Pow2;
    hide ComputeChannel;
    hide BlockBit;
    hide Aligned;
    ChannelBitOfResidue(translate(addr).value, addr, bit, pageBits);
  }

  lemma StartIsBlockAligned(start: nat, pageBits: nat, bit: nat)
    requires bit < pageBits && Aligned(start, Pow2(pageBits))
    ensures Aligned(start, Pow2(bit))
  {
    hide Pow2;
    Pow2Add(pageBits - bit, bit);
    ModDivides(start, 0, Pow2(pageBits - bit), Pow2(bit));
  }

  lemma AlignedSum(start: nat, offset: nat, block: nat)
    requires block > 0 && Aligned(start, block)
    ensures (start + offset) / block == start / block + offset / block
  {
    DigitsCompose(start, block);
    ModAddMultiple(offset, start / block, block);
  }

  // Adding an odd number of whole blocks flips the bit, and conversely.
  lemma WholeBlocksFlipIffOdd(x: nat, offset: nat, block: nat)
    requires block > 0 && Aligned(offset, block)
    ensures BlockBit(x, block) != BlockBit(x + offset, block) <==> BlockBit(offset, block) == 1
  {
    hide Aligned;
    AlignedSum(offset, x, block);
  }

  lemma AlignedStartFlipsIffOdd(start: nat, offset: nat, block: nat)
    requires block > 0 && Aligned(start, block)
    ensures BlockBit(start, block) != BlockBit(start + offset, block) <==> BlockBit(offset, block) == 1
  {
    hide Aligned;
    AlignedSum(start, offset, block);
  }

  // With a remainder on top of the odd number of blocks, a byte of the first block flips exactly as long as
  // the remainder does not carry it into one block more.
  lemma RemainderFlipsUntilCarry(start: nat, x: nat, offset: nat, block: nat)
    requires block > 0 && Aligned(start, block) && BlockBit(offset, block) == 1 && x < block
    ensures BlockBit(start + x, block) != BlockBit(start + x + offset, block) <==> x + offset % block < block
  {
    hide BlockBit;
    hide Compose;
    var s, m, y := start / block, offset / block, x + offset % block;
    DigitsCompose(start, block);
    DigitsCompose(offset, block);
    SumOfDigits(s, m, x, offset % block, block);
    BlockBitOf(m, block, offset % block);
    BlockBitOf(s, block, x);
    if y < block {
      BlockBitOf(s + m, block, y);
    } else {
      BlockBitOf(s + m + 1, block, y - block);
    }
  }

  lemma SumOfDigits(s: nat, m: nat, x: nat, d: nat, block: nat)
    ensures Compose(s, block, 0) + x == Compose(s, block, x)
    ensures Compose(s, block, x) + Compose(m, block, d) == Compose(s + m, block, x + d)
    ensures x + d >= block ==> Compose(s + m, block, x + d) == Compose(s + m + 1, block, x + d - block)
  {
    Distribute(block, s, m);
    Distribute(block, s + m, 1);
  }

  lemma BlockBitOf(q: nat, block: nat, r: nat)
    requires r < block
    ensures BlockBit(Compose(q, block, r), block) == q % 2
  {
    ComposeDigits(q, block, r);
  }

  function BaseAddress(plan: LayoutPlan, start: nat, replica: nat): nat {
    start + replica * plan.spec.channelOffsetBytes
  }

  function SlotAddress(plan: LayoutPlan, start: nat, replica: nat, index: nat, byte: nat): nat
    requires plan.Valid()
  {
    start + ByteOffset(plan, replica, index, byte)
  }

  // The base check: every base translates, and no two are in the same channel.
  ghost predicate BasesSeparated(plan: LayoutPlan, translate: Translation, start: nat, bit: nat) {
    && (forall r: nat | r < plan.spec.replicas :: ChannelAt(translate, BaseAddress(plan, start, r), bit).Ok?)
    && forall r: nat, q: nat | r < q < plan.spec.replicas ::
         ChannelAt(translate, BaseAddress(plan, start, r), bit)
         != ChannelAt(translate, BaseAddress(plan, start, q), bit)
  }

  // What translating the bases gives, one by one.
  function BaseLookups(plan: LayoutPlan, translate: Translation, start: nat): (looked: seq<Result<nat>>)
    ensures |looked| == plan.spec.replicas
    ensures forall q: nat | q < |looked| :: looked[q] == translate(BaseAddress(plan, start, q))
  {
    seq(plan.spec.replicas, (q: nat) => translate(start + q * plan.spec.channelOffsetBytes))
  }

  // The base check, said of the physical addresses: shifted right by the bit, no two have the same parity.
  ghost predicate ParitiesDiffer(looked: seq<Result<nat>>, bit: nat) {
    && (forall q: nat | q < |looked| :: looked[q].Ok?)
    && forall p: nat, q: nat | p < q < |looked| ::
         looked[p].value / Pow2(bit % 64) % 2 != looked[q].value / Pow2(bit % 64) % 2
  }

  lemma SeparatedMeansParitiesDiffer(plan: LayoutPlan, translate: Translation, start: nat, bit: nat)
    ensures BasesSeparated(plan, translate, start, bit) <==> ParitiesDiffer(BaseLookups(plan, translate, start), bit)
  {
    hide Pow2;
    hide BaseAddress;
    hide BaseLookups;
    var looked, n := BaseLookups(plan, translate, start), plan.spec.replicas;
    forall q: nat | q < n
      ensures looked[q].Ok? <==> ChannelAt(translate, BaseAddress(plan, start, q), bit).Ok?
    {
    }
  }

  // What the check answers when it does not accept: the first base that does not translate decides, and
  // only when all do, a shared channel.
  ghost predicate CheckRefusesWith(looked: seq<Result<nat>>, error: Error) {
    || (error == ValidationFailed("two replica bases resolved to the same channel")
        && forall q: nat | q < |looked| :: looked[q].Ok?)
    || exists q: nat ::
         q < |looked| && looked[q] == Err(error) && forall p: nat | p < q :: looked[p].Ok?
  }

  // What the check is for: the copies of every byte of every element are in different channels.
  ghost predicate TableSeparated(plan: LayoutPlan, translate: Translation, start: nat, capacity: nat, bit: nat)
    requires plan.Valid()
  {
    forall r: nat, q: nat, i: nat, t: nat |
      r < q < plan.spec.replicas && i < capacity && t < plan.elementSize ::
      ChannelAt(translate, SlotAddress(plan, start, r, i, t), bit)
      != ChannelAt(translate, SlotAddress(plan, start, q, i, t), bit)
  }

  // A channel is one bit, so separated bases are at most two.
  lemma AtMostTwoSeparatedBases(plan: LayoutPlan, translate: Translation, start: nat, bit: nat)
    requires BasesSeparated(plan, translate, start, bit)
    ensures plan.spec.replicas <= 2
  {
    var c0 := ChannelAt(translate, BaseAddress(plan, start, 0), bit);
    var c1 := ChannelAt(translate, BaseAddress(plan, start, 1), bit);
    var c2 := ChannelAt(translate, BaseAddress(plan, start, 2), bit);
    assert c0.Ok? && c1.Ok? && c2.Ok? ==> c0 == c1 || c0 == c2 || c1 == c2;
  }

  // Every copy of a byte sits a whole number of channel offsets above the first replica's, inside
  // the mapping.
  lemma CopyAddress(plan: LayoutPlan, start: nat, capacity: nat, replica: nat, index: nat, byte: nat)
    requires plan.Valid() && replica < plan.spec.replicas && index < capacity && byte < plan.elementSize
    ensures SlotAddress(plan, start, replica, index, byte)
         == SlotAddress(plan, start, 0, index, byte) + replica * plan.spec.channelOffsetBytes
    ensures start <= SlotAddress(plan, start, replica, index, byte) < start + plan.AllocationBytes(capacity)
  {
    var z := plan.elementSize;
    Distribute(z, plan.ReplicaBase(replica), plan.ElementOffset(index));
    MulAssoc(replica, plan.channelOffsetElements, z);
    assert plan.SlotOffset(0, index) == plan.ElementOffset(index);
    SlotInAllocation(plan, capacity, replica, index);
    ByteInAllocation(plan, capacity, plan.SlotOffset(replica, index), byte);
  }

  lemma BaseInMapping(plan: LayoutPlan, start: nat, capacity: nat, replica: nat)
    requires plan.Valid() && replica < plan.spec.replicas
    ensures start <= BaseAddress(plan, start, replica) < start + plan.AllocationBytes(capacity)
    ensures BaseAddress(plan, start, replica) == start + plan.ReplicaBase(replica) * plan.elementSize
  {
    AllocationCoversBases(plan, capacity, replica);
    MulAssoc(replica, plan.channelOffsetElements, plan.elementSize);
    ByteInAllocation(plan, capacity, plan.ReplicaBase(replica), 0);
  }

  // What the base check of two replicas looks at, where offsets within huge pages are kept: the bits of
  // the first base and of the second.
  lemma CheckComparesBits(
      plan: LayoutPlan, translate: Translation, start: nat, capacity: nat, pageBits: nat, bit: nat)
    requires plan.Valid() && plan.spec.replicas == 2 && bit < pageBits <= 64
    requires KeepsHugepageOffsets(translate, start, plan.AllocationBytes(capacity), pageBits)
    ensures BasesSeparated(plan, translate, start, bit)
       <==> BlockBit(start, Pow2(bit)) != BlockBit(start + plan.spec.channelOffsetBytes, Pow2(bit))
  {
    hide Pow2;
    hide ComputeChannel;
    hide BlockBit;
    var cob, bytes := plan.spec.channelOffsetBytes, plan.AllocationBytes(capacity);
    BaseInMapping(plan, start, capacity, 1);
    assert BaseAddress(plan, start, 0) == start && BaseAddress(plan, start, 1) == start + cob;
    ChannelIsVirtualBit(translate, start, bytes, pageBits, start, bit);
    ChannelIsVirtualBit(translate, start, bytes, pageBits, start + cob, bit);
  }

  // So are the copies of one byte: separated exactly when adding the channel offset flips the bit.
  lemma CopiesCompareBits(
      plan: LayoutPlan, translate: Translation, start: nat, capacity: nat, pageBits: nat, bit: nat,
      index: nat, byte: nat)
    requires plan.Valid() && plan.spec.replicas == 2 && bit < pageBits <= 64
    requires KeepsHugepageOffsets(translate, start, plan.AllocationBytes(capacity), pageBits)
    requires index < capacity && byte < plan.elementSize
    ensures var x := SlotAddress(plan, start, 0, index, byte);
            ChannelAt(translate, x, bit) != ChannelAt(translate, SlotAddress(plan, start, 1, index, byte), bit)
            <==> BlockBit(x, Pow2(bit)) != BlockBit(x + plan.spec.channelOffsetBytes, Pow2(bit))
  {
    hide Pow2;
    hide ComputeChannel;
    hide BlockBit;
    hide LayoutPlan.SlotOffset;
    CopyAddress(plan, start, capacity, 0, index, byte);
    CopyAddress(plan, start, capacity, 1, index, byte);
    var x, bytes := SlotAddress(plan, start, 0, index, byte), plan.AllocationBytes(capacity);
    ChannelIsVirtualBit(translate, start, bytes, pageBits, x, bit);
    ChannelIsVirtualBit(translate, start, bytes, pageBits, x + plan.spec.channelOffsetBytes, bit);
  }

  // Checking only the replica bases covers every byte of every element when the channel offset is a
  // multiple of 2^bit, wherever the mapping starts.
  lemma BasesCoverTable(
      plan: LayoutPlan, translate: Translation, start: nat, capacity: nat, pageBits: nat, bit: nat)
    requires plan.Valid() && bit < pageBits <= 64
    requires KeepsHugepageOffsets(translate, start, plan.AllocationBytes(capacity), pageBits)
    requires BasesSeparated(plan, translate, start, bit)
    requires Aligned(plan.spec.channelOffsetBytes, Pow2(bit))
    ensures TableSeparated(plan, translate, start, capacity, bit)
  {
    hide Pow2;
    hide ChannelAt;
    hide BlockBit;
    hide Aligned;
    AtMostTwoSeparatedBases(plan, translate, start, bit);
    var cob := plan.spec.channelOffsetBytes;
    forall r: nat, q: nat, i: nat, t: nat |
      r < q < plan.spec.replicas && i < capacity && t < plan.elementSize
      ensures ChannelAt(translate, SlotAddress(plan, start, r, i, t), bit)
           != ChannelAt(translate, SlotAddress(plan, start, q, i, t), bit)
    {
      CheckComparesBits(plan, translate, start, capacity, pageBits, bit);
      WholeBlocksFlipIffOdd(start, cob, Pow2(bit));
      WholeBlocksFlipIffOdd(SlotAddress(plan, start, 0, i, t), cob, Pow2(bit));
      CopiesCompareBits(plan, translate, start, capacity, pageBits, bit, i, t);
    }
  }

  // Which layouts pass the check, on hugepages: two replicas do exactly when the channel offset holds an
  // odd number of whole 2^bit-byte blocks.
  lemma CheckAcceptsIff(
      plan: LayoutPlan, translate: Translation, start: nat, capacity: nat, pageBits: nat, bit: nat)
    requires plan.Valid() && plan.spec.replicas == 2 && bit < pageBits <= 64
    requires KeepsHugepageOffsets(translate, start, plan.AllocationBytes(capacity), pageBits)
    requires Aligned(start, Pow2(bit))
    ensures BasesSeparated(plan, translate, start, bit) <==> BlockBit(plan.spec.channelOffsetBytes, Pow2(bit)) == 1
  {
    hide Pow2;
    hide BlockBit;
    hide Aligned;
    CheckComparesBits(plan, translate, start, capacity, pageBits, bit);
    AlignedStartFlipsIffOdd(start, plan.spec.channelOffsetBytes, Pow2(bit));
  }

  // The channel offset is a multiple of 2^bit, or the table is so short that what the offset has beyond a
  // multiple carries no byte into the next block.
  predicate OffsetCovers(plan: LayoutPlan, capacity: nat, bit: nat) {
    || Aligned(plan.spec.channelOffsetBytes, Pow2(bit))
    || capacity * plan.elementSize + plan.spec.channelOffsetBytes % Pow2(bit) <= Pow2(bit)
  }

  // The exact condition, for a table of two or more replicas of any size: with accepted bases, all of it
  // is separated if and only if the channel offset covers it. For a table that spans a 2^bit-byte block
  // that is to say, if and only if the offset is a multiple of 2^bit.
  lemma BasesCoverTableIff(
      plan: LayoutPlan, translate: Translation, start: nat, capacity: nat, pageBits: nat, bit: nat)
    requires plan.Valid() && plan.spec.replicas >= 2 && bit < pageBits <= 64
    requires KeepsHugepageOffsets(translate, start, plan.AllocationBytes(capacity), pageBits)
    requires Aligned(start, Pow2(bit))
    requires BasesSeparated(plan, translate, start, bit)
    ensures TableSeparated(plan, translate, start, capacity, bit) <==> OffsetCovers(plan, capacity, bit)
    ensures Pow2(bit) <= capacity * plan.elementSize ==>
              (TableSeparated(plan, translate, start, capacity, bit)
               <==> Aligned(plan.spec.channelOffsetBytes, Pow2(bit)))
  {
    hide Pow2;
    hide TableSeparated;
    hide BlockBit;
    AtMostTwoSeparatedBases(plan, translate, start, bit);
    CheckAcceptsIff(plan, translate, start, capacity, pageBits, bit);
    if Aligned(plan.spec.channelOffsetBytes, Pow2(bit)) {
      BasesCoverTable(plan, translate, start, capacity, pageBits, bit);
    } else if OffsetCovers(plan, capacity, bit) {
      SmallTableSeparated(plan, translate, start, capacity, pageBits, bit);
    } else {
      CarriedByteShared(plan, translate, start, capacity, pageBits, bit);
    }
  }

  lemma SmallTableSeparated(
      plan: LayoutPlan, translate: Translation, start: nat, capacity: nat, pageBits: nat, bit: nat)
    requires plan.Valid() && plan.spec.replicas == 2 && bit < pageBits <= 64
    requires KeepsHugepageOffsets(translate, start, plan.AllocationBytes(capacity), pageBits)
    requires Aligned(start, Pow2(bit)) && BlockBit(plan.spec.channelOffsetBytes, Pow2(bit)) == 1
    requires capacity * plan.elementSize + plan.spec.channelOffsetBytes % Pow2(bit) <= Pow2(bit)
    ensures TableSeparated(plan, translate, start, capacity, bit)
  {
    hide Pow2;
    hide ChannelAt;
    hide BlockBit;
    hide Aligned;
    var b, cob := Pow2(bit), plan.spec.channelOffsetBytes;
    WholeBlock(cob, b);
    forall r: nat, q: nat, i: nat, t: nat |
      r < q < plan.spec.replicas && i < capacity && t < plan.elementSize
      ensures ChannelAt(translate, SlotAddress(plan, start, r, i, t), bit)
           != ChannelAt(translate, SlotAddress(plan, start, q, i, t), bit)
    {
      ItemInGroup(i, capacity, plan.elementSize, t);
      var x := Compose(i, plan.elementSize, t);
      ComposeDigits(i, plan.elementSize, t);
      FirstChunkByte(plan, start, x);
      RemainderFlipsUntilCarry(start, x, cob, b);
      CopiesCompareBits(plan, translate, start, capacity, pageBits, bit, i, t);
    }
  }

  // Otherwise the byte that the remainder carries to the end of its block is in the table, and its copies
  // share a channel.
  lemma CarriedByteShared(
      plan: LayoutPlan, translate: Translation, start: nat, capacity: nat, pageBits: nat, bit: nat)
    requires plan.Valid() && plan.spec.replicas == 2 && bit < pageBits <= 64
    requires KeepsHugepageOffsets(translate, start, plan.AllocationBytes(capacity), pageBits)
    requires Aligned(start, Pow2(bit)) && BlockBit(plan.spec.channelOffsetBytes, Pow2(bit)) == 1
    requires !OffsetCovers(plan, capacity, bit)
    ensures !TableSeparated(plan, translate, start, capacity, bit)
  {
    hide Pow2;
    hide ChannelAt;
    hide BlockBit;
    var b, cob := Pow2(bit), plan.spec.channelOffsetBytes;
    var x := b - cob % b;
    WholeBlock(cob, b);
    FirstChunkByte(plan, start, x);
    QuotientBelow(x, plan.elementSize, capacity);
    RemainderFlipsUntilCarry(start, x, cob, b);
    CopiesCompareBits(
      plan, translate, start, capacity, pageBits, bit, x / plan.elementSize, x % plan.elementSize);
  }

  // So whether every byte of a table is separated can be read off the configuration, whatever its size and
  // its number of replicas.
  lemma TableSeparatedIff(
      plan: LayoutPlan, translate: Translation, start: nat, capacity: nat, pageBits: nat, bit: nat)
    requires plan.Valid() && bit < pageBits <= 64
    requires KeepsHugepageOffsets(translate, start, plan.AllocationBytes(capacity), pageBits)
    requires Aligned(start, Pow2(bit))
    ensures TableSeparated(plan, translate, start, capacity, bit)
       <==> (|| plan.spec.replicas == 1 || capacity == 0
             || (plan.spec.replicas == 2 && BlockBit(plan.spec.channelOffsetBytes, Pow2(bit)) == 1
                 && OffsetCovers(plan, capacity, bit)))
  {
    hide Pow2;
    hide BlockBit;
    hide Aligned;
    hide OffsetCovers;
    hide BasesSeparated;
    if plan.spec.replicas >= 2 && capacity > 0 {
      if TableSeparated(plan, translate, start, capacity, bit) {
        TableSeparatedMeansBasesAre(plan, translate, start, capacity, pageBits, bit);
        AtMostTwoSeparatedBases(plan, translate, start, bit);
      }
      if plan.spec.replicas == 2 {
        CheckAcceptsIff(plan, translate, start, capacity, pageBits, bit);
        if BasesSeparated(plan, translate, start, bit) {
          BasesCoverTableIff(plan, translate, start, capacity, pageBits, bit);
        }
      }
    }
  }

  // The bases are where the copies of the first byte are.
  lemma TableSeparatedMeansBasesAre(
      plan: LayoutPlan, translate: Translation, start: nat, capacity: nat, pageBits: nat, bit: nat)
    requires plan.Valid() && capacity > 0
    requires KeepsHugepageOffsets(translate, start, plan.AllocationBytes(capacity), pageBits)
    requires TableSeparated(plan, translate, start, capacity, bit)
    ensures BasesSeparated(plan, translate, start, bit)
  {
    hide Pow2;
    hide LayoutPlan.SlotOffset;
    FirstChunkByte(plan, start, 0);
    forall r: nat | r < plan.spec.replicas
      ensures SlotAddress(plan, start, r, 0, 0) == BaseAddress(plan, start, r)
      ensures translate(BaseAddress(plan, start, r)).Ok?
    {
      CopyAddress(plan, start, capacity, r, 0, 0);
    }
  }

  // The check's blind spot: with an offset of a block and a half, here of 2^8 bytes, the bases pass at
  // either capacity, but only the smaller table is separated.
  lemma CheckMissesSharedBytes()
    ensures ForType(LayoutSpec(2, 2, 384), 1).Ok?
    ensures var plan := ForType(LayoutSpec(2, 2, 384), 1).value;
            var identity: Translation := addr => Ok(addr);
            && BasesSeparated(plan, identity, 0, 8)
            && TableSeparated(plan, identity, 0, 100, 8)
            && !TableSeparated(plan, identity, 0, 200, 8)
  {
    var plan := ForType(LayoutSpec(2, 2, 384), 1).value;
    var identity: Translation := addr => Ok(addr);
    assert Pow2(8) == 256 by {
      assert Pow2(4) == 16;
      Pow2Add(4, 4);
    }
    assert BlockBit(384, 256) == 1;
    CheckAcceptsIff(plan, identity, 0, 100, 21, 8);
    BasesCoverTableIff(plan, identity, 0, 100, 21, 8);
    BasesCoverTableIff(plan, identity, 0, 200, 21, 8);
  }

  lemma WholeBlock(offset: nat, b: nat)
    requires b > 0 && BlockBit(offset, b) == 1
    ensures b <= offset
  {
    assert offset == (offset / b) * b + offset % b;
    MulMonotone(1, offset / b, b);
  }

  // Byte x of the first chunk belongs to element x / elementSize of replica 0.
  lemma FirstChunkByte(plan: LayoutPlan, start: nat, x: nat)
    requires plan.Valid() && x < plan.spec.channelOffsetBytes
    ensures SlotAddress(plan, start, 0, x / plan.elementSize, x % plan.elementSize) == start + x
  {
    var i := x / plan.elementSize;
    QuotientBelow(x, plan.elementSize, plan.elementsPerChunk);
    ComposeDigits(0, plan.elementsPerChunk, i);
    assert plan.SlotOffset(0, i) == i;
  }
}
