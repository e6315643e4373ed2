/**
 * Memory allocation across the dump: blocks of the dumped zone live on as plain data, everything new
 * comes from the system allocator, and a pointer's address decides which of the two it is.
 */
module Allocator {
  import opened Bytes
  import opened Regions

  type Ptr = u32
  const NULL: Ptr := 0

  /** Live blocks by their start: those dumped with the zone and those the system handed out since. */
  datatype Heap = Heap(zone: map<Ptr, seq<byte>>, system: map<Ptr, seq<byte>>) {
    predicate Live(p: Ptr) {
      p in zone || p in system
    }

    function Block(p: Ptr): seq<byte>
      requires Live(p)
    {
      if p in zone then zone[p] else system[p]
    }
  }

  /**
   * What the program does after the dump.  `p` is the address the system allocator picks when it is
   * asked and `fill` the bytes it finds there.
   */
  datatype Call =
    | Malloc(p: Ptr, fill: seq<byte>)
    | Realloc(ptr: Ptr, p: Ptr, fill: seq<byte>)
    | Free(ptr: Ptr)
    | Store(ptr: Ptr, bytes: seq<byte>)

  /** A block moved into new memory: the bytes that fit are kept. */
  function Moved(block: seq<byte>, fill: seq<byte>): (r: seq<byte>)
    ensures |r| == |fill|
  {
    var n := Min(|block|, |fill|);
    block[..n] + fill[n..]
  }

  ghost predicate Dumped(regions: seq<Range>, p: Ptr) {
    Covers(regions, p)
  }

  /** The pointer, if any, that a call passes to the system's realloc or free. */
  ghost function SystemArg(regions: seq<Range>, c: Call): Option<Ptr> {
    if (c.Realloc? || c.Free?) && !Dumped(regions, c.ptr) then Some(c.ptr) else None
  }

  /** Dumped blocks lie in dumped regions; system blocks and the null pointer do not, which is no block. */
  ghost predicate Apart(regions: seq<Range>, h: Heap) {
    && !Dumped(regions, NULL) && NULL !in h.system
    && (forall p :: p in h.zone ==> Dumped(regions, p))
    && (forall p :: p in h.system ==> !Dumped(regions, p))
  }

  /**
   * What the system and the program promise: fresh addresses outside the dumped regions, and pointers to
   * live blocks.
   */
  ghost predicate Legal(regions: seq<Range>, h: Heap, c: Call) {
    && (c.Malloc? || c.Realloc? ==>
          c.p != NULL && !Dumped(regions, c.p) && (c.p in h.system ==> c.Realloc? && c.p == c.ptr))
    && (c.Realloc? || c.Free? ==> c.ptr == NULL || h.Live(c.ptr))
    && (c.Store? ==> h.Live(c.ptr) && |c.bytes| == |h.Block(c.ptr)|)
  }

  /** The state behind a call; dumped and system blocks must be told apart for it to be this one. */
  ghost function After(regions: seq<Range>, h: Heap, c: Call): Heap
    requires Apart(regions, h) && Legal(regions, h, c)
  {
    match c
    case Malloc(p, fill) => h.(system := h.system[p := fill])
    case Realloc(ptr, p, fill) =>
      if Dumped(regions, ptr) then h.(system := h.system[p := Moved(h.zone[ptr], fill)])
      else if ptr == NULL then h.(system := h.system[p := fill])
      else h.(system := (h.system - {ptr})[p := Moved(h.system[ptr], fill)])
    case Free(ptr) => if Dumped(regions, ptr) then h else h.(system := h.system - {ptr})
    case Store(ptr, bytes) =>
      if ptr in h.zone then h.(zone := h.zone[ptr := bytes]) else h.(system := h.system[ptr := bytes])
  }

  /** A call keeps dumped and system blocks apart, and the dumped blocks where they are. */
  lemma StepStaysApart(regions: seq<Range>, h: Heap, c: Call)
    requires Apart(regions, h) && Legal(regions, h, c)
    ensures Apart(regions, After(regions, h, c)) && After(regions, h, c).zone.Keys == h.zone.Keys
  {
  }

  /** Every call meets the promises in the state that the calls before it lead to. */
  ghost predicate LegalRun(regions: seq<Range>, h: Heap, calls: seq<Call>)
    requires Apart(regions, h)
    decreases |calls|
  {
    calls == [] ||
    (Legal(regions, h, calls[0])
     && (StepStaysApart(regions, h, calls[0]); LegalRun(regions, After(regions, h, calls[0]), calls[1..])))
  }

  ghost function AfterRun(regions: seq<Range>, h: Heap, calls: seq<Call>): Heap
    requires Apart(regions, h) && LegalRun(regions, h, calls)
    decreases |calls|
  {
    if calls == [] then h
    else
      StepStaysApart(regions, h, calls[0]);
      AfterRun(regions, After(regions, h, calls[0]), calls[1..])
  }

  /**
   * In every run that starts with dumped and system blocks apart, they stay apart, and each call passes the
   * system's realloc and free either null or a block that the system itself handed out and that is still
   * allocated.
   */
  lemma {:induction false} SystemSeesOnlyItsOwn(regions: seq<Range>, h: Heap, calls: seq<Call>, i: nat)
    requires Apart(regions, h) && LegalRun(regions, h, calls) && i < |calls|
    ensures LegalRun(regions, h, calls[..i])
    ensures var before := AfterRun(regions, h, calls[..i]);
      var arg := SystemArg(regions, calls[i]);
      && Apart(regions, before) && before.zone.Keys == h.zone.Keys
      && Legal(regions, before, calls[i])
      && (arg.Some? ==> arg.value == NULL || arg.value in before.system)
    decreases i
  {
    StepStaysApart(regions, h, calls[0]);
    if i > 0 {
      SystemSeesOnlyItsOwn(regions, After(regions, h, calls[0]), calls[1..], i - 1);
      assert calls[..i][0] == calls[0] && calls[..i][1..] == calls[1..][..i - 1];
    }
  }

  /** A reallocated block, dumped or not, keeps its first min(old, new) bytes. */
  lemma ReallocKeepsBytes(regions: seq<Range>, h: Heap, c: Call)
    requires Apart(regions, h) && Legal(regions, h, c) && c.Realloc? && c.ptr != NULL
    ensures var h' := After(regions, h, c);
      var n := Min(|h.Block(c.ptr)|, |c.fill|);
      h'.Live(c.p) && |h'.Block(c.p)| == |c.fill| && h'.Block(c.p)[..n] == h.Block(c.ptr)[..n]
  {
    var n := Min(|h.Block(c.ptr)|, |c.fill|);
    assert Moved(h.Block(c.ptr), c.fill)[..n] == h.Block(c.ptr)[..n];
  }

  /** The blocks that are allocated behind a call: a freed one is not, nor one that was moved, unless reused. */
  lemma LiveAfter(regions: seq<Range>, h: Heap, c: Call, q: Ptr)
    requires Apart(regions, h) && Legal(regions, h, c)
    ensures After(regions, h, c).Live(q) <==>
      match c
      case Malloc(p, _) => q == p || h.Live(q)
      case Realloc(ptr, p, _) => q == p || (h.Live(q) && (q != ptr || q in h.zone))
      case Free(ptr) => h.Live(q) && (q != ptr || q in h.zone)
      case Store(_, _) => h.Live(q)
  {
    match c
    case Realloc(ptr, p, _) => assert h.Live(ptr) ==> (ptr in h.zone <==> Dumped(regions, ptr));
    case Free(ptr) => assert h.Live(ptr) ==> (ptr in h.zone <==> Dumped(regions, ptr));
    case _ =>
  }

  /** What a call leaves in the block that it hands out or stores to. */
  lemma BlockAfter(regions: seq<Range>, h: Heap, c: Call)
    requires Apart(regions, h) && Legal(regions, h, c)
    ensures c.Malloc? || (c.Realloc? && c.ptr == NULL) ==> After(regions, h, c).system == h.system[c.p := c.fill]
    ensures c.Realloc? && c.ptr != NULL ==>
      var block, now := h.Block(c.ptr), After(regions, h, c).Block(c.p);
      |now| == |c.fill| && forall i :: 0 <= i < |now| ==> now[i] == if i < |block| then block[i] else c.fill[i]
    ensures c.Store? ==> After(regions, h, c).Block(c.ptr) == c.bytes
  {
  }

  /** A call that does not name block q leaves it allocated and unchanged. */
  lemma OthersUntouched(regions: seq<Range>, h: Heap, c: Call, q: Ptr)
    requires Apart(regions, h) && Legal(regions, h, c) && h.Live(q)
    requires !c.Malloc? ==> c.ptr != q
    ensures After(regions, h, c).Live(q) && After(regions, h, c).Block(q) == h.Block(q)
  {
  }

  // ---- The functions ----

  class UnexecAllocator {
    const table: UnexecRegions
    var zone: map<Ptr, seq<byte>>
    var system: map<Ptr, seq<byte>>

    ghost predicate Valid()
      reads this, table, table.regions
    {
      table.Valid() && AllFit(table.Contents())
    }

    ghost predicate BlocksApart()
      requires Valid()
      reads this, table, table.regions
    {
      Apart(table.Contents(), State())
    }

    ghost function State(): Heap
      reads this
    {
      Heap(zone, system)
    }

    /**
     * The state in which a dumped program starts: the zone's blocks, the regions merged from what the
     * zone's enumerator reported, and an unused system heap.
     */
    constructor (t: UnexecRegions, blocks: map<Ptr, seq<byte>>)
      requires t.Valid() && AllFit(t.Contents())
      ensures Valid() && table == t && State() == Heap(blocks, map[])
    {
      table := t;
      zone, system := blocks, map[];
    }

    /** The system allocator; its callers must meet what the C library asks of them. */
    method SysMalloc(p: Ptr, fill: seq<byte>)
      requires p != NULL && p !in system
      modifies this`system
      ensures system == old(system)[p := fill]
    {
      system := system[p := fill];
    }

    method SysRealloc(ptr: Ptr, p: Ptr, fill: seq<byte>)
      requires ptr == NULL || ptr in system
      modifies this`system
      ensures system == if ptr == NULL then old(system)[p := fill]
                        else (old(system) - {ptr})[p := Moved(old(system)[ptr], fill)]
    {
      system := if ptr == NULL then system[p := fill] else (system - {ptr})[p := Moved(system[ptr], fill)];
    }

    method SysFree(ptr: Ptr)
      requires ptr == NULL || ptr in system
      modifies this`system
      ensures system == old(system) - {ptr}
    {
      system := system - {ptr};
    }

    method Malloc(p: Ptr, fill: seq<byte>)
      requires Valid() && BlocksApart() && Legal(table.Contents(), State(), Call.Malloc(p, fill))
      modifies this`system
      ensures Valid() && BlocksApart() && State() == old(After(table.Contents(), State(), Call.Malloc(p, fill)))
    {
      SysMalloc(p, fill);
    }

    method Realloc(ptr: Ptr, p: Ptr, fill: seq<byte>)
      requires Valid() && BlocksApart() && Legal(table.Contents(), State(), Call.Realloc(ptr, p, fill))
      modifies this`system
      ensures Valid() && BlocksApart() && State() == old(After(table.Contents(), State(), Call.Realloc(ptr, p, fill)))
    {
      var dumped := table.Contains(ptr);
      if dumped {
        var block := zone[ptr];
        var size := if |fill| > |block| then |block| else |fill|;
        SysMalloc(p, block[..size] + fill[size..]);
      } else {
        SysRealloc(ptr, p, fill);
      }
    }

    method Free(ptr: Ptr)
      requires Valid() && BlocksApart() && Legal(table.Contents(), State(), Call.Free(ptr))
      modifies this`system
      ensures Valid() && BlocksApart() && State() == old(After(table.Contents(), State(), Call.Free(ptr)))
    {
      var dumped := table.Contains(ptr);
      if !dumped {
        SysFree(ptr);
      }
    }
  }

  lemma StartsApartIff(ranges: seq<Range>, regions: seq<Range>, blocks: map<Ptr, seq<byte>>)
    requires forall p: nat :: Covers(regions, p) <==> Covers(ranges, p)
    ensures Apart(regions, Heap(blocks, map[]))
       <==> !Covers(ranges, NULL) && forall p :: p in blocks ==> Covers(ranges, p)
  {
  }

  /**
   * From the zone's ranges to a dumped program: unless the merge loses a range, its blocks are told apart if
   * and only if every one of them lies in a range that the table had room for, and null does not.
   */
  method StartDumped(ranges: seq<Range>, blocks: map<Ptr, seq<byte>>) returns (a: UnexecAllocator)
    requires AllFit(Recorded(ranges))
    ensures a.Valid() && a.State() == Heap(blocks, map[])
    ensures MergesSafely(Recorded(ranges)) ==>
      forall p: Ptr :: Dumped(a.table.Contents(), p) <==> Covers(Recorded(ranges), p)
    ensures MergesSafely(Recorded(ranges)) ==>
      (a.BlocksApart()
       <==> !Covers(Recorded(ranges), NULL) && forall p :: p in blocks ==> Covers(Recorded(ranges), p))
  {
    var table := new UnexecRegions();
    table.Record(ranges);
    assert table.Contents() == Recorded(ranges);
    table.Merge();
    if MergesSafely(Recorded(ranges)) {
      StartsApartIff(Recorded(ranges), table.Contents(), blocks);
    }
    a := new UnexecAllocator(table, blocks);
  }

  /** A block in a range beyond the table's capacity is passed to the system's free, which never allocated it. */
  lemma DroppedBlockReachesFree(ranges: seq<Range>, regions: seq<Range>, blocks: map<Ptr, seq<byte>>, p: Ptr)
    requires p in blocks && !Covers(Recorded(ranges), p)
    requires forall q: Ptr :: Dumped(regions, q) <==> Covers(Recorded(ranges), q)
    ensures Legal(regions, Heap(blocks, map[]), Free(p))
    ensures SystemArg(regions, Free(p)) == Some(p) && p !in Heap(blocks, map[]).system
    ensures !Apart(regions, Heap(blocks, map[]))
  {
  }

  function SmallRanges(n: nat): seq<Range>
    requires n <= 1000
  {
    seq(n, i requires 0 <= i < n => Range(4096 * (i + 1), 16))
  }

  /** Such as the 201st of these ranges, which all fit and of which none touches another. */
  lemma TooManyRanges()
    ensures var ranges := SmallRanges(201);
      && AllFit(ranges) && LeavesHole(ranges)
      && Recorded(ranges) == SmallRanges(200) && Covers(ranges, 4096 * 201) && !Covers(Recorded(ranges), 4096 * 201)
  {
    var ranges := SmallRanges(201);
    assert ranges[200] in ranges;
    assert !Covers(ranges, 0);
    assert forall r :: r in Recorded(ranges) ==> r.address <= 4096 * 200 && r.size == 16;
  }
}
