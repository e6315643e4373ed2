/**
 * The table of memory regions to dump: recording them, merging them in place, looking a pointer up,
 * and the page-aligning pass of the later version.
 */
module Regions {
  import opened Bytes

  const MAX_UNEXEC_REGIONS := 200

  datatype Range = Range(address: u32, size: u32) {
    /** The range ends within the address space. */
    predicate Fits() {
      address + size <= TWO32
    }

    predicate Has(p: nat) {
      address <= p < address + size
    }
  }

  ghost predicate Covers(rs: seq<Range>, p: nat) {
    exists r :: r in rs && r.Has(p)
  }

  predicate AllFit(rs: seq<Range>) {
    forall r :: r in rs ==> r.Fits()
  }

  /** Some address is in none of them. */
  ghost predicate LeavesHole(rs: seq<Range>) {
    exists p :: 0 <= p < TWO32 && !Covers(rs, p)
  }

  predicate Sorted(rs: seq<Range>) {
    forall i, j :: 0 <= i < j < |rs| ==> rs[i].address <= rs[j].address
  }

  predicate Touching(r: Range, next: Range) {
    Add32(r.address, r.size) == next.address
  }

  function Join(r: Range, next: Range): Range {
    Range(r.address, Add32(r.size, next.size))
  }

  /** What the merge makes of the regions r, rest[0], rest[1], ... */
  function Merged(r: Range, rest: seq<Range>): (m: seq<Range>)
    ensures 0 < |m| <= 1 + |rest| && m[0].address == r.address
    decreases |rest|
  {
    if rest == [] then [r]
    else if Touching(r, rest[0]) then Merged(Join(r, rest[0]), rest[1..])
    else [r] + Merged(rest[0], rest[1..])
  }

  lemma CoversCons(r: Range, rest: seq<Range>, p: nat)
    ensures Covers([r] + rest, p) <==> r.Has(p) || Covers(rest, p)
  {
    assert r in [r] + rest;
    assert forall x :: x in rest ==> x in [r] + rest;
  }

  predicate NoneTouching(rs: seq<Range>) {
    forall i :: 0 <= i < |rs| - 1 ==> !Touching(rs[i], rs[i + 1])
  }

  predicate Disjoint(rs: seq<Range>) {
    forall i :: 0 <= i < |rs| - 1 ==> rs[i].address + rs[i].size <= rs[i + 1].address
  }

  /** The orders, said of a first region and the ones behind it. */
  lemma ConsOrder(r: Range, rest: seq<Range>)
    ensures Sorted([r] + rest) <==> Sorted(rest) && (rest != [] ==> r.address <= rest[0].address)
    ensures Disjoint([r] + rest) <==> Disjoint(rest) && (rest != [] ==> r.address + r.size <= rest[0].address)
    ensures NoneTouching([r] + rest) <==> NoneTouching(rest) && (rest != [] ==> !Touching(r, rest[0]))
  {
    ConsSorted(r, rest);
    ConsDisjoint(r, rest);
    ConsTouching(r, rest);
  }

  lemma ConsSorted(r: Range, rest: seq<Range>)
    ensures Sorted([r] + rest) <==> Sorted(rest) && (rest != [] ==> r.address <= rest[0].address)
  {
    var all := [r] + rest;
    assert forall i :: 0 <= i < |rest| ==> rest[i] == all[i + 1];
    if rest != [] && Sorted(all) {
      assert all[0].address <= all[1].address;
    }
  }

  lemma ConsDisjoint(r: Range, rest: seq<Range>)
    ensures Disjoint([r] + rest) <==> Disjoint(rest) && (rest != [] ==> r.address + r.size <= rest[0].address)
  {
    var all := [r] + rest;
    assert forall i :: 0 <= i < |rest| ==> rest[i] == all[i + 1];
    if rest != [] && Disjoint(all) {
      assert all[0].address + all[0].size <= all[0 + 1].address;
    }
  }

  lemma ConsTouching(r: Range, rest: seq<Range>)
    ensures NoneTouching([r] + rest) <==> NoneTouching(rest) && (rest != [] ==> !Touching(r, rest[0]))
  {
    var all := [r] + rest;
    assert forall i :: 0 <= i < |rest| ==> rest[i] == all[i + 1];
    if rest != [] && NoneTouching(all) {
      assert !Touching(all[0], all[0 + 1]);
    }
  }

  // ---- The merge in 32 bits ----

  /** Two sorted regions that touch: their sizes may add up to 2^32, and then the joined one is empty. */
  lemma JoinFits(r: Range, next: Range)
    requires r.Fits() && next.Fits() && r.address <= next.address && Touching(r, next)
    ensures Join(r, next).Fits() && Join(r, next).address + Join(r, next).size <= next.address + next.size
  {
  }

  /** The merge of sorted regions is sorted, has no touching neighbours, and is disjoint if they were. */
  lemma {:induction false} MergeSeparates(r: Range, rest: seq<Range>)
    requires r.Fits() && AllFit(rest) && Sorted([r] + rest)
    ensures AllFit(Merged(r, rest)) && Sorted(Merged(r, rest)) && NoneTouching(Merged(r, rest))
    ensures Disjoint([r] + rest) ==> Disjoint(Merged(r, rest))
    decreases |rest|
  {
    if rest != [] {
      var next, tail := rest[0], rest[1..];
      SplitFirst(rest);
      ConsOrder(r, rest);
      ConsOrder(next, tail);
      if Touching(r, next) {
        JoinFits(r, next);
        ConsOrder(Join(r, next), tail);
        MergeSeparates(Join(r, next), tail);
      } else {
        MergeSeparates(next, tail);
        ConsOrder(r, Merged(next, tail));
      }
    }
  }

  // ---- What the merge covers ----

  /** A run of touching regions, in unbounded arithmetic. */
  datatype Run = Run(start: nat, size: nat) {
    predicate Has(p: nat) {
      start <= p < start + size
    }

    predicate Fits() {
      start < TWO32 && start + size <= TWO32
    }

    /** The run is the whole address space. */
    predicate Whole() {
      size == TWO32
    }

    /** What 32-bit words hold of it: nothing of a whole one. */
    function Stored(): Range
      requires Fits()
    {
      Range(start, if Whole() then 0 else size)
    }
  }

  function AsRun(r: Range): Run {
    Run(r.address, r.size)
  }

  /** The runs that the run r, rest[0], rest[1], ... falls into. */
  function Runs(r: Run, rest: seq<Range>): (runs: seq<Run>)
    ensures runs != [] && runs[0].start == r.start
    decreases |rest|
  {
    if rest == [] then [r]
    else if r.start + r.size == rest[0].address then Runs(Run(r.start, r.size + rest[0].size), rest[1..])
    else [r] + Runs(AsRun(rest[0]), rest[1..])
  }

  predicate AllRunsFit(runs: seq<Run>) {
    forall x :: x in runs ==> x.Fits()
  }

  function StoredAll(runs: seq<Run>): seq<Range>
    requires AllRunsFit(runs)
    decreases |runs|
  {
    if runs == [] then [] else [runs[0].Stored()] + StoredAll(runs[1..])
  }

  lemma StoredCons(x: Run, runs: seq<Run>)
    requires x.Fits() && AllRunsFit(runs)
    ensures AllRunsFit([x] + runs) && StoredAll([x] + runs) == [x.Stored()] + StoredAll(runs)
  {
    assert ([x] + runs)[1..] == runs;
  }

  /** Touching and joining of stored runs is that of the runs, although a whole one is stored as nothing. */
  lemma JoinStored(r: Run, next: Range)
    requires r.Fits() && next.Fits() && r.start <= next.address && (r.Whole() ==> 0 < next.address)
    ensures Touching(r.Stored(), next) <==> r.start + r.size == next.address
    ensures var joined := Run(r.start, r.size + next.size);
      r.start + r.size == next.address ==> joined.Fits() && Join(r.Stored(), next) == joined.Stored()
  {
  }

  /** The merge stores the runs. */
  lemma {:induction false} MergedIsRuns(r: Run, rest: seq<Range>)
    requires r.Fits() && AllFit(rest) && Sorted(rest)
    requires rest != [] ==> r.start <= rest[0].address && (r.Whole() ==> 0 < rest[0].address)
    ensures AllRunsFit(Runs(r, rest)) && Merged(r.Stored(), rest) == StoredAll(Runs(r, rest))
    decreases |rest|
  {
    if rest == [] {
      StoredCons(r, []);
      assert [r] + [] == [r];
    } else {
      var next, tail := rest[0], rest[1..];
      SplitFirst(rest);
      ConsSorted(next, tail);
      JoinStored(r, next);
      if r.start + r.size == next.address {
        MergedIsRuns(Run(r.start, r.size + next.size), tail);
      } else {
        assert AsRun(next).Stored() == next;
        MergedIsRuns(AsRun(next), tail);
        StoredCons(r, Runs(AsRun(next), tail));
      }
    }
  }

  ghost predicate InRun(runs: seq<Run>, p: nat) {
    exists x :: x in runs && x.Has(p)
  }

  /** Some run other than a whole one has the address. */
  ghost predicate InBoundedRun(runs: seq<Run>, p: nat) {
    exists x :: x in runs && x.Has(p) && !x.Whole()
  }

  lemma InRunCons(x: Run, runs: seq<Run>, p: nat)
    ensures InRun([x] + runs, p) <==> x.Has(p) || InRun(runs, p)
    ensures InBoundedRun([x] + runs, p) <==> (x.Has(p) && !x.Whole()) || InBoundedRun(runs, p)
  {
    assert x in [x] + runs;
    assert forall y :: y in runs ==> y in [x] + runs;
  }

  /** The runs have the regions' addresses. */
  lemma {:induction false} RunsCover(r: Run, rest: seq<Range>, p: nat)
    ensures InRun(Runs(r, rest), p) <==> r.Has(p) || Covers(rest, p)
    decreases |rest|
  {
    if rest == [] {
      assert [r] + [] == [r];
      InRunCons(r, [], p);
    } else {
      var next, tail := rest[0], rest[1..];
      assert rest == [next] + tail;
      CoversCons(next, tail, p);
      if r.start + r.size == next.address {
        RunsCover(Run(r.start, r.size + next.size), tail, p);
      } else {
        RunsCover(AsRun(next), tail, p);
        InRunCons(r, Runs(AsRun(next), tail), p);
      }
    }
  }

  lemma {:induction false} StoredCovers(runs: seq<Run>, p: nat)
    requires AllRunsFit(runs)
    ensures Covers(StoredAll(runs), p) <==> InBoundedRun(runs, p)
    decreases |runs|
  {
    if runs != [] {
      assert runs == [runs[0]] + runs[1..];
      StoredCovers(runs[1..], p);
      InRunCons(runs[0], runs[1..], p);
      CoversCons(runs[0].Stored(), StoredAll(runs[1..]), p);
    }
  }

  function RunsOf(s: seq<Range>): seq<Run> {
    if s == [] then [] else Runs(AsRun(s[0]), s[1..])
  }

  function MergeOf(s: seq<Range>): seq<Range> {
    if s == [] then [] else Merged(s[0], s[1..])
  }

  /** A merge covers the addresses of the runs that are not the whole address space. */
  lemma MergeCovers(s: seq<Range>, p: nat)
    requires AllFit(s) && Sorted(s)
    ensures Covers(MergeOf(s), p) <==> InBoundedRun(RunsOf(s), p)
    ensures InRun(RunsOf(s), p) <==> Covers(s, p)
  {
    if s != [] {
      SplitFirst(s);
      ConsSorted(s[0], s[1..]);
      MergedIsRuns(AsRun(s[0]), s[1..]);
      assert AsRun(s[0]).Stored() == s[0];
      StoredCovers(RunsOf(s), p);
      RunsCover(AsRun(s[0]), s[1..], p);
      CoversCons(s[0], s[1..], p);
    }
  }

  ghost predicate Kept(s: seq<Range>) {
    forall p: nat :: Covers(MergeOf(s), p) <==> Covers(s, p)
  }

  /** No run of touching regions has sizes that add up to 2^32. */
  predicate NoWholeRun(s: seq<Range>) {
    forall x :: x in RunsOf(s) ==> !x.Whole()
  }

  /** The regions outside of such runs have every address. */
  ghost predicate OthersCoverAll(s: seq<Range>) {
    forall p :: 0 <= p < TWO32 ==> InBoundedRun(RunsOf(s), p)
  }

  lemma FitsBounded(s: seq<Range>, p: nat)
    requires AllFit(s) && Covers(s, p)
    ensures p < TWO32
  {
  }

  /** A run that is the whole address space has every address. */
  lemma WholeRunCovers(s: seq<Range>, x: Run, p: nat)
    requires AllFit(s) && Sorted(s) && x in RunsOf(s) && x.Whole() && p < TWO32
    ensures Covers(s, p)
  {
    SplitFirst(s);
    ConsSorted(s[0], s[1..]);
    MergedIsRuns(AsRun(s[0]), s[1..]);
    assert x.Has(p);
    MergeCovers(s, p);
  }

  /**
   * The merge keeps the covered addresses if and only if no run of touching regions is the whole address
   * space, or what lies outside of such runs is.
   */
  lemma MergeKeepsIff(s: seq<Range>)
    requires AllFit(s) && Sorted(s)
    ensures Kept(s) <==> NoWholeRun(s) || OthersCoverAll(s)
  {
    if NoWholeRun(s) || OthersCoverAll(s) {
      forall p: nat ensures Covers(MergeOf(s), p) <==> Covers(s, p) {
        MergeCovers(s, p);
        if OthersCoverAll(s) && Covers(s, p) {
          FitsBounded(s, p);
        }
      }
    } else {
      var x :| x in RunsOf(s) && x.Whole();
      var p :| 0 <= p < TWO32 && !InBoundedRun(RunsOf(s), p);
      WholeRunCovers(s, x, p);
      MergeCovers(s, p);
    }
  }

  lemma HoleMeansNoWholeRun(s: seq<Range>)
    requires AllFit(s) && Sorted(s) && LeavesHole(s)
    ensures NoWholeRun(s)
  {
    var hole :| 0 <= hole < TWO32 && !Covers(s, hole);
    if x :| x in RunsOf(s) && x.Whole() {
      WholeRunCovers(s, x, hole);
    }
  }

  lemma BehindFirst(rest: seq<Range>, p: nat)
    requires rest != [] && Sorted(rest) && Covers(rest, p)
    ensures rest[0].address <= p
  {
  }

  ghost predicate HasFrom(r: Run, rest: seq<Range>) {
    forall p :: r.start <= p < TWO32 ==> r.Has(p) || Covers(rest, p)
  }

  lemma NextFollows(r: Run, rest: seq<Range>)
    requires r.Fits() && Sorted(rest) && HasFrom(r, rest) && r.start + r.size < TWO32
    ensures rest != [] && rest[0].address <= r.start + r.size
  {
    var end := r.start + r.size;
    assert r.Has(end) || Covers(rest, end);
    BehindFirst(rest, end);
  }

  lemma JoinedHasFrom(r: Run, next: Range, tail: seq<Range>)
    requires HasFrom(r, [next] + tail) && r.start + r.size == next.address
    ensures HasFrom(Run(r.start, r.size + next.size), tail)
  {
    forall p | r.start <= p < TWO32 ensures Run(r.start, r.size + next.size).Has(p) || Covers(tail, p) {
      CoversCons(next, tail, p);
      assert r.Has(p) || Covers([next] + tail, p);
    }
  }

  lemma DisjointBehind(next: Range, tail: seq<Range>)
    requires Sorted([next] + tail) && Disjoint([next] + tail)
    ensures Sorted(tail) && Disjoint(tail) && (tail != [] ==> next.address + next.size <= tail[0].address)
  {
    ConsOrder(next, tail);
  }

  /** Disjoint regions that have every address from the run's start on are one run. */
  lemma {:induction false} NoHoleIsOneRun(r: Run, rest: seq<Range>)
    requires r.Fits() && Sorted(rest) && Disjoint(rest) && AllFit(rest) && HasFrom(r, rest)
    requires rest != [] ==> r.start + r.size <= rest[0].address
    ensures Runs(r, rest) == [Run(r.start, TWO32 - r.start)]
    decreases |rest|
  {
    if r.start + r.size < TWO32 {
      NextFollows(r, rest);
      var next, tail := rest[0], rest[1..];
      SplitFirst(rest);
      JoinedHasFrom(r, next, tail);
      DisjointBehind(next, tail);
      NoHoleIsOneRun(Run(r.start, r.size + next.size), tail);
    }
  }

  lemma HasFromStart(r: Range, rest: seq<Range>)
    requires !LeavesHole([r] + rest)
    ensures HasFrom(AsRun(r), rest)
  {
    forall p | r.address <= p < TWO32 ensures AsRun(r).Has(p) || Covers(rest, p) {
      assert Covers([r] + rest, p);
      CoversCons(r, rest, p);
    }
  }

  lemma NoHoleOf(r: Range, rest: seq<Range>)
    requires r.Fits() && AllFit(rest) && Sorted([r] + rest) && Disjoint([r] + rest) && !LeavesHole([r] + rest)
    ensures Runs(AsRun(r), rest) == [Run(0, TWO32)]
  {
    assert Covers([r] + rest, 0);
    BehindFirst([r] + rest, 0);
    HasFromStart(r, rest);
    DisjointBehind(r, rest);
    NoHoleIsOneRun(AsRun(r), rest);
  }

  lemma OneWholeRun(runs: seq<Run>)
    requires runs == [Run(0, TWO32)]
    ensures runs[0] in runs && !InBoundedRun(runs, 0)
  {
  }

  /** Of disjoint regions, the merge keeps the covered addresses if and only if they leave a hole. */
  lemma DisjointMergeKeepsIff(s: seq<Range>)
    requires AllFit(s) && Sorted(s) && Disjoint(s)
    ensures Kept(s) <==> LeavesHole(s)
  {
    MergeKeepsIff(s);
    if LeavesHole(s) {
      HoleMeansNoWholeRun(s);
    } else {
      assert Covers(s, 0);
      SplitFirst(s);
      NoHoleOf(s[0], s[1..]);
      OneWholeRun(RunsOf(s));
    }
  }

  /** The two halves of the address space merge into nothing. */
  lemma WholeSpaceVanishes()
    ensures var rs := [Range(0, 0x8000_0000), Range(0x8000_0000, 0x8000_0000)];
      AllFit(rs) && Sorted(rs) && Disjoint(rs) && MergeOf(rs) == [Range(0, 0)] && !Kept(rs)
  {
    var rs := [Range(0, 0x8000_0000), Range(0x8000_0000, 0x8000_0000)];
    assert rs[0].Has(0);
    assert Covers(rs, 0) && !Covers(MergeOf(rs), 0);
  }

  /** With one more byte in the first, nothing is lost: they overlap, and so do not touch. */
  lemma OverlapIsKept()
    ensures var rs := [Range(0, 0x8000_0001), Range(0x8000_0000, 0x8000_0000)];
      AllFit(rs) && Sorted(rs) && !LeavesHole(rs) && NoWholeRun(rs) && MergeOf(rs) == rs && Kept(rs)
  {
    var rs := [Range(0, 0x8000_0001), Range(0x8000_0000, 0x8000_0000)];
    assert rs[0] in rs && rs[1] in rs && rs[1..][1..] == [];
    forall p | 0 <= p < TWO32 ensures Covers(rs, p) {
      assert rs[0].Has(p) || rs[1].Has(p);
    }
    assert Merged(rs[1], []) == [rs[1]];
    assert Runs(AsRun(rs[1]), []) == [AsRun(rs[1])];
  }

  /** Merging one region more. */
  lemma MergedStep(front: seq<Range>, r: Range, s: seq<Range>, i: nat)
    requires i < |s|
    ensures Touching(r, s[i]) ==> Merged(r, s[i..]) == Merged(Join(r, s[i]), s[i + 1..])
    ensures !Touching(r, s[i]) ==> front + Merged(r, s[i..]) == front + [r] + Merged(s[i], s[i + 1..])
  {
    assert s[i..][0] == s[i] && s[i..][1..] == s[i + 1..];
    Reassociate(front, [r], Merged(s[i], s[i + 1..]));
  }

  // ---- The table ----

  /** What the recorder's table has room for. */
  function Recorded(ranges: seq<Range>): seq<Range> {
    ranges[..Min(|ranges|, MAX_UNEXEC_REGIONS)]
  }

  class UnexecRegions {
    const regions: array<Range>
    var num: nat

    /** An empty table still starts with the zeros that it was allocated with. */
    ghost predicate Valid()
      reads this, regions
    {
      num <= regions.Length == MAX_UNEXEC_REGIONS && (num == 0 ==> regions[0] == Range(0, 0))
    }

    ghost function Contents(): seq<Range>
      requires Valid()
      reads this, regions
    {
      regions[..num]
    }

    constructor ()
      ensures Valid() && Contents() == [] && fresh(regions)
    {
      regions := new Range[MAX_UNEXEC_REGIONS](_ => Range(0, 0));
      num := 0;
    }

    /** The recorder: ranges beyond the table's capacity are left out. */
    method Record(ranges: seq<Range>)
      requires Valid()
      modifies this`num, regions
      ensures Valid()
      ensures Contents() == old(Contents()) + ranges[..Min(|ranges|, MAX_UNEXEC_REGIONS - old(num))]
    {
      var k := 0;
      while k < |ranges| && num < MAX_UNEXEC_REGIONS
        invariant Valid() && k <= |ranges| && num == old(num) + k
        invariant Contents() == old(Contents()) + ranges[..k]
      {
        regions[num] := ranges[k];
        num := num + 1;
        k := k + 1;
      }
    }

    /** qsort by address; among equal addresses any order will do. */
    method Sort()
      requires Valid()
      modifies regions
      ensures Valid() && Sorted(Contents()) && multiset(Contents()) == multiset(old(Contents()))
    {
      var s := SortByAddress(regions[..num]);
      SortKeeps(regions[..num]);
      forall i | 0 <= i < num {
        regions[i] := s[i];
      }
      assert regions[..num] == s;
    }

    /**
     * The merge is in place: the entry written is always one that was read before.  qsort may put equal
     * addresses in any order.
     */
    method Merge()
      requires Valid() && AllFit(Contents())
      modifies this`num, regions
      ensures Valid() && 0 < num && (0 < old(num) ==> num <= old(num))
      ensures Sorted(Contents()) && NoneTouching(Contents()) && AllFit(Contents())
      ensures old(num) > 0 ==> exists s :: SortingOf(old(Contents()), s) && Contents() == MergeOf(s)
      ensures MergesSafely(old(Contents())) ==>
        forall p: nat :: Covers(Contents(), p) <==> Covers(old(Contents()), p)
      ensures NoOverlaps(old(Contents())) ==> Disjoint(Contents())
    {
      ghost var recorded := Contents();
      Sort();
      ghost var s := Contents();
      MergeSorted();
      if recorded != [] {
        SortedMergeKeeps(recorded, s);
      } else {
        assert s == [];
      }
    }

    method Put(n: nat, r: Range)
      requires n < regions.Length
      modifies regions
      ensures regions[..n + 1] == old(regions[..n]) + [r]
      ensures forall j :: n < j < regions.Length ==> regions[j] == old(regions[j])
    {
      regions[n] := r;
    }

    method MergeSorted()
      requires Valid()
      modifies this`num, regions
      ensures Valid() && 0 < num
      ensures Contents() == if old(num) == 0 then [Range(0, 0)] else Merged(old(Contents())[0], old(Contents())[1..])
    {
      ghost var m := if num == 0 then 1 else num;
      ghost var s := regions[..m];
      var n := 0;
      var r := regions[0];
      var i := 1;
      while i < num
        invariant n < i <= m && num == old(num)
        invariant forall j :: i <= j < m ==> regions[j] == s[j]
        invariant regions[..n] + Merged(r, s[i..]) == Merged(s[0], s[1..])
      {
        var next := regions[i];
        MergedStep(regions[..n], r, s, i);
        if Touching(r, next) {
          r := Join(r, next);
        } else {
          Put(n, r);
          n := n + 1;
          r := next;
        }
        i := i + 1;
      }
      assert s[i..] == [];
      Put(n, r);
      num := n + 1;
    }

    /** ptr_in_unexec_regions: one unsigned comparison per region. */
    method Contains(ptr: u32) returns (b: bool)
      requires Valid() && AllFit(Contents())
      ensures b <==> Covers(Contents(), ptr)
    {
      for i := 0 to num
        invariant forall j :: 0 <= j < i ==> !regions[j].Has(ptr)
      {
        assert regions[i] in Contents();
        if Sub32(ptr, regions[i].address) < regions[i].size {
          return true;
        }
      }
      return false;
    }
  }

  lemma SplitFirst(s: seq<Range>)
    requires 0 < |s| && AllFit(s)
    ensures s == [s[0]] + s[1..] && s[0].Fits() && AllFit(s[1..])
  {
  }

  // ---- Tables in any order ----

  ghost predicate SortingOf(rs: seq<Range>, s: seq<Range>) {
    Sorted(s) && multiset(s) == multiset(rs)
  }

  /** However the regions are sorted, the merge keeps what they cover. */
  ghost predicate MergesSafely(rs: seq<Range>) {
    forall s :: SortingOf(rs, s) ==> NoWholeRun(s) || OthersCoverAll(s)
  }

  /** No region is empty or listed twice, and no two overlap. */
  ghost predicate NoOverlaps(rs: seq<Range>) {
    && (forall x :: x in rs ==> 0 < x.size && multiset(rs)[x] == 1)
    && (forall x, y :: x in rs && y in rs && x != y ==>
          x.address + x.size <= y.address || y.address + y.size <= x.address)
  }

  /** In particular if they leave a hole. */
  lemma HoleMergesSafely(rs: seq<Range>)
    requires AllFit(rs) && LeavesHole(rs)
    ensures MergesSafely(rs)
  {
    var hole :| 0 <= hole < TWO32 && !Covers(rs, hole);
    forall s | SortingOf(rs, s) ensures NoWholeRun(s) {
      PermutationCovers(rs, s);
      assert !Covers(s, hole);
      HoleMeansNoWholeRun(s);
    }
  }

  /** And only then: a sorting is lost on exactly if it is none of these. */
  lemma MergesSafelyIff(rs: seq<Range>)
    requires AllFit(rs)
    ensures MergesSafely(rs) <==>
      forall s :: SortingOf(rs, s) ==> forall p: nat :: Covers(MergeOf(s), p) <==> Covers(rs, p)
  {
    forall s | SortingOf(rs, s)
      ensures (NoWholeRun(s) || OthersCoverAll(s)) <==> forall p: nat :: Covers(MergeOf(s), p) <==> Covers(rs, p)
    {
      PermutationCovers(rs, s);
      MergeKeepsIff(s);
    }
  }

  lemma NeighboursDiffer(s: seq<Range>, i: nat)
    requires i + 1 < |s| && multiset(s)[s[i]] == 1
    ensures s[i] != s[i + 1]
  {
    assert s == s[..i] + [s[i], s[i + 1]] + s[i + 2..];
  }

  lemma SortedApartIsDisjoint(s: seq<Range>)
    requires Sorted(s) && NoOverlaps(s)
    ensures Disjoint(s)
  {
    forall i | 0 <= i < |s| - 1 ensures s[i].address + s[i].size <= s[i + 1].address {
      NeighboursDiffer(s, i);
    }
  }

  lemma PermutationApart(a: seq<Range>, b: seq<Range>)
    requires multiset(a) == multiset(b) && NoOverlaps(a)
    ensures NoOverlaps(b)
  {
    assert forall r :: r in a <==> r in multiset(a);
    assert forall r :: r in b <==> r in multiset(b);
  }

  /** What the merge of a sorting keeps and what it establishes. */
  lemma SortedMergeKeeps(rs: seq<Range>, s: seq<Range>)
    requires rs != [] && AllFit(rs) && SortingOf(rs, s)
    ensures s != [] && Sorted(MergeOf(s)) && NoneTouching(MergeOf(s)) && AllFit(MergeOf(s))
    ensures MergesSafely(rs) ==> forall p: nat :: Covers(MergeOf(s), p) <==> Covers(rs, p)
    ensures NoOverlaps(rs) ==> Disjoint(MergeOf(s))
  {
    PermutationCovers(rs, s);
    assert |s| == |multiset(s)| == |rs|;
    SplitFirst(s);
    MergeSeparates(s[0], s[1..]);
    if MergesSafely(rs) {
      MergeKeepsIff(s);
    }
    if NoOverlaps(rs) {
      PermutationApart(rs, s);
      SortedApartIsDisjoint(s);
    }
  }

  lemma PermutationCovers(a: seq<Range>, b: seq<Range>)
    requires multiset(a) == multiset(b)
    ensures AllFit(a) ==> AllFit(b)
    ensures forall p: nat :: Covers(a, p) <==> Covers(b, p)
  {
    assert forall r :: r in a <==> r in multiset(a);
    assert forall r :: r in b <==> r in multiset(b);
  }

  function Insert(r: Range, s: seq<Range>): (t: seq<Range>)
    ensures |t| == |s| + 1
  {
    if s == [] || r.address <= s[0].address then [r] + s else [s[0]] + Insert(r, s[1..])
  }

  function SortByAddress(s: seq<Range>): seq<Range> {
    if s == [] then [] else Insert(s[0], SortByAddress(s[1..]))
  }

  lemma {:induction false} InsertSorted(r: Range, s: seq<Range>)
    requires Sorted(s)
    ensures Sorted(Insert(r, s))
    ensures Insert(r, s)[0].address == if s == [] || r.address <= s[0].address then r.address else s[0].address
  {
    if s == [] || r.address <= s[0].address {
      ConsSorted(r, s);
    } else {
      assert s == [s[0]] + s[1..];
      ConsSorted(s[0], s[1..]);
      InsertSorted(r, s[1..]);
      ConsSorted(s[0], Insert(r, s[1..]));
    }
  }

  lemma {:induction false} InsertAdds(r: Range, s: seq<Range>)
    ensures multiset(Insert(r, s)) == multiset(s) + multiset{r}
  {
    if s != [] && s[0].address < r.address {
      assert s == [s[0]] + s[1..];
      InsertAdds(r, s[1..]);
    }
  }

  lemma {:induction false} SortKeeps(s: seq<Range>)
    ensures Sorted(SortByAddress(s)) && multiset(SortByAddress(s)) == multiset(s)
    ensures |SortByAddress(s)| == |s|
  {
    if s != [] {
      assert s == [s[0]] + s[1..];
      SortKeeps(s[1..]);
      InsertSorted(s[0], SortByAddress(s[1..]));
      InsertAdds(s[0], SortByAddress(s[1..]));
    }
  }
}
