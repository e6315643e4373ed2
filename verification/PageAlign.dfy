/** The later version's first pass over the region table: every start moves down to a page boundary. */
module PageAlign {
  import opened Bytes

  /** A region of which the first `filesize` bytes are backed by the file. */
  datatype Region = Region(address: nat, size: nat, filesize: nat) {
    function End(): nat { address + size }

    predicate Has(p: nat) { address <= p < End() }

    predicate Backed(p: nat) { address <= p < address + filesize }
  }

  function Down(address: nat, page: nat): (start: nat)
    requires 0 < page
    ensures start <= address
  {
    address - address % page
  }

  lemma DownAligned(address: nat, page: nat)
    requires 0 < page
    ensures Down(address, page) % page == 0
  {
    var q := address / page;
    assert address == page * q + address % page;
    ModUnique(Down(address, page), page, q, 0);
  }

  lemma DownMonotone(a: nat, b: nat, page: nat)
    requires 0 < page && a <= b
    ensures Down(a, page) <= Down(b, page)
  {
    var q, r := a / page, b / page;
    assert a == page * q + a % page && b == page * r + b % page;
    if r < q {
      MulGap(page, r, q);
    }
  }

  /** Sorted regions that do not overlap, none with more file than region. */
  predicate Ordered(s: seq<Region>) {
    && (forall i :: 0 <= i < |s| ==> s[i].filesize <= s[i].size)
    && (forall i :: 0 <= i < |s| - 1 ==> s[i].End() <= s[i + 1].address)
  }

  /**
   * Where each region comes to lie: it starts on its page, and ends where it did or where the page of
   * its successor starts, whichever is first.
   */
  function Settled(s: seq<Region>, page: nat, i: nat): Region
    requires 0 < page && i < |s| && Ordered(s)
  {
    var start := Down(s[i].address, page);
    var end := if i + 1 < |s| then Min(s[i].End(), Down(s[i + 1].address, page)) else s[i].End();
    DownBetween(s, page, i);
    Region(start, end - start, Min(s[i].filesize + s[i].address - start, end - start))
  }

  function SettledAll(s: seq<Region>, page: nat): (t: seq<Region>)
    requires 0 < page && Ordered(s)
    ensures |t| == |s|
  {
    seq(|s|, i requires 0 <= i < |s| => Settled(s, page, i))
  }

  lemma DownBetween(s: seq<Region>, page: nat, i: nat)
    requires 0 < page && i < |s| && Ordered(s)
    ensures i + 1 < |s| ==> s[i].address <= s[i + 1].address
    ensures i + 1 < |s| ==> Down(s[i].address, page) <= Down(s[i + 1].address, page)
  {
    if i + 1 < |s| {
      assert s[i].End() <= s[i + 1].address;
      DownMonotone(s[i].address, s[i + 1].address, page);
    }
  }

  /** Region i between its own step and its successor's: started on its page, not yet cut short. */
  function Padded(r: Region, page: nat): Region
    requires 0 < page
  {
    var padsize := r.address % page;
    Region(r.address - padsize, r.size + padsize, r.filesize + padsize)
  }

  method AlignPass(a: array<Region>, num: nat, page: nat)
    requires 0 < page && num <= a.Length && Ordered(a[..num])
    modifies a
    ensures a[..num] == SettledAll(old(a[..num]), page)
    ensures a[num..] == old(a[num..])
  {
    ghost var s := a[..num];
    var cur := 0;
    while cur < num
      invariant cur <= num
      invariant forall i :: 0 <= i < cur - 1 ==> a[i] == Settled(s, page, i)
      invariant 0 < cur ==> a[cur - 1] == Padded(s[cur - 1], page)
      invariant forall i :: cur <= i < num ==> a[i] == s[i]
      invariant a[num..] == old(a[num..])
    {
      AlignOne(a, cur, page, s);
      cur := cur + 1;
    }
  }

  /** The body of the pass: pad one region and cut its predecessor short. */
  method AlignOne(a: array<Region>, cur: nat, page: nat, ghost s: seq<Region>)
    requires 0 < page && cur < |s| <= a.Length && Ordered(s)
    requires a[cur] == s[cur] && (0 < cur ==> a[cur - 1] == Padded(s[cur - 1], page))
    modifies a
    ensures a[cur] == Padded(s[cur], page)
    ensures 0 < cur ==> a[cur - 1] == Settled(s, page, cur - 1)
    ensures forall i :: 0 <= i < a.Length && i != cur && i != cur - 1 ==> a[i] == old(a[i])
  {
    if 0 < cur {
      DownBetween(s, page, cur - 1);
      assert s[cur - 1].filesize <= s[cur - 1].size && s[cur - 1].End() <= s[cur - 1 + 1].address;
    }
    var padsize := a[cur].address % page;
    if padsize != 0 {
      a[cur] := Region(a[cur].address - padsize, a[cur].size + padsize, a[cur].filesize + padsize);
      if 0 < cur && a[cur - 1].address + a[cur - 1].size > a[cur].address {
        var prev := a[cur - 1];
        prev := prev.(size := a[cur].address - prev.address);
        if prev.filesize > prev.size {
          prev := prev.(filesize := prev.size);
        }
        a[cur - 1] := prev;
      }
    }
  }

  // ---- What the pass guarantees ----

  /** Every start is page-aligned, nothing overlaps, and no region has more file than size. */
  lemma SettledIsAligned(s: seq<Region>, page: nat)
    requires 0 < page && Ordered(s)
    ensures var t := SettledAll(s, page);
      Ordered(t) && forall i :: 0 <= i < |t| ==> t[i].address % page == 0
  {
    forall i | 0 <= i < |s|
      ensures SettledAll(s, page)[i].address % page == 0
    {
      DownAligned(s[i].address, page);
    }
    forall i | 0 <= i < |s| - 1
      ensures SettledAll(s, page)[i].End() <= SettledAll(s, page)[i + 1].address
    {
      DownBetween(s, page, i);
    }
  }

  ghost predicate Covers(s: seq<Region>, p: nat) {
    exists i :: 0 <= i < |s| && s[i].Has(p)
  }

  ghost predicate FileBacks(s: seq<Region>, p: nat) {
    exists i :: 0 <= i < |s| && s[i].Backed(p)
  }

  /**
   * A byte between the start of region j's page and its end belongs to some settled region from j on,
   * however many regions share the page; it is backed if it lay before the end of j's file part.
   */
  lemma {:induction false} SettledFrom(s: seq<Region>, page: nat, j: nat, p: nat)
    returns (k: nat)
    requires 0 < page && Ordered(s) && j < |s|
    requires Down(s[j].address, page) <= p < s[j].End()
    ensures j <= k < |s| && Settled(s, page, k).Has(p)
    ensures p < s[j].address + s[j].filesize ==> Settled(s, page, k).Backed(p)
    decreases |s| - j
  {
    k := j;
    if !Settled(s, page, j).Has(p) {
      DownBetween(s, page, j);
      assert s[j].End() <= s[j + 1].address;
      k := PaddingFrom(s, page, j + 1, p);
    }
  }

  /** A byte of region j's padding, likewise; padding is always backed. */
  lemma {:induction false} PaddingFrom(s: seq<Region>, page: nat, j: nat, p: nat)
    returns (k: nat)
    requires 0 < page && Ordered(s) && j < |s|
    requires Down(s[j].address, page) <= p < s[j].address
    ensures j <= k < |s| && Settled(s, page, k).Has(p) && Settled(s, page, k).Backed(p)
    decreases |s| - j
  {
    k := j;
    if !Settled(s, page, j).Has(p) {
      DownBetween(s, page, j);
      assert s[j].End() <= s[j + 1].address;
      k := PaddingFrom(s, page, j + 1, p);
    }
  }

  /** The pass covers the original bytes and the padding in front of each region, and nothing else. */
  lemma SettledCovers(s: seq<Region>, page: nat, p: nat)
    requires 0 < page && Ordered(s)
    ensures Covers(SettledAll(s, page), p)
       <==> exists j :: 0 <= j < |s| && Down(s[j].address, page) <= p < s[j].End()
    ensures Covers(s, p) ==> Covers(SettledAll(s, page), p)
  {
    var t := SettledAll(s, page);
    if Covers(t, p) {
      var j :| 0 <= j < |t| && t[j].Has(p);
      assert Down(s[j].address, page) <= p < s[j].End();
    }
    if j :| 0 <= j < |s| && Down(s[j].address, page) <= p < s[j].End() {
      var k := SettledFrom(s, page, j, p);
      assert t[k].Has(p);
    }
  }

  /** The file backs the bytes that it backed, and that padding, and nothing else. */
  lemma SettledBacks(s: seq<Region>, page: nat, p: nat)
    requires 0 < page && Ordered(s)
    ensures FileBacks(SettledAll(s, page), p)
       <==> exists j :: 0 <= j < |s| && Down(s[j].address, page) <= p < s[j].address + s[j].filesize
    ensures FileBacks(s, p) ==> FileBacks(SettledAll(s, page), p)
  {
    var t := SettledAll(s, page);
    if FileBacks(t, p) {
      var j :| 0 <= j < |t| && t[j].Backed(p);
      assert Down(s[j].address, page) <= p < s[j].address + s[j].filesize;
    }
    if j :| 0 <= j < |s| && Down(s[j].address, page) <= p < s[j].address + s[j].filesize {
      assert s[j].filesize <= s[j].size;
      var k := SettledFrom(s, page, j, p);
      assert t[k].Backed(p);
    }
  }
}
