/** The shape of the kernel heap (src/kheap.c): a sequence of blocks that tile a
    region, each a 9-byte packed header followed by `size` bytes. Allocation and
    release are described here as functions on that sequence; KernelHeap.dfy
    proves that the header-by-header code computes them. */
module HeapBlocks {
  /** sizeof(hheader_t): one flag byte, a 32-bit size and a 32-bit link, packed. */
  const HEADER: nat := 9

  datatype Block = Block(addr: nat, size: nat, hole: bool) {
    function End(): nat { addr + HEADER + size }

    function Payload(): nat { addr + HEADER }
  }

  /** The blocks lie back to back from `start` to `end` and none is empty. */
  ghost predicate Tiles(bs: seq<Block>, start: nat, end: nat) {
    && |bs| > 0
    && bs[0].addr == start
    && bs[|bs| - 1].End() == end
    && (forall i :: 0 <= i < |bs| ==> bs[i].size > 0)
    && (forall i, j :: 0 <= i && j == i + 1 < |bs| ==> bs[j].addr == bs[i].End())
  }

  ghost predicate NoAdjacentHoles(bs: seq<Block>) {
    forall i, j :: 0 <= i && j == i + 1 < |bs| ==> !(bs[i].hole && bs[j].hole)
  }

  /** Earlier blocks end before later ones start, all inside the region. */
  ghost predicate Ordered(bs: seq<Block>, start: nat, end: nat) {
    && (forall i, j :: 0 <= i < j < |bs| ==> bs[i].End() <= bs[j].addr)
    && (forall i :: 0 <= i < |bs| ==> start <= bs[i].addr && bs[i].End() <= end)
  }

  lemma {:induction false} TilesOrdered(bs: seq<Block>, start: nat, end: nat)
    requires Tiles(bs, start, end)
    ensures Ordered(bs, start, end)
  {
    if |bs| > 1 {
      var n := |bs| - 1;
      var front := bs[..n];
      TilesOrdered(front, start, front[n - 1].End());
      forall i, j | 0 <= i < j < |bs|
        ensures bs[i].End() <= bs[j].addr
      {
        assert bs[i] == front[i];
        if j < n {
          assert bs[j] == front[j];
        }
      }
      forall i | 0 <= i < |bs|
        ensures start <= bs[i].addr && bs[i].End() <= end
      {
        if i < n {
          assert bs[i] == front[i];
        } else {
          assert front[n - 1].addr >= start;
        }
      }
    }
  }

  lemma BackToBack(bs: seq<Block>, start: nat, end: nat, i: nat)
    requires Tiles(bs, start, end) && i < |bs|
    ensures i + 1 < |bs| ==> bs[i + 1].addr == bs[i].End()
  {
    if i + 1 < |bs| {
      assert bs[i + 1].addr == bs[i].End();
    }
  }

  /** The boundary arithmetic of hheader_isvalid: the region given to heap_init is `size` bytes but the
      first hole is made `size` bytes long behind its header, so the blocks overshoot by one header.
      Still, comparing with start + size separates every real header from the address after the last block. */
  lemma HeaderIsValidIsExact(bs: seq<Block>, start: nat, size: nat)
    requires Tiles(bs, start, start + HEADER + size)
    ensures forall i :: 0 <= i < |bs| ==> bs[i].addr < start + size
    ensures forall i :: 0 <= i < |bs| ==> (bs[i].End() < start + size <==> i + 1 < |bs|)
  {
    TilesOrdered(bs, start, start + HEADER + size);
    forall i | 0 <= i < |bs|
      ensures bs[i].addr < start + size
      ensures bs[i].End() < start + size <==> i + 1 < |bs|
    {
      if i + 1 < |bs| {
        assert bs[i].End() <= bs[i + 1].addr && bs[i + 1].size > 0;
      }
    }
  }

  /** paging_init maps the pages that begin in front of start + size. */
  predicate OnMappedPage(a: nat, start: nat, size: nat) {
    a - a % 0x1000 < start + size
  }

  /** From an address to the next page bound, if it is not one itself. */
  function ToPageBound(a: nat): nat {
    (0x1000 - a % 0x1000) % 0x1000
  }

  /** So the overshoot is not mapped as far as it reaches beyond that page bound: bytes of the last block, and of no
      other, up to 9 of them. It is all 9 when start and size are whole pages; the size in src/main.c is. */
  lemma UnmappedTail(bs: seq<Block>, start: nat, size: nat, i: nat, a: nat)
    requires Tiles(bs, start, start + HEADER + size) && i < |bs| && bs[i].addr <= a < bs[i].End()
    ensures !OnMappedPage(a, start, size)
        <==> i + 1 == |bs| && bs[i].End() - a + ToPageBound(start + size) <= HEADER
    ensures start % 0x1000 == 0 && size % 0x1000 == 0 ==>
              (!OnMappedPage(a, start, size) <==> i + 1 == |bs| && bs[i].End() - a <= HEADER)
  {
    HeaderIsValidIsExact(bs, start, size);
    if i + 1 < |bs| {
      assert a < start + size;
    } else {
      PagesReach(a, start + size);
    }
  }

  lemma PagesReach(a: nat, end: nat)
    requires a < end + HEADER
    ensures a - a % 0x1000 < end <==> a < end + ToPageBound(end)
    ensures forall start: nat, size: nat :: start % 0x1000 == 0 && size % 0x1000 == 0 && start + size == end ==>
              ToPageBound(end) == 0
  {
  }

  /** heap_high_split on block i: the last `sz` bytes become a hole of their own. */
  function HighSplit(bs: seq<Block>, i: nat, sz: nat): seq<Block>
    requires i < |bs| && HEADER < sz < bs[i].size
  {
    bs[..i] + [bs[i].(size := bs[i].size - sz), Block(bs[i].End() - sz, sz - HEADER, true)] + bs[i + 1..]
  }

  /** heap_merge on block i: swallow the block after it if that is a hole. */
  function Merge(bs: seq<Block>, i: nat): seq<Block>
    requires i < |bs|
  {
    if i + 1 < |bs| && bs[i + 1].hole then
      bs[..i] + [bs[i].(size := bs[i].size + HEADER + bs[i + 1].size)] + bs[i + 2..]
    else
      bs
  }

  function SetHole(bs: seq<Block>, i: nat, hole: bool): seq<Block>
    requires i < |bs|
  {
    bs[i := bs[i].(hole := hole)]
  }

  /** What an unaligned allocation of `size` bytes out of hole i leaves behind. */
  function Carve(bs: seq<Block>, i: nat, size: nat): seq<Block>
    requires i < |bs| && 0 < size <= bs[i].size
  {
    var used := SetHole(bs, i, false);
    if bs[i].size - size > HEADER then HighSplit(used, i, bs[i].size - size) else used
  }

  /** What releasing block i leaves behind: merge forwards, then let a hole in front swallow the result. */
  function Release(bs: seq<Block>, i: nat): seq<Block>
    requires i < |bs|
  {
    var freed := Merge(SetHole(bs, i, true), i);
    if i > 0 && bs[i - 1].hole then Merge(freed, i - 1) else freed
  }

  /** A grant keeps at most a header more than was asked for; what a larger hole has left stays a hole, and no other
      block changes. */
  lemma CarveTight(bs: seq<Block>, i: nat, size: nat)
    requires i < |bs| && bs[i].hole && 0 < size <= bs[i].size
    ensures var after := Carve(bs, i, size);
            && i < |after| && after[i].addr == bs[i].addr && !after[i].hole && size <= after[i].size <= size + HEADER
            && after[..i] == bs[..i]
            && if bs[i].size <= size + HEADER then after[i].size == bs[i].size && after[i + 1..] == bs[i + 1..]
               else
                 && |after| == |bs| + 1 && after[i + 1].hole && after[i + 1].addr == after[i].End()
                 && after[i + 1].End() == bs[i].End() && after[i + 2..] == bs[i + 1..]
  {
  }

  lemma HighSplitTiles(bs: seq<Block>, i: nat, sz: nat, start: nat, end: nat)
    requires Tiles(bs, start, end) && i < |bs| && HEADER < sz < bs[i].size
    ensures Tiles(HighSplit(bs, i, sz), start, end)
  {
    var r := HighSplit(bs, i, sz);
    forall k | 0 < k < |r|
      ensures r[k].addr == r[k - 1].End()
    {
      if k > i + 1 {
        assert r[k] == bs[k - 1];
        if k > i + 2 { assert r[k - 1] == bs[k - 2]; }
      }
    }
    forall k | 0 <= k < |r|
      ensures r[k].size > 0
    {
      if k > i + 1 { assert r[k] == bs[k - 1]; }
    }
  }

  lemma MergeTiles(bs: seq<Block>, i: nat, start: nat, end: nat)
    requires Tiles(bs, start, end) && i < |bs|
    ensures Tiles(Merge(bs, i), start, end)
  {
    var r := Merge(bs, i);
    if r != bs {
      forall k | 0 < k < |r|
        ensures r[k].addr == r[k - 1].End()
      {
        if k > i {
          assert r[k] == bs[k + 1];
          if k > i + 1 { assert r[k - 1] == bs[k]; }
        }
      }
      forall k | 0 <= k < |r|
        ensures r[k].size > 0
      {
        if k > i { assert r[k] == bs[k + 1]; }
      }
    }
  }

  lemma CarveKeeps(bs: seq<Block>, i: nat, size: nat, start: nat, end: nat)
    requires Tiles(bs, start, end) && NoAdjacentHoles(bs)
    requires i < |bs| && bs[i].hole && 0 < size <= bs[i].size
    ensures Tiles(Carve(bs, i, size), start, end) && NoAdjacentHoles(Carve(bs, i, size))
  {
    var used := SetHole(bs, i, false);
    var r := Carve(bs, i, size);
    SetHoleTiles(bs, i, false, start, end);
    if bs[i].size - size > HEADER {
      HighSplitTiles(used, i, bs[i].size - size, start, end);
      hide Tiles;
      forall k | 0 < k < |r|
        ensures !(r[k - 1].hole && r[k].hole)
      {
        if k > i + 1 {
          assert r[k] == bs[k - 1];
          if k > i + 2 { assert r[k - 1] == bs[k - 2]; }
        }
      }
    }
  }

  lemma SetHoleTiles(bs: seq<Block>, i: nat, hole: bool, start: nat, end: nat)
    requires i < |bs|
    ensures Tiles(bs, start, end) <==> Tiles(SetHole(bs, i, hole), start, end)
  {
    var r := SetHole(bs, i, hole);
    assert forall k :: 0 <= k < |bs| ==> r[k].addr == bs[k].addr && r[k].size == bs[k].size;
  }

  /** No two holes meet, except possibly where block i meets its neighbour in front. */
  ghost predicate NoAdjacentHolesBut(bs: seq<Block>, i: nat) {
    forall k, j :: 0 <= k && j == k + 1 < |bs| && j != i ==> !(bs[k].hole && bs[j].hole)
  }

  lemma MergeSeparates(bs: seq<Block>, i: nat)
    requires i < |bs|
    requires bs[i].hole
    requires forall k, j :: 0 <= k && j == k + 1 < |bs| && j != i && j != i + 1 ==> !(bs[k].hole && bs[j].hole)
    ensures NoAdjacentHolesBut(Merge(bs, i), i)
  {
    var r := Merge(bs, i);
    if r != bs {
      forall k | 0 < k < |r| && k != i
        ensures !(r[k - 1].hole && r[k].hole)
      {
        if k > i {
          assert r[k] == bs[k + 1];
          assert !(bs[k].hole && bs[k + 1].hole);
          if k > i + 1 { assert r[k - 1] == bs[k]; }
        } else {
          assert r[k] == bs[k] && r[k - 1] == bs[k - 1];
        }
      }
    }
  }

  lemma ReleaseKeeps(bs: seq<Block>, i: nat, start: nat, end: nat)
    requires Tiles(bs, start, end) && NoAdjacentHoles(bs)
    requires i < |bs| && !bs[i].hole
    ensures Tiles(Release(bs, i), start, end) && NoAdjacentHoles(Release(bs, i))
  {
    var marked := SetHole(bs, i, true);
    var freed := Merge(marked, i);
    SetHoleTiles(bs, i, true, start, end);
    MergeTiles(marked, i, start, end);
    MergeSeparates(marked, i);
    hide Tiles;
    if i > 0 {
      assert freed[i - 1] == bs[i - 1];
      if bs[i - 1].hole {
        MergeTiles(freed, i - 1, start, end);
        MergeSeparates(freed, i - 1);
        if i > 1 {
          assert freed[i - 2] == bs[i - 2];
          assert !bs[i - 2].hole;
        }
      }
    }
  }

  /** Bytes of a block sequence, headers included. */
  function Footprint(bs: seq<Block>): nat {
    if bs == [] then 0 else bs[0].size + HEADER + Footprint(bs[1..])
  }

  /** Space is conserved: whatever the blocks, sizes and headers add up to the region. */
  lemma {:induction false} FootprintIsRegion(bs: seq<Block>, start: nat, end: nat)
    requires Tiles(bs, start, end)
    ensures start + Footprint(bs) == end
  {
    if |bs| == 1 {
      assert Footprint(bs[1..]) == 0;
    } else {
      assert bs[1..][|bs| - 2] == bs[|bs| - 1];
      FootprintIsRegion(bs[1..], bs[0].End(), end);
    }
  }

  /** Once nothing is in use, coalescing has left a single hole covering the region. */
  lemma AllFreeIsOneHole(bs: seq<Block>, start: nat, size: nat)
    requires Tiles(bs, start, start + HEADER + size) && NoAdjacentHoles(bs)
    requires forall i :: 0 <= i < |bs| ==> bs[i].hole
    ensures bs == [Block(start, size, true)]
  {
    var second := bs[if |bs| > 1 then 1 else 0];
  }

  // ---------------------------------------------------------------- holes and payloads by address

  ghost function HoleAddrs(bs: seq<Block>): set<nat> {
    set i | 0 <= i < |bs| && bs[i].hole :: bs[i].addr
  }

  /** Address k belongs to the payload of a block in use. */
  ghost predicate InUse(bs: seq<Block>, k: nat) {
    exists j :: 0 <= j < |bs| && PayloadOf(bs[j], k)
  }

  predicate PayloadOf(b: Block, k: nat) {
    !b.hole && b.Payload() <= k < b.End()
  }

  /** No byte of a header is a payload byte. */
  lemma HeaderNotInUse(bs: seq<Block>, start: nat, end: nat, i: nat, k: nat)
    requires Ordered(bs, start, end) && i < |bs|
    requires bs[i].addr <= k < bs[i].Payload()
    ensures !InUse(bs, k)
  {
    forall j | 0 <= j < |bs|
      ensures !PayloadOf(bs[j], k)
    {
      if j < i {
        assert bs[j].End() <= bs[i].addr;
      } else if i < j {
        assert bs[i].End() <= bs[j].addr;
      }
    }
  }

  lemma SetHoleHoles(bs: seq<Block>, i: nat, hole: bool, start: nat, end: nat)
    requires Ordered(bs, start, end) && i < |bs|
    ensures HoleAddrs(SetHole(bs, i, hole))
         == if hole then HoleAddrs(bs) + {bs[i].addr} else HoleAddrs(bs) - {bs[i].addr}
  {
    var r := SetHole(bs, i, hole);
    forall a
      ensures a in HoleAddrs(r) <==> if hole then a in HoleAddrs(bs) || a == bs[i].addr
                                             else a in HoleAddrs(bs) && a != bs[i].addr
    {
      if a in HoleAddrs(r) {
        var j :| 0 <= j < |r| && r[j].hole && r[j].addr == a;
        assert j != i ==> bs[j] == r[j];
        assert j != i ==> if j < i then bs[j].End() <= bs[i].addr else bs[i].End() <= bs[j].addr;
      }
      if a in HoleAddrs(bs) && a != bs[i].addr {
        var j :| 0 <= j < |bs| && bs[j].hole && bs[j].addr == a;
        assert r[j] == bs[j];
      }
      assert hole ==> r[i].hole && r[i].addr == bs[i].addr;
    }
  }

  lemma HighSplitHoles(bs: seq<Block>, i: nat, sz: nat)
    requires i < |bs| && HEADER < sz < bs[i].size
    ensures HoleAddrs(HighSplit(bs, i, sz)) == HoleAddrs(bs) + {bs[i].End() - sz}
  {
    var r := HighSplit(bs, i, sz);
    forall a
      ensures a in HoleAddrs(r) <==> a in HoleAddrs(bs) || a == bs[i].End() - sz
    {
      if a in HoleAddrs(r) {
        var j :| 0 <= j < |r| && r[j].hole && r[j].addr == a;
        assert j > i + 1 ==> r[j] == bs[j - 1];
      }
      if a in HoleAddrs(bs) {
        var j :| 0 <= j < |bs| && bs[j].hole && bs[j].addr == a;
        assert r[if j <= i then j else j + 1].hole;
      }
      assert r[i + 1].hole && r[i + 1].addr == bs[i].End() - sz;
    }
  }

  /** Distinct blocks have distinct addresses. */
  lemma AddrsDiffer(bs: seq<Block>, start: nat, end: nat, i: nat, j: nat)
    requires Ordered(bs, start, end) && i < |bs| && j < |bs| && i != j
    ensures bs[i].addr != bs[j].addr
  {
    if i < j {
      assert bs[i].End() <= bs[j].addr;
    } else {
      assert bs[j].End() <= bs[i].addr;
    }
  }

  lemma MergeAddsNoHole(bs: seq<Block>, i: nat, start: nat, end: nat, a: nat)
    requires Ordered(bs, start, end) && i + 1 < |bs| && bs[i].hole && bs[i + 1].hole
    requires a in HoleAddrs(Merge(bs, i))
    ensures a in HoleAddrs(bs) && a != bs[i + 1].addr
  {
    hide Ordered;
    var r := Merge(bs, i);
    var j :| 0 <= j < |r| && r[j].hole && r[j].addr == a;
    var j' := if j <= i then j else j + 1;
    assert bs[j'].hole && bs[j'].addr == a;
    AddrsDiffer(bs, start, end, j', i + 1);
  }

  lemma MergeLosesOneHole(bs: seq<Block>, i: nat, a: nat)
    requires i + 1 < |bs| && bs[i].hole && bs[i + 1].hole
    requires a in HoleAddrs(bs) && a != bs[i + 1].addr
    ensures a in HoleAddrs(Merge(bs, i))
  {
    var r := Merge(bs, i);
    var j :| 0 <= j < |bs| && bs[j].hole && bs[j].addr == a;
    var j' := if j <= i then j else j - 1;
    assert r[j'].hole && r[j'].addr == a;
  }

  lemma MergeHoles(bs: seq<Block>, i: nat, start: nat, end: nat)
    requires Ordered(bs, start, end) && i + 1 < |bs| && bs[i].hole && bs[i + 1].hole
    ensures HoleAddrs(Merge(bs, i)) == HoleAddrs(bs) - {bs[i + 1].addr}
  {
    forall a | a in HoleAddrs(Merge(bs, i))
      ensures a in HoleAddrs(bs) && a != bs[i + 1].addr
    {
      MergeAddsNoHole(bs, i, start, end, a);
    }
    forall a | a in HoleAddrs(bs) && a != bs[i + 1].addr
      ensures a in HoleAddrs(Merge(bs, i))
    {
      MergeLosesOneHole(bs, i, a);
    }
  }

  lemma HighSplitInUse(bs: seq<Block>, i: nat, sz: nat, k: nat)
    requires i < |bs| && HEADER < sz < bs[i].size
    requires InUse(HighSplit(bs, i, sz), k)
    ensures InUse(bs, k)
  {
    var r := HighSplit(bs, i, sz);
    var j :| 0 <= j < |r| && PayloadOf(r[j], k);
    assert PayloadOf(bs[if j <= i then j else j - 1], k);
  }

  lemma MergeInUse(bs: seq<Block>, i: nat, k: nat)
    requires i < |bs| && bs[i].hole
    ensures InUse(Merge(bs, i), k) <==> InUse(bs, k)
  {
    var r := Merge(bs, i);
    if r != bs {
      if InUse(r, k) {
        var j :| 0 <= j < |r| && PayloadOf(r[j], k);
        assert PayloadOf(bs[if j <= i then j else j + 1], k);
      }
      if InUse(bs, k) {
        var j :| 0 <= j < |bs| && PayloadOf(bs[j], k);
        assert PayloadOf(r[if j <= i then j else j - 1], k);
      }
    }
  }
}
