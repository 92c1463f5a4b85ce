/** The kernel allocator of src/kheap.c on the bytes of RAM, with heap_check and
    the recorder of src/heapwatch.c called where the source calls them. */
module KernelHeap {
  import opened Bytes
  import opened HeapBlocks
  import opened HeapLive
  import opened HeapMemory
  import opened HeapWatch
  import opened OrderedList
  import opened Sequences

  function SizeIn(m: seq<byte>, a: nat): nat {
    if a + HEADER <= |m| then WordAt(m, a + 1) else 0
  }

  /** compare_headers: by size, as the memory `m` holds it. */
  function CompareHeaders(m: seq<byte>, a: nat, b: nat): int {
    if SizeIn(m, a) == SizeIn(m, b) then 0 else if SizeIn(m, a) > SizeIn(m, b) then 1 else -1
  }

  /** The listed headers, as the memory `m` holds them, in the order of their sizes. */
  ghost predicate Ascends(m: seq<byte>, listed: seq<nat>) {
    forall p, q :: 0 <= p < q < |listed| ==> SizeIn(m, listed[p]) <= SizeIn(m, listed[q])
  }

  /** That is what the index calls sorted. */
  lemma AscendsIsSorted(m: seq<byte>, listed: seq<nat>)
    ensures var cmp := (x: nat, y: nat) => CompareHeaders(m, x, y);
            Ordering(cmp, Ascending) && (Sorted(listed, cmp, Ascending) <==> Ascends(m, listed))
  {
    hide SizeIn;
    var cmp := (x: nat, y: nat) => CompareHeaders(m, x, y);
    forall a, b
      ensures Behind(cmp(a, b), Ascending) <==> SizeIn(m, a) > SizeIn(m, b)
    {
    }
    hide Behind;
  }

  /** Taking one out keeps the order, and so does a change of memory that keeps the sizes. */
  lemma AscendsFewer(m: seq<byte>, m': seq<byte>, listed: seq<nat>, listed': seq<nat>)
    requires Ascends(m, listed) && (forall a :: a in listed' ==> SizeIn(m', a) == SizeIn(m, a))
    requires listed' == listed || exists k :: 0 <= k < |listed| && listed' == RemoveAt(listed, k)
    ensures Ascends(m', listed')
  {
    hide SizeIn, RemoveAt;
    forall p, q | 0 <= p < q < |listed'|
      ensures SizeIn(m', listed'[p]) <= SizeIn(m', listed'[q])
    {
      assert listed'[p] in listed' && listed'[q] in listed';
      if listed' != listed {
        var k :| 0 <= k < |listed| && listed' == RemoveAt(listed, k);
        RemovedAt(listed, k);
        var p', q' := if p < k then p else p + 1, if q < k then q else q + 1;
        assert SizeIn(m, listed[p']) <= SizeIn(m, listed[q']);
      }
    }
  }

  lemma RemovedAt(s: seq<nat>, k: nat)
    requires k < |s|
    ensures |RemoveAt(s, k)| == |s| - 1
    ensures forall p :: 0 <= p < |s| - 1 ==> RemoveAt(s, k)[p] == s[if p < k then p else p + 1]
  {
  }

  /** The block at `a`, with the same size in both. */
  predicate InBoth(bs: seq<Block>, i: int, bs': seq<Block>, j: int, a: nat) {
    0 <= i < |bs| && 0 <= j < |bs'| && bs[i].addr == a == bs'[j].addr && bs[i].size == bs'[j].size
  }

  /** Blocks that are in both keep their sizes in memory. */
  lemma SizesKept(m: seq<byte>, bs: seq<Block>, m': seq<byte>, bs': seq<Block>, listed: seq<nat>, start: nat, end: nat)
    requires Spells(m, bs) && Ordered(bs, start, end) && end <= |m|
    requires Spells(m', bs') && Ordered(bs', start, end) && end <= |m'|
    requires forall a :: a in listed ==> exists i, j :: InBoth(bs, i, bs', j, a)
    ensures forall a :: a in listed ==> SizeIn(m', a) == SizeIn(m, a)
  {
    hide HeaderIn, SizeIn, Spells, Ordered;
    forall a | a in listed
      ensures SizeIn(m', a) == SizeIn(m, a)
    {
      var i, j :| InBoth(bs, i, bs', j, a);
      BlockHeader(m, bs, i, start, end);
      BlockHeader(m', bs', j, start, end);
      SizeInHeader(m, a);
      SizeInHeader(m', a);
    }
  }

  /** A change of a flag changes no size ... */
  lemma FlagSizes(m: seq<byte>, m': seq<byte>, bs: seq<Block>, i: nat, flag: bool, listed: seq<nat>, start: nat,
                  end: nat)
    requires i < |bs| && Spells(m, bs) && Spells(m', SetHole(bs, i, flag)) && Ordered(bs, start, end)
    requires end <= |m| && end <= |m'| && forall a :: a in listed ==> a in HoleAddrs(bs)
    ensures forall a :: a in listed ==> SizeIn(m', a) == SizeIn(m, a)
  {
    hide HeaderIn, SizeIn, Spells;
    var bs' := SetHole(bs, i, flag);
    forall a | a in listed
      ensures exists k, j :: InBoth(bs, k, bs', j, a)
    {
      var k := HoleAt(bs, a);
      assert InBoth(bs, k, bs', k, a);
    }
    SizesKept(m, bs, m', bs', listed, start, end);
  }

  /** ... and a split none but those of its two parts. */
  lemma SplitSizes(m: seq<byte>, m': seq<byte>, bs: seq<Block>, i: nat, sz: nat, listed: seq<nat>, start: nat, end: nat)
    requires i < |bs| && HEADER < sz < bs[i].size && !bs[i].hole
    requires Spells(m, bs) && Ordered(bs, start, end) && end <= |m| && end <= |m'|
    requires Spells(m', HighSplit(bs, i, sz)) && Ordered(HighSplit(bs, i, sz), start, end)
    requires forall a :: a in listed ==> a in HoleAddrs(bs)
    ensures forall a :: a in listed ==> SizeIn(m', a) == SizeIn(m, a)
  {
    hide HeaderIn, SizeIn, Spells, Ordered;
    var bs' := HighSplit(bs, i, sz);
    forall a | a in listed
      ensures exists k, j :: InBoth(bs, k, bs', j, a)
    {
      var k := HoleAt(bs, a);
      var j := if k < i then k else k + 1;
      assert InBoth(bs, k, bs', j, a);
    }
    SizesKept(m, bs, m', bs', listed, start, end);
  }

  /** Where heap_init puts the first header. The test is on 1000, not on the page size 0x1000. */
  function FirstHeader(begin: nat): nat {
    if begin % 1000 != 0 then begin - begin % 0x1000 + 0x1000 else begin
  }

  /** The first header is meant to be page aligned. It is, exactly when the address is not
      a multiple of 1000 or is page aligned already; 2000 is an address where it is not. */
  lemma FirstHeaderAlignment(begin: nat)
    ensures FirstHeader(begin) % 0x1000 == 0 <==> begin % 1000 != 0 || begin % 0x1000 == 0
    ensures if begin % 1000 == 0 then FirstHeader(begin) == begin else begin < FirstHeader(begin) <= begin + 0x1000
    ensures FirstHeader(2000) % 0x1000 != 0
  {
    NextPage(begin);
  }

  /** Either way its payload never starts a page, so that an aligned grant always moves the first header. */
  lemma FirstPayloadOffPage(begin: nat)
    ensures (FirstHeader(begin) + HEADER) % 0x1000 != 0
  {
    if begin % 1000 != 0 {
      NextPage(begin);
    } else {
      EvenOffset(begin / 1000);
    }
  }

  lemma EvenOffset(n: nat)
    ensures (1000 * n + HEADER) % 0x1000 != 0
  {
    assert (1000 * n + HEADER) % 2 == 1;
  }

  lemma NextPage(a: nat)
    ensures (a - a % 0x1000 + 0x1000) % 0x1000 == 0 && a - a % 0x1000 + 0x1000 > a
  {
    WholePages(a / 0x1000 + 1);
  }

  lemma WholePages(n: nat)
    ensures 0x1000 * n % 0x1000 == 0
  {
  }

  class Heap {
    const ram: array<byte>
    const index: OrdList
    const watch: Watcher
    var start: nat
    var size: nat
    ghost var blocks: seq<Block>

    // ------------------------------------------------------------ headers in memory

    function Flag(a: nat): byte
      requires a + HEADER <= ram.Length
      reads ram
      ensures Flag(a) == HeaderIn(ram[..], a).flag
    {
      ram[a]
    }

    function Size(a: nat): nat
      requires a + HEADER <= ram.Length
      reads ram
      ensures Size(a) == HeaderIn(ram[..], a).size
    {
      Word(ram[a + 1], ram[a + 2], ram[a + 3], ram[a + 4])
    }

    function Prev(a: nat): nat
      requires a + HEADER <= ram.Length
      reads ram
      ensures Prev(a) == HeaderIn(ram[..], a).prev
    {
      Word(ram[a + 5], ram[a + 6], ram[a + 7], ram[a + 8])
    }

    method SetFlag(a: nat, flag: byte)
      requires a + HEADER <= ram.Length
      modifies ram
      ensures HeaderIn(ram[..], a) == HeaderIn(old(ram[..]), a).(flag := flag)
      ensures OnlyHeaders(old(ram[..]), ram[..], {a})
    {
      ram[a] := flag;
    }

    method SetWord(a: nat, v: u32)
      requires a + 4 <= ram.Length
      modifies ram
      ensures WordAt(ram[..], a) == v
      ensures forall k :: 0 <= k < ram.Length && !(a <= k < a + 4) ==> ram[..][k] == old(ram[..])[k]
    {
      var s := Spell(v);
      WordSpell(v);
      hide Spell;
      ram[a], ram[a + 1], ram[a + 2], ram[a + 3] := s[0], s[1], s[2], s[3];
    }

    method SetSize(a: nat, v: u32)
      requires a + HEADER <= ram.Length
      modifies ram
      ensures HeaderIn(ram[..], a) == HeaderIn(old(ram[..]), a).(size := v)
      ensures OnlyHeaders(old(ram[..]), ram[..], {a})
    {
      SetWord(a + 1, v);
    }

    method SetPrev(a: nat, v: u32)
      requires a + HEADER <= ram.Length
      modifies ram
      ensures HeaderIn(ram[..], a) == HeaderIn(old(ram[..]), a).(prev := v)
      ensures OnlyHeaders(old(ram[..]), ram[..], {a})
    {
      SetWord(a + 5, v);
    }

    // ------------------------------------------------------------ invariant

    ghost function Limit(): nat
      reads this
    {
      start + HEADER + size
    }

    ghost predicate Placed()
      reads this
    {
      && 1 < start && (start + HEADER) % 0x1000 != 0 && 0 < size && Limit() <= ram.Length <= 0x1_0000_0000
      && index.order == Ascending
      && ram as object != index.array_ && ram as object != watch.recs && index.array_ as object != watch.recs
    }

    /** Headers, block sequence and hole index agree. */
    ghost predicate Chained()
      reads this, ram, index, index.array_
    {
      && Placed()
      && Tiles(blocks, start, Limit()) && Ordered(blocks, start, Limit())
      && Spells(ram[..], blocks)
      && index.Valid() && Distinct(index.Elements())
      && forall a :: a in index.Elements() <==> a in HoleAddrs(blocks)
    }

    /** The recorder holds one range per block in use, inside that block's payload. */
    ghost predicate Valid()
      reads this, ram, index, index.array_, watch, watch.recs
    {
      && Chained() && NoAdjacentHoles(blocks)
      && watch.Valid() && Watched(blocks, watch.live)
    }

    /** heap_init: the hole index takes `indexSize` bytes at `begin`, the first header follows. */
    constructor (ram: array<byte>, begin: nat, size: nat, indexSize: nat)
      requires 1 < begin && 0 < size && 8 <= indexSize
      requires FirstHeader(begin + indexSize) + HEADER + size <= ram.Length <= 0x1_0000_0000
      modifies ram
      ensures Valid() && this.ram == ram && fresh(index) && fresh(index.array_) && fresh(watch) && fresh(watch.recs)
      ensures start == FirstHeader(begin + indexSize) && this.size == size
      ensures blocks == [Block(start, size, true)] && watch.live == map[]
      ensures index.array_.Length == indexSize / 4 && index.size == 1 && Ascends(ram[..], index.Elements())
    {
      FirstPayloadOffPage(begin + indexSize);
      this.ram := ram;
      this.size := size;
      this.start := FirstHeader(begin + indexSize);
      this.index := new OrdList(indexSize / 4, Ascending);
      this.watch := new Watcher();
      new;
      InstallFirstHole();
    }

    method InstallFirstHole()
      requires Placed() && index.Valid() && index.size == 0 < index.array_.Length
      modifies ram, `blocks, index, index.array_
      ensures Chained() && NoAdjacentHoles(blocks) && blocks == [Block(start, size, true)] && index.size == 1
    {
      hide HeaderIn, Spells, HoleAddrs, Ordered, Tiles;
      WriteHeader(start, size);
      var m := ram[..];
      var _ := index.Insert(start, (x: nat, y: nat) => CompareHeaders(m, x, y));
      blocks := [Block(start, size, true)];
      OneHole(ram[..], start, size);
      assert index.Elements() == [start];
    }

    method WriteHeader(a: nat, size: u32)
      requires a + HEADER <= ram.Length
      modifies ram
      ensures HeaderIn(ram[..], a) == Header(1, size, 0)
    {
      hide HeaderIn, OnlyHeaders;
      SetFlag(a, 1);
      SetSize(a, size);
      SetPrev(a, 0);
    }

    /** Puts an address that is not listed into the hole index. */
    method ListHole(a: nat)
      requires index.Valid() && Distinct(index.Elements()) && index.size < index.array_.Length
      requires ram as object != index.array_ && a !in index.Elements() && index.order == Ascending
      modifies index, index.array_
      ensures index.Valid() && Distinct(index.Elements()) && index.size == old(index.size) + 1
      ensures Ascends(ram[..], old(index.Elements())) ==> Ascends(ram[..], index.Elements())
      ensures forall b :: b in index.Elements() <==> b in old(index.Elements()) || b == a
    {
      hide CompareHeaders, Distinct, Ordering, Sorted, Behind;
      var m := ram[..];
      ghost var before := index.Elements();
      var k := index.Insert(a, (x: nat, y: nat) => CompareHeaders(m, x, y));
      InsertMembers(before, k, a);
      AscendsIsSorted(m, before);
      AscendsIsSorted(m, index.Elements());
    }

    // ------------------------------------------------------------ splitting and merging

    method HeapHighSplit(hole: nat, sz: nat, ghost i: nat)
      requires Chained() && index.size < index.array_.Length
      requires i < |blocks| && blocks[i].addr == hole && HEADER < sz < blocks[i].size
      modifies `blocks, ram, index, index.array_
      ensures Chained() && index.size == old(index.size) + 1
      ensures blocks == HighSplit(old(blocks), i, sz)
      ensures UsedKept(blocks, old(ram[..]), ram[..])
      ensures Ascends(old(ram[..]), old(index.Elements())) && !old(blocks)[i].hole ==>
                Ascends(ram[..], index.Elements())
    {
      hide HeaderIn, OnlyHeaders, Spells, HoleAddrs, Ordered, Tiles, InUse, HighSplit, Ascends;
      ghost var m0, after := ram[..], HighSplit(blocks, i, sz);
      BlockHeader(m0, blocks, i, start, Limit());
      HeaderIsValidIsExact(blocks, start, size);
      var newhole := WriteSplit(hole, sz);
      HighSplitTiles(blocks, i, sz, start, Limit());
      TilesOrdered(after, start, Limit());
      SplitSpells(m0, ram[..], blocks, i, sz, start, Limit());
      SplitFrame(m0, ram[..], blocks, i, sz, start, Limit());
      HighSplitHoles(blocks, i, sz);
      InnerAddrNotHole(blocks, i, newhole, start, Limit());
      if Ascends(m0, index.Elements()) && !blocks[i].hole {
        SplitSizes(m0, ram[..], blocks, i, sz, index.Elements(), start, Limit());
        AscendsFewer(m0, ram[..], index.Elements(), index.Elements());
      }
      ListHole(newhole);
      blocks := after;
    }

    /** The header writes of heap_high_split. */
    method WriteSplit(hole: nat, sz: nat) returns (newhole: nat)
      requires Placed() && hole + HEADER <= ram.Length && HEADER < sz < HeaderIn(ram[..], hole).size
      requires hole + HEADER + HeaderIn(ram[..], hole).size <= Limit()
      modifies ram
      ensures var next := hole + HEADER + HeaderIn(old(ram[..]), hole).size;
              newhole == next - sz &&
              SplitWritten(old(ram[..]), ram[..], hole, newhole, next, sz, next >= start + size)
    {
      hide HeaderIn, OnlyHeaders;
      var next := hole + HEADER + Size(hole);
      newhole := next - sz;
      ghost var m0 := ram[..];
      SetSize(newhole, sz - HEADER);
      ghost var m1 := ram[..];
      OnlyHeadersAt(m0, m1, newhole, hole);
      SetSize(hole, Size(hole) - sz);
      ghost var m2 := ram[..];
      OnlyHeadersAt(m1, m2, hole, newhole);
      SetPrev(newhole, hole);
      ghost var m3 := ram[..];
      OnlyHeadersAt(m2, m3, newhole, hole);
      SetFlag(newhole, 1);
      ghost var m4 := ram[..];
      OnlyHeadersAt(m3, m4, newhole, hole);
      OnlyHeadersCompose(m0, m1, m2, {newhole}, {hole}, {hole, newhole});
      OnlyHeadersCompose(m0, m2, m3, {hole, newhole}, {newhole}, {hole, newhole});
      OnlyHeadersCompose(m0, m3, m4, {hole, newhole}, {newhole}, {hole, newhole});
      if next < start + size {
        assert Apart(hole, next) && Apart(newhole, next);
        SetPrev(next, newhole);
        OnlyHeadersAt(m4, ram[..], next, hole);
        OnlyHeadersAt(m4, ram[..], next, newhole);
        OnlyHeadersCompose(m0, m4, ram[..], {hole, newhole}, {next}, {hole, newhole, next});
        OnlyHeadersPair(m0, m4, hole, newhole, next);
      }
    }

    method HeapMerge(hole: nat, ghost i: nat)
      requires Chained() && index.size < index.array_.Length
      requires i < |blocks| && blocks[i].addr == hole && blocks[i].hole
      modifies `blocks, ram, index, index.array_
      ensures Chained() && index.size <= old(index.size)
      ensures blocks == Merge(old(blocks), i)
      ensures UsedKept(blocks, old(ram[..]), ram[..])
      ensures !(i + 1 < |old(blocks)| && old(blocks)[i + 1].hole) ==>
                ram[..] == old(ram[..]) && index.Elements() == old(index.Elements())
    {
      hide HeaderIn, OnlyHeaders, Spells, HoleAddrs, Ordered, InUse, Flag, Size, Prev;
      ghost var m0, after := ram[..], Merge(blocks, i);
      BlockHeader(m0, blocks, i, start, Limit());
      HeaderIsValidIsExact(blocks, start, size);
      var next := hole + HEADER + Size(hole);
      if next < start + size {
        BlockHeader(m0, blocks, i + 1, start, Limit());
        if Flag(next) != 0 {
          var over := WriteMerge(hole, next);
          MergeTiles(blocks, i, start, Limit());
          TilesOrdered(after, start, Limit());
          MergeSpells(m0, ram[..], blocks, i, start, Limit());
          MergeFrame(m0, ram[..], blocks, i, start, Limit());
          MergeHoles(blocks, i, start, Limit());
          HoleListed(blocks, i + 1);
          var k := index.IndexOf(next);
          RemoveMembers(index.Elements(), k);
          var _ := index.Remove(k);
          blocks := after;
        }
      }
    }

    // ------------------------------------------------------------ the client's operations

    /** heap_alloc without alignment. The three places where the source can panic are the asserts on
        `verdict`. The answer is 0 only when no hole is large enough; otherwise it is the payload of a
        block carved out of one hole, and no byte of a live range has changed. */
    method HeapAlloc(bytes: nat) returns (ptr: nat)
      requires Valid() && |watch.live| < CAPACITY && index.size < index.array_.Length
      modifies `blocks, ram, index, index.array_, watch, watch.recs
      ensures Valid()
      ensures ptr == 0 <==> bytes == 0 || forall i :: 0 <= i < |old(blocks)| && old(blocks)[i].hole ==>
                old(blocks)[i].size < bytes
      ensures ptr == 0 ==> blocks == old(blocks) && watch.live == old(watch.live)
      ensures ptr != 0 ==> Granted(old(blocks), blocks, bytes, ptr)
      ensures Ascends(old(ram[..]), old(index.Elements())) ==>
                Ascends(ram[..], index.Elements()) && (ptr != 0 ==> GrantedLeast(old(blocks), blocks, bytes, ptr))
      ensures ptr != 0 ==> ptr !in old(watch.live) && watch.live == old(watch.live)[ptr := bytes]
      ensures ptr != 0 ==> start + HEADER <= ptr && ptr + bytes <= Limit()
      ensures ptr != 0 ==> forall p :: p in old(watch.live) ==> ptr + bytes <= p || p + old(watch.live)[p] <= ptr
      ensures PayloadsKept(old(watch.live), old(ram[..]), ram[..])
    {
      hide HeaderIn, OnlyHeaders, Spells, HoleAddrs, Ordered, Tiles, NoAdjacentHoles, InUse, Watched, Flag, Size,
           Prev, Carve, Granted, PayloadsKept, Distinct, Ascends, SizeIn, GrantedLeast;
      ghost var m0, bs, live := ram[..], blocks, watch.live;
      UsedKeptLive(bs, live, m0, m0, start, Limit());
      var verdict := HeapCheckPasses();
      assert verdict == Fine;
      if bytes == 0 {
        return 0;
      }
      var best, i := FindHole(bytes);
      if best == index.size {
        return 0;
      }
      if Ascends(m0, index.Elements()) {
        FirstIsLeast(m0, bs, index.Elements(), best, i, bytes, start, Limit());
      }
      ptr := Grant(best, bytes, i);
      if Ascends(m0, old(index.Elements())) {
        assert GrantedLeast(bs, blocks, bytes, ptr) by {
          GrantedLeastBy(bs, blocks, bytes, i);
        }
      }
    }

    /** The grant, once the hole is chosen. */
    method Grant(best: nat, bytes: nat, ghost i: nat) returns (ptr: nat)
      requires Valid() && |watch.live| < CAPACITY && best < index.size < index.array_.Length
      requires i < |blocks| && blocks[i].hole && blocks[i].addr == index.Elements()[best] && 0 < bytes <= blocks[i].size
      modifies `blocks, ram, index, index.array_, watch, watch.recs
      ensures Valid() && Granted(old(blocks), blocks, bytes, ptr)
      ensures ptr !in old(watch.live) && watch.live == old(watch.live)[ptr := bytes]
      ensures start + HEADER <= ptr && ptr + bytes <= Limit()
      ensures forall p :: p in old(watch.live) ==> ptr + bytes <= p || p + old(watch.live)[p] <= ptr
      ensures PayloadsKept(old(watch.live), old(ram[..]), ram[..])
      ensures blocks == Carve(old(blocks), i, bytes) && ptr == old(blocks)[i].Payload()
      ensures Ascends(old(ram[..]), old(index.Elements())) ==> Ascends(ram[..], index.Elements())
    {
      hide HeaderIn, OnlyHeaders, Spells, HoleAddrs, Ordered, Tiles, NoAdjacentHoles, InUse, Watched, Flag, Size,
           Prev, Carve, Granted, PayloadsKept, Distinct, Ascends;
      ghost var bs, live := blocks, watch.live;
      GrantFacts(bs, live, i, bytes, start, Limit());
      ptr := CarveHole(best, bytes, i, live);
      var verdict := Record(ptr, bytes);
      assert verdict == Fine;
      verdict := HeapCheckPasses();
      assert verdict == Fine;
      GrantedBy(bs, blocks, bytes, i);
    }

    /** The call of heapwatch_alloc for a range that clashes with no recorded one. */
    method Record(ptr: nat, bytes: nat) returns (verdict: Verdict)
      requires Chained() && NoAdjacentHoles(blocks) && watch.Valid() && |watch.live| < CAPACITY
      requires ptr != 0 && bytes != 0 && Watched(blocks, watch.live[ptr := bytes])
      requires forall p :: p in watch.live ==> !Clashes(ptr, bytes, Rec(p, watch.live[p]))
      modifies watch, watch.recs
      ensures verdict == Fine && watch.live == old(watch.live)[ptr := bytes] && Valid()
    {
      verdict := watch.Alloc(ptr, bytes);
    }

    /** Takes a listed hole and splits off what the request leaves over. */
    method CarveHole(best: nat, bytes: nat, ghost i: nat, ghost live: map<nat, nat>) returns (ptr: nat)
      requires Chained() && NoAdjacentHoles(blocks) && Watched(blocks, live) && best < index.size < index.array_.Length
      requires i < |blocks| && blocks[i].hole && blocks[i].addr == index.Elements()[best] && 0 < bytes <= blocks[i].size
      modifies `blocks, ram, index, index.array_
      ensures Chained() && NoAdjacentHoles(blocks)
      ensures blocks == Carve(old(blocks), i, bytes) && ptr == old(blocks)[i].Payload()
      ensures PayloadsKept(live, old(ram[..]), ram[..])
      ensures Ascends(old(ram[..]), old(index.Elements())) ==> Ascends(ram[..], index.Elements())
    {
      hide HeaderIn, OnlyHeaders, Spells, HoleAddrs, Ordered, Tiles, NoAdjacentHoles, InUse, Watched, Flag, Size,
           Prev, Carve, Ascends;
      ghost var m0, bs := ram[..], blocks;
      var hole := index.array_[best];
      TakeHole(best, i);
      ghost var m1 := ram[..];
      CarveByCases(bs, i, bytes);
      BlockHeader(m1, blocks, i, start, Limit());
      if Size(hole) - bytes > HEADER {
        HeapHighSplit(hole, Size(hole) - bytes, i);
      }
      ptr := hole + HEADER;
      CarveKeeps(bs, i, bytes, start, Limit());
      GrantFacts(bs, live, i, bytes, start, Limit());
      GrantKeeps(m0, m1, ram[..], bs, live, i, bytes, start, Limit());
    }

    /** The scan of the hole index: the first listed hole that is large enough, or the end of the list. */
    method FindHole(bytes: nat) returns (best: nat, ghost i: nat)
      requires Chained()
      ensures best == index.size ==> forall j :: 0 <= j < |blocks| && blocks[j].hole ==> blocks[j].size < bytes
      ensures best != index.size ==>
                best < index.size && i < |blocks| && blocks[i].hole
                && blocks[i].addr == index.Elements()[best] && bytes <= blocks[i].size
      ensures best <= index.size && forall k :: 0 <= k < best ==> SizeIn(ram[..], index.Elements()[k]) < bytes
    {
      hide HeaderIn, Flag, Size, Prev, HoleAddrs, Spells, Tiles, Ordered, SizeIn;
      best, i := 0, 0;
      while best < index.size
        invariant best <= index.size
        invariant forall k :: 0 <= k < best ==> SizeIn(ram[..], index.Elements()[k]) < bytes
      {
        assert index.Elements()[best] in HoleAddrs(blocks);
        i := HoleAt(blocks, index.Elements()[best]);
        BlockHeader(ram[..], blocks, i, start, Limit());
        SizeInHeader(ram[..], blocks[i].addr);
        if Size(index.array_[best]) >= bytes {
          return;
        }
        best := best + 1;
      }
      NoHoleFits(ram[..], blocks, index.Elements(), bytes, start, Limit());
    }

    /** Marks a listed hole as used and strikes it off the list. */
    method TakeHole(best: nat, ghost i: nat)
      requires Chained() && best < index.size < index.array_.Length
      requires i < |blocks| && blocks[i].hole && blocks[i].addr == index.Elements()[best]
      modifies `blocks, ram, index, index.array_
      ensures Chained() && index.size == old(index.size) - 1
      ensures blocks == SetHole(old(blocks), i, false)
      ensures OnlyHeaders(old(ram[..]), ram[..], {old(blocks)[i].addr})
      ensures Ascends(old(ram[..]), old(index.Elements())) ==> Ascends(ram[..], index.Elements())
    {
      hide HeaderIn, OnlyHeaders, Spells, HoleAddrs, Ordered, Tiles, Flag, Size, Prev, Ascends;
      ghost var listed := index.Elements();
      ghost var m0 := ram[..];
      BlockHeader(m0, blocks, i, start, Limit());
      SetFlag(index.array_[best], 0);
      FlagSpells(m0, ram[..], blocks, i, false, start, Limit());
      RemoveMembers(index.Elements(), best);
      var _ := index.Remove(best);
      SetHoleHoles(blocks, i, false, start, Limit());
      SetHoleTiles(blocks, i, false, start, Limit());
      if Ascends(m0, listed) {
        FlagSizes(m0, ram[..], blocks, i, false, index.Elements(), start, Limit());
        AscendsFewer(m0, ram[..], listed, index.Elements());
      }
      blocks := SetHole(blocks, i, false);
      TilesOrdered(blocks, start, Limit());
    }

    /** heap_free. Its callers owe it a live pointer or 0; then the recorder never reports a double free. */
    method HeapFree(ptr: nat)
      requires Valid() && index.size + 1 < index.array_.Length
      requires ptr == 0 || ptr in watch.live
      modifies `blocks, ram, index, index.array_, watch, watch.recs
      ensures Valid()
      ensures watch.live == old(watch.live) - {ptr}
      ensures ptr == 0 ==> blocks == old(blocks)
      ensures ptr != 0 ==> exists i :: 0 <= i < |old(blocks)| && !old(blocks)[i].hole
                                && old(blocks)[i].Payload() == ptr && blocks == Release(old(blocks), i)
                                && (!HoleBeside(old(blocks), i) && Ascends(old(ram[..]), old(index.Elements())) ==>
                                      Ascends(ram[..], index.Elements()))
      ensures PayloadsKept(old(watch.live) - {ptr}, old(ram[..]), ram[..])
    {
      hide HeaderIn, OnlyHeaders, Spells, HoleAddrs, Ordered, Tiles, NoAdjacentHoles, InUse, Watched, Flag, Size,
           Prev, Merge, Release, Ascends;
      ghost var m0, bs, live := ram[..], blocks, watch.live;
      var verdict := HeapCheckPasses();
      assert verdict == Fine;
      verdict := watch.Free(ptr);
      assert verdict == Fine;
      if ptr == 0 {
        assert watch.live == live;
        UsedKeptLive(bs, live, m0, ram[..], start, Limit());
        return;
      }
      ghost var i := LiveBlock(bs, live, ptr);
      TakeBack(ptr - HEADER, i, live);
      ReleaseWatched(bs, live, start, Limit(), i);
      verdict := HeapCheckPasses();
      assert verdict == Fine;
    }

    /** The block becomes a hole and merges with the holes behind it and in front of it. */
    method TakeBack(block: nat, ghost i: nat, ghost live: map<nat, nat>)
      requires Chained() && NoAdjacentHoles(blocks) && Watched(blocks, live) && index.size + 1 < index.array_.Length
      requires i < |blocks| && !blocks[i].hole && blocks[i].addr == block && block + HEADER in live
      modifies `blocks, ram, index, index.array_
      ensures Chained() && NoAdjacentHoles(blocks) && blocks == Release(old(blocks), i)
      ensures PayloadsKept(live - {block + HEADER}, old(ram[..]), ram[..])
      ensures !HoleBeside(old(blocks), i) && Ascends(old(ram[..]), old(index.Elements())) ==>
                Ascends(ram[..], index.Elements())
    {
      hide HeaderIn, OnlyHeaders, Spells, HoleAddrs, Ordered, Tiles, NoAdjacentHoles, InUse, Watched, Flag, Size,
           Prev, Merge, Release, PayloadsKept, Ascends;
      ghost var m0, bs := ram[..], blocks;
      GiveHole(block, i);
      ghost var m1 := ram[..];
      assert Ordered(SetHole(bs, i, true), start, Limit());
      HeapMerge(block, i);
      ghost var m2, freed := ram[..], blocks;
      FreedFront(bs, i);
      BlockHeader(m2, freed, i, start, Limit());
      if i > 0 {
        BlockHeader(m2, freed, i - 1, start, Limit());
      }
      if Prev(block) != 0 && Flag(Prev(block)) != 0 {
        assert Prev(block) != 1;
        HeapMerge(Prev(block), i - 1);
      }
      ReleaseByCases(bs, i);
      ReleaseKeeps(bs, i, start, Limit());
      ReleaseWatched(bs, live, start, Limit(), i);
      RevokeKeeps(m0, m1, m2, ram[..], bs, live - {block + HEADER}, i, start, Limit());
    }

    /** Marks a block in use as a hole and lists it. */
    method GiveHole(block: nat, ghost i: nat)
      requires Chained() && index.size < index.array_.Length
      requires i < |blocks| && !blocks[i].hole && blocks[i].addr == block
      modifies `blocks, ram, index, index.array_
      ensures Chained() && index.size == old(index.size) + 1
      ensures blocks == SetHole(old(blocks), i, true)
      ensures OnlyHeaders(old(ram[..]), ram[..], {block})
      ensures Ascends(old(ram[..]), old(index.Elements())) ==> Ascends(ram[..], index.Elements())
    {
      hide HeaderIn, OnlyHeaders, Spells, HoleAddrs, Ordered, Tiles, Flag, Size, Prev, Ascends;
      ghost var m0 := ram[..];
      BlockHeader(m0, blocks, i, start, Limit());
      UsedNotListed(blocks, i, start, Limit());
      SetFlag(block, 1);
      FlagSpells(m0, ram[..], blocks, i, true, start, Limit());
      if Ascends(m0, index.Elements()) {
        FlagSizes(m0, ram[..], blocks, i, true, index.Elements(), start, Limit());
        AscendsFewer(m0, ram[..], index.Elements(), index.Elements());
      }
      ListHole(block);
      SetHoleHoles(blocks, i, true, start, Limit());
      SetHoleTiles(blocks, i, true, start, Limit());
      blocks := SetHole(blocks, i, true);
      TilesOrdered(blocks, start, Limit());
    }

    // ------------------------------------------------------------ the executable invariant

    /** heap_check walks the chain once and panics on the first inconsistency. It passes exactly
        on the memories that hold a block sequence in the sense of Certified, and `found` is that sequence. */
    method HeapCheck() returns (v: Verdict, ghost found: seq<Block>)
      requires 0 < size && Limit() <= ram.Length
      ensures v == Fine ==> Certified(ram[..], found, start, size)
      ensures v != Fine ==> forall bs: seq<Block> :: !Certified(ram[..], bs, start, size)
    {
      hide HeaderIn, CertifiedAt, RoundPasses, Flag, Size, Prev;
      var cur := start;
      found := [];
      while true
        invariant start <= cur < start + size
        invariant forall bs: seq<Block> :: Certified(ram[..], bs, start, size) ==>
                    |found| < |bs| && bs[|found|].addr == cur
        invariant forall i :: 0 <= i < |found| ==> CertifiedAt(ram[..], found, i, start, size)
        invariant found == [] ==> cur == start
        invariant found != [] ==>
                    var b := found[|found| - 1];
                    b.End() == cur && Prev(cur) == b.addr && !(b.hole && Flag(cur) != 0)
        invariant found != [] ==> found[0].addr == start
        decreases start + size - cur
      {
        forall bs: seq<Block> | Certified(ram[..], bs, start, size)
          ensures RoundPasses(ram[..], cur, start, size)
          ensures if |found| + 1 < |bs| then bs[|found| + 1].addr == cur + HEADER + Size(cur) < start + size
                  else start + size <= cur + HEADER + Size(cur)
        {
          CertifiedPasses(ram[..], bs, start, size, |found|);
        }
        v := CheckRound(cur);
        if v != Fine {
          return;
        }
        PassedBlock(ram[..], found, cur, start, size);
        found := found + [Block(cur, Size(cur), Flag(cur) == 1)];
        var next := cur + HEADER + Size(cur);
        if next >= start + size {
          return;
        }
        RoundLinks(cur);
        cur := next;
      }
    }

    /** heap_check never panics on a heap that meets the invariant. */
    method HeapCheckPasses() returns (v: Verdict)
      requires Chained() && NoAdjacentHoles(blocks)
      ensures v == Fine
    {
      hide HeaderIn, Certified, Ordered, Tiles, NoAdjacentHoles, HoleAddrs, Spells;
      ghost var chain;
      v, chain := HeapCheck();
      SpelledIsCertified(ram[..], blocks, start, size);
    }

    lemma RoundLinks(cur: nat)
      requires start <= cur < start + size && Limit() <= ram.Length
      requires RoundPasses(ram[..], cur, start, size) && cur + HEADER + Size(cur) < start + size
      ensures Prev(cur + HEADER + Size(cur)) == cur
      ensures !(Flag(cur) == 1 && Flag(cur + HEADER + Size(cur)) != 0)
    {
      hide HeaderIn;
    }

    /** The checks of one round, in the order of the source: the message is that of the first that fails. */
    method CheckRound(cur: nat) returns (v: Verdict)
      requires start <= cur < start + size && Limit() <= ram.Length
      ensures v == Fine <==> RoundPasses(ram[..], cur, start, size)
      ensures var h := HeaderIn(ram[..], cur);
              var backward := start <= h.prev <= cur;
              var next := cur + HEADER + h.size;
              && (v == Corrupted(1) <==> h.flag > 1 || h.prev > cur)
              && (v == Corrupted(2) <==> h.flag <= 1 && backward && h.prev + HEADER + Size(h.prev) != cur)
              && (v == Corrupted(3) ==> backward && h.prev + HEADER + Size(h.prev) == cur && h.flag == 1)
              && (v == Corrupted(4) ==> next < start + size && Prev(next) != cur)
              && (v == Corrupted(5) ==> next < start + size && Prev(next) == cur && h.flag == 1)
              && (v == Fine || exists k :: 1 <= k <= 5 && v == Corrupted(k))
    {
      hide HeaderIn, Flag, Size, Prev;
      if Flag(cur) > 1 || Prev(cur) > cur {
        return Corrupted(1);
      }
      var prev := Prev(cur);
      if prev >= start {
        if prev + HEADER + Size(prev) != cur {
          return Corrupted(2);
        }
        if Flag(prev) != 0 && Flag(cur) != 0 {
          return Corrupted(3);
        }
      }
      var next := cur + HEADER + Size(cur);
      if next < start + size {
        if Prev(next) != cur {
          return Corrupted(4);
        }
        if Flag(cur) != 0 && Flag(next) != 0 {
          return Corrupted(5);
        }
      }
      return Fine;
    }

    /** The header writes of heap_merge: `over` is the header after the swallowed one. */
    method WriteMerge(hole: nat, next: nat) returns (over: nat)
      requires Placed() && hole + HEADER <= next && next + HEADER <= ram.Length
      requires next + HEADER + HeaderIn(ram[..], next).size <= Limit()
      requires HeaderIn(ram[..], hole).size + HeaderIn(ram[..], next).size + HEADER < 0x1_0000_0000
      modifies ram
      ensures over == next + HEADER + HeaderIn(old(ram[..]), next).size
      ensures MergeWritten(old(ram[..]), ram[..], hole, next, over, over >= start + size)
    {
      hide HeaderIn, OnlyHeaders, Flag, Size, Prev;
      ghost var m0 := ram[..];
      over := next + HEADER + Size(next);
      var total := Size(hole) + Size(next) + HEADER;
      if over < start + size {
        SetPrev(over, hole);
        ghost var m1 := ram[..];
        OnlyHeadersAt(m0, m1, over, hole);
        SetSize(hole, total);
        OnlyHeadersAt(m1, ram[..], hole, over);
        OnlyHeadersCompose(m0, m1, ram[..], {over}, {hole}, {hole, over});
      } else {
        SetSize(hole, total);
      }
    }
  }

  /** After any run, in whatever order blocks were freed: once nothing is live the heap is one hole of
      the size it started with. */
  lemma AllReturned(h: Heap)
    requires h.Valid() && h.watch.live == map[]
    ensures h.blocks == [Block(h.start, h.size, true)]
  {
    NoneInUse(h.blocks);
    AllFreeIsOneHole(h.blocks, h.start, h.size);
  }

  lemma NoneInUse(bs: seq<Block>)
    requires Watched(bs, map[])
    ensures forall i :: 0 <= i < |bs| ==> bs[i].hole
  {
  }

  /** Sizes and headers always add up to what the heap was made of. */
  lemma SpaceConserved(h: Heap)
    requires h.Valid()
    ensures Footprint(h.blocks) == HEADER + h.size
  {
    FootprintIsRegion(h.blocks, h.start, h.Limit());
  }

  /** A neighbour that a release merges with. */
  predicate HoleBeside(bs: seq<Block>, i: nat) {
    (i + 1 < |bs| && bs[i + 1].hole) || (0 < i <= |bs| && bs[i - 1].hole)
  }

  /** The same for a hole than which none that has room is smaller. */
  ghost predicate GrantedLeast(bs: seq<Block>, after: seq<Block>, bytes: nat, ptr: nat) {
    exists i ::
      && 0 <= i < |bs| && bs[i].hole && 0 < bytes <= bs[i].size
      && after == Carve(bs, i, bytes) && bs[i].Payload() == ptr
      && forall j :: 0 <= j < |bs| && bs[j].hole && bytes <= bs[j].size ==> bs[i].size <= bs[j].size
  }

  /** The first listed hole with room is a smallest one, if the list ascends. */
  lemma FirstIsLeast(m: seq<byte>, bs: seq<Block>, listed: seq<nat>, best: nat, i: nat, bytes: nat, start: nat,
                     end: nat)
    requires Ordered(bs, start, end) && Spells(m, bs) && end <= |m|
    requires forall a :: a in listed <==> a in HoleAddrs(bs)
    requires best < |listed| && i < |bs| && bs[i].hole && bs[i].addr == listed[best] && Ascends(m, listed)
    requires forall k :: 0 <= k < best ==> SizeIn(m, listed[k]) < bytes
    ensures forall j :: 0 <= j < |bs| && bs[j].hole && bytes <= bs[j].size ==> bs[i].size <= bs[j].size
  {
    hide HeaderIn, Ordered, Spells, SizeIn, HoleAddrs;
    BlockHeader(m, bs, i, start, end);
    SizeInHeader(m, bs[i].addr);
    forall j | 0 <= j < |bs| && bs[j].hole && bytes <= bs[j].size
      ensures bs[i].size <= bs[j].size
    {
      BlockHeader(m, bs, j, start, end);
      SizeInHeader(m, bs[j].addr);
      HoleListed(bs, j);
      assert bs[j].addr in listed;
      var k :| 0 <= k < |listed| && listed[k] == bs[j].addr;
      assert k >= best;
      assert k == best || SizeIn(m, listed[best]) <= SizeIn(m, listed[k]);
    }
  }

  /** One hole of `bs` was carved for a request of `bytes` bytes, and `ptr` is its payload. */
  ghost predicate Granted(bs: seq<Block>, after: seq<Block>, bytes: nat, ptr: nat) {
    exists i ::
      && 0 <= i < |bs| && bs[i].hole && 0 < bytes <= bs[i].size
      && after == Carve(bs, i, bytes) && bs[i].Payload() == ptr
  }

  lemma GrantedLeastBy(bs: seq<Block>, after: seq<Block>, bytes: nat, i: nat)
    requires i < |bs| && bs[i].hole && 0 < bytes <= bs[i].size && after == Carve(bs, i, bytes)
    requires forall j :: 0 <= j < |bs| && bs[j].hole && bytes <= bs[j].size ==> bs[i].size <= bs[j].size
    ensures GrantedLeast(bs, after, bytes, bs[i].Payload())
  {
  }

  lemma GrantedBy(bs: seq<Block>, after: seq<Block>, bytes: nat, i: nat)
    requires i < |bs| && bs[i].hole && 0 < bytes <= bs[i].size && after == Carve(bs, i, bytes)
    ensures Granted(bs, after, bytes, bs[i].Payload())
  {
  }

  /** Every byte of every live range is what it was. */
  ghost predicate PayloadsKept(live: map<nat, nat>, m: seq<byte>, m': seq<byte>) {
    forall p :: p in live ==> p + live[p] <= |m| && p + live[p] <= |m'| && m'[p..p + live[p]] == m[p..p + live[p]]
  }

  lemma HoleAt(bs: seq<Block>, a: nat) returns (i: nat)
    requires a in HoleAddrs(bs)
    ensures i < |bs| && bs[i].hole && bs[i].addr == a
  {
    i :| 0 <= i < |bs| && bs[i].hole && bs[i].addr == a;
  }

  /** When every listed header is too small, every hole is. */
  lemma NoHoleFits(m: seq<byte>, bs: seq<Block>, listed: seq<nat>, bytes: nat, start: nat, end: nat)
    requires Ordered(bs, start, end) && Spells(m, bs) && end <= |m|
    requires forall a :: a in listed <==> a in HoleAddrs(bs)
    requires forall k :: 0 <= k < |listed| ==> SizeIn(m, listed[k]) < bytes
    ensures forall j :: 0 <= j < |bs| && bs[j].hole ==> bs[j].size < bytes
  {
    hide HeaderIn, Ordered, Spells, SizeIn, HoleAddrs;
    forall j | 0 <= j < |bs| && bs[j].hole
      ensures bs[j].size < bytes
    {
      BlockHeader(m, bs, j, start, end);
      SizeInHeader(m, bs[j].addr);
      HoleListed(bs, j);
      assert bs[j].addr in listed;
    }
  }

  lemma SizeInHeader(m: seq<byte>, a: nat)
    requires a + HEADER <= |m|
    ensures SizeIn(m, a) == HeaderIn(m, a).size
  {
  }

  lemma CarveByCases(bs: seq<Block>, i: nat, bytes: nat)
    requires i < |bs| && bs[i].hole && 0 < bytes <= bs[i].size
    ensures Carve(bs, i, bytes) == if bs[i].size - bytes > HEADER
                                   then HighSplit(SetHole(bs, i, false), i, bs[i].size - bytes)
                                   else SetHole(bs, i, false)
  {
  }

  lemma ReleaseByCases(bs: seq<Block>, i: nat)
    requires i < |bs|
    ensures Release(bs, i) == if i > 0 && bs[i - 1].hole then Merge(Merge(SetHole(bs, i, true), i), i - 1)
                              else Merge(SetHole(bs, i, true), i)
  {
  }

  lemma FreedFront(bs: seq<Block>, i: nat)
    requires i < |bs|
    ensures var freed := Merge(SetHole(bs, i, true), i);
            && i < |freed| && freed[i].addr == bs[i].addr && freed[i].hole
            && (i > 0 ==> freed[i - 1] == bs[i - 1])
  {
  }

  lemma LiveBlock(bs: seq<Block>, live: map<nat, nat>, ptr: nat) returns (i: nat)
    requires Watched(bs, live) && ptr in live
    ensures i < |bs| && !bs[i].hole && bs[i].Payload() == ptr
  {
    assert UsedAt(bs, ptr);
    i :| 0 <= i < |bs| && !bs[i].hole && bs[i].Payload() == ptr;
  }

  lemma UsedNotListed(bs: seq<Block>, i: nat, start: nat, end: nat)
    requires Ordered(bs, start, end) && i < |bs| && !bs[i].hole
    ensures bs[i].addr !in HoleAddrs(bs)
  {
    forall j | 0 <= j < |bs| && bs[j].hole
      ensures bs[j].addr != bs[i].addr
    {
      assert j < i ==> bs[j].End() <= bs[i].addr;
      assert i < j ==> bs[i].End() <= bs[j].addr;
    }
  }

  lemma InUseInside(bs: seq<Block>, start: nat, end: nat, k: nat)
    requires Ordered(bs, start, end) && InUse(bs, k)
    ensures k < end
  {
    var j :| 0 <= j < |bs| && PayloadOf(bs[j], k);
  }

  /** What a grant of `bytes` bytes of hole i means to the other clients' ranges ... */
  lemma GrantFacts(bs: seq<Block>, live: map<nat, nat>, i: nat, bytes: nat, start: nat, end: nat)
    requires Watched(bs, live) && Ordered(bs, start, end)
    requires i < |bs| && bs[i].hole && 0 < bytes <= bs[i].size
    ensures var ptr := bs[i].Payload();
            && ptr !in live && Watched(Carve(bs, i, bytes), live[ptr := bytes])
            && start + HEADER <= ptr && ptr + bytes <= end
            && (forall p :: p in live ==> ptr + bytes <= p || p + live[p] <= ptr)
            && (forall p :: p in live ==> !Clashes(ptr, bytes, Rec(p, live[p])))
  {
    var ptr := bs[i].Payload();
    HoleNotLive(bs, live, start, end, i);
    CarveWatched(bs, live, start, end, i, bytes);
    hide Watched, Carve;
    forall p | p in live
      ensures p != ptr && (ptr + bytes <= p || p + live[p] <= ptr) && live[p] > 0
    {
      LiveApart(bs, live, start, end, i, p);
      LiveSize(bs, live, p);
    }
  }

  /** ... and to their bytes. */
  lemma GrantKeeps(m0: seq<byte>, m1: seq<byte>, m2: seq<byte>, bs: seq<Block>, live: map<nat, nat>, i: nat, bytes: nat,
                   start: nat, end: nat)
    requires i < |bs| && bs[i].hole && 0 < bytes <= bs[i].size
    requires bs[i].Payload() !in live && Watched(Carve(bs, i, bytes), live[bs[i].Payload() := bytes])
    requires Ordered(SetHole(bs, i, false), start, end) && Ordered(Carve(bs, i, bytes), start, end) && end <= |m0|
    requires OnlyHeaders(m0, m1, {bs[i].addr}) && UsedKept(Carve(bs, i, bytes), m1, m2)
    ensures PayloadsKept(live, m0, m2)
  {
    hide Ordered, UsedKept, Watched, OnlyHeaders, Carve, InUse;
    var after, live' := Carve(bs, i, bytes), live[bs[i].Payload() := bytes];
    CarveKeepsUsed(m0, m1, m2, bs, i, bytes, start, end);
    UsedKeptLive(after, live', m0, m2, start, end);
    assert forall p :: p in live ==> p in live' && live'[p] == live[p];
  }

  lemma CarveKeepsUsed(m0: seq<byte>, m1: seq<byte>, m2: seq<byte>, bs: seq<Block>, i: nat, bytes: nat, start: nat,
                       end: nat)
    requires i < |bs| && bs[i].hole && 0 < bytes <= bs[i].size && Ordered(SetHole(bs, i, false), start, end)
    requires OnlyHeaders(m0, m1, {bs[i].addr}) && UsedKept(Carve(bs, i, bytes), m1, m2)
    ensures UsedKept(Carve(bs, i, bytes), m0, m2)
  {
    hide Ordered, OnlyHeaders, Carve, InUse;
    var used, after := SetHole(bs, i, false), Carve(bs, i, bytes);
    assert used[i].addr == bs[i].addr;
    HeadersFrame(m0, m1, used, {bs[i].addr}, start, end);
    forall k | 0 <= k < |m0| && InUse(after, k)
      ensures m2[k] == m0[k]
    {
      CarveInUse(bs, i, bytes, k);
    }
  }

  /** Payloads in use keep their bytes, so live ranges do. */
  lemma UsedKeptLive(bs: seq<Block>, live: map<nat, nat>, m: seq<byte>, m': seq<byte>, start: nat, end: nat)
    requires Watched(bs, live) && Ordered(bs, start, end) && end <= |m| && UsedKept(bs, m, m')
    ensures PayloadsKept(live, m, m')
  {
    hide InUse, Watched, Ordered;
    forall p | p in live
      ensures p + live[p] <= |m| && p + live[p] <= |m'| && m'[p..p + live[p]] == m[p..p + live[p]]
    {
      LiveSize(bs, live, p);
      LiveInUse(bs, live, p, p + live[p] - 1);
      InUseInside(bs, start, end, p + live[p] - 1);
      forall k | p <= k < p + live[p]
        ensures m'[k] == m[k]
      {
        LiveInUse(bs, live, p, k);
      }
    }
  }

  lemma LiveSize(bs: seq<Block>, live: map<nat, nat>, p: nat)
    requires Watched(bs, live) && p in live
    ensures live[p] > 0
  {
    assert UsedAt(bs, p);
  }

  lemma CarveInUse(bs: seq<Block>, i: nat, bytes: nat, k: nat)
    requires i < |bs| && bs[i].hole && 0 < bytes <= bs[i].size && InUse(Carve(bs, i, bytes), k)
    ensures InUse(SetHole(bs, i, false), k)
  {
    if bs[i].size - bytes > HEADER {
      HighSplitInUse(SetHole(bs, i, false), i, bs[i].size - bytes, k);
    }
  }

  /** What releasing block i means to the other clients' bytes. */
  lemma RevokeKeeps(m0: seq<byte>, m1: seq<byte>, m2: seq<byte>, m3: seq<byte>, bs: seq<Block>, live: map<nat, nat>,
                    i: nat, start: nat, end: nat)
    requires i < |bs| && Watched(Release(bs, i), live)
    requires Ordered(SetHole(bs, i, true), start, end) && Ordered(Release(bs, i), start, end) && end <= |m0|
    requires OnlyHeaders(m0, m1, {bs[i].addr})
    requires UsedKept(Merge(SetHole(bs, i, true), i), m1, m2) && UsedKept(Release(bs, i), m2, m3)
    ensures PayloadsKept(live, m0, m3)
  {
    var after, marked := Release(bs, i), SetHole(bs, i, true);
    assert marked[i].addr == bs[i].addr;
    HeadersFrame(m0, m1, marked, {bs[i].addr}, start, end);
    FreedFront(bs, i);
    ReleaseByCases(bs, i);
    assert UsedKept(after, m0, m3) by {
      hide InUse, Watched, OnlyHeaders, Release, Merge, Ordered;
      forall k | 0 <= k < |m0| && InUse(after, k)
        ensures m3[k] == m0[k]
      {
        if i > 0 && bs[i - 1].hole {
          MergeInUse(Merge(marked, i), i - 1, k);
        }
        MergeInUse(marked, i, k);
      }
    }
    UsedKeptLive(after, live, m0, m3, start, end);
  }

  lemma OneHole(m: seq<byte>, start: nat, size: nat)
    requires 0 < size && start + HEADER + size <= |m| && HeaderIn(m, start) == Header(1, size, 0)
    ensures var bs := [Block(start, size, true)];
            && Tiles(bs, start, start + HEADER + size) && Ordered(bs, start, start + HEADER + size)
            && NoAdjacentHoles(bs) && Spells(m, bs) && HoleAddrs(bs) == {start}
  {
    var bs := [Block(start, size, true)];
    assert SpellsAt(m, bs, 0);
    assert bs[0].hole && bs[0].addr == start;
  }

  lemma SplitFrame(m: seq<byte>, m': seq<byte>, bs: seq<Block>, i: nat, sz: nat, start: nat, end: nat)
    requires i < |bs| && HEADER < sz < bs[i].size && Tiles(bs, start, end)
    requires Ordered(HighSplit(bs, i, sz), start, end)
    requires SplitWritten(m, m', bs[i].addr, bs[i].End() - sz, bs[i].End(), sz, i + 1 == |bs|)
    ensures UsedKept(HighSplit(bs, i, sz), m, m')
  {
    hide HeaderIn, OnlyHeaders;
    var r := HighSplit(bs, i, sz);
    assert r[i].addr == bs[i].addr && r[i + 1].addr == bs[i].End() - sz;
    if i + 1 == |bs| {
      HeadersFrame(m, m', r, {bs[i].addr, bs[i].End() - sz}, start, end);
    } else {
      assert r[i + 2].addr == bs[i].End();
      HeadersFrame(m, m', r, {bs[i].addr, bs[i].End() - sz, bs[i].End()}, start, end);
    }
  }

  /** An address strictly inside a block is no hole's address. */
  lemma InnerAddrNotHole(bs: seq<Block>, i: nat, a: nat, start: nat, end: nat)
    requires Ordered(bs, start, end) && i < |bs| && bs[i].addr < a < bs[i].End()
    ensures a !in HoleAddrs(bs)
  {
    forall j | 0 <= j < |bs|
      ensures bs[j].addr != a
    {
      assert j < i ==> bs[j].End() <= bs[i].addr;
      assert i < j ==> bs[i].End() <= bs[j].addr;
    }
  }

  lemma MergeFrame(m: seq<byte>, m': seq<byte>, bs: seq<Block>, i: nat, start: nat, end: nat)
    requires i + 1 < |bs| && bs[i].hole && bs[i + 1].hole && Tiles(bs, start, end)
    requires Ordered(Merge(bs, i), start, end)
    requires MergeWritten(m, m', bs[i].addr, bs[i + 1].addr, bs[i + 1].End(), i + 2 == |bs|)
    ensures UsedKept(Merge(bs, i), m, m')
  {
    hide HeaderIn, OnlyHeaders;
    var r := Merge(bs, i);
    assert r[i].addr == bs[i].addr;
    if i + 2 == |bs| {
      HeadersFrame(m, m', r, {bs[i].addr}, start, end);
    } else {
      assert r[i + 1].addr == bs[i + 1].End();
      HeadersFrame(m, m', r, {bs[i].addr, bs[i + 1].End()}, start, end);
    }
  }

  lemma HoleListed(bs: seq<Block>, i: nat)
    requires i < |bs| && bs[i].hole
    ensures bs[i].addr in HoleAddrs(bs)
  {
  }
}
