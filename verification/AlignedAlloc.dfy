/** Page-aligned allocation from the kernel heap (heap_alloc with align = 1 in src/kheap.c). Where the hole does not
    start right, its header is moved up to a place 9 bytes before a page boundary and what is left in front becomes
    a hole (heap_low_split). The block behind is not told that its neighbour has moved; only a split at the other
    end repairs that. */
module AlignedAlloc {
  import opened Bytes
  import opened HeapBlocks
  import opened HeapLive
  import opened HeapMemory
  import opened HeapWatch
  import opened KernelHeap
  import opened OrderedList
  import opened Sequences

  const PAGE := 0x1000

  function AlignmentO(x: nat, offset: nat): nat {
    if x % PAGE > offset then x - x % PAGE + (PAGE + offset) else x - x % PAGE + offset
  }

  /** The least address from x on that lies `offset` into a page. */
  lemma AlignmentOLeast(x: nat, offset: nat, y: nat)
    requires offset < PAGE
    ensures x <= AlignmentO(x, offset) < x + PAGE && AlignmentO(x, offset) % PAGE == offset
    ensures x <= y && y % PAGE == offset ==> AlignmentO(x, offset) <= y
  {
  }

  /** How far a header at `a` has to move up. */
  function Extra(a: nat): nat {
    AlignmentOLeast(a, PAGE - HEADER, a);
    AlignmentO(a, PAGE - HEADER) - a
  }

  /** The first block of a heap does not start right. */
  lemma NotFirst(bs: seq<Block>, i: nat, start: nat, end: nat)
    requires Tiles(bs, start, end) && i < |bs| && (start + HEADER) % PAGE != 0 && Extra(bs[i].addr) == 0
    ensures i > 0
  {
    MovedPayload(bs[i].addr);
  }

  /** The request fits an aligned payload in a block of `size` bytes at `a`. */
  predicate FitsAligned(a: nat, size: nat, bytes: nat) {
    size > Extra(a) && size - Extra(a) >= bytes
  }

  // ---------------------------------------------------------------- blocks

  /** heap_low_split on hole i: the first `extra` bytes become a hole of their own. */
  function LowSplit(bs: seq<Block>, i: nat, extra: nat): seq<Block>
    requires i < |bs| && HEADER < extra < bs[i].size
  {
    HighSplit(bs, i, bs[i].size + HEADER - extra)
  }

  /** The blocks among which the request is carved, and the place of the hole it is carved out of. */
  function Front(bs: seq<Block>, i: nat): seq<Block>
    requires i < |bs| && bs[i].size > Extra(bs[i].addr)
  {
    if Extra(bs[i].addr) > HEADER then LowSplit(bs, i, Extra(bs[i].addr)) else bs
  }

  function Place(bs: seq<Block>, i: nat): nat
    requires i < |bs|
  {
    if Extra(bs[i].addr) > HEADER then i + 1 else i
  }

  /** Moving nothing, or moving far enough to leave a hole in front. */
  predicate Movable(bs: seq<Block>, i: nat)
    requires i < |bs|
  {
    Extra(bs[i].addr) > HEADER || Extra(bs[i].addr) == 0
  }

  /** The block behind learns of the move, or there is none, or there was no move. */
  predicate Linked(bs: seq<Block>, i: nat, bytes: nat)
    requires i < |bs| && FitsAligned(bs[i].addr, bs[i].size, bytes)
  {
    Extra(bs[i].addr) == 0 || i + 1 == |bs| || bs[i].size - Extra(bs[i].addr) - bytes > HEADER
  }

  lemma FrontFacts(bs: seq<Block>, i: nat, bytes: nat, start: nat, end: nat)
    requires Tiles(bs, start, end) && i < |bs| && bs[i].hole && Movable(bs, i)
    requires FitsAligned(bs[i].addr, bs[i].size, bytes) && bytes > 0
    ensures var f, j, e := Front(bs, i), Place(bs, i), Extra(bs[i].addr);
            && j < |f| && Tiles(f, start, end) && Ordered(f, start, end)
            && f[j] == Block(bs[i].addr + e, bs[i].size - e, true) && f[j].Payload() % PAGE == 0
            && bytes <= f[j].size && (j > i ==> f[i] == Block(bs[i].addr, e - HEADER, true))
            && (j + 1 == |f| <==> i + 1 == |bs|) && f[j].End() == bs[i].End()
  {
    hide Tiles, Ordered, Extra, HighSplit;
    var e := Extra(bs[i].addr);
    MovedPayload(bs[i].addr);
    if e > HEADER {
      HighSplitTiles(bs, i, bs[i].size + HEADER - e, start, end);
      LowSplitIs(bs, i, e);
    }
    TilesOrdered(Front(bs, i), start, end);
  }

  lemma MovedPayload(a: nat)
    ensures (a + Extra(a) + HEADER) % PAGE == 0
  {
    AlignmentOLeast(a, PAGE - HEADER, a);
  }

  lemma LowSplitIs(bs: seq<Block>, i: nat, e: nat)
    requires i < |bs| && bs[i].hole && HEADER < e < bs[i].size
    ensures var f := LowSplit(bs, i, e);
            && |f| == |bs| + 1 && f[i] == Block(bs[i].addr, e - HEADER, true)
            && f[i + 1] == Block(bs[i].addr + e, bs[i].size - e, true)
  {
  }

  lemma CarveTiles(bs: seq<Block>, i: nat, size: nat, start: nat, end: nat)
    requires Tiles(bs, start, end) && i < |bs| && bs[i].hole && 0 < size <= bs[i].size
    ensures Tiles(Carve(bs, i, size), start, end)
  {
    SetHoleTiles(bs, i, false, start, end);
    if bs[i].size - size > HEADER {
      HighSplitTiles(SetHole(bs, i, false), i, bs[i].size - size, start, end);
    }
  }

  /** A low split puts two holes side by side, the second of which is about to be used. */
  lemma FrontSeparates(bs: seq<Block>, i: nat)
    requires NoAdjacentHoles(bs) && i < |bs| && bs[i].hole && bs[i].size > Extra(bs[i].addr)
    ensures NoAdjacentHolesBut(Front(bs, i), Place(bs, i))
  {
    hide Extra;
    var f, j := Front(bs, i), Place(bs, i);
    forall k, l | 0 <= k && l == k + 1 < |f| && l != j ensures !(f[k].hole && f[l].hole) {
      var k', l' := if k < j then k else k - (j - i), if l < j then l else l - (j - i);
      assert f[k].hole == bs[k'].hole && f[l].hole == bs[l'].hole;
    }
  }

  lemma CarveSeparates(f: seq<Block>, j: nat, bytes: nat)
    requires NoAdjacentHolesBut(f, j) && j < |f| && f[j].hole && 0 < bytes <= f[j].size
    ensures NoAdjacentHoles(Carve(f, j, bytes))
  {
    var r := Carve(f, j, bytes);
    var d := |r| - |f|;
    forall k, l | 0 <= k && l == k + 1 < |r| ensures !(r[k].hole && r[l].hole) {
      if l < j {
        assert r[k] == f[k] && r[l] == f[l];
      } else if l > j + 1 {
        assert r[l] == f[l - d];
        assert r[k].hole ==> f[k - d].hole;
      }
    }
  }

  /** No two holes meet after the request is carved out. */
  lemma AlignedSeparates(bs: seq<Block>, i: nat, bytes: nat)
    requires NoAdjacentHoles(bs) && i < |bs| && bs[i].hole && FitsAligned(bs[i].addr, bs[i].size, bytes) && bytes > 0
    requires Place(bs, i) < |Front(bs, i)| && bytes <= Front(bs, i)[Place(bs, i)].size
    requires Front(bs, i)[Place(bs, i)].hole
    ensures NoAdjacentHoles(Carve(Front(bs, i), Place(bs, i), bytes))
  {
    hide Extra, Front, Carve;
    FrontSeparates(bs, i);
    CarveSeparates(Front(bs, i), Place(bs, i), bytes);
  }

  lemma AlignedHoles(bs: seq<Block>, i: nat, bytes: nat, start: nat, end: nat)
    requires Tiles(bs, start, end) && i < |bs| && bs[i].hole && Extra(bs[i].addr) > HEADER
    requires FitsAligned(bs[i].addr, bs[i].size, bytes) && bytes > 0
    ensures Place(bs, i) < |Front(bs, i)| && bytes <= Front(bs, i)[Place(bs, i)].size
    ensures HoleAddrs(Carve(Front(bs, i), Place(bs, i), bytes)) == HoleAddrs(bs) +
      if bs[i].size - Extra(bs[i].addr) - bytes > HEADER
      then {bs[i].End() - (bs[i].size - Extra(bs[i].addr) - bytes)} else {}
  {
    hide Tiles, Ordered, Extra, HighSplit, HoleAddrs;
    var e, f, j := Extra(bs[i].addr), Front(bs, i), Place(bs, i);
    FrontFacts(bs, i, bytes, start, end);
    HighSplitHoles(bs, i, bs[i].size + HEADER - e);
    SetHoleHoles(f, j, false, start, end);
    TilesOrdered(bs, start, end);
    InnerAddrNotHole(bs, i, bs[i].addr + e, start, end);
    if f[j].size - bytes > HEADER {
      HighSplitHoles(SetHole(f, j, false), j, f[j].size - bytes);
    }
  }

  // ---------------------------------------------------------------- memory

  /** What moving the header by `e` and heap_low_split write. */
  ghost predicate LowWritten(m: seq<byte>, m': seq<byte>, a: nat, e: nat) {
    && |m| == |m'| && a + e + HEADER <= |m| && HEADER < e < HeaderIn(m, a).size
    && HeaderIn(m', a) == Header(1, e - HEADER, HeaderIn(m, a).prev)
    && HeaderIn(m', a + e) == Header(0, HeaderIn(m, a).size - e, a)
    && OnlyHeaders(m, m', {a, a + e})
  }

  function WithFlag(m: seq<byte>, a: nat, flag: byte): seq<byte>
    requires a < |m|
  {
    m[a := flag]
  }

  lemma WithFlagIs(m: seq<byte>, a: nat, flag: byte)
    requires a + HEADER <= |m|
    ensures HeaderIn(WithFlag(m, a, flag), a) == HeaderIn(m, a).(flag := flag)
    ensures OnlyHeaders(m, WithFlag(m, a, flag), {a}) && OnlyHeaders(WithFlag(m, a, flag), m, {a})
  {
  }

  function WithPrev(m: seq<byte>, a: nat, v: u32): seq<byte>
    requires a + HEADER <= |m|
  {
    m[..a + 5] + Spell(v) + m[a + HEADER..]
  }

  lemma WithPrevIs(m: seq<byte>, a: nat, v: u32)
    requires a + HEADER <= |m|
    ensures |WithPrev(m, a, v)| == |m| && HeaderIn(WithPrev(m, a, v), a) == HeaderIn(m, a).(prev := v)
    ensures OnlyHeaders(m, WithPrev(m, a, v), {a}) && OnlyHeaders(WithPrev(m, a, v), m, {a})
  {
    WordSpell(v);
    hide Spell, Digits;
    var m' := WithPrev(m, a, v);
    assert forall k :: 0 <= k < |m| && !(a + 5 <= k < a + HEADER) ==> m'[k] == m[k];
    assert m'[a + 5] == Spell(v)[0] && m'[a + 6] == Spell(v)[1] && m'[a + 7] == Spell(v)[2] && m'[a + 8] == Spell(v)[3];
  }

  /** The memory in which the block behind has been told, if there is one. */
  function Told(m: seq<byte>, bs: seq<Block>, i: nat, x: u32): seq<byte>
    requires i < |bs| && (i + 1 < |bs| ==> bs[i].End() + HEADER <= |m|)
  {
    if i + 1 == |bs| then m else WithPrev(m, bs[i].End(), x)
  }

  lemma LowSpells(m: seq<byte>, m': seq<byte>, bs: seq<Block>, i: nat, e: nat, start: nat, end: nat)
    requires Tiles(bs, start, end) && Ordered(bs, start, end) && end <= |m| <= 0x1_0000_0000 && Spells(m, bs)
    requires i < |bs| && bs[i].hole && HEADER < e < bs[i].size && LowWritten(m, m', bs[i].addr, e)
    ensures bs[i].addr + e < 0x1_0000_0000 && (i + 1 < |bs| ==> bs[i].End() + HEADER <= |m'|)
    ensures Spells(Told(m', bs, i, bs[i].addr + e), SetHole(LowSplit(bs, i, e), i + 1, false))
  {
    hide HeaderIn, OnlyHeaders, Spells, Tiles, Ordered, HighSplit, Told, ToldFacts, LowWritten, SplitWritten, WithFlag;
    LowTold(m, m', bs, i, e, start, end);
    var x, sz := bs[i].addr + e, bs[i].size + HEADER - e;
    var told := Told(m', bs, i, x);
    ToldFlag(m, m', told, bs[i].addr, e, bs[i].End(), i + 1 == |bs|);
    var mm := WithFlag(told, x, 1);
    WithFlagIs(told, x, 1);
    BlockHeader(m, bs, i, start, end);
    LowSplitWritten(m, m', told, mm, bs, i, e);
    SplitSpells(m, mm, bs, i, sz, start, end);
    HighSplitTiles(bs, i, sz, start, end);
    TilesOrdered(LowSplit(bs, i, e), start, end);
    LowSplitIs(bs, i, e);
    FlagSpells(mm, told, LowSplit(bs, i, e), i + 1, false, start, end);
  }

  lemma ToldFlag(m: seq<byte>, m': seq<byte>, told: seq<byte>, a: nat, e: nat, next: nat, last: bool)
    requires LowWritten(m, m', a, e) && ToldFacts(m, m', told, a, a + e, next, last)
    ensures |told| == |m| && a + e + HEADER <= |m| && HeaderIn(told, a + e).flag == 0
  {
    hide HeaderIn, OnlyHeaders;
  }

  /** The headers at hand in that memory. */
  ghost predicate ToldFacts(m: seq<byte>, m': seq<byte>, told: seq<byte>, a: nat, x: nat, next: nat, last: bool) {
    && |told| == |m| == |m'| && a + HEADER <= |m| && x + HEADER <= |m|
    && HeaderIn(told, a) == HeaderIn(m', a) && HeaderIn(told, x) == HeaderIn(m', x)
    && OnlyHeaders(m', told, {next})
    && if last then OnlyHeaders(m, told, {a, x})
       else
         && next + HEADER <= |m| && OnlyHeaders(m, told, {a, x, next})
         && HeaderIn(told, next) == HeaderIn(m, next).(prev := x)
  }

  lemma LowTold(m: seq<byte>, m': seq<byte>, bs: seq<Block>, i: nat, e: nat, start: nat, end: nat)
    requires Tiles(bs, start, end) && Ordered(bs, start, end) && end <= |m| <= 0x1_0000_0000 && Spells(m, bs)
    requires i < |bs| && bs[i].hole && HEADER < e < bs[i].size && LowWritten(m, m', bs[i].addr, e)
    ensures bs[i].addr + e < 0x1_0000_0000 && (i + 1 < |bs| ==> bs[i].End() + HEADER <= |m'|)
    ensures ToldFacts(m, m', Told(m', bs, i, bs[i].addr + e), bs[i].addr, bs[i].addr + e, bs[i].End(), i + 1 == |bs|)
  {
    hide HeaderIn, OnlyHeaders, Spells, Tiles, Spell;
    var a, x, next := bs[i].addr, bs[i].addr + e, bs[i].End();
    BlockHeader(m, bs, i, start, end);
    if i + 1 < |bs| {
      BackToBack(bs, start, end, i);
      BlockHeader(m, bs, i + 1, start, end);
      WithPrevIs(m', next, x);
      var told := WithPrev(m', next, x);
      OnlyHeadersAt(m', told, next, a);
      OnlyHeadersAt(m', told, next, x);
      OnlyHeadersPair(m, m', a, x, next);
      OnlyHeadersCompose(m, m', told, {a, x}, {next}, {a, x, next});
    } else {
      OnlyHeadersSelf(m', next);
    }
  }

  lemma OnlyHeadersSelf(m: seq<byte>, a: nat)
    ensures OnlyHeaders(m, m, {a})
  {
  }

  lemma LowSplitWritten(m: seq<byte>, m': seq<byte>, told: seq<byte>, mm: seq<byte>, bs: seq<Block>, i: nat, e: nat)
    requires i < |bs| && bs[i].hole && HEADER < e < bs[i].size && LowWritten(m, m', bs[i].addr, e)
    requires ToldFacts(m, m', told, bs[i].addr, bs[i].addr + e, bs[i].End(), i + 1 == |bs|)
    requires HeaderIn(m, bs[i].addr).size == bs[i].size && HeaderIn(m, bs[i].addr).flag == 1 && |mm| == |m|
    requires HeaderIn(mm, bs[i].addr + e) == HeaderIn(told, bs[i].addr + e).(flag := 1)
    requires OnlyHeaders(told, mm, {bs[i].addr + e})
    ensures SplitWritten(m, mm, bs[i].addr, bs[i].addr + e, bs[i].End(), bs[i].size + HEADER - e, i + 1 == |bs|)
  {
    hide HeaderIn, OnlyHeaders;
    var a, x, next := bs[i].addr, bs[i].addr + e, bs[i].End();
    OnlyHeadersAt(told, mm, x, a);
    if i + 1 < |bs| {
      OnlyHeadersAt(told, mm, x, next);
      OnlyHeadersCompose(m, told, mm, {a, x, next}, {x}, {a, x, next});
    } else {
      OnlyHeadersCompose(m, told, mm, {a, x}, {x}, {a, x});
    }
  }

  /** A split at the other end tells the block behind, so that it does not matter that the move had not. */
  lemma MovedThenSplit(m: seq<byte>, told: seq<byte>, m': seq<byte>, x: nat, newhole: nat, next: nat, sz: nat,
                       last: bool)
    requires SplitWritten(m, m', x, newhole, next, sz, last) && |told| == |m| && HeaderIn(told, x) == HeaderIn(m, x)
    requires last ==> told == m
    requires !last ==> OnlyHeaders(told, m, {next}) && next + HEADER <= |m|
    requires !last ==> HeaderIn(m, next).(prev := 0) == HeaderIn(told, next).(prev := 0)
    ensures SplitWritten(told, m', x, newhole, next, sz, last)
  {
    hide HeaderIn, OnlyHeaders;
    if !last {
      OnlyHeadersCompose(told, m, m', {next}, {x, newhole, next}, {x, newhole, next});
    }
  }

  /** After the move, the request carved out of the moved block: the split behind it, or nothing to split off. */
  lemma MovedSpells(m: seq<byte>, m2: seq<byte>, m3: seq<byte>, bs: seq<Block>, i: nat, e: nat, bytes: nat,
                    start: nat, end: nat)
    requires Tiles(bs, start, end) && Ordered(bs, start, end) && end <= |m| <= 0x1_0000_0000 && Spells(m, bs)
    requires i < |bs| && bs[i].hole && e == Extra(bs[i].addr) && HEADER < e < bs[i].size
    requires LowWritten(m, m2, bs[i].addr, e)
    requires FitsAligned(bs[i].addr, bs[i].size, bytes) && 0 < bytes && Linked(bs, i, bytes)
    requires var sz := bs[i].size - e - bytes;
             if sz > HEADER then
               SplitWritten(m2, m3, bs[i].addr + e, bs[i].End() - sz, bs[i].End(), sz, i + 1 == |bs|)
             else m3 == m2
    ensures Place(bs, i) < |Front(bs, i)| && bytes <= Front(bs, i)[Place(bs, i)].size
    ensures Spells(m3, Carve(Front(bs, i), Place(bs, i), bytes))
  {
    hide HeaderIn, OnlyHeaders, Spells, Tiles, Ordered, Extra, HighSplit, SplitWritten;
    FrontFacts(bs, i, bytes, start, end);
    LowSpells(m, m2, bs, i, e, start, end);
    LowTold(m, m2, bs, i, e, start, end);
    var f, x, sz := Front(bs, i), bs[i].addr + e, bs[i].size - e - bytes;
    var told := Told(m2, bs, i, x);
    CarveByCases(f, i + 1, bytes);
    if sz > HEADER {
      ToldBack(m2, bs, i, x);
      MovedThenSplit(m2, told, m3, x, bs[i].End() - sz, bs[i].End(), sz, i + 1 == |bs|);
      var used := SetHole(f, i + 1, false);
      SetHoleTiles(f, i + 1, false, start, end);
      TilesOrdered(used, start, end);
      SplitSpells(told, m3, used, i + 1, sz, start, end);
    }
  }

  lemma ToldBack(m: seq<byte>, bs: seq<Block>, i: nat, x: u32)
    requires i < |bs| && (i + 1 < |bs| ==> bs[i].End() + HEADER <= |m|)
    ensures |Told(m, bs, i, x)| == |m|
    ensures i + 1 == |bs| ==> Told(m, bs, i, x) == m
    ensures i + 1 < |bs| ==> OnlyHeaders(Told(m, bs, i, x), m, {bs[i].End()})
    ensures i + 1 < |bs| ==>
              HeaderIn(m, bs[i].End()).(prev := 0) == HeaderIn(Told(m, bs, i, x), bs[i].End()).(prev := 0)
  {
    hide HeaderIn, OnlyHeaders, Spell;
    if i + 1 < |bs| {
      WithPrevIs(m, bs[i].End(), x);
    }
  }

  // ---------------------------------------------------------------- the broken link

  /** Any chain that a memory certifies runs through the blocks whose headers that memory holds. */
  lemma {:induction false} CertifiedFollows(m: seq<byte>, found: seq<Block>, bs: seq<Block>, start: nat, size: nat,
                                            k: nat)
    requires Certified(m, found, start, size) && Tiles(bs, start, start + HEADER + size) && k < |bs|
    requires start + HEADER + size <= |m|
    requires forall j :: 0 <= j < k ==> bs[j].addr + HEADER <= |m| && HeaderIn(m, bs[j].addr).size == bs[j].size
    ensures k < |found| && found[k].addr == bs[k].addr
  {
    hide HeaderIn;
    if k > 0 {
      CertifiedFollows(m, found, bs, start, size, k - 1);
      CertifiedPasses(m, found, start, size, k - 1);
      HeaderIsValidIsExact(bs, start, size);
      BackToBack(bs, start, start + HEADER + size, k - 1);
    } else {
      assert CertifiedAt(m, found, 0, start, size);
    }
  }

  /** When the header has moved, there is a block behind, and no split tells it, no chain is certified:
      the check at the end of heap_alloc panics. */
  lemma UntoldPanics(m: seq<byte>, m': seq<byte>, bs: seq<Block>, i: nat, e: nat, start: nat, size: nat,
                     found: seq<Block>)
    requires Tiles(bs, start, start + HEADER + size) && Spells(m, bs) && start + HEADER + size <= |m|
    requires i + 1 < |bs| && bs[i].hole && HEADER < e < bs[i].size && LowWritten(m, m', bs[i].addr, e)
    ensures !Certified(m', found, start, size)
  {
    hide HeaderIn, OnlyHeaders, Spells, Ordered, Tiles, Certified, LowWritten;
    if Certified(m', found, start, size) {
      UntoldHeaders(m, m', bs, i, e, start, start + HEADER + size);
      HeaderIsValidIsExact(bs, start, size);
      CertifiedFollows(m', found, bs, start, size, i);
      CertifiedLink(m', found, start, size, i);
      CertifiedLink(m', found, start, size, i + 1);
    }
  }

  /** One link of a certified chain. */
  lemma CertifiedLink(m: seq<byte>, found: seq<Block>, start: nat, size: nat, k: nat)
    requires Certified(m, found, start, size) && k < |found| && start + size + HEADER <= |m|
    ensures found[k].addr + HEADER <= |m| && HeaderIn(m, found[k].addr).size == found[k].size
    ensures if found[k].End() < start + size
      then k + 1 < |found| && found[k + 1].addr == found[k].End() && HeaderIn(m, found[k].End()).prev == found[k].addr
      else k + 1 == |found|
  {
    hide HeaderIn, Certified;
    CertifiedPasses(m, found, start, size, k);
  }

  lemma UntoldHeaders(m: seq<byte>, m': seq<byte>, bs: seq<Block>, i: nat, e: nat, start: nat, end: nat)
    requires Tiles(bs, start, end) && Spells(m, bs) && end <= |m|
    requires i + 1 < |bs| && bs[i].hole && HEADER < e < bs[i].size && LowWritten(m, m', bs[i].addr, e)
    ensures |m'| == |m|
    ensures forall j :: 0 <= j < i ==> bs[j].addr + HEADER <= |m'| && HeaderIn(m', bs[j].addr).size == bs[j].size
    ensures bs[i + 1].addr == bs[i].End() && bs[i].End() + HEADER <= |m'|
    ensures HeaderIn(m', bs[i].End()).prev == bs[i].addr
    ensures HeaderIn(m', bs[i].addr).size == e - HEADER && HeaderIn(m', bs[i].addr + e).size == bs[i].size - e
  {
    hide HeaderIn, OnlyHeaders, Spells, Ordered, Tiles;
    TilesOrdered(bs, start, end);
    BackToBack(bs, start, end, i);
    forall j | 0 <= j < i ensures bs[j].addr + HEADER <= |m'| && HeaderIn(m', bs[j].addr).size == bs[j].size {
      BlockHeader(m, bs, j, start, end);
      EarlierApart(bs, start, end, j, i);
      OnlyHeadersPair(m, m', bs[i].addr, bs[i].addr + e, bs[j].addr);
    }
    BlockHeader(m, bs, i, start, end);
    BlockHeader(m, bs, i + 1, start, end);
    OnlyHeadersPair(m, m', bs[i].addr, bs[i].addr + e, bs[i + 1].addr);
  }

  lemma EarlierApart(bs: seq<Block>, start: nat, end: nat, j: nat, i: nat)
    requires Ordered(bs, start, end) && j < i < |bs|
    ensures bs[j].End() <= bs[i].addr
  {
  }

  // ---------------------------------------------------------------- the shoved block

  /** What moving the header at `a` by no more than its own length writes, with a block at `front` in front of it. */
  ghost predicate ShoveWritten(m: seq<byte>, m': seq<byte>, front: nat, a: nat, e: nat) {
    && |m| == |m'| && a + e + HEADER <= |m| && front + HEADER <= |m|
    && HeaderIn(m', front) == HeaderIn(m, front).(size := HeaderIn(m, front).size + e)
    && HeaderIn(m', a + e) == HeaderIn(m, a).(flag := 0)
    && OnlyHeaders(m, m', {front, a, a + e})
  }

  /** The blocks up to the moved one, as the headers now spell them, and the moved one cut off at its old end. */
  function ShovedFront(bs: seq<Block>, i: nat, e: nat): seq<Block>
    requires 0 < i < |bs| && e < bs[i].size
  {
    bs[i - 1 := bs[i - 1].(size := bs[i - 1].size + e)][i := Block(bs[i].addr + e, bs[i].size - e, false)]
  }

  /** After such a move, and the split behind it if there is one, a chain that passes the check reaches `e` bytes
      beyond the end of the block that was moved: it has lost the block behind. Behind the last block it leaves the
      heap. */
  lemma ShovedLoses(m: seq<byte>, m1: seq<byte>, m2: seq<byte>, bs: seq<Block>, i: nat, e: nat, bytes: nat, last: bool,
                    start: nat, size: nat, found: seq<Block>)
    requires Tiles(bs, start, start + HEADER + size) && Spells(m, bs) && start + HEADER + size <= |m|
    requires 0 < i < |bs| && 0 < e <= HEADER && e + bytes <= bs[i].size && 0 < bytes
    requires ShoveWritten(m, m1, bs[i - 1].addr, bs[i].addr, e)
    requires var x, end, sz := bs[i].addr + e, bs[i].End() + e, bs[i].size - bytes;
             if sz > HEADER then SplitWritten(m1, m2, x, end - sz, end, sz, last) else m2 == m1
    requires Certified(m2, found, start, size)
    ensures i + 1 < |bs| ==> forall k :: 0 <= k < |found| ==> found[k].addr != bs[i + 1].addr
    ensures i + 1 == |bs| && bs[i].size - bytes <= HEADER ==> found[|found| - 1].End() == start + HEADER + size + e
  {
    hide HeaderIn, OnlyHeaders, Spells, Ordered, Tiles, Certified, ShoveWritten, SplitWritten;
    var x, sz := bs[i].addr + e, bs[i].size - bytes;
    ShovedHeaders(m, m1, m2, bs, i, e, bytes, last, start, start + HEADER + size);
    ShovedTiles(bs, i, e, start, start + HEADER + size);
    CertifiedFollows(m2, found, ShovedFront(bs, i, e), start, size, i);
    CertifiedLink(m2, found, start, size, i);
    HeaderIsValidIsExact(bs, start, size);
    if sz <= HEADER {
      Overshot(m2, bs, i, e, start, size, found, i);
    } else if i + 1 < |bs| {
      BackToBack(bs, start, start + HEADER + size, i);
      CertifiedLink(m2, found, start, size, i + 1);
      Overshot(m2, bs, i, e, start, size, found, i + 1);
    }
  }

  /** Once a block of the chain ends late, so does what follows. */
  lemma Overshot(m: seq<byte>, bs: seq<Block>, i: nat, e: nat, start: nat, size: nat, found: seq<Block>, k: nat)
    requires Tiles(bs, start, start + HEADER + size) && i < |bs| && Certified(m, found, start, size) && k < |found|
    requires start + HEADER + size <= |m| && 0 < e <= HEADER
    requires found[k].End() == bs[i].End() + e && 0 < found[k].size
    ensures i + 1 < |bs| ==> forall j :: 0 <= j < |found| ==> found[j].addr != bs[i + 1].addr
    ensures i + 1 == |bs| ==> found[|found| - 1].End() == start + HEADER + size + e
  {
    hide HeaderIn, Certified;
    if i + 1 < |bs| {
      BackToBack(bs, start, start + HEADER + size, i);
      forall j | 0 <= j < |found|
        ensures found[j].addr != bs[i + 1].addr
      {
        if j <= k {
          ChainAscends(m, found, start, size, j, k);
        } else {
          ChainAscends(m, found, start, size, k + 1, j);
          CertifiedPasses(m, found, start, size, k);
        }
      }
    } else {
      CertifiedPasses(m, found, start, size, k);
    }
  }

  lemma {:induction false} ChainAscends(m: seq<byte>, found: seq<Block>, start: nat, size: nat, j: nat, k: nat)
    requires Certified(m, found, start, size) && j <= k < |found| && start + size + HEADER <= |m|
    ensures found[j].addr <= found[k].addr
    decreases k
  {
    hide HeaderIn, Certified;
    if j < k {
      CertifiedPasses(m, found, start, size, k - 1);
      ChainAscends(m, found, start, size, j, k - 1);
    }
  }

  lemma ShovedTiles(bs: seq<Block>, i: nat, e: nat, start: nat, end: nat)
    requires Tiles(bs, start, end) && 0 < i < |bs| && e < bs[i].size
    ensures Tiles(ShovedFront(bs, i, e), start, end)
  {
  }

  /** The headers that the chain meets. */
  lemma ShovedHeaders(m: seq<byte>, m1: seq<byte>, m2: seq<byte>, bs: seq<Block>, i: nat, e: nat, bytes: nat,
                      last: bool, start: nat, end: nat)
    requires Tiles(bs, start, end) && Spells(m, bs) && end <= |m|
    requires 0 < i < |bs| && 0 < e <= HEADER && e + bytes <= bs[i].size && 0 < bytes
    requires ShoveWritten(m, m1, bs[i - 1].addr, bs[i].addr, e)
    requires var x, last', sz := bs[i].addr + e, bs[i].End() + e, bs[i].size - bytes;
             if sz > HEADER then SplitWritten(m1, m2, x, last' - sz, last', sz, last) else m2 == m1
    ensures |m2| == |m| && bs[i].addr + e + HEADER <= |m2|
    ensures forall j :: 0 <= j < i ==> var b := ShovedFront(bs, i, e)[j];
              b.addr + HEADER <= |m2| && HeaderIn(m2, b.addr).size == b.size
    ensures var x, sz := bs[i].addr + e, bs[i].size - bytes;
            if sz > HEADER then
              && HeaderIn(m2, x).size == bs[i].size - sz && bs[i].End() + e - sz + HEADER <= |m2|
              && HeaderIn(m2, bs[i].End() + e - sz).size == sz - HEADER
            else HeaderIn(m2, x).size == bs[i].size
  {
    hide HeaderIn, OnlyHeaders, Spells, Ordered, Tiles;
    TilesOrdered(bs, start, end);
    var x, sz := bs[i].addr + e, bs[i].size - bytes;
    BlockHeader(m, bs, i, start, end);
    BlockHeader(m, bs, i - 1, start, end);
    forall j | 0 <= j < i
      ensures var b := ShovedFront(bs, i, e)[j]; b.addr + HEADER <= |m2| && HeaderIn(m2, b.addr).size == b.size
    {
      BlockHeader(m, bs, j, start, end);
      EarlierApart(bs, start, end, j, i);
      if j < i - 1 {
        EarlierApart(bs, start, end, j, i - 1);
        OnlyHeadersTriple(m, m1, bs[i - 1].addr, bs[i].addr, x, bs[j].addr);
      }
      if sz > HEADER {
        SplitElsewhere(m1, m2, x, bs[i].End() + e - sz, bs[i].End() + e, sz, last, bs[j].addr);
      }
    }
  }

  lemma SplitElsewhere(m: seq<byte>, m': seq<byte>, hole: nat, newhole: nat, next: nat, sz: nat, last: bool, b: nat)
    requires SplitWritten(m, m', hole, newhole, next, sz, last) && b + HEADER <= hole <= newhole <= next
    ensures HeaderIn(m', b) == HeaderIn(m, b)
  {
    hide HeaderIn;
  }

  // ---------------------------------------------------------------- clients

  /** Splitting a hole is nothing to those that hold memory. */
  lemma HoleSplitWatched(bs: seq<Block>, live: map<nat, nat>, i: nat, sz: nat)
    requires Watched(bs, live) && i < |bs| && bs[i].hole && HEADER < sz < bs[i].size
    ensures Watched(HighSplit(bs, i, sz), live)
  {
    var r := HighSplit(bs, i, sz);
    forall p | p in live ensures UsedAt(r, p) {
      assert UsedAt(bs, p);
      var j :| 0 <= j < |bs| && !bs[j].hole && bs[j].Payload() == p;
      assert r[if j <= i then j else j + 1].Payload() == p;
    }
    forall j | 0 <= j < |r| && !r[j].hole ensures r[j].Payload() in live && 0 < live[r[j].Payload()] <= r[j].size {
      assert r[j] == bs[if j <= i then j else j - 1];
    }
  }

  lemma FrontWatched(bs: seq<Block>, live: map<nat, nat>, i: nat)
    requires Watched(bs, live) && i < |bs| && bs[i].hole && bs[i].size > Extra(bs[i].addr)
    ensures Watched(Front(bs, i), live)
  {
    hide Watched, HighSplit;
    if Extra(bs[i].addr) > HEADER {
      HoleSplitWatched(bs, live, i, bs[i].size + HEADER - Extra(bs[i].addr));
    }
  }

  /** Where the blocks start whose headers were written. */
  lemma WrittenStarts(bs: seq<Block>, i: nat, bytes: nat, start: nat, end: nat)
    requires Tiles(bs, start, end) && i < |bs| && bs[i].hole && Extra(bs[i].addr) > HEADER && 0 < bytes
    requires FitsAligned(bs[i].addr, bs[i].size, bytes)
    ensures Place(bs, i) < |Front(bs, i)| && bytes <= Front(bs, i)[Place(bs, i)].size
    ensures var after, sz := Carve(Front(bs, i), Place(bs, i), bytes), bs[i].size - Extra(bs[i].addr) - bytes;
            && StartsBlock(after, bs[i].addr) && StartsBlock(after, bs[i].addr + Extra(bs[i].addr))
            && (sz > HEADER ==> StartsBlock(after, bs[i].End() - sz))
            && (sz > HEADER && i + 1 < |bs| ==> StartsBlock(after, bs[i].End()))
  {
    hide Tiles, Ordered, Extra;
    FrontFacts(bs, i, bytes, start, end);
    var f, e := Front(bs, i), Extra(bs[i].addr);
    var after, sz := Carve(f, i + 1, bytes), bs[i].size - e - bytes;
    assert after[i].addr == bs[i].addr && after[i + 1].addr == bs[i].addr + e;
    if sz > HEADER {
      assert after[i + 2].addr == bs[i].End() - sz;
      if i + 1 < |bs| {
        BackToBack(f, start, end, i + 1);
        assert after[i + 3] == f[i + 2];
      }
    }
  }

  /** None of the bytes that others hold has changed. */
  lemma MovedFrame(m: seq<byte>, m2: seq<byte>, m3: seq<byte>, bs: seq<Block>, i: nat, bytes: nat, start: nat, end: nat)
    requires Tiles(bs, start, end) && i < |bs| && bs[i].hole && Extra(bs[i].addr) > HEADER && 0 < bytes
    requires FitsAligned(bs[i].addr, bs[i].size, bytes)
    requires OnlyHeaders(m, m2, {bs[i].addr, bs[i].addr + Extra(bs[i].addr)})
    requires var x, sz, next := bs[i].addr + Extra(bs[i].addr), bs[i].size - Extra(bs[i].addr) - bytes, bs[i].End();
             if sz > HEADER then
               OnlyHeaders(m2, m3, if i + 1 == |bs| then {x, next - sz} else {x, next - sz, next})
             else m3 == m2
    ensures Place(bs, i) < |Front(bs, i)| && bytes <= Front(bs, i)[Place(bs, i)].size
    ensures UsedKept(Carve(Front(bs, i), Place(bs, i), bytes), m, m3)
  {
    hide Tiles, Ordered, Extra, OnlyHeaders, Carve, UsedKept, StartsBlock;
    FrontFacts(bs, i, bytes, start, end);
    WrittenStarts(bs, i, bytes, start, end);
    var after := Carve(Front(bs, i), Place(bs, i), bytes);
    CarveTiles(Front(bs, i), Place(bs, i), bytes, start, end);
    TilesOrdered(after, start, end);
    var a, e, next := bs[i].addr, Extra(bs[i].addr), bs[i].End();
    var x, sz := a + e, bs[i].size - e - bytes;
    if sz <= HEADER {
      HeadersFrame(m, m3, after, {a, x}, start, end);
    } else if i + 1 == |bs| {
      OnlyHeadersCompose(m, m2, m3, {a, x}, {x, next - sz}, {a, x, next - sz});
      HeadersFrame(m, m3, after, {a, x, next - sz}, start, end);
    } else {
      OnlyHeadersCompose(m, m2, m3, {a, x}, {x, next - sz, next}, {a, x, next - sz, next});
      HeadersFrame(m, m3, after, {a, x, next - sz, next}, start, end);
    }
  }

  // ---------------------------------------------------------------- the source's steps

  /** The copy of the header and the field writes of heap_low_split. */
  method MoveHeader(h: Heap, a: nat, e: nat)
    requires a + e + HEADER <= h.ram.Length <= 0x1_0000_0000 && HeaderIn(h.ram[..], a).flag == 0
    requires HEADER < e < HeaderIn(h.ram[..], a).size
    modifies h.ram
    ensures LowWritten(old(h.ram[..]), h.ram[..], a, e)
  {
    hide HeaderIn, OnlyHeaders;
    var x := a + e;
    ghost var m0 := h.ram[..];
    CopyHeader(h, a, x);
    ghost var m1 := h.ram[..];
    OnlyHeadersAt(m0, m1, x, a);
    ResizeBoth(h, a, x, e);
    ghost var m3 := h.ram[..];
    h.SetPrev(a, h.Prev(x));
    ghost var m4 := h.ram[..];
    OnlyHeadersAt(m3, m4, a, x);
    h.SetPrev(x, a);
    ghost var m5 := h.ram[..];
    OnlyHeadersAt(m4, m5, x, a);
    h.SetFlag(a, 1);
    ghost var m6 := h.ram[..];
    OnlyHeadersAt(m5, m6, a, x);
    OnlyHeadersCompose(m0, m1, m3, {x}, {a, x}, {a, x});
    OnlyHeadersCompose(m0, m3, m4, {a, x}, {a}, {a, x});
    OnlyHeadersCompose(m0, m4, m5, {a, x}, {x}, {a, x});
    OnlyHeadersCompose(m0, m5, m6, {a, x}, {a}, {a, x});
  }

  method ResizeBoth(h: Heap, a: nat, x: nat, e: nat)
    requires a + e == x && x + HEADER <= h.ram.Length <= 0x1_0000_0000 && HEADER < e < HeaderIn(h.ram[..], x).size
    modifies h.ram
    ensures HeaderIn(h.ram[..], a) == HeaderIn(old(h.ram[..]), a).(size := e - HEADER)
    ensures HeaderIn(h.ram[..], x) == HeaderIn(old(h.ram[..]), x).(size := HeaderIn(old(h.ram[..]), x).size - e)
    ensures OnlyHeaders(old(h.ram[..]), h.ram[..], {a, x})
  {
    hide HeaderIn, OnlyHeaders;
    ghost var m1 := h.ram[..];
    h.SetSize(a, e - HEADER);
    ghost var m2 := h.ram[..];
    OnlyHeadersAt(m1, m2, a, x);
    h.SetSize(x, h.Size(x) - e);
    ghost var m3 := h.ram[..];
    OnlyHeadersAt(m2, m3, x, a);
    OnlyHeadersCompose(m1, m2, m3, {a}, {x}, {a, x});
  }

  method CopyHeader(h: Heap, from: nat, to: nat)
    requires from + HEADER <= h.ram.Length <= 0x1_0000_0000 && to + HEADER <= h.ram.Length
    modifies h.ram
    ensures HeaderIn(h.ram[..], to) == HeaderIn(old(h.ram[..]), from) && OnlyHeaders(old(h.ram[..]), h.ram[..], {to})
  {
    hide HeaderIn, OnlyHeaders;
    var flag, size, prev := h.Flag(from), h.Size(from), h.Prev(from);
    ghost var m0 := h.ram[..];
    h.SetFlag(to, flag);
    ghost var m1 := h.ram[..];
    h.SetSize(to, size);
    ghost var m2 := h.ram[..];
    h.SetPrev(to, prev);
    OnlyHeadersCompose(m0, m1, m2, {to}, {to}, {to});
    OnlyHeadersCompose(m0, m2, h.ram[..], {to}, {to}, {to});
  }

  /** The steps for a hole that starts up to 9 bytes in front of its place, behind another block: the header moves, the
      block in front grows, and the size of the hole stays as it is. */
  method TakeAndShove(h: Heap, best: nat, e: nat, ghost i: nat)
    requires h.Chained() && best < h.index.size < h.index.array_.Length
    requires 0 < i < |h.blocks| && h.blocks[i].hole && h.blocks[i].addr == h.index.Elements()[best]
    requires 0 < e <= HEADER && e < h.blocks[i].size
    modifies h`blocks, h.ram, h.index, h.index.array_
    ensures ShoveWritten(old(h.ram[..]), h.ram[..], old(h.blocks)[i - 1].addr, old(h.blocks)[i].addr, e)
  {
    hide HeaderIn, OnlyHeaders, Spells, HoleAddrs, Ordered, Tiles, InUse, ShoveWritten;
    ghost var m0, bs := h.ram[..], h.blocks;
    BlockHeader(m0, bs, i, h.start, h.Limit());
    BlockHeader(m0, bs, i - 1, h.start, h.Limit());
    BackToBack(bs, h.start, h.Limit(), i - 1);
    var a := h.index.array_[best];
    h.TakeHole(best, i);
    ghost var m1 := h.ram[..];
    OnlyHeadersAt(m0, m1, a, bs[i - 1].addr);
    BlockHeader(m1, h.blocks, i, h.start, h.Limit());
    TakenHeader(bs, i);
    ShoveHeader(h, a, e);
    ShoveWrittenFrom(m0, m1, h.ram[..], bs[i - 1].addr, a, e);
  }

  /** The copy of the header, and the block in front made longer. */
  method ShoveHeader(h: Heap, a: nat, e: nat)
    requires a + e + HEADER <= h.ram.Length <= 0x1_0000_0000 && HeaderIn(h.ram[..], a).flag == 0
    requires HeaderIn(h.ram[..], a).prev + HEADER <= a
    requires HeaderIn(h.ram[..], HeaderIn(h.ram[..], a).prev).size + e < 0x1_0000_0000
    modifies h.ram
    ensures ShoveWritten(old(h.ram[..]), h.ram[..], HeaderIn(old(h.ram[..]), a).prev, a, e)
  {
    hide HeaderIn, OnlyHeaders;
    var x, front := a + e, h.Prev(a);
    ghost var m1 := h.ram[..];
    CopyHeader(h, a, x);
    ghost var m2 := h.ram[..];
    OnlyHeadersAt(m1, m2, x, front);
    h.SetSize(front, h.Size(front) + e);
    ghost var m3 := h.ram[..];
    OnlyHeadersAt(m2, m3, front, x);
    OnlyHeadersCompose(m1, m2, m3, {x}, {front}, {front, a, x});
  }

  lemma ShoveWrittenFrom(m0: seq<byte>, m1: seq<byte>, m2: seq<byte>, front: nat, a: nat, e: nat)
    requires OnlyHeaders(m0, m1, {a}) && ShoveWritten(m1, m2, front, a, e) && |m0| == |m1|
    requires HeaderIn(m1, a) == HeaderIn(m0, a).(flag := 0) && HeaderIn(m1, front) == HeaderIn(m0, front)
    ensures ShoveWritten(m0, m2, front, a, e)
  {
    hide HeaderIn, OnlyHeaders;
    OnlyHeadersCompose(m0, m1, m2, {a}, {front, a, a + e}, {front, a, a + e});
  }

  lemma LowWrittenFrom(m0: seq<byte>, m1: seq<byte>, m2: seq<byte>, a: nat, e: nat)
    requires OnlyHeaders(m0, m1, {a}) && LowWritten(m1, m2, a, e) && |m0| == |m1|
    requires HeaderIn(m0, a).size == HeaderIn(m1, a).size && HeaderIn(m0, a).prev == HeaderIn(m1, a).prev
    ensures LowWritten(m0, m2, a, e)
  {
    hide HeaderIn, OnlyHeaders;
    OnlyHeadersCompose(m0, m1, m2, {a}, {a, a + e}, {a, a + e});
  }

  /** What the carving of a moved block leaves, apart from the invariant. */
  ghost predicate Moved(bs: seq<Block>, m: seq<byte>, m2: seq<byte>, m3: seq<byte>, i: nat, bytes: nat) {
    && i < |bs| && bs[i].hole && Extra(bs[i].addr) > HEADER && 0 < bytes && FitsAligned(bs[i].addr, bs[i].size, bytes)
    && LowWritten(m, m2, bs[i].addr, Extra(bs[i].addr))
    && var x, sz := bs[i].addr + Extra(bs[i].addr), bs[i].size - Extra(bs[i].addr) - bytes;
       if sz > HEADER then SplitWritten(m2, m3, x, bs[i].End() - sz, bs[i].End(), sz, i + 1 == |bs|) else m3 == m2
  }

  /** heap_alloc's part for a hole whose header has to move, up to and with the split behind the request. */
  method CarveMoved(h: Heap, best: nat, bytes: nat, ghost i: nat) returns (ptr: nat, ghost low: seq<byte>)
    requires h.Chained() && best < h.index.size && h.index.size + 1 < h.index.array_.Length
    requires i < |h.blocks| && h.blocks[i].hole && h.blocks[i].addr == h.index.Elements()[best] && 0 < bytes
    requires FitsAligned(h.blocks[i].addr, h.blocks[i].size, bytes) && Extra(h.blocks[i].addr) > HEADER
    modifies h`blocks, h.ram, h.index, h.index.array_
    ensures h.Placed() && Moved(old(h.blocks), old(h.ram[..]), low, h.ram[..], i, bytes)
    ensures h.index.Valid() && Distinct(h.index.Elements())
    ensures Place(old(h.blocks), i) < |Front(old(h.blocks), i)|
    ensures bytes <= Front(old(h.blocks), i)[Place(old(h.blocks), i)].size
    ensures h.blocks == Carve(Front(old(h.blocks), i), Place(old(h.blocks), i), bytes)
    ensures forall a :: a in h.index.Elements() <==> a in HoleAddrs(h.blocks)
    ensures ptr == old(h.blocks)[i].addr + Extra(old(h.blocks)[i].addr) + HEADER
  {
    hide HeaderIn, OnlyHeaders, Spells, HoleAddrs, Ordered, Tiles, InUse, Extra, Carve, Front, LowWritten, SplitWritten,
         Distinct, Ascends;
    ghost var m0, bs := h.ram[..], h.blocks;
    BlockHeader(m0, bs, i, h.start, h.Limit());
    FrontFacts(bs, i, bytes, h.start, h.Limit());
    AlignedHoles(bs, i, bytes, h.start, h.Limit());
    HeaderIsValidIsExact(bs, h.start, h.size);
    var a := h.index.array_[best];
    var e := Extra(a);
    TakeAndMove(h, best, e, i);
    low := h.ram[..];
    LowHeaders(m0, low, a, e);
    var x := a + e;
    if h.Size(x) - bytes > HEADER {
      var sz := h.Size(x) - bytes;
      var newhole := h.WriteSplit(x, sz);
      InnerAddrNotHole(bs, i, newhole, h.start, h.Limit());
      h.ListHole(newhole);
    }
    h.blocks := Carve(Front(bs, i), Place(bs, i), bytes);
    ptr := x + HEADER;
  }

  /** The hole leaves the index, its header moves up, and what is left in front is listed again. */
  method TakeAndMove(h: Heap, best: nat, e: nat, ghost i: nat)
    requires h.Chained() && best < h.index.size < h.index.array_.Length
    requires i < |h.blocks| && h.blocks[i].hole && h.blocks[i].addr == h.index.Elements()[best]
    requires HEADER < e < h.blocks[i].size
    modifies h`blocks, h.ram, h.index, h.index.array_
    ensures h.Placed() && LowWritten(old(h.ram[..]), h.ram[..], old(h.blocks)[i].addr, e)
    ensures h.index.Valid() && Distinct(h.index.Elements()) && h.index.size == old(h.index.size)
    ensures forall a :: a in h.index.Elements() <==> a in HoleAddrs(old(h.blocks))
  {
    hide HeaderIn, OnlyHeaders, Spells, HoleAddrs, Ordered, Tiles, InUse, LowWritten;
    ghost var m0, bs := h.ram[..], h.blocks;
    BlockHeader(m0, bs, i, h.start, h.Limit());
    var a := h.index.array_[best];
    h.TakeHole(best, i);
    ghost var m1 := h.ram[..];
    TakenOff(bs, i, h.start, h.Limit());
    BlockHeader(m1, h.blocks, i, h.start, h.Limit());
    TakenHeader(bs, i);
    MoveHeader(h, a, e);
    LowWrittenFrom(m0, m1, h.ram[..], a, e);
    h.ListHole(a);
  }

  lemma TakenHeader(bs: seq<Block>, i: nat)
    requires i < |bs| && bs[i].hole
    ensures HeaderOf(SetHole(bs, i, false), i) == HeaderOf(bs, i).(flag := 0) && HeaderOf(bs, i).size == bs[i].size
  {
  }

  lemma TakenOff(bs: seq<Block>, i: nat, start: nat, end: nat)
    requires Ordered(bs, start, end) && i < |bs| && bs[i].hole
    ensures HoleAddrs(SetHole(bs, i, false)) == HoleAddrs(bs) - {bs[i].addr} && bs[i].addr in HoleAddrs(bs)
    ensures SetHole(bs, i, false)[i].addr == bs[i].addr && SetHole(bs, i, false)[i].size == bs[i].size
  {
    SetHoleHoles(bs, i, false, start, end);
  }

  lemma LowHeaders(m: seq<byte>, m': seq<byte>, a: nat, e: nat)
    requires LowWritten(m, m', a, e)
    ensures |m'| == |m| && a + e + HEADER <= |m| && HeaderIn(m', a + e).size == HeaderIn(m, a).size - e
  {
    hide HeaderIn, OnlyHeaders;
  }

  /** The first listed hole in which the request fits aligned. */
  ghost predicate Chosen(bs: seq<Block>, listed: seq<nat>, best: nat, i: nat, bytes: nat) {
    && best < |listed| && i < |bs| && bs[i].hole && bs[i].addr == listed[best]
         && FitsAligned(bs[i].addr, bs[i].size, bytes)
    && forall k, j :: 0 <= k < best && 0 <= j < |bs| && bs[j].hole && bs[j].addr == listed[k] ==>
         !FitsAligned(bs[j].addr, bs[j].size, bytes)
  }

  ghost predicate NoneFits(bs: seq<Block>, bytes: nat) {
    forall j :: 0 <= j < |bs| && bs[j].hole ==> !FitsAligned(bs[j].addr, bs[j].size, bytes)
  }

  /** The scan of the hole index with align = 1. */
  method FindAligned(h: Heap, bytes: nat) returns (best: nat, ghost i: nat)
    requires h.Chained()
    ensures best == h.index.size ==> NoneFits(h.blocks, bytes)
    ensures best != h.index.size ==> best < h.index.size && Chosen(h.blocks, h.index.Elements(), best, i, bytes)
  {
    hide HeaderIn, Extra, Tiles, Ordered, Spells;
    best, i := 0, 0;
    while best < h.index.size
      invariant best <= h.index.size
      invariant forall k, j :: 0 <= k < best && 0 <= j < |h.blocks|
                               && h.blocks[j].hole && h.blocks[j].addr == h.index.Elements()[k] ==>
                  !FitsAligned(h.blocks[j].addr, h.blocks[j].size, bytes)
    {
      assert h.index.Elements()[best] in HoleAddrs(h.blocks);
      i :| i < |h.blocks| && h.blocks[i].hole && h.blocks[i].addr == h.index.Elements()[best];
      BlockHeader(h.ram[..], h.blocks, i, h.start, h.Limit());
      var a := h.index.array_[best];
      var size := h.Size(a);
      if size > Extra(a) && size - Extra(a) >= bytes {
        return;
      }
      SameBlock(h.blocks, i, h.start, h.Limit());
      best := best + 1;
    }
    forall j | 0 <= j < |h.blocks| && h.blocks[j].hole
      ensures !FitsAligned(h.blocks[j].addr, h.blocks[j].size, bytes)
    {
      assert h.blocks[j].addr in HoleAddrs(h.blocks);
      assert h.blocks[j].addr in h.index.Elements();
    }
  }

  lemma SameBlock(bs: seq<Block>, i: nat, start: nat, end: nat)
    requires Ordered(bs, start, end) && i < |bs|
    ensures forall j :: 0 <= j < |bs| && bs[j].addr == bs[i].addr ==> j == i
  {
    forall j | 0 <= j < |bs| && j != i ensures bs[j].addr != bs[i].addr {
      AddrsDiffer(bs, start, end, i, j);
    }
  }

  /** heap_alloc with align = 1, where the hole it chooses starts right or can be moved. The payload starts a
      page. The check at the end passes, and the invariant holds, exactly when the block behind is linked. */
  method AllocAligned(h: Heap, bytes: nat) returns (ptr: nat, verdict: Verdict)
    requires h.Valid() && |h.watch.live| < CAPACITY && h.index.size + 1 < h.index.array_.Length
    requires forall best, i :: Chosen(h.blocks, h.index.Elements(), best, i, bytes) ==> Movable(h.blocks, i)
    modifies h`blocks, h.ram, h.index, h.index.array_, h.watch, h.watch.recs
    ensures ptr == 0 <==> bytes == 0 || NoneFits(old(h.blocks), bytes)
    ensures ptr == 0 ==> verdict == Fine && h.blocks == old(h.blocks) && h.watch.live == old(h.watch.live)
    ensures ptr % PAGE == 0
    ensures ptr != 0 ==> exists best, i ::
              Chosen(old(h.blocks), old(h.index.Elements()), best, i, bytes)
              && AlignedResult(old(h.blocks), h.blocks, i, bytes, ptr, verdict)
    ensures verdict == Fine ==> h.Valid() && PayloadsKept(old(h.watch.live), old(h.ram[..]), h.ram[..])
    ensures ptr != 0 ==> ptr !in old(h.watch.live) && h.watch.live == old(h.watch.live)[ptr := bytes]
    ensures ptr != 0 ==> forall p :: p in old(h.watch.live) ==> ptr + bytes <= p || p + old(h.watch.live)[p] <= ptr
  {
    hide HeaderIn, OnlyHeaders, Spells, HoleAddrs, Ordered, Tiles, NoAdjacentHoles, InUse, Watched, Extra, Carve,
         Front, Chosen, PayloadsKept;
    hide AlignedResult, FitsAligned, Movable, Linked, Place, UsedKept, NoneFits;
    ghost var m0, bs, live := h.ram[..], h.blocks, h.watch.live;
    UsedKeptSelf(bs, m0);
    UsedKeptLive(bs, live, m0, m0, h.start, h.Limit());
    verdict := h.HeapCheckPasses();
    if bytes == 0 {
      return 0, Fine;
    }
    var best, i := FindAligned(h, bytes);
    if best == h.index.size {
      return 0, Fine;
    }
    ChosenFacts(bs, h.index.Elements(), best, i, bytes);
    ptr, verdict := GrantAligned(h, best, bytes, i);
  }

  /** The grant, once the hole is chosen. */
  method GrantAligned(h: Heap, best: nat, bytes: nat, ghost i: nat) returns (ptr: nat, verdict: Verdict)
    requires h.Valid() && |h.watch.live| < CAPACITY && best < h.index.size && h.index.size + 1 < h.index.array_.Length
    requires i < |h.blocks| && h.blocks[i].hole && h.blocks[i].addr == h.index.Elements()[best] && 0 < bytes
    requires FitsAligned(h.blocks[i].addr, h.blocks[i].size, bytes) && Movable(h.blocks, i)
    modifies h`blocks, h.ram, h.index, h.index.array_, h.watch, h.watch.recs
    ensures ptr != 0 && ptr % PAGE == 0 && AlignedResult(old(h.blocks), h.blocks, i, bytes, ptr, verdict)
    ensures verdict == Fine ==> h.Valid() && PayloadsKept(old(h.watch.live), old(h.ram[..]), h.ram[..])
    ensures ptr !in old(h.watch.live) && h.watch.live == old(h.watch.live)[ptr := bytes]
    ensures forall p :: p in old(h.watch.live) ==> ptr + bytes <= p || p + old(h.watch.live)[p] <= ptr
  {
    hide HeaderIn, OnlyHeaders, Spells, HoleAddrs, Ordered, Tiles, NoAdjacentHoles, InUse, Watched, Extra, Carve,
         Front, PayloadsKept;
    hide AlignedResult, FitsAligned, Movable, Linked, Place, UsedKept;
    ghost var bs, live := h.blocks, h.watch.live;
    AlignedFacts(bs, live, i, bytes, h.start, h.Limit());
    ptr := CarveAligned(h, best, bytes, i, live);
    verdict := RecordAndCheck(h, ptr, bytes, Linked(bs, i, bytes));
    AlignedResultIs(bs, h.blocks, i, bytes, ptr, verdict);
  }

  lemma UsedKeptSelf(bs: seq<Block>, m: seq<byte>)
    ensures UsedKept(bs, m, m)
  {
  }

  lemma AlignedResultIs(bs: seq<Block>, after: seq<Block>, i: nat, bytes: nat, ptr: nat, verdict: Verdict)
    requires i < |bs| && FitsAligned(bs[i].addr, bs[i].size, bytes) && bytes > 0
    requires Place(bs, i) < |Front(bs, i)| && bytes <= Front(bs, i)[Place(bs, i)].size
    requires after == Carve(Front(bs, i), Place(bs, i), bytes) && ptr == Front(bs, i)[Place(bs, i)].Payload()
    requires verdict == Fine <==> Linked(bs, i, bytes)
    ensures AlignedResult(bs, after, i, bytes, ptr, verdict)
  {
  }

  /** The chosen hole is carved, moved or not. */
  method CarveAligned(h: Heap, best: nat, bytes: nat, ghost i: nat, ghost live: map<nat, nat>) returns (ptr: nat)
    requires h.Chained() && NoAdjacentHoles(h.blocks) && Watched(h.blocks, live) && best < h.index.size
    requires h.index.size + 1 < h.index.array_.Length
    requires i < |h.blocks| && h.blocks[i].hole && h.blocks[i].addr == h.index.Elements()[best] && 0 < bytes
    requires FitsAligned(h.blocks[i].addr, h.blocks[i].size, bytes) && Movable(h.blocks, i)
    modifies h`blocks, h.ram, h.index, h.index.array_
    ensures h.Placed() && h.index.Valid() && Distinct(h.index.Elements())
    ensures forall a :: a in h.index.Elements() <==> a in HoleAddrs(h.blocks)
    ensures Place(old(h.blocks), i) < |Front(old(h.blocks), i)|
    ensures bytes <= Front(old(h.blocks), i)[Place(old(h.blocks), i)].size
    ensures h.blocks == Carve(Front(old(h.blocks), i), Place(old(h.blocks), i), bytes)
    ensures ptr == old(h.blocks)[i].addr + Extra(old(h.blocks)[i].addr) + HEADER
    ensures Linked(old(h.blocks), i, bytes) ==>
              Spells(h.ram[..], h.blocks) && PayloadsKept(live, old(h.ram[..]), h.ram[..])
    ensures !Linked(old(h.blocks), i, bytes) ==>
              forall found: seq<Block> :: !Certified(h.ram[..], found, h.start, h.size)
  {
    hide HeaderIn, OnlyHeaders, Spells, HoleAddrs, Ordered, Tiles, NoAdjacentHoles, InUse, Watched, Extra, Carve,
         PayloadsKept, Certified, Moved;
    ghost var m0, bs := h.ram[..], h.blocks;
    if Extra(h.index.array_[best]) == 0 {
      // the header is copied onto itself, and nothing is added to the size of the block in front; there is one
      NotFirst(bs, i, h.start, h.Limit());
      assert i > 0;
      ptr := h.CarveHole(best, bytes, i, live);
    } else {
      ghost var low;
      ptr, low := CarveMoved(h, best, bytes, i);
      MovedOutcome(bs, m0, low, h.ram[..], live, i, bytes, h.start, h.size);
    }
  }

  /** heapwatch_alloc and the heap_check behind it. */
  method RecordAndCheck(h: Heap, ptr: nat, bytes: nat, ghost linked: bool) returns (verdict: Verdict)
    requires h.Placed() && h.index.Valid() && Distinct(h.index.Elements())
    requires forall a :: a in h.index.Elements() <==> a in HoleAddrs(h.blocks)
    requires Tiles(h.blocks, h.start, h.Limit()) && Ordered(h.blocks, h.start, h.Limit()) && NoAdjacentHoles(h.blocks)
    requires linked ==> Spells(h.ram[..], h.blocks)
    requires !linked ==> forall found: seq<Block> :: !Certified(h.ram[..], found, h.start, h.size)
    requires h.watch.Valid() && |h.watch.live| < CAPACITY && ptr != 0 && bytes != 0
    requires Watched(h.blocks, h.watch.live[ptr := bytes])
    requires forall p :: p in h.watch.live ==> !Clashes(ptr, bytes, Rec(p, h.watch.live[p]))
    modifies h.watch, h.watch.recs
    ensures h.watch.live == old(h.watch.live)[ptr := bytes]
    ensures (verdict == Fine <==> linked) && (linked ==> h.Valid())
  {
    hide HeaderIn, Spells, HoleAddrs, Ordered, Tiles, NoAdjacentHoles, Watched, Certified;
    ghost var m := h.ram[..];
    if linked {
      SpelledIsCertified(m, h.blocks, h.start, h.size);
    }
    verdict := h.watch.Alloc(ptr, bytes);
    assert h.ram[..] == m;
    ghost var found;
    verdict, found := h.HeapCheck();
    assert h.ram[..] == m;
    assert linked ==> Certified(h.ram[..], h.blocks, h.start, h.size);
    assert !linked ==> !Certified(m, found, h.start, h.size);
  }

  ghost predicate AlignedResult(bs: seq<Block>, after: seq<Block>, i: nat, bytes: nat, ptr: nat, verdict: Verdict) {
    && i < |bs| && FitsAligned(bs[i].addr, bs[i].size, bytes) && bytes > 0
    && Place(bs, i) < |Front(bs, i)| && bytes <= Front(bs, i)[Place(bs, i)].size
    && after == Carve(Front(bs, i), Place(bs, i), bytes) && ptr == Front(bs, i)[Place(bs, i)].Payload()
    && (verdict == Fine <==> Linked(bs, i, bytes))
  }

  lemma ChosenFacts(bs: seq<Block>, listed: seq<nat>, best: nat, i: nat, bytes: nat)
    requires Chosen(bs, listed, best, i, bytes)
    ensures best < |listed| && i < |bs| && bs[i].hole && bs[i].addr == listed[best]
    ensures FitsAligned(bs[i].addr, bs[i].size, bytes)
    ensures !NoneFits(bs, bytes)
  {
  }

  /** What the grant means to blocks and clients, whether or not the block behind is linked. */
  lemma AlignedFacts(bs: seq<Block>, live: map<nat, nat>, i: nat, bytes: nat, start: nat, end: nat)
    requires Tiles(bs, start, end) && NoAdjacentHoles(bs) && Watched(bs, live) && Ordered(bs, start, end)
    requires i < |bs| && bs[i].hole && Movable(bs, i) && FitsAligned(bs[i].addr, bs[i].size, bytes) && bytes > 0
    ensures Place(bs, i) < |Front(bs, i)| && bytes <= Front(bs, i)[Place(bs, i)].size
    ensures var after, ptr := Carve(Front(bs, i), Place(bs, i), bytes), Front(bs, i)[Place(bs, i)].Payload();
            && Tiles(after, start, end) && Ordered(after, start, end) && NoAdjacentHoles(after)
            && ptr == bs[i].addr + Extra(bs[i].addr) + HEADER && ptr % PAGE == 0
            && ptr !in live && Watched(after, live[ptr := bytes])
            && (forall p :: p in live ==> ptr + bytes <= p || p + live[p] <= ptr)
            && (forall p :: p in live ==> !Clashes(ptr, bytes, Rec(p, live[p])))
  {
    hide Tiles, Ordered, Extra, Watched, Carve, NoAdjacentHoles, Front;
    FrontFacts(bs, i, bytes, start, end);
    FrontWatched(bs, live, i);
    CarveTiles(Front(bs, i), Place(bs, i), bytes, start, end);
    TilesOrdered(Carve(Front(bs, i), Place(bs, i), bytes), start, end);
    AlignedSeparates(bs, i, bytes);
    GrantFacts(Front(bs, i), live, Place(bs, i), bytes, start, end);
  }

  /** Linked, the memory spells the blocks and has kept what others hold; otherwise nothing certifies it. */
  lemma MovedOutcome(bs: seq<Block>, m: seq<byte>, low: seq<byte>, m': seq<byte>, live: map<nat, nat>, i: nat,
                     bytes: nat, start: nat, size: nat)
    requires Moved(bs, m, low, m', i, bytes) && Tiles(bs, start, start + HEADER + size) && Spells(m, bs)
    requires NoAdjacentHoles(bs)
    requires Watched(bs, live) && start + HEADER + size <= |m| <= 0x1_0000_0000
    ensures Place(bs, i) < |Front(bs, i)| && bytes <= Front(bs, i)[Place(bs, i)].size
    ensures Linked(bs, i, bytes) ==> Spells(m', Carve(Front(bs, i), Place(bs, i), bytes)) && PayloadsKept(live, m, m')
    ensures !Linked(bs, i, bytes) ==> forall found: seq<Block> :: !Certified(m', found, start, size)
  {
    hide HeaderIn, OnlyHeaders, Tiles, Ordered, Extra, Watched, Carve, NoAdjacentHoles, Front, Spells, Certified,
         UsedKept, PayloadsKept;
    var end, e := start + HEADER + size, Extra(bs[i].addr);
    TilesOrdered(bs, start, end);
    AlignedFacts(bs, live, i, bytes, start, end);
    if Linked(bs, i, bytes) {
      MovedSpells(m, low, m', bs, i, e, bytes, start, end);
      MovedFrame(m, low, m', bs, i, bytes, start, end);
      var after, ptr := Carve(Front(bs, i), Place(bs, i), bytes), Front(bs, i)[Place(bs, i)].Payload();
      UsedKeptLive(after, live[ptr := bytes], m, m', start, end);
      FewerKept(live, live[ptr := bytes], m, m');
    } else {
      forall found: seq<Block> ensures !Certified(m', found, start, size) {
        UntoldPanics(m, m', bs, i, e, start, size, found);
      }
    }
  }

  lemma FewerKept(live: map<nat, nat>, more: map<nat, nat>, m: seq<byte>, m': seq<byte>)
    requires PayloadsKept(more, m, m') && forall p :: p in live ==> p in more && more[p] == live[p]
    ensures PayloadsKept(live, m, m')
  {
  }

  // ---------------------------------------------------------------- a heap on which it panics

  /** No more slots of the hole index are taken than there are blocks. */
  lemma IndexBounded(h: Heap)
    requires h.Valid()
    ensures h.index.size <= |h.blocks|
  {
    hide Tiles, Ordered, Spells, HoleAddrs;
    var listed := h.index.Elements();
    DistinctCount(listed);
    assert ToSet(listed) == HoleAddrs(h.blocks);
    HolesBounded(h.blocks);
  }

  lemma HolesOfLast(bs: seq<Block>)
    requires bs != []
    ensures var n := |bs| - 1;
            HoleAddrs(bs) == HoleAddrs(bs[..n]) + if bs[n].hole then {bs[n].addr} else {}
  {
    var n := |bs| - 1;
    forall a | a in HoleAddrs(bs[..n])
      ensures a in HoleAddrs(bs)
    {
      var k :| 0 <= k < n && bs[..n][k].hole && bs[..n][k].addr == a;
      assert bs[k].hole && bs[k].addr == a;
    }
    forall a | a in HoleAddrs(bs) && !(bs[n].hole && bs[n].addr == a)
      ensures a in HoleAddrs(bs[..n])
    {
      var k :| 0 <= k < |bs| && bs[k].hole && bs[k].addr == a;
      assert bs[..n][k].hole && bs[..n][k].addr == a;
    }
    if bs[n].hole {
      HoleListed(bs, n);
    }
  }

  lemma {:induction false} HolesBounded(bs: seq<Block>)
    ensures |HoleAddrs(bs)| <= |bs|
  {
    if bs != [] {
      HolesOfLast(bs);
      hide HoleAddrs;
      HolesBounded(bs[..|bs| - 1]);
    }
  }

  lemma FirstGrant(a: nat, size: nat, bytes: nat, after: seq<Block>, ptr: nat)
    requires Granted([Block(a, size, true)], after, bytes, ptr) && size - bytes > HEADER
    ensures after == [Block(a, bytes, false), Block(a + HEADER + bytes, size - bytes - HEADER, true)]
    ensures ptr == a + HEADER
  {
  }

  lemma SecondGrant(b: Block, c: Block, after: seq<Block>, ptr: nat)
    requires !b.hole && c.hole && Granted([b, c], after, c.size, ptr)
    ensures after == [b, c.(hole := false)] && ptr == c.Payload()
  {
  }

  /** A grant out of the first hole of a new heap. */
  method NewWithOne(ram: array<byte>) returns (h: Heap, p: nat)
    requires ram.Length == 0x307D
    modifies ram
    ensures h.Valid() && h.ram == ram && fresh(h) && fresh(h.index) && fresh(h.index.array_) && fresh(h.watch)
    ensures fresh(h.watch.recs)
    ensures h.blocks == [Block(0x2000, 4187, false), Block(0x3064, 16, true)] && p == 0x2009
    ensures h.watch.live == map[p := 4187] && h.index.size <= 2 && h.index.array_.Length == 16
  {
    hide Granted, PayloadsKept, Heap.Chained, Watched, NoAdjacentHoles;
    h := new Heap(ram, 0x1000, 4212, 64);
    assert h.blocks[0].hole && h.blocks[0].size == 4212;
    p := h.HeapAlloc(4187);
    FirstGrant(0x2000, 4212, 4187, h.blocks, p);
    IndexBounded(h);
  }

  /** After a second grant and the release of the first: a hole of 4187 bytes at the start of a page, in front of a
      block in use. */
  method HoleInFront(h: Heap, p: nat)
    requires h.Valid() && h.blocks == [Block(0x2000, 4187, false), Block(0x3064, 16, true)] && p == 0x2009
    requires h.watch.live == map[p := 4187] && h.index.size <= 2 && h.index.array_.Length == 16
    modifies h`blocks, h.ram, h.index, h.index.array_, h.watch, h.watch.recs
    ensures h.Valid() && h.blocks == [Block(0x2000, 4187, true), Block(0x3064, 16, false)]
    ensures |h.watch.live| < CAPACITY && h.index.size <= 2
  {
    hide Granted, Release, PayloadsKept, Heap.Valid, Heap.Chained;
    assert h.blocks[1].hole && h.blocks[1].size == 16;
    var q := h.HeapAlloc(16);
    SecondGrant(Block(0x2000, 4187, false), Block(0x3064, 16, true), h.blocks, q);
    IndexBounded(h);
    h.HeapFree(p);
    FirstRelease(Block(0x2000, 4187, false), Block(0x3064, 16, false));
    IndexBounded(h);
  }

  /** A run that ends in a panic: the moved header takes all of its hole, so that nothing is split off behind it and
      the block in use there keeps its link to the old place. */
  method AlignedPanics(ram: array<byte>) returns (verdict: Verdict)
    requires ram.Length == 0x307D
    modifies ram
    ensures verdict != Fine
  {
    hide Heap.Valid, Heap.Chained, PayloadsKept, Front, Carve, Extra, NoneFits;
    var h, p := NewWithOne(ram);
    HoleInFront(h, p);
    UntoldExample(h.blocks);
    var ptr;
    ptr, verdict := AllocAligned(h, 100);
  }

  lemma UntoldExample(bs: seq<Block>)
    requires bs == [Block(0x2000, 4187, true), Block(0x3064, 16, false)]
    ensures Extra(0x2000) == 4087 && FitsAligned(0x2000, 4187, 100) && !Linked(bs, 0, 100) && !NoneFits(bs, 100)
  {
    AlignmentOLeast(0x2000, PAGE - HEADER, 0x2FF7);
    assert FitsAligned(bs[0].addr, bs[0].size, 100);
  }

  lemma FirstRelease(b: Block, c: Block)
    requires !c.hole
    ensures Release([b, c], 0) == [b.(hole := true), c]
  {
  }
}
