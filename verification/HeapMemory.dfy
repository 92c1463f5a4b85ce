/** Heap headers as they lie in memory, a byte string: what reading one yields,
    what rewriting some leaves alone, and what the writes of heap_high_split and
    heap_merge make of a memory that spells out a block sequence. */
module HeapMemory {
  import opened Bytes
  import opened HeapBlocks

  datatype Header = Header(flag: nat, size: nat, prev: nat)

  function HeaderIn(m: seq<byte>, a: nat): Header
    requires a + HEADER <= |m|
  {
    Header(m[a], WordAt(m, a + 1), WordAt(m, a + 5))
  }

  /** A little-endian number. */
  function WordOf(s: seq<byte>): nat {
    if s == [] then 0 else (s[0] as nat) + 0x100 * WordOf(s[1..])
  }

  lemma WordOfFour(s: seq<byte>)
    requires |s| == 4
    ensures WordOf(s) == WordAt(s, 0)
  {
    assert s[1..][0] == s[1] && s[1..][1..] == s[2..] && s[2..][1..] == s[3..] && s[3..][1..] == [];
    assert WordOf(s[3..]) == s[3] as nat;
    assert WordOf(s[2..]) == s[2] as nat + 0x100 * WordOf(s[3..]);
    assert WordOf(s[1..]) == s[1] as nat + 0x100 * WordOf(s[2..]);
  }

  /** The packed struct, byte by byte: the flag, then the size, then the link. */
  lemma HeaderBytes(m: seq<byte>, a: nat)
    requires a + HEADER <= |m|
    ensures var h := HeaderIn(m, a);
            && h.flag == m[a]
            && h.size == WordOf(m[a + 1..a + 5]) && h.prev == WordOf(m[a + 5..a + 9])
  {
    WordOfFour(m[a + 1..a + 5]);
    WordOfFour(m[a + 5..a + 9]);
  }

  /** Two headers at a and b share no byte. */
  predicate Apart(a: nat, b: nat) {
    a + HEADER <= b || b + HEADER <= a
  }

  /** Memory m' differs from m in the headers at ws only. */
  ghost predicate OnlyHeaders(m: seq<byte>, m': seq<byte>, ws: set<nat>) {
    && |m| == |m'|
    && (forall b: nat {:trigger HeaderIn(m', b)} ::
          b + HEADER <= |m| && (forall a :: a in ws ==> Apart(a, b)) ==> HeaderIn(m', b) == HeaderIn(m, b))
    && (forall k {:trigger m'[k]} ::
          0 <= k < |m| && (forall a :: a in ws ==> !(a <= k < a + HEADER)) ==> m'[k] == m[k])
  }

  lemma OnlyHeadersCompose(m: seq<byte>, m': seq<byte>, m'': seq<byte>, ws: set<nat>, ws': set<nat>, all: set<nat>)
    requires OnlyHeaders(m, m', ws) && OnlyHeaders(m', m'', ws') && ws <= all && ws' <= all
    ensures OnlyHeaders(m, m'', all)
  {
    hide HeaderIn;
  }

  lemma OnlyHeadersAt(m: seq<byte>, m': seq<byte>, a: nat, b: nat)
    requires OnlyHeaders(m, m', {a}) && Apart(a, b) && b + HEADER <= |m|
    ensures HeaderIn(m', b) == HeaderIn(m, b)
  {
    hide HeaderIn;
  }

  lemma OnlyHeadersPair(m: seq<byte>, m': seq<byte>, a: nat, a': nat, b: nat)
    requires OnlyHeaders(m, m', {a, a'}) && Apart(a, b) && Apart(a', b) && b + HEADER <= |m|
    ensures HeaderIn(m', b) == HeaderIn(m, b)
  {
    hide HeaderIn;
  }

  lemma OnlyHeadersTriple(m: seq<byte>, m': seq<byte>, a: nat, a': nat, a'': nat, b: nat)
    requires OnlyHeaders(m, m', {a, a', a''}) && Apart(a, b) && Apart(a', b) && Apart(a'', b) && b + HEADER <= |m|
    ensures HeaderIn(m', b) == HeaderIn(m, b)
  {
    hide HeaderIn;
  }

  /** The header that belongs in front of block i. */
  ghost function HeaderOf(bs: seq<Block>, i: nat): Header
    requires i < |bs|
  {
    Header(if bs[i].hole then 1 else 0, bs[i].size, if i == 0 then 0 else bs[i - 1].addr)
  }

  /** Memory spells out the block sequence, link by link. */
  ghost predicate Spells(m: seq<byte>, bs: seq<Block>) {
    forall i {:trigger HeaderIn(m, bs[i].addr)} :: 0 <= i < |bs| ==> SpellsAt(m, bs, i)
  }

  ghost predicate SpellsAt(m: seq<byte>, bs: seq<Block>, i: nat)
    requires i < |bs|
  {
    bs[i].addr + HEADER <= |m| && HeaderIn(m, bs[i].addr) == HeaderOf(bs, i)
  }

  lemma BlockHeader(m: seq<byte>, bs: seq<Block>, i: nat, start: nat, end: nat)
    requires Spells(m, bs) && Ordered(bs, start, end) && end <= |m| && i < |bs|
    ensures bs[i].addr + HEADER <= |m| && HeaderIn(m, bs[i].addr) == HeaderOf(bs, i)
    ensures start <= bs[i].addr && bs[i].End() <= end
  {
    assert SpellsAt(m, bs, i);
  }

  /** What heap_high_split writes, given the header it finds at `hole`. */
  ghost predicate SplitWritten(m: seq<byte>, m': seq<byte>, hole: nat, newhole: nat, next: nat, sz: nat, last: bool) {
    && |m| == |m'| && hole + HEADER <= |m| && newhole + HEADER <= |m|
    && HEADER < sz <= HeaderIn(m, hole).size
    && HeaderIn(m', hole) == HeaderIn(m, hole).(size := HeaderIn(m, hole).size - sz)
    && HeaderIn(m', newhole) == Header(1, sz - HEADER, hole)
    && (if last then OnlyHeaders(m, m', {hole, newhole})
        else
          && OnlyHeaders(m, m', {hole, newhole, next})
          && next + HEADER <= |m| && HeaderIn(m', next) == HeaderIn(m, next).(prev := newhole))
  }

  lemma SplitSpells(m: seq<byte>, m': seq<byte>, bs: seq<Block>, i: nat, sz: nat, start: nat, end: nat)
    requires Tiles(bs, start, end) && Ordered(bs, start, end) && end <= |m|
    requires Spells(m, bs) && i < |bs| && HEADER < sz < bs[i].size
    requires SplitWritten(m, m', bs[i].addr, bs[i].End() - sz, bs[i].End(), sz, i + 1 == |bs|)
    ensures Spells(m', HighSplit(bs, i, sz))
  {
    hide HeaderIn, OnlyHeaders;
    var r := HighSplit(bs, i, sz);
    var newhole := bs[i].End() - sz;
    forall j | 0 <= j < |r|
      ensures SpellsAt(m', r, j)
    {
      if j == i {
        assert SpellsAt(m, bs, i);
      } else if j == i + 2 {
        assert SpellsAt(m, bs, i + 1);
      } else if j != i + 1 {
        SplitElsewhere(m, m', bs, i, sz, start, end, j);
      }
    }
  }

  lemma SplitElsewhere(m: seq<byte>, m': seq<byte>, bs: seq<Block>, i: nat, sz: nat, start: nat, end: nat, j: nat)
    requires Tiles(bs, start, end) && Ordered(bs, start, end) && end <= |m|
    requires Spells(m, bs) && i < |bs| && HEADER < sz < bs[i].size
    requires SplitWritten(m, m', bs[i].addr, bs[i].End() - sz, bs[i].End(), sz, i + 1 == |bs|)
    requires j < i || i + 2 < j <= |bs|
    ensures SpellsAt(m', HighSplit(bs, i, sz), j)
  {
    hide HeaderIn, OnlyHeaders, Tiles, Ordered, Spells;
    var q := if j < i then j else j - 1;
    SplitMoves(bs, i, sz, j);
    BlockHeader(m, bs, q, start, end);
    BackToBack(bs, start, end, i);
    SplitApart(bs, i, sz, start, end, q);
    if i + 1 == |bs| {
      OnlyHeadersPair(m, m', bs[i].addr, bs[i].End() - sz, bs[q].addr);
    } else {
      OnlyHeadersTriple(m, m', bs[i].addr, bs[i].End() - sz, bs[i].End(), bs[q].addr);
    }
  }

  /** Blocks away from a split keep their header, one place further right behind it. */
  lemma SplitMoves(bs: seq<Block>, i: nat, sz: nat, j: nat)
    requires i < |bs| && HEADER < sz < bs[i].size && (j < i || i + 2 < j <= |bs|)
    ensures var r, q := HighSplit(bs, i, sz), if j < i then j else j - 1;
            j < |r| && r[j] == bs[q] && HeaderOf(r, j) == HeaderOf(bs, q)
  {
    var r := HighSplit(bs, i, sz);
    if j < i {
      assert r[j] == bs[j];
    } else {
      assert r[j] == bs[j - 1] && r[j - 1] == bs[j - 2];
    }
  }

  lemma SplitApart(bs: seq<Block>, i: nat, sz: nat, start: nat, end: nat, q: nat)
    requires Ordered(bs, start, end) && i < |bs| && HEADER < sz < bs[i].size && (q < i || i + 1 < q < |bs|)
    requires i + 1 < |bs| ==> bs[i + 1].addr == bs[i].End()
    ensures Apart(bs[i].addr, bs[q].addr) && Apart(bs[i].End() - sz, bs[q].addr) && Apart(bs[i].End(), bs[q].addr)
  {
    if q < i {
      assert bs[q].End() <= bs[i].addr;
    } else {
      assert bs[i + 1].End() <= bs[q].addr;
    }
  }

  /** What heap_merge writes when the block at `next` is a hole: `over` is the header after it, if any. */
  ghost predicate MergeWritten(m: seq<byte>, m': seq<byte>, hole: nat, next: nat, over: nat, last: bool) {
    && |m| == |m'| && hole + HEADER <= |m| && next + HEADER <= |m|
    && HeaderIn(m', hole) == HeaderIn(m, hole).(size := HeaderIn(m, hole).size + HEADER + HeaderIn(m, next).size)
    && (if last then OnlyHeaders(m, m', {hole})
        else
          && OnlyHeaders(m, m', {hole, over})
          && over + HEADER <= |m| && HeaderIn(m', over) == HeaderIn(m, over).(prev := hole))
  }

  lemma MergeSpells(m: seq<byte>, m': seq<byte>, bs: seq<Block>, i: nat, start: nat, end: nat)
    requires Tiles(bs, start, end) && Ordered(bs, start, end) && end <= |m|
    requires Spells(m, bs) && i + 1 < |bs| && bs[i + 1].hole
    requires MergeWritten(m, m', bs[i].addr, bs[i + 1].addr, bs[i + 1].End(), i + 2 == |bs|)
    ensures Spells(m', Merge(bs, i))
  {
    hide HeaderIn, OnlyHeaders;
    var r := Merge(bs, i);
    forall j | 0 <= j < |r|
      ensures SpellsAt(m', r, j)
    {
      if j == i {
        assert SpellsAt(m, bs, i) && SpellsAt(m, bs, i + 1);
      } else if j == i + 1 {
        assert SpellsAt(m, bs, i + 2);
      } else {
        MergeElsewhere(m, m', bs, i, start, end, j);
      }
    }
  }

  lemma MergeElsewhere(m: seq<byte>, m': seq<byte>, bs: seq<Block>, i: nat, start: nat, end: nat, j: nat)
    requires Tiles(bs, start, end) && Ordered(bs, start, end) && end <= |m|
    requires Spells(m, bs) && i + 1 < |bs| && bs[i + 1].hole
    requires MergeWritten(m, m', bs[i].addr, bs[i + 1].addr, bs[i + 1].End(), i + 2 == |bs|)
    requires j < i || i + 1 < j < |bs| - 1
    ensures SpellsAt(m', Merge(bs, i), j)
  {
    hide HeaderIn, OnlyHeaders, Tiles, Ordered, Spells;
    var q := if j < i then j else j + 1;
    MergeMoves(bs, i, j);
    BlockHeader(m, bs, q, start, end);
    BackToBack(bs, start, end, i + 1);
    MergeApart(bs, i, start, end, q);
    if i + 2 == |bs| {
      OnlyHeadersAt(m, m', bs[i].addr, bs[q].addr);
    } else {
      OnlyHeadersPair(m, m', bs[i].addr, bs[i + 1].End(), bs[q].addr);
    }
  }

  /** Blocks away from a merge keep their header, one place further left behind it. */
  lemma MergeMoves(bs: seq<Block>, i: nat, j: nat)
    requires i + 1 < |bs| && bs[i + 1].hole && (j < i || i + 1 < j < |bs| - 1)
    ensures var r, q := Merge(bs, i), if j < i then j else j + 1;
            j < |r| && r[j] == bs[q] && HeaderOf(r, j) == HeaderOf(bs, q)
  {
    var r := Merge(bs, i);
    if j < i {
      assert r[j] == bs[j];
    } else {
      assert r[j] == bs[j + 1] && r[j - 1] == bs[j];
    }
  }

  lemma MergeApart(bs: seq<Block>, i: nat, start: nat, end: nat, q: nat)
    requires Ordered(bs, start, end) && i + 1 < |bs| && (q < i || i + 2 < q < |bs|)
    requires i + 2 < |bs| ==> bs[i + 2].addr == bs[i + 1].End()
    ensures Apart(bs[i].addr, bs[q].addr) && Apart(bs[i + 1].End(), bs[q].addr)
  {
    if q < i {
      assert bs[q].End() <= bs[i].addr && bs[q].End() <= bs[i + 1].addr;
    } else {
      assert bs[i].End() <= bs[q].addr && bs[i + 2].End() <= bs[q].addr;
    }
  }

  /** Turning the flag of one header. */
  lemma FlagSpells(m: seq<byte>, m': seq<byte>, bs: seq<Block>, i: nat, hole: bool, start: nat, end: nat)
    requires Ordered(bs, start, end) && end <= |m| && Spells(m, bs) && i < |bs|
    requires OnlyHeaders(m, m', {bs[i].addr})
    requires HeaderIn(m', bs[i].addr) == HeaderIn(m, bs[i].addr).(flag := if hole then 1 else 0)
    ensures Spells(m', SetHole(bs, i, hole))
  {
    hide HeaderIn;
    var r := SetHole(bs, i, hole);
    forall j | 0 <= j < |r|
      ensures SpellsAt(m', r, j)
    {
      assert SpellsAt(m, bs, j);
      assert j != i ==> HeaderIn(m', bs[j].addr) == HeaderIn(m, bs[j].addr);
    }
  }

  /** Every byte of every payload in use is what it was. */
  ghost predicate UsedKept(bs: seq<Block>, m: seq<byte>, m': seq<byte>) {
    |m| == |m'| && forall k {:trigger m'[k]} {:trigger InUse(bs, k)} :: 0 <= k < |m| && InUse(bs, k) ==> m'[k] == m[k]
  }

  /** Rewriting headers of blocks touches no payload in use. */
  lemma HeadersFrame(m: seq<byte>, m': seq<byte>, bs: seq<Block>, ws: set<nat>, start: nat, end: nat)
    requires Ordered(bs, start, end) && OnlyHeaders(m, m', ws)
    requires forall a :: a in ws ==> StartsBlock(bs, a)
    ensures UsedKept(bs, m, m')
  {
    hide HeaderIn;
    forall k | 0 <= k < |m| && InUse(bs, k)
      ensures m'[k] == m[k]
    {
      forall a | a in ws
        ensures !(a <= k < a + HEADER)
      {
        assert StartsBlock(bs, a);
        var i :| 0 <= i < |bs| && bs[i].addr == a;
        if a <= k < a + HEADER {
          HeaderNotInUse(bs, start, end, i, k);
        }
      }
    }
  }

  ghost predicate StartsBlock(bs: seq<Block>, a: nat) {
    exists i :: 0 <= i < |bs| && bs[i].addr == a
  }

  // ---------------------------------------------------------------- what heap_check certifies

  /** A memory heap_check has nothing against: some chain of blocks starts at `start`, reaches the end of the
      `size` bytes, has exact back links (the first one points below the heap) and no two adjacent holes. */
  ghost predicate Certified(m: seq<byte>, bs: seq<Block>, start: nat, size: nat) {
    && |bs| > 0 && bs[0].addr == start && start + size <= bs[|bs| - 1].End()
    && (forall i {:trigger CertifiedAt(m, bs, i, start, size)} :: 0 <= i < |bs| ==> CertifiedAt(m, bs, i, start, size))
  }

  ghost predicate CertifiedAt(m: seq<byte>, bs: seq<Block>, i: nat, start: nat, size: nat)
    requires i < |bs|
  {
    && start <= bs[i].addr < start + size && bs[i].addr + HEADER <= |m|
    && HeaderIn(m, bs[i].addr).flag == (if bs[i].hole then 1 else 0)
    && HeaderIn(m, bs[i].addr).size == bs[i].size
    && (if i == 0 then HeaderIn(m, bs[i].addr).prev < start
        else
          && HeaderIn(m, bs[i].addr).prev == bs[i - 1].addr && bs[i].addr == bs[i - 1].End()
          && !(bs[i - 1].hole && bs[i].hole))
  }

  /** What one round of heap_check's loop looks at. */
  ghost predicate RoundPasses(m: seq<byte>, cur: nat, start: nat, size: nat)
    requires start <= cur < start + size && start + size + HEADER <= |m|
  {
    var h := HeaderIn(m, cur);
    var next := cur + HEADER + h.size;
    && h.flag <= 1 && h.prev <= cur
    && (start <= h.prev ==>
          h.prev + HEADER + HeaderIn(m, h.prev).size == cur && !(HeaderIn(m, h.prev).flag != 0 && h.flag != 0))
    && (next < start + size ==>
          HeaderIn(m, next).prev == cur && !(h.flag != 0 && HeaderIn(m, next).flag != 0))
  }

  lemma CertifiedPasses(m: seq<byte>, bs: seq<Block>, start: nat, size: nat, k: nat)
    requires Certified(m, bs, start, size) && k < |bs| && start + size + HEADER <= |m|
    ensures start <= bs[k].addr < start + size && RoundPasses(m, bs[k].addr, start, size)
    ensures HeaderIn(m, bs[k].addr).size == bs[k].size
    ensures if k + 1 < |bs| then bs[k + 1].addr == bs[k].End() < start + size else start + size <= bs[k].End()
  {
    hide HeaderIn;
    assert CertifiedAt(m, bs, k, start, size);
    if k > 0 {
      assert CertifiedAt(m, bs, k - 1, start, size);
    }
    if k + 1 < |bs| {
      assert CertifiedAt(m, bs, k + 1, start, size);
    }
  }

  /** Appending the block the loop has just passed. */
  lemma PassedBlock(m: seq<byte>, found: seq<Block>, cur: nat, start: nat, size: nat)
    requires start <= cur < start + size && start + size + HEADER <= |m|
    requires RoundPasses(m, cur, start, size)
    requires forall i :: 0 <= i < |found| ==> CertifiedAt(m, found, i, start, size)
    requires found == [] ==> cur == start
    requires found != [] ==>
               var b := found[|found| - 1];
               b.End() == cur && HeaderIn(m, cur).prev == b.addr && !(b.hole && HeaderIn(m, cur).flag != 0)
    ensures var h := HeaderIn(m, cur);
            var longer := found + [Block(cur, h.size, h.flag == 1)];
            forall i :: 0 <= i < |longer| ==> CertifiedAt(m, longer, i, start, size)
  {
    hide HeaderIn;
    var h := HeaderIn(m, cur);
    var longer := found + [Block(cur, h.size, h.flag == 1)];
    forall i | 0 <= i < |longer|
      ensures CertifiedAt(m, longer, i, start, size)
    {
      if i < |found| {
        assert CertifiedAt(m, found, i, start, size);
        assert longer[i] == found[i];
        assert i > 0 ==> longer[i - 1] == found[i - 1];
      }
    }
  }

  /** The invariant of the heap is one that heap_check certifies. */
  lemma SpelledIsCertified(m: seq<byte>, bs: seq<Block>, start: nat, size: nat)
    requires Tiles(bs, start, start + HEADER + size) && NoAdjacentHoles(bs) && Spells(m, bs)
    requires start + HEADER + size <= |m| && 0 < start
    ensures Certified(m, bs, start, size)
  {
    hide HeaderIn;
    TilesOrdered(bs, start, start + HEADER + size);
    HeaderIsValidIsExact(bs, start, size);
    forall i | 0 <= i < |bs|
      ensures CertifiedAt(m, bs, i, start, size)
    {
      assert SpellsAt(m, bs, i);
      if i > 0 {
        assert bs[i].addr == bs[i - 1].End();
      }
    }
  }
}
