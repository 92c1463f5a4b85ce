/** The allocator of user programs (user/alloc.c): blocks tile the touched part of the heap, a doubly linked list
    runs through the free ones, and `brk` moves both ways. Headers are kept by address. */
module UserHeap {
  import opened BestFit

  const WORD := 4

  datatype Header = Header(size: nat, used: bool, next: nat, prev: nat)

  type Mem = map<nat, Header>

  // ---------------------------------------------------------------- rounding

  /** The source keeps the remainder in a byte. */
  function Alignment(size: nat, align: nat): nat {
    if align == 0 then size
    else
      var mod := (size % align) % 256;
      if mod != 0 then size - mod + align else size - mod
  }

  /** The size is rounded up to a multiple exactly when the remainder fits the byte. */
  lemma AlignmentRounds(size: nat, align: nat)
    requires align > 0
    ensures Alignment(size, align) % align == 0 && size <= Alignment(size, align) < size + align <==> size % align < 256
  {
    RestOf(size, align, size % align % 256);
  }

  /** Taking part of the remainder away leaves the rest of it, with one more multiple or without. */
  lemma RestOf(size: nat, align: nat, k: nat)
    requires align > 0 && k <= size % align
    ensures (size - k) % align == (size - k + align) % align == size % align - k
  {
    var q, m := size / align, size % align;
    OneMore(q, align);
    Remainder(q, align, m - k, size - k);
    Remainder(q + 1, align, m - k, size - k + align);
  }

  lemma OneMore(q: nat, n: nat)
    ensures (q + 1) * n == q * n + n
  {
  }

  lemma Remainder(q: nat, n: nat, r: nat, x: nat)
    requires r < n && x == q * n + r
    ensures x % n == r
  {
    assert x == (x / n) * n + x % n;
    OneRemainder(x / n, q, n, x % n, r);
  }

  lemma OneRemainder(p: nat, q: nat, n: nat, s: nat, r: nat)
    requires r < n && s < n && p * n + s == q * n + r
    ensures r == s
  {
    if p < q {
      Multiples(p, q, n);
    } else if q < p {
      Multiples(q, p, n);
    }
  }

  lemma {:induction false} Multiples(p: nat, q: nat, n: nat)
    requires p < q
    ensures p * n + n <= q * n
  {
    if p + 1 < q {
      Multiples(p, q - 1, n);
    }
    assert q * n == (q - 1) * n + n;
  }

  // ---------------------------------------------------------------- the blocks

  /** object_header_next. */
  function Next(mem: Mem, a: nat): nat
    requires a in mem
  {
    a + (mem[a].size / WORD + HEADER / WORD) * WORD
  }

  lemma NextIs(mem: Mem, a: nat)
    requires a in mem && mem[a].size % WORD == 0
    ensures Next(mem, a) == a + HEADER + mem[a].size
  {
  }

  /** The blocks at `chain` fill the range from `root` to `root + brk`. */
  ghost predicate Tiled(mem: Mem, chain: seq<nat>, root: nat, brk: nat) {
    && brk % WORD == 0 && root > 0
    && (forall i :: 0 <= i < |chain| ==> chain[i] in mem && mem[chain[i]].size % WORD == 0)
    && (chain == [] <==> brk == 0)
    && (chain != [] ==> chain[0] == root && Next(mem, chain[|chain| - 1]) == root + brk)
    && (forall i, j :: 0 <= i && j == i + 1 < |chain| ==> chain[j] == Next(mem, chain[i]))
  }

  lemma {:induction false} InOrder(mem: Mem, chain: seq<nat>, root: nat, brk: nat, i: nat, j: nat)
    requires Tiled(mem, chain, root, brk) && i < j < |chain|
    ensures Next(mem, chain[i]) <= chain[j]
    decreases j
  {
    NextIs(mem, chain[j - 1]);
    if i < j - 1 {
      InOrder(mem, chain, root, brk, i, j - 1);
    }
    assert chain[j] == Next(mem, chain[j - 1]);
  }

  lemma Inside(mem: Mem, chain: seq<nat>, root: nat, brk: nat, i: nat)
    requires Tiled(mem, chain, root, brk) && i < |chain|
    ensures brk % WORD == 0 && chain[i] in mem && mem[chain[i]].size % WORD == 0 && forall a :: a in chain ==> a in mem
    ensures chain[i] in chain && root <= chain[i]
    ensures chain[i] + HEADER + mem[chain[i]].size == Next(mem, chain[i]) <= root + brk
    ensures Next(mem, chain[i]) == root + brk <==> i == |chain| - 1
  {
    var n := |chain| - 1;
    NextIs(mem, chain[i]);
    NextIs(mem, chain[0]);
    NextIs(mem, chain[n]);
    if i > 0 {
      InOrder(mem, chain, root, brk, 0, i);
    }
    if i < n {
      InOrder(mem, chain, root, brk, i, n);
    }
  }

  /** No block occurs twice. */
  lemma Different(mem: Mem, chain: seq<nat>, root: nat, brk: nat)
    requires Tiled(mem, chain, root, brk)
    ensures forall i, j :: 0 <= i < |chain| && 0 <= j < |chain| && chain[i] == chain[j] ==> i == j
  {
    forall i, j | 0 <= i < j < |chain| ensures chain[i] != chain[j] {
      InOrder(mem, chain, root, brk, i, j);
      NextIs(mem, chain[i]);
    }
  }

  /** Sizes and use, the part of the headers that the tiling is about. */
  ghost predicate SameShape(mem: Mem, mem': Mem) {
    mem.Keys == mem'.Keys && forall a :: a in mem ==> mem'[a].size == mem[a].size && mem'[a].used == mem[a].used
  }

  lemma TiledFrame(mem: Mem, mem': Mem, chain: seq<nat>, root: nat, brk: nat)
    requires Tiled(mem, chain, root, brk) && mem.Keys <= mem'.Keys
    requires forall a :: a in chain ==> mem'[a].size == mem[a].size
    ensures Tiled(mem', chain, root, brk)
  {
    forall i | 0 <= i < |chain| ensures chain[i] in chain {
    }
  }

  /** The last block is cut or grown, and `brk` with it. */
  lemma TiledResize(mem: Mem, chain: seq<nat>, root: nat, brk: nat, size: nat)
    requires Tiled(mem, chain, root, brk) && chain != [] && size % WORD == 0
    ensures var h := chain[|chain| - 1];
            var brk' := brk - mem[h].size + size;
            brk' >= 0 && Tiled(mem[h := mem[h].(size := size)], chain, root, brk')
  {
    var n := |chain| - 1;
    var h := chain[n];
    var mem' := mem[h := mem[h].(size := size)];
    Inside(mem, chain, root, brk, n);
    Different(mem, chain, root, brk);
    NextIs(mem', h);
    forall i, j | 0 <= i && j == i + 1 < |chain| ensures chain[j] == Next(mem', chain[i]) {
      assert chain[i] != h;
    }
  }

  /** Block `i` gives up its end for a block of its own. */
  lemma TiledSplit(mem: Mem, mem': Mem, chain: seq<nat>, root: nat, brk: nat, i: nat, n: nat)
    requires Tiled(mem, chain, root, brk) && i < |chain| && n !in chain
    requires n in mem' && mem.Keys <= mem'.Keys
    requires forall a :: a in chain && a != chain[i] ==> mem'[a].size == mem[a].size
    requires mem'[chain[i]].size % WORD == 0 && mem'[n].size % WORD == 0
    requires n == chain[i] + HEADER + mem'[chain[i]].size && Next(mem, chain[i]) == n + HEADER + mem'[n].size
    ensures Tiled(mem', chain[..i + 1] + [n] + chain[i + 1..], root, brk)
  {
    var c := chain[..i + 1] + [n] + chain[i + 1..];
    Different(mem, chain, root, brk);
    NextIs(mem', chain[i]);
    NextIs(mem', n);
    forall k, j | 0 <= k && j == k + 1 < |c|
      ensures c[k] in mem' && mem'[c[k]].size % WORD == 0 && c[j] == Next(mem', c[k])
    {
      if k < i {
        assert c[k] == chain[k] && c[j] == chain[j] && chain[k] in chain && chain[k] != chain[i];
      } else if k > i + 1 {
        assert c[k] == chain[k - 1] && c[j] == chain[j - 1] && chain[k - 1] in chain && chain[k - 1] != chain[i];
      }
    }
    var last := |chain| - 1;
    assert chain[last] in chain && c[|c| - 1] == if i == last then n else chain[last];
  }

  /** Block `i` swallows the next one. */
  lemma TiledMerge(mem: Mem, chain: seq<nat>, root: nat, brk: nat, i: nat)
    requires Tiled(mem, chain, root, brk) && i + 1 < |chain|
    ensures Tiled(Merged(mem, chain[i], chain[i + 1]), chain[..i + 1] + chain[i + 2..], root, brk)
  {
    var mem', c := Merged(mem, chain[i], chain[i + 1]), chain[..i + 1] + chain[i + 2..];
    forall k | 0 <= k < |c| ensures c[k] in mem' && mem'[c[k]].size % WORD == 0 {
      MergedAt(mem, chain, root, brk, i, k);
    }
    forall k, j | 0 <= k && j == k + 1 < |c| ensures c[j] == Next(mem', c[k]) {
      MergedAt(mem, chain, root, brk, i, k);
    }
    MergedAt(mem, chain, root, brk, i, |c| - 1);
    assert c[0] == chain[0];
  }

  lemma MergedAt(mem: Mem, chain: seq<nat>, root: nat, brk: nat, i: nat, k: nat)
    requires Tiled(mem, chain, root, brk) && i + 1 < |chain| && k + 1 < |chain| && chain[i] in mem
    requires chain[i + 1] in mem
    ensures var mem', c := Merged(mem, chain[i], chain[i + 1]), chain[..i + 1] + chain[i + 2..];
            c[k] in mem' && mem'[c[k]].size % WORD == 0
            && if k + 1 < |c| then c[k + 1] == Next(mem', c[k]) else Next(mem', c[k]) == root + brk
  {
    hide Tiled, Next, Merged;
    LinkAt(mem, chain, root, brk, i);
    LinkAt(mem, chain, root, brk, i + 1);
    if k == i {
      MergedHere(mem, chain[i], chain[i + 1]);
    } else {
      var q := if k < i then k else k + 1;
      LinkAt(mem, chain, root, brk, q);
      Different(mem, chain, root, brk);
      MergedElsewhere(mem, chain[i], chain[i + 1], chain[q]);
    }
  }

  lemma MergedHere(mem: Mem, a: nat, b: nat)
    requires a in mem && b in mem && mem[a].size % WORD == 0 && mem[b].size % WORD == 0 && Next(mem, a) == b
    ensures var mem' := Merged(mem, a, b); a in mem' && mem'[a].size % WORD == 0 && Next(mem', a) == Next(mem, b)
  {
    hide Next;
    NextIs(mem, a);
    NextIs(mem, b);
    NextIs(Merged(mem, a, b), a);
  }

  lemma MergedElsewhere(mem: Mem, a: nat, b: nat, x: nat)
    requires a in mem && b in mem && x in mem && x != a
    ensures var mem' := Merged(mem, a, b); x in mem' && mem'[x] == mem[x] && Next(mem', x) == Next(mem, x)
  {
  }

  lemma LinkAt(mem: Mem, chain: seq<nat>, root: nat, brk: nat, k: nat)
    requires Tiled(mem, chain, root, brk) && k < |chain|
    ensures chain[k] in mem && mem[chain[k]].size % WORD == 0
    ensures if k + 1 < |chain| then chain[k + 1] == Next(mem, chain[k]) else Next(mem, chain[k]) == root + brk
  {
    assert k + 1 < |chain| ==> chain[k + 1] == Next(mem, chain[k]);
  }

  /** object_header_merge. */
  function Merged(mem: Mem, a: nat, b: nat): Mem
    requires a in mem && b in mem
  {
    mem[a := mem[a].(size := mem[a].size + mem[b].size + HEADER)]
  }

  lemma TiledAppend(mem: Mem, chain: seq<nat>, root: nat, brk: nat, h: Header)
    requires Tiled(mem, chain, root, brk) && h.size % WORD == 0
    ensures root + brk !in chain
    ensures Tiled(mem[root + brk := h], chain + [root + brk], root, brk + HEADER + h.size)
  {
    hide Next;
    var end := root + brk;
    var mem' := mem[end := h];
    forall i | 0 <= i < |chain|
      ensures chain[i] in mem && chain[i] < end && Next(mem', chain[i]) == Next(mem, chain[i])
    {
      Inside(mem, chain, root, brk, i);
      NextKept(mem, mem', chain[i]);
    }
    NextIs(mem', end);
  }

  lemma NextKept(mem: Mem, mem': Mem, a: nat)
    requires a in mem && a in mem' && mem'[a] == mem[a]
    ensures Next(mem', a) == Next(mem, a)
  {
  }

  // ---------------------------------------------------------------- the free list

  /** `fl` is what the links spell, from `free` on and in both directions. */
  ghost predicate Linked(mem: Mem, free: nat, fl: seq<nat>) {
    && (forall i :: 0 <= i < |fl| ==> fl[i] != 0 && fl[i] in mem)
    && (forall i, j :: 0 <= i < j < |fl| ==> fl[i] != fl[j])
    && (if fl == [] then free == 0 else free == fl[0] && mem[fl[0]].prev == 0 && mem[fl[|fl| - 1]].next == 0)
    && (forall i, j :: 0 <= i && j == i + 1 < |fl| ==> mem[fl[i]].next == fl[j] && mem[fl[j]].prev == fl[i])
  }

  ghost predicate FreeExactly(mem: Mem, chain: seq<nat>, fl: seq<nat>) {
    && (forall a :: a in chain ==> a in mem)
    && (forall a :: a in fl <==> a in chain && !mem[a].used)
  }

  lemma LinkedFrame(mem: Mem, mem': Mem, free: nat, fl: seq<nat>)
    requires Linked(mem, free, fl) && mem.Keys <= mem'.Keys
    requires forall a :: a in fl ==> mem'[a].next == mem[a].next && mem'[a].prev == mem[a].prev
    ensures Linked(mem', free, fl)
  {
    forall i | 0 <= i < |fl| ensures fl[i] in fl {
    }
  }

  function Without(fl: seq<nat>, k: nat): seq<nat>
    requires k < |fl|
  {
    fl[..k] + fl[k + 1..]
  }

  lemma WithoutHas(fl: seq<nat>, k: nat)
    requires k < |fl| && forall i, j :: 0 <= i < j < |fl| ==> fl[i] != fl[j]
    ensures forall a :: a in Without(fl, k) <==> a in fl && a != fl[k]
  {
    forall a ensures a in Without(fl, k) <==> a in fl && a != fl[k] {
      if a in fl && a != fl[k] {
        var i :| 0 <= i < |fl| && fl[i] == a;
        assert Without(fl, k)[if i < k then i else i - 1] == a;
      }
    }
  }

  /** The links of the neighbours of element `k` are joined. */
  function Unlinked(mem: Mem, fl: seq<nat>, k: nat): Mem
    requires k < |fl| && forall i :: 0 <= i < |fl| ==> fl[i] in mem
  {
    var mem1 := if k + 1 < |fl| then mem[fl[k + 1] := mem[fl[k + 1]].(prev := if k > 0 then fl[k - 1] else 0)] else mem;
    var mem2 := if k > 0 then mem1[fl[k - 1] := mem1[fl[k - 1]].(next := if k + 1 < |fl| then fl[k + 1] else 0)]
                else mem1;
    mem2[fl[k] := mem2[fl[k]].(prev := 0, next := 0)]
  }

  lemma UnlinkedIs(mem: Mem, fl: seq<nat>, k: nat)
    requires k < |fl| && forall i :: 0 <= i < |fl| ==> fl[i] in mem
    requires forall i, j :: 0 <= i < j < |fl| ==> fl[i] != fl[j]
    ensures SameShape(mem, Unlinked(mem, fl, k))
    ensures forall i :: 0 <= i < |fl| && i != k ==>
      Unlinked(mem, fl, k)[fl[i]].next ==
        (if i == k - 1 then (if k + 1 < |fl| then fl[k + 1] else 0) else mem[fl[i]].next)
    ensures forall i :: 0 <= i < |fl| && i != k ==>
      Unlinked(mem, fl, k)[fl[i]].prev == (if i == k + 1 then (if k > 0 then fl[k - 1] else 0) else mem[fl[i]].prev)
  {
  }

  lemma LinkedWithout(mem: Mem, free: nat, fl: seq<nat>, k: nat)
    requires Linked(mem, free, fl) && k < |fl|
    ensures Linked(Unlinked(mem, fl, k), if k > 0 then free else if |fl| > 1 then fl[1] else 0, Without(fl, k))
    ensures SameShape(mem, Unlinked(mem, fl, k))
  {
    var mem', s := Unlinked(mem, fl, k), Without(fl, k);
    UnlinkedIs(mem, fl, k);
    hide Unlinked;
    forall i, j | 0 <= i && j == i + 1 < |s| ensures mem'[s[i]].next == s[j] && mem'[s[j]].prev == s[i] {
      if j < k {
        assert s[i] == fl[i] && s[j] == fl[j];
      } else if i >= k {
        assert s[i] == fl[i + 1] && s[j] == fl[j + 1];
      } else {
        assert s[i] == fl[k - 1] && s[j] == fl[k + 1];
      }
    }
    if s != [] {
      assert s[0] == if k > 0 then fl[0] else fl[1];
      assert s[|s| - 1] == if k + 1 < |fl| then fl[|fl| - 1] else fl[k - 1];
    }
  }

  lemma LinkedPush(mem: Mem, free: nat, fl: seq<nat>, h: nat)
    requires Linked(mem, free, fl) && h in mem && h != 0 && h !in fl
    ensures var mem1 := mem[h := mem[h].(next := free, prev := 0)];
            var mem2 := if free != 0 then mem1[free := mem1[free].(prev := h)] else mem1;
            Linked(mem2, h, [h] + fl) && SameShape(mem, mem2)
  {
    var mem1 := mem[h := mem[h].(next := free, prev := 0)];
    var mem2 := if free != 0 then mem1[free := mem1[free].(prev := h)] else mem1;
    var s := [h] + fl;
    forall i | 0 <= i < |fl| ensures fl[i] != h {
      assert fl[i] in fl;
    }
    forall i, j | 0 <= i && j == i + 1 < |s| ensures mem2[s[i]].next == s[j] && mem2[s[j]].prev == s[i] {
      if i > 0 {
        assert s[i] == fl[i - 1] && s[j] == fl[j - 1];
      }
    }
  }

  // ---------------------------------------------------------------- what clients hold

  /** The used blocks and their sizes. */
  ghost function Holdings(mem: Mem, chain: seq<nat>): map<nat, nat>
    requires forall a :: a in chain ==> a in mem
  {
    map a | a in chain && mem[a].used :: mem[a].size
  }

  /** The free blocks and their sizes. */
  ghost function FreeSizes(mem: Mem, fl: seq<nat>): Frees
    requires forall a :: a in fl ==> a in mem
  {
    map a | a in fl :: mem[a].size
  }

  class Heap {
    const root: nat
    var size: nat
    var brk: nat
    var free: nat
    var mem: Mem
    ghost var chain: seq<nat>
    ghost var fl: seq<nat>

    ghost predicate Valid()
      reads this
    {
      brk <= size && Tiled(mem, chain, root, brk) && Linked(mem, free, fl) && FreeExactly(mem, chain, fl)
    }

    ghost function Live(): map<nat, nat>
      requires Valid()
      reads this
    {
      Holdings(mem, chain)
    }

    ghost function FreeBlocks(): Frees
      requires Valid()
      reads this
    {
      FreeSizes(mem, fl)
    }

    /** What the search for `need` bytes comes to, as a function of the heap. */
    ghost function Searched(need: nat): Outcome
      requires Valid()
      reads this
    {
      Search(FreeBlocks(), fl, root + brk, size - brk, need)
    }

    /** The search for `need` bytes would return something that is no block. */
    ghost predicate Loses(need: nat)
      requires Valid()
      reads this
    {
      Lost(FreeBlocks(), fl, root + brk, size - brk, need)
    }

    /** However much room there were, a search for `need` bytes would not. */
    ghost predicate NeverLoses(need: nat)
      requires Valid()
      reads this
    {
      NeverLost(FreeBlocks(), fl, root + brk, need)
    }

    /** heap_new. */
    constructor (root: nat, size: nat)
      requires root > 0
      ensures Valid() && this.root == root && this.size == size && brk == 0 && Live() == map[] && fl == []
    {
      this.root := root;
      this.size := size;
      brk, free, mem, chain, fl := 0, 0, map[], [], [];
    }

    /** heap_expand. */
    method Expand(more: nat)
      requires Valid()
      modifies `size
      ensures Valid() && size == old(size) + more && Live() == old(Live())
    {
      size := size + more;
    }

    /** heap_is_end. */
    function IsEnd(h: nat): bool
      requires h in mem
      reads this
    {
      h + HEADER + mem[h].size / WORD * WORD == root + brk / WORD * WORD
    }

    /** heap_add_free. */
    method AddFree(h: nat)
      requires Linked(mem, free, fl) && h in mem && h != 0 && h !in fl
      modifies `mem, `free, `fl
      ensures Linked(mem, free, fl) && fl == [h] + old(fl) && SameShape(old(mem), mem)
    {
      LinkedPush(mem, free, fl, h);
      mem := mem[h := mem[h].(next := free, prev := 0)];
      if free != 0 {
        mem := mem[free := mem[free].(prev := h)];
      }
      free := h;
      fl := [h] + fl;
    }

    /** heap_remove_free. */
    method RemoveFree(h: nat, ghost k: nat)
      requires Linked(mem, free, fl) && k < |fl| && fl[k] == h
      modifies `mem, `free, `fl
      ensures Linked(mem, free, fl) && fl == Without(old(fl), k) && SameShape(old(mem), mem)
      ensures h in mem && mem[h].prev == 0 && mem[h].next == 0
    {
      LinkedWithout(mem, free, fl, k);
      ghost var after := Unlinked(mem, fl, k);
      var next, prev := mem[h].next, mem[h].prev;
      assert next == if k + 1 < |fl| then fl[k + 1] else 0;
      assert prev == if k > 0 then fl[k - 1] else 0;
      if next != 0 {
        mem := mem[next := mem[next].(prev := prev)];
      }
      if prev != 0 {
        mem := mem[prev := mem[prev].(next := next)];
      }
      mem := mem[h := mem[h].(prev := 0, next := 0)];
      assert mem == after;
      if free == h {
        free := next;
      }
      fl := Without(fl, k);
    }

    /** heap_find_first_fit: the first free block in list order that is large enough. */
    method FindFirstFit(need: nat) returns (block: nat)
      requires Valid()
      ensures block == 0 ==> forall a :: a in fl ==> mem[a].size < need
      ensures block != 0 ==> block in fl && mem[block].size >= need && FirstWithRoom(mem, fl, block, need)
    {
      block := free;
      ghost var k := 0;
      while block != 0
        invariant k <= |fl| && block == if k < |fl| then fl[k] else 0
        invariant forall j :: 0 <= j < k ==> mem[fl[j]].size < need
        decreases |fl| - k
      {
        if mem[block].size >= need {
          return;
        }
        assert k + 1 < |fl| ==> mem[fl[k]].next == fl[k + 1];
        block := mem[block].next;
        k := k + 1;
      }
    }

    /** object_header_try_split for a block that is long enough: the last block gives its end back to the
        untouched memory, another one makes a free block of it if that can hold anything. */
    method TrySplit(h: nat, need: nat, ghost i: nat)
      requires Valid() && i < |chain| && chain[i] == h && need % WORD == 0 && need <= mem[h].size
      modifies `mem, `brk, `free, `chain, `fl
      ensures Valid() && i < |chain| && chain[i] == h && brk <= old(brk)
      ensures Trimmed(old(mem), old(chain), mem, chain, h, need)
      ensures if old(IsEnd(h)) then
                && brk == old(brk) - (old(mem)[h].size - need) && mem[h].size == need
                && chain == old(chain) && fl == old(fl)
              else if need + HEADER < old(mem)[h].size then
                brk == old(brk) && mem[h].size == need && fl == [h + HEADER + need] + old(fl)
              else mem == old(mem) && brk == old(brk) && chain == old(chain) && fl == old(fl)
    {
      hide Tiled, Linked, FreeExactly, Holdings, Next, SameShape, Trimmed;
      Inside(mem, chain, root, brk, i);
      var current := mem[h].size;
      if IsEnd(h) {
        CutKeeps(mem, chain, fl, root, brk, i, need);
        if need < current {
          brk := brk - (current - need);
          mem := mem[h := mem[h].(size := need)];
          LinkedFrame(old(mem), mem, free, fl);
        } else {
          assert mem[h := mem[h].(size := need)] == mem;
        }
      } else if need + HEADER < current {
        SplitKeeps(mem, chain, fl, root, brk, i, need);
        ghost var cut := Cut(mem, h, need);
        mem := mem[h := mem[h].(size := need)];
        var next := Next(mem, h);
        NextIs(mem, h);
        mem := mem[next := Header(current - need - HEADER, false, 0, 0)];
        assert mem == cut;
        LinkedFrame(old(mem), mem, free, fl);
        AddFree(next);
        chain := chain[..i + 1] + [next] + chain[i + 1..];
        ShapeKeeps(cut, mem, chain, fl, root, brk);
        TrimmedShape(old(mem), old(chain), cut, mem, chain, h, need);
      } else {
        TrimmedSelf(mem, chain, h, need);
      }
    }

    /** The end of heap_alloc when a block was found: cut it, mark it, take it off the free list. */
    method TakeBlock(block: nat, need: nat) returns (pointer: nat)
      requires Valid() && block in fl && need % WORD == 0 && need <= mem[block].size
      modifies `mem, `brk, `free, `chain, `fl
      ensures Valid() && pointer == block + HEADER && brk <= old(brk)
      ensures block in chain && need <= mem[block].size <= need + HEADER
      ensures block !in old(Live()) && Live() == old(Live())[block := mem[block].size]
    {
      hide Tiled, Linked, Next, Holdings, SameShape;
      ghost var i :| 0 <= i < |chain| && chain[i] == block;
      TrySplit(block, need, i);
      ghost var cut := mem;
      ghost var k :| 0 <= k < |fl| && fl[k] == block;
      assert block in chain && block in mem;
      HoldingsOfUnused(old(mem), old(chain), cut, chain, block, need);
      mem := mem[block := mem[block].(used := true)];
      LinkedFrame(cut, mem, free, fl);
      ghost var taken, list := mem, fl;
      TakenKeeps(cut, chain, free, fl, root, brk, k);
      RemoveFree(block, k);
      ShapeKeeps(taken, mem, chain, Without(list, k), root, brk);
      SizeKept(taken, mem, block);
      pointer := block + HEADER;
    }

    /** A free block swallows its free right neighbour, which leaves the list (lines 225 and 226). What the rest
        of the scan comes to does not change. */
    method MergeNext(block: nat, next: nat, ghost i: nat, ghost k: nat, ghost best: nat, ghost least: nat,
                     ghost room: nat, ghost need: nat)
      returns (ghost k': nat)
      requires Valid() && i + 1 < |chain| && chain[i] == block && chain[i + 1] == next && k < |fl| && fl[k] == block
      requires block in mem && next in mem && !mem[block].used && !mem[next].used && mem[block].size < need
      modifies `mem, `free, `chain, `fl
      ensures Valid() && Live() == old(Live())
      ensures |fl| == |old(fl)| - 1 && k' < |fl| && fl[k'] == block
      ensures mem.Keys == old(mem).Keys && forall a :: a in mem && a != block ==> mem[a].size == old(mem)[a].size
      ensures Scan(FreeBlocks(), fl[k'..], best, least, root + brk, room, need)
           == Scan(old(FreeBlocks()), old(fl)[k..], best, least, root + brk, room, need)
    {
      hide Tiled, Linked, FreeExactly, Holdings, Next, SameShape, Without, Merged, FreeSizes, Scan;
      Different(mem, chain, root, brk);
      LinkAt(mem, chain, root, brk, i);
      NextIs(mem, block);
      ghost var m := MergeKeeps(mem, chain, free, fl, root, brk, i, k);
      mem := Merged(mem, block, next);
      ghost var merged := mem;
      MergedSizes(old(mem), block, next);
      RemoveFree(next, m);
      SizesKept(merged, mem);
      chain := chain[..i + 1] + chain[i + 2..];
      ShapeKeeps(merged, mem, chain, fl, root, brk);
      k' := if m < k then k - 1 else k;
      FreeKnown(old(mem), old(chain), old(fl));
      FreeKnown(mem, chain, fl);
      MergedScan(old(mem), mem, old(fl), k, m, best, least, root + brk, room, need);
    }

    /** heap_find_best_fit. While it scans it grows a last block that is too short, and a too short block
        swallows its free neighbours, each of which leaves the list; so the scan ends. What it returns is a
        best fit, or null, unless a block was swallowed after it had been remembered. */
    method FindBestFit(need: nat) returns (block: nat)
      requires Valid() && need % WORD == 0
      modifies `mem, `brk, `free, `chain, `fl
      ensures Valid() && Live() == old(Live()) && old(brk) <= brk && (block == 0 ==> brk == old(brk))
      ensures block == old(Searched(need)).block && FreeBlocks() == old(Searched(need)).free
      ensures block == 0 <==> NoRun(old(FreeBlocks()), old(fl), root + old(brk), size - old(brk), need)
      ensures !old(Loses(need)) && block != 0 ==> BestOf(FreeBlocks(), block, need)
      ensures old(Loses(need)) ==> block != 0 && block !in chain
      ensures block == 0 ==> NeverLoses(need)
    {
      hide Tiled, Linked, FreeExactly, Holdings, FreeSizes, Search, Lost, NoRun, BestOf, NeverLost;
      block := ScanFree(need);
      FreeKnown(old(mem), old(chain), old(fl));
      SearchedNothing(old(mem), old(chain), old(free), old(fl), root, old(brk), size - old(brk), need, fl,
                      root + brk);
      SearchFacts(old(mem), old(chain), old(free), old(fl), root, old(brk), size - old(brk), need);
      SearchedNoBlock(old(mem), old(chain), old(free), old(fl), mem, chain, fl, root, old(brk), brk,
                      size - old(brk), need);
    }

    /** The size of a remembered block. */
    ghost function SizeOf(best: nat): nat
      reads this
    {
      if best == 0 || best !in mem then 0 else mem[best].size
    }

    /** Its loop. */
    method ScanFree(need: nat) returns (block: nat)
      requires Valid() && need % WORD == 0
      modifies `mem, `brk, `free, `chain, `fl
      ensures Valid() && Live() == old(Live()) && old(brk) <= brk && (block == 0 ==> brk == old(brk))
      ensures block == old(Searched(need)).block && FreeBlocks() == old(Searched(need)).free
    {
      hide Tiled, Linked, FreeExactly, Holdings, Next, FreeSizes, Scan, Behind;
      var best := 0;
      block := free;
      ghost var k: nat := 0;
      ListEnds(mem, free, fl);
      assert fl[0..] == fl;
      while block != 0
        invariant Valid() && Live() == old(Live()) && brk == old(brk)
        invariant k <= |fl| && block == if k < |fl| then fl[k] else 0
        invariant best != 0 ==> best in mem && mem[best].size > need
        invariant Scan(FreeBlocks(), fl[k..], best, SizeOf(best), root + brk, size - brk, need)
               == old(Searched(need))
        modifies `mem, `brk, `free, `chain, `fl
        decreases |fl|, |fl| - k
      {
        ghost var i := AtHead(mem, chain, free, fl, root, brk, k);
        ghost var least := SizeOf(best);
        var blockSize := mem[block].size;
        if blockSize >= need {
          ScanVisit(FreeBlocks(), fl[k..], best, least, root + brk, size - brk, need);
          if blockSize == need {
            break;
          }
          if best == 0 || blockSize < mem[best].size {
            best := block;
          }
          block := mem[block].next;
          k := k + 1;
        } else if IsEnd(block) {
          ScanVisit(FreeBlocks(), fl[k..], best, least, root + brk, size - brk, need);
          var neededSize := need - blockSize;
          if size - brk >= neededSize {
            GrowLast(block, need, i);
            break;
          }
          block := mem[block].next;
          k := k + 1;
        } else {
          var next := Next(mem, block);
          if next < root + brk / WORD * WORD && !mem[next].used {
            k := MergeNext(block, next, i, k, best, least, size - brk, need);
          } else {
            ScanVisit(FreeBlocks(), fl[k..], best, least, root + brk, size - brk, need);
            block := mem[block].next;
            k := k + 1;
          }
        }
      }
      ListEnds(mem, free, fl);
      if block == 0 {
        ScanEnd(FreeBlocks(), fl[k..], best, SizeOf(best), root + brk, size - brk, need);
        block := best;
      }
    }

    /** The last block takes what it lacks from the untouched memory (lines 211 and 212). */
    method GrowLast(block: nat, need: nat, ghost i: nat)
      requires Valid() && i < |chain| && chain[i] == block && block in fl && block in mem && need % WORD == 0
      requires mem[block].size < need && Next(mem, block) == root + brk && size - brk >= need - mem[block].size
      modifies `mem, `brk
      ensures Valid() && Live() == old(Live()) && brk == old(brk) + (need - old(mem)[block].size)
      ensures FreeBlocks() == old(FreeBlocks())[block := need]
    {
      hide Tiled, Linked, Holdings, Next, FreeSizes;
      GrowKeeps(mem, chain, free, fl, root, brk, i, need);
      FreeKnown(mem, chain, fl);
      GrownSizes(mem, fl, block, need);
      brk := brk + (need - mem[block].size);
      mem := mem[block := mem[block].(size := need)];
    }

    /** heap_alloc with BEST_FIT, as stdlib.c is built, wherever the search does not lose the block it has found. */
    method AllocBestFit(bytes: nat, align: nat) returns (pointer: nat)
      requires Valid() && Alignment(bytes, align) % WORD == 0 && (bytes != 0 ==> !Loses(Alignment(bytes, align)))
      modifies `mem, `brk, `free, `chain, `fl
      ensures Valid()
      ensures pointer == 0 <==>
                || bytes == 0
                || (&& NoRun(old(FreeBlocks()), old(fl), root + old(brk), size - old(brk), Alignment(bytes, align))
                    && Alignment(bytes, align) + HEADER > size - old(brk))
      ensures pointer == 0 ==> Live() == old(Live()) && brk == old(brk)
      ensures pointer == 0 && bytes != 0 ==> NeverLoses(Alignment(bytes, align))
      ensures pointer != 0 ==> Given(old(Live()), Live(), pointer, bytes)
      ensures pointer != 0 ==>
                pointer - HEADER in Live() && Live()[pointer - HEADER] <= Alignment(bytes, align) + HEADER
      ensures bytes != 0 && old(Searched(Alignment(bytes, align))).block != 0 ==>
                pointer == old(Searched(Alignment(bytes, align))).block + HEADER
      ensures pointer != 0 && old(Searched(Alignment(bytes, align))).block == 0 ==>
                && pointer == root + old(brk) + HEADER && brk == old(brk) + HEADER + Alignment(bytes, align)
                && Live() == old(Live())[root + old(brk) := Alignment(bytes, align)]
                && FreeBlocks() == old(Searched(Alignment(bytes, align))).free
    {
      hide Tiled, Linked, Holdings, Alignment, Search, NoRun, Lost;
      if bytes == 0 {
        return 0;
      }
      var need := Alignment(bytes, align);
      AlignmentCovers(bytes, align);
      var block := FindBestFit(need);
      if block != 0 {
        pointer := TakeBlock(block, need);
        return;
      }
      LiveInChain(mem, chain);
      pointer := ExtendBy(need);
    }

    /** What heap_alloc does when no block was found: a new block at the end of the touched memory, if it fits. */
    method ExtendBy(need: nat) returns (pointer: nat)
      requires Valid() && need % WORD == 0
      modifies `mem, `brk, `chain
      ensures Valid() && (pointer == 0 <==> need + HEADER > size - old(brk))
      ensures pointer == 0 ==> mem == old(mem) && brk == old(brk) && chain == old(chain)
      ensures pointer != 0 ==> pointer == root + old(brk) + HEADER && brk == old(brk) + HEADER + need
      ensures pointer != 0 ==> pointer - HEADER !in old(chain) && Live() == old(Live())[pointer - HEADER := need]
      ensures FreeBlocks() == old(FreeBlocks())
    {
      hide Tiled, Linked, Next, Holdings, FreeSizes;
      if need + HEADER > size - brk {
        return 0;
      }
      var end := root + brk / WORD * WORD;
      WholeWords(mem, chain, root, brk);
      pointer := end + HEADER;
      AppendKeeps(mem, chain, free, fl, root, brk, need);
      FreeKnown(mem, chain, fl);
      AppendedSizes(mem, fl, end, Header(need, true, 0, 0));
      mem := mem[end := Header(need, true, 0, 0)];
      chain := chain + [end];
      brk := brk + (HEADER + need);
    }

    /** malloc of stdlib.c: while there is no room the heap grows, by twice as much each time. */
    method Malloc(bytes: nat, heapSize: nat) returns (pointer: nat, heapSize': nat)
      requires Valid() && heapSize > 0 && (bytes != 0 ==> !Loses(Alignment(bytes, WORD)))
      modifies `mem, `brk, `free, `chain, `fl, `size
      ensures Valid() && heapSize' >= heapSize && size >= old(size)
      ensures pointer == 0 <==> bytes == 0
      ensures bytes == 0 ==> Live() == old(Live()) && size == old(size)
      ensures bytes != 0 ==> Given(old(Live()), Live(), pointer, bytes)
      ensures bytes != 0 ==> pointer - HEADER in Live() && Live()[pointer - HEADER] <= Alignment(bytes, WORD) + HEADER
      ensures size == old(size) + (heapSize' - heapSize)
    {
      hide Tiled, Linked, FreeExactly, Holdings, Alignment, FreeSizes, Search, NoRun, Lost, Given;
      AlignmentWhole(bytes, WORD);
      ghost var need := Alignment(bytes, WORD);
      pointer := AllocBestFit(bytes, WORD);
      heapSize' := heapSize;
      while bytes != 0 && pointer == 0
        invariant Valid() && heapSize' >= heapSize && size == old(size) + (heapSize' - heapSize)
        invariant pointer != 0 ==> pointer - HEADER in Live() && Live()[pointer - HEADER] <= need + HEADER
        invariant bytes == 0 ==> pointer == 0 && Live() == old(Live()) && size == old(size)
        invariant bytes != 0 && pointer == 0 ==> Live() == old(Live()) && NeverLoses(need) && need + HEADER > size - brk
        invariant bytes != 0 && pointer != 0 ==> Given(old(Live()), Live(), pointer, bytes)
        decreases if pointer == 0 then need + HEADER - (size - brk) else 0
      {
        Expand(heapSize');
        heapSize' := heapSize' * 2;
        pointer := AllocBestFit(bytes, WORD);
      }
    }

    /** heap_alloc with FIRST_FIT, for sizes that round to whole words. */
    method AllocFirstFit(bytes: nat, align: nat) returns (pointer: nat)
      requires Valid() && Alignment(bytes, align) % WORD == 0
      modifies `mem, `brk, `free, `chain, `fl
      ensures Valid()
      ensures pointer == 0 <==> bytes == 0 || NoRoom(old(mem), old(fl), size - old(brk), Alignment(bytes, align))
      ensures pointer == 0 ==> Live() == old(Live()) && brk == old(brk)
      ensures pointer != 0 ==> Given(old(Live()), Live(), pointer, bytes)
      ensures pointer != 0 ==>
                pointer - HEADER in Live() && Live()[pointer - HEADER] <= Alignment(bytes, align) + HEADER
      ensures pointer != 0 ==>
                var need := Alignment(bytes, align);
                if exists a :: a in old(fl) && a in old(mem) && old(mem)[a].size >= need
                then FirstWithRoom(old(mem), old(fl), pointer - HEADER, need)
                else pointer == root + old(brk) + HEADER
    {
      hide Tiled, Linked, Holdings, Alignment;
      if bytes == 0 {
        return 0;
      }
      var need := Alignment(bytes, align);
      AlignmentCovers(bytes, align);
      var block := FindFirstFit(need);
      if block != 0 {
        pointer := TakeBlock(block, need);
        return;
      }
      LiveInChain(mem, chain);
      pointer := ExtendBy(need);
    }

    /** heap_dealloc of a pointer that heap_alloc gave out. */
    method Dealloc(pointer: nat)
      requires Valid() && pointer >= HEADER && pointer - HEADER in Live()
      modifies `mem, `free, `fl
      ensures Valid() && Live() == old(Live()) - {pointer - HEADER} && fl == [pointer - HEADER] + old(fl)
      ensures FreeBlocks() == old(FreeBlocks())[pointer - HEADER := old(Live())[pointer - HEADER]]
    {
      hide Tiled, Linked, Next, FreeExactly, Holdings, SameShape, FreeSizes;
      var header := pointer - HEADER;
      FreeKnown(mem, chain, fl);
      HeldSize(mem, chain, fl, header);
      FreedKeeps(mem, chain, free, fl, root, brk, header);
      mem := mem[header := mem[header].(used := false)];
      ghost var freed, list := mem, fl;
      AddFree(header);
      ShapeKeeps(freed, mem, chain, [header] + list, root, brk);
      FreedSizes(old(mem), mem, list, header);
    }
  }

  /** With nothing free a grant of whole words is at the end of the touched memory. */
  method GrantAtEnd(h: Heap, bytes: nat) returns (pointer: nat)
    requires h.Valid() && h.fl == [] && bytes > 0 && bytes % WORD == 0 && bytes + HEADER <= h.size - h.brk
    modifies h`mem, h`brk, h`free, h`chain, h`fl
    ensures h.Valid() && h.fl == [] && pointer == h.root + old(h.brk) + HEADER && h.brk == old(h.brk) + HEADER + bytes
    ensures h.Live() == old(h.Live())[h.root + old(h.brk) := bytes]
  {
    hide Tiled, Linked, FreeExactly, Holdings, Search, Lost, NoRun;
    assert h.FreeBlocks() == map[];
    SearchOfNone(h.root + h.brk, h.size - h.brk, bytes);
    pointer := h.AllocBestFit(bytes, WORD);
    FreeKnown(h.mem, h.chain, h.fl);
    SomeFree(h.mem, h.fl);
  }

  lemma SomeFree(mem: Mem, fl: seq<nat>)
    requires forall a :: a in fl ==> a in mem
    ensures fl != [] ==> FreeSizes(mem, fl) != map[]
  {
    if fl != [] {
      assert fl[0] in FreeSizes(mem, fl);
    }
  }

  /** Blocks of 40, 80 and 8 bytes, of which the first and then the second have been freed. */
  method TwoFreed() returns (h: Heap)
    ensures fresh(h) && h.Valid() && h.FreeBlocks() == map[4096 := 40, 4152 := 80] && h.fl == [4152, 4096]
    ensures h.root + h.brk == 4272 && h.size - h.brk == 848
  {
    hide Heap.Valid, Heap.FreeBlocks, Heap.Live;
    h := new Heap(4096, 1024);
    var p := GrantAtEnd(h, 40);
    var q := GrantAtEnd(h, 80);
    var _ := GrantAtEnd(h, 8);
    NoneFree(h);
    assert h.Live()[4096] == 40 && h.Live()[4152] == 80;
    h.Dealloc(p);
    h.Dealloc(q);
  }

  /** A run on which the search returns what is no block any more. */
  method SearchFails() returns (h: Heap, block: nat)
    ensures fresh(h) && h.Valid() && block != 0 && block !in h.chain
  {
    hide Heap.Valid, Heap.FreeBlocks, Heap.Searched, Lost, Search, NoRun;
    h := TwoFreed();
    SearchCanFail();
    block := h.FindBestFit(60);
  }

  lemma NoneFree(h: Heap)
    requires h.Valid() && h.fl == []
    ensures h.FreeBlocks() == map[]
  {
  }

  /** No free block is long enough and neither is the untouched memory. */
  ghost predicate NoRoom(mem: Mem, fl: seq<nat>, untouched: int, need: nat) {
    need + HEADER > untouched && forall a :: a in fl ==> a in mem && mem[a].size < need
  }

  /** No block in front of it in the list has room. */
  ghost predicate FirstWithRoom(mem: Mem, fl: seq<nat>, block: nat, need: nat) {
    exists k ::
      && 0 <= k < |fl| && fl[k] == block && block in mem && need <= mem[block].size
      && forall j :: 0 <= j < k ==> fl[j] in mem && mem[fl[j]].size < need
  }

  /** One block more is held, it was not held before, and it has the bytes asked for. */
  ghost predicate Given(live: map<nat, nat>, live': map<nat, nat>, pointer: nat, bytes: nat) {
    && pointer >= HEADER
    && var h := pointer - HEADER;
       h !in live && h in live' && live' == live[h := live'[h]] && bytes <= live'[h]
  }

  /** What clients hold does not overlap and lies in the touched memory. */
  lemma LiveApart(h: Heap, a: nat, b: nat)
    requires h.Valid() && a in h.Live() && b in h.Live() && a != b
    ensures a + HEADER + h.Live()[a] <= b || b + HEADER + h.Live()[b] <= a
    ensures h.root <= a && a + HEADER + h.Live()[a] <= h.root + h.brk <= h.root + h.size
  {
    var i :| 0 <= i < |h.chain| && h.chain[i] == a;
    var j :| 0 <= j < |h.chain| && h.chain[j] == b;
    hide Tiled, Linked, Next;
    Inside(h.mem, h.chain, h.root, h.brk, i);
    Inside(h.mem, h.chain, h.root, h.brk, j);
    if i < j {
      InOrder(h.mem, h.chain, h.root, h.brk, i, j);
    } else {
      InOrder(h.mem, h.chain, h.root, h.brk, j, i);
    }
  }

  lemma AlignmentCovers(bytes: nat, align: nat)
    ensures bytes <= Alignment(bytes, align)
  {
    if align > 0 {
      RemainderBelow(bytes, align);
    }
  }

  lemma RemainderBelow(x: nat, n: nat)
    requires n > 0
    ensures 0 <= x % n < n
  {
  }

  /** The alignments that stdlib.c asks for. */
  lemma AlignmentWhole(bytes: nat, align: nat)
    requires 0 < align <= 256 && align % WORD == 0
    ensures Alignment(bytes, align) % WORD == 0 && bytes <= Alignment(bytes, align)
  {
    AlignmentRounds(bytes, align);
    var r, k := Alignment(bytes, align), align / WORD;
    hide Alignment;
    WholeMultiple(r / align, k);
    assert r == (r / align) * align + r % align;
  }

  lemma WholeMultiple(q: nat, k: nat)
    ensures (q * (WORD * k)) % WORD == 0
  {
    Commuted(q, k);
    WordsOf(q * k);
  }

  lemma Commuted(q: nat, k: nat)
    ensures q * (WORD * k) == WORD * (q * k)
  {
  }

  lemma WordsOf(n: nat)
    ensures (WORD * n) % WORD == 0
  {
  }

  lemma LiveInChain(mem: Mem, chain: seq<nat>)
    requires forall a :: a in chain ==> a in mem
    ensures forall a :: a in Holdings(mem, chain) ==> a in chain
  {
  }

  lemma LiveStart(mem: Mem, chain: seq<nat>, root: nat, brk: nat, a: nat)
    requires Tiled(mem, chain, root, brk) && a in chain
    ensures a >= root > 0
  {
    var i :| 0 <= i < |chain| && chain[i] == a;
    Inside(mem, chain, root, brk, i);
  }

  lemma WholeWords(mem: Mem, chain: seq<nat>, root: nat, brk: nat)
    requires Tiled(mem, chain, root, brk)
    ensures brk / WORD * WORD == brk
  {
  }

  lemma SizeKept(mem: Mem, mem': Mem, a: nat)
    requires SameShape(mem, mem') && a in mem
    ensures a in mem' && mem'[a].size == mem[a].size
  {
  }

  /** Block `h` was cut to at least `need` bytes; every other block of `chain` is still there, and what is
      new is free. */
  ghost predicate Trimmed(mem: Mem, chain: seq<nat>, mem': Mem, chain': seq<nat>, h: nat, need: nat) {
    && (forall a :: a in chain ==> a in mem) && (forall a :: a in chain' ==> a in mem')
    && h in chain && h in chain' && need <= mem'[h].size <= mem[h].size && mem'[h].size <= need + HEADER
    && (forall a :: a in chain ==> a in chain' && mem'[a].used == mem[a].used)
    && (forall a :: a in chain && a != h ==> mem'[a].size == mem[a].size)
    && (forall a :: a in chain' && a !in chain ==> !mem'[a].used)
  }

  lemma TrimmedShape(mem: Mem, chain: seq<nat>, mid: Mem, mem': Mem, chain': seq<nat>, h: nat, need: nat)
    requires Trimmed(mem, chain, mid, chain', h, need) && SameShape(mid, mem')
    ensures Trimmed(mem, chain, mem', chain', h, need)
  {
  }

  lemma TrimmedSelf(mem: Mem, chain: seq<nat>, h: nat, need: nat)
    requires (forall a :: a in chain ==> a in mem) && h in chain && need <= mem[h].size <= need + HEADER
    ensures Trimmed(mem, chain, mem, chain, h, need)
  {
  }

  /** Cutting a block that nobody holds changes nothing that is held. */
  lemma HoldingsOfUnused(mem: Mem, chain: seq<nat>, mem': Mem, chain': seq<nat>, h: nat, need: nat)
    requires Trimmed(mem, chain, mem', chain', h, need) && !mem[h].used
    ensures forall a :: a in chain' ==> a in mem'
    ensures h in mem && h in mem' && need <= mem'[h].size <= need + HEADER && !mem'[h].used
    ensures Holdings(mem', chain') == Holdings(mem, chain) && h !in Holdings(mem, chain)
  {
  }

  lemma TakenKeeps(mem: Mem, chain: seq<nat>, free: nat, fl: seq<nat>, root: nat, brk: nat, k: nat)
    requires Tiled(mem, chain, root, brk) && Linked(mem, free, fl) && FreeExactly(mem, chain, fl) && k < |fl|
    ensures fl[k] in fl && fl[k] in mem
    ensures var mem' := mem[fl[k] := mem[fl[k]].(used := true)];
            Tiled(mem', chain, root, brk) && FreeExactly(mem', chain, Without(fl, k))
            && Holdings(mem', chain) == Holdings(mem, chain)[fl[k] := mem[fl[k]].size]
  {
    hide Tiled;
    assert fl[k] in fl;
    WithoutHas(fl, k);
    TiledFrame(mem, mem[fl[k] := mem[fl[k]].(used := true)], chain, root, brk);
  }

  /** A free block of the list with room for `need` bytes. */
  ghost predicate Usable(mem: Mem, fl: seq<nat>, h: nat, need: nat) {
    h in fl && h in mem && mem[h].size >= need
  }

  lemma ListEnds(mem: Mem, free: nat, fl: seq<nat>)
    requires Linked(mem, free, fl)
    ensures free == if fl == [] then 0 else fl[0]
    ensures forall i, j :: 0 <= i < j < |fl| ==> fl[i] != fl[j]
    ensures forall i :: 0 <= i < |fl| ==> fl[i] != 0 && fl[i] in mem
  {
  }

  lemma FollowLink(mem: Mem, free: nat, fl: seq<nat>, k: nat)
    requires Linked(mem, free, fl) && k < |fl|
    ensures fl[k] in fl && fl[k] in mem && fl[k] != 0 && mem[fl[k]].next == if k + 1 < |fl| then fl[k + 1] else 0
    ensures forall j :: 0 <= j < |fl| && j != k ==> fl[j] != fl[k]
  {
    assert k + 1 < |fl| ==> mem[fl[k]].next == fl[k + 1];
  }

  lemma Position(mem: Mem, chain: seq<nat>, fl: seq<nat>, k: nat) returns (i: nat)
    requires FreeExactly(mem, chain, fl) && k < |fl|
    ensures i < |chain| && chain[i] == fl[k] && fl[k] in mem && !mem[fl[k]].used
  {
    assert fl[k] in chain;
    i :| 0 <= i < |chain| && chain[i] == fl[k];
  }

  lemma NextInChain(mem: Mem, chain: seq<nat>, root: nat, brk: nat, i: nat)
    requires Tiled(mem, chain, root, brk) && i < |chain| && chain[i] in mem && Next(mem, chain[i]) != root + brk
    ensures i + 1 < |chain| && Next(mem, chain[i]) == chain[i + 1] && chain[i + 1] in mem && chain[i] != chain[i + 1]
    ensures chain[i + 1] < root + brk && brk / WORD * WORD == brk
  {
    Inside(mem, chain, root, brk, i);
    Inside(mem, chain, root, brk, i + 1);
    NextIs(mem, chain[i]);
  }

  lemma GrowKeeps(mem: Mem, chain: seq<nat>, free: nat, fl: seq<nat>, root: nat, brk: nat, i: nat, need: nat)
    requires Tiled(mem, chain, root, brk) && Linked(mem, free, fl) && FreeExactly(mem, chain, fl)
    requires i < |chain| && need % WORD == 0
    requires chain[i] in mem && Next(mem, chain[i]) == root + brk && !mem[chain[i]].used && mem[chain[i]].size < need
    ensures var mem' := mem[chain[i] := mem[chain[i]].(size := need)];
            && Tiled(mem', chain, root, brk + (need - mem[chain[i]].size)) && Linked(mem', free, fl)
            && FreeExactly(mem', chain, fl) && Holdings(mem', chain) == Holdings(mem, chain)
            && Usable(mem', fl, chain[i], need)
  {
    hide Tiled, Linked, Next;
    Inside(mem, chain, root, brk, i);
    TiledResize(mem, chain, root, brk, need);
    LinkedFrame(mem, mem[chain[i] := mem[chain[i]].(size := need)], free, fl);
  }

  lemma MergeKeeps(mem: Mem, chain: seq<nat>, free: nat, fl: seq<nat>, root: nat, brk: nat, i: nat, k: nat)
    returns (m: nat)
    requires Tiled(mem, chain, root, brk) && Linked(mem, free, fl) && FreeExactly(mem, chain, fl)
    requires i + 1 < |chain| && k < |fl| && fl[k] == chain[i] && chain[i] in mem && chain[i + 1] in mem
    requires !mem[chain[i]].used && !mem[chain[i + 1]].used
    ensures m < |fl| && m != k && fl[m] == chain[i + 1] && |Without(fl, m)| == |fl| - 1
    ensures Without(fl, m)[if m < k then k - 1 else k] == fl[k]
    ensures forall a, b :: 0 <= a < b < |fl| ==> fl[a] != fl[b]
    ensures var mem', chain' := Merged(mem, chain[i], chain[i + 1]), chain[..i + 1] + chain[i + 2..];
            && Tiled(mem', chain', root, brk) && Linked(mem', free, fl)
            && FreeExactly(mem', chain', Without(fl, m)) && Holdings(mem', chain') == Holdings(mem, chain)
  {
    hide Tiled, Linked, Next, FreeExactly, Holdings;
    Different(mem, chain, root, brk);
    TiledMerge(mem, chain, root, brk, i);
    LinkedFrame(mem, Merged(mem, chain[i], chain[i + 1]), free, fl);
    m := ListPosition(mem, chain, fl, i + 1);
    ListEnds(mem, free, fl);
    MergeBooks(mem, chain, fl, i, m);
  }

  lemma MergeBooks(mem: Mem, chain: seq<nat>, fl: seq<nat>, i: nat, m: nat)
    requires FreeExactly(mem, chain, fl) && i + 1 < |chain| && m < |fl| && fl[m] == chain[i + 1]
    requires forall a, b :: 0 <= a < |chain| && 0 <= b < |chain| && chain[a] == chain[b] ==> a == b
    requires forall a, b :: 0 <= a < b < |fl| ==> fl[a] != fl[b]
    requires chain[i] in mem && chain[i + 1] in mem && !mem[chain[i]].used && !mem[chain[i + 1]].used
    ensures var mem', chain' := Merged(mem, chain[i], chain[i + 1]), chain[..i + 1] + chain[i + 2..];
            FreeExactly(mem', chain', Without(fl, m)) && Holdings(mem', chain') == Holdings(mem, chain)
  {
    MergedHas(chain, i);
    WithoutHas(fl, m);
  }

  lemma ListPosition(mem: Mem, chain: seq<nat>, fl: seq<nat>, i: nat) returns (m: nat)
    requires FreeExactly(mem, chain, fl) && i < |chain| && chain[i] in mem && !mem[chain[i]].used
    ensures m < |fl| && fl[m] == chain[i]
  {
    assert chain[i] in chain;
    m :| 0 <= m < |fl| && fl[m] == chain[i];
  }

  lemma MergedHas(chain: seq<nat>, i: nat)
    requires i + 1 < |chain| && forall a, b :: 0 <= a < |chain| && 0 <= b < |chain| && chain[a] == chain[b] ==> a == b
    ensures forall x :: x in chain[..i + 1] + chain[i + 2..] <==> x in chain && x != chain[i + 1]
  {
    WithoutHas(chain, i + 1);
    assert Without(chain, i + 1) == chain[..i + 1] + chain[i + 2..];
  }

  /** A free block with room, and none with room is smaller. */
  ghost predicate BestOf(free: Frees, block: nat, need: nat) {
    block in free && free[block] >= need && forall a :: a in free && free[a] >= need ==> free[block] <= free[a]
  }

  lemma FreeKnown(mem: Mem, chain: seq<nat>, fl: seq<nat>)
    requires FreeExactly(mem, chain, fl)
    ensures forall a :: a in fl ==> a in mem && a in chain && !mem[a].used
  {
  }

  lemma FreeLaid(mem: Mem, chain: seq<nat>, free: nat, fl: seq<nat>, root: nat, brk: nat)
    requires Tiled(mem, chain, root, brk) && Linked(mem, free, fl) && FreeExactly(mem, chain, fl)
    ensures (forall a :: a in fl ==> a in mem) && Laid(FreeSizes(mem, fl), root + brk)
    ensures (forall i, j :: 0 <= i < j < |fl| ==> fl[i] != fl[j]) && forall a :: a in FreeSizes(mem, fl) ==> a in fl
  {
    hide Tiled;
    var f := FreeSizes(mem, fl);
    forall a | a in f ensures a != 0 && Behind(f, a) <= root + brk {
      var i :| 0 <= i < |chain| && chain[i] == a;
      Inside(mem, chain, root, brk, i);
    }
    forall a, b | a in f && b in f && a < b ensures Behind(f, a) <= b {
      var i :| 0 <= i < |chain| && chain[i] == a;
      var j :| 0 <= j < |chain| && chain[j] == b;
      Inside(mem, chain, root, brk, i);
      Inside(mem, chain, root, brk, j);
      if i < j {
        InOrder(mem, chain, root, brk, i, j);
      } else {
        InOrder(mem, chain, root, brk, j, i);
      }
    }
  }

  /** The block the loop is at: its place in the list, in the chain and in the map of free blocks. */
  lemma AtHead(mem: Mem, chain: seq<nat>, free: nat, fl: seq<nat>, root: nat, brk: nat, k: nat) returns (i: nat)
    requires Tiled(mem, chain, root, brk) && Linked(mem, free, fl) && FreeExactly(mem, chain, fl) && k < |fl|
    ensures i < |chain| && chain[i] == fl[k] && fl[k] in fl && fl[k] in mem && !mem[fl[k]].used && fl[k] != 0
    ensures mem[fl[k]].next == (if k + 1 < |fl| then fl[k + 1] else 0) && (forall a :: a in fl ==> a in mem)
    ensures fl[k] in FreeSizes(mem, fl) && FreeSizes(mem, fl)[fl[k]] == mem[fl[k]].size
    ensures fl[k..] != [] && fl[k..][0] == fl[k] && fl[k..][1..] == fl[k + 1..]
    ensures Behind(FreeSizes(mem, fl), fl[k]) == Next(mem, fl[k])
    ensures fl[k] + HEADER + mem[fl[k]].size / WORD * WORD == root + brk / WORD * WORD <==>
              Next(mem, fl[k]) == root + brk
    ensures Next(mem, fl[k]) == root + brk ==> Next(mem, fl[k]) !in FreeSizes(mem, fl)
    ensures Next(mem, fl[k]) != root + brk ==>
              && i + 1 < |chain| && chain[i + 1] == Next(mem, fl[k]) && chain[i + 1] in mem
              && chain[i + 1] < root + brk / WORD * WORD
    ensures Next(mem, fl[k]) != root + brk ==> (Next(mem, fl[k]) in FreeSizes(mem, fl) <==> !mem[Next(mem, fl[k])].used)
  {
    hide Tiled, Next, Linked;
    i := Position(mem, chain, fl, k);
    Inside(mem, chain, root, brk, i);
    FollowLink(mem, free, fl, k);
    if i + 1 < |chain| {
      NextInChain(mem, chain, root, brk, i);
      assert chain[i + 1] in chain;
    } else {
      forall j | 0 <= j < |chain| ensures chain[j] != root + brk {
        Inside(mem, chain, root, brk, j);
      }
    }
  }

  lemma MergedSizes(mem: Mem, a: nat, b: nat)
    requires a in mem && b in mem
    ensures Merged(mem, a, b).Keys == mem.Keys
    ensures forall x :: x in mem && x != a ==> Merged(mem, a, b)[x].size == mem[x].size
    ensures Merged(mem, a, b)[a].size == mem[a].size + mem[b].size + HEADER
  {
  }

  lemma SizesKept(mem: Mem, mem': Mem)
    requires SameShape(mem, mem')
    ensures mem.Keys == mem'.Keys && forall a :: a in mem ==> mem'[a].size == mem[a].size
  {
  }

  lemma GrownSizes(mem: Mem, fl: seq<nat>, block: nat, need: nat)
    requires (forall a :: a in fl ==> a in mem) && block in fl
    ensures FreeSizes(mem[block := mem[block].(size := need)], fl) == FreeSizes(mem, fl)[block := need]
  {
  }

  lemma FreedSizes(mem: Mem, mem': Mem, fl: seq<nat>, h: nat)
    requires h in mem && (forall a :: a in fl ==> a in mem) && SameShape(mem[h := mem[h].(used := false)], mem')
    ensures forall a :: a in [h] + fl ==> a in mem'
    ensures FreeSizes(mem', [h] + fl) == FreeSizes(mem, fl)[h := mem[h].size]
  {
  }

  lemma AppendedSizes(mem: Mem, fl: seq<nat>, end: nat, h: Header)
    requires (forall a :: a in fl ==> a in mem) && end !in fl
    ensures (forall a :: a in fl ==> a in mem[end := h]) && FreeSizes(mem[end := h], fl) == FreeSizes(mem, fl)
  {
  }

  /** The free blocks after a merge. */
  lemma SwallowedSizes(mem: Mem, mem': Mem, fl: seq<nat>, b: nat, m: nat)
    requires (forall a :: a in fl ==> a in mem) && mem'.Keys == mem.Keys && b in fl && m < |fl|
    requires fl[m] == b + HEADER + mem[b].size
    requires forall a :: a in mem && a != b ==> mem'[a].size == mem[a].size
    requires mem'[b].size == mem[b].size + mem[fl[m]].size + HEADER
    requires forall i, j :: 0 <= i < j < |fl| ==> fl[i] != fl[j]
    ensures (forall a :: a in Without(fl, m) ==> a in mem') && b in FreeSizes(mem, fl)
    ensures Behind(FreeSizes(mem, fl), b) == fl[m]
    ensures fl[m] in FreeSizes(mem, fl) && FreeSizes(mem, fl)[b] == mem[b].size
    ensures fl[m] !in FreeSizes(mem', Without(fl, m))
    ensures FreeSizes(mem', Without(fl, m)) == Swallow(FreeSizes(mem, fl), b)
  {
    hide Without;
    WithoutHas(fl, m);
    assert fl[m] in fl;
  }

  /** What is left of the scan after a merge. */
  lemma MergedScan(mem: Mem, mem': Mem, fl: seq<nat>, k: nat, m: nat, best: nat, least: nat, end: nat, room: nat,
                   need: nat)
    requires k < |fl| && m < |fl| && m != k && (forall a :: a in fl ==> a in mem) && fl[k] in mem && fl[m] in mem
    requires fl[m] == fl[k] + HEADER + mem[fl[k]].size && mem'.Keys == mem.Keys
    requires forall a :: a in mem && a != fl[k] ==> mem'[a].size == mem[a].size
    requires mem[fl[k]].size < need && mem'[fl[k]].size == mem[fl[k]].size + mem[fl[m]].size + HEADER
    requires forall i, j :: 0 <= i < j < |fl| ==> fl[i] != fl[j]
    ensures forall a :: a in Without(fl, m) ==> a in mem'
    ensures |Without(fl, m)| == |fl| - 1
    ensures Scan(FreeSizes(mem', Without(fl, m)), Without(fl, m)[if m < k then k - 1 else k..], best, least,
                 end, room, need)
         == Scan(FreeSizes(mem, fl), fl[k..], best, least, end, room, need)
  {
    hide Scan, FreeSizes, Swallow, Behind;
    SwallowedSizes(mem, mem', fl, fl[k], m);
    var rest := fl[k..];
    ScanSwallow(FreeSizes(mem, fl), rest, best, least, end, room, need);
    if m < k {
      assert Without(fl, m)[k - 1..] == rest;
    } else {
      assert Without(fl, m)[k..] == rest[..m - k] + rest[m - k + 1..];
      ScanDrop(FreeSizes(mem', Without(fl, m)), rest, m - k, best, least, end, room, need);
    }
  }

  lemma ScanEnd(free: Frees, rest: seq<nat>, best: nat, least: nat, end: nat, room: nat, need: nat)
    requires rest == []
    ensures Scan(free, rest, best, least, end, room, need) == Outcome(best, free)
  {
  }

  lemma SearchFacts(mem: Mem, chain: seq<nat>, free: nat, fl: seq<nat>, root: nat, brk: nat, room: nat, need: nat)
    requires Tiled(mem, chain, root, brk) && Linked(mem, free, fl) && FreeExactly(mem, chain, fl)
    ensures forall a :: a in fl ==> a in mem
    ensures var f := FreeSizes(mem, fl);
            var o := Search(f, fl, root + brk, room, need);
            && (o.block == 0 <==> NoRun(f, fl, root + brk, room, need))
            && (!Lost(f, fl, root + brk, room, need) && o.block != 0 ==> BestOf(o.free, o.block, need))
  {
    hide Tiled, Linked, FreeExactly, FreeSizes, Lost, NoRun, Search, Laid;
    FreeLaid(mem, chain, free, fl, root, brk);
    var f := FreeSizes(mem, fl);
    SearchNothing(f, fl, root + brk, room, need);
    if !Lost(f, fl, root + brk, room, need) && Search(f, fl, root + brk, room, need).block != 0 {
      SearchBest(f, fl, root + brk, room, need);
    }
  }

  /** When the search finds nothing, later ones are safe. */
  lemma SearchedNothing(mem: Mem, chain: seq<nat>, free: nat, fl: seq<nat>, root: nat, brk: nat, room: nat, need: nat,
                        fl': seq<nat>, end': nat)
    requires Tiled(mem, chain, root, brk) && Linked(mem, free, fl) && FreeExactly(mem, chain, fl)
    requires forall a :: a in fl ==> a in mem
    ensures var o := Search(FreeSizes(mem, fl), fl, root + brk, room, need);
            o.block == 0 ==> NeverLost(o.free, fl', end', need)
  {
    hide Tiled, Linked, FreeExactly, NeverLost, Search, Laid;
    FreeLaid(mem, chain, free, fl, root, brk);
    if Search(FreeSizes(mem, fl), fl, root + brk, room, need).block == 0 {
      NothingStaysSafe(FreeSizes(mem, fl), fl, root + brk, room, need, fl', end');
    }
  }

  /** What a losing search returns is inside a free block, so no block starts there. */
  lemma SearchedNoBlock(mem: Mem, chain: seq<nat>, free: nat, fl: seq<nat>, mem': Mem, chain': seq<nat>, fl': seq<nat>,
                        root: nat, brk: nat, brk': nat, room: nat, need: nat)
    requires Tiled(mem, chain, root, brk) && Linked(mem, free, fl) && FreeExactly(mem, chain, fl)
    requires Tiled(mem', chain', root, brk') && FreeExactly(mem', chain', fl')
    ensures (forall a :: a in fl ==> a in mem) && (forall a :: a in fl' ==> a in mem')
    ensures var f := FreeSizes(mem, fl);
            var o := Search(f, fl, root + brk, room, need);
            FreeSizes(mem', fl') == o.free && Lost(f, fl, root + brk, room, need) ==> o.block != 0 && o.block !in chain'
  {
    hide Tiled, Linked, FreeExactly, Lost, Search, Laid, Next;
    FreeLaid(mem, chain, free, fl, root, brk);
    FreeKnown(mem', chain', fl');
    var f := FreeSizes(mem, fl);
    var o := Search(f, fl, root + brk, room, need);
    if FreeSizes(mem', fl') == o.free && Lost(f, fl, root + brk, room, need) {
      LostInside(f, fl, root + brk, room, need);
      var a :| a in o.free && a < o.block && o.block < Behind(o.free, a);
      var i :| 0 <= i < |chain'| && chain'[i] == a;
      Inside(mem', chain', root, brk', i);
      Unused(mem', chain', root, brk', i, o.block);
    }
  }

  lemma HeldSize(mem: Mem, chain: seq<nat>, fl: seq<nat>, h: nat)
    requires FreeExactly(mem, chain, fl) && h in Holdings(mem, chain)
    ensures h in mem && Holdings(mem, chain)[h] == mem[h].size
  {
  }

  lemma FreedKeeps(mem: Mem, chain: seq<nat>, free: nat, fl: seq<nat>, root: nat, brk: nat, h: nat)
    requires Tiled(mem, chain, root, brk) && Linked(mem, free, fl) && FreeExactly(mem, chain, fl)
    requires h in Holdings(mem, chain)
    ensures h in mem && h != 0 && h !in fl
    ensures var mem' := mem[h := mem[h].(used := false)];
            && Tiled(mem', chain, root, brk) && Linked(mem', free, fl) && FreeExactly(mem', chain, [h] + fl)
            && Holdings(mem', chain) == Holdings(mem, chain) - {h}
  {
    hide Tiled, Linked;
    var mem' := mem[h := mem[h].(used := false)];
    LiveStart(mem, chain, root, brk, h);
    LinkedFrame(mem, mem', free, fl);
    TiledFrame(mem, mem', chain, root, brk);
  }

  lemma AppendKeeps(mem: Mem, chain: seq<nat>, free: nat, fl: seq<nat>, root: nat, brk: nat, need: nat)
    requires Tiled(mem, chain, root, brk) && Linked(mem, free, fl) && FreeExactly(mem, chain, fl) && need % WORD == 0
    ensures var end := root + brk;
            var mem' := mem[end := Header(need, true, 0, 0)];
            && end !in chain && Tiled(mem', chain + [end], root, brk + HEADER + need)
            && Linked(mem', free, fl) && FreeExactly(mem', chain + [end], fl)
            && Holdings(mem', chain + [end]) == Holdings(mem, chain)[end := need]
  {
    hide Tiled;
    TiledAppend(mem, chain, root, brk, Header(need, true, 0, 0));
    LinkedFrame(mem, mem[root + brk := Header(need, true, 0, 0)], free, fl);
  }

  /** The header of the block and the one cut off its end. */
  function Cut(mem: Mem, h: nat, need: nat): Mem
    requires h in mem && need + HEADER <= mem[h].size
  {
    mem[h := mem[h].(size := need)][h + HEADER + need := Header(mem[h].size - need - HEADER, false, 0, 0)]
  }

  lemma CutKeeps(mem: Mem, chain: seq<nat>, fl: seq<nat>, root: nat, brk: nat, i: nat, need: nat)
    requires Tiled(mem, chain, root, brk) && FreeExactly(mem, chain, fl) && i < |chain| && need % WORD == 0
    requires need <= mem[chain[i]].size && Next(mem, chain[i]) == root + brk
    ensures var mem' := mem[chain[i] := mem[chain[i]].(size := need)];
            var brk' := brk - (mem[chain[i]].size - need);
            brk' >= 0 && Tiled(mem', chain, root, brk') && FreeExactly(mem', chain, fl)
            && Trimmed(mem, chain, mem', chain, chain[i], need)
  {
    hide Tiled, Next;
    Inside(mem, chain, root, brk, i);
    TiledResize(mem, chain, root, brk, need);
  }

  lemma SplitKeeps(mem: Mem, chain: seq<nat>, fl: seq<nat>, root: nat, brk: nat, i: nat, need: nat)
    requires Tiled(mem, chain, root, brk) && FreeExactly(mem, chain, fl) && i < |chain| && need % WORD == 0
    requires need + HEADER < mem[chain[i]].size
    ensures var h, n := chain[i], chain[i] + HEADER + need;
            var mem', chain' := Cut(mem, h, need), chain[..i + 1] + [n] + chain[i + 1..];
            && n !in chain && n !in fl && n != 0 && h in mem
            && Tiled(mem', chain', root, brk) && FreeExactly(mem', chain', [n] + fl)
            && chain'[i] == h && Trimmed(mem, chain, mem', chain', h, need)
  {
    hide Tiled, Next, Cut;
    var h, n := chain[i], chain[i] + HEADER + need;
    SplitTiles(mem, chain, root, brk, i, need);
    assert chain == chain[..i + 1] + chain[i + 1..];
    CutIs(mem, h, need);
    Inside(mem, chain, root, brk, i);
  }

  lemma SplitTiles(mem: Mem, chain: seq<nat>, root: nat, brk: nat, i: nat, need: nat)
    requires Tiled(mem, chain, root, brk) && i < |chain| && need % WORD == 0
    requires chain[i] in mem && need + HEADER < mem[chain[i]].size
    ensures var n := chain[i] + HEADER + need;
            n !in chain && n != 0 && Tiled(Cut(mem, chain[i], need), chain[..i + 1] + [n] + chain[i + 1..], root, brk)
  {
    hide Tiled, Cut;
    var h, n := chain[i], chain[i] + HEADER + need;
    Inside(mem, chain, root, brk, i);
    Unused(mem, chain, root, brk, i, n);
    CutIs(mem, h, need);
    TiledSplit(mem, Cut(mem, h, need), chain, root, brk, i, n);
  }

  lemma CutIs(mem: Mem, h: nat, need: nat)
    requires h in mem && need + HEADER < mem[h].size
    ensures var mem' := Cut(mem, h, need);
            && mem'.Keys == mem.Keys + {h + HEADER + need} && mem'[h].used == mem[h].used && mem'[h].size == need
            && mem'[h + HEADER + need] == Header(mem[h].size - need - HEADER, false, 0, 0)
            && (forall a :: a in mem && a != h && a != h + HEADER + need ==> mem'[a] == mem[a])
  {
  }

  /** Changing links keeps everything else. */
  lemma ShapeKeeps(mem: Mem, mem': Mem, chain: seq<nat>, fl: seq<nat>, root: nat, brk: nat)
    requires Tiled(mem, chain, root, brk) && FreeExactly(mem, chain, fl) && SameShape(mem, mem')
    ensures Tiled(mem', chain, root, brk) && FreeExactly(mem', chain, fl)
    ensures Holdings(mem', chain) == Holdings(mem, chain)
  {
    hide Tiled;
    TiledFrame(mem, mem', chain, root, brk);
  }

  /** An address inside a block is not that of a block. */
  lemma Unused(mem: Mem, chain: seq<nat>, root: nat, brk: nat, i: nat, n: nat)
    requires Tiled(mem, chain, root, brk) && i < |chain| && chain[i] < n < Next(mem, chain[i])
    ensures n !in chain
  {
    forall j | 0 <= j < |chain| ensures chain[j] != n {
      NextIs(mem, chain[j]);
      if j < i {
        InOrder(mem, chain, root, brk, j, i);
      } else if i < j {
        InOrder(mem, chain, root, brk, i, j);
      }
    }
  }
}
