/** Page tables and the copy of an address space that fork makes (src/paging.c). A frame's contents are one value,
    and copying a frame is one step; what kmalloc_a returns is a number that was not in use. */
module Paging {
  import opened Bitset

  const ENTRIES := 1024

  type Content = nat

  datatype Page = Page(frame: nat, present: bool, rw: bool, user: bool, accessed: bool, dirty: bool)

  const EMPTY := Page(0, false, false, false, false, false)

  // ---------------------------------------------------------------- counting frames

  /** Entries that have a frame. */
  function Held(table: seq<Page>): nat {
    if table == [] then 0 else Held(table[..|table| - 1]) + (if table[|table| - 1].frame != 0 then 1 else 0)
  }

  lemma HeldStep(table: seq<Page>, i: nat)
    requires i < |table|
    ensures Held(table[..i + 1]) == Held(table[..i]) + (if table[i].frame != 0 then 1 else 0)
  {
    assert table[..i + 1][..i] == table[..i];
  }

  lemma {:induction false} HeldPrefix(table: seq<Page>, i: nat)
    requires i <= |table|
    ensures Held(table[..i]) <= Held(table)
    decreases |table|
  {
    if i < |table| {
      HeldPrefix(table[..|table| - 1], i);
      assert table[..|table| - 1][..i] == table[..i];
    } else {
      assert table[..i] == table;
    }
  }

  /** Frames that a copy of the first tables of a directory needs. */
  function Wanted(dir: seq<nat>, kernel: seq<nat>, tables: map<nat, seq<Page>>): nat {
    if dir == [] then 0
    else
      var i := |dir| - 1;
      Wanted(dir[..i], kernel, tables) +
      (if dir[i] in tables && !(i < |kernel| && kernel[i] == dir[i]) then Held(tables[dir[i]]) else 0)
  }

  lemma WantedStep(dir: seq<nat>, kernel: seq<nat>, tables: map<nat, seq<Page>>, i: nat)
    requires i < |dir|
    ensures Wanted(dir[..i + 1], kernel, tables) == Wanted(dir[..i], kernel, tables) +
      (if dir[i] in tables && !(i < |kernel| && kernel[i] == dir[i]) then Held(tables[dir[i]]) else 0)
  {
    assert dir[..i + 1][..i] == dir[..i];
  }

  lemma {:induction false} WantedPrefix(dir: seq<nat>, kernel: seq<nat>, tables: map<nat, seq<Page>>, i: nat)
    requires i <= |dir|
    ensures Wanted(dir[..i], kernel, tables) <= Wanted(dir, kernel, tables)
    decreases |dir|
  {
    if i < |dir| {
      WantedPrefix(dir[..|dir| - 1], kernel, tables, i);
      assert dir[..|dir| - 1][..i] == dir[..i];
    } else {
      assert dir[..i] == dir;
    }
  }

  lemma {:induction false} SetSize(s: set<nat>, n: nat)
    requires forall k: nat :: k in s <==> k < n
    ensures |s| == n
  {
    if n > 0 {
      SetSize(s - {n - 1}, n - 1);
    } else {
      assert s == {};
    }
  }

  /** While fewer than `n` of the numbers below `n` are taken, one is left. */
  lemma OneLeft(s: set<nat>, n: nat)
    requires (forall k :: k in s ==> k < n) && |s| < n
    ensures exists k: nat :: k < n && k !in s
  {
    if forall k: nat :: k < n ==> k in s {
      SetSize(s, n);
    }
  }

  // ---------------------------------------------------------------- invariants

  /** A frame of a table outside `shared` is in no second entry, and entry frames are allocated. */
  ghost predicate Exclusive(tables: map<nat, seq<Page>>, shared: set<nat>, taken: set<nat>) {
    && (forall t, i :: t in tables && 0 <= i < |tables[t]| && tables[t][i].frame != 0 ==> tables[t][i].frame in taken)
    && (forall t, i, u, j ::
          SameFrame(tables, t, i, u, j) && t !in shared ==> t == u && i == j)
  }

  predicate SameFrame(tables: map<nat, seq<Page>>, t: nat, i: int, u: nat, j: int) {
    && t in tables && u in tables && 0 <= i < |tables[t]| && 0 <= j < |tables[u]|
    && tables[t][i].frame == tables[u][j].frame != 0
  }

  /** Directories name tables; a table outside the kernel's is named once. */
  ghost predicate Placed(dirs: map<nat, seq<nat>>, tables: map<nat, seq<Page>>, kernel: seq<nat>) {
    && |kernel| == ENTRIES
    && (forall t :: t in tables ==> |tables[t]| == ENTRIES && t != 0)
    && (forall d :: d in dirs ==> |dirs[d]| == ENTRIES)
    && (forall d, i :: d in dirs && 0 <= i < |dirs[d]| && dirs[d][i] != 0 ==> dirs[d][i] in tables)
    && (forall d, i :: d in dirs && 0 <= i < |dirs[d]| && dirs[d][i] != 0 && dirs[d][i] in kernel ==>
        dirs[d][i] == kernel[i])
    && (forall d, i :: d in dirs && 0 <= i < |dirs[d]| && kernel[i] != 0 ==> dirs[d][i] == kernel[i])
    && (forall d, i, e, j :: SameTable(dirs, d, i, e, j) && dirs[d][i] !in kernel ==> d == e && i == j)
  }

  predicate SameTable(dirs: map<nat, seq<nat>>, d: nat, i: int, e: nat, j: int) {
    && d in dirs && e in dirs && 0 <= i < |dirs[d]| && 0 <= j < |dirs[e]|
    && dirs[d][i] == dirs[e][j] != 0
  }

  ghost function Shared(kernel: seq<nat>): set<nat> {
    set t | t in kernel
  }

  /** `copy` maps what `table` maps, to frames that were free, with the same contents. */
  ghost predicate Copied(table: seq<Page>, copy: seq<Page>, taken: set<nat>, memory: seq<Content>,
                         memory': seq<Content>) {
    && |copy| == |table|
    && (forall i :: 0 <= i < |table| ==> CopiedPage(table[i], copy[i], taken, memory, memory'))
    && (forall i, j :: 0 <= i < j < |copy| && copy[i].frame != 0 ==> copy[i].frame != copy[j].frame)
  }

  ghost predicate CopiedPage(page: Page, copy: Page, taken: set<nat>, memory: seq<Content>, memory': seq<Content>) {
    if page.frame == 0 then copy == EMPTY
    else
      && copy.frame != 0 && copy.frame !in taken && copy == page.(frame := copy.frame)
      && page.frame < |memory| && copy.frame < |memory'| && memory'[copy.frame] == memory[page.frame]
  }

  /** The first `i` entries are copied, and nothing that was there has changed. */
  ghost predicate Cloning(table: seq<Page>, copy: seq<Page>, i: nat, taken: set<nat>, taken': set<nat>,
                          memory: seq<Content>, memory': seq<Content>) {
    && i <= |table| == |copy| && taken <= taken' && |memory| == |memory'| && 0 in taken
    && (forall j :: i <= j < |copy| ==> copy[j] == EMPTY)
    && (forall j :: 0 <= j < |table| && table[j].frame != 0 ==> table[j].frame in taken)
    && (forall f :: f in taken' ==> f < |memory|)
    && (forall f :: f in taken ==> memory'[f] == memory[f])
    && (forall j :: 0 <= j < i ==> CopiedPage(table[j], copy[j], taken, memory, memory'))
    && (forall j :: 0 <= j < i && copy[j].frame != 0 ==> copy[j].frame in taken')
    && (forall j, k :: 0 <= j < k < i && copy[j].frame != 0 ==> copy[j].frame != copy[k].frame)
  }

  lemma CloningStart(table: seq<Page>, copy: seq<Page>, taken: set<nat>, memory: seq<Content>)
    requires |copy| == |table| && (forall j :: 0 <= j < |copy| ==> copy[j] == EMPTY) && 0 in taken
    requires forall j :: 0 <= j < |table| && table[j].frame != 0 ==> table[j].frame in taken
    requires forall f :: f in taken ==> f < |memory|
    ensures Cloning(table, copy, 0, taken, taken, memory, memory) && Held(table[..0]) == 0
  {
  }

  lemma CloningUntouched(table: seq<Page>, copy: seq<Page>, i: nat, taken: set<nat>, taken': set<nat>,
                         memory: seq<Content>, memory': seq<Content>)
    requires Cloning(table, copy, i, taken, taken', memory, memory') && i < |table|
    ensures copy[i] == EMPTY && (i + 1 < |table| ==> copy[i + 1] == EMPTY)
    ensures if table[i].frame == 0 then Cloning(table, copy, i + 1, taken, taken', memory, memory')
              else table[i].frame < |memory'|
  {
  }

  lemma CloningStep(table: seq<Page>, copy: seq<Page>, i: nat, taken: set<nat>, taken': set<nat>,
                    memory: seq<Content>, memory': seq<Content>, page: Page)
    requires Cloning(table, copy, i, taken, taken', memory, memory') && i < |table| && table[i].frame != 0
    requires page.frame !in taken' && page.frame < |memory| && page == table[i].(frame := page.frame)
    requires table[i].frame < |memory'|
    ensures Cloning(table, copy[i := page], i + 1, taken, taken' + {page.frame}, memory,
                    memory'[page.frame := memory'[table[i].frame]])
  {
    var m, c := memory'[page.frame := memory'[table[i].frame]], copy[i := page];
    forall j | 0 <= j < i + 1 ensures CopiedPage(table[j], c[j], taken, memory, m) {
      if j < i && table[j].frame != 0 {
        assert copy[j].frame != page.frame;
      }
    }
  }

  lemma CloningDone(table: seq<Page>, copy: seq<Page>, taken: set<nat>, taken': set<nat>, memory: seq<Content>,
                    memory': seq<Content>)
    requires Cloning(table, copy, |table|, taken, taken', memory, memory')
    ensures Copied(table, copy, taken, memory, memory') && taken <= taken'
    ensures forall i :: 0 <= i < |copy| && copy[i].frame != 0 ==> copy[i].frame in taken'
    ensures forall f :: f in taken ==> f < |memory'| && memory'[f] == memory[f]
  {
  }

  ghost predicate Below(dirs: map<nat, seq<nat>>, tables: map<nat, seq<Page>>, top: nat) {
    top > 0 && (forall t :: t in tables ==> t < top) && (forall d :: d in dirs ==> d < top)
  }

  function PageAt(dirs: map<nat, seq<nat>>, tables: map<nat, seq<Page>>, d: nat, p: nat): Page
    requires d in dirs && |dirs[d]| == ENTRIES && p < ENTRIES * ENTRIES
    requires forall t :: t in tables ==> |tables[t]| == ENTRIES
  {
    Cell(dirs, tables, d, p / ENTRIES, p % ENTRIES)
  }

  function Cell(dirs: map<nat, seq<nat>>, tables: map<nat, seq<Page>>, d: nat, i: nat, j: nat): Page
    requires d in dirs && |dirs[d]| == ENTRIES && i < ENTRIES && j < ENTRIES
    requires forall t :: t in tables ==> |tables[t]| == ENTRIES
  {
    var t := dirs[d][i];
    if t in tables then tables[t][j] else EMPTY
  }

  /** A directory with one more table. */
  function WithTable(dir: seq<nat>, i: nat, t: nat): seq<nat>
    requires i < |dir|
  {
    dir[i := t]
  }

  class Pages {
    const frames: Bits
    var memory: seq<Content>
    var tables: map<nat, seq<Page>>
    var dirs: map<nat, seq<nat>>
    /** kernel_page_directory. */
    const kernelDir: nat
    /** Every address from here on is unused. */
    var top: nat

    /** Between operations: frame 0 is taken, so that no page is given it by accident. */
    ghost predicate Valid()
      reads this, frames, frames.start
    {
      && FramesOk() && 0 in frames.Set() && kernelDir in dirs
      && Placed(dirs, tables, dirs[kernelDir])
      && Exclusive(tables, Shared(dirs[kernelDir]), frames.Set())
      && Below(dirs, tables, top)
    }

    ghost predicate FramesOk()
      reads this, frames, frames.start
    {
      frames.Valid() && |memory| == frames.len
    }

    /** What directory `d` has at page number `p`. */
    ghost function At(d: nat, p: nat): Page
      requires d in dirs && |dirs[d]| == ENTRIES && p < ENTRIES * ENTRIES
      requires forall t :: t in tables ==> |tables[t]| == ENTRIES
      reads this
    {
      PageAt(dirs, tables, d, p)
    }

    /** paging_init up to the copy: page `p` of the kernel's directory gets frame `p`. */
    constructor (bytes: nat, contents: seq<Content>, start: nat, count: nat)
      requires |contents| == 8 * bytes && start > 0 && 0 < count <= 8 * bytes && count <= ENTRIES * ENTRIES
      ensures Valid() && fresh(frames) && fresh(frames.start) && dirs.Keys == {kernelDir} && memory == contents
      ensures forall p: nat :: p < ENTRIES * ENTRIES ==>
                At(kernelDir, p) == if p < count then Page(p, true, false, true, false, false) else EMPTY
      ensures forall k: nat :: k in frames.Set() <==> k < count
    {
      frames := new Bits(bytes);
      memory := contents;
      kernelDir := start;
      top := start + 1;
      tables := map[];
      dirs := map[start := seq(ENTRIES, i => 0)];
      new;
      InitMap(count);
    }
    /** alloc_frame while a frame is left: the entry gets the lowest free one. */
    method AllocFrame(page: Page, rw: bool, user: bool) returns (r: Page)
      requires FramesOk() && |frames.Set()| < frames.len
      modifies frames.start
      ensures FramesOk() && r.frame !in old(frames.Set()) && frames.Set() == old(frames.Set()) + {r.frame}
      ensures |frames.Set()| == |old(frames.Set())| + 1 && r.frame < frames.len
      ensures forall k: nat :: k < r.frame ==> k in old(frames.Set())
      ensures r == page.(frame := r.frame, present := true, rw := rw, user := user)
    {
      OneLeft(frames.Set(), frames.len);
      ghost var taken := frames.Set();
      ghost var left: nat :| left < frames.len && left !in taken;
      var idx := frames.FirstUnset();
      assert left !in frames.Set();
      frames.Add(idx);
      r := page.(frame := idx, present := true, rw := rw, user := user);
    }

    /** page_table_clone. */
    method TableClone(table: seq<Page>) returns (copy: seq<Page>)
      requires FramesOk() && 0 in frames.Set() && |frames.Set()| + Held(table) <= frames.len
      requires forall i :: 0 <= i < |table| && table[i].frame != 0 ==> table[i].frame in frames.Set()
      modifies `memory, frames.start
      ensures FramesOk() && |frames.Set()| == |old(frames.Set())| + Held(table)
      ensures Copied(table, copy, old(frames.Set()), old(memory), memory)
      ensures old(frames.Set()) <= frames.Set()
      ensures forall i :: 0 <= i < |copy| && copy[i].frame != 0 ==> copy[i].frame in frames.Set()
      ensures forall f :: f in old(frames.Set()) ==> f < |memory| && memory[f] == old(memory)[f]
    {
      hide Held, Cloning;
      ghost var taken := frames.Set();
      copy := seq(|table|, i => EMPTY);
      CloningStart(table, copy, taken, memory);
      for i := 0 to |table|
        invariant FramesOk() && |frames.Set()| == |taken| + Held(table[..i]) && |copy| == |table|
        invariant i < |table| ==> copy[i] == EMPTY
        invariant Cloning(table, copy, i, taken, frames.Set(), old(memory), memory)
      {
        HeldStep(table, i);
        HeldPrefix(table, i + 1);
        CloningUntouched(table, copy, i, taken, frames.Set(), old(memory), memory);
        if table[i].frame != 0 {
          ghost var before, set0 := memory, frames.Set();
          var newPage := AllocFrame(copy[i], false, true);
          newPage := table[i].(frame := newPage.frame);
          memory := memory[newPage.frame := memory[table[i].frame]];
          CloningStep(table, copy, i, taken, set0, old(memory), before, newPage);
          copy := copy[i := newPage];
        }
      }
      CloningDone(table, copy, taken, frames.Set(), old(memory), memory);
      assert table[..|table|] == table;
    }

    /** get_page: the table of page `p`, made if there is none. */
    method GetPage(d: nat, p: nat) returns (t: nat)
      requires d in dirs && |dirs[d]| == ENTRIES && p < ENTRIES * ENTRIES && Below(dirs, tables, top)
      modifies `tables, `dirs, `top
      ensures Below(dirs, tables, top)
      ensures d in dirs && |dirs[d]| == ENTRIES && t == dirs[d][p / ENTRIES] && t != 0
      ensures old(dirs)[d][p / ENTRIES] != 0 ==> tables == old(tables) && dirs == old(dirs)
      ensures old(dirs)[d][p / ENTRIES] == 0 ==> t == old(top) && tables == old(tables)[t := seq(ENTRIES, i => EMPTY)]
      ensures old(dirs)[d][p / ENTRIES] == 0 ==> dirs == old(dirs)[d := WithTable(old(dirs)[d], p / ENTRIES, t)]
    {
      var tableIndex := p / ENTRIES;
      if dirs[d][tableIndex] == 0 {
        tables := tables[top := seq(ENTRIES, i => EMPTY)];
        dirs := dirs[d := WithTable(dirs[d], tableIndex, top)];
        top := top + 1;
      }
      t := dirs[d][tableIndex];
    }

    /** The mapping loop of paging_init. */
    method InitMap(count: nat)
      requires FramesOk() && frames.Set() == {} && 0 < count <= frames.len && count <= ENTRIES * ENTRIES
      requires tables == map[] && dirs == map[kernelDir := seq(ENTRIES, i => 0)] && Below(dirs, tables, top)
      modifies `tables, `dirs, `top, frames.start
      ensures Valid() && dirs.Keys == {kernelDir}
      ensures forall p: nat :: p < ENTRIES * ENTRIES ==>
                At(kernelDir, p) == if p < count then Page(p, true, false, true, false, false) else EMPTY
      ensures forall k: nat :: k in frames.Set() <==> k < count
    {
      hide KernelOnly, MappedUpTo, Below, Exclusive, Placed, PageAt, Members;
      KernelStart(kernelDir);
      for p := 0 to count
        invariant FramesOk() && forall k: nat :: k in frames.Set() <==> k < p
        invariant KernelOnly(dirs, tables, kernelDir) && Below(dirs, tables, top)
                    && MappedUpTo(dirs, tables, kernelDir, p)
        modifies `tables, `dirs, `top, frames.start
      {
        SetSize(frames.Set(), p);
        MapNext(p);
      }
      KernelBasics(dirs, tables, kernelDir, top, 0);
      KernelReady(dirs, tables, kernelDir, count, frames.Set());
    }

    /** One round of that loop. */
    method MapNext(p: nat)
      requires FramesOk() && (forall k: nat :: k in frames.Set() <==> k < p) && |frames.Set()| == p < frames.len
      requires KernelOnly(dirs, tables, kernelDir) && Below(dirs, tables, top) && MappedUpTo(dirs, tables, kernelDir, p)
      requires p < ENTRIES * ENTRIES
      modifies `tables, `dirs, `top, frames.start
      ensures FramesOk() && forall k: nat :: k in frames.Set() <==> k < p + 1
      ensures KernelOnly(dirs, tables, kernelDir) && Below(dirs, tables, top)
      ensures MappedUpTo(dirs, tables, kernelDir, p + 1)
    {
      hide KernelOnly, MappedUpTo, Below, Members;
      KernelBasics(dirs, tables, kernelDir, top, p / ENTRIES);
      var t := GetPage(kernelDir, p);
      TableMade(old(dirs), old(tables), dirs, tables, kernelDir, p, t);
      KernelBasics(dirs, tables, kernelDir, top, p / ENTRIES);
      assert p !in frames.Set();
      var page := AllocFrame(tables[t][p % ENTRIES], false, true);
      EntrySet(dirs, tables, kernelDir, p, page);
      BelowEntry(dirs, tables, top, t, tables[t][p % ENTRIES := page]);
      tables := tables[t := tables[t][p % ENTRIES := page]];
    }

    /** page_directory_clone: the kernel's tables are shared, every other table is copied. */
    method DirectoryClone(dir: nat) returns (newDir: nat)
      requires Valid() && dir in dirs
      requires |frames.Set()| + Wanted(dirs[dir], dirs[kernelDir], tables) <= frames.len
      modifies `memory, `tables, `dirs, `top, frames.start
      ensures Valid() && newDir !in old(dirs) && newDir in dirs && dirs == old(dirs)[newDir := dirs[newDir]]
      ensures forall t :: t in old(tables) ==> t in tables && tables[t] == old(tables)[t]
      ensures old(frames.Set()) <= frames.Set()
      ensures forall f :: f in old(frames.Set()) ==> f < |memory| == |old(memory)| && memory[f] == old(memory)[f]
      ensures Forked(old(dirs)[dir], old(dirs)[kernelDir], old(tables), dirs[newDir], tables, old(frames.Set()),
                     old(memory), memory)
      ensures forall e, p: nat :: e in old(dirs) && p < ENTRIES * ENTRIES ==> At(e, p) == old(At(e, p))
      ensures forall p: nat :: p < ENTRIES * ENTRIES ==>
                Forks(At(dir, p), At(newDir, p), dirs[kernelDir][p / ENTRIES] != 0, old(frames.Set()), memory)
    {
      hide Wanted, Exclusive, Placed, Below, Members, Copying, Copied, Forked, Forks, PageAt;
      ghost var taken, kernel, first := frames.Set(), dirs[kernelDir], top + 1;
      newDir := top;
      top := top + 1;
      var row: seq<nat> := seq(ENTRIES, i => 0);
      CopyingStart(dirs, tables, dir, kernel, row, newDir, taken, memory);
      for i := 0 to ENTRIES
        invariant FramesOk() && taken <= frames.Set() && |row| == ENTRIES && dirs == old(dirs)
        invariant |frames.Set()| == |taken| + Wanted(dirs[dir][..i], kernel, old(tables))
        invariant Copying(dirs[dir], kernel, old(tables), row, i, tables, first, top, taken, frames.Set(),
                          old(memory), memory)
        modifies `memory, `tables, `top, frames.start
      {
        CopyingFacts(dirs[dir], kernel, old(tables), row, i, tables, first, top, taken, frames.Set(),
                     old(memory), memory);
        WantedStep(dirs[dir], kernel, old(tables), i);
        WantedPrefix(dirs[dir], kernel, old(tables), i + 1);
        var t := dirs[dir][i];
        if t != 0 {
          if t == dirs[kernelDir][i] {
            CopyingShare(dirs[dir], kernel, old(tables), row, i, tables, first, top, taken, frames.Set(),
                         old(memory), memory);
            row := WithTable(row, i, t);
          } else {
            ghost var was, set0 := memory, frames.Set();
            var copy := TableClone(tables[t]);
            CopyingTable(dirs[dir], kernel, old(tables), row, i, tables, first, top, taken, set0, frames.Set(),
                         old(memory), was, memory, copy);
            tables := tables[top := copy];
            row := WithTable(row, i, top);
            top := top + 1;
          }
        }
      }
      CopyingDone(dirs, dir, kernel, old(tables), row, tables, newDir, top, taken, frames.Set(), old(memory), memory);
      ForkedSpaces(dirs, dirs[newDir := row], dir, newDir, kernel, old(tables), tables, taken, old(memory), memory);
      dirs := dirs[newDir := row];
    }

    /** What syscall_sbrk does for one page: it gets a frame if it has none. */
    method MapPage(d: nat, p: nat)
      requires Valid() && d in dirs && p < ENTRIES * ENTRIES && dirs[kernelDir][p / ENTRIES] == 0 && d != kernelDir
      requires |frames.Set()| < frames.len
      modifies `tables, `dirs, `top, frames.start
      ensures Valid() && dirs.Keys == old(dirs).Keys && dirs[kernelDir] == old(dirs)[kernelDir]
      ensures At(d, p).frame != 0 && |frames.Set()| <= |old(frames.Set())| + 1 && old(frames.Set()) <= frames.Set()
      ensures var was, page := old(At(d, p)), At(d, p);
              if was.frame != 0 then page == was
              else page == Page(page.frame, true, true, true, was.accessed, was.dirty)
                   && page.frame !in old(frames.Set())
      ensures forall e, q: nat :: e in dirs && q < ENTRIES * ENTRIES && (e != d || q != p) ==> At(e, q) == old(At(e, q))
    {
      hide Exclusive, Placed, Below, Members, PageAt;
      UserTable(dirs, tables, d, p, kernelDir, frames.Set(), top);
      var t := GetPage(d, p);
      TablePlaced(old(dirs), old(tables), dirs, tables, d, p, kernelDir, t, frames.Set(), old(top));
      if tables[t][p % ENTRIES].frame == 0 {
        ghost var taken := frames.Set();
        var page := AllocFrame(tables[t][p % ENTRIES], true, true);
        EntryPlaced(dirs, tables, d, p, kernelDir, taken, frames.Set(), page);
        BelowEntry(dirs, tables, top, t, tables[t][p % ENTRIES := page]);
        tables := tables[t := tables[t][p % ENTRIES := page]];
      }
    }

    /** The loop of syscall_sbrk for directory `d`, page by page from `brk` on. */
    method Sbrk(d: nat, brk: nat, bytes: nat)
      requires Valid() && d in dirs && d != kernelDir && brk + bytes + PAGE <= ENTRIES * ENTRIES * PAGE
      requires forall p: nat :: brk / PAGE <= p < ENTRIES * ENTRIES && p * PAGE < brk + bytes ==>
                 dirs[kernelDir][p / ENTRIES] == 0
      requires |frames.Set()| + bytes / PAGE + 1 <= frames.len
      modifies `tables, `dirs, `top, frames.start
      ensures Valid() && dirs.Keys == old(dirs).Keys
      ensures old(frames.Set()) <= frames.Set()
      ensures forall p: nat :: p < ENTRIES * ENTRIES && Visited(brk, bytes, p) ==>
                var was, page := old(At(d, p)), At(d, p);
                if was.frame != 0 then page == was
                else page == Page(page.frame, true, true, true, was.accessed, was.dirty)
                     && page.frame !in old(frames.Set())
      ensures forall e, q: nat :: e in dirs && q < ENTRIES * ENTRIES && (e != d || !Visited(brk, bytes, q)) ==>
                At(e, q) == old(At(e, q))
    {
      hide Exclusive, Placed, Below, Members, PageAt;
      var i := brk;
      ghost var k: nat := 0;
      PlacedSizes(dirs, tables, dirs[kernelDir]);
      while i < brk + bytes
        invariant i == brk + k * PAGE < brk + bytes + PAGE && i / PAGE == brk / PAGE + k
        invariant Valid() && dirs.Keys == old(dirs).Keys && dirs[kernelDir] == old(dirs)[kernelDir]
        invariant |frames.Set()| <= |old(frames.Set())| + k && old(frames.Set()) <= frames.Set()
        invariant Sizes(dirs, tables)
        invariant forall p: nat :: p < ENTRIES * ENTRIES && brk / PAGE <= p < brk / PAGE + k ==>
                    Given(old(At(d, p)), At(d, p), old(frames.Set()))
        invariant forall e, q: nat :: e in dirs && q < ENTRIES * ENTRIES
                    && (e != d || !(brk / PAGE <= q < brk / PAGE + k))
                    ==> At(e, q) == old(At(e, q))
        modifies `tables, `dirs, `top, frames.start
      {
        MapPage(d, i / PAGE);
        PlacedSizes(dirs, tables, dirs[kernelDir]);
        i := i + PAGE;
        k := k + 1;
      }
    }
  }

  const PAGE := 0x1000

  /** A page that had a frame is left alone; another gets a free one, for the user to read and write. */
  predicate Given(before: Page, after: Page, taken: set<nat>) {
    if before.frame != 0 then after == before
    else after == Page(after.frame, true, true, true, before.accessed, before.dirty) && after.frame !in taken
  }

  /** The pages the loop comes to. */
  predicate Visited(brk: nat, bytes: nat, p: nat) {
    brk / PAGE <= p && (p - brk / PAGE) * PAGE < bytes
  }

  /** They are all pages of the new memory exactly when what `brk` and the size have beyond whole
      pages fits one page. */
  lemma SbrkCovers(brk: nat, bytes: nat)
    requires bytes > 0
    ensures (forall p: nat :: brk / PAGE <= p <= (brk + bytes - 1) / PAGE ==> Visited(brk, bytes, p)) <==>
      brk % PAGE + (bytes - 1) % PAGE < PAGE
  {
    var first, last := brk / PAGE, (brk + bytes - 1) / PAGE;
    if brk % PAGE + (bytes - 1) % PAGE < PAGE {
      assert last == first + (bytes - 1) / PAGE;
    } else {
      assert last == first + (bytes - 1) / PAGE + 1;
      assert !Visited(brk, bytes, last);
    }
  }

  ghost predicate Sizes(dirs: map<nat, seq<nat>>, tables: map<nat, seq<Page>>) {
    (forall t :: t in tables ==> |tables[t]| == ENTRIES) && forall d :: d in dirs ==> |dirs[d]| == ENTRIES
  }

  lemma PlacedSizes(dirs: map<nat, seq<nat>>, tables: map<nat, seq<Page>>, kernel: seq<nat>)
    requires Placed(dirs, tables, kernel)
    ensures Sizes(dirs, tables) && |kernel| == ENTRIES
  {
  }

  lemma UserTable(dirs: map<nat, seq<nat>>, tables: map<nat, seq<Page>>, d: nat, p: nat, k: nat, taken: set<nat>,
                  top: nat)
    requires d in dirs && k in dirs && Placed(dirs, tables, dirs[k]) && Below(dirs, tables, top)
    requires p < ENTRIES * ENTRIES
    ensures |dirs[d]| == |dirs[k]| == ENTRIES && (dirs[d][p / ENTRIES] != 0 ==> dirs[d][p / ENTRIES] in tables)
    ensures top !in tables && top > 0 && (forall t :: t in tables ==> |tables[t]| == ENTRIES)
  {
  }

  /** A new empty table in a user slot, or the one that is there, leaves every page as it was. */
  lemma TablePlaced(dirs: map<nat, seq<nat>>, tables: map<nat, seq<Page>>, dirs': map<nat, seq<nat>>,
                    tables': map<nat, seq<Page>>,
                    d: nat, p: nat, k: nat, t: nat, taken: set<nat>, top: nat)
    requires d in dirs && k in dirs && d != k && Placed(dirs, tables, dirs[k]) && p < ENTRIES * ENTRIES
    requires Below(dirs, tables, top)
    requires Exclusive(tables, Shared(dirs[k]), taken) && |dirs[d]| == |dirs[k]| == ENTRIES && dirs[k][p / ENTRIES] == 0
    requires dirs[d][p / ENTRIES] != 0 ==> dirs' == dirs && tables' == tables && t == dirs[d][p / ENTRIES]
    requires dirs[d][p / ENTRIES] == 0 ==> t == top && tables' == tables[t := seq(ENTRIES, i => EMPTY)]
    requires dirs[d][p / ENTRIES] == 0 ==> dirs' == dirs[d := WithTable(dirs[d], p / ENTRIES, t)]
    ensures dirs'.Keys == dirs.Keys && dirs'[k] == dirs[k] && d in dirs' && |dirs'[d]| == ENTRIES
    ensures dirs'[d][p / ENTRIES] == t
    ensures Placed(dirs', tables', dirs[k]) && Exclusive(tables', Shared(dirs[k]), taken)
    ensures t in tables' && |tables'[t]| == ENTRIES && t !in dirs[k]
    ensures PageAt(dirs', tables', d, p) == tables'[t][p % ENTRIES]
    ensures forall e, q: nat :: e in dirs && q < ENTRIES * ENTRIES ==>
              PageAt(dirs', tables', e, q) == PageAt(dirs, tables, e, q)
  {
    if dirs[d][p / ENTRIES] == 0 {
      NewTable(dirs, tables, d, p / ENTRIES, k, t, taken, top);
    }
  }

  lemma NewTable(dirs: map<nat, seq<nat>>, tables: map<nat, seq<Page>>, d: nat, n: nat, k: nat, t: nat,
                 taken: set<nat>, top: nat)
    requires d in dirs && k in dirs && d != k && Placed(dirs, tables, dirs[k]) && n < ENTRIES
    requires Below(dirs, tables, top)
    requires Exclusive(tables, Shared(dirs[k]), taken) && |dirs[d]| == |dirs[k]| == ENTRIES && dirs[k][n] == 0
    requires dirs[d][n] == 0 && t == top
    ensures var dirs', tables' := dirs[d := WithTable(dirs[d], n, t)], tables[t := seq(ENTRIES, i => EMPTY)];
            t !in dirs[k] && Placed(dirs', tables', dirs[k]) && Exclusive(tables', Shared(dirs[k]), taken)
  {
    var dirs', tables' := dirs[d := WithTable(dirs[d], n, t)], tables[t := seq(ENTRIES, i => EMPTY)];
    forall e, i, f, j | SameTable(dirs', e, i, f, j) && dirs'[e][i] !in dirs[k] ensures e == f && i == j {
      if dirs'[e][i] != t {
        assert SameTable(dirs, e, i, f, j);
      }
    }
    forall u, i, v, j | SameFrame(tables', u, i, v, j) && u !in Shared(dirs[k]) ensures u == v && i == j {
      assert SameFrame(tables, u, i, v, j);
    }
  }

  lemma EntryPlaced(dirs: map<nat, seq<nat>>, tables: map<nat, seq<Page>>, d: nat, p: nat, k: nat, taken: set<nat>,
                    taken': set<nat>, page: Page)
    requires d in dirs && k in dirs && Placed(dirs, tables, dirs[k]) && Exclusive(tables, Shared(dirs[k]), taken)
    requires p < ENTRIES * ENTRIES
    requires |dirs[d]| == ENTRIES && dirs[d][p / ENTRIES] in tables && dirs[d][p / ENTRIES] !in dirs[k]
    requires |tables[dirs[d][p / ENTRIES]]| == ENTRIES
    requires page.frame !in taken && taken' == taken + {page.frame}
    ensures var t := dirs[d][p / ENTRIES];
            var tables' := tables[t := tables[t][p % ENTRIES := page]];
            && Placed(dirs, tables', dirs[k]) && Exclusive(tables', Shared(dirs[k]), taken')
            && PageAt(dirs, tables', d, p) == page
            && forall e, q: nat :: e in dirs && q < ENTRIES * ENTRIES && (e != d || q != p) ==>
                 PageAt(dirs, tables', e, q) == PageAt(dirs, tables, e, q)
  {
    var t, m := dirs[d][p / ENTRIES], p % ENTRIES;
    var tables' := tables[t := tables[t][m := page]];
    forall u, i, v, j | SameFrame(tables', u, i, v, j) && u !in Shared(dirs[k]) ensures u == v && i == j {
      if (u != t || i != m) && (v != t || j != m) {
        assert SameFrame(tables, u, i, v, j);
      }
    }
    forall e, q: nat | e in dirs && q < ENTRIES * ENTRIES && (e != d || q != p)
      ensures PageAt(dirs, tables', e, q) == PageAt(dirs, tables, e, q)
    {
      if dirs[e][q / ENTRIES] == t {
        assert SameTable(dirs, e, q / ENTRIES, d, p / ENTRIES);
        assert q == q / ENTRIES * ENTRIES + q % ENTRIES && p == p / ENTRIES * ENTRIES + p % ENTRIES;
      }
    }
  }

  /** What the copy of a space has at a page, given what the space has there. A page of the kernel is the same entry.
      Another is mapped exactly if the original is, with the same rights, to a frame that nobody had, with the contents
      of the original's. */
  ghost predicate Forks(page: Page, copy: Page, kernel: bool, taken: set<nat>, memory: seq<Content>) {
    if kernel then copy == page
    else if page.frame == 0 then copy == EMPTY
    else
      && copy == page.(frame := copy.frame) && copy.frame != 0 && copy.frame !in taken && page.frame in taken
      && page.frame < |memory| && copy.frame < |memory| && memory[copy.frame] == memory[page.frame]
  }

  /** All pages of the spaces there were and of the copy. */
  lemma ForkedSpaces(dirs: map<nat, seq<nat>>, dirs': map<nat, seq<nat>>, dir: nat, newDir: nat, kernel: seq<nat>,
                     tables: map<nat, seq<Page>>, tables': map<nat, seq<Page>>, taken: set<nat>, memory: seq<Content>,
                     memory': seq<Content>)
    requires dir in dirs && newDir !in dirs && newDir in dirs' && dirs' == dirs[newDir := dirs'[newDir]]
    requires Placed(dirs, tables, kernel) && Placed(dirs', tables', kernel) && Exclusive(tables, Shared(kernel), taken)
    requires Forked(dirs[dir], kernel, tables, dirs'[newDir], tables', taken, memory, memory')
    requires forall t :: t in tables ==> t in tables' && tables'[t] == tables[t]
    requires forall f :: f in taken ==> f < |memory'| == |memory| && memory'[f] == memory[f]
    ensures forall e, p: nat :: e in dirs && p < ENTRIES * ENTRIES ==>
              PageAt(dirs', tables', e, p) == PageAt(dirs, tables, e, p)
    ensures forall p: nat :: p < ENTRIES * ENTRIES ==>
              Forks(PageAt(dirs', tables', dir, p), PageAt(dirs', tables', newDir, p), kernel[p / ENTRIES] != 0, taken,
                    memory')
  {
    hide Forked, Forks;
    forall e, p: nat | e in dirs && p < ENTRIES * ENTRIES
      ensures PageAt(dirs', tables', e, p) == PageAt(dirs, tables, e, p)
    {
      assert dirs[e][p / ENTRIES] != 0 ==> dirs[e][p / ENTRIES] in tables;
    }
    forall p: nat | p < ENTRIES * ENTRIES
      ensures Forks(PageAt(dirs', tables', dir, p), PageAt(dirs', tables', newDir, p), kernel[p / ENTRIES] != 0, taken,
                    memory')
    {
      ForkedPage(dirs', dir, newDir, kernel, tables, tables', taken, memory, memory', p);
    }
  }

  /** Table by table copied, page by page forked. */
  lemma ForkedPage(dirs: map<nat, seq<nat>>, dir: nat, newDir: nat, kernel: seq<nat>, tables: map<nat, seq<Page>>,
                   tables': map<nat, seq<Page>>, taken: set<nat>, memory: seq<Content>, memory': seq<Content>, p: nat)
    requires dir in dirs && newDir in dirs && |dirs[dir]| == |dirs[newDir]| == |kernel| == ENTRIES
    requires p < ENTRIES * ENTRIES && Forked(dirs[dir], kernel, tables, dirs[newDir], tables', taken, memory, memory')
    requires forall t :: t in tables' ==> |tables'[t]| == ENTRIES
    requires forall t :: t in tables ==> t in tables' && tables'[t] == tables[t] && t != 0
    requires 0 !in tables' && (kernel[p / ENTRIES] != 0 ==> dirs[dir][p / ENTRIES] == kernel[p / ENTRIES])
    requires forall t, j :: t in tables && 0 <= j < |tables[t]| && tables[t][j].frame != 0 ==>
               tables[t][j].frame in taken
    requires forall f :: f in taken ==> f < |memory'| == |memory| && memory'[f] == memory[f]
    ensures Forks(PageAt(dirs, tables', dir, p), PageAt(dirs, tables', newDir, p), kernel[p / ENTRIES] != 0, taken,
                  memory')
  {
    var i, j := p / ENTRIES, p % ENTRIES;
    var t, t' := dirs[dir][i], dirs[newDir][i];
    assert ForkedTable(t, kernel[i], tables, t', tables', taken, memory, memory');
    if t != 0 && t != kernel[i] {
      assert CopiedPage(tables[t][j], tables'[t'][j], taken, memory, memory');
    }
  }

  /** Row `row` is a copy of `dir`: a kernel table is the same table, another is a copied one. */
  ghost predicate Forked(dir: seq<nat>, kernel: seq<nat>, tables: map<nat, seq<Page>>, row: seq<nat>,
                         tables': map<nat, seq<Page>>,
                         taken: set<nat>, memory: seq<Content>, memory': seq<Content>) {
    && |dir| == |row| == |kernel|
    && forall j :: 0 <= j < |dir| ==> ForkedTable(dir[j], kernel[j], tables, row[j], tables', taken, memory, memory')
  }

  ghost predicate ForkedTable(t: nat, k: nat, tables: map<nat, seq<Page>>, t': nat, tables': map<nat, seq<Page>>,
                              taken: set<nat>, memory: seq<Content>, memory': seq<Content>) {
    if t == 0 || t == k then t' == t
    else
      && t in tables && t' in tables' && t' !in tables && t' != 0
      && Copied(tables[t], tables'[t'], taken, memory, memory')
  }

  /** The first `i` tables are shared or copied; `first` and up are the addresses of the copies. */
  ghost predicate Copying(dir: seq<nat>, kernel: seq<nat>, tables: map<nat, seq<Page>>, row: seq<nat>, i: nat,
                          tables': map<nat, seq<Page>>, first: nat, top: nat, taken: set<nat>, taken': set<nat>,
                          memory: seq<Content>, memory': seq<Content>) {
    && i <= |dir| == |row| == |kernel| == ENTRIES && 0 < first <= top
    && (forall t :: t in tables ==> 0 < t < first && t in tables' && tables'[t] == tables[t] && |tables[t]| == ENTRIES)
    && (forall t :: t in tables' ==> t < top && |tables'[t]| == ENTRIES && (t in tables || t >= first))
    && (forall t, j :: t in tables && 0 <= j < |tables[t]| && tables[t][j].frame != 0 ==> tables[t][j].frame in taken)
    && (forall j :: 0 <= j < |dir| && dir[j] != 0 ==> dir[j] in tables)
    && (forall j :: 0 <= j < |kernel| && kernel[j] != 0 ==> kernel[j] in tables)
    && (forall j :: i <= j < |row| ==> row[j] == 0)
    && (forall j :: 0 <= j < i ==> ForkedTable(dir[j], kernel[j], tables, row[j], tables', taken, memory, memory'))
    && (forall j, k :: 0 <= j < k < i && row[j] >= first ==> row[j] != row[k])
    && Exclusive(tables', Shared(kernel), taken')
    && 0 in taken && taken <= taken' && |memory'| == |memory|
    && (forall f :: f in taken' ==> f < |memory|)
    && (forall f :: f in taken ==> memory'[f] == memory[f])
  }

  lemma CopyingStart(dirs: map<nat, seq<nat>>, tables: map<nat, seq<Page>>, dir: nat, kernel: seq<nat>, row: seq<nat>,
                     top: nat,
                     taken: set<nat>, memory: seq<Content>)
    requires dir in dirs && Placed(dirs, tables, kernel) && Below(dirs, tables, top)
    requires Exclusive(tables, Shared(kernel), taken)
    requires kernel in dirs.Values && row == seq(ENTRIES, i => 0) && 0 in taken
    requires forall f :: f in taken ==> f < |memory|
    ensures Copying(dirs[dir], kernel, tables, row, 0, tables, top + 1, top + 1, taken, taken, memory, memory)
    ensures |dirs[dir]| == ENTRIES && Wanted(dirs[dir][..0], kernel, tables) == 0 && top !in dirs
  {
    var k :| k in dirs && dirs[k] == kernel;
  }

  lemma CopyingFacts(dir: seq<nat>, kernel: seq<nat>, tables: map<nat, seq<Page>>, row: seq<nat>, i: nat,
                     tables': map<nat, seq<Page>>, first: nat, top: nat, taken: set<nat>, taken': set<nat>,
                     memory: seq<Content>, memory': seq<Content>)
    requires Copying(dir, kernel, tables, row, i, tables', first, top, taken, taken', memory, memory') && i < ENTRIES
    ensures |dir| == |kernel| == ENTRIES && 0 in taken'
    ensures dir[i] != 0 ==> dir[i] in tables && dir[i] in tables' && tables'[dir[i]] == tables[dir[i]]
    ensures dir[i] != 0 ==> forall j :: 0 <= j < |tables[dir[i]]| && tables[dir[i]][j].frame != 0 ==>
              tables[dir[i]][j].frame in taken'
    ensures dir[i] == 0 ==> Copying(dir, kernel, tables, row, i + 1, tables', first, top, taken, taken', memory,
                                    memory')
  {
    hide Copied;
  }

  lemma CopyingShare(dir: seq<nat>, kernel: seq<nat>, tables: map<nat, seq<Page>>, row: seq<nat>, i: nat,
                     tables': map<nat, seq<Page>>, first: nat, top: nat, taken: set<nat>, taken': set<nat>,
                     memory: seq<Content>, memory': seq<Content>)
    requires Copying(dir, kernel, tables, row, i, tables', first, top, taken, taken', memory, memory') && i < ENTRIES
    requires |dir| == |kernel| == |row| == ENTRIES && dir[i] == kernel[i] != 0
    ensures Copying(dir, kernel, tables, WithTable(row, i, dir[i]), i + 1, tables', first, top, taken, taken',
                    memory, memory')
  {
    hide Copied, Exclusive;
  }

  /** Copies made earlier stay as they are, since the frames they hold are taken. */
  lemma CopiedStays(table: seq<Page>, copy: seq<Page>, taken: set<nat>, taken': set<nat>,
                    memory: seq<Content>, was: seq<Content>, memory': seq<Content>)
    requires Copied(table, copy, taken, memory, was) && |memory'| == |was|
    requires forall j :: 0 <= j < |copy| && copy[j].frame != 0 ==> copy[j].frame in taken'
    requires forall f :: f in taken' ==> f < |was| && memory'[f] == was[f]
    ensures Copied(table, copy, taken, memory, memory')
  {
  }

  /** A copy made with fewer frames free and later contents is one with respect to the start, too. */
  lemma CopiedEarlier(table: seq<Page>, copy: seq<Page>, taken: set<nat>, taken': set<nat>,
                      memory: seq<Content>, was: seq<Content>, memory': seq<Content>)
    requires Copied(table, copy, taken', was, memory') && taken <= taken' && |memory| == |was|
    requires forall j :: 0 <= j < |table| && table[j].frame != 0 ==> table[j].frame in taken
    requires forall f :: f in taken ==> f < |memory| && was[f] == memory[f]
    ensures Copied(table, copy, taken, memory, memory')
  {
  }

  lemma ExclusiveCopy(tables: map<nat, seq<Page>>, shared: set<nat>, taken: set<nat>, taken': set<nat>, t: nat,
                      table: seq<Page>, copy: seq<Page>,
                      was: seq<Content>, memory: seq<Content>)
    requires Exclusive(tables, shared, taken) && t !in tables && taken <= taken'
    requires Copied(table, copy, taken, was, memory)
    requires forall j :: 0 <= j < |copy| && copy[j].frame != 0 ==> copy[j].frame in taken'
    ensures Exclusive(tables[t := copy], shared, taken')
  {
    var tables' := tables[t := copy];
    assert forall j :: 0 <= j < |copy| && copy[j].frame != 0 ==> copy[j].frame !in taken;
    forall u, i, v, j | SameFrame(tables', u, i, v, j) && u !in shared ensures u == v && i == j {
      if u != t && v != t {
        assert SameFrame(tables, u, i, v, j);
      }
    }
  }

  lemma CopyingTable(dir: seq<nat>, kernel: seq<nat>, tables: map<nat, seq<Page>>, row: seq<nat>, i: nat,
                     tables': map<nat, seq<Page>>, first: nat, top: nat, taken: set<nat>, set0: set<nat>,
                       set1: set<nat>,
                     memory: seq<Content>, was: seq<Content>, memory': seq<Content>, copy: seq<Page>)
    requires Copying(dir, kernel, tables, row, i, tables', first, top, taken, set0, memory, was) && i < ENTRIES
    requires |dir| == |kernel| == |row| == ENTRIES && dir[i] != 0 && dir[i] != kernel[i] && dir[i] in tables
    requires Copied(tables[dir[i]], copy, set0, was, memory') && set0 <= set1 && |memory'| == |was|
    requires forall j :: 0 <= j < |copy| && copy[j].frame != 0 ==> copy[j].frame in set1
    requires forall f :: f in set0 ==> f < |memory'| && memory'[f] == was[f]
    requires forall f :: f in set1 ==> f < |memory'|
    ensures Copying(dir, kernel, tables, WithTable(row, i, top), i + 1, tables'[top := copy], first, top + 1, taken,
                    set1, memory, memory')
  {
    var tables2, row' := tables'[top := copy], WithTable(row, i, top);
    ExclusiveCopy(tables', Shared(kernel), set0, set1, top, tables[dir[i]], copy, was, memory');
    assert |copy| == ENTRIES;
    CopyingEntry(dir, kernel, tables, row, i, tables', first, top, taken, set0, memory, was, memory', copy);
    forall j | 0 <= j < i ensures ForkedTable(dir[j], kernel[j], tables, row'[j], tables2, taken, memory, memory') {
      if dir[j] != 0 && dir[j] != kernel[j] {
        CopiedStays(tables[dir[j]], tables'[row[j]], taken, set0, memory, was, memory');
      }
    }
    hide Copied, Exclusive;
  }

  lemma CopyingEntry(dir: seq<nat>, kernel: seq<nat>, tables: map<nat, seq<Page>>, row: seq<nat>, i: nat,
                     tables': map<nat, seq<Page>>, first: nat, top: nat, taken: set<nat>, set0: set<nat>,
                     memory: seq<Content>, was: seq<Content>, memory': seq<Content>, copy: seq<Page>)
    requires Copying(dir, kernel, tables, row, i, tables', first, top, taken, set0, memory, was) && i < ENTRIES
    requires |dir| == |kernel| == |row| == ENTRIES && dir[i] != 0 && dir[i] != kernel[i] && dir[i] in tables
    requires Copied(tables[dir[i]], copy, set0, was, memory') && |memory'| == |was|
    requires forall j :: 0 <= j < |tables[dir[i]]| && tables[dir[i]][j].frame != 0 ==> tables[dir[i]][j].frame in taken
    ensures ForkedTable(dir[i], kernel[i], tables, top, tables'[top := copy], taken, memory, memory')
  {
    CopiedEarlier(tables[dir[i]], copy, taken, set0, memory, was, memory');
  }

  lemma CopyingDone(dirs: map<nat, seq<nat>>, dir: nat, kernel: seq<nat>, tables: map<nat, seq<Page>>, row: seq<nat>,
                    tables': map<nat, seq<Page>>, newDir: nat, top: nat, taken: set<nat>, taken': set<nat>,
                    memory: seq<Content>, memory': seq<Content>)
    requires dir in dirs && Placed(dirs, tables, kernel) && Below(dirs, tables, newDir)
    requires Copying(dirs[dir], kernel, tables, row, ENTRIES, tables', newDir + 1, top, taken, taken', memory, memory')
    ensures Placed(dirs[newDir := row], tables', kernel) && Below(dirs[newDir := row], tables', top)
    ensures Exclusive(tables', Shared(kernel), taken')
    ensures Forked(dirs[dir], kernel, tables, row, tables', taken, memory, memory')
    ensures forall t :: t in tables ==> t in tables' && tables'[t] == tables[t]
    ensures forall f :: f in taken ==> f < |memory'| == |memory| && memory'[f] == memory[f]
  {
    hide Copied, Exclusive;
    var dirs' := dirs[newDir := row];
    RowPlaced(dirs, dir, kernel, tables, row, tables', newDir, top, taken, taken', memory, memory');
    forall d, i, e, j | SameTable(dirs', d, i, e, j) && dirs'[d][i] !in kernel ensures d == e && i == j {
      if d != newDir && e != newDir {
        assert SameTable(dirs, d, i, e, j);
      }
    }
  }

  /** A table of the new row is the kernel's at the same place or a new one, and new ones occur once. */
  lemma RowPlaced(dirs: map<nat, seq<nat>>, dir: nat, kernel: seq<nat>, tables: map<nat, seq<Page>>, row: seq<nat>,
                  tables': map<nat, seq<Page>>, newDir: nat, top: nat, taken: set<nat>, taken': set<nat>,
                  memory: seq<Content>, memory': seq<Content>)
    requires dir in dirs && Placed(dirs, tables, kernel)
    requires Copying(dirs[dir], kernel, tables, row, ENTRIES, tables', newDir + 1, top, taken, taken', memory, memory')
    ensures |row| == ENTRIES && |kernel| == ENTRIES
    ensures forall j :: 0 <= j < |row| && row[j] != 0 ==>
              row[j] in tables' && (row[j] == kernel[j] || (row[j] > newDir && row[j] !in kernel))
    ensures forall j :: 0 <= j < |row| && kernel[j] != 0 ==> row[j] == kernel[j]
    ensures forall j, k :: 0 <= j < k < |row| && row[j] > newDir ==> row[j] != row[k]
    ensures forall t :: t in tables' ==> t < top && |tables'[t]| == ENTRIES && t != 0
  {
    hide Copied, Exclusive;
    forall j | 0 <= j < |row| && row[j] != 0
      ensures row[j] in tables' && (row[j] == kernel[j] || (row[j] > newDir && row[j] !in kernel))
    {
      assert ForkedTable(dirs[dir][j], kernel[j], tables, row[j], tables', taken, memory, memory');
    }
    forall j | 0 <= j < |row| && kernel[j] != 0 ensures row[j] == kernel[j] {
      assert ForkedTable(dirs[dir][j], kernel[j], tables, row[j], tables', taken, memory, memory');
    }
  }

  lemma KernelStart(k: nat)
    ensures KernelOnly(map[k := seq(ENTRIES, i => 0)], map[], k)
    ensures MappedUpTo(map[k := seq(ENTRIES, i => 0)], map[], k, 0)
  {
  }

  lemma KernelBasics(dirs: map<nat, seq<nat>>, tables: map<nat, seq<Page>>, k: nat, top: nat, i: nat)
    requires KernelOnly(dirs, tables, k) && Below(dirs, tables, top) && i < ENTRIES
    ensures dirs.Keys == {k} && k in dirs && |dirs[k]| == ENTRIES
    ensures (forall t :: t in tables ==> |tables[t]| == ENTRIES)
    ensures (dirs[k][i] != 0 ==> dirs[k][i] in tables) && top !in tables && top !in dirs[k] && top != 0
  {
  }

  lemma BelowEntry(dirs: map<nat, seq<nat>>, tables: map<nat, seq<Page>>, top: nat, t: nat, table: seq<Page>)
    requires Below(dirs, tables, top) && t in tables
    ensures Below(dirs, tables[t := table], top)
  {
  }

  lemma KernelReady(dirs: map<nat, seq<nat>>, tables: map<nat, seq<Page>>, k: nat, count: nat, taken: set<nat>)
    requires KernelOnly(dirs, tables, k) && MappedUpTo(dirs, tables, k, count) && count <= ENTRIES * ENTRIES
    requires forall f: nat :: f < count ==> f in taken
    ensures Placed(dirs, tables, dirs[k]) && Exclusive(tables, Shared(dirs[k]), taken)
    ensures forall p: nat :: p < ENTRIES * ENTRIES ==>
              PageAt(dirs, tables, k, p) == if p < count then Page(p, true, false, true, false, false) else EMPTY
  {
    forall p: nat | p < ENTRIES * ENTRIES
      ensures PageAt(dirs, tables, k, p) == if p < count then Page(p, true, false, true, false, false) else EMPTY
    {
      var i, j := p / ENTRIES, p % ENTRIES;
      assert p == i * ENTRIES + j;
      assert PageAt(dirs, tables, k, p) == Cell(dirs, tables, k, i, j);
    }
    forall t | t in tables ensures t in Shared(dirs[k]) {
    }
  }

  /** While the kernel maps its memory there is no other directory, and its tables hold frames below `p`. */
  ghost predicate KernelOnly(dirs: map<nat, seq<nat>>, tables: map<nat, seq<Page>>, k: nat) {
    && dirs.Keys == {k} && |dirs[k]| == ENTRIES
    && (forall t :: t in tables ==> |tables[t]| == ENTRIES && t != 0 && t in dirs[k])
    && (forall i :: 0 <= i < |dirs[k]| && dirs[k][i] != 0 ==> dirs[k][i] in tables)
    && (forall i, j ::
          0 <= i < |dirs[k]| && 0 <= j < |dirs[k]| && dirs[k][i] == dirs[k][j] && dirs[k][i] != 0 ==> i == j)
  }

  ghost predicate MappedUpTo(dirs: map<nat, seq<nat>>, tables: map<nat, seq<Page>>, k: nat, p: nat)
    requires KernelOnly(dirs, tables, k)
  {
    && (forall i: nat, j: nat :: i < ENTRIES && j < ENTRIES ==>
          Cell(dirs, tables, k, i, j) ==
            if i * ENTRIES + j < p then Page(i * ENTRIES + j, true, false, true, false, false) else EMPTY)
    && (forall t, i :: t in tables && 0 <= i < |tables[t]| ==> tables[t][i].frame < p || tables[t][i].frame == 0)
  }

  lemma TableMade(dirs: map<nat, seq<nat>>, tables: map<nat, seq<Page>>, dirs': map<nat, seq<nat>>,
                  tables': map<nat, seq<Page>>,
                  k: nat, p: nat, t: nat)
    requires KernelOnly(dirs, tables, k) && MappedUpTo(dirs, tables, k, p) && p < ENTRIES * ENTRIES && t != 0
    requires if dirs[k][p / ENTRIES] != 0 then
               dirs' == dirs && tables' == tables && t == dirs[k][p / ENTRIES]
             else
               && t !in tables && t !in dirs[k] && tables' == tables[t := seq(ENTRIES, i => EMPTY)]
               && dirs' == dirs[k := WithTable(dirs[k], p / ENTRIES, t)]
    ensures KernelOnly(dirs', tables', k) && MappedUpTo(dirs', tables', k, p) && t in tables'
    ensures dirs'[k][p / ENTRIES] == t && tables'[t][p % ENTRIES] == EMPTY
  {
    var n := p / ENTRIES;
    assert p == n * ENTRIES + p % ENTRIES;
    assert Cell(dirs, tables, k, n, p % ENTRIES) == EMPTY;
    if dirs[k][n] == 0 {
      forall u | u in tables' ensures u in dirs'[k] {
        if u != t {
          var j :| 0 <= j < |dirs[k]| && dirs[k][j] == u;
          assert dirs'[k][j] == u;
        } else {
          assert dirs'[k][n] == u;
        }
      }
      forall i: nat, j: nat | i < ENTRIES && j < ENTRIES
        ensures Cell(dirs', tables', k, i, j) == Cell(dirs, tables, k, i, j)
      {
        assert Cell(dirs, tables, k, n, j) == EMPTY;
      }
    }
  }

  lemma EntrySet(dirs: map<nat, seq<nat>>, tables: map<nat, seq<Page>>, k: nat, p: nat, page: Page)
    requires KernelOnly(dirs, tables, k) && MappedUpTo(dirs, tables, k, p) && p < ENTRIES * ENTRIES
    requires dirs[k][p / ENTRIES] in tables && page == Page(p, true, false, true, false, false)
    ensures var t := dirs[k][p / ENTRIES];
            var tables' := tables[t := tables[t][p % ENTRIES := page]];
            KernelOnly(dirs, tables', k) && MappedUpTo(dirs, tables', k, p + 1)
  {
    var n, m := p / ENTRIES, p % ENTRIES;
    var tables' := tables[dirs[k][n] := tables[dirs[k][n]][m := page]];
    forall i: nat, j: nat | i < ENTRIES && j < ENTRIES
      ensures Cell(dirs, tables', k, i, j) ==
              if i * ENTRIES + j < p + 1 then Page(i * ENTRIES + j, true, false, true, false, false) else EMPTY
    {
      if i == n && j == m {
      } else {
        assert i * ENTRIES + j != p;
        assert Cell(dirs, tables', k, i, j) == Cell(dirs, tables, k, i, j);
      }
    }
  }

  // ---------------------------------------------------------------- isolation

  /** No two user pages of any address spaces share a frame, and none shares one with the kernel: a store to a
      user page is seen through no other page of this or any other directory. */
  lemma UserPagesApart(s: Pages, d: nat, p: nat, e: nat, q: nat)
    requires s.Valid() && d in s.dirs && e in s.dirs && p < ENTRIES * ENTRIES && q < ENTRIES * ENTRIES
    requires |s.dirs[s.kernelDir]| == ENTRIES && s.dirs[s.kernelDir][p / ENTRIES] == 0
    requires s.At(d, p).frame == s.At(e, q).frame != 0
    ensures d == e && p == q
  {
    var i, j, k, l := p / ENTRIES, p % ENTRIES, q / ENTRIES, q % ENTRIES;
    assert p == i * ENTRIES + j && q == k * ENTRIES + l;
    var t, u := s.dirs[d][i], s.dirs[e][k];
    assert t != 0 && t !in s.dirs[s.kernelDir];
    assert SameFrame(s.tables, t, j, u, l);
    assert SameTable(s.dirs, d, i, e, k);
  }

  /** So a store to a user page changes what is seen at that page of that space and nowhere else. */
  lemma StoreSeenOnce(s: Pages, d: nat, p: nat, e: nat, q: nat, content: Content)
    requires s.Valid() && d in s.dirs && e in s.dirs && p < ENTRIES * ENTRIES && q < ENTRIES * ENTRIES
    requires |s.dirs[s.kernelDir]| == ENTRIES && s.dirs[s.kernelDir][p / ENTRIES] == 0
    requires s.At(d, p).frame != 0 && s.At(e, q).frame != 0
    ensures s.At(d, p).frame < |s.memory| && s.At(e, q).frame < |s.memory|
    ensures var after := s.memory[s.At(d, p).frame := content];
            after[s.At(e, q).frame] == if (e, q) == (d, p) then content else s.memory[s.At(e, q).frame]
  {
    FrameTaken(s, d, p);
    FrameTaken(s, e, q);
    if s.At(e, q).frame == s.At(d, p).frame {
      UserPagesApart(s, d, p, e, q);
    }
  }

  lemma FrameTaken(s: Pages, d: nat, p: nat)
    requires s.Valid() && d in s.dirs && p < ENTRIES * ENTRIES && s.At(d, p).frame != 0
    ensures s.At(d, p).frame in s.frames.Set() && s.At(d, p).frame < |s.memory|
  {
    hide Members;
    var i, j := p / ENTRIES, p % ENTRIES;
    assert s.tables[s.dirs[d][i]][j].frame != 0;
  }
}
