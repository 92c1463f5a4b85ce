/** From the image builder to the running kernel: a disk that starts with the image of a tree is a consistent file
    system, and the kernel that starts from it reads the tree the image was built from. */
module ImageBoot {
  import opened Bytes
  import opened DirTable
  import opened Disk
  import opened InodeHeader
  import opened FileData
  import opened ImageTree
  import opened ImageRoundTrip
  import opened ImageMount
  import FS = FileSystem

  /** Inode n stands for the node at sector i, and its children for that node's children. */
  ghost predicate Mirrors(f: FS.Tree, n: Inode, t: Tree, i: nat)
    requires Fitting(t, i)
    decreases t, 1
  {
    HeaderFits(t, i);
    && n in f.metas && n in f.kids && f.metas[n] == HeaderOf(t, i)
    && match t
       case File(_) => f.kids[n] == []
       case Dir(ks) => MirrorsKids(f, n, f.kids[n], ks, i + 1 + Sectors(TableSize(ks)))
  }

  ghost predicate MirrorsKids(f: FS.Tree, p: Inode, cs: seq<Inode>, ks: Kids, j: nat)
    requires FittingKids(ks, j)
    decreases ks, 0
  {
    match ks
    case NoKids => cs == []
    case Kid(name, node, rest) =>
      && cs != [] && cs[0].name == name && |name| <= MAX_NAME
      && cs[0] in f.parentOf && f.parentOf[cs[0]] == p
      && Mirrors(f, cs[0], node, j) && MirrorsKids(f, p, cs[1..], rest, j + Span(node))
  }

  /** The inodes that stand for the nodes of a subtree. */
  ghost function NodesOf(f: FS.Tree, n: Inode, t: Tree): set<Inode>
    decreases t, 1
  {
    {n} + if t.Dir? && n in f.kids then NodesOfKids(f, f.kids[n], t.kids) else {}
  }

  ghost function NodesOfKids(f: FS.Tree, cs: seq<Inode>, ks: Kids): set<Inode>
    decreases ks, 0
  {
    if ks.Kid? && cs != [] then NodesOf(f, cs[0], ks.node) + NodesOfKids(f, cs[1..], ks.rest) else {}
  }

  /** The in-memory tree that an image of `t` stands for: nothing but its nodes, each with a parent, except
      the root. */
  ghost predicate Stands(f: FS.Tree, t: Tree) {
    && Fitting(t, 2) && t.Dir? && Named(t) && Mirrors(f, f.root, t, 2)
    && f.metas.Keys == f.kids.Keys == NodesOf(f, f.root, t) && f.parentOf.Keys == f.metas.Keys - {f.root}
  }

  // ---------------------------------------------------------------- extents

  predicate Within(m: Meta, lo: nat, hi: nat) {
    lo <= m.index && m.index + 1 + m.alloc <= hi
  }

  lemma {:induction false} NodesWithin(f: FS.Tree, n: Inode, t: Tree, i: nat)
    requires Fitting(t, i) && Mirrors(f, n, t, i)
    ensures forall x :: x in NodesOf(f, n, t) ==> x in f.metas && Within(f.metas[x], i, i + Span(t))
    decreases t, 1
  {
    hide Sectors;
    if t.Dir? {
      KidsWithin(f, n, f.kids[n], t.kids, i + 1 + Sectors(TableSize(t.kids)));
    }
  }

  lemma {:induction false} KidsWithin(f: FS.Tree, p: Inode, cs: seq<Inode>, ks: Kids, j: nat)
    requires FittingKids(ks, j) && MirrorsKids(f, p, cs, ks, j)
    ensures forall x :: x in NodesOfKids(f, cs, ks) ==> x in f.metas && Within(f.metas[x], j, j + SpanKids(ks))
    decreases ks, 0
  {
    hide Mirrors, NodesOf;
    if ks.Kid? {
      NodesWithin(f, cs[0], ks.node, j);
      KidsWithin(f, p, cs[1..], ks.rest, j + Span(ks.node));
    }
  }

  /** Any two of these inodes have their extents apart. */
  ghost predicate Spread(f: FS.Tree, xs: set<Inode>) {
    forall x, y :: x in xs && y in xs && x != y ==> x in f.metas && y in f.metas && ExtentsApart(f.metas[x], f.metas[y])
  }

  lemma SpreadUnion(f: FS.Tree, a: set<Inode>, b: set<Inode>, lo: nat, mid: nat, hi: nat)
    requires Spread(f, a) && Spread(f, b)
    requires forall x :: x in a ==> x in f.metas && Within(f.metas[x], lo, mid)
    requires forall x :: x in b ==> x in f.metas && Within(f.metas[x], mid, hi)
    ensures Spread(f, a + b)
  {
  }

  lemma {:induction false} NodesSpread(f: FS.Tree, n: Inode, t: Tree, i: nat)
    requires Fitting(t, i) && Mirrors(f, n, t, i)
    ensures Spread(f, NodesOf(f, n, t))
    decreases t, 1
  {
    hide Sectors, Spread;
    assert Spread(f, {n}) by {
      LoneSpread(f, n);
    }
    if t.Dir? {
      var j := i + 1 + Sectors(TableSize(t.kids));
      KidsWithin(f, n, f.kids[n], t.kids, j);
      KidsSpread(f, n, f.kids[n], t.kids, j);
      SpreadUnion(f, {n}, NodesOfKids(f, f.kids[n], t.kids), i, j, i + Span(t));
    } else {
      assert NodesOf(f, n, t) == {n};
    }
  }

  lemma LoneSpread(f: FS.Tree, n: Inode)
    ensures Spread(f, {n})
  {
  }

  lemma {:induction false} KidsSpread(f: FS.Tree, p: Inode, cs: seq<Inode>, ks: Kids, j: nat)
    requires FittingKids(ks, j) && MirrorsKids(f, p, cs, ks, j)
    ensures Spread(f, NodesOfKids(f, cs, ks))
    decreases ks, 0
  {
    hide Mirrors, NodesOf;
    if ks.Kid? {
      var j' := j + Span(ks.node);
      NodesSpread(f, cs[0], ks.node, j);
      KidsSpread(f, p, cs[1..], ks.rest, j');
      NodesWithin(f, cs[0], ks.node, j);
      KidsWithin(f, p, cs[1..], ks.rest, j');
      hide Spread;
      SpreadUnion(f, NodesOf(f, cs[0], ks.node), NodesOfKids(f, cs[1..], ks.rest), j, j', j' + SpanKids(ks.rest));
    }
  }

  // ---------------------------------------------------------------- one directory

  lemma EntriesFirst(cs: seq<Inode>, metas: map<Inode, Meta>)
    requires cs != [] && cs[0] in metas && forall c :: c in cs[1..] ==> c in metas
    ensures forall c :: c in cs ==> c in metas
    ensures FS.EntriesOf(cs, metas) == [Entry(cs[0].name, metas[cs[0]].index)] + FS.EntriesOf(cs[1..], metas)
  {
    assert cs == [cs[0]] + cs[1..];
  }

  /** What a directory's children and its records have to do with each other. */
  lemma {:induction false} KidsMatch(f: FS.Tree, p: Inode, cs: seq<Inode>, ks: Kids, j: nat, taken: set<seq<byte>>)
    requires FittingKids(ks, j) && MirrorsKids(f, p, cs, ks, j) && NamedKids(ks, taken)
    ensures |cs| == KidCount(ks) && forall c :: c in cs ==> c in f.metas
    ensures FS.EntriesOf(cs, f.metas) == EntriesAt(ks, j)
    ensures forall c :: c in cs ==> c.name !in taken && NulFree(c.name) && |c.name| <= MAX_NAME
    ensures forall c :: c in cs ==> c in f.parentOf && f.parentOf[c] == p && f.metas[c].index >= j
    ensures FS.DistinctNames(cs)
    decreases ks
  {
    hide NulFree, Named, Sectors, FS.EntriesOf;
    if ks.Kid? {
      KidsMatch(f, p, cs[1..], ks.rest, j + Span(ks.node), taken + {ks.name});
      assert cs == [cs[0]] + cs[1..];
      EntriesFirst(cs, f.metas);
    }
  }

  /** One node: its header, its listing if it is a directory, its children. */
  ghost predicate NodeOk(d: seq<Sector>, limit: nat, f: FS.Tree, x: Inode) {
    && limit <= |d| && x in f.metas && x in f.kids && FS.HeaderStored(d, limit, f.metas[x])
    && f.metas[x].childCount == |f.kids[x]|
    && (if f.metas[x].kind == KIND_DIR then FS.Lists(d, f, x) else f.kids[x] == [])
    && FS.DistinctNames(f.kids[x])
    && forall c :: c in f.kids[x] ==> KidOf(f, x, c)
  }

  ghost predicate KidOf(f: FS.Tree, x: Inode, c: Inode) {
    c in f.metas && c in f.parentOf && f.parentOf[c] == x && c != x && NulFree(c.name) && |c.name| <= MAX_NAME
  }

  lemma MirroredOk(d: seq<Sector>, limit: nat, f: FS.Tree, n: Inode, t: Tree, i: nat)
    requires Fitting(t, i) && Mirrors(f, n, t, i) && Mounted(d, limit, t, i) && Named(t)
    ensures NodeOk(d, limit, f, n)
  {
    hide EncodeMeta, NulFree, Content, Encode, NamedKids, Sectors, MountedKids, Fits;
    HeaderFits(t, i);
    if t.Dir? {
      KidsMatch(f, n, f.kids[n], t.kids, i + 1 + Sectors(TableSize(t.kids)), {});
      FitsHere(d, limit, f.metas[n]);
    }
  }

  lemma FitsHere(d: seq<Sector>, limit: nat, m: Meta)
    requires limit <= |d| && Fits(m, limit)
    ensures Fits(m, |d|)
  {
  }

  lemma {:induction false} NodesOk(d: seq<Sector>, limit: nat, f: FS.Tree, n: Inode, t: Tree, i: nat)
    requires Fitting(t, i) && Mirrors(f, n, t, i) && Mounted(d, limit, t, i) && Named(t)
    ensures forall x :: x in NodesOf(f, n, t) ==> NodeOk(d, limit, f, x)
    decreases t, 1
  {
    hide NodeOk, NodeMounted, Sectors;
    MirroredOk(d, limit, f, n, t, i);
    if t.Dir? {
      KidsOk(d, limit, f, n, f.kids[n], t.kids, i + 1 + Sectors(TableSize(t.kids)), {});
    }
  }

  lemma {:induction false} KidsOk(d: seq<Sector>, limit: nat, f: FS.Tree, p: Inode, cs: seq<Inode>, ks: Kids, j: nat,
                                  taken: set<seq<byte>>)
    requires FittingKids(ks, j) && MirrorsKids(f, p, cs, ks, j) && MountedKids(d, limit, ks, j) && NamedKids(ks, taken)
    ensures forall x :: x in NodesOfKids(f, cs, ks) ==> NodeOk(d, limit, f, x)
    decreases ks, 0
  {
    hide NodeOk, Mirrors, Mounted, NodesOf, Named;
    if ks.Kid? {
      NodesOk(d, limit, f, cs[0], ks.node, j);
      KidsOk(d, limit, f, p, cs[1..], ks.rest, j + Span(ks.node), taken + {ks.name});
    }
  }

  // ---------------------------------------------------------------- parents

  /** Every inode below n is listed by its parent. */
  lemma {:induction false} NodesListed(f: FS.Tree, n: Inode, t: Tree, i: nat)
    requires Fitting(t, i) && Mirrors(f, n, t, i)
    ensures forall x :: x in NodesOf(f, n, t) && x != n ==> Listed(f, x)
    decreases t, 1
  {
    hide Sectors, Listed;
    if t.Dir? {
      KidsListed(f, n, f.kids[n], t.kids, i + 1 + Sectors(TableSize(t.kids)));
    }
  }

  ghost predicate Listed(f: FS.Tree, x: Inode) {
    x in f.parentOf && f.parentOf[x] in f.kids && x in f.kids[f.parentOf[x]]
  }

  lemma {:induction false} KidsListed(f: FS.Tree, p: Inode, cs: seq<Inode>, ks: Kids, j: nat)
    requires FittingKids(ks, j) && MirrorsKids(f, p, cs, ks, j) && p in f.kids && forall c :: c in cs ==> c in f.kids[p]
    ensures forall x :: x in NodesOfKids(f, cs, ks) ==> Listed(f, x)
    decreases ks, 0
  {
    hide Mirrors, NodesOf;
    if ks.Kid? {
      NodesListed(f, cs[0], ks.node, j);
      KidsListed(f, p, cs[1..], ks.rest, j + Span(ks.node));
    }
  }

  // ---------------------------------------------------------------- the whole tree

  /** A mounted tree is a consistent file system. */
  lemma MountedTreeOk(d: seq<Sector>, limit: u32, f: FS.Tree, t: Tree)
    requires Stands(f, t) && Mounted(d, limit, t, 2) && SECTOR * |d| <= 0x1_0000_0000
    requires d[BALLOC_SECTOR] == WordSector(limit) && d[ROOT_INDEX_SECTOR] == WordSector(2)
    ensures FS.TreeOk(d, limit, f)
  {
    hide Mirrors, Mounted, WordSector, NodeOk, NodesOf, Listed, Spread;
    NodesOk(d, limit, f, f.root, t, 2);
    NodesListed(f, f.root, t, 2);
    NodesSpread(f, f.root, t, 2);
    RootFacts(d, limit, f, t);
    NodesLinked(d, limit, f);
    NodesStored(d, limit, f);
    hide FS.Linked, FS.Stored, FS.AllApart, FS.Lists;
    FS.Assemble(d, limit, f);
  }

  lemma RootFacts(d: seq<Sector>, limit: nat, f: FS.Tree, t: Tree)
    requires Stands(f, t) && Mounted(d, limit, t, 2)
    ensures f.root in f.metas && f.metas[f.root].index == 2 && f.metas[f.root].kind == KIND_DIR && 2 < limit <= |d|
  {
    hide NodesOf, MirrorsKids, MountedKids, NodeMounted;
    HeaderFits(t, 2);
  }

  lemma NodesLinked(d: seq<Sector>, limit: nat, f: FS.Tree)
    requires f.metas.Keys == f.kids.Keys && f.parentOf.Keys == f.metas.Keys - {f.root} && f.root in f.metas
    requires forall x :: x in f.metas ==> NodeOk(d, limit, f, x)
    requires forall x :: x in f.metas && x != f.root ==> Listed(f, x)
    ensures FS.Linked(f)
  {
    hide FS.HeaderStored, FS.Lists, FS.DistinctNames, NulFree;
    forall x | x in f.kids
      ensures FS.KidsOk(f, x, f.kids[x]) && (f.metas[x].kind != KIND_DIR ==> f.kids[x] == [])
    {
      assert NodeOk(d, limit, f, x);
      forall c | c in f.kids[x] ensures FS.KidOk(f, x, c) {
        assert KidOf(f, x, c);
      }
    }
    forall c | c in f.parentOf
      ensures f.parentOf[c] in f.kids && c in f.kids[f.parentOf[c]]
    {
      assert Listed(f, c);
    }
  }

  lemma NodesStored(d: seq<Sector>, limit: nat, f: FS.Tree)
    requires limit <= |d| && f.metas.Keys == f.kids.Keys && Spread(f, f.metas.Keys)
    requires forall x :: x in f.metas ==> NodeOk(d, limit, f, x)
    ensures FS.Stored(d, limit, f.metas) && FS.AllApart(f.metas)
    ensures forall x :: x in f.metas && f.metas[x].kind == KIND_DIR ==> FS.Lists(d, f, x)
    ensures forall x :: x in f.kids ==> f.metas[x].childCount == |f.kids[x]|
  {
    hide FS.HeaderStored, FS.Lists, FS.DistinctNames, KidOf, ExtentsApart;
    forall x | x in f.metas
      ensures FS.HeaderStored(d, limit, f.metas[x]) && f.metas[x].childCount == |f.kids[x]|
      ensures f.metas[x].kind == KIND_DIR ==> FS.Lists(d, f, x)
    {
      assert NodeOk(d, limit, f, x);
    }
  }

  // ---------------------------------------------------------------- contents

  /** Every file of the tree has its bytes, as the kernel's map of files has them. */
  ghost predicate Agrees(files: map<Inode, seq<byte>>, f: FS.Tree, n: Inode, t: Tree)
    decreases t, 1
  {
    match t
    case File(data) => n in files && files[n] == data
    case Dir(ks) => n !in files && n in f.kids && AgreesKids(files, f, f.kids[n], ks)
  }

  ghost predicate AgreesKids(files: map<Inode, seq<byte>>, f: FS.Tree, cs: seq<Inode>, ks: Kids)
    decreases ks, 0
  {
    match ks
    case NoKids => cs == []
    case Kid(name, node, rest) =>
      cs != [] && cs[0].name == name && Agrees(files, f, cs[0], node) && AgreesKids(files, f, cs[1..], rest)
  }

  lemma {:induction false} MountedAgrees(d: seq<Sector>, limit: nat, f: FS.Tree, n: Inode, t: Tree, i: nat)
    requires Fitting(t, i) && Mirrors(f, n, t, i) && Mounted(d, limit, t, i)
    ensures Agrees(FS.Files(d, f), f, n, t)
    decreases t, 1
  {
    hide Sectors, EncodeMeta, FS.HeaderStored, Content, Encode;
    HeaderFits(t, i);
    if t.Dir? {
      KidsAgree(d, limit, f, n, f.kids[n], t.kids, i + 1 + Sectors(TableSize(t.kids)));
    } else {
      FileHere(d, limit, f.metas[n]);
    }
  }

  lemma FileHere(d: seq<Sector>, limit: nat, m: Meta)
    requires limit <= |d| && FS.HeaderStored(d, limit, m)
    ensures Fits(m, |d|) && FS.Body(d, m) == Content(d, m)
  {
  }

  lemma {:induction false} KidsAgree(d: seq<Sector>, limit: nat, f: FS.Tree, p: Inode, cs: seq<Inode>, ks: Kids, j: nat)
    requires FittingKids(ks, j) && MirrorsKids(f, p, cs, ks, j) && MountedKids(d, limit, ks, j)
    ensures AgreesKids(FS.Files(d, f), f, cs, ks)
    decreases ks, 0
  {
    hide Mirrors, Mounted, FS.Files;
    if ks.Kid? {
      MountedAgrees(d, limit, f, cs[0], ks.node, j);
      KidsAgree(d, limit, f, p, cs[1..], ks.rest, j + Span(ks.node));
    }
  }

  /** The kernel starts from a disk that begins with the image of `t`: fs_init writes nothing, the invariant that all
      file-system operations keep holds, and every file has the bytes the image was built from. */
  method Boot(device: Device, root: Inode, ghost f: FS.Tree, ghost t: Tree, ghost buf: seq<byte>)
    returns (fs: FS.FileTree)
    requires Stands(f, t) && f.root == root && forall n :: n in f.metas && n != root ==> n.meta == f.metas[n]
    requires |buf| % SECTOR == 0 && |buf| <= 0x1_0000_0000 && HoldsAt(buf, 0, Image(t))
    requires device.sectors[..] == SectorsOf(buf)
    modifies device.sectors, root
    ensures fs.Valid() && fs.store.device == device && fs.tree == f && device.sectors[..] == old(device.sectors[..])
    ensures Agrees(fs.View(), f, root, t)
  {
    hide Mirrors, Mounted, WordSector, HoldsAt, SectorsOf, Image, NodesOf, FS.TreeOk, FS.Files, FS.Blank, Named;
    hide Fitting, Span, FS.PointerOf, Agrees;
    SpanFits(t, 2);
    ImageMounts(buf, t);
    ghost var d := device.sectors[..];
    DiskSize(buf);
    MountedTreeOk(d, 2 + Span(t), f, t);
    MountedAgrees(d, 2 + Span(t), f, root, t, 2);
    RootFacts(d, 2 + Span(t), f, t);
    FS.TreeWords(d, 2 + Span(t), f);
    fs := new FS.FileTree(device, root, f);
  }

  lemma DiskSize(buf: seq<byte>)
    requires |buf| % SECTOR == 0 && |buf| <= 0x1_0000_0000
    ensures SECTOR * |SectorsOf(buf)| <= 0x1_0000_0000
  {
  }
}
