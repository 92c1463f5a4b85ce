/** What fsgen.js writes is a disk that src/fs.c can start from: the pointers in front are right, and under every
    node's index the kernel finds that node's header, its bytes or its packed records, and its children where the
    records say. */
module ImageMount {
  import opened Bytes
  import opened DirTable
  import opened Disk
  import opened InodeHeader
  import opened FileData
  import opened ImageTree
  import opened ImageRoundTrip
  import FileSystem

  /** A file of whole sectors as a disk. */
  function SectorsOf(buf: seq<byte>): (d: seq<Sector>)
    requires |buf| % SECTOR == 0
    ensures |d| == |buf| / SECTOR
  {
    seq(|buf| / SECTOR, s requires 0 <= s < |buf| / SECTOR => buf[SECTOR * s..SECTOR * s + SECTOR])
  }

  /** The kernel's view of the subtree whose header is at sector i; its extents lie in [i, i + Span(t)) and
      those of its children one behind the other after its own. */
  ghost predicate Mounted(d: seq<Sector>, limit: nat, t: Tree, i: nat)
    decreases t, 1
  {
    Fitting(t, i) && i + Span(t) <= limit <= |d| && NodeMounted(d, limit, t, i)
    && (t.Dir? ==> MountedKids(d, limit, t.kids, i + 1 + Sectors(TableSize(t.kids))))
  }

  ghost predicate MountedKids(d: seq<Sector>, limit: nat, ks: Kids, j: nat)
    decreases ks, 0
  {
    match ks
    case NoKids => true
    case Kid(_, node, rest) => Mounted(d, limit, node, j) && MountedKids(d, limit, rest, j + Span(node))
  }

  /** Header and contents of one node, read as inode_fetch and inode_read do. */
  ghost predicate NodeMounted(d: seq<Sector>, limit: nat, t: Tree, i: nat)
    requires Fitting(t, i) && limit <= |d|
  {
    HeaderFits(t, i);
    var m := HeaderOf(t, i);
    && FileSystem.HeaderStored(d, limit, m) && m.index == i && m.alloc == Sectors(m.size)
    && Content(d, m) == ContentOf(t, i)
  }

  lemma SectorHeld(buf: seq<byte>, s: nat, sector: Sector)
    requires |buf| % SECTOR == 0 && HoldsAt(buf, SECTOR * s, sector)
    ensures s < |SectorsOf(buf)| && SectorsOf(buf)[s] == sector
  {
  }

  lemma BytesHeld(buf: seq<byte>, from: nat, bytes: seq<byte>)
    requires |buf| % SECTOR == 0 && HoldsAt(buf, SECTOR * from, bytes) && from + Sectors(|bytes|) <= |SectorsOf(buf)|
    ensures ByteRange(SectorsOf(buf), from, |bytes|) == bytes
  {
    var d := SectorsOf(buf);
    forall k | 0 <= k < |bytes| ensures d[from + k / SECTOR][k % SECTOR] == bytes[k] {
      var s, o := from + k / SECTOR, k % SECTOR;
      assert SECTOR * s + o == SECTOR * from + k;
      assert d[s] == buf[SECTOR * s..SECTOR * s + SECTOR];
      assert buf[SECTOR * from..SECTOR * from + |bytes|][k] == bytes[k];
    }
  }

  lemma EmittedNode(buf: seq<byte>, t: Tree, i: nat, limit: nat)
    requires |buf| % SECTOR == 0 && Fitting(t, i) && HoldsAt(buf, SECTOR * i, Emit(t, i))
    requires 2 <= i && i + Span(t) <= limit <= |SectorsOf(buf)|
    ensures NodeMounted(SectorsOf(buf), limit, t, i)
  {
    hide EncodeMeta, Emit, ContentOf, HoldsAt, SectorsOf;
    HeaderFits(t, i);
    NodeHeld(buf, t, i);
    EmitNodeLength(t, i);
    var m := HeaderOf(t, i);
    SectorHeld(buf, i, EncodeMeta(m));
    RoomFor(SizeOf(t));
    BytesHeld(buf, i + 1, ContentOf(t, i));
  }

  lemma RoomFor(n: nat)
    ensures n <= SECTOR * Sectors(n)
  {
  }

  lemma {:induction false} EmittedTree(buf: seq<byte>, t: Tree, i: nat, limit: nat)
    requires |buf| % SECTOR == 0 && Fitting(t, i) && HoldsAt(buf, SECTOR * i, Emit(t, i))
    requires 2 <= i && i + Span(t) <= limit <= |SectorsOf(buf)|
    ensures Mounted(SectorsOf(buf), limit, t, i)
    decreases t, 1
  {
    hide Emit, HoldsAt, SectorsOf, NodeMounted, Sectors, Fitting, FittingKids, Span;
    EmittedNode(buf, t, i, limit);
    if t.Dir? {
      KidsRoom(t, i);
      NodeHeld(buf, t, i);
      EmittedKids(buf, t.kids, i + 1 + Sectors(TableSize(t.kids)), limit);
    }
  }

  lemma {:induction false} EmittedKids(buf: seq<byte>, ks: Kids, j: nat, limit: nat)
    requires |buf| % SECTOR == 0 && FittingKids(ks, j) && HoldsAt(buf, SECTOR * j, EmitKids(ks, j))
    requires 2 <= j && j + SpanKids(ks) <= limit <= |SectorsOf(buf)|
    ensures MountedKids(SectorsOf(buf), limit, ks, j)
    decreases ks, 0
  {
    hide Emit, HoldsAt, SectorsOf, NodeMounted, Mounted, Sectors, TableSize, KidCount;
    if ks.Kid? {
      EmitLength(ks.node, j);
      HoldsParts(buf, SECTOR * j, Emit(ks.node, j), EmitKids(ks.rest, j + Span(ks.node)));
      EmittedTree(buf, ks.node, j, limit);
      EmittedKids(buf, ks.rest, j + Span(ks.node), limit);
    }
  }

  /** A disk that starts with the image of a tree, any tree that fits: allocation pointer, root index and every node
      are where the kernel looks. */
  lemma ImageMounts(buf: seq<byte>, t: Tree)
    requires Fitting(t, 2) && |buf| % SECTOR == 0 && HoldsAt(buf, 0, Image(t))
    ensures var d := SectorsOf(buf);
            2 + Span(t) <= |d| && d[0] == WordSector(2 + Span(t)) && d[1] == WordSector(2)
              && Mounted(d, 2 + Span(t), t, 2)
  {
    hide Emit, Mounted, WordSector, SectorsOf, HoldsAt, Span;
    EmitLength(t, 2);
    var a, b, c := WordSector(2 + Span(t)), WordSector(2), Emit(t, 2);
    assert Image(t) == a + (b + c);
    HoldsParts(buf, 0, a, b + c);
    HoldsParts(buf, SECTOR, b, c);
    SectorHeld(buf, 0, a);
    SectorHeld(buf, 1, b);
    RoomHeld(buf, 2, c, Span(t));
    EmittedTree(buf, t, 2, 2 + Span(t));
  }

  lemma RoomHeld(buf: seq<byte>, i: nat, s: seq<byte>, n: nat)
    requires |buf| % SECTOR == 0 && HoldsAt(buf, SECTOR * i, s) && |s| == SECTOR * n
    ensures i + n <= |SectorsOf(buf)|
  {
    assert SECTOR * (i + n) <= SECTOR * (|buf| / SECTOR);
  }

  /** A child is found by its name: looking it up in its directory's records gives the sector it is mounted at. */
  lemma {:induction false} MountedByName(d: seq<Sector>, limit: nat, ks: Kids, j: nat, taken: set<seq<byte>>,
                                         name: seq<byte>)
    requires MountedKids(d, limit, ks, j) && NamedKids(ks, taken) && j + SpanKids(ks) < LIMIT && j > 0
    ensures name in NamesOf(ks) <==> Lookup(EntriesAt(ks, j), name) != 0
    ensures name in NamesOf(ks) ==>
              exists node :: NamedNode(ks, name, node) && Mounted(d, limit, node, Lookup(EntriesAt(ks, j), name))
    decreases ks
  {
    hide Mounted, Named, NulFree, Span, Lookup, NamedNode;
    SpanPositive(ks);
    if ks.Kid? {
      var rest := EntriesAt(ks.rest, j + Span(ks.node));
      LookupFirst(Entry(ks.name, j), rest, name);
      NamedHere(ks, name);
      if ks.name == name {
        assert NamedNode(ks, name, ks.node);
      } else {
        MountedByName(d, limit, ks.rest, j + Span(ks.node), taken + {ks.name}, name);
        if name in NamesOf(ks) {
          var node :| NamedNode(ks.rest, name, node) && Mounted(d, limit, node, Lookup(rest, name));
          assert NamedNode(ks, name, node);
        }
      }
    } else {
      LookupNone(name);
    }
  }

  lemma SpanPositive(ks: Kids)
    ensures ks.Kid? ==> Span(ks.node) > 0
  {
  }

  lemma LookupFirst(e: Entry, rest: seq<Entry>, name: seq<byte>)
    ensures Lookup([e] + rest, name) == if e.name == name then e.index else Lookup(rest, name)
  {
    assert ([e] + rest)[1..] == rest;
  }

  lemma LookupNone(name: seq<byte>)
    ensures Lookup([], name) == 0
  {
  }

  lemma NamedHere(ks: Kids, name: seq<byte>)
    requires ks.Kid?
    ensures ks.name == name ==> NamedNode(ks, name, ks.node)
    ensures forall node :: NamedNode(ks.rest, name, node) ==> NamedNode(ks, name, node)
  {
  }

  predicate NamedNode(ks: Kids, name: seq<byte>, node: Tree) {
    ks.Kid? && ((ks.name == name && ks.node == node) || NamedNode(ks.rest, name, node))
  }
}
