/** The inode data path of src/fs.c: sector arithmetic, reads, writes, growth by
    relocation and the rewriting of directory entries it causes. Contracts here speak
    of one inode and its parent; FileSystem.dfy builds the tree-wide theorem on them. */
module FileData {
  import opened Bytes
  import opened DirTable
  import opened Disk
  import opened InodeHeader

  const BALLOC_SECTOR: nat := 0
  const ROOT_INDEX_SECTOR: nat := 1
  const FS_START_SECTOR: nat := 2

  /** The extent of an inode, its header sector and `alloc` data sectors, lies in [2, limit) and holds `size` bytes. */
  predicate Fits(m: Meta, limit: nat) {
    FS_START_SECTOR <= m.index && m.index + 1 + m.alloc <= limit && m.size <= SECTOR * m.alloc
  }

  predicate InExtent(m: Meta, s: nat) {
    m.index <= s < m.index + 1 + m.alloc
  }

  predicate ExtentsApart(m: Meta, n: Meta) {
    m.index + 1 + m.alloc <= n.index || n.index + 1 + n.alloc <= m.index
  }

  function Content(d: seq<Sector>, m: Meta): (r: seq<byte>)
    requires Fits(m, |d|)
    ensures |r| == m.size
  {
    ByteRange(d, m.index + 1, m.size)
  }

  lemma ContentSame(d: seq<Sector>, d': seq<Sector>, m: Meta)
    requires Fits(m, |d|) && |d'| == |d|
    requires forall s :: 0 <= s < |d| && InExtent(m, s) ==> d'[s] == d[s]
    ensures Content(d', m) == Content(d, m)
  {
    ByteRangeSame(d, d', m.index + 1, m.size, m.index + 1);
  }

  datatype Bounds = Bounds(bytesRead: int, secFrom: nat, secCount: nat, secOverflow: nat, secRead: int,
                           bytesOverflow: nat)

  /** inode_calculate_operation_bounds, for a non-empty byte range. */
  function OperationBounds(m: Meta, from: nat, count: nat): Bounds
    requires count > 0
  {
    var bytesTo := from + count;
    var secFrom := m.index + 1 + from / SECTOR;
    var secTo := m.index + 1 + (bytesTo - 1) / SECTOR + 1;
    var end := m.index + 1 + m.alloc;
    Bounds(if bytesTo > m.size then m.size - from else count,
           secFrom, secTo - secFrom,
           if secTo > end then secTo - end else 0,
           if secTo > end then end - secFrom else secTo - secFrom,
           if bytesTo > m.size then bytesTo - m.size else 0)
  }

  /** The write needs more sectors than are allocated. */
  predicate Overflows(m: Meta, from: nat, count: nat) {
    from + count > SECTOR * m.alloc
  }

  /** What the bounds mean: the overflow is exactly what the allocation lacks, and without overflow
      every sector touched is inside the extent, is read before it is written and has room for the bytes. */
  lemma BoundsMeaning(m: Meta, from: nat, count: nat)
    requires count > 0 && from <= m.size <= SECTOR * m.alloc
    ensures var op := OperationBounds(m, from, count);
            && (op.secOverflow == if Overflows(m, from, count) then Sectors(from + count) - m.alloc else 0)
            && (op.secOverflow == 0 ==>
                  && op.secRead == op.secCount
                  && op.secFrom + op.secCount <= m.index + 1 + m.alloc
                  && from % SECTOR + count <= SECTOR * op.secCount)
            && m.size + op.bytesOverflow == (if from + count > m.size then from + count else m.size)
            && op.bytesRead == (if count <= m.size - from then count else m.size - from)
            && from % SECTOR + op.bytesRead <= SECTOR * op.secRead
  {
  }

  /** Once the allocation has been raised by the overflow, the second computation finds no overflow. */
  lemma SecondBoundsFit(m: Meta, from: nat, count: nat, index: u32, alloc: u32)
    requires count > 0 && from <= m.size <= SECTOR * m.alloc && Overflows(m, from, count)
    requires alloc == OperationBounds(m, from, count).secOverflow + m.alloc
    ensures !Overflows(m.(index := index, alloc := alloc), from, count)
    ensures OperationBounds(m.(index := index, alloc := alloc), from, count).secOverflow == 0
  {
    BoundsMeaning(m, from, count);
    BoundsMeaning(m.(index := index, alloc := alloc), from, count);
  }

  class Inode {
    const name: seq<byte>
    var meta: Meta

    constructor (name: seq<byte>, meta: Meta)
      ensures this.name == name && this.meta == meta
    {
      this.name := name;
      this.meta := meta;
    }
  }

  datatype ChildOp = ChopAdd(name: seq<byte>, index: u32) | ChopReloc(name: seq<byte>, index: u32)

  /** What a child operation makes of a directory's entries. */
  function Edited(op: ChildOp, es: seq<Entry>): seq<Entry> {
    match op
    case ChopAdd(name, index) => es + [Entry(name, index)]
    case ChopReloc(name, index) => Redirect(es, name, index)
  }

  class Store {
    const device: Device
    var ballocPtr: nat

    constructor (device: Device, ballocPtr: nat)
      ensures this.device == device && this.ballocPtr == ballocPtr
    {
      this.device := device;
      this.ballocPtr := ballocPtr;
    }

    ghost function D(): seq<Sector>
      reads this, device.sectors
    {
      device.sectors[..]
    }

    ghost predicate Geometry()
      reads this
    {
      FS_START_SECTOR <= ballocPtr <= device.sectors.Length && SECTOR * device.sectors.Length <= 0x1_0000_0000
    }

    /** inode_read: the bytes of [from, from + count) that exist. */
    method InodeRead(node: Inode, from: nat, count: nat) returns (data: seq<byte>)
      requires Geometry() && Fits(node.meta, ballocPtr) && from <= node.meta.size
      ensures |data| == if count <= node.meta.size - from then count else node.meta.size - from
      ensures data == Content(D(), node.meta)[from..from + |data|]
    {
      if count == 0 {
        return [];
      }
      var m := node.meta;
      var op := OperationBounds(m, from, count);
      var blocks := device.ReadSectors(op.secFrom, op.secRead, op.secRead);
      var off := from % SECTOR;
      data := blocks[off..off + op.bytesRead];
      forall k | 0 <= k < op.bytesRead
        ensures data[k] == Content(D(), m)[from + k]
      {
        assert (off + k) / SECTOR == (from + k) / SECTOR - from / SECTOR;
        assert (off + k) % SECTOR == (from + k) % SECTOR;
      }
    }

    /** inode_readdir: the name of the record at `from` and the length of the record, or 0 at the end. */
    method InodeReaddir(node: Inode, from: nat) returns (len: nat, name: seq<byte>)
      requires Geometry() && Fits(node.meta, ballocPtr) && from <= node.meta.size
      requires from < node.meta.size ==> StrLen(Content(D(), node.meta)[from..]) < node.meta.size - from
      ensures from == node.meta.size ==> len == 0
      ensures from < node.meta.size ==>
                var rest := Content(D(), node.meta)[from..];
                len == StrLen(rest) + 5 && name == rest[..StrLen(rest)]
    {
      hide Content, StrLen;
      if from == node.meta.size {
        return 0, [];
      }
      var dir := InodeRead(node, from, node.meta.size - from);
      assert dir == Content(D(), node.meta)[from..];
      var n := 0;
      while dir[n] != 0
        invariant 0 <= n <= StrLen(dir) < |dir|
        decreases StrLen(dir) - n
      {
        n := n + 1;
      }
      return n + 5, dir[..n];
    }

    method InodeUpdate(node: Inode)
      requires node.meta.index < device.sectors.Length
      modifies device.sectors
      ensures D() == old(D())[node.meta.index := EncodeMeta(node.meta)]
    {
      device.AtaWrite(node.meta.index, EncodeMeta(node.meta));
    }

    /** The part of inode_write after any relocation: the range fits the allocation. */
    method WriteData(node: Inode, from: nat, buf: seq<byte>)
      requires Geometry() && Fits(node.meta, ballocPtr) && from <= node.meta.size
      requires |buf| > 0 && !Overflows(node.meta, from, |buf|)
      modifies device.sectors, node
      ensures node.meta == Grown(old(node.meta), from + |buf|)
      ensures Fits(node.meta, ballocPtr)
      ensures Content(D(), node.meta) == Splice(Content(old(D()), old(node.meta)), from, buf)
      ensures forall s :: 0 <= s < |D()| && !InExtent(node.meta, s) ==> D()[s] == old(D())[s]
      ensures D()[node.meta.index] == if from + |buf| > old(node.meta.size) then EncodeMeta(node.meta)
                else old(D())[node.meta.index]
    {
      BoundsMeaning(node.meta, from, |buf|);
      var op := OperationBounds(node.meta, from, |buf|);
      if op.bytesOverflow != 0 {
        node.meta := node.meta.(size := node.meta.size + op.bytesOverflow);
        InodeUpdate(node);
      }
      ghost var d1 := D();
      WriteBlocks(op, from % SECTOR, buf);
      PatchedRange(old(D()), d1, D(), old(node.meta), node.meta, from, buf);
    }

    /** Reads the sectors of a byte range, lays `buf` over them at `off`, and writes them back. */
    method WriteBlocks(op: Bounds, off: nat, buf: seq<byte>)
      requires op.secRead == op.secCount && op.secFrom + op.secCount <= device.sectors.Length
      requires off + |buf| <= SECTOR * op.secCount
      modifies device.sectors
      ensures Patched(old(D()), D(), op.secFrom, op.secCount, off, buf)
    {
      var blocks := device.ReadSectors(op.secFrom, op.secRead, op.secCount);
      CopyIn(blocks, off, buf);
      ghost var held, d := blocks[..], D();
      device.WriteSectors(op.secFrom, op.secCount, blocks);
      forall s | op.secFrom <= s < op.secFrom + op.secCount
        ensures D()[s] == PatchedSector(d, op.secFrom, s, off, buf)
      {
        var i := s - op.secFrom;
        assert D()[op.secFrom + i] == held[SECTOR * i..SECTOR * (i + 1)];
        forall k | 0 <= k < SECTOR
          ensures D()[s][k] == PatchedSector(d, op.secFrom, s, off, buf)[k]
        {
          assert D()[s][k] == held[SECTOR * i + k];
        }
      }
    }

    /** memcpy into a block buffer. */
    method CopyIn(blocks: array<byte>, off: nat, buf: seq<byte>)
      requires off + |buf| <= blocks.Length
      modifies blocks
      ensures forall k :: 0 <= k < blocks.Length ==>
                blocks[k] == if off <= k < off + |buf| then buf[k - off] else old(blocks[k])
    {
      var i := 0;
      while i < |buf|
        invariant 0 <= i <= |buf|
        invariant forall k :: 0 <= k < blocks.Length ==>
                    blocks[k] == if off <= k < off + i then buf[k - off] else old(blocks[k])
      {
        blocks[off + i] := buf[i];
        i := i + 1;
      }
    }

    /** binit: the allocation pointer as the disk has it; a disk without one gets it. */
    method Binit()
      requires device.sectors.Length > BALLOC_SECTOR
      modifies device.sectors, `ballocPtr
      ensures var p := WordAt(old(D())[BALLOC_SECTOR], 0);
              if p == 0 then ballocPtr == FS_START_SECTOR
                && D() == old(D())[BALLOC_SECTOR := WordSector(FS_START_SECTOR)]
              else ballocPtr == p && D() == old(D())
    {
      hide WordSector;
      ballocPtr := WordAt(device.sectors[BALLOC_SECTOR], 0);
      if ballocPtr == 0 {
        ballocPtr := FS_START_SECTOR;
        device.AtaWrite(BALLOC_SECTOR, WordSector(ballocPtr));
      }
    }

    /** balloc: the next run of sectors; the pointer on disk follows. */
    method Balloc(size: nat) returns (p: nat)
      requires Geometry() && ballocPtr + size <= device.sectors.Length
      modifies device.sectors, `ballocPtr
      ensures Geometry() && p == old(ballocPtr) && ballocPtr == p + size
      ensures D() == old(D())[BALLOC_SECTOR := WordSector(ballocPtr)]
    {
      p := ballocPtr;
      ballocPtr := ballocPtr + size;
      device.AtaWrite(BALLOC_SECTOR, WordSector(ballocPtr));
    }

    /** Copies the data sectors of an extent. */
    method CopyExtent(from: nat, to: nat, count: nat)
      requires from + count <= to && to + count <= device.sectors.Length
      modifies device.sectors
      ensures forall s :: to <= s < to + count ==> D()[s] == old(D())[s - (to - from)]
      ensures forall s :: 0 <= s < |D()| && !(to <= s < to + count) ==> D()[s] == old(D())[s]
    {
      var buffer := new byte[SECTOR];
      var gap := to - from;
      ghost var d := D();
      var i := 0;
      while i < count
        invariant 0 <= i <= count
        invariant |D()| == |d|
        invariant forall s {:trigger D()[s]} :: to <= s < to + i ==> D()[s] == d[s - gap]
        invariant forall s {:trigger D()[s]} :: 0 <= s < |d| && !(to <= s < to + i) ==> D()[s] == d[s]
        modifies buffer, device.sectors
      {
        device.AtaRead(from + i, buffer, 0);
        assert buffer[..] == D()[from + i];
        device.AtaWrite(to + i, buffer[..]);
        i := i + 1;
      }
    }

    /** The on-disk part of whoever points at a file. */
    ghost function Who(parent: Inode?): Pointer
      reads parent
    {
      if parent == null then Nobody else Someone(parent.meta)
    }

    /** inode_write. Without overflow the bytes are spliced in place. With overflow the file moves to
        fresh sectors, and whoever pointed at it, its parent's entry or the root index sector, follows. */
    method InodeWrite(node: Inode, from: nat, buf: seq<byte>, parent: Inode?, ghost es: seq<Entry>)
      requires Geometry() && Fits(node.meta, ballocPtr) && from <= node.meta.size && parent != node
      requires Overflows(node.meta, from, |buf|) ==>
                 && ballocPtr + Sectors(from + |buf|) + 1 <= device.sectors.Length
                 && (parent != null ==> NulFree(node.name) && ParentReady(D(), ballocPtr, node.meta, parent.meta, es))
      modifies device.sectors, `ballocPtr, node, parent
      ensures Geometry() && Fits(node.meta, ballocPtr)
      ensures parent != null ==> parent.meta == old(parent.meta)
      ensures Written(old(D()), D(), old(ballocPtr), ballocPtr, old(node.meta), node.meta, from, buf)
      ensures if Overflows(old(node.meta), from, |buf|) then
                && D()[node.meta.index] == EncodeMeta(node.meta)
                && Followed(D(), node.name, node.meta.index, Who(parent), es)
                && MoveFrame(old(D()), D(), old(ballocPtr), ballocPtr, Who(parent))
              else
                && ExtentFrame(old(D()), D(), node.meta)
                && D()[node.meta.index] == if from + |buf| > old(node.meta.size) then EncodeMeta(node.meta)
                                           else old(D())[node.meta.index]
      decreases if Overflows(node.meta, from, |buf|) then 1 else 0, 1
    {
      hide EncodeMeta, WordSector, Encode, Splice, ByteRange, Sectors, OperationBounds;
      if |buf| == 0 {
        SpliceNothing(Content(D(), node.meta), from);
        return;
      }
      BoundsMeaning(node.meta, from, |buf|);
      SectorsBound(from + |buf|);
      var op := OperationBounds(node.meta, from, |buf|);
      if op.secOverflow != 0 {
        InodeRealloc(node, op.secOverflow + node.meta.alloc, parent, es);
        ghost var d1, m1 := D(), node.meta;
        WriteData(node, from, buf);
        MoveThenWrite(old(D()), d1, D(), old(ballocPtr), ballocPtr, old(node.meta), m1, node.meta, from, buf,
                      node.name, Who(parent), es);
      } else {
        WriteData(node, from, buf);
      }
    }

    /** inode_realloc. */
    method InodeRealloc(node: Inode, sectors: nat, parent: Inode?, ghost es: seq<Entry>)
      requires Geometry() && Fits(node.meta, ballocPtr) && parent != node
      requires node.meta.alloc <= sectors && ballocPtr + sectors + 1 <= device.sectors.Length
      requires parent != null ==> NulFree(node.name) && ParentReady(D(), ballocPtr, node.meta, parent.meta, es)
      modifies device.sectors, `ballocPtr, node, parent
      ensures parent != null ==> parent.meta == old(parent.meta)
      ensures Geometry() && Relocated(old(D()), D(), old(ballocPtr), ballocPtr, old(node.meta), node.meta, sectors)
      ensures Followed(D(), node.name, node.meta.index, Who(parent), es)
      ensures MoveFrame(old(D()), D(), old(ballocPtr), ballocPtr, Who(parent))
      decreases 1, 0
    {
      hide EncodeMeta, WordSector, Encode, Splice, ByteRange, Sectors, OperationBounds;
      MoveExtent(node, sectors);
      ghost var d1 := D();
      if parent != null {
        ContentSame(old(D()), d1, parent.meta);
        InodeChildSet(parent, ChopReloc(node.name, node.meta.index), null, es, []);
      } else {
        device.AtaWrite(ROOT_INDEX_SECTOR, WordSector(node.meta.index));
      }
      ContentSame(d1, D(), node.meta);
    }

    /** The first half of inode_realloc: fresh sectors, the data copied, the header written. */
    method MoveExtent(node: Inode, sectors: nat)
      requires Geometry() && Fits(node.meta, ballocPtr)
      requires node.meta.alloc <= sectors && ballocPtr + sectors + 1 <= device.sectors.Length
      modifies device.sectors, `ballocPtr, node
      ensures Geometry() && Relocated(old(D()), D(), old(ballocPtr), ballocPtr, old(node.meta), node.meta, sectors)
      ensures D()[BALLOC_SECTOR] == WordSector(ballocPtr)
      ensures forall s :: 0 < s < |D()| && !(old(ballocPtr) <= s < ballocPtr) ==> D()[s] == old(D())[s]
    {
      hide EncodeMeta, WordSector, Encode, Splice, ByteRange, Sectors, OperationBounds;
      var newIndex := Balloc(sectors + 1);
      ghost var d1 := D();
      CopyExtent(node.meta.index + 1, newIndex + 1, node.meta.alloc);
      ghost var d2 := D();
      ContentMoved(d1, d2, node.meta, newIndex);
      ContentSame(old(D()), d1, node.meta);
      node.meta := node.meta.(index := newIndex, alloc := sectors);
      InodeUpdate(node);
      DataSame(d2, D(), node.meta);
    }

    /** inode_child_set. Relocating an entry keeps the size of the table, so that write never relocates
        the directory: it is called with no parent and yet never touches the root index. */
    method InodeChildSet(node: Inode, op: ChildOp, parent: Inode?, ghost es: seq<Entry>, ghost above: seq<Entry>)
      requires Geometry() && Fits(node.meta, ballocPtr) && parent != node
      requires EntriesOk(es) && Content(D(), node.meta) == Encode(es) && NulFree(op.name)
      requires op.ChopAdd? ==> |op.name| <= MAX_NAME && node.meta.childCount + 1 < 0x1_0000_0000
      requires op.ChopAdd? && Overflows(node.meta, 0, |Encode(Edited(op, es))|) ==>
                 && ballocPtr + Sectors(|Encode(Edited(op, es))|) + 1 <= device.sectors.Length
                 && (parent != null ==>
                       NulFree(node.name) && ParentReady(D(), ballocPtr, node.meta, parent.meta, above))
      modifies device.sectors, `ballocPtr, node, parent
      ensures Geometry() && Fits(node.meta, ballocPtr)
      ensures parent != null ==> parent.meta == old(parent.meta)
      ensures Written(old(D()), D(), old(ballocPtr), ballocPtr, Counted(op, old(node.meta)), node.meta, 0,
                      Encode(Edited(op, es)))
      ensures D()[node.meta.index] == EncodeMeta(node.meta)
      ensures Content(D(), node.meta) == Encode(Edited(op, es))
      ensures op.ChopReloc? ==> node.meta == old(node.meta) && ballocPtr == old(ballocPtr)
      ensures if Overflows(old(node.meta), 0, |Encode(Edited(op, es))|) then
                && Followed(D(), node.name, node.meta.index, Who(parent), above)
                && MoveFrame(old(D()), D(), old(ballocPtr), ballocPtr, Who(parent))
              else
                ExtentFrame(old(D()), D(), node.meta)
      decreases if op.ChopAdd? then 2 else 0, 2
    {
      hide EncodeMeta, WordSector, Encode, Splice, ByteRange, Sectors, OperationBounds, Edited, EntriesOk, Content;
      var table := EditedTable(node, op, es);
      if op.ChopAdd? {
        node.meta := node.meta.(childCount := node.meta.childCount + 1);
      }
      ghost var m1 := node.meta;
      InodeWrite(node, 0, table.ptr[..table.size], parent, above);
      ghost var d1 := D();
      InodeUpdate(node);
      UpdateAfterWrite(old(D()), d1, D(), old(ballocPtr), ballocPtr, m1, node.meta, Encode(Edited(op, es)),
                       node.name, Who(parent), above);
    }

    /** The directory's bytes in a table of their own, edited there. */
    method EditedTable(node: Inode, op: ChildOp, ghost es: seq<Entry>) returns (table: ChildTable)
      requires Geometry() && Fits(node.meta, ballocPtr)
      requires EntriesOk(es) && Content(D(), node.meta) == Encode(es) && NulFree(op.name)
      requires op.ChopAdd? ==> |op.name| <= MAX_NAME
      ensures table.Holds(Edited(op, es)) && |Encode(Edited(op, es))| >= node.meta.size
      ensures op.ChopReloc? ==> |Encode(Edited(op, es))| == node.meta.size
    {
      hide Encode, ByteRange;
      var data := InodeRead(node, 0, node.meta.size);
      table := new ChildTable(data, node.meta.alloc);
      match op {
        case ChopAdd(name, index) =>
          table.Add(name, index, es);
          AddGrows(es, name, index);
        case ChopReloc(name, index) =>
          table.EditIndex(name, index, es);
      }
    }
  }

  datatype Pointer = Nobody | Someone(meta: Meta)

  /** A parent whose entry for a child can be rewritten. */
  ghost predicate ParentReady(d: seq<Sector>, limit: nat, m: Meta, pm: Meta, es: seq<Entry>)
    requires limit <= |d|
  {
    Fits(pm, limit) && ExtentsApart(m, pm) && EntriesOk(es) && Content(d, pm) == Encode(es)
  }

  /** After a move to `index`, whoever points at the file points there: the entry called `name`
      of its parent, whose header and other entries are as before, or the root index sector. */
  ghost predicate Followed(d: seq<Sector>, name: seq<byte>, index: u32, who: Pointer, es: seq<Entry>) {
    |d| > ROOT_INDEX_SECTOR &&
    match who
    case Nobody => d[ROOT_INDEX_SECTOR] == WordSector(index)
    case Someone(pm) =>
      && Fits(pm, |d|) && d[pm.index] == EncodeMeta(pm)
      && Content(d, pm) == Encode(Redirect(es, name, index))
  }

  /** The effect of a write on the file itself. */
  ghost predicate Written(d: seq<Sector>, d': seq<Sector>, limit: nat, limit': nat, m: Meta, m': Meta, from: nat,
                          buf: seq<byte>) {
    && |d'| == |d| && SECTOR * |d| <= 0x1_0000_0000 && Fits(m, |d|) && Fits(m', |d'|) && from <= m.size
    && Content(d', m') == Splice(Content(d, m), from, buf)
    && if Overflows(m, from, |buf|) then
         Moved(|d|, limit, limit', m, m', from + |buf|)
       else
         from + |buf| < 0x1_0000_0000 && limit' == limit && m' == Grown(m, from + |buf|)
  }

  /** The file has got the smallest allocation that holds `size` bytes, at what was the allocation pointer. */
  ghost predicate Moved(room: nat, limit: nat, limit': nat, m: Meta, m': Meta, size: nat) {
    && limit' == limit + Sectors(size) + 1 <= room
    && m' == Meta(m.valid, m'.index, m'.size, m'.alloc, m.childCount, m.kind)
    && m'.index == limit && m'.alloc == Sectors(size) && m'.size == size
  }

  /** The effect of a relocation that does not write yet. */
  ghost predicate Relocated(d: seq<Sector>, d': seq<Sector>, limit: nat, limit': nat, m: Meta, m': Meta, sectors: nat) {
    && |d'| == |d| && Fits(m, |d|) && Fits(m', |d'|)
    && limit' == limit + sectors + 1 <= |d|
    && m' == Meta(m.valid, m'.index, m.size, m'.alloc, m.childCount, m.kind)
    && m'.index == limit && m'.alloc == sectors
    && Content(d', m') == Content(d, m)
    && d'[m'.index] == EncodeMeta(m')
  }

  predicate TouchedByMove(s: nat, limit: nat, limit': nat, who: Pointer) {
    s == BALLOC_SECTOR || limit <= s < limit'
      || (if who.Someone? then InExtent(who.meta, s) else s == ROOT_INDEX_SECTOR)
  }

  /** All a move changes: the allocation pointer, fresh sectors and whoever pointed at the file. */
  ghost predicate MoveFrame(d: seq<Sector>, d': seq<Sector>, limit: nat, limit': nat, who: Pointer) {
    && |d'| == |d| > 0 && limit' < 0x1_0000_0000 && d'[BALLOC_SECTOR] == WordSector(limit')
    && forall s :: 0 <= s < |d| && !TouchedByMove(s, limit, limit', who) ==> d'[s] == d[s]
  }

  /** All a write in place changes: the file's own extent. */
  ghost predicate ExtentFrame(d: seq<Sector>, d': seq<Sector>, m: Meta) {
    |d'| == |d| && forall s :: 0 <= s < |d| && !InExtent(m, s) ==> d'[s] == d[s]
  }

  function Counted(op: ChildOp, m: Meta): Meta
    requires op.ChopAdd? ==> m.childCount + 1 < 0x1_0000_0000
  {
    if op.ChopAdd? then m.(childCount := m.childCount + 1) else m
  }

  lemma SectorsBound(n: nat)
    ensures n <= SECTOR * Sectors(n) < n + SECTOR
  {
  }

  lemma SpliceNothing(s: seq<byte>, at: nat)
    requires at <= |s|
    ensures Splice(s, at, []) == s
  {
  }

  lemma AddGrows(es: seq<Entry>, name: seq<byte>, index: u32)
    ensures |Encode(es + [Entry(name, index)])| >= |Encode(es)|
  {
    EncodeConcat(es, [Entry(name, index)]);
  }

  lemma DataSame(d: seq<Sector>, d': seq<Sector>, m: Meta)
    requires Fits(m, |d|) && |d'| == |d|
    requires forall s :: m.index + 1 <= s < m.index + 1 + m.alloc ==> d'[s] == d[s]
    ensures Content(d', m) == Content(d, m)
  {
    ByteRangeSame(d, d', m.index + 1, m.size, m.index + 1);
  }

  lemma ContentMoved(d: seq<Sector>, d': seq<Sector>, m: Meta, index: nat)
    requires Fits(m, |d|) && |d'| == |d| && index + 1 + m.alloc <= |d| && m.index <= index
    requires forall s :: index + 1 <= s < index + 1 + m.alloc ==> d'[s] == d[s - (index - m.index)]
    ensures ByteRange(d', index + 1, m.size) == Content(d, m)
  {
    var n := Sectors(m.size);
    assert d'[index + 1..index + 1 + n] == d[m.index + 1..m.index + 1 + n];
    ByteRangeSame(d, d', m.index + 1, m.size, index + 1);
  }

  /** A relocation followed by a write in place is the whole write. */
  lemma MoveThenWrite(d0: seq<Sector>, d1: seq<Sector>, d2: seq<Sector>, limit: nat, limit': nat,
                      m0: Meta, m1: Meta, m2: Meta, from: nat, buf: seq<byte>, name: seq<byte>, who: Pointer,
                        es: seq<Entry>)
    requires SECTOR * |d0| <= 0x1_0000_0000 && Fits(m0, limit) && from <= m0.size && Overflows(m0, from, |buf|)
    requires FS_START_SECTOR <= limit && Relocated(d0, d1, limit, limit', m0, m1, Sectors(from + |buf|))
    requires Followed(d1, name, m1.index, who, es) && MoveFrame(d0, d1, limit, limit', who)
    requires who.Someone? ==> Fits(who.meta, limit)
    requires from + |buf| < 0x1_0000_0000 && m2 == Grown(m1, from + |buf|) && Fits(m2, |d2|) && ExtentFrame(d1, d2, m2)
    requires Content(d2, m2) == Splice(Content(d1, m1), from, buf)
    ensures Written(d0, d2, limit, limit', m0, m2, from, buf)
    ensures Followed(d2, name, m2.index, who, es) && MoveFrame(d0, d2, limit, limit', who)
  {
    hide EncodeMeta, WordSector, Encode, Splice, ByteRange, Sectors;
    if who.Someone? {
      ContentSame(d1, d2, who.meta);
    }
  }

  /** Storing the header once more after the write. */
  lemma UpdateAfterWrite(d0: seq<Sector>, d1: seq<Sector>, d2: seq<Sector>, limit: nat, limit': nat,
                         m: Meta, m': Meta, bytes: seq<byte>, name: seq<byte>, who: Pointer, es: seq<Entry>)
    requires Written(d0, d1, limit, limit', m, m', 0, bytes) && |bytes| >= m.size && FS_START_SECTOR <= limit
    requires Fits(m, limit)
    requires d2 == d1[m'.index := EncodeMeta(m')]
    requires who.Someone? && Overflows(m, 0, |bytes|) ==> Fits(who.meta, limit)
    ensures Written(d0, d2, limit, limit', m, m', 0, bytes) && Content(d2, m') == bytes
    ensures Followed(d1, name, m'.index, who, es) && Overflows(m, 0, |bytes|) ==> Followed(d2, name, m'.index, who, es)
    ensures MoveFrame(d0, d1, limit, limit', who) && Overflows(m, 0, |bytes|) ==> MoveFrame(d0, d2, limit, limit', who)
    ensures ExtentFrame(d0, d1, m') ==> ExtentFrame(d0, d2, m')
  {
    DataSame(d1, d2, m');
    assert Splice(Content(d0, m), 0, bytes) == bytes;
    hide EncodeMeta, WordSector, Encode, Splice, ByteRange, Sectors;
    if who.Someone? && Overflows(m, 0, |bytes|) {
      ContentSame(d1, d2, who.meta);
    }
  }

  /** Sector s after `buf` has been laid over the run of sectors that starts at `first`, `off` bytes in. */
  function PatchedSector(d: seq<Sector>, first: nat, s: nat, off: nat, buf: seq<byte>): Sector
    requires first <= s < |d|
  {
    seq(SECTOR, k requires 0 <= k < SECTOR =>
      var j := SECTOR * (s - first) + k;
      if off <= j < off + |buf| then buf[j - off] else d[s][k])
  }

  ghost predicate Patched(d: seq<Sector>, d': seq<Sector>, first: nat, count: nat, off: nat, buf: seq<byte>) {
    && |d'| == |d| && first + count <= |d|
    && (forall s :: first <= s < first + count ==> d'[s] == PatchedSector(d, first, s, off, buf))
    && (forall s :: 0 <= s < |d| && !(first <= s < first + count) ==> d'[s] == d[s])
  }

  /** The header of a file that must reach `upTo` bytes. */
  function Grown(m: Meta, upTo: nat): (r: Meta)
    requires upTo < 0x1_0000_0000
  {
    if upTo > m.size then m.(size := upTo) else m
  }

  /** Writing back a patched run of sectors splices the file's bytes. */
  lemma PatchedRange(d0: seq<Sector>, d1: seq<Sector>, d2: seq<Sector>, m: Meta, m': Meta, from: nat, buf: seq<byte>)
    requires |d0| == |d1| && Fits(m, |d0|) && from <= m.size
    requires |buf| > 0 && !Overflows(m, from, |buf|) && from + |buf| < 0x1_0000_0000 && m' == Grown(m, from + |buf|)
    requires forall s :: 0 <= s < |d0| && s != m.index ==> d1[s] == d0[s]
    requires Patched(d1, d2, m.index + 1 + from / SECTOR, OperationBounds(m, from, |buf|).secCount, from % SECTOR, buf)
    ensures Fits(m', |d2|) && Content(d2, m') == Splice(Content(d0, m), from, buf)
  {
    hide Patched, OperationBounds;
    PatchedWhole(d0, d1, d2, m, from, buf);
    var room := SECTOR * m.alloc;
    var whole, whole' := ByteRange(d0, m.index + 1, room), ByteRange(d2, m.index + 1, room);
    hide Splice;
    SpliceOfPrefix(whole, whole', m.size, from, buf);
    ByteRangePrefix(d0, m.index + 1, m.size, room);
    ByteRangePrefix(d2, m.index + 1, m'.size, room);
  }

  lemma PatchedWhole(d0: seq<Sector>, d1: seq<Sector>, d2: seq<Sector>, m: Meta, from: nat, buf: seq<byte>)
    requires |d0| == |d1| && Fits(m, |d0|) && from <= m.size
    requires |buf| > 0 && !Overflows(m, from, |buf|)
    requires forall s :: 0 <= s < |d0| && s != m.index ==> d1[s] == d0[s]
    requires Patched(d1, d2, m.index + 1 + from / SECTOR, OperationBounds(m, from, |buf|).secCount, from % SECTOR, buf)
    ensures |d2| == |d0|
    ensures ByteRange(d2, m.index + 1, SECTOR * m.alloc) ==
              Splice(ByteRange(d0, m.index + 1, SECTOR * m.alloc), from, buf)
  {
    hide OperationBounds, Splice, PatchedSector;
    var room := SECTOR * m.alloc;
    var whole, whole' := ByteRange(d0, m.index + 1, room), ByteRange(d2, m.index + 1, room);
    forall k | 0 <= k < room
      ensures whole'[k] == if from <= k < from + |buf| then buf[k - from] else whole[k]
    {
      PatchedByte(d0, d1, d2, m, from, buf, k);
    }
    SpliceIs(whole, whole', from, buf);
  }

  lemma PatchedByte(d0: seq<Sector>, d1: seq<Sector>, d2: seq<Sector>, m: Meta, from: nat, buf: seq<byte>, k: nat)
    requires |d0| == |d1| && Fits(m, |d0|) && from <= m.size
    requires |buf| > 0 && !Overflows(m, from, |buf|) && k < SECTOR * m.alloc
    requires forall s :: 0 <= s < |d0| && s != m.index ==> d1[s] == d0[s]
    requires Patched(d1, d2, m.index + 1 + from / SECTOR, OperationBounds(m, from, |buf|).secCount, from % SECTOR, buf)
    ensures m.index + 1 + k / SECTOR < |d2|
    ensures d2[m.index + 1 + k / SECTOR][k % SECTOR]
         == if from <= k < from + |buf| then buf[k - from] else d0[m.index + 1 + k / SECTOR][k % SECTOR]
  {
    var first := m.index + 1 + from / SECTOR;
    var s := m.index + 1 + k / SECTOR;
    if first <= s < first + OperationBounds(m, from, |buf|).secCount {
      var j := SECTOR * (s - first) + k % SECTOR;
      assert j == k - SECTOR * (from / SECTOR);
      assert d2[s] == PatchedSector(d1, first, s, from % SECTOR, buf);
    }
  }
}
