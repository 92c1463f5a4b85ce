/** The disk as 512-byte sectors, byte ranges across sectors, and the byte-string
    operations a file write and a file read amount to. */
module Disk {
  import opened Bytes
  import opened DirTable

  type Sector = s: seq<byte> | |s| == SECTOR witness seq(SECTOR, i => 0)

  /** Sectors it takes to hold n bytes. */
  function Sectors(n: nat): nat {
    (n + SECTOR - 1) / SECTOR
  }

  /** The n bytes that start with sector `from`. */
  function ByteRange(d: seq<Sector>, from: nat, n: nat): (r: seq<byte>)
    requires from + Sectors(n) <= |d|
    ensures |r| == n
  {
    seq(n, k requires 0 <= k < n => d[from + k / SECTOR][k % SECTOR])
  }

  /** `s` with `buf` laid over it at `at`; it grows if `buf` sticks out. */
  function Splice(s: seq<byte>, at: nat, buf: seq<byte>): (r: seq<byte>)
    requires at <= |s|
    ensures |r| == if at + |buf| > |s| then at + |buf| else |s|
  {
    s[..at] + buf + (if at + |buf| <= |s| then s[at + |buf|..] else [])
  }

  lemma ByteRangePrefix(d: seq<Sector>, from: nat, n: nat, m: nat)
    requires n <= m && from + Sectors(m) <= |d|
    ensures from + Sectors(n) <= |d| && ByteRange(d, from, n) == ByteRange(d, from, m)[..n]
  {
  }

  lemma ByteRangeSame(d: seq<Sector>, d': seq<Sector>, from: nat, n: nat, from': nat)
    requires from + Sectors(n) <= |d| && from' + Sectors(n) <= |d'|
    requires d[from..from + Sectors(n)] == d'[from'..from' + Sectors(n)]
    ensures ByteRange(d, from, n) == ByteRange(d', from', n)
  {
    forall k | 0 <= k < n
      ensures d[from + k / SECTOR][k % SECTOR] == d'[from' + k / SECTOR][k % SECTOR]
    {
      var i := k / SECTOR;
      assert i < Sectors(n);
      assert d[from..from + Sectors(n)][i] == d'[from'..from' + Sectors(n)][i];
    }
  }

  /** A write inside the allocation, seen through the first `size` bytes, grown to what the write needs. */
  lemma SpliceOfPrefix(whole: seq<byte>, whole': seq<byte>, size: nat, at: nat, buf: seq<byte>)
    requires at <= size <= |whole| && at + |buf| <= |whole|
    requires whole' == Splice(whole, at, buf)
    ensures var size' := if at + |buf| > size then at + |buf| else size;
            whole'[..size'] == Splice(whole[..size], at, buf)
  {
  }

  /** Reading back what a write has put down, and nothing else has changed. */
  lemma ReadAfterSplice(s: seq<byte>, at: nat, buf: seq<byte>, k: nat)
    requires at <= |s| && k < |Splice(s, at, buf)|
    ensures Splice(s, at, buf)[k] == if at <= k < at + |buf| then buf[k - at] else s[k]
  {
  }

  lemma SpliceIs(s: seq<byte>, s': seq<byte>, at: nat, buf: seq<byte>)
    requires |s'| == |s| && at + |buf| <= |s|
    requires forall k :: 0 <= k < |s| ==> s'[k] == if at <= k < at + |buf| then buf[k - at] else s[k]
    ensures s' == Splice(s, at, buf)
  {
  }

  class Device {
    const sectors: array<Sector>

    constructor (sectors: array<Sector>)
      ensures this.sectors == sectors
    {
      this.sectors := sectors;
    }

    method AtaRead(sector: nat, buffer: array<byte>, off: nat)
      requires sector < sectors.Length && off + SECTOR <= buffer.Length && buffer as object != sectors
      modifies buffer
      ensures forall k :: off <= k < off + SECTOR ==> buffer[k] == sectors[sector][k - off]
      ensures forall k :: 0 <= k < buffer.Length && !(off <= k < off + SECTOR) ==> buffer[k] == old(buffer[k])
    {
      var data := sectors[sector];
      forall k | 0 <= k < SECTOR {
        buffer[off + k] := data[k];
      }
    }

    method AtaWrite(sector: nat, data: Sector)
      requires sector < sectors.Length
      modifies sectors
      ensures sectors[..] == old(sectors[..])[sector := data]
    {
      sectors[sector] := data;
    }

    /** Reads `count` consecutive sectors into a buffer with room for `room` sectors. */
    method ReadSectors(first: nat, count: nat, room: nat) returns (blocks: array<byte>)
      requires first + count <= sectors.Length && count <= room
      ensures fresh(blocks) && blocks.Length == SECTOR * room
      ensures forall k :: 0 <= k < SECTOR * count ==> blocks[k] == sectors[first + k / SECTOR][k % SECTOR]
    {
      blocks := new byte[SECTOR * room];
      var i := 0;
      while i < count
        invariant 0 <= i <= count
        invariant forall k :: 0 <= k < SECTOR * i ==> blocks[k] == sectors[first + k / SECTOR][k % SECTOR]
        modifies blocks
      {
        AtaRead(first + i, blocks, i * SECTOR);
        i := i + 1;
      }
    }

    /** Writes `count` consecutive sectors from a buffer. */
    method WriteSectors(first: nat, count: nat, blocks: array<byte>)
      requires first + count <= sectors.Length && blocks.Length == SECTOR * count && blocks as object != sectors
      modifies sectors
      ensures forall i :: 0 <= i < count ==> sectors[first + i] == blocks[SECTOR * i..SECTOR * (i + 1)]
      ensures forall s :: 0 <= s < sectors.Length && !(first <= s < first + count) ==> sectors[s] == old(sectors[s])
    {
      var i := 0;
      while i < count
        invariant 0 <= i <= count
        invariant forall j :: 0 <= j < i ==> sectors[first + j] == blocks[SECTOR * j..SECTOR * (j + 1)]
        invariant forall s :: 0 <= s < sectors.Length && !(first <= s < first + i) ==> sectors[s] == old(sectors[s])
      {
        AtaWrite(first + i, blocks[SECTOR * i..SECTOR * (i + 1)]);
        i := i + 1;
      }
    }
  }
}
