/** The on-disk part of inode_t: six little-endian words at the front of a header
    sector. src/fs.c writes and reads it, fsgen.js lays it out and fscan.js parses it. */
module InodeHeader {
  import opened Bytes
  import opened DirTable
  import opened Disk

  const KIND_FILE: u32 := 0
  const KIND_DIR: u32 := 1

  datatype Meta = Meta(valid: u32, index: u32, size: u32, alloc: u32, childCount: u32, kind: u32)

  function Zeros(n: nat): (z: seq<byte>)
    ensures |z| == n
  {
    seq(n, i => 0)
  }

  function SixWords(m: Meta): (s: seq<byte>)
    ensures |s| == 24
  {
    Spell(m.valid) + Spell(m.index) + Spell(m.size) + Spell(m.alloc) + Spell(m.childCount) + Spell(m.kind)
  }

  function EncodeMeta(m: Meta): Sector {
    SixWords(m) + Zeros(SECTOR - 24)
  }

  function DecodeMeta(s: seq<byte>): Meta
    requires |s| >= 24
  {
    Meta(WordAt(s, 0), WordAt(s, 4), WordAt(s, 8), WordAt(s, 12), WordAt(s, 16), WordAt(s, 20))
  }

  /** A sector holding one word, such as the allocation pointer or the root index. */
  function WordSector(v: u32): Sector {
    Spell(v) + Zeros(SECTOR - 4)
  }

  lemma WordSectorWord(v: u32)
    ensures WordAt(WordSector(v), 0) == v
  {
    var s := WordSector(v);
    WordSpell(v);
    hide Spell;
    assert forall k :: 0 <= k < 4 ==> s[k] == Spell(v)[k];
  }

  /** Fetching a header gives back what was stored, whatever follows it in the sector. */
  lemma DecodeEncodeMeta(m: Meta, rest: seq<byte>)
    ensures DecodeMeta(SixWords(m) + rest) == m
  {
    hide Spell, Word;
    var s := SixWords(m) + rest;
    WordInside(s, 0, m.valid);
    WordInside(s, 4, m.index);
    WordInside(s, 8, m.size);
    WordInside(s, 12, m.alloc);
    WordInside(s, 16, m.childCount);
    WordInside(s, 20, m.kind);
  }

  /** Where the six words lie in the sector, and that nothing else is in it. */
  lemma HeaderLayout(m: Meta)
    ensures var s := EncodeMeta(m);
            && WordAt(s, 0) == m.valid && WordAt(s, 4) == m.index && WordAt(s, 8) == m.size
            && WordAt(s, 12) == m.alloc && WordAt(s, 16) == m.childCount && WordAt(s, 20) == m.kind
            && forall k :: 24 <= k < SECTOR ==> s[k] == 0
  {
    hide Spell, Word;
    var s := EncodeMeta(m);
    WordInside(s, 0, m.valid);
    WordInside(s, 4, m.index);
    WordInside(s, 8, m.size);
    WordInside(s, 12, m.alloc);
    WordInside(s, 16, m.childCount);
    WordInside(s, 20, m.kind);
  }

  lemma WordInside(s: seq<byte>, at: nat, v: u32)
    requires at + 4 <= |s| && s[at..at + 4] == Spell(v)
    ensures WordAt(s, at) == v
  {
    var w := s[at..at + 4];
    WordSpell(v);
    hide Spell;
    assert w[0] == s[at] && w[1] == s[at + 1] && w[2] == s[at + 2] && w[3] == s[at + 3];
  }
}
