/** Machine bytes and the little-endian 32-bit words that headers, inodes and
    directory records are made of. */
module Bytes {
  type byte = x: int | 0 <= x < 256
  type u32 = x: int | 0 <= x < 0x1_0000_0000

  /** The word spelled by four bytes, least significant first. */
  function Word(b0: byte, b1: byte, b2: byte, b3: byte): u32 {
    b0 + 0x100 * b1 + 0x1_0000 * b2 + 0x100_0000 * b3
  }

  /** The n low base-256 digits of v, least significant first. */
  function Digits(v: nat, n: nat): (s: seq<byte>)
    ensures |s| == n
  {
    if n == 0 then [] else [v % 0x100] + Digits(v / 0x100, n - 1)
  }

  /** The four bytes of a word, least significant first. */
  function Spell(v: u32): (s: seq<byte>)
    ensures |s| == 4
  {
    Digits(v, 4)
  }

  /** The word stored at offset `at` of a byte string. */
  function WordAt(s: seq<byte>, at: nat): u32
    requires at + 4 <= |s|
  {
    Word(s[at], s[at + 1], s[at + 2], s[at + 3])
  }

  /** Byte k of a word counts 256 to the k. */
  lemma LittleEndian(v: u32)
    ensures Spell(v) == [v % 0x100, v / 0x100 % 0x100, v / 0x1_0000 % 0x100, v / 0x100_0000]
  {
    var v1, v2, v3 := v / 0x100, v / 0x100 / 0x100, v / 0x100 / 0x100 / 0x100;
    assert v2 == v / 0x1_0000 && v3 == v / 0x100_0000;
    FourDigits(v, v1, v2, v3);
  }

  lemma FourDigits(v: u32, v1: nat, v2: nat, v3: nat)
    requires v1 == v / 0x100 && v2 == v1 / 0x100 && v3 == v2 / 0x100
    ensures Spell(v) == [v % 0x100, v1 % 0x100, v2 % 0x100, v3]
  {
    assert Digits(v3 / 0x100, 0) == [];
    assert Digits(v3, 1) == [v3 % 0x100];
    assert Digits(v2, 2) == [v2 % 0x100, v3 % 0x100];
    assert Digits(v1, 3) == [v1 % 0x100, v2 % 0x100, v3 % 0x100];
    assert Digits(v, 4) == [v % 0x100] + Digits(v1, 3);
  }

  /** Reading four bytes inverts spelling a word. */
  lemma WordSpell(v: u32)
    ensures Word(Spell(v)[0], Spell(v)[1], Spell(v)[2], Spell(v)[3]) == v
  {
    var v1, v2, v3 := v / 0x100, v / 0x100 / 0x100, v / 0x100 / 0x100 / 0x100;
    assert Digits(v, 4) == [v % 0x100] + Digits(v1, 3);
    assert Digits(v1, 3) == [v1 % 0x100] + Digits(v2, 2);
    assert Digits(v2, 2) == [v2 % 0x100] + Digits(v3, 1);
    assert Digits(v3, 1) == [v3 % 0x100] + Digits(v3 / 0x100, 0);
  }
}
