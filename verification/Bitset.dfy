/** The frame bitmap (src/bitset.c): most significant bit first. */
module Bitset {
  function Mask(i: nat): bv8
    requires i < 8
  {
    0x80 >> i
  }

  function Bit(b: bv8, i: nat): bool
    requires i < 8
  {
    b & Mask(i) != 0
  }

  lemma Masks()
    ensures Mask(0) == 0x80 && Mask(1) == 0x40 && Mask(2) == 0x20 && Mask(3) == 0x10
    ensures Mask(4) == 0x08 && Mask(5) == 0x04 && Mask(6) == 0x02 && Mask(7) == 0x01
  {
  }

  lemma OrBit(b: bv8, i: nat, j: nat)
    requires i < 8 && j < 8
    ensures Bit(b | Mask(i), j) <==> i == j || Bit(b, j)
  {
    Masks();
    hide Mask;
    var m, n := Mask(i), Mask(j);
    OrMasks(b, m, n);
    assert m == n <==> i == j;
  }

  predicate OneBit(m: bv8) {
    m == 0x80 || m == 0x40 || m == 0x20 || m == 0x10 || m == 8 || m == 4 || m == 2 || m == 1
  }

  lemma OrMasks(b: bv8, m: bv8, n: bv8)
    requires OneBit(m) && OneBit(n)
    ensures (b | m) & n != 0 <==> m == n || b & n != 0
  {
  }

  lemma FullByte(b: bv8)
    ensures b == 0xff <==> forall j :: 0 <= j < 8 ==> Bit(b, j)
  {
    Masks();
    hide Mask;
    if forall j :: 0 <= j < 8 ==> Bit(b, j) {
      assert Bit(b, 0) && Bit(b, 1) && Bit(b, 2) && Bit(b, 3) && Bit(b, 4) && Bit(b, 5) && Bit(b, 6) && Bit(b, 7);
      AllBits(b);
    } else {
      var j :| 0 <= j < 8 && !Bit(b, j);
      var m := Mask(j);
      assert b == 0xff ==> b & m == m;
    }
  }

  lemma AllBits(b: bv8)
    requires b & 0x80 != 0 && b & 0x40 != 0 && b & 0x20 != 0 && b & 0x10 != 0
    requires b & 8 != 0 && b & 4 != 0 && b & 2 != 0 && b & 1 != 0
    ensures b == 0xff
  {
  }

  /** The members of the set that a bitmap spells. */
  ghost function Members(bytes: seq<bv8>): (s: set<nat>)
    ensures forall k :: k in s ==> k < 8 * |bytes|
  {
    set k: nat | 0 <= k < 8 * |bytes| && Bit(bytes[k / 8], k % 8)
  }

  class Bits {
    const len: nat
    const start: array<bv8>

    ghost predicate Valid() {
      len == 8 * start.Length
    }

    /** The set the bitmap stands for. */
    ghost function Set(): set<nat>
      reads start
    {
      Members(start[..])
    }

    /** bitset_init. */
    constructor (bytes: nat)
      ensures Valid() && len == 8 * bytes && Set() == {} && fresh(start)
    {
      len := 8 * bytes;
      start := new bv8[bytes](_ => 0);
      new;
      assert forall k: nat :: k < len ==> !Bit(0, k % 8);
    }

    /** bitset_get. */
    method Get(index: nat) returns (r: bool)
      requires Valid() && index < len
      ensures r <==> index in Set()
    {
      r := Bit(start[index / 8], index % 8);
    }

    /** bitset_set with val = 1. */
    method Add(index: nat)
      requires Valid() && index < len
      modifies start
      ensures Set() == old(Set()) + {index}
    {
      ghost var was := start[..];
      start[index / 8] := start[index / 8] | Mask(index % 8);
      AddedMember(was, index);
      assert start[..] == was[index / 8 := was[index / 8] | Mask(index % 8)];
    }

    /** bitset_set with val = 0: the zero is or-ed in as well, so nothing leaves the set. */
    method Clear(index: nat)
      requires Valid() && index < len
      modifies start
      ensures Set() == old(Set())
    {
      ghost var was := start[..];
      start[index / 8] := start[index / 8] | 0;
      assert start[..] == was;
    }

    /** bitset_first_unset: the least number that is not in the set. */
    method FirstUnset() returns (r: int)
      requires Valid()
      ensures r == -1 <==> forall k: nat :: k < len ==> k in Set()
      ensures r != -1 ==> 0 <= r < len && r !in Set() && forall k: nat :: k < r ==> k in Set()
    {
      hide Members;
      for i := 0 to len / 8
        invariant forall k: nat :: k < 8 * i ==> k in Set()
      {
        if start[i] == 0xff {
          FullRow(start[..], i);
          continue;
        }
        for j := 0 to 8
          invariant forall k: nat :: k < 8 * i + j ==> k in Set()
        {
          var idx := i * 8 + j;
          var r := Get(idx);
          if !r {
            return idx;
          }
        }
      }
      r := -1;
    }
  }

  /** A byte of ones spells eight members. */
  lemma FullRow(bytes: seq<bv8>, i: nat)
    requires i < |bytes| && bytes[i] == 0xff
    ensures forall k: nat :: 8 * i <= k < 8 * i + 8 ==> k in Members(bytes)
  {
    FullByte(bytes[i]);
    forall k: nat | 8 * i <= k < 8 * i + 8
      ensures k in Members(bytes)
    {
      assert k / 8 == i && Bit(bytes[i], k % 8);
    }
  }

  lemma AddedMember(bytes: seq<bv8>, index: nat)
    requires index < 8 * |bytes|
    ensures Members(bytes[index / 8 := bytes[index / 8] | Mask(index % 8)]) == Members(bytes) + {index}
  {
    var bytes' := bytes[index / 8 := bytes[index / 8] | Mask(index % 8)];
    forall k: nat | k < 8 * |bytes| ensures k in Members(bytes') <==> k in Members(bytes) || k == index {
      if k / 8 == index / 8 {
        OrBit(bytes[index / 8], index % 8, k % 8);
      }
    }
  }
}
