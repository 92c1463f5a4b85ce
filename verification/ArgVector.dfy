/** The argument vector that exec puts on a new stack (place_args_vector in src/syscall.c). The arguments are
    values: they lie outside the stack that is written. */
module ArgVector {
  import opened Bytes
  import opened DirTable

  /** Bytes of the arguments, each with its NUL. */
  function Total(args: seq<seq<byte>>): nat {
    if args == [] then 0 else |args[0]| + 1 + Total(args[1..])
  }

  lemma {:induction false} TotalSnoc(args: seq<seq<byte>>, i: nat)
    requires i < |args|
    ensures Total(args[..i + 1]) == Total(args[..i]) + |args[i]| + 1
    decreases i
  {
    if i > 0 {
      assert args[..i + 1][1..] == args[1..][..i] && args[..i][1..] == args[1..][..i - 1];
      TotalSnoc(args[1..], i - 1);
    } else {
      assert args[..1][1..] == [];
    }
  }

  lemma TotalStep(args: seq<seq<byte>>, i: nat)
    requires i < |args|
    ensures Total(args[i..]) == |args[i]| + 1 + Total(args[i + 1..])
  {
    assert args[i..][1..] == args[i + 1..];
  }

  lemma {:induction false} TotalSuffix(args: seq<seq<byte>>, i: nat)
    requires i <= |args|
    ensures Total(args[i..]) <= Total(args)
    decreases i
  {
    if i > 0 {
      TotalStep(args, i - 1);
      TotalSuffix(args, i - 1);
    } else {
      assert args[0..] == args;
    }
  }

  /** Where argument `i` starts: the last one ends at `esp`, and each one right before the next. */
  function Start(args: seq<seq<byte>>, esp: nat, i: nat): int
    requires i <= |args|
  {
    esp - Total(args[i..])
  }

  /** The cell of pointer `i`. */
  function Slot(args: seq<seq<byte>>, esp: nat, i: nat): int {
    esp - Total(args) - 4 * (|args| - i)
  }

  /** Strings and pointers are in order and without gaps: the strings end at `esp`, and the pointers where the
      strings start. */
  lemma LayoutTight(args: seq<seq<byte>>, esp: nat, i: nat)
    requires i < |args|
    ensures Start(args, esp, i + 1) == Start(args, esp, i) + |args[i]| + 1 && Start(args, esp, |args|) == esp
    ensures Slot(args, esp, i + 1) == Slot(args, esp, i) + 4 && Slot(args, esp, |args|) == Start(args, esp, 0)
  {
    TotalStep(args, i);
    assert args[|args|..] == [] && args[0..] == args;
  }

  /** Pointer `i` leads to the bytes of argument `i` and a NUL. */
  ghost predicate Reads(s: seq<byte>, args: seq<seq<byte>>, esp: nat, i: nat)
    requires i < |args|
  {
    var slot, start, end := Slot(args, esp, i), Start(args, esp, i), Start(args, esp, i + 1);
    && 0 <= slot && slot + 4 <= |s| && WordAt(s, slot) == start
    && 0 <= start < end <= |s| && end == start + |args[i]| + 1
    && s[start..end - 1] == args[i] && s[end - 1] == 0
  }

  lemma ReadsFrame(s: seq<byte>, s': seq<byte>, args: seq<seq<byte>>, esp: nat, i: nat, j: nat)
    requires i <= j < |args| && Reads(s, args, esp, j) && |s'| == |s| && esp <= |s|
    requires forall k :: Slot(args, esp, i) <= k < Slot(args, esp, |args|) && 0 <= k < |s| ==> s'[k] == s[k]
    requires forall k :: Start(args, esp, i) <= k < esp && 0 <= k < |s| ==> s'[k] == s[k]
    ensures Reads(s', args, esp, j)
  {
    Ordered(args, esp, i, j);
    Ordered(args, esp, j + 1, |args|);
    var slot, start, end := Slot(args, esp, j), Start(args, esp, j), Start(args, esp, j + 1);
    assert forall k :: slot <= k < slot + 4 ==> s'[k] == s[k];
    assert s'[start..end - 1] == s[start..end - 1];
  }

  lemma {:induction false} Ordered(args: seq<seq<byte>>, esp: nat, i: nat, j: nat)
    requires i <= j <= |args|
    ensures Start(args, esp, i) <= Start(args, esp, j) <= esp
    ensures i < j ==> Start(args, esp, i) + |args[i]| + 1 <= Start(args, esp, j)
    decreases j - i
  {
    if i < j {
      TotalStep(args, i);
      Ordered(args, esp, i + 1, j);
    }
  }

  method PutWord(mem: array<byte>, at: nat, v: u32)
    requires at + 4 <= mem.Length
    modifies mem
    ensures WordAt(mem[..], at) == v
    ensures forall k :: 0 <= k < mem.Length && !(at <= k < at + 4) ==> mem[k] == old(mem[k])
  {
    WordSpell(v);
    hide Digits, Spell;
    var s := Spell(v);
    mem[at], mem[at + 1], mem[at + 2], mem[at + 3] := s[0], s[1], s[2], s[3];
  }

  /** strcpy, and the NUL behind it. */
  method PutString(mem: array<byte>, at: nat, arg: seq<byte>)
    requires at + |arg| + 1 <= mem.Length
    modifies mem
    ensures mem[at..at + |arg|] == arg && mem[at + |arg|] == 0
    ensures forall k :: 0 <= k < mem.Length && !(at <= k <= at + |arg|) ==> mem[k] == old(mem[k])
  {
    for i := 0 to |arg|
      invariant forall j :: 0 <= j < i ==> mem[at + j] == arg[j]
      invariant forall k :: 0 <= k < mem.Length && !(at <= k <= at + |arg|) ==> mem[k] == old(mem[k])
    {
      mem[at + i] := arg[i];
    }
    mem[at + |arg|] := 0;
  }

  /** What a started program finds at its stack pointer. */
  ghost predicate Handed(s: seq<byte>, args: seq<seq<byte>>, esp: nat, newEsp: nat) {
    && newEsp + 12 <= |s| && esp <= |s| && WordAt(s, newEsp + 4) == |args|
         && WordAt(s, newEsp + 8) == Slot(args, esp, 0)
    && forall i :: 0 <= i < |args| ==> Reads(s, args, esp, i)
  }

  /** place_args_vector. Before rounding, the three words at the stack pointer end just where the pointers begin. */
  method PlaceArgsVector(mem: array<byte>, argv: seq<seq<byte>>, esp: nat) returns (newEsp: nat)
    requires esp <= mem.Length < 0x1_0000_0000 && |argv| < 0x1_0000_0000
    requires 12 + 4 * |argv| + Total(argv) + 63 <= esp
    modifies mem
    ensures newEsp % 64 == 0 && newEsp + 12 <= Slot(argv, esp, 0) < newEsp + 12 + 64
    ensures Handed(mem[..], argv, esp, newEsp)
    ensures forall k :: 0 <= k < mem.Length && !(newEsp + 4 <= k < newEsp + 12) && !(Slot(argv, esp, 0) <= k < esp) ==>
              mem[k] == old(mem[k])
  {
    hide WordAt, Reads, Total;
    ghost var was := mem[..];
    var argsSize := 0;
    TotalNone(argv);
    for i := 0 to |argv|
      invariant argsSize == Total(argv[..i]) && mem[..] == was
    {
      TotalSnoc(argv, i);
      argsSize := argsSize + (1 + |argv[i]|);
    }
    assert argv[..|argv|] == argv;
    var ptrs, args := esp - argsSize, esp;
    newEsp := esp - 8 - 4 * (|argv| + 1) - argsSize;
    for i := |argv| downto 0
      invariant ptrs == Slot(argv, esp, i) && args == Start(argv, esp, i)
      invariant forall j :: i <= j < |argv| ==> Reads(mem[..], argv, esp, j)
      invariant Same(was, mem[..], Slot(argv, esp, 0), esp)
      modifies mem
    {
      args, ptrs := PlaceOne(mem, argv, esp, i, args, ptrs);
    }
    newEsp := newEsp - newEsp % 64;
    ghost var placed := mem[..];
    TotalAll(argv);
    PutWord(mem, newEsp + 4, |argv|);
    ghost var counted := mem[..];
    PutWord(mem, newEsp + 8, ptrs);
    SameWord(counted, mem[..], newEsp + 4);
    forall j | 0 <= j < |argv| ensures Reads(mem[..], argv, esp, j) {
      ReadsFrame(placed, mem[..], argv, esp, 0, j);
    }
    forall k | 0 <= k < mem.Length && !(newEsp + 4 <= k < newEsp + 12) && !(Slot(argv, esp, 0) <= k < esp)
      ensures mem[k] == old(mem[k])
    {
      assert placed[k] == was[k] && counted[k] == placed[k] && mem[..][k] == counted[k];
    }
  }

  /** Nothing outside the range has changed. */
  ghost predicate Same(s: seq<byte>, s': seq<byte>, lo: int, hi: int) {
    |s'| == |s| && forall k :: 0 <= k < |s| && !(lo <= k < hi) ==> s'[k] == s[k]
  }

  /** One round of the second loop: string `i` below the others, its pointer below theirs. */
  method PlaceOne(mem: array<byte>, argv: seq<seq<byte>>, esp: nat, i: nat, above: nat, slots: nat)
    returns (args: nat, ptrs: nat)
    requires esp <= mem.Length < 0x1_0000_0000 && i < |argv| && 4 * |argv| + Total(argv) <= esp
    requires slots == Slot(argv, esp, i + 1) && above == Start(argv, esp, i + 1)
    requires forall j :: i < j < |argv| ==> Reads(mem[..], argv, esp, j)
    modifies mem
    ensures ptrs == Slot(argv, esp, i) && args == Start(argv, esp, i)
    ensures forall j :: i <= j < |argv| ==> Reads(mem[..], argv, esp, j)
    ensures Same(old(mem[..]), mem[..], Slot(argv, esp, 0), esp)
  {
    hide WordAt, Reads, Total;
    TotalStep(argv, i);
    TotalSuffix(argv, i);
    Ordered(argv, esp, i + 1, |argv|);
    args := above - (|argv[i]| + 1);
    PutString(mem, args, argv[i]);
    ptrs := slots - 4;
    ghost var copied := mem[..];
    PutWord(mem, ptrs, args);
    assert mem[args..args + |argv[i]|] == copied[args..args + |argv[i]|];
    PlacedOne(mem[..], argv, esp, i);
    forall j | i < j < |argv| ensures Reads(mem[..], argv, esp, j) {
      ReadsFrame(old(mem[..]), mem[..], argv, esp, i + 1, j);
    }
  }

  lemma TotalNone(args: seq<seq<byte>>)
    ensures Total(args[..0]) == 0 && Total(args[|args|..]) == 0
  {
  }

  lemma TotalAll(args: seq<seq<byte>>)
    ensures Total(args[0..]) == Total(args)
  {
    assert args[0..] == args;
  }

  lemma SameWord(s: seq<byte>, s': seq<byte>, at: nat)
    requires |s| == |s'| && at + 4 <= |s| && forall k :: at <= k < at + 4 ==> s'[k] == s[k]
    ensures WordAt(s', at) == WordAt(s, at)
  {
  }

  lemma PlacedOne(s: seq<byte>, args: seq<seq<byte>>, esp: nat, i: nat)
    requires i < |args| && esp <= |s| && Slot(args, esp, i) >= 0 && Slot(args, esp, i) + 4 <= |s|
    requires Start(args, esp, i) >= 0 && Start(args, esp, i) + |args[i]| < |s|
    requires WordAt(s, Slot(args, esp, i)) == Start(args, esp, i)
    requires s[Start(args, esp, i)..Start(args, esp, i) + |args[i]|] == args[i]
    requires s[Start(args, esp, i) + |args[i]|] == 0
    ensures Reads(s, args, esp, i)
  {
    TotalStep(args, i);
    Ordered(args, esp, i + 1, |args|);
  }

  /** The program's argv[i] is argument `i` as a C string; the strings lie apart from each other, above
      the pointers. */
  lemma ArgumentsReadBack(s: seq<byte>, args: seq<seq<byte>>, esp: nat, newEsp: nat, i: nat)
    requires Handed(s, args, esp, newEsp) && i < |args| && NulFree(args[i])
    ensures var ptrs := WordAt(s, newEsp + 8);
            ptrs + 4 * i + 4 <= |s| &&
            var a := WordAt(s, ptrs + 4 * i);
            a < |s| && StrLen(s[a..]) == |args[i]| && s[a..a + |args[i]|] == args[i]
    ensures Slot(args, esp, i) + 4 <= Slot(args, esp, |args|) <= Start(args, esp, i)
    ensures forall j :: i < j < |args| ==> Start(args, esp, i) + |args[i]| + 1 <= Start(args, esp, j)
  {
    assert Reads(s, args, esp, i);
    var a := Start(args, esp, i);
    assert s[a..][..|args[i]|] == args[i];
    StrLenIs(s[a..], |args[i]|);
    TotalSuffix(args, i);
    forall j | i < j < |args| ensures a + |args[i]| + 1 <= Start(args, esp, j) {
      Ordered(args, esp, i, j);
    }
  }
}
