/** The search of heap_find_best_fit (user/alloc.c) on values: the free blocks as a map from address to size, and
    the free list as the order in which they are visited. UserHeap.dfy proves that the loop over headers and
    links computes `Scan`; here its results are characterised. */
module BestFit {
  const HEADER := 16

  type Frees = map<nat, nat>

  function Behind(free: Frees, b: nat): nat
    requires b in free
  {
    b + HEADER + free[b]
  }

  /** Block `b` swallows the free block right behind it. */
  function Swallow(free: Frees, b: nat): Frees
    requires b in free && Behind(free, b) in free
  {
    (free - {Behind(free, b)})[b := free[b] + free[Behind(free, b)] + HEADER]
  }

  /** A visited block goes on swallowing while it is too short. */
  function Absorb(free: Frees, b: nat, need: nat): (f: Frees)
    requires b in free
    ensures b in f && f.Keys <= free.Keys
    decreases free.Keys
  {
    if free[b] < need && Behind(free, b) in free then
      assert Swallow(free, b).Keys == free.Keys - {Behind(free, b)};
      Absorb(Swallow(free, b), b, need)
    else
      free
  }

  datatype Outcome = Outcome(block: nat, free: Frees)

  /** The scan over `rest`, with the remembered block and its size. A block that is no longer free has left the
      list. An exact fit ends the scan, and so does a last block that the untouched `room` can complete. */
  function Scan(free: Frees, rest: seq<nat>, best: nat, least: nat, end: nat, room: nat, need: nat): Outcome
    decreases |rest|
  {
    if rest == [] then Outcome(best, free)
    else if rest[0] !in free then Scan(free, rest[1..], best, least, end, room, need)
    else
      var b := rest[0];
      var f := Absorb(free, b, need);
      if f[b] == need then Outcome(b, f)
      else if f[b] > need then
        if best == 0 || f[b] < least then Scan(f, rest[1..], b, f[b], end, room, need)
        else Scan(f, rest[1..], best, least, end, room, need)
      else if Behind(f, b) == end && room >= need - f[b] then Outcome(b, f[b := need])
      else Scan(f, rest[1..], best, least, end, room, need)
  }

  function Search(free: Frees, list: seq<nat>, end: nat, room: nat, need: nat): Outcome {
    Scan(free, list, 0, 0, end, room, need)
  }

  /** Free blocks do not overlap and end by `end`. */
  ghost predicate Laid(free: Frees, end: nat) {
    && 0 !in free
    && (forall a :: a in free ==> Behind(free, a) <= end)
    && (forall a, b :: a in free && b in free && a < b ==> Behind(free, a) <= b)
  }

  // ---------------------------------------------------------------- the steps of the loop

  /** Dropping a block from the list that is not free any more changes nothing. */
  lemma {:induction false} ScanDrop(free: Frees, rest: seq<nat>, j: nat, best: nat, least: nat, end: nat, room: nat,
                                    need: nat)
    requires j < |rest| && rest[j] !in free
    ensures Scan(free, rest[..j] + rest[j + 1..], best, least, end, room, need) ==
              Scan(free, rest, best, least, end, room, need)
    decreases |rest|
  {
    var kept := rest[..j] + rest[j + 1..];
    if j == 0 {
      assert kept == rest[1..];
    } else {
      assert kept[1..] == rest[1..][..j - 1] + rest[1..][j..] && kept[0] == rest[0];
      var f := if rest[0] in free then Absorb(free, rest[0], need) else free;
      if rest[0] in free && f[rest[0]] > need && (best == 0 || f[rest[0]] < least) {
        ScanDrop(f, rest[1..], j - 1, rest[0], f[rest[0]], end, room, need);
      } else {
        ScanDrop(f, rest[1..], j - 1, best, least, end, room, need);
      }
    }
  }

  /** One merge at the head of the list. */
  lemma ScanSwallow(free: Frees, rest: seq<nat>, best: nat, least: nat, end: nat, room: nat, need: nat)
    requires rest != [] && rest[0] in free && free[rest[0]] < need && Behind(free, rest[0]) in free
    ensures Scan(Swallow(free, rest[0]), rest, best, least, end, room, need) ==
              Scan(free, rest, best, least, end, room, need)
  {
    assert Absorb(Swallow(free, rest[0]), rest[0], need) == Absorb(free, rest[0], need);
  }

  /** A visit to a block that does not merge. */
  lemma ScanVisit(free: Frees, rest: seq<nat>, best: nat, least: nat, end: nat, room: nat, need: nat)
    requires rest != [] && rest[0] in free && (free[rest[0]] >= need || Behind(free, rest[0]) !in free)
    ensures var b := rest[0];
            Scan(free, rest, best, least, end, room, need) ==
              if free[b] == need then Outcome(b, free)
              else if free[b] > need then
                if best == 0 || free[b] < least then Scan(free, rest[1..], b, free[b], end, room, need)
                else Scan(free, rest[1..], best, least, end, room, need)
              else if Behind(free, b) == end && room >= need - free[b] then Outcome(b, free[b := need])
              else Scan(free, rest[1..], best, least, end, room, need)
  {
  }

  // ---------------------------------------------------------------- runs of free blocks

  /** Free blocks fill the range from `a` to `t` without a gap. */
  predicate Run(free: Frees, a: nat, t: nat)
    decreases t - a
  {
    a in free && Behind(free, a) <= t && (Behind(free, a) == t || Run(free, Behind(free, a), t))
  }

  lemma {:induction false} RunJoin(free: Frees, a: nat, b: nat, t: nat)
    requires Run(free, a, b) && Run(free, b, t)
    ensures Run(free, a, t)
    decreases b - a
  {
    if Behind(free, a) != b {
      RunJoin(free, Behind(free, a), b, t);
    }
  }

  /** Swallowing makes no new runs. */
  lemma {:induction false} SwallowRun(free: Frees, b: nat, a: nat, t: nat)
    requires b in free && Behind(free, b) in free && Run(Swallow(free, b), a, t)
    ensures Run(free, a, t)
    decreases t - a
  {
    var f, n := Swallow(free, b), Behind(free, b);
    if Behind(f, a) != t {
      SwallowRun(free, b, Behind(f, a), t);
    }
    if a == b {
      assert Behind(f, b) == Behind(free, n);
      assert Run(free, b, n);
      assert Run(free, n, Behind(free, n));
      RunJoin(free, b, n, Behind(free, n));
      if Behind(f, a) != t {
        RunJoin(free, b, Behind(free, n), t);
      }
    }
  }

  lemma {:induction false} AbsorbRun(free: Frees, b: nat, need: nat, a: nat, t: nat)
    requires b in free && Run(Absorb(free, b, need), a, t)
    ensures Run(free, a, t)
    decreases free.Keys
  {
    if free[b] < need && Behind(free, b) in free {
      assert Swallow(free, b).Keys == free.Keys - {Behind(free, b)};
      AbsorbRun(Swallow(free, b), b, need, a, t);
      SwallowRun(free, b, a, t);
    }
  }

  lemma SwallowLaid(free: Frees, b: nat, end: nat)
    requires Laid(free, end) && b in free && Behind(free, b) in free
    ensures Laid(Swallow(free, b), end)
  {
    var f, n := Swallow(free, b), Behind(free, b);
    forall x, y | x in f && y in f && x < y ensures Behind(f, x) <= y {
      if x == b {
        assert n < y;
        assert Behind(free, n) <= y;
      }
    }
  }

  lemma {:induction false} AbsorbLaid(free: Frees, b: nat, need: nat, end: nat)
    requires Laid(free, end) && b in free
    ensures Laid(Absorb(free, b, need), end)
    decreases free.Keys
  {
    if free[b] < need && Behind(free, b) in free {
      assert Swallow(free, b).Keys == free.Keys - {Behind(free, b)};
      SwallowLaid(free, b, end);
      AbsorbLaid(Swallow(free, b), b, need, end);
    }
  }

  /** A visit changes no size but that of the visited block, which grows over a run and stops when it is long
      enough or nothing free follows. */
  lemma {:induction false} AbsorbSizes(free: Frees, b: nat, need: nat, end: nat)
    requires Laid(free, end) && b in free
    ensures var f := Absorb(free, b, need);
            && (forall x :: x in f && x != b ==> f[x] == free[x])
            && f[b] >= free[b] && (f[b] >= need || Behind(f, b) !in free)
    decreases free.Keys
  {
    var f, n := Absorb(free, b, need), Behind(free, b);
    if free[b] < need && n in free {
      var g := Swallow(free, b);
      assert g.Keys == free.Keys - {n};
      SwallowLaid(free, b, end);
      AbsorbSizes(g, b, need, end);
      assert f[b] < need ==> Behind(f, b) !in g && Behind(f, b) > n;
    }
  }

  lemma AbsorbSpan(free: Frees, b: nat, need: nat)
    requires b in free
    ensures Run(free, b, Behind(Absorb(free, b, need), b))
  {
    AbsorbRun(free, b, need, b, Behind(Absorb(free, b, need), b));
  }

  /** A block that is gone after a visit lay in the run that the visited block has filled, which in front of it
      was still too short. */
  lemma {:induction false} AbsorbGone(free: Frees, b: nat, need: nat, end: nat, x: nat)
    requires Laid(free, end) && b in free && x in free && x !in Absorb(free, b, need)
    ensures Run(free, b, x) && x - b < need + HEADER && Behind(free, x) <= Behind(Absorb(free, b, need), b)
    decreases free.Keys
  {
    var n := Behind(free, b);
    var g := Swallow(free, b);
    assert g.Keys == free.Keys - {n};
    SwallowLaid(free, b, end);
    if x == n {
      AbsorbSizes(g, b, need, end);
      assert Behind(g, b) == Behind(free, n);
    } else {
      AbsorbGone(g, b, need, end, x);
      SwallowRun(free, b, b, x);
    }
  }

  // ---------------------------------------------------------------- visit by visit

  function Visit(free: Frees, b: nat, need: nat): Frees {
    if b in free then Absorb(free, b, need) else free
  }

  /** The free blocks when the scan has come to `list[i]`, if nothing has ended it. */
  function Before(free: Frees, list: seq<nat>, i: nat, need: nat): Frees
    requires i <= |list|
    decreases i
  {
    if i == 0 then free else Visit(Before(free, list, i - 1, need), list[i - 1], need)
  }

  lemma BeforeStart(free: Frees, list: seq<nat>, need: nat)
    ensures Before(free, list, 0, need) == free
  {
  }

  lemma {:induction false} BeforeShift(free: Frees, list: seq<nat>, i: nat, need: nat)
    requires 0 < i <= |list|
    ensures Before(free, list, i, need) == Before(Visit(free, list[0], need), list[1..], i - 1, need)
    decreases i
  {
    if i > 1 {
      BeforeShift(free, list, i - 1, need);
    }
  }

  lemma {:induction false} BeforeLaid(free: Frees, list: seq<nat>, i: nat, need: nat, end: nat)
    requires Laid(free, end) && i <= |list|
    ensures Laid(Before(free, list, i, need), end)
    decreases i
  {
    if i > 0 {
      BeforeLaid(free, list, i - 1, need, end);
      var f := Before(free, list, i - 1, need);
      if list[i - 1] in f {
        AbsorbLaid(f, list[i - 1], need, end);
      }
    }
  }

  /** Blocks leave and never return, and runs never appear. */
  lemma {:induction false} BeforeShrinks(free: Frees, list: seq<nat>, i: nat, j: nat, need: nat)
    requires i <= j <= |list|
    ensures Before(free, list, j, need).Keys <= Before(free, list, i, need).Keys
    decreases j
  {
    if i < j {
      BeforeShrinks(free, list, i, j - 1, need);
    }
  }

  lemma {:induction false} BeforeRun(free: Frees, list: seq<nat>, i: nat, need: nat, a: nat, t: nat)
    requires i <= |list| && Run(Before(free, list, i, need), a, t)
    ensures Run(free, a, t)
    decreases i
  {
    if i > 0 {
      var f := Before(free, list, i - 1, need);
      if list[i - 1] in f {
        AbsorbRun(f, list[i - 1], need, a, t);
      }
      BeforeRun(free, list, i - 1, need, a, t);
    }
  }

  /** The size block `list[i]` has when its visit is over. */
  function SizeAt(free: Frees, list: seq<nat>, i: nat, need: nat): nat
    requires i < |list| && list[i] in Before(free, list, i, need)
  {
    Absorb(Before(free, list, i, need), list[i], need)[list[i]]
  }

  /** Visit `i` ends the scan. */
  predicate Ends(free: Frees, list: seq<nat>, i: nat, end: nat, room: nat, need: nat)
    requires i < |list|
  {
    list[i] in Before(free, list, i, need) &&
    var s := SizeAt(free, list, i, need);
    s == need || (s < need && list[i] + HEADER + s == end && room >= need - s)
  }

  /** Visit `i` finds a block that is larger than needed. */
  predicate Large(free: Frees, list: seq<nat>, i: nat, need: nat)
    requires i < |list|
  {
    list[i] in Before(free, list, i, need) && SizeAt(free, list, i, need) > need
  }

  /** Visit `k` finds the first of the smallest large blocks. */
  ghost predicate Least(free: Frees, list: seq<nat>, k: nat, need: nat) {
    && k < |list| && Large(free, list, k, need)
    && forall i :: 0 <= i < |list| && Large(free, list, i, need) ==>
         SizeAt(free, list, k, need) <= SizeAt(free, list, i, need)
         && (i < k ==> SizeAt(free, list, k, need) < SizeAt(free, list, i, need))
  }

  /** Visit `m` swallows block `r`. */
  predicate SwallowedAt(free: Frees, list: seq<nat>, m: nat, r: nat, need: nat)
    requires m < |list|
  {
    r in Before(free, list, m, need) && r !in Before(free, list, m + 1, need)
  }

  /** No visit ends the scan, and a later visit swallows the smallest block that was found. */
  ghost predicate Lost(free: Frees, list: seq<nat>, end: nat, room: nat, need: nat) {
    && (forall i :: 0 <= i < |list| ==> !Ends(free, list, i, end, room, need))
    && exists k: nat, m: nat :: k < m < |list| && Least(free, list, k, need)
         && SwallowedAt(free, list, m, list[k], need)
  }

  ghost predicate Quiet(free: Frees, list: seq<nat>, end: nat, room: nat, need: nat) {
    forall i :: 0 <= i < |list| ==> !Ends(free, list, i, end, room, need)
  }

  // ---------------------------------------------------------------- what the scan computes

  /** The block that remembering leads to when nothing ends the scan: the one remembered at first, if none of
      the large ones found is smaller, else the first of the smallest. */
  ghost predicate Remembered(free: Frees, list: seq<nat>, need: nat, best: nat, least: nat, block: nat) {
    || (block == best && forall i :: 0 <= i < |list| && Large(free, list, i, need) ==>
          best != 0 && least <= SizeAt(free, list, i, need))
    || exists k: nat :: k < |list| && Least(free, list, k, need) && block == list[k]
         && (best == 0 || SizeAt(free, list, k, need) < least)
  }

  lemma ShiftFacts(free: Frees, list: seq<nat>, i: nat, end: nat, room: nat, need: nat)
    requires 0 < i < |list|
    ensures var f := Visit(free, list[0], need);
            && Large(free, list, i, need) == Large(f, list[1..], i - 1, need)
            && (Large(free, list, i, need) ==> SizeAt(free, list, i, need) == SizeAt(f, list[1..], i - 1, need))
            && Ends(free, list, i, end, room, need) == Ends(f, list[1..], i - 1, end, room, need)
  {
    BeforeShift(free, list, i, need);
  }

  lemma ShiftQuiet(free: Frees, list: seq<nat>, end: nat, room: nat, need: nat)
    requires list != [] && Quiet(free, list, end, room, need)
    ensures Quiet(Visit(free, list[0], need), list[1..], end, room, need)
  {
    forall i | 0 <= i < |list[1..]| ensures !Ends(Visit(free, list[0], need), list[1..], i, end, room, need) {
      ShiftFacts(free, list, i + 1, end, room, need);
    }
  }

  /** Remembering one step later. */
  lemma ShiftRemembered(free: Frees, list: seq<nat>, need: nat, best: nat, least: nat, best': nat, least': nat,
                        block: nat)
    requires list != [] && 0 !in free
    requires if Large(free, list, 0, need) && (best == 0 || SizeAt(free, list, 0, need) < least)
             then best' == list[0] && least' == SizeAt(free, list, 0, need) else best' == best && least' == least
    requires Remembered(Visit(free, list[0], need), list[1..], need, best', least', block)
    ensures Remembered(free, list, need, best, least, block)
  {
    hide Before, Absorb, SizeAt, Visit, Ends;
    BeforeStart(free, list, need);
    var f, rest := Visit(free, list[0], need), list[1..];
    forall i | 0 < i < |list|
      ensures Large(free, list, i, need) == Large(f, rest, i - 1, need)
      ensures Large(free, list, i, need) ==> SizeAt(free, list, i, need) == SizeAt(f, rest, i - 1, need)
    {
      ShiftFacts(free, list, i, 0, 0, need);
    }
    if block == best' && forall i :: 0 <= i < |rest| && Large(f, rest, i, need) ==>
      best' != 0 && least' <= SizeAt(f, rest, i, need) {
      if Large(free, list, 0, need) && (best == 0 || SizeAt(free, list, 0, need) < least) {
        assert Least(free, list, 0, need);
      }
    } else {
      var k: nat :| k < |rest| && Least(f, rest, k, need) && block == rest[k]
        && (best' == 0 || SizeAt(f, rest, k, need) < least');
      assert rest[k] == list[k + 1];
      assert Least(free, list, k + 1, need);
    }
  }

  lemma {:induction false} QuietScan(free: Frees, list: seq<nat>, best: nat, least: nat, end: nat, room: nat, need: nat)
    requires 0 !in free && Quiet(free, list, end, room, need)
    ensures var o := Scan(free, list, best, least, end, room, need);
            o.free == Before(free, list, |list|, need) && Remembered(free, list, need, best, least, o.block)
    decreases |list|
  {
    if list != [] {
      var f := Visit(free, list[0], need);
      assert !Ends(free, list, 0, end, room, need);
      assert Before(free, list, 0, need) == free;
      ShiftQuiet(free, list, end, room, need);
      BeforeShift(free, list, |list|, need);
      var best', least' := best, least;
      if Large(free, list, 0, need) && (best == 0 || SizeAt(free, list, 0, need) < least) {
        best', least' := list[0], SizeAt(free, list, 0, need);
      }
      QuietScan(f, list[1..], best', least', end, room, need);
      ShiftRemembered(free, list, need, best, least, best', least',
                      Scan(free, list, best, least, end, room, need).block);
    }
  }

  /** A scan that some visit ends yields a block of exactly the size needed. */
  lemma {:induction false} EndedScan(free: Frees, list: seq<nat>, best: nat, least: nat, end: nat, room: nat, need: nat)
    requires !Quiet(free, list, end, room, need)
    ensures var o := Scan(free, list, best, least, end, room, need);
            o.block in o.free && o.free[o.block] == need && o.free.Keys <= free.Keys
    decreases |list|
  {
    var i :| 0 <= i < |list| && Ends(free, list, i, end, room, need);
    assert Before(free, list, 0, need) == free;
    if !Ends(free, list, 0, end, room, need) {
      ShiftFacts(free, list, i, end, room, need);
      var f := Visit(free, list[0], need);
      assert Ends(f, list[1..], i - 1, end, room, need);
      if list[0] in free && f[list[0]] > need && (best == 0 || f[list[0]] < least) {
        EndedScan(f, list[1..], list[0], f[list[0]], end, room, need);
      } else {
        EndedScan(f, list[1..], best, least, end, room, need);
      }
    }
  }

  // ---------------------------------------------------------------- when it goes wrong

  lemma {:induction false} LeavesAt(free: Frees, list: seq<nat>, i: nat, r: nat, need: nat) returns (m: nat)
    requires i <= |list| && r in Before(free, list, i, need) && r !in Before(free, list, |list|, need)
    ensures i <= m < |list| && SwallowedAt(free, list, m, r, need)
    decreases |list| - i
  {
    if r in Before(free, list, i + 1, need) {
      m := LeavesAt(free, list, i + 1, r, need);
    } else {
      m := i;
    }
  }

  lemma LeastOnce(free: Frees, list: seq<nat>, k: nat, l: nat, need: nat)
    requires Least(free, list, k, need) && Least(free, list, l, need)
    ensures k == l
  {
    hide SizeAt, Before;
  }

  lemma LeastStays(free: Frees, list: seq<nat>, k: nat, need: nat)
    requires k < |list| && Large(free, list, k, need)
    ensures list[k] in Before(free, list, k + 1, need) && list[k] in free
  {
    BeforeShrinks(free, list, 0, k, need);
  }

  /** The search returns something that is no block exactly when the smallest large block it found is swallowed by
      a later visit and no visit has ended the search. */
  lemma SearchLost(free: Frees, list: seq<nat>, end: nat, room: nat, need: nat)
    requires 0 !in free
    ensures var o := Search(free, list, end, room, need);
            Lost(free, list, end, room, need) <==> o.block != 0 && o.block !in o.free
  {
    hide Scan, Before, Absorb, SizeAt, Large, Least, SwallowedAt;
    var o := Search(free, list, end, room, need);
    if Quiet(free, list, end, room, need) {
      QuietScan(free, list, 0, 0, end, room, need);
      if k: nat :| k < |list| && Least(free, list, k, need) && o.block == list[k] {
        LeastIs(free, list, k, need);
        LeastStays(free, list, k, need);
        if o.block !in o.free {
          var m := LeavesAt(free, list, k + 1, list[k], need);
        } else if Lost(free, list, end, room, need) {
          var k': nat, m: nat :| k' < m < |list| && Least(free, list, k', need)
            && SwallowedAt(free, list, m, list[k'], need);
          LeastOnce(free, list, k, k', need);
          SwallowedForGood(free, list, m, list[k'], need);
        }
      } else {
        NothingLarge(free, list, end, room, need);
      }
    } else {
      EndedScan(free, list, 0, 0, end, room, need);
    }
  }

  lemma NothingLarge(free: Frees, list: seq<nat>, end: nat, room: nat, need: nat)
    requires forall i :: 0 <= i < |list| ==> !Large(free, list, i, need)
    ensures !Lost(free, list, end, room, need)
  {
  }

  lemma LeastIs(free: Frees, list: seq<nat>, k: nat, need: nat)
    requires Least(free, list, k, need)
    ensures k < |list| && Large(free, list, k, need)
  {
  }

  lemma SwallowedForGood(free: Frees, list: seq<nat>, m: nat, r: nat, need: nat)
    requires m < |list| && SwallowedAt(free, list, m, r, need)
    ensures r !in Before(free, list, |list|, need)
  {
    BeforeShrinks(free, list, m + 1, |list|, need);
  }

  /** What is returned then lies inside a free block. */
  lemma {:induction false} Covered(free: Frees, list: seq<nat>, i: nat, need: nat, end: nat, x: nat) returns (a: nat)
    requires Laid(free, end) && i <= |list| && x in free
    ensures var f := Before(free, list, i, need); a in f && a <= x && Behind(free, x) <= Behind(f, a)
    decreases i
  {
    if i == 0 {
      a := x;
    } else {
      a := Covered(free, list, i - 1, need, end, x);
      var f, b := Before(free, list, i - 1, need), list[i - 1];
      BeforeLaid(free, list, i - 1, need, end);
      if b in f {
        AbsorbSizes(f, b, need, end);
        if a !in Absorb(f, b, need) {
          AbsorbGone(f, b, need, end, a);
          RunForward(f, b, a);
          a := b;
        }
      }
    }
  }

  lemma {:induction false} RunForward(free: Frees, a: nat, t: nat)
    requires Run(free, a, t)
    ensures a < t
  {
  }

  /** What it returns then lies inside a free block. */
  lemma LostInside(free: Frees, list: seq<nat>, end: nat, room: nat, need: nat)
    requires Laid(free, end) && Lost(free, list, end, room, need)
    ensures var o := Search(free, list, end, room, need);
            exists a :: a in o.free && a < o.block && o.block < Behind(o.free, a)
  {
    hide Scan, Absorb, SizeAt, Large, Least, SwallowedAt, Ends;
    var o := Search(free, list, end, room, need);
    SearchLost(free, list, end, room, need);
    QuietScan(free, list, 0, 0, end, room, need);
    var k: nat :| k < |list| && Least(free, list, k, need) && o.block == list[k];
    LeastIs(free, list, k, need);
    LeastStays(free, list, k, need);
    var a := Covered(free, list, |list|, need, end, o.block);
    assert a < o.block && o.block < Behind(o.free, a);
  }

  /** Otherwise it is a best fit: no free block with room is smaller. */
  lemma SearchBest(free: Frees, list: seq<nat>, end: nat, room: nat, need: nat)
    requires Laid(free, end) && (forall a :: a in free ==> a in list)
    requires forall i, j :: 0 <= i < j < |list| ==> list[i] != list[j]
    requires !Lost(free, list, end, room, need) && Search(free, list, end, room, need).block != 0
    ensures var o := Search(free, list, end, room, need);
            && o.block in o.free && o.free[o.block] >= need
            && forall a :: a in o.free && o.free[a] >= need ==> o.free[o.block] <= o.free[a]
  {
    hide Scan, Absorb, SizeAt, Large, Least, SwallowedAt, Lost, Ends;
    var o := Search(free, list, end, room, need);
    SearchLost(free, list, end, room, need);
    if Quiet(free, list, end, room, need) {
      QuietScan(free, list, 0, 0, end, room, need);
      var k: nat :| k < |list| && Least(free, list, k, need) && o.block == list[k];
      LeastIs(free, list, k, need);
      LastingSize(free, list, k, need, end);
      forall a | a in o.free && o.free[a] >= need ensures o.free[o.block] <= o.free[a] {
        BeforeShrinks(free, list, 0, |list|, need);
        var i :| 0 <= i < |list| && list[i] == a;
        LastingSize(free, list, i, need, end);
        NotExact(free, list, i, end, room, need);
        LeastBelow(free, list, k, i, need);
      }
    } else {
      EndedScan(free, list, 0, 0, end, room, need);
    }
  }

  lemma NotExact(free: Frees, list: seq<nat>, i: nat, end: nat, room: nat, need: nat)
    requires Quiet(free, list, end, room, need) && i < |list| && list[i] in Before(free, list, i, need)
    requires SizeAt(free, list, i, need) >= need
    ensures Large(free, list, i, need)
  {
    hide SizeAt, Before;
    assert !Ends(free, list, i, end, room, need);
  }

  lemma LeastBelow(free: Frees, list: seq<nat>, k: nat, i: nat, need: nat)
    requires Least(free, list, k, need) && i < |list| && Large(free, list, i, need)
    ensures SizeAt(free, list, k, need) <= SizeAt(free, list, i, need)
  {
    hide SizeAt, Before;
  }

  /** A block that is never swallowed keeps the size it had when its visit was over. */
  lemma LastingSize(free: Frees, list: seq<nat>, i: nat, need: nat, end: nat)
    requires Laid(free, end) && i < |list| && list[i] in Before(free, list, |list|, need)
    requires forall j, k :: 0 <= j < k < |list| ==> list[j] != list[k]
    ensures list[i] in Before(free, list, i, need)
    ensures SizeAt(free, list, i, need) == Before(free, list, |list|, need)[list[i]]
  {
    BeforeShrinks(free, list, i, |list|, need);
    SizeStays(free, list, i + 1, |list|, need, end, list[i]);
  }

  lemma {:induction false} SizeStays(free: Frees, list: seq<nat>, i: nat, j: nat, need: nat, end: nat, x: nat)
    requires Laid(free, end) && i <= j <= |list| && x in Before(free, list, j, need) && x !in list[i..j]
    ensures x in Before(free, list, i, need) && Before(free, list, j, need)[x] == Before(free, list, i, need)[x]
    decreases j
  {
    if i < j {
      var f, b := Before(free, list, j - 1, need), list[j - 1];
      BeforeLaid(free, list, j - 1, need, end);
      assert list[i..j][j - 1 - i] == b && list[i..j - 1] == list[i..j][..j - 1 - i];
      if b in f {
        AbsorbSizes(f, b, need, end);
      }
      SizeStays(free, list, i, j - 1, need, end, x);
    }
  }

  // ---------------------------------------------------------------- nothing found

  /** The run from `x` to `t` is too short, and not even the room behind the last block would complete it. */
  predicate Short(x: nat, t: nat, end: nat, room: nat, need: nat) {
    t - x - HEADER < need && (t == end ==> room < need - (t - x - HEADER))
  }

  /** All runs of free blocks are. */
  ghost predicate NoRun(free: Frees, list: seq<nat>, end: nat, room: nat, need: nat) {
    forall b, t: nat :: b in list && Run(free, b, t) ==> Short(b, t, end, room, need)
  }

  lemma AbsorbedAll(free: Frees, b: nat, need: nat, end: nat, t: nat)
    requires Laid(free, end) && b in free && Absorb(free, b, need)[b] < need && Run(free, b, t)
    ensures t <= Behind(Absorb(free, b, need), b)
  {
    var e := Behind(Absorb(free, b, need), b);
    AbsorbSizes(free, b, need, end);
    AbsorbSpan(free, b, need);
    RunsAgree(free, b, e, t, end);
  }

  /** Of two runs with the same start the shorter is a part of the longer. */
  lemma {:induction false} RunsAgree(free: Frees, a: nat, e: nat, t: nat, end: nat)
    requires Run(free, a, e) && Run(free, a, t) && e !in free
    ensures t <= e
    decreases e - a
  {
    if Behind(free, a) != e && Behind(free, a) != t {
      RunsAgree(free, Behind(free, a), e, t, end);
    }
  }

  /** A run that starts at a block that is left after a visit is a run then, or ends inside what was filled. */
  lemma {:induction false} RunAfter(free: Frees, b: nat, need: nat, end: nat, a: nat, t: nat)
    requires Laid(free, end) && b in free && a in Absorb(free, b, need) && Run(free, a, t)
    ensures var f := Absorb(free, b, need);
            Run(f, a, t) || (b < t < Behind(f, b) && Run(f, a, Behind(f, b)))
    decreases t - a, 1
  {
    hide Absorb, Laid;
    var f := Absorb(free, b, need);
    AbsorbSizes(free, b, need, end);
    if a == b {
      RunAfterVisited(free, b, need, end, t);
    } else if Behind(free, a) != t {
      NextStays(free, b, need, end, a);
      RunAfter(free, b, need, end, Behind(free, a), t);
    }
  }

  lemma {:induction false} RunAfterVisited(free: Frees, b: nat, need: nat, end: nat, t: nat)
    requires Laid(free, end) && b in free && Run(free, b, t)
    ensures var f := Absorb(free, b, need);
            Run(f, b, t) || (b < t < Behind(f, b) && Run(f, b, Behind(f, b)))
    decreases t - b, 0
  {
    hide Absorb, Laid;
    var f := Absorb(free, b, need);
    AbsorbSpan(free, b, need);
    var e := Behind(f, b);
    RunForward(free, b, t);
    if t > e {
      RunBreak(free, b, e, t);
      if e !in f {
        AbsorbGone(free, b, need, end, e);
      }
      RunAfter(free, b, need, end, e, t);
    }
  }

  /** What follows a block that is left is left. */
  lemma NextStays(free: Frees, b: nat, need: nat, end: nat, a: nat)
    requires Laid(free, end) && b in free && a in Absorb(free, b, need) && a in free && a != b
    requires Behind(free, a) in free
    ensures Behind(free, a) in Absorb(free, b, need)
  {
    hide Absorb;
    var f, n := Absorb(free, b, need), Behind(free, a);
    AbsorbLaid(free, b, need, end);
    AbsorbSizes(free, b, need, end);
    assert a < b ==> Behind(f, a) <= b;
    assert b < a ==> Behind(f, b) <= a;
    if n !in f {
      AbsorbGone(free, b, need, end, n);
      RunForward(free, b, n);
    }
  }

  /** A run goes on from any point that an inner run reaches. */
  lemma {:induction false} RunBreak(free: Frees, a: nat, e: nat, t: nat)
    requires Run(free, a, e) && Run(free, a, t) && e < t
    ensures Run(free, e, t)
    decreases e - a
  {
    if Behind(free, a) != e {
      RunBreak(free, Behind(free, a), e, t);
    }
  }

  lemma {:induction false} ScanSomething(free: Frees, rest: seq<nat>, best: nat, least: nat, end: nat, room: nat,
                                         need: nat)
    requires 0 !in free && best != 0
    ensures Scan(free, rest, best, least, end, room, need).block != 0
    decreases |rest|
  {
    if rest != [] {
      var f := if rest[0] in free then Absorb(free, rest[0], need) else free;
      if rest[0] in free && f[rest[0]] > need && f[rest[0]] < least {
        ScanSomething(f, rest[1..], rest[0], f[rest[0]], end, room, need);
      } else {
        ScanSomething(f, rest[1..], best, least, end, room, need);
      }
    }
  }

  /** After a visit in vain the remaining blocks have no run exactly if none had one before. */
  lemma VisitInVain(free: Frees, rest: seq<nat>, end: nat, room: nat, need: nat)
    requires Laid(free, end) && rest != [] && rest[0] in free
    requires var f, b := Absorb(free, rest[0], need), rest[0];
             f[b] < need && !(Behind(f, b) == end && room >= need - f[b])
    ensures NoRun(free, rest, end, room, need) <==> NoRun(Absorb(free, rest[0], need), rest[1..], end, room, need)
  {
    hide Absorb, Laid, Run;
    var b := rest[0];
    var f := Absorb(free, b, need);
    if NoRun(free, rest, end, room, need) {
      forall x, t: nat | x in rest[1..] && Run(f, x, t) ensures Short(x, t, end, room, need) {
        AbsorbRun(free, b, need, x, t);
      }
    }
    if NoRun(f, rest[1..], end, room, need) {
      forall x, t: nat | x in rest && Run(free, x, t) ensures Short(x, t, end, room, need) {
        RunInVain(free, rest, end, room, need, x, t);
      }
    }
  }

  lemma RunInVain(free: Frees, rest: seq<nat>, end: nat, room: nat, need: nat, x: nat, t: nat)
    requires Laid(free, end) && rest != [] && rest[0] in free
    requires var f, b := Absorb(free, rest[0], need), rest[0];
             f[b] < need && !(Behind(f, b) == end && room >= need - f[b])
    requires NoRun(Absorb(free, rest[0], need), rest[1..], end, room, need)
    requires x in rest && Run(free, x, t)
    ensures Short(x, t, end, room, need)
  {
    hide Absorb, Laid, Run;
    var b := rest[0];
    var f := Absorb(free, b, need);
    AbsorbLaid(free, b, need, end);
    LaidEnds(f, end, b);
    RunForward(free, x, t);
    if x == b {
      AbsorbedAll(free, b, need, end, t);
    } else if x in f {
      assert x in rest[1..];
      RunAfter(free, b, need, end, x, t);
      assert Run(f, x, t) ==> Short(x, t, end, room, need);
      assert Run(f, x, Behind(f, b)) ==> Short(x, Behind(f, b), end, room, need);
    } else {
      RunStart(free, x, t);
      AbsorbGone(free, b, need, end, x);
      RunForward(free, b, x);
      RunJoin(free, b, x, t);
      AbsorbedAll(free, b, need, end, t);
    }
  }

  lemma RunStart(free: Frees, a: nat, t: nat)
    requires Run(free, a, t)
    ensures a in free
  {
  }

  lemma LaidEnds(free: Frees, end: nat, a: nat)
    requires Laid(free, end) && a in free
    ensures Behind(free, a) <= end
  {
  }

  lemma {:induction false} ScanNothing(free: Frees, rest: seq<nat>, end: nat, room: nat, need: nat)
    requires Laid(free, end)
    ensures Scan(free, rest, 0, 0, end, room, need).block == 0 <==> NoRun(free, rest, end, room, need)
    decreases |rest|
  {
    if rest != [] && rest[0] in free {
      var b := rest[0];
      var f := Absorb(free, b, need);
      AbsorbLaid(free, b, need, end);
      AbsorbSpan(free, b, need);
      var e := Behind(f, b);
      assert b in rest && Run(free, b, e);
      if f[b] < need && !(e == end && room >= need - f[b]) {
        VisitInVain(free, rest, end, room, need);
        ScanNothing(f, rest[1..], end, room, need);
      } else {
        assert !Short(b, e, end, room, need);
        ScanSomething(f, rest[1..], b, f[b], end, room, need);
      }
    } else if rest != [] {
      ScanNothing(free, rest[1..], end, room, need);
      forall x, t: nat | x in rest && Run(free, x, t) ensures x in rest[1..] {
        assert x != rest[0];
      }
    }
  }

  /** The search finds nothing exactly when no run of free blocks would do, grown or not. */
  lemma SearchNothing(free: Frees, list: seq<nat>, end: nat, room: nat, need: nat)
    requires Laid(free, end)
    ensures Search(free, list, end, room, need).block == 0 <==> NoRun(free, list, end, room, need)
  {
    ScanNothing(free, list, end, room, need);
  }

  /** However much room there were, the search would not fail. */
  ghost predicate NeverLost(free: Frees, list: seq<nat>, end: nat, need: nat) {
    forall room: nat :: !Lost(free, list, end, room, need)
  }

  /** A search that has found nothing leaves blocks among which no further search for as much can fail, however much
      room there is by then. */
  lemma NothingStaysSafe(free: Frees, list: seq<nat>, end: nat, room: nat, need: nat, list': seq<nat>, end': nat)
    requires Laid(free, end) && (forall a :: a in free ==> a in list)
    requires Search(free, list, end, room, need).block == 0
    ensures NeverLost(Search(free, list, end, room, need).free, list', end', need)
  {
    hide Scan, Absorb, SizeAt, Large, Least, SwallowedAt, Ends, Run, Lost;
    var f := Search(free, list, end, room, need).free;
    SearchNothing(free, list, end, room, need);
    if !Quiet(free, list, end, room, need) {
      EndedScan(free, list, 0, 0, end, room, need);
    }
    QuietScan(free, list, 0, 0, end, room, need);
    forall room': nat
      ensures !Lost(f, list', end', room', need)
    {
      if Lost(f, list', end', room', need) {
        var a, t := LostRun(f, list', end', room', need);
        RunAtLast(free, list, end, room, need, a, t);
      }
    }
  }

  lemma LostRun(free: Frees, list: seq<nat>, end: nat, room: nat, need: nat) returns (a: nat, t: nat)
    requires Lost(free, list, end, room, need)
    ensures Run(free, a, t) && t - a - HEADER > need
  {
    hide Run, Large, SwallowedAt;
    var k: nat :| k < |list| && Least(free, list, k, need);
    LeastIs(free, list, k, need);
    LargeRun(free, list, k, need);
    a := list[k];
    t :| Run(free, a, t) && t - a - HEADER > need;
  }

  lemma RunAtLast(free: Frees, list: seq<nat>, end: nat, room: nat, need: nat, a: nat, t: nat)
    requires (forall b :: b in free ==> b in list) && NoRun(free, list, end, room, need)
    requires Run(Before(free, list, |list|, need), a, t)
    ensures t - a - HEADER < need
  {
    hide Run;
    BeforeRun(free, list, |list|, need, a, t);
    RunStarts(free, a, t);
    assert Short(a, t, end, room, need);
  }

  lemma RunStarts(free: Frees, a: nat, t: nat)
    requires Run(free, a, t)
    ensures a in free
  {
  }

  lemma SearchOfNone(end: nat, room: nat, need: nat)
    ensures var free: Frees, list: seq<nat> := map[], [];
            && Search(free, list, end, room, need) == Outcome(0, map[]) && NoRun(free, list, end, room, need)
            && !Lost(free, list, end, room, need)
  {
  }

  // ---------------------------------------------------------------- conditions on the free list

  /** A visit to `l`, too short with all that lies between, would reach `r`, and `r` would be found to be large. */
  ghost predicate Threat(free: Frees, l: nat, r: nat, need: nat) {
    Run(free, l, r) && r - l < need + HEADER && exists t: nat :: Run(free, r, t) && t - r - HEADER > need
  }

  /** No block threatens one that comes before it in the list. */
  ghost predicate Unthreatened(free: Frees, list: seq<nat>, need: nat) {
    forall k, m :: 0 <= k < m < |list| ==> !Threat(free, list[m], list[k], need)
  }

  /** Merges may happen; as long as none can reach a block that has been found large, the search succeeds. */
  lemma UnthreatenedSafe(free: Frees, list: seq<nat>, end: nat, room: nat, need: nat)
    requires Laid(free, end) && Unthreatened(free, list, need)
    ensures !Lost(free, list, end, room, need)
  {
    hide Before, Absorb, Least;
    forall k: nat, m: nat | k < m < |list| && Least(free, list, k, need)
      ensures !SwallowedAt(free, list, m, list[k], need)
    {
      if SwallowedAt(free, list, m, list[k], need) {
        LeastIs(free, list, k, need);
        SwallowIsThreat(free, list, k, m, end, need);
      }
    }
  }

  lemma SwallowIsThreat(free: Frees, list: seq<nat>, k: nat, m: nat, end: nat, need: nat)
    requires Laid(free, end) && k < m < |list| && Large(free, list, k, need)
    requires SwallowedAt(free, list, m, list[k], need)
    ensures Threat(free, list[m], list[k], need)
  {
    hide Absorb;
    var f := Before(free, list, m, need);
    BeforeLaid(free, list, m, need, end);
    assert list[m] in f;
    AbsorbGone(f, list[m], need, end, list[k]);
    BeforeRun(free, list, m, need, list[m], list[k]);
    LargeRun(free, list, k, need);
  }

  /** A block that is found large is the front of a run longer than needed. */
  lemma LargeRun(free: Frees, list: seq<nat>, k: nat, need: nat)
    requires k < |list| && Large(free, list, k, need)
    ensures exists t: nat :: Run(free, list[k], t) && t - list[k] - HEADER > need
  {
    hide Absorb;
    var g := Before(free, list, k, need);
    AbsorbSpan(g, list[k], need);
    var t := Behind(Absorb(g, list[k], need), list[k]);
    BeforeRun(free, list, k, need, list[k], t);
    assert Run(free, list[k], t) && t - list[k] - HEADER > need;
  }

  /** In particular when no block that is too short has a free block behind it: then nothing merges at all. */
  lemma NoShortNeighbourSafe(free: Frees, list: seq<nat>, need: nat)
    requires forall a :: a in free && Behind(free, a) in free ==> free[a] >= need
    ensures Unthreatened(free, list, need)
  {
    forall k, m | 0 <= k < m < |list| ensures !Threat(free, list[m], list[k], need) {
      if Run(free, list[m], list[k]) && list[k] in free {
        RunThrough(free, list[m], list[k]);
      }
    }
  }

  lemma {:induction false} RunThrough(free: Frees, a: nat, t: nat)
    requires Run(free, a, t) && t in free
    ensures Behind(free, a) in free && Behind(free, a) <= t
  {
  }

  /** Block `list[k]` is large, smaller than anything a visit elsewhere can come to, and will be swallowed by its
      left neighbour, which comes later in the list, is too short, and has no free block in front of it. */
  ghost predicate Doomed(free: Frees, list: seq<nat>, k: nat, m: nat, end: nat, room: nat, need: nat) {
    && k < m < |list| && list[k] in free && list[m] in free
    && free[list[k]] > need > free[list[m]] && Behind(free, list[m]) == list[k]
    && (forall a :: a in free ==> Behind(free, a) != list[m])
    && (forall b, t: nat :: b != list[k] && Run(free, b, t) ==> Harmless(b, t, end, room, need, free[list[k]]))
  }

  predicate Harmless(b: nat, t: nat, end: nat, room: nat, need: nat, size: nat) {
    var s := t - b - HEADER;
    s != need && (t == end && s < need ==> room < need - s) && (s > need ==> s > size)
  }

  lemma {:induction false} RunLast(free: Frees, a: nat, t: nat) returns (c: nat)
    requires Run(free, a, t)
    ensures c in free && Behind(free, c) == t && (c == a || Run(free, a, c))
    decreases t - a
  {
    if Behind(free, a) == t {
      c := a;
    } else {
      c := RunLast(free, Behind(free, a), t);
      if c != Behind(free, a) {
        RunForward(free, Behind(free, a), c);
      }
    }
  }

  lemma RunVia(free: Frees, a: nat, l: nat, r: nat, end: nat)
    requires Laid(free, end) && Run(free, a, r) && l in free && Behind(free, l) == r
    ensures a == l || Run(free, a, l)
  {
    var c := RunLast(free, a, r);
    SameEnd(free, c, l, end);
  }

  lemma SameEnd(free: Frees, a: nat, b: nat, end: nat)
    requires Laid(free, end) && a in free && b in free && Behind(free, a) == Behind(free, b)
    ensures a == b
  {
  }

  /** A block that no visited block can reach stays. */
  lemma {:induction false} Present(free: Frees, list: seq<nat>, i: nat, need: nat, end: nat, x: nat)
    requires Laid(free, end) && i <= |list| && x in free && forall j :: 0 <= j < i ==> !Run(free, list[j], x)
    ensures x in Before(free, list, i, need)
    decreases i
  {
    hide Laid, Run, Absorb;
    if i > 0 {
      Present(free, list, i - 1, need, end, x);
      var f, b := Before(free, list, i - 1, need), list[i - 1];
      BeforeLaid(free, list, i - 1, need, end);
      if b in f && x !in Absorb(f, b, need) {
        AbsorbGone(f, b, need, end, x);
        BeforeRun(free, list, i - 1, need, b, x);
      }
    }
  }

  lemma DoomedStays(free: Frees, list: seq<nat>, k: nat, m: nat, end: nat, room: nat, need: nat, i: nat)
    requires Laid(free, end) && Doomed(free, list, k, m, end, room, need) && i <= m
    requires forall j, l :: 0 <= j < l < |list| ==> list[j] != list[l]
    ensures list[k] in Before(free, list, i, need) && list[m] in Before(free, list, i, need)
    ensures Before(free, list, i, need)[list[m]] == free[list[m]]
    ensures i <= k ==> Before(free, list, i, need)[list[k]] == free[list[k]]
  {
    hide Run, Before, Harmless;
    var r, l := list[k], list[m];
    forall j | 0 <= j < i ensures !Run(free, list[j], l) && !Run(free, list[j], r) {
      if Run(free, list[j], l) {
        var c := RunLast(free, list[j], l);
      } else if Run(free, list[j], r) {
        RunVia(free, list[j], l, r, end);
      }
    }
    Present(free, list, i, need, end, r);
    Present(free, list, i, need, end, l);
    BeforeStart(free, list, need);
    SizeStays(free, list, 0, i, need, end, l);
    if i <= k {
      SizeStays(free, list, 0, i, need, end, r);
    }
  }

  lemma DoomedVisit(free: Frees, list: seq<nat>, k: nat, m: nat, end: nat, room: nat, need: nat, i: nat)
    requires Laid(free, end) && Doomed(free, list, k, m, end, room, need)
    requires forall j, l :: 0 <= j < l < |list| ==> list[j] != list[l]
    requires i < |list| && list[i] in Before(free, list, i, need)
    ensures !Ends(free, list, i, end, room, need)
    ensures if i == k then SizeAt(free, list, i, need) == free[list[k]]
            else SizeAt(free, list, i, need) > need ==> SizeAt(free, list, i, need) > free[list[k]]
  {
    hide Run, Before;
    var f, b := Before(free, list, i, need), list[i];
    BeforeLaid(free, list, i, need, end);
    if i == k {
      DoomedStays(free, list, k, m, end, room, need, k);
    } else {
      AbsorbSpan(f, b, need);
      var t := Behind(Absorb(f, b, need), b);
      BeforeRun(free, list, i, need, b, t);
      assert Harmless(b, t, end, room, need, free[list[k]]);
    }
  }

  /** Such a search fails, whatever else is in the list. */
  lemma DoomedLost(free: Frees, list: seq<nat>, k: nat, m: nat, end: nat, room: nat, need: nat)
    requires Laid(free, end) && Doomed(free, list, k, m, end, room, need)
    requires forall i, j :: 0 <= i < j < |list| ==> list[i] != list[j]
    ensures Lost(free, list, end, room, need)
  {
    hide Run, Before, SizeAt, Ends, Harmless;
    forall i | 0 <= i < |list|
      ensures !Ends(free, list, i, end, room, need)
      ensures i != k && Large(free, list, i, need) ==> SizeAt(free, list, i, need) > free[list[k]]
    {
      if list[i] in Before(free, list, i, need) {
        DoomedVisit(free, list, k, m, end, room, need, i);
      } else {
        NoEnd(free, list, i, end, room, need);
      }
    }
    DoomedStays(free, list, k, m, end, room, need, k);
    DoomedVisit(free, list, k, m, end, room, need, k);
    assert Least(free, list, k, need);
    DoomedStays(free, list, k, m, end, room, need, m);
    SwallowsNext(free, list, m, need);
  }

  lemma NoEnd(free: Frees, list: seq<nat>, i: nat, end: nat, room: nat, need: nat)
    requires i < |list| && list[i] !in Before(free, list, i, need)
    ensures !Ends(free, list, i, end, room, need)
  {
  }

  lemma SwallowsNext(free: Frees, list: seq<nat>, m: nat, need: nat)
    requires m < |list| && list[m] in Before(free, list, m, need)
    requires var f := Before(free, list, m, need); f[list[m]] < need && Behind(f, list[m]) in f
    ensures SwallowedAt(free, list, m, Behind(Before(free, list, m, need), list[m]), need)
  {
    var f, b := Before(free, list, m, need), list[m];
    assert Absorb(f, b, need).Keys <= Swallow(f, b).Keys;
  }

  /** Such a heap: blocks of 40, 80 and 8 bytes, of which the first and then the second were freed, and a request
      for 60. The first comes later in the list and is not long enough; the second is. */
  lemma SearchCanFail()
    ensures var free: Frees := map[4096 := 40, 4152 := 80];
            Laid(free, 4272) && Lost(free, [4152, 4096], 4272, 848, 60)
            && Search(free, [4152, 4096], 4272, 848, 60).block !in Search(free, [4152, 4096], 4272, 848, 60).free
  {
    var free: Frees, list: seq<nat> := map[4096 := 40, 4152 := 80], [4152, 4096];
    assert Behind(free, 4096) == 4152 && Behind(free, 4152) == 4248;
    forall b, t: nat | b != 4152 && Run(free, b, t) ensures Harmless(b, t, 4272, 848, 60, 80) {
      assert b == 4096;
      assert t == 4152 || Run(free, 4152, t);
    }
    assert Doomed(free, list, 0, 1, 4272, 848, 60);
    DoomedLost(free, list, 0, 1, 4272, 848, 60);
    SearchLost(free, list, 4272, 848, 60);
  }
}
