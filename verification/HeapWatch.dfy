/** The allocation recorder of src/heapwatch.c. It is the heap's run-time notion
    of the simple specification, a table of live ranges; `live` is that table as a map. */
module HeapWatch {
  import opened OrderedList
  import opened Sequences

  /** The panics a heap operation can end in. */
  datatype Verdict = Fine | AllocFault | WatcherOverflowed | DoubleFree | Corrupted(code: nat)

  const CAPACITY: nat := 1024

  datatype Rec = Rec(ptr: nat, size: nat)

  /** The recorder's overlap test: the new range starts or ends inside a recorded one. */
  predicate Clashes(ptr: nat, size: nat, rec: Rec) {
    || (rec.ptr <= ptr <= rec.ptr + rec.size - 1)
    || (rec.ptr <= ptr + size - 1 <= rec.ptr + rec.size - 1)
  }

  /** The ranges share a byte. */
  ghost predicate Overlaps(ptr: nat, size: nat, rec: Rec) {
    exists a :: InRange(a, ptr, size) && InRange(a, rec.ptr, rec.size)
  }

  predicate InRange(a: nat, ptr: nat, size: nat) {
    ptr <= a < ptr + size
  }

  /** The test is sound, and misses exactly the overlaps where the new range sticks out on both sides. */
  lemma ClashesMissesOnlyEnclosing(ptr: nat, size: nat, rec: Rec)
    requires size > 0 && rec.size > 0
    ensures Clashes(ptr, size, rec) ==> Overlaps(ptr, size, rec)
    ensures Overlaps(ptr, size, rec) && !Clashes(ptr, size, rec)
            <==> ptr < rec.ptr && rec.ptr + rec.size < ptr + size
  {
    if rec.ptr <= ptr <= rec.ptr + rec.size - 1 {
      assert InRange(ptr, ptr, size) && InRange(ptr, rec.ptr, rec.size);
    } else if rec.ptr <= ptr + size - 1 <= rec.ptr + rec.size - 1 {
      assert InRange(ptr + size - 1, ptr, size) && InRange(ptr + size - 1, rec.ptr, rec.size);
    } else if ptr < rec.ptr && rec.ptr + rec.size < ptr + size {
      assert InRange(rec.ptr, ptr, size) && InRange(rec.ptr, rec.ptr, rec.size);
    }
  }

  function ToSet(s: seq<nat>): set<nat> {
    set x | x in s
  }

  lemma {:induction false} DistinctCount(s: seq<nat>)
    requires Distinct(s)
    ensures |ToSet(s)| == |s|
  {
    if s != [] {
      var n := |s| - 1;
      DistinctCount(s[..n]);
      assert s[n] !in ToSet(s[..n]);
      assert s == s[..n] + [s[n]];
      assert ToSet(s) == ToSet(s[..n]) + {s[n]};
    }
  }

  /** Records of distinct live pointers, all of them, are as many as there are live pointers. */
  lemma TakenCount(taken: seq<Rec>, live: map<nat, nat>)
    requires forall k :: 0 <= k < |taken| ==> taken[k].ptr in live
    requires forall j, k :: 0 <= j < k < |taken| ==> taken[j].ptr != taken[k].ptr
    requires forall p :: p in live ==> exists k :: 0 <= k < |taken| && taken[k].ptr == p
    ensures |live| == |taken|
  {
    var ptrs := seq(|taken|, k requires 0 <= k < |taken| => taken[k].ptr);
    DistinctCount(ptrs);
    forall p | p in live.Keys
      ensures p in ToSet(ptrs)
    {
      var k :| 0 <= k < |taken| && taken[k].ptr == p;
      assert ptrs[k] == p;
    }
    assert live.Keys == ToSet(ptrs);
  }

  /** Records that leave no live pointer out are at least as many as there are live pointers. */
  lemma AtMost(taken: seq<Rec>, live: map<nat, nat>)
    requires forall p :: p in live ==> exists k :: 0 <= k < |taken| && taken[k].ptr == p
    ensures |live| <= |taken|
  {
    var ptrs := seq(|taken|, k requires 0 <= k < |taken| => taken[k].ptr);
    forall p | p in live.Keys
      ensures p in ToSet(ptrs)
    {
      var k :| 0 <= k < |taken| && taken[k].ptr == p;
      assert ptrs[k] == p;
    }
    SetAtMost(ptrs);
    SubsetSize(live.Keys, ToSet(ptrs));
  }

  lemma SubsetSize(a: set<nat>, b: set<nat>)
    requires a <= b
    ensures |a| <= |b|
  {
    assert b == a + (b - a);
  }

  lemma {:induction false} SetAtMost(s: seq<nat>)
    ensures |ToSet(s)| <= |s|
  {
    if s != [] {
      var n := |s| - 1;
      SetAtMost(s[..n]);
      assert s == s[..n] + [s[n]];
      assert ToSet(s) == ToSet(s[..n]) + {s[n]};
    }
  }

  class Watcher {
    const recs: array<Rec>
    var index: nat
    ghost var live: map<nat, nat>

    ghost predicate Valid()
      reads this, recs
    {
      && recs.Length == CAPACITY && index <= CAPACITY
      && (forall k :: 0 <= k < index && recs[k].ptr != 0 ==>
            recs[k].ptr in live && live[recs[k].ptr] == recs[k].size)
      && (forall j, k :: 0 <= j < k < index && recs[j].ptr == recs[k].ptr ==> recs[j].ptr == 0)
      && (forall p :: p in live ==> p != 0 && live[p] > 0 && Recorded(p))
    }

    ghost predicate Recorded(p: nat)
      requires index <= recs.Length
      reads this, recs
    {
      exists k :: 0 <= k < index && recs[k].ptr == p
    }

    constructor ()
      ensures Valid() && live == map[] && index == 0 && fresh(recs)
    {
      recs := new Rec[CAPACITY](_ => Rec(0, 0));
      index := 0;
      live := map[];
    }

    /** With every slot taken there are exactly as many live ranges as slots. */
    lemma FullTable()
      requires Valid() && forall k :: 0 <= k < index ==> recs[k].ptr != 0
      ensures |live| == index
    {
      var taken := recs[..index];
      forall p | p in live
        ensures exists k :: 0 <= k < |taken| && taken[k].ptr == p
      {
        assert Recorded(p);
        var k :| 0 <= k < index && recs[k].ptr == p;
        assert taken[k].ptr == p;
      }
      TakenCount(taken, live);
    }

    /** With an empty slot there are fewer. */
    lemma RoomInTable(slot: nat)
      requires Valid() && slot < index && recs[slot].ptr == 0
      ensures |live| < index
    {
      var taken := recs[..slot] + recs[slot + 1..index];
      forall p | p in live
        ensures exists k :: 0 <= k < |taken| && taken[k].ptr == p
      {
        assert Recorded(p);
        var k :| 0 <= k < index && recs[k].ptr == p;
        assert taken[if k < slot then k else k - 1].ptr == p;
      }
      AtMost(taken, live);
    }

    method Alloc(ptr: nat, size: nat) returns (v: Verdict)
      requires Valid()
      modifies this, recs
      ensures Valid()
      ensures ptr == 0 || size == 0 ==> v == Fine
      ensures ptr != 0 && size != 0 ==>
                (v == AllocFault <==> exists p :: p in old(live) && Clashes(ptr, size, Rec(p, old(live)[p])))
      ensures ptr != 0 && size != 0 ==>
                (v == WatcherOverflowed <==> v != AllocFault && |old(live)| == CAPACITY)
      ensures v == AllocFault || v == WatcherOverflowed || v == Fine
      ensures live == if v == Fine && ptr != 0 && size != 0 then old(live)[ptr := size] else old(live)
    {
      if size == 0 || ptr == 0 {
        return Fine;
      }
      var freeIndex := -1;
      var i := 0;
      while i < index
        invariant 0 <= i <= index
        invariant -1 <= freeIndex < i
        invariant freeIndex == -1 ==> forall k :: 0 <= k < i ==> recs[k].ptr != 0
        invariant freeIndex != -1 ==> recs[freeIndex].ptr == 0
        invariant forall k :: 0 <= k < i && recs[k].ptr != 0 ==> !Clashes(ptr, size, recs[k])
      {
        var rec := recs[i];
        if rec.ptr == 0 {
          freeIndex := i;
        } else if Clashes(ptr, size, rec) {
          assert rec == Rec(rec.ptr, live[rec.ptr]);
          return AllocFault;
        }
        i := i + 1;
      }
      forall p | p in live
        ensures !Clashes(ptr, size, Rec(p, live[p])) && p != ptr
      {
        assert Recorded(p);
        var k :| 0 <= k < index && recs[k].ptr == p;
        assert recs[k] == Rec(p, live[p]);
      }
      if freeIndex == -1 {
        FullTable();
        if index == CAPACITY {
          return WatcherOverflowed;
        }
        freeIndex := index;
      } else {
        RoomInTable(freeIndex);
      }
      Store(freeIndex, ptr, size);
      v := Fine;
    }

    /** Puts a range that is not recorded yet into an empty slot or into the slot after the last. */
    method Store(slot: nat, ptr: nat, size: nat)
      requires Valid() && (if slot == index then slot < CAPACITY else slot < index && recs[slot].ptr == 0)
      requires ptr != 0 && size != 0 && ptr !in live
      modifies this, recs
      ensures Valid() && live == old(live)[ptr := size]
    {
      recs[slot] := Rec(ptr, size);
      if slot == index {
        index := index + 1;
      }
      live := live[ptr := size];
      assert recs[slot].ptr == ptr && Recorded(ptr);
      assert forall k :: 0 <= k < index && k != slot ==> recs[k] == old(recs[k]);
      forall p | p in live && p != ptr
        ensures Recorded(p)
      {
        assert old(Recorded(p));
        var k :| 0 <= k < old(index) && old(recs[k].ptr) == p;
        assert recs[k].ptr == p;
      }
    }

    method Free(ptr: nat) returns (v: Verdict)
      requires Valid()
      modifies recs, `live
      ensures Valid()
      ensures v == if ptr == 0 || ptr in old(live) then Fine else DoubleFree
      ensures live == old(live) - {ptr}
    {
      if ptr == 0 {
        assert live == live - {ptr};
        return Fine;
      }
      var i := 0;
      while i < index
        invariant 0 <= i <= index
        invariant forall k :: 0 <= k < i ==> recs[k].ptr != ptr
      {
        if recs[i].ptr == ptr {
          recs[i] := Rec(0, 0);
          live := live - {ptr};
          forall p | p in live
            ensures Recorded(p)
          {
            var k :| 0 <= k < index && old(recs[k].ptr) == p;
            assert recs[k].ptr == p;
          }
          return Fine;
        }
        i := i + 1;
      }
      assert !Recorded(ptr);
      assert live == live - {ptr};
      v := DoubleFree;
    }
  }
}
