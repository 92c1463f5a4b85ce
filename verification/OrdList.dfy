/** The ordered array of src/ordlist.c: elements are kept in the first `size`
    slots of a caller-supplied array and ordered, ascending or descending, by a comparison function. */
module OrderedList {
  import opened Sequences

  datatype Order = Ascending | Descending

  /** An element of which the comparison with a new one says `c` goes behind the new one. */
  predicate Behind(c: int, order: Order) {
    if order == Ascending then c == 1 else c == -1
  }

  /** `cmp` puts no earlier element behind a later one. */
  ghost predicate Sorted(s: seq<nat>, cmp: (nat, nat) -> int, order: Order) {
    forall i, j :: 0 <= i < j < |s| ==> !Behind(cmp(s[i], s[j]), order)
  }

  /** What makes `cmp` an ordering: no two elements are behind each other and "not behind" is transitive. */
  ghost predicate Ordering(cmp: (nat, nat) -> int, order: Order) {
    && (forall a, b :: Behind(cmp(a, b), order) ==> !Behind(cmp(b, a), order))
    && (forall a, b, c :: !Behind(cmp(a, b), order) && !Behind(cmp(b, c), order) ==> !Behind(cmp(a, c), order))
  }

  function InsertAt(s: seq<nat>, k: nat, e: nat): seq<nat>
    requires k <= |s|
  {
    s[..k] + [e] + s[k..]
  }

  function RemoveAt(s: seq<nat>, k: nat): seq<nat>
    requires k < |s|
  {
    s[..k] + s[k + 1..]
  }

  /** Inserting behind whatever need not go behind the new element keeps the list sorted. */
  lemma InsertKeepsSorted(s: seq<nat>, k: nat, e: nat, cmp: (nat, nat) -> int, order: Order)
    requires Ordering(cmp, order) && Sorted(s, cmp, order) && k <= |s|
    requires k == 0 || !Behind(cmp(s[k - 1], e), order)
    requires forall j :: k <= j < |s| ==> Behind(cmp(s[j], e), order)
    ensures Sorted(InsertAt(s, k, e), cmp, order)
  {
    hide Behind;
    var t := InsertAt(s, k, e);
    forall i, j | 0 <= i < j < |t|
      ensures !Behind(cmp(t[i], t[j]), order)
    {
      if j == k {
        assert t[i] == s[i];
        if i < k - 1 {
          assert !Behind(cmp(s[i], s[k - 1]), order);
        }
      } else if i == k {
        assert t[j] == s[j - 1];
      } else {
        assert t[i] == s[if i < k then i else i - 1];
        assert t[j] == s[if j < k then j else j - 1];
      }
    }
  }

  /** What shifting the elements from `k` on up by one slot makes of the slots ... */
  lemma ShiftedUp(s: seq<nat>, t: seq<nat>, k: nat, e: nat)
    requires k <= |s| && |t| == |s| + 1 && t[k] == e
    requires forall j :: 0 <= j < k ==> t[j] == s[j]
    requires forall j :: k < j <= |s| ==> t[j] == s[j - 1]
    ensures t == InsertAt(s, k, e)
  {
  }

  /** ... and shifting those behind it down. */
  lemma ShiftedDown(s: seq<nat>, t: seq<nat>, k: nat)
    requires k < |s| && |t| == |s| - 1
    requires forall j :: 0 <= j < k ==> t[j] == s[j]
    requires forall j :: k <= j < |t| ==> t[j] == s[j + 1]
    ensures t == RemoveAt(s, k)
  {
  }

  lemma InsertMembers(s: seq<nat>, k: nat, e: nat)
    requires k <= |s|
    ensures forall x :: x in InsertAt(s, k, e) <==> x in s || x == e
    ensures Distinct(s) && e !in s ==> Distinct(InsertAt(s, k, e))
  {
    assert s == s[..k] + s[k..];
  }

  lemma RemoveMembers(s: seq<nat>, k: nat)
    requires k < |s| && Distinct(s)
    ensures forall x :: x in RemoveAt(s, k) <==> x in s && x != s[k]
    ensures Distinct(RemoveAt(s, k))
  {
    assert s == s[..k] + [s[k]] + s[k + 1..];
    assert forall i :: 0 <= i < k ==> s[..k][i] == s[i];
  }

  lemma BehindByOrder(c: int, order: Order)
    ensures Behind(c, order) <==> (c == 1 && order == Ascending) || (c == -1 && order == Descending)
  {
  }

  class OrdList {
    const array_: array<nat>
    const order: Order
    var size: nat

    ghost predicate Valid()
      reads this
    {
      size <= array_.Length
    }

    function Elements(): seq<nat>
      requires Valid()
      reads this, array_
    {
      array_[..size]
    }

    constructor (capacity: nat, order: Order)
      ensures Valid() && size == 0 && fresh(array_) && array_.Length == capacity && this.order == order
    {
      array_ := new nat[capacity](_ => 0);
      size := 0;
      this.order := order;
    }

    /** Shifts the elements that go behind `elem` up one slot and drops it into the gap; returns its slot. */
    method Insert(elem: nat, cmp: (nat, nat) -> int) returns (idx: nat)
      requires Valid() && size < array_.Length
      modifies this, array_
      ensures Valid() && size == old(size) + 1
      ensures idx <= old(size) && Elements() == InsertAt(old(Elements()), idx, elem)
      ensures idx == 0 || !Behind(cmp(old(Elements())[idx - 1], elem), order)
      ensures forall j :: idx <= j < old(size) ==> Behind(cmp(old(Elements())[j], elem), order)
      ensures Ordering(cmp, order) && Sorted(old(Elements()), cmp, order) ==> Sorted(Elements(), cmp, order)
    {
      hide InsertAt, Behind, Sorted, Ordering;
      ghost var s := Elements();
      idx := size;
      while idx > 0 && ((cmp(array_[idx - 1], elem) == 1 && order == Ascending)
                        || (cmp(array_[idx - 1], elem) == -1 && order == Descending))
        invariant idx <= size == |s|
        invariant forall j :: 0 <= j < idx ==> array_[j] == s[j]
        invariant forall j :: idx < j <= size ==> array_[j] == s[j - 1]
        invariant forall j :: idx <= j < size ==> Behind(cmp(s[j], elem), order)
        modifies array_
      {
        BehindByOrder(cmp(array_[idx - 1], elem), order);
        array_[idx] := array_[idx - 1];
        idx := idx - 1;
      }
      if idx > 0 {
        BehindByOrder(cmp(s[idx - 1], elem), order);
      }
      array_[idx] := elem;
      size := size + 1;
      ShiftedUp(s, Elements(), idx, elem);
      if Ordering(cmp, order) && Sorted(s, cmp, order) {
        InsertKeepsSorted(s, idx, elem, cmp, order);
      }
    }

    /** Closes the gap over slot `idx`; like the source it copies one slot past the last element,
        so the array must not be full. */
    method Remove(idx: nat) returns (elem: nat)
      requires Valid() && idx < size < array_.Length
      modifies this, array_
      ensures Valid() && size == old(size) - 1
      ensures elem == old(Elements())[idx]
      ensures Elements() == RemoveAt(old(Elements()), idx)
    {
      hide RemoveAt;
      ghost var s := Elements();
      elem := array_[idx];
      var i := idx;
      while i < size
        invariant idx <= i <= size == |s|
        invariant forall j :: 0 <= j < idx ==> array_[j] == s[j]
        invariant forall j :: idx <= j < i && j + 1 < |s| ==> array_[j] == s[j + 1]
        invariant forall j :: i <= j < |s| ==> array_[j] == s[j]
        modifies array_
      {
        array_[i] := array_[i + 1];
        i := i + 1;
      }
      size := size - 1;
      ShiftedDown(s, Elements(), idx);
    }

    /** The first slot holding `elem`, or -1. */
    method IndexOf(elem: nat) returns (idx: int)
      requires Valid()
      ensures idx == -1 <==> elem !in Elements()
      ensures idx != -1 ==> 0 <= idx < size && Elements()[idx] == elem && elem !in Elements()[..idx]
    {
      var i := 0;
      while i < size
        invariant 0 <= i <= size
        invariant elem !in array_[..i]
      {
        if array_[i] == elem {
          assert array_[..size][..i] == array_[..i];
          return i;
        }
        i := i + 1;
      }
      idx := -1;
    }
  }
}
