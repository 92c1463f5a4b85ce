/** The linked FIFO of src/kqueue.c: head, tail and a size, with the queued values as its abstract contents. */
module KQueue {
  class Ele {
    var value: nat
    var next: Ele?

    constructor (value: nat)
      ensures this.value == value && next == null
    {
      this.value := value;
      next := null;
    }
  }

  class Queue {
    var size: nat
    var head: Ele?
    var tail: Ele?
    ghost var spine: seq<Ele>

    ghost predicate Valid()
      reads this, spine
    {
      && size == |spine|
      && (forall i, j :: 0 <= i < j < |spine| ==> spine[i] != spine[j])
      && (if spine == [] then head == null && tail == null
          else head == spine[0] && tail == spine[|spine| - 1] && spine[|spine| - 1].next == null)
      && (forall i, j :: 0 <= i && j == i + 1 < |spine| ==> spine[i].next == spine[j])
    }

    ghost function Contents(): (s: seq<nat>)
      reads this, spine
      ensures |s| == |spine|
    {
      seq(|spine|, i requires 0 <= i < |spine| reads this, spine => spine[i].value)
    }

    constructor ()
      ensures Valid() && Contents() == [] && fresh(spine)
    {
      size, head, tail := 0, null, null;
      spine := [];
    }

    method Push(value: nat)
      requires Valid()
      modifies this, spine
      ensures Valid() && Contents() == old(Contents()) + [value]
      ensures |spine| == |old(spine)| + 1 && spine[..|old(spine)|] == old(spine) && fresh(spine[|old(spine)|])
    {
      var ele := new Ele(value);
      if size != 0 {
        tail.next := ele;
      } else {
        head := ele;
      }
      tail := ele;
      size := size + 1;
      spine := spine + [ele];
      assert forall i :: 0 <= i < |old(spine)| ==> spine[i] == old(spine)[i];
    }

    method Pop() returns (value: nat)
      requires Valid() && size > 0
      modifies this
      ensures Valid() && value == old(Contents())[0] && Contents() == old(Contents())[1..]
      ensures spine == old(spine)[1..]
    {
      value := head.value;
      ghost var rest := spine[1..];
      assert forall i, j :: 0 <= i && j == i + 1 < |spine| ==> rest[i] == spine[j];
      var next := head.next;
      head := next;
      if next == null {
        tail := null;
      }
      size := size - 1;
      spine := rest;
    }

    method Peek() returns (value: nat)
      requires Valid() && size > 0
      ensures value == Contents()[0]
    {
      value := head.value;
    }
  }
}
