/** How the block sequence and the recorder's table of live ranges stay in step. */
module HeapLive {
  import opened HeapBlocks

  /** The recorder holds one range per block in use, inside that block's payload. */
  ghost predicate Watched(bs: seq<Block>, live: map<nat, nat>)
  {
    && (forall i :: 0 <= i < |bs| && !bs[i].hole ==>
          bs[i].Payload() in live && 0 < live[bs[i].Payload()] <= bs[i].size)
    && (forall p :: p in live ==> UsedAt(bs, p))
  }

  ghost predicate UsedAt(bs: seq<Block>, p: nat) {
    exists i :: 0 <= i < |bs| && !bs[i].hole && bs[i].Payload() == p
  }

  /** A byte of a live range lies in a payload in use. */
  lemma LiveInUse(bs: seq<Block>, live: map<nat, nat>, p: nat, k: nat)
    requires Watched(bs, live) && p in live && p <= k < p + live[p]
    ensures InUse(bs, k)
  {
    assert UsedAt(bs, p);
    var i :| 0 <= i < |bs| && !bs[i].hole && bs[i].Payload() == p;
    assert PayloadOf(bs[i], k);
  }

  /** The range of a block in use and any other live range share no byte. */
  lemma LiveApart(bs: seq<Block>, live: map<nat, nat>, start: nat, end: nat, i: nat, p: nat)
    requires Watched(bs, live) && Ordered(bs, start, end)
    requires i < |bs| && p in live && p != bs[i].Payload()
    ensures bs[i].End() <= p || p + live[p] <= bs[i].addr
  {
    assert UsedAt(bs, p);
    var j :| 0 <= j < |bs| && !bs[j].hole && bs[j].Payload() == p;
    assert j < i ==> bs[j].End() <= bs[i].addr;
    assert i < j ==> bs[i].End() <= bs[j].addr;
  }

  lemma HoleNotLive(bs: seq<Block>, live: map<nat, nat>, start: nat, end: nat, i: nat)
    requires Watched(bs, live) && Ordered(bs, start, end) && i < |bs| && bs[i].hole
    ensures bs[i].Payload() !in live
  {
    forall j | 0 <= j < |bs| && !bs[j].hole
      ensures bs[j].Payload() != bs[i].Payload()
    {
      assert j < i ==> bs[j].End() <= bs[i].addr;
      assert i < j ==> bs[i].End() <= bs[j].addr;
    }
    assert !UsedAt(bs, bs[i].Payload());
  }

  lemma GrantWatched(bs: seq<Block>, live: map<nat, nat>, start: nat, end: nat, i: nat, size: nat)
    requires Watched(bs, live) && Ordered(bs, start, end)
    requires i < |bs| && bs[i].hole && 0 < size <= bs[i].size
    ensures Watched(SetHole(bs, i, false), live[bs[i].Payload() := size])
  {
    HoleNotLive(bs, live, start, end, i);
    var r, live' := SetHole(bs, i, false), live[bs[i].Payload() := size];
    assert r[i].Payload() == bs[i].Payload();
    forall p | p in live'
      ensures UsedAt(r, p)
    {
      if p != bs[i].Payload() {
        assert UsedAt(bs, p);
        var j :| 0 <= j < |bs| && !bs[j].hole && bs[j].Payload() == p;
        assert r[j] == bs[j];
      }
    }
    forall j | 0 <= j < |r| && !r[j].hole
      ensures r[j].Payload() in live' && 0 < live'[r[j].Payload()] <= r[j].size
    {
      if j != i {
        assert r[j] == bs[j];
        assert j < i ==> bs[j].End() <= bs[i].addr;
        assert i < j ==> bs[i].End() <= bs[j].addr;
      }
    }
  }

  lemma RevokeWatched(bs: seq<Block>, live: map<nat, nat>, start: nat, end: nat, i: nat)
    requires Watched(bs, live) && Ordered(bs, start, end) && i < |bs| && !bs[i].hole
    ensures Watched(SetHole(bs, i, true), live - {bs[i].Payload()})
  {
    var r, live' := SetHole(bs, i, true), live - {bs[i].Payload()};
    forall p | p in live'
      ensures UsedAt(r, p)
    {
      assert UsedAt(bs, p);
      var j :| 0 <= j < |bs| && !bs[j].hole && bs[j].Payload() == p;
      assert r[j] == bs[j];
    }
    forall j | 0 <= j < |r| && !r[j].hole
      ensures r[j].Payload() in live' && 0 < live'[r[j].Payload()] <= r[j].size
    {
      assert r[j] == bs[j];
      assert j < i ==> bs[j].End() <= bs[i].addr;
      assert i < j ==> bs[i].End() <= bs[j].addr;
    }
  }

  lemma HighSplitWatched(bs: seq<Block>, live: map<nat, nat>, i: nat, sz: nat)
    requires Watched(bs, live) && i < |bs| && !bs[i].hole && HEADER < sz < bs[i].size
    requires live[bs[i].Payload()] <= bs[i].size - sz
    ensures Watched(HighSplit(bs, i, sz), live)
  {
    var r := HighSplit(bs, i, sz);
    forall p | p in live
      ensures UsedAt(r, p)
    {
      assert UsedAt(bs, p);
      var j :| 0 <= j < |bs| && !bs[j].hole && bs[j].Payload() == p;
      assert r[if j <= i then j else j + 1].Payload() == p;
    }
    forall j | 0 <= j < |r| && !r[j].hole
      ensures r[j].Payload() in live && 0 < live[r[j].Payload()] <= r[j].size
    {
      assert r[j].Payload() == bs[if j <= i then j else j - 1].Payload();
    }
  }

  lemma MergeWatched(bs: seq<Block>, live: map<nat, nat>, i: nat)
    requires Watched(bs, live) && i < |bs| && bs[i].hole
    ensures Watched(Merge(bs, i), live)
  {
    var r := Merge(bs, i);
    if r != bs {
      forall p | p in live
        ensures UsedAt(r, p)
      {
        assert UsedAt(bs, p);
        var j :| 0 <= j < |bs| && !bs[j].hole && bs[j].Payload() == p;
        assert r[if j <= i then j else j - 1].Payload() == p;
      }
      forall j | 0 <= j < |r| && !r[j].hole
        ensures r[j].Payload() in live && 0 < live[r[j].Payload()] <= r[j].size
      {
        assert r[j] == bs[if j <= i then j else j + 1];
      }
    }
  }

  lemma CarveWatched(bs: seq<Block>, live: map<nat, nat>, start: nat, end: nat, i: nat, size: nat)
    requires Watched(bs, live) && Ordered(bs, start, end)
    requires i < |bs| && bs[i].hole && 0 < size <= bs[i].size
    ensures Watched(Carve(bs, i, size), live[bs[i].Payload() := size])
  {
    hide Watched, Ordered, HighSplit;
    GrantWatched(bs, live, start, end, i, size);
    if bs[i].size - size > HEADER {
      HighSplitWatched(SetHole(bs, i, false), live[bs[i].Payload() := size], i, bs[i].size - size);
    }
  }

  lemma ReleaseWatched(bs: seq<Block>, live: map<nat, nat>, start: nat, end: nat, i: nat)
    requires Watched(bs, live) && Ordered(bs, start, end) && i < |bs| && !bs[i].hole
    ensures Watched(Release(bs, i), live - {bs[i].Payload()})
  {
    RevokeWatched(bs, live, start, end, i);
    MergeWatched(SetHole(bs, i, true), live - {bs[i].Payload()}, i);
    if i > 0 && bs[i - 1].hole {
      var freed := Merge(SetHole(bs, i, true), i);
      assert freed[i - 1] == bs[i - 1];
      MergeWatched(freed, live - {bs[i].Payload()}, i - 1);
    }
  }
}
