/** fsgen.js: the passes over the node objects that lay out an image, proved to compute Image(tree). */
module ImageWriter {
  import opened Bytes
  import opened DirTable
  import opened Disk
  import opened InodeHeader
  import opened ImageTree
  import opened Sequences

  /** A node object as loadTree leaves it: files carry their bytes, directories their named children. */
  class GenNode {
    ghost const tree: Tree
    const isDir: bool
    const kids: seq<(seq<byte>, GenNode)>
    var size: nat
    var alloc: nat
    var index: nat
    var content: seq<byte>
    var header: seq<byte>

    constructor File(data: seq<byte>)
      ensures tree == Tree.File(data) && !isDir && kids == []
      ensures size == |data| && content == Padded(data)
    {
      tree := Tree.File(data);
      isDir := false;
      kids := [];
      size := |data|;
      alloc, index := 0, 0;
      content := Padded(data);
      header := [];
    }

    constructor Dir(kids: seq<(seq<byte>, GenNode)>, ghost ks: Kids)
      ensures tree == Tree.Dir(ks) && isDir && this.kids == kids
    {
      tree := Tree.Dir(ks);
      isDir := true;
      this.kids := kids;
      size, alloc, index := 0, 0, 0;
      content, header := [], [];
    }
  }

  ghost predicate Represents(n: GenNode, t: Tree)
    decreases t, 1
  {
    n.tree == t &&
    match t
    case File(_) => !n.isDir && n.kids == []
    case Dir(ks) => n.isDir && RepresentsKids(n.kids, ks)
  }

  ghost predicate RepresentsKids(cs: seq<(seq<byte>, GenNode)>, ks: Kids)
    decreases ks, 0
  {
    match ks
    case NoKids => cs == []
    case Kid(name, node, rest) =>
      cs != [] && cs[0].0 == name && Represents(cs[0].1, node) && RepresentsKids(cs[1..], rest)
  }

  /** The nodes of a subtree in the order in which collect pushes them. */
  ghost function Preorder(n: GenNode, t: Tree): seq<GenNode>
    requires Represents(n, t)
    decreases t, 1
  {
    match t
    case File(_) => [n]
    case Dir(ks) => [n] + PreorderKids(n.kids, ks)
  }

  ghost function PreorderKids(cs: seq<(seq<byte>, GenNode)>, ks: Kids): seq<GenNode>
    requires RepresentsKids(cs, ks)
    decreases ks, 0
  {
    match ks
    case NoKids => []
    case Kid(_, node, rest) => Preorder(cs[0].1, node) + PreorderKids(cs[1..], rest)
  }

  /** Each collected node represents its own tree. */
  ghost predicate Sound(ns: seq<GenNode>) {
    forall k :: 0 <= k < |ns| ==> Represents(ns[k], ns[k].tree) && Sized(ns[k].tree)
  }

  lemma {:induction false} PreorderSound(n: GenNode, t: Tree)
    requires Represents(n, t) && Sized(t)
    ensures Sound(Preorder(n, t))
    decreases t, 1
  {
    if t.Dir? {
      PreorderKidsSound(n.kids, t.kids);
    }
  }

  lemma {:induction false} PreorderKidsSound(cs: seq<(seq<byte>, GenNode)>, ks: Kids)
    requires RepresentsKids(cs, ks) && SizedKids(ks)
    ensures Sound(PreorderKids(cs, ks))
    decreases ks, 0
  {
    if ks.Kid? {
      PreorderSound(cs[0].1, ks.node);
      PreorderKidsSound(cs[1..], ks.rest);
    }
  }

  // ---------------------------------------------------------------- placement

  /** Sectors the collected nodes take, header and content each. */
  ghost function SpanSum(ns: seq<GenNode>): nat {
    if ns == [] then 0 else SpanSum(ns[..|ns| - 1]) + 1 + Sectors(SizeOf(ns[|ns| - 1].tree))
  }

  lemma {:induction false} SpanSumConcat(a: seq<GenNode>, b: seq<GenNode>)
    ensures SpanSum(a + b) == SpanSum(a) + SpanSum(b)
  {
    if b == [] {
      assert a + b == a;
    } else {
      assert (a + b)[..|a + b| - 1] == a + b[..|b| - 1];
      SpanSumConcat(a, b[..|b| - 1]);
    }
  }

  lemma NoSpan()
    ensures SpanSum([]) == 0
  {
  }

  lemma SpanSumOne(n: GenNode)
    ensures SpanSum([n]) == 1 + Sectors(SizeOf(n.tree))
  {
    assert [n][..0] == [];
  }

  lemma {:induction false} SpanSumPreorder(n: GenNode, t: Tree)
    requires Represents(n, t)
    ensures SpanSum(Preorder(n, t)) == Span(t)
    decreases t, 1
  {
    SpanSumOne(n);
    if t.Dir? {
      SpanSumConcat([n], PreorderKids(n.kids, t.kids));
      SpanSumPreorderKids(n.kids, t.kids);
    }
  }

  lemma {:induction false} SpanSumPreorderKids(cs: seq<(seq<byte>, GenNode)>, ks: Kids)
    requires RepresentsKids(cs, ks)
    ensures SpanSum(PreorderKids(cs, ks)) == SpanKids(ks)
    decreases ks, 0
  {
    if ks.Kid? {
      SpanSumConcat(Preorder(cs[0].1, ks.node), PreorderKids(cs[1..], ks.rest));
      SpanSumPreorder(cs[0].1, ks.node);
      SpanSumPreorderKids(cs[1..], ks.rest);
    }
  }

  /** Node n is at sector i and its descendants follow it in preorder. */
  ghost predicate Placed(at: map<GenNode, nat>, n: GenNode, t: Tree, i: nat)
    requires Represents(n, t)
    decreases t, 1
  {
    n in at && at[n] == i && (t.Dir? ==> PlacedKids(at, n.kids, t.kids, i + 1 + Sectors(TableSize(t.kids))))
  }

  ghost predicate PlacedKids(at: map<GenNode, nat>, cs: seq<(seq<byte>, GenNode)>, ks: Kids, j: nat)
    requires RepresentsKids(cs, ks)
    decreases ks, 0
  {
    ks.Kid? ==> Placed(at, cs[0].1, ks.node, j) && PlacedKids(at, cs[1..], ks.rest, j + Span(ks.node))
  }

  /** The running sum that the index pass assigns. */
  ghost predicate Indexed(at: map<GenNode, nat>, ns: seq<GenNode>) {
    forall k :: 0 <= k < |ns| ==> ns[k] in at && at[ns[k]] == 2 + SpanSum(ns[..k])
  }

  /** Running sums over the preorder put every child where its parent's table will say. */
  lemma {:induction false} IndexedPlaced(at: map<GenNode, nat>, ns: seq<GenNode>, p: nat, n: GenNode, t: Tree)
    requires Represents(n, t) && Indexed(at, ns)
    requires p + |Preorder(n, t)| <= |ns| && ns[p..p + |Preorder(n, t)|] == Preorder(n, t)
    ensures Placed(at, n, t, 2 + SpanSum(ns[..p]))
    decreases t, 1
  {
    hide SpanSum, PreorderKids, PlacedKids, RepresentsKids, Sectors;
    var rest := if t.Dir? then PreorderKids(n.kids, t.kids) else [];
    assert Preorder(n, t) == [n] + rest;
    SliceParts(ns, p, [n], rest);
    assert ns[p] == ns[p..p + 1][0];
    if t.Dir? {
      SpanSumConcat(ns[..p], [n]);
      SpanSumOne(n);
      IndexedPlacedKids(at, ns, p + 1, n.kids, t.kids);
    }
  }

  lemma {:induction false} IndexedPlacedKids(at: map<GenNode, nat>, ns: seq<GenNode>, p: nat,
                                             cs: seq<(seq<byte>, GenNode)>, ks: Kids)
    requires RepresentsKids(cs, ks) && Indexed(at, ns)
    requires p + |PreorderKids(cs, ks)| <= |ns| && ns[p..p + |PreorderKids(cs, ks)|] == PreorderKids(cs, ks)
    ensures PlacedKids(at, cs, ks, 2 + SpanSum(ns[..p]))
    decreases ks, 0
  {
    hide Represents, Preorder, Placed, SpanSum, Indexed;
    if ks.Kid? {
      var first, rest := Preorder(cs[0].1, ks.node), PreorderKids(cs[1..], ks.rest);
      var q := p + |first|;
      SliceParts(ns, p, first, rest);
      IndexedPlaced(at, ns, p, cs[0].1, ks.node);
      SpanSumConcat(ns[..p], first);
      SpanSumPreorder(cs[0].1, ks.node);
      IndexedPlacedKids(at, ns, q, cs[1..], ks.rest);
    }
  }

  lemma SliceParts(ns: seq<GenNode>, p: nat, a: seq<GenNode>, b: seq<GenNode>)
    requires p + |a + b| <= |ns| && ns[p..p + |a + b|] == a + b
    ensures ns[p..p + |a|] == a && ns[p + |a|..p + |a| + |b|] == b && ns[..p + |a|] == ns[..p] + a
  {
    var s := ns[p..p + |a + b|];
    assert ns[p..p + |a|] == s[..|a|] && ns[p + |a|..p + |a| + |b|] == s[|a|..];
    assert ns[..p + |a|] == ns[..p] + ns[p..p + |a|];
  }

  /** What the children of each collected node need: they are where the table will say, and everything fits. */
  ghost predicate Ready(at: map<GenNode, nat>, n: GenNode) {
    && n in at && Represents(n, n.tree) && Fitting(n.tree, at[n]) && Placed(at, n, n.tree, at[n])
  }

  ghost predicate AllReady(at: map<GenNode, nat>, ns: seq<GenNode>) {
    forall k :: 0 <= k < |ns| ==> Ready(at, ns[k])
  }

  lemma AllReadyParts(at: map<GenNode, nat>, a: seq<GenNode>, b: seq<GenNode>)
    ensures AllReady(at, a + b) <==> AllReady(at, a) && AllReady(at, b)
  {
    hide Ready;
    if AllReady(at, a + b) {
      assert forall k :: 0 <= k < |a| ==> a[k] == (a + b)[k];
      assert forall k :: 0 <= k < |b| ==> b[k] == (a + b)[|a| + k];
    }
  }

  lemma {:induction false} PlacedReady(at: map<GenNode, nat>, n: GenNode, t: Tree, i: nat)
    requires Represents(n, t) && Fitting(t, i) && Placed(at, n, t, i)
    ensures AllReady(at, Preorder(n, t))
    decreases t, 1
  {
    if t.Dir? {
      PlacedReadyKids(at, n.kids, t.kids, i + 1 + Sectors(TableSize(t.kids)));
    }
  }

  lemma {:induction false} PlacedReadyKids(at: map<GenNode, nat>, cs: seq<(seq<byte>, GenNode)>, ks: Kids, j: nat)
    requires RepresentsKids(cs, ks) && FittingKids(ks, j) && PlacedKids(at, cs, ks, j)
    ensures AllReady(at, PreorderKids(cs, ks))
    decreases ks, 0
  {
    if ks.Kid? {
      PlacedReady(at, cs[0].1, ks.node, j);
      PlacedReadyKids(at, cs[1..], ks.rest, j + Span(ks.node));
      AllReadyParts(at, Preorder(cs[0].1, ks.node), PreorderKids(cs[1..], ks.rest));
    }
  }

  // ---------------------------------------------------------------- concatenation

  /** Headers and contents of the nodes one behind the other. */
  ghost function Flat(at: map<GenNode, nat>, ns: seq<GenNode>): seq<byte>
    requires AllReady(at, ns)
  {
    if ns == [] then []
    else
      var last := ns[|ns| - 1];
      assert Ready(at, last);
      Flat(at, ns[..|ns| - 1]) + EmitNode(last.tree, at[last])
  }

  lemma {:induction false} FlatConcat(at: map<GenNode, nat>, a: seq<GenNode>, b: seq<GenNode>)
    requires AllReady(at, a + b) && AllReady(at, a) && AllReady(at, b)
    ensures Flat(at, a + b) == Flat(at, a) + Flat(at, b)
  {
    hide EmitNode, Ready;
    if b == [] {
      assert a + b == a;
    } else {
      assert (a + b)[..|a + b| - 1] == a + b[..|b| - 1];
      FlatConcat(at, a, b[..|b| - 1]);
    }
  }

  lemma {:induction false} FlatPreorder(at: map<GenNode, nat>, n: GenNode, t: Tree, i: nat)
    requires Represents(n, t) && Fitting(t, i) && Placed(at, n, t, i)
    requires AllReady(at, Preorder(n, t))
    ensures Flat(at, Preorder(n, t)) == Emit(t, i)
    decreases t, 1
  {
    hide EmitNode, Ready;
    assert Preorder(n, t)[0] == n;
    FlatOne(at, n);
    if t.Dir? {
      var below := PreorderKids(n.kids, t.kids);
      AllReadyParts(at, [n], below);
      FlatConcat(at, [n], below);
      FlatPreorderKids(at, n.kids, t.kids, i + 1 + Sectors(TableSize(t.kids)));
    }
  }

  lemma FlatNone(at: map<GenNode, nat>)
    ensures AllReady(at, []) && Flat(at, []) == []
  {
  }

  lemma FlatOne(at: map<GenNode, nat>, n: GenNode)
    requires Ready(at, n)
    ensures Flat(at, [n]) == EmitNode(n.tree, at[n])
  {
    hide EmitNode;
    assert [n][..0] == [];
  }

  lemma {:induction false} FlatPreorderKids(at: map<GenNode, nat>, cs: seq<(seq<byte>, GenNode)>, ks: Kids, j: nat)
    requires RepresentsKids(cs, ks) && FittingKids(ks, j) && PlacedKids(at, cs, ks, j)
    requires AllReady(at, PreorderKids(cs, ks))
    ensures Flat(at, PreorderKids(cs, ks)) == EmitKids(ks, j)
    decreases ks, 0
  {
    hide EmitNode, Ready, Represents, Preorder, Placed, Emit, Flat, AllReady;
    FlatNone(at);
    if ks.Kid? {
      var first, rest := Preorder(cs[0].1, ks.node), PreorderKids(cs[1..], ks.rest);
      AllReadyParts(at, first, rest);
      FlatPreorder(at, cs[0].1, ks.node, j);
      FlatPreorderKids(at, cs[1..], ks.rest, j + Span(ks.node));
      FlatConcat(at, first, rest);
    }
  }

  // ---------------------------------------------------------------- the passes

  /** Whole sectors for s bytes. */
  function SizeToAlloc(s: nat): (a: nat)
    ensures a == Sectors(s)
  {
    if s % 512 == 0 then s / 512 else (s - s % 512) / 512 + 1
  }

  class Generator {
    var nodes: seq<GenNode>
    var allocPtr: nat

    constructor ()
      ensures nodes == [] && allocPtr == 2
    {
      nodes := [];
      allocPtr := 2;
    }

    method Collect(n: GenNode, ghost t: Tree)
      requires Represents(n, t)
      modifies `nodes
      ensures nodes == old(nodes) + Preorder(n, t)
      decreases t
    {
      hide PreorderKids;
      nodes := nodes + [n];
      if n.isDir {
        ghost var rest := t.kids;
        ghost var front := nodes;
        assert n.kids[0..] == n.kids;
        assert front + PreorderKids(n.kids, t.kids) == old(nodes) + Preorder(n, t);
        var i := 0;
        while i < |n.kids|
          invariant 0 <= i <= |n.kids| && RepresentsKids(n.kids[i..], rest)
          invariant nodes + PreorderKids(n.kids[i..], rest) == front + PreorderKids(n.kids, t.kids)
          invariant i < |n.kids| ==> rest.Kid? && rest.node < t
          invariant rest.Kid? ==> rest < t
        {
          PreorderKidsStep(n.kids, i, rest);
          Collect(n.kids[i].1, rest.node);
          rest := rest.rest;
          i := i + 1;
        }
        assert n.kids[i..] == [];
        NoPreorder(rest);
      }
    }

    /** The size and allocation pass. */
    method SizePass()
      requires Sound(nodes)
      requires forall n :: n in nodes ==> Loaded(n)
      modifies nodes
      ensures forall n :: n in nodes ==> n.size == SizeOf(n.tree) && n.alloc == Sectors(n.size)
      ensures forall n :: n in nodes ==> Loaded(n)
    {
      var i := 0;
      while i < |nodes|
        invariant 0 <= i <= |nodes|
        invariant forall n :: n in nodes ==> Loaded(n)
        invariant forall k :: 0 <= k < i ==>
                    nodes[k].size == SizeOf(nodes[k].tree) && nodes[k].alloc == Sectors(nodes[k].size)
      {
        var node := nodes[i];
        assert Represents(node, node.tree);
        if node.isDir {
          var size := SumKids(node.kids, node.tree.kids);
          node.size := size;
          assert node.size == SizeOf(node.tree);
        } else {
          assert Loaded(node);
          assert node.size == SizeOf(node.tree);
        }
        node.alloc := SizeToAlloc(node.size);
        i := i + 1;
      }
    }

    method SumKids(kids: seq<(seq<byte>, GenNode)>, ghost ks: Kids) returns (size: nat)
      requires RepresentsKids(kids, ks)
      ensures size == TableSize(ks)
    {
      size := 0;
      ghost var rest := ks;
      assert kids[0..] == kids;
      var i := 0;
      while i < |kids|
        invariant 0 <= i <= |kids| && RepresentsKids(kids[i..], rest)
        invariant size + TableSize(rest) == TableSize(ks)
      {
        assert kids[i..][0] == kids[i] && kids[i..][1..] == kids[i + 1..];
        size := size + |kids[i].0| + 5;
        rest := rest.rest;
        i := i + 1;
      }
    }

    /** The index pass: a running sum over the collected order. */
    method IndexPass()
      requires forall n :: n in nodes ==> n.size == SizeOf(n.tree) && n.alloc == Sectors(n.size)
      requires forall j, k :: 0 <= j < k < |nodes| ==> nodes[j] != nodes[k]
      requires allocPtr == 2
      modifies this`allocPtr, nodes`index
      ensures forall k :: 0 <= k < |nodes| ==> nodes[k].index == 2 + SpanSum(nodes[..k])
      ensures allocPtr == 2 + SpanSum(nodes)
    {
      hide SpanSum, SizeOf, Sectors;
      NoSpan();
      var i := 0;
      while i < |nodes|
        invariant 0 <= i <= |nodes|
        invariant allocPtr == 2 + SpanSum(nodes[..i])
        invariant forall k :: 0 <= k < i ==> nodes[k].index == 2 + SpanSum(nodes[..k])
      {
        nodes[i].index := allocPtr;
        allocPtr := allocPtr + (nodes[i].alloc + 1);
        assert nodes[..i + 1] == nodes[..i] + [nodes[i]];
        SpanSumConcat(nodes[..i], [nodes[i]]);
        SpanSumOne(nodes[i]);
        i := i + 1;
      }
      assert nodes[..i] == nodes;
    }

    /** Where the index pass has put every collected node. */
    ghost function At(): (at: map<GenNode, nat>)
      reads this, nodes
    {
      map n | n in nodes :: n.index
    }

    /** The directory content pass. */
    method ContentPass(ghost at: map<GenNode, nat>)
      requires AllReady(at, nodes) && forall n :: n in at ==> n.index == at[n]
      requires forall n :: n in nodes ==> Loaded(n)
      modifies nodes`content
      ensures forall k :: 0 <= k < |nodes| ==> HasContent(nodes[k])
    {
      hide Padded, ContentOf, Ready, HasContent, Loaded;
      var i := 0;
      while i < |nodes|
        invariant 0 <= i <= |nodes|
        invariant forall n :: n in nodes ==> Loaded(n)
        invariant forall k :: 0 <= k < i ==> HasContent(nodes[k])
      {
        FillContent(nodes[i], at);
        i := i + 1;
      }
    }

    method FillContent(node: GenNode, ghost at: map<GenNode, nat>)
      requires Ready(at, node) && forall n :: n in at ==> n.index == at[n]
      requires Loaded(node)
      modifies node`content
      ensures HasContent(node) && Loaded(node)
    {
      hide Padded, ContentOf, Encode, EntriesAt;
      ContentByKind(node.tree, node.index);
      if node.isDir {
        var content := Table(node.kids, node.tree.kids, node.index + 1 + Sectors(TableSize(node.tree.kids)), at);
        node.content := content + Zeros(SizeToAlloc(|content|) * 512 - |content|);
        PaddedIs(content);
      }
    }

    /** The records of one directory, from the indices its children have got. */
    method Table(kids: seq<(seq<byte>, GenNode)>, ghost ks: Kids, ghost j: nat, ghost at: map<GenNode, nat>)
      returns (content: seq<byte>)
      requires RepresentsKids(kids, ks) && FittingKids(ks, j) && PlacedKids(at, kids, ks, j)
      requires forall n :: n in at ==> n.index == at[n]
      ensures content == Encode(EntriesAt(ks, j))
    {
      hide Encode, EntriesAt, Represents, Placed, Spell;
      content := [];
      ghost var rest: Kids, p: nat := ks, j;
      assert kids[0..] == kids;
      assert content + Encode(EntriesAt(ks, j)) == Encode(EntriesAt(ks, j));
      var i := 0;
      while i < |kids|
        invariant 0 <= i <= |kids| && RepresentsKids(kids[i..], rest) && FittingKids(rest, p)
        invariant PlacedKids(at, kids[i..], rest, p)
        invariant content + Encode(EntriesAt(rest, p)) == Encode(EntriesAt(ks, j))
      {
        TableStep(at, kids, i, rest, p);
        var name, child := kids[i].0, kids[i].1;
        var entry := name + [0] + Spell(child.index);
        assert content + (entry + Encode(EntriesAt(rest.rest, p + Span(rest.node))))
            == content + entry + Encode(EntriesAt(rest.rest, p + Span(rest.node)));
        content := content + entry;
        p := p + Span(rest.node);
        rest := rest.rest;
        i := i + 1;
      }
      assert kids[i..] == [];
      NoTable(rest, p);
      assert content + [] == content;
    }

    /** The header pass. */
    method HeaderPass(ghost at: map<GenNode, nat>)
      requires AllReady(at, nodes) && forall n :: n in nodes ==> n in at && n.index == at[n]
      requires forall n :: n in nodes ==> n.size == SizeOf(n.tree) && n.alloc == Sectors(n.size)
      modifies nodes`header
      ensures forall k :: 0 <= k < |nodes| ==> HasHeader(nodes[k])
    {
      hide Ready, HasHeader;
      var i := 0;
      while i < |nodes|
        invariant 0 <= i <= |nodes|
        invariant forall k :: 0 <= k < i ==> HasHeader(nodes[k])
      {
        FillHeader(nodes[i], at);
        i := i + 1;
      }
    }

    method FillHeader(node: GenNode, ghost at: map<GenNode, nat>)
      requires Ready(at, node) && node.index == at[node] && node.size == SizeOf(node.tree)
      requires node.alloc == Sectors(node.size)
      modifies node`header
      ensures HasHeader(node)
    {
      hide Spell, Placed;
      if node.isDir {
        KidCountFits(node.tree.kids);
        KidsCounted(node.kids, node.tree.kids);
      }
      node.header := Spell(1) + Spell(node.index) + Spell(node.size) + Spell(node.alloc)
        + Spell(if node.isDir then |node.kids| else 0) + Spell(if node.isDir then 1 else 0) + Zeros(512 - 24);
    }

    /** The buffers one behind the other. The sort before it rearranges nothing: see CollectedInOrder. */
    method Concatenate(ghost at: map<GenNode, nat>) returns (image: seq<byte>)
      requires AllReady(at, nodes) && forall n :: n in nodes ==> n in at && n.index == at[n]
      requires forall k :: 0 <= k < |nodes| ==> HasContent(nodes[k]) && HasHeader(nodes[k])
      ensures image == Flat(at, nodes)
    {
      hide EmitNode;
      image := [];
      var i := 0;
      while i < |nodes|
        invariant 0 <= i <= |nodes| && AllReady(at, nodes[..i])
        invariant image == Flat(at, nodes[..i])
      {
        assert nodes[..i + 1][..i] == nodes[..i];
        assert Ready(at, nodes[i]) && HasContent(nodes[i]) && HasHeader(nodes[i]);
        NodeBytes(nodes[i].tree, nodes[i].index);
        assert (image + nodes[i].header) + nodes[i].content == image + (nodes[i].header + nodes[i].content);
        image := image + nodes[i].header + nodes[i].content;
        i := i + 1;
      }
      assert nodes[..i] == nodes;
    }

    /** The whole program on a loaded tree: the file it writes is the image of the tree. */
    method Generate(root: GenNode, ghost t: Tree, ghost all: seq<GenNode>) returns (image: seq<byte>)
      requires Represents(root, t) && Fitting(t, 2) && nodes == [] && allocPtr == 2
      requires all == Preorder(root, t) && Distinct(all) && forall n :: n in all ==> Loaded(n)
      modifies this, all
      ensures image == Image(t)
      ensures nodes == all
    {
      hide Represents, Preorder, Padded, Image, Flat, Placed, Emit, EmitNode, Ready, WordSector, Sized, Span, Fitting;
      Collect(root, t);
      assert nodes == all;
      PreorderSound2(root, t);
      var body := RunPasses(root, t);
      SpanSumPreorder(root, t);
      ImageFits(t);
      ImageIs(t);
      image := WordSector(allocPtr) + WordSector(root.index) + body;
    }

    method RunPasses(root: GenNode, ghost t: Tree) returns (body: seq<byte>)
      requires Represents(root, t) && Fitting(t, 2) && nodes == Preorder(root, t) && allocPtr == 2
      requires Distinct(nodes) && Sound(nodes) && forall n :: n in nodes ==> Loaded(n)
      modifies this`allocPtr, nodes
      ensures body == Emit(t, 2) && allocPtr == 2 + SpanSum(nodes) && root.index == 2 && nodes == old(nodes)
    {
      hide Represents, Preorder, Padded, Flat, Placed, Emit, EmitNode, Ready, Sized, Span, HasContent, HasHeader,
           SizeOf, Sectors, SpanSum, Fitting;
      SizePass();
      IndexPass();
      ghost var at := At();
      assert Indexed(at, nodes);
      Layout(at, nodes, root, t);
      hide AllReady, Sound, Distinct, Indexed;
      body := FillPasses(at);
      FlatPreorder(at, root, t, 2);
    }

    method FillPasses(ghost at: map<GenNode, nat>) returns (body: seq<byte>)
      requires AllReady(at, nodes) && forall n :: n in nodes ==> n in at && n.index == at[n]
      requires forall n :: n in at ==> n.index == at[n]
      requires forall n :: n in nodes ==> Loaded(n) && n.size == SizeOf(n.tree) && n.alloc == Sectors(n.size)
      modifies nodes`content, nodes`header
      ensures body == Flat(at, nodes)
    {
      hide Padded, Flat, Placed, EmitNode, Ready, SizeOf, Sectors, Loaded, Fitting;
      ContentPass(at);
      HeaderPass(at);
      body := Concatenate(at);
    }
  }

  lemma PreorderSound2(n: GenNode, t: Tree)
    requires Represents(n, t) && Fitting(t, 2)
    ensures Sound(Preorder(n, t))
  {
    PreorderSound(n, t);
  }

  /** loadFile has set a file's size and padded content. */
  ghost predicate Loaded(n: GenNode)
    reads n
  {
    !n.isDir ==> n.tree.File? && n.size == |n.tree.data| && n.content == Padded(n.tree.data)
  }

  ghost predicate HasContent(n: GenNode)
    reads n
  {
    Fitting(n.tree, n.index) && n.content == Padded(ContentOf(n.tree, n.index))
  }

  ghost predicate HasHeader(n: GenNode)
    reads n
  {
    && Fitting(n.tree, n.index) && SizeOf(n.tree) < LIMIT && (n.tree.Dir? ==> KidCount(n.tree.kids) < LIMIT)
    && n.header == EncodeMeta(HeaderOf(n.tree, n.index))
  }

  lemma NodeBytes(t: Tree, i: nat)
    requires Fitting(t, i)
    ensures SizeOf(t) < LIMIT && (t.Dir? ==> KidCount(t.kids) < LIMIT)
    ensures EmitNode(t, i) == EncodeMeta(HeaderOf(t, i)) + Padded(ContentOf(t, i))
  {
    hide EncodeMeta, Padded, ContentOf, HeaderOf;
    if t.Dir? {
      KidCountFits(t.kids);
    }
  }

  lemma ImageFits(t: Tree)
    requires Fitting(t, 2)
    ensures 2 + Span(t) < LIMIT
  {
  }

  lemma ImageIs(t: Tree)
    requires Fitting(t, 2)
    ensures Image(t) == WordSector(2 + Span(t)) + WordSector(2) + Emit(t, 2)
  {
    hide WordSector, Emit;
  }

  lemma {:induction false} KidsCounted(cs: seq<(seq<byte>, GenNode)>, ks: Kids)
    requires RepresentsKids(cs, ks)
    ensures |cs| == KidCount(ks)
    decreases ks
  {
    hide Represents;
    if ks.Kid? {
      KidsCounted(cs[1..], ks.rest);
    }
  }

  /** The index pass over the preorder places the whole tree from sector 2 on. */
  lemma Layout(at: map<GenNode, nat>, ns: seq<GenNode>, root: GenNode, t: Tree)
    requires Represents(root, t) && Fitting(t, 2) && ns == Preorder(root, t) && Indexed(at, ns)
    ensures Placed(at, root, t, 2) && AllReady(at, ns) && root in at && at[root] == 2
  {
    hide Represents, Preorder, Indexed, AllReady;
    NoSpan();
    assert ns[0..0 + |ns|] == ns && ns[..0] == [];
    IndexedPlaced(at, ns, 0, root, t);
    PlacedReady(at, root, t, 2);
  }

  /** The collected nodes are in ascending order of index already, so sorting them by index changes nothing. */
  lemma CollectedInOrder(at: map<GenNode, nat>, ns: seq<GenNode>, j: nat, k: nat)
    requires Indexed(at, ns) && j < k < |ns|
    ensures at[ns[j]] < at[ns[k]]
  {
    assert ns[..k] == ns[..j] + ([ns[j]] + ns[j + 1..k]);
    SpanSumConcat(ns[..j], [ns[j]] + ns[j + 1..k]);
    SpanSumConcat([ns[j]], ns[j + 1..k]);
    SpanSumOne(ns[j]);
  }

  lemma TableStep(at: map<GenNode, nat>, kids: seq<(seq<byte>, GenNode)>, i: nat, ks: Kids, j: nat)
    requires i < |kids| && RepresentsKids(kids[i..], ks) && FittingKids(ks, j) && PlacedKids(at, kids[i..], ks, j)
    ensures ks.Kid? && kids[i].0 == ks.name && kids[i].1 in at && at[kids[i].1] == j
    ensures RepresentsKids(kids[i + 1..], ks.rest) && FittingKids(ks.rest, j + Span(ks.node))
    ensures PlacedKids(at, kids[i + 1..], ks.rest, j + Span(ks.node))
    ensures Encode(EntriesAt(ks, j)) == (ks.name + [0] + Spell(j)) + Encode(EntriesAt(ks.rest, j + Span(ks.node)))
  {
    hide Represents, Spell;
    assert kids[i..][0] == kids[i] && kids[i..][1..] == kids[i + 1..];
    assert EntriesAt(ks, j)[1..] == EntriesAt(ks.rest, j + Span(ks.node));
  }

  lemma NoTable(ks: Kids, j: nat)
    requires RepresentsKids([], ks) && FittingKids(ks, j)
    ensures Encode(EntriesAt(ks, j)) == []
  {
  }

  lemma ContentByKind(t: Tree, i: nat)
    requires Fitting(t, i)
    ensures t.File? ==> ContentOf(t, i) == t.data
    ensures t.Dir? ==> ContentOf(t, i) == Encode(EntriesAt(t.kids, i + 1 + Sectors(TableSize(t.kids))))
  {
  }

  lemma PaddedIs(s: seq<byte>)
    ensures |s| <= 512 * Sectors(|s|) && Padded(s) == s + Zeros(512 * Sectors(|s|) - |s|)
  {
  }

  lemma PreorderKidsStep(cs: seq<(seq<byte>, GenNode)>, i: nat, ks: Kids)
    requires i < |cs| && RepresentsKids(cs[i..], ks)
    ensures ks.Kid? && cs[i].0 == ks.name && Represents(cs[i].1, ks.node) && RepresentsKids(cs[i + 1..], ks.rest)
    ensures PreorderKids(cs[i..], ks) == Preorder(cs[i].1, ks.node) + PreorderKids(cs[i + 1..], ks.rest)
  {
    hide Represents, Preorder;
    assert cs[i..][0] == cs[i] && cs[i..][1..] == cs[i + 1..];
  }

  lemma NoPreorder(ks: Kids)
    requires RepresentsKids([], ks)
    ensures ks == NoKids && PreorderKids([], ks) == []
  {
  }

  lemma {:induction false} FlatLength(at: map<GenNode, nat>, ns: seq<GenNode>)
    requires AllReady(at, ns)
    ensures |Flat(at, ns)| == SECTOR * SpanSum(ns)
  {
    hide EmitNode, Placed, Represents;
    if ns != [] {
      var last := ns[|ns| - 1];
      assert Ready(at, last);
      FlatLength(at, ns[..|ns| - 1]);
      EmitNodeLength(last.tree, at[last]);
    }
  }

  lemma FlatSplit(at: map<GenNode, nat>, ns: seq<GenNode>, k: nat)
    requires AllReady(at, ns) && k < |ns|
    ensures AllReady(at, ns[..k]) && Ready(at, ns[k]) && AllReady(at, ns[k + 1..])
    ensures Flat(at, ns) == Flat(at, ns[..k]) + (EmitNode(ns[k].tree, at[ns[k]]) + Flat(at, ns[k + 1..]))
  {
    assert Ready(at, ns[k]);
    hide EmitNode, Flat, Ready;
    var before, one, after := ns[..k], [ns[k]], ns[k + 1..];
    assert ns == before + (one + after);
    AllReadyParts(at, before, one + after);
    AllReadyParts(at, one, after);
    hide AllReady;
    FlatConcat(at, before, one + after);
    FlatConcat(at, one, after);
    FlatOne(at, ns[k]);
  }

  /** In the file, the header of every node starts at its index times 512. */
  lemma HeaderAtIndex(at: map<GenNode, nat>, ns: seq<GenNode>, front: seq<byte>, k: nat)
    requires AllReady(at, ns) && Indexed(at, ns) && |front| == 2 * SECTOR && k < |ns|
    ensures Ready(at, ns[k])
    ensures var t, i, image := ns[k].tree, at[ns[k]], front + Flat(at, ns);
            && SizeOf(t) < LIMIT && (t.Dir? ==> KidCount(t.kids) < LIMIT)
            && SECTOR * (i + 1) <= |image| && image[SECTOR * i..SECTOR * (i + 1)] == EncodeMeta(HeaderOf(t, i))
  {
    hide EmitNode, EncodeMeta, Flat, HeaderOf, Padded, Ready, AllReady, Indexed, SpanSum, ContentOf, Represents,
         Placed, SizeOf, KidCount, Fitting, Sectors;
    IndexIs(at, ns, k);
    FlatSplit(at, ns, k);
    FlatLength(at, ns[..k]);
    ReadyFits(at, ns[k]);
    var t, i := ns[k].tree, at[ns[k]];
    NodeBytes(t, i);
    HeaderFirst(front, Flat(at, ns[..k]), EncodeMeta(HeaderOf(t, i)), Padded(ContentOf(t, i)), Flat(at, ns[k + 1..]));
  }

  lemma IndexIs(at: map<GenNode, nat>, ns: seq<GenNode>, k: nat)
    requires Indexed(at, ns) && k < |ns|
    ensures ns[k] in at && at[ns[k]] == 2 + SpanSum(ns[..k])
  {
  }

  lemma ReadyFits(at: map<GenNode, nat>, n: GenNode)
    requires Ready(at, n)
    ensures n in at && Fitting(n.tree, at[n])
  {
  }

  lemma HeaderFirst(front: seq<byte>, a: seq<byte>, h: seq<byte>, c: seq<byte>, rest: seq<byte>)
    ensures var whole := front + (a + ((h + c) + rest));
            |front| + |a| + |h| <= |whole| && whole[|front| + |a|..|front| + |a| + |h|] == h
  {
  }
}
