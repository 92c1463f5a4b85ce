/** The reader inverts the writer: parsing the image of a tree gives back that tree and reports nothing. */
module ImageRoundTrip {
  import opened Bytes
  import opened DirTable
  import opened Disk
  import opened InodeHeader
  import opened ImageTree
  import opened ImageReader
  import opened ImageWriter
  import opened Sequences

  /** `s` lies at offset p of the buffer. */
  ghost predicate HoldsAt(buf: seq<byte>, p: nat, s: seq<byte>) {
    p + |s| <= |buf| && buf[p..p + |s|] == s
  }

  lemma HoldsParts(buf: seq<byte>, p: nat, a: seq<byte>, b: seq<byte>)
    requires HoldsAt(buf, p, a + b)
    ensures HoldsAt(buf, p, a) && HoldsAt(buf, p + |a|, b)
  {
    var s := buf[p..p + |a + b|];
    assert s[..|a|] == a && s[|a|..] == b;
    assert buf[p..p + |a|] == s[..|a|] && buf[p + |a|..p + |a| + |b|] == s[|a|..];
  }

  lemma WordHeld(buf: seq<byte>, p: nat, v: u32)
    requires HoldsAt(buf, p, Spell(v)) && v < LIMIT
    ensures p + 4 <= |buf| && SignedAt(buf, p) == v
  {
    WordInside(buf, p, v);
  }

  lemma ReadHGood(buf: seq<byte>, i: nat, m: Meta)
    requires HoldsAt(buf, SECTOR * i, EncodeMeta(m)) && m.valid == 1
    requires m.index < LIMIT && m.size < LIMIT && m.alloc < LIMIT && m.childCount < LIMIT && m.kind < LIMIT
    ensures ReadH(buf, i) == HeadOk(Head(m.index, 1, m.kind == 1, m.size, m.alloc, m.childCount))
  {
    var content := JsSlice(buf, i * SECTOR, (i + 1) * SECTOR);
    assert content == EncodeMeta(m);
    DecodeEncodeMeta(m, Zeros(SECTOR - 24));
    hide SixWords, WordAt;
    assert DecodeMeta(content) == m;
  }

  // ---------------------------------------------------------------- child tables

  function Kin(es: seq<Entry>): seq<Child> {
    if es == [] then [] else [Child(es[0].name, es[0].index)] + Kin(es[1..])
  }

  lemma ReadNameGood(buf: seq<byte>, p: nat, k: nat, name: seq<byte>)
    requires k <= |name| && NulFree(name) && HoldsAt(buf, p, name + [0])
    ensures ReadName(buf, p + k, name[..k]) == NameOkAt(name, p + |name| + 1)
    decreases |name| - k
  {
    assert buf[p + k] == (name + [0])[k];
    if k < |name| {
      assert name[..k] + [buf[p + k]] == name[..k + 1];
      ReadNameGood(buf, p, k + 1, name);
    } else {
      assert name[..k] == name;
    }
  }

  lemma {:induction false} ChildrenGood(buf: seq<byte>, p: nat, es: seq<Entry>)
    requires HoldsAt(buf, p, Encode(es)) && EntriesOk(es)
    requires forall k :: 0 <= k < |es| ==> es[k].name != [] && es[k].index < LIMIT
    ensures ChildrenFrom(buf, p, p + |Encode(es)|) == ChildrenOk(Kin(es))
    decreases |es|
  {
    hide Spell, SignedAt, ChildrenFrom, HoldsAt, Record;
    if es == [] {
      ChildrenEnd(buf, p);
    } else {
      var name, n := es[0].name, |es[0].name|;
      RecordHeld(buf, p, es[0], Encode(es[1..]));
      ReadNameGood(buf, p, 0, name);
      assert name[..0] == [];
      ChildrenGood(buf, p + n + 5, es[1..]);
      ChildrenStep(buf, p, p + |Encode(es)|, name, p + n + 1, Kin(es[1..]));
    }
  }

  lemma RecordHeld(buf: seq<byte>, p: nat, e: Entry, more: seq<byte>)
    requires HoldsAt(buf, p, Record(e) + more) && e.index < LIMIT
    ensures var q := p + |e.name| + 1;
            && HoldsAt(buf, p, e.name + [0]) && HoldsAt(buf, q + 4, more)
            && q + 4 <= |buf| && SignedAt(buf, q) == e.index
  {
    hide Spell, SignedAt, HoldsAt;
    HoldsParts(buf, p, Record(e), more);
    HoldsParts(buf, p, e.name + [0], Spell(e.index));
    WordHeld(buf, p + |e.name| + 1, e.index);
  }

  lemma ChildrenEnd(buf: seq<byte>, p: nat)
    ensures ChildrenFrom(buf, p, p) == ChildrenOk([])
  {
  }

  lemma ChildrenStep(buf: seq<byte>, p: nat, end: nat, name: seq<byte>, q: nat, rest: seq<Child>)
    requires p < end && ReadName(buf, p, []) == NameOkAt(name, q) && name != [] && q + 4 <= |buf|
    requires ChildrenFrom(buf, q + 4, end) == ChildrenOk(rest)
    ensures ChildrenFrom(buf, p, end) == ChildrenOk([Child(name, SignedAt(buf, q))] + rest)
  {
    hide ReadName, SignedAt;
  }

  // ---------------------------------------------------------------- trees

  function Height(t: Tree): nat {
    match t
    case File(_) => 1
    case Dir(ks) => 1 + HeightKids(ks)
  }

  function HeightKids(ks: Kids): nat {
    match ks
    case NoKids => 0
    case Kid(_, node, rest) => if Height(node) > HeightKids(rest) then Height(node) else HeightKids(rest)
  }

  function NamesOf(ks: Kids): set<seq<byte>> {
    match ks
    case NoKids => {}
    case Kid(name, _, rest) => {name} + NamesOf(rest)
  }

  function Append(a: Kids, b: Kids): Kids {
    match a
    case NoKids => b
    case Kid(name, node, rest) => Kid(name, node, Append(rest, b))
  }

  lemma {:induction false} AssignNew(ks: Kids, name: seq<byte>, node: Tree, more: Kids)
    requires name !in NamesOf(ks)
    ensures Append(Assign(ks, name, node), more) == Append(ks, Kid(name, node, more))
    ensures NamesOf(Assign(ks, name, node)) == NamesOf(ks) + {name}
  {
    if ks.Kid? {
      AssignNew(ks.rest, name, node, more);
    }
  }

  lemma {:induction false} AppendNone(ks: Kids)
    ensures Append(ks, NoKids) == ks
  {
    if ks.Kid? {
      AppendNone(ks.rest);
    }
  }

  /** Every entry of a laid-out directory has a good name and points behind the directory itself. */
  lemma {:induction false} EntriesGood(ks: Kids, j: nat, taken: set<seq<byte>>)
    requires FittingKids(ks, j) && NamedKids(ks, taken)
    ensures EntriesOk(EntriesAt(ks, j))
    ensures forall k :: 0 <= k < |EntriesAt(ks, j)| ==>
              EntriesAt(ks, j)[k].name != [] && j <= EntriesAt(ks, j)[k].index < LIMIT
  {
    if ks.Kid? {
      EntriesGood(ks.rest, j + Span(ks.node), taken + {ks.name});
    }
  }

  lemma NodeOfFile(buf: seq<byte>, idx: int, path: seq<byte>, depth: nat, h: Head)
    requires depth > 0 && ReadH(buf, idx) == HeadOk(h) && h.validity != 0 && !h.isDir
    ensures ReadNode(buf, idx, path, depth)
         == (Node(File(JsSlice(buf, (idx + 1) * SECTOR, (idx + 1) * SECTOR + h.size))), [])
  {
    hide ReadH, JsSlice;
  }

  lemma NodeOfDir(buf: seq<byte>, idx: int, path: seq<byte>, depth: nat, h: Head, cs: seq<Child>)
    requires depth > 0 && ReadH(buf, idx) == HeadOk(h) && h.validity != 0 && h.isDir
    requires ChildrenFrom(buf, (idx + 1) * SECTOR, (idx + 1) * SECTOR + h.size) == ChildrenOk(cs)
    ensures ReadNode(buf, idx, path, depth) == ReadAll(buf, cs, path, depth - 1, NoKids, None)
  {
    hide ReadH, ChildrenFrom, ReadAll;
  }

  lemma KidsOfFirst(buf: seq<byte>, cs: seq<Child>, path: seq<byte>, depth: nat, dir: Kids, t: Tree, o: Outcome)
    requires cs != [] && ReadNode(buf, cs[0].idx, path + [SLASH] + cs[0].name, depth) == (Node(t), [])
    requires ReadAll(buf, cs[1..], path, depth, Assign(dir, cs[0].name, t), None) == (o, [])
    ensures ReadAll(buf, cs, path, depth, dir, None) == (o, [])
  {
    hide ReadNode;
    var none: seq<Report> := [];
    assert none + none == [];
  }

  /** Reading at the sector where a subtree was emitted gives that subtree. */
  lemma {:induction false} ReadEmitted(buf: seq<byte>, t: Tree, i: nat, path: seq<byte>, depth: nat)
    requires Fitting(t, i) && Named(t) && HoldsAt(buf, SECTOR * i, Emit(t, i)) && Height(t) <= depth
    ensures ReadNode(buf, i, path, depth) == (Node(t), [])
    decreases t, 1
  {
    hide Emit, ReadNode, ReadAll, Sectors, HoldsAt, Kin, Fitting, FittingKids, EntriesAt, EmitKids, NamedKids;
    if t.File? {
      FileEmitted(buf, t, i, path, depth);
    } else {
      var j := i + 1 + Sectors(TableSize(t.kids));
      DirEmitted(buf, t, i, path, depth);
      ReadKidsEmitted(buf, t.kids, j, path, depth - 1, NoKids, {});
    }
  }

  lemma FileEmitted(buf: seq<byte>, t: Tree, i: nat, path: seq<byte>, depth: nat)
    requires t.File? && Fitting(t, i) && HoldsAt(buf, SECTOR * i, Emit(t, i)) && depth > 0
    ensures ReadNode(buf, i, path, depth) == (Node(t), [])
  {
    hide ReadH, Emit, ReadNode, Sectors, HoldsAt, JsSlice;
    HeaderFits(t, i);
    NodeHeld(buf, t, i);
    HeadEmitted(buf, t, i);
    NodeOfFile(buf, i, path, depth, HeadOf(t, i));
    SliceHeld(buf, (i + 1) * SECTOR, t.data);
  }

  /** A directory leads to the loop over its children, which lie behind its table. */
  lemma {:induction false} DirEmitted(buf: seq<byte>, t: Tree, i: nat, path: seq<byte>, depth: nat)
    requires t.Dir? && Fitting(t, i) && Named(t) && HoldsAt(buf, SECTOR * i, Emit(t, i)) && depth > 0
    ensures var j := i + 1 + Sectors(TableSize(t.kids));
            && FittingKids(t.kids, j) && HoldsAt(buf, SECTOR * j, EmitKids(t.kids, j))
            && ReadNode(buf, i, path, depth) == ReadAll(buf, Kin(EntriesAt(t.kids, j)), path, depth - 1, NoKids, None)
  {
    hide ReadH, Emit, ReadNode, ReadAll, Sectors, HoldsAt, Kin, EmitKids, EntriesAt, ChildrenFrom, NamedKids, Encode,
         HeaderOf, ContentOf, Span, SpanKids, KidCount;
    KidsRoom(t, i);
    HeaderFits(t, i);
    NodeHeld(buf, t, i);
    HeadEmitted(buf, t, i);
    TableGood(buf, t.kids, i);
    NodeOfDir(buf, i, path, depth, HeadOf(t, i), Kin(EntriesAt(t.kids, i + 1 + Sectors(TableSize(t.kids)))));
  }

  /** The header of a node as the reader sees it. */
  function HeadOf(t: Tree, i: nat): Head {
    Head(i, 1, t.Dir?, SizeOf(t), Sectors(SizeOf(t)), if t.Dir? then KidCount(t.kids) else 0)
  }

  lemma HeadEmitted(buf: seq<byte>, t: Tree, i: nat)
    requires Fitting(t, i) && SizeOf(t) < LIMIT && (t.Dir? ==> KidCount(t.kids) < LIMIT)
    requires HoldsAt(buf, SECTOR * i, EncodeMeta(HeaderOf(t, i)))
    ensures ReadH(buf, i) == HeadOk(HeadOf(t, i))
  {
    hide EncodeMeta, ReadH, HoldsAt;
    ReadHGood(buf, i, HeaderOf(t, i));
  }

  lemma SliceHeld(buf: seq<byte>, p: nat, s: seq<byte>)
    requires HoldsAt(buf, p, s)
    ensures JsSlice(buf, p, p + |s|) == s
  {
  }

  lemma TableGood(buf: seq<byte>, ks: Kids, i: nat)
    requires Fitting(Dir(ks), i) && NamedKids(ks, {}) && HoldsAt(buf, SECTOR * (i + 1), ContentOf(Dir(ks), i))
    ensures ChildrenFrom(buf, (i + 1) * SECTOR, (i + 1) * SECTOR + TableSize(ks))
         == ChildrenOk(Kin(EntriesAt(ks, i + 1 + Sectors(TableSize(ks)))))
  {
    hide ChildrenFrom, Encode, HoldsAt, EntriesAt, Kin, TableSize, Sectors, NamedKids, EmitNode, Emit;
    var j := i + 1 + Sectors(TableSize(ks));
    EntriesLength(ks, j);
    EntriesGood(ks, j, {});
    ChildrenGood(buf, SECTOR * (i + 1), EntriesAt(ks, j));
  }

  lemma HeaderFits(t: Tree, i: nat)
    requires Fitting(t, i)
    ensures SizeOf(t) < LIMIT && (t.Dir? ==> KidCount(t.kids) < LIMIT)
  {
    if t.Dir? {
      KidCountFits(t.kids);
    }
  }

  /** Where the parts of an emitted subtree lie. */
  lemma NodeHeld(buf: seq<byte>, t: Tree, i: nat)
    requires Fitting(t, i) && HoldsAt(buf, SECTOR * i, Emit(t, i))
    ensures SizeOf(t) < LIMIT && (t.Dir? ==> KidCount(t.kids) < LIMIT)
    ensures HoldsAt(buf, SECTOR * i, EncodeMeta(HeaderOf(t, i)))
    ensures HoldsAt(buf, SECTOR * (i + 1), ContentOf(t, i))
    ensures t.Dir? ==> var j := i + 1 + Sectors(TableSize(t.kids)); HoldsAt(buf, SECTOR * j, EmitKids(t.kids, j))
  {
    hide EmitNode, EncodeMeta, Encode, ContentOf, EmitKids, HeaderOf, HoldsAt, Sectors, TableSize, KidCount;
    HeaderFits(t, i);
    EmitNodeLength(t, i);
    if t.Dir? {
      HoldsParts(buf, SECTOR * i, EmitNode(t, i), EmitKids(t.kids, i + 1 + Sectors(TableSize(t.kids))));
    }
    NodePartsHeld(buf, t, i);
  }

  lemma NodePartsHeld(buf: seq<byte>, t: Tree, i: nat)
    requires Fitting(t, i) && HoldsAt(buf, SECTOR * i, EmitNode(t, i))
    ensures SizeOf(t) < LIMIT && (t.Dir? ==> KidCount(t.kids) < LIMIT)
    ensures HoldsAt(buf, SECTOR * i, EncodeMeta(HeaderOf(t, i)))
    ensures HoldsAt(buf, SECTOR * (i + 1), ContentOf(t, i))
  {
    hide EncodeMeta, Encode, ContentOf, HeaderOf, HoldsAt, TableSize, KidCount;
    HeaderFits(t, i);
    HoldsParts(buf, SECTOR * i, EncodeMeta(HeaderOf(t, i)), Padded(ContentOf(t, i)));
    var c := ContentOf(t, i);
    HoldsParts(buf, SECTOR * i + SECTOR, c, Zeros(SECTOR * Sectors(|c|) - |c|));
  }

  lemma {:induction false} ReadKidsEmitted(buf: seq<byte>, ks: Kids, j: nat, path: seq<byte>, depth: nat, dir: Kids,
                                           taken: set<seq<byte>>)
    requires FittingKids(ks, j) && NamedKids(ks, taken) && NamesOf(dir) == taken
    requires HoldsAt(buf, SECTOR * j, EmitKids(ks, j)) && HeightKids(ks) <= depth
    ensures ReadAll(buf, Kin(EntriesAt(ks, j)), path, depth, dir, None) == (Node(Dir(Append(dir, ks))), [])
    decreases ks, 0
  {
    hide Emit, ReadNode, ReadAll, EntriesAt, HoldsAt, Sectors, Kin, Height;
    if ks.NoKids? {
      AppendNone(dir);
      NoEntries(j);
      ReadAllEnd(buf, path, depth, dir, None);
    } else {
      var name, node, rest := ks.name, ks.node, ks.rest;
      EmitLength(node, j);
      HoldsParts(buf, SECTOR * j, Emit(node, j), EmitKids(rest, j + Span(node)));
      ReadEmitted(buf, node, j, path + [SLASH] + name, depth);
      AssignNew(dir, name, node, rest);
      ReadKidsEmitted(buf, rest, j + Span(node), path, depth, Assign(dir, name, node), taken + {name});
      KinStep(ks, j);
      KidsOfFirst(buf, Kin(EntriesAt(ks, j)), path, depth, dir, node, Node(Dir(Append(dir, ks))));
    }
  }

  lemma NoEntries(j: nat)
    requires j < LIMIT
    ensures EntriesAt(NoKids, j) == [] && Kin([]) == []
  {
  }

  lemma KinStep(ks: Kids, j: nat)
    requires ks.Kid? && j + SpanKids(ks) < LIMIT
    ensures var cs := Kin(EntriesAt(ks, j));
            cs != [] && cs[0] == Child(ks.name, j) && cs[1..] == Kin(EntriesAt(ks.rest, j + Span(ks.node)))
  {
    assert EntriesAt(ks, j)[1..] == EntriesAt(ks.rest, j + Span(ks.node));
  }

  lemma SpanFits(t: Tree, i: nat)
    requires Fitting(t, i)
    ensures i + Span(t) < LIMIT
  {
  }

  lemma WholeHeld(buf: seq<byte>)
    ensures HoldsAt(buf, 0, buf)
  {
  }

  /** The pointers at the front of the image, and the tree behind the root pointer. */
  lemma ReadImage(t: Tree, depth: nat)
    requires Fitting(t, 2) && Named(t) && Height(t) <= depth
    ensures var buf := Image(t);
            && |buf| == SECTOR * (2 + Span(t))
            && SignedAt(buf, 0) == 2 + Span(t) && SignedAt(buf, SECTOR) == 2
            && ReadNode(buf, SignedAt(buf, SECTOR), [], depth) == (Node(t), [])
  {
    hide Emit, ReadNode, SignedAt, Spell, Span, HoldsAt, Height;
    var buf := Image(t);
    EmitLength(t, 2);
    SpanFits(t, 2);
    var a, b, c := WordSector(2 + Span(t)), WordSector(2), Emit(t, 2);
    assert buf == a + (b + c);
    WholeHeld(a + (b + c));
    HoldsParts(buf, 0, a, b + c);
    HoldsParts(buf, SECTOR, b, c);
    HoldsParts(buf, 0, Spell(2 + Span(t)), Zeros(SECTOR - 4));
    HoldsParts(buf, SECTOR, Spell(2), Zeros(SECTOR - 4));
    WordHeld(buf, 0, 2 + Span(t));
    WordHeld(buf, SECTOR, 2);
    ReadEmitted(buf, t, 2, [], depth);
  }

  /** fsgen.js followed by fscan.js: the tree comes back, the allocation pointer is the size of the image
      in sectors, and nothing is reported. */
  method GenerateAndScan(g: Generator, root: GenNode, ghost t: Tree, ghost all: seq<GenNode>, depth: nat)
    returns (o: Outcome, r: Reader)
    requires Represents(root, t) && Fitting(t, 2) && Named(t) && Height(t) <= depth && g.nodes == [] && g.allocPtr == 2
    requires all == Preorder(root, t) && Distinct(all) && forall n :: n in all ==> Loaded(n)
    modifies g, all
    ensures o == Node(t) && r.errorlist == []
    ensures |r.buffer| >= 4 && |r.buffer| == SECTOR * SignedAt(r.buffer, 0)
  {
    hide Represents, Preorder, Image, Fitting, Named, Height, Loaded, ReadNode, SignedAt;
    var image := g.Generate(root, t, all);
    ReadImage(t, depth);
    r := new Reader(image);
    o := r.ReadN(SignedAt(image, SECTOR), [], depth);
  }
}
