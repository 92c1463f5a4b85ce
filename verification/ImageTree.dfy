/** The directory tree that fsgen.js turns into a disk image, and the image it stands for:
    every node takes a header sector and its content in whole sectors, in preorder. */
module ImageTree {
  import opened Bytes
  import opened DirTable
  import opened Disk
  import opened InodeHeader

  datatype Tree = File(data: seq<byte>) | Dir(kids: Kids)
  datatype Kids = NoKids | Kid(name: seq<byte>, node: Tree, rest: Kids)

  function TableSize(ks: Kids): nat {
    match ks
    case NoKids => 0
    case Kid(name, _, rest) => |name| + 5 + TableSize(rest)
  }

  function KidCount(ks: Kids): nat {
    match ks
    case NoKids => 0
    case Kid(_, _, rest) => 1 + KidCount(rest)
  }

  function SizeOf(t: Tree): nat {
    match t
    case File(data) => |data|
    case Dir(ks) => TableSize(ks)
  }

  /** Sectors of a subtree, header and content of every node. */
  function Span(t: Tree): nat {
    match t
    case File(data) => 1 + Sectors(|data|)
    case Dir(ks) => 1 + Sectors(TableSize(ks)) + SpanKids(ks)
  }

  function SpanKids(ks: Kids): nat {
    match ks
    case NoKids => 0
    case Kid(_, node, rest) => Span(node) + SpanKids(rest)
  }

  /** Directory entries for children laid out one behind the other from sector j on. */
  function EntriesAt(ks: Kids, j: nat): seq<Entry>
    requires j + SpanKids(ks) < 0x1_0000_0000
  {
    match ks
    case NoKids => []
    case Kid(name, node, rest) => [Entry(name, j)] + EntriesAt(rest, j + Span(node))
  }

  function Padded(s: seq<byte>): (r: seq<byte>)
    ensures |r| == SECTOR * Sectors(|s|)
  {
    s + Zeros(SECTOR * Sectors(|s|) - |s|)
  }

  lemma PaddedBytes(s: seq<byte>, k: nat)
    requires k < |Padded(s)|
    ensures Padded(s)[k] == (if k < |s| then s[k] else 0) && |Padded(s)| < |s| + SECTOR
  {
  }

  /** What fits in the image format: every index is a 31-bit number, as the reader takes indices to be signed,
      and so is every size. */
  const LIMIT: nat := 0x8000_0000

  function HeaderOf(t: Tree, i: nat): Meta
    requires i + Span(t) < LIMIT && SizeOf(t) < LIMIT
    requires t.Dir? ==> KidCount(t.kids) < LIMIT
  {
    Meta(1, i, SizeOf(t), Sectors(SizeOf(t)), if t.Dir? then KidCount(t.kids) else 0, if t.Dir? then 1 else 0)
  }

  /** Sizes that fit the format. */
  predicate Sized(t: Tree) {
    match t
    case File(data) => |data| < LIMIT
    case Dir(ks) => TableSize(ks) < LIMIT && SizedKids(ks)
  }

  predicate SizedKids(ks: Kids) {
    match ks
    case NoKids => true
    case Kid(_, node, rest) => Sized(node) && SizedKids(rest)
  }

  /** Names are non-empty, NUL-free and distinct among siblings. */
  predicate Named(t: Tree) {
    t.Dir? ==> NamedKids(t.kids, {})
  }

  predicate NamedKids(ks: Kids, taken: set<seq<byte>>) {
    match ks
    case NoKids => true
    case Kid(name, node, rest) =>
      name != [] && NulFree(name) && name !in taken && Named(node) && NamedKids(rest, taken + {name})
  }

  lemma {:induction false} KidCountFits(ks: Kids)
    ensures 5 * KidCount(ks) <= TableSize(ks)
  {
    if ks.Kid? {
      KidCountFits(ks.rest);
    }
  }

  /** A tree that fits when its first header is put at sector i. */
  predicate Fitting(t: Tree, i: nat) {
    Sized(t) && i + Span(t) < LIMIT
  }

  predicate FittingKids(ks: Kids, j: nat) {
    SizedKids(ks) && j + SpanKids(ks) < LIMIT
  }

  /** A directory's children fill the rest of its span. */
  lemma KidsRoom(t: Tree, i: nat)
    requires Fitting(t, i) && t.Dir?
    ensures var j := i + 1 + Sectors(TableSize(t.kids)); FittingKids(t.kids, j) && j + SpanKids(t.kids) == i + Span(t)
  {
    hide Sectors, TableSize;
  }

  function ContentOf(t: Tree, i: nat): (r: seq<byte>)
    requires Fitting(t, i)
  {
    match t
    case File(data) => data
    case Dir(ks) => Encode(EntriesAt(ks, i + 1 + Sectors(TableSize(ks))))
  }

  /** The bytes of a subtree whose header is at sector i. */
  function Emit(t: Tree, i: nat): seq<byte>
    requires Fitting(t, i)
    decreases t, 1
  {
    if t.Dir? then KidCountFits(t.kids); EmitNode(t, i) + EmitKids(t.kids, i + 1 + Sectors(TableSize(t.kids)))
    else EmitNode(t, i)
  }

  /** Header sector and padded content of one node. */
  function EmitNode(t: Tree, i: nat): seq<byte>
    requires Fitting(t, i)
    decreases t, 0
  {
    if t.Dir? then KidCountFits(t.kids); EncodeMeta(HeaderOf(t, i)) + Padded(ContentOf(t, i))
    else EncodeMeta(HeaderOf(t, i)) + Padded(ContentOf(t, i))
  }

  function EmitKids(ks: Kids, j: nat): seq<byte>
    requires FittingKids(ks, j)
    decreases ks, 0
  {
    match ks
    case NoKids => []
    case Kid(name, node, rest) => Emit(node, j) + EmitKids(rest, j + Span(node))
  }

  /** The whole image: allocation pointer, root index, and the root's subtree from sector 2 on. */
  function Image(t: Tree): seq<byte>
    requires Fitting(t, 2)
  {
    WordSector(2 + Span(t)) + WordSector(2) + Emit(t, 2)
  }

  lemma {:induction false} EntriesLength(ks: Kids, j: nat)
    requires j + SpanKids(ks) < 0x1_0000_0000
    ensures |Encode(EntriesAt(ks, j))| == TableSize(ks) && |EntriesAt(ks, j)| == KidCount(ks)
  {
    if ks.Kid? {
      EntriesLength(ks.rest, j + Span(ks.node));
      assert EntriesAt(ks, j)[1..] == EntriesAt(ks.rest, j + Span(ks.node));
    }
  }

  lemma EmitNodeLength(t: Tree, i: nat)
    requires Fitting(t, i)
    ensures |ContentOf(t, i)| == SizeOf(t)
    ensures |EmitNode(t, i)| == SECTOR * (1 + Sectors(SizeOf(t)))
  {
    hide EncodeMeta, Encode, Padded, Sectors;
    if t.Dir? {
      EntriesLength(t.kids, i + 1 + Sectors(TableSize(t.kids)));
    }
  }

  /** A subtree takes as many bytes as it spans sectors. */
  lemma {:induction false} EmitLength(t: Tree, i: nat)
    requires Fitting(t, i)
    ensures |Emit(t, i)| == SECTOR * Span(t)
    decreases t, 1
  {
    hide EmitNode, Sectors;
    EmitNodeLength(t, i);
    if t.Dir? {
      EmitKidsLength(t.kids, i + 1 + Sectors(TableSize(t.kids)));
    }
  }

  lemma {:induction false} EmitKidsLength(ks: Kids, j: nat)
    requires FittingKids(ks, j)
    ensures |EmitKids(ks, j)| == SECTOR * SpanKids(ks)
    decreases ks, 0
  {
    hide Emit;
    if ks.Kid? {
      EmitLength(ks.node, j);
      EmitKidsLength(ks.rest, j + Span(ks.node));
    }
  }
}
