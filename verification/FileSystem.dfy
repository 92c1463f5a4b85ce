/** The file system as a whole: a tree of inodes on one disk. The simple view of it is
    a map from files to byte strings and, for each directory, a list of named children.
    Every operation keeps the tree and its disk image consistent and changes the simple view only where it says. */
module FileSystem {
  import opened Bytes
  import opened DirTable
  import opened Disk
  import opened InodeHeader
  import opened FileData

  /** The in-memory inodes, their on-disk parts, and who is whose child. */
  datatype Tree = Tree(root: Inode, metas: map<Inode, Meta>, kids: map<Inode, seq<Inode>>, parentOf: map<Inode, Inode>)

  /** The directory entries that name the given children. */
  ghost function EntriesOf(cs: seq<Inode>, metas: map<Inode, Meta>): (es: seq<Entry>)
    requires forall c :: c in cs ==> c in metas
    ensures |es| == |cs|
  {
    seq(|cs|, i requires 0 <= i < |cs| => Entry(cs[i].name, metas[cs[i]].index))
  }

  ghost predicate KidOk(t: Tree, d: Inode, c: Inode) {
    && c in t.metas && c != t.root && c in t.parentOf && t.parentOf[c] == d && c != d
    && NulFree(c.name) && |c.name| <= MAX_NAME
  }

  /** Children and parents mirror each other, siblings have distinct names and files have no children. */
  ghost predicate Linked(t: Tree) {
    && t.root in t.metas && t.root !in t.parentOf && t.kids.Keys == t.metas.Keys
    && (forall d :: d in t.kids ==> KidsOk(t, d, t.kids[d]) && (t.metas[d].kind != KIND_DIR ==> t.kids[d] == []))
    && (forall c :: c in t.parentOf ==> t.parentOf[c] in t.kids && c in t.kids[t.parentOf[c]])
  }

  ghost predicate KidsOk(t: Tree, d: Inode, cs: seq<Inode>) {
    DistinctNames(cs) && forall c :: c in cs ==> KidOk(t, d, c)
  }

  /** Every inode but the root, a directory, has a parent, and child counts are right. */
  ghost predicate Complete(t: Tree) {
    && t.root in t.metas && t.kids.Keys == t.metas.Keys
    && t.parentOf.Keys == t.metas.Keys - {t.root} && t.metas[t.root].kind == KIND_DIR
    && (forall d :: d in t.kids ==> t.metas[d].childCount == |t.kids[d]|)
  }

  ghost predicate DistinctNames(cs: seq<Inode>) {
    forall i, j :: 0 <= i < j < |cs| ==> cs[i].name != cs[j].name
  }

  /** Every inode's extent is in bounds and its header sector holds its on-disk part. */
  ghost predicate Stored(d: seq<Sector>, limit: nat, metas: map<Inode, Meta>) {
    limit <= |d| && forall n :: n in metas ==> HeaderStored(d, limit, metas[n])
  }

  ghost predicate HeaderStored(d: seq<Sector>, limit: nat, m: Meta)
    requires limit <= |d|
  {
    Fits(m, limit) && d[m.index] == EncodeMeta(m) && m.valid == 1
  }

  ghost predicate AllApart(metas: map<Inode, Meta>) {
    forall n, m :: n in metas && m in metas && n != m ==> ExtentsApart(metas[n], metas[m])
  }

  /** A directory's bytes are the packed records of its children, with the sectors they are at now. */
  ghost predicate Lists(d: seq<Sector>, t: Tree, n: Inode) {
    && n in t.metas && n in t.kids && Fits(t.metas[n], |d|)
    && (forall c :: c in t.kids[n] ==> c in t.metas)
    && Content(d, t.metas[n]) == Encode(EntriesOf(t.kids[n], t.metas))
  }

  /** The disk agrees with the tree: headers, directory contents, allocation pointer and root index. */
  ghost predicate Consistent(d: seq<Sector>, limit: nat, t: Tree) {
    && FS_START_SECTOR <= limit <= |d| && SECTOR * |d| <= 0x1_0000_0000
    && Linked(t) && Stored(d, limit, t.metas) && AllApart(t.metas)
    && (forall n :: n in t.metas && t.metas[n].kind == KIND_DIR ==> Lists(d, t, n))
    && d[BALLOC_SECTOR] == WordSector(limit) && d[ROOT_INDEX_SECTOR] == WordSector(t.metas[t.root].index)
  }

  ghost predicate TreeOk(d: seq<Sector>, limit: nat, t: Tree) {
    Consistent(d, limit, t) && Complete(t)
  }

  /** The simple view: every file's bytes. */
  ghost function Files(d: seq<Sector>, t: Tree): map<Inode, seq<byte>> {
    map n | n in t.metas && t.metas[n].kind != KIND_DIR :: Body(d, t.metas[n])
  }

  ghost function Body(d: seq<Sector>, m: Meta): seq<byte> {
    if Fits(m, |d|) then Content(d, m) else []
  }

  ghost function Pointing(t: Tree, n: Inode): Pointer
    requires n in t.parentOf ==> t.parentOf[n] in t.metas
  {
    if n in t.parentOf then Someone(t.metas[t.parentOf[n]]) else Nobody
  }

  ghost function EntriesAbove(t: Tree, n: Inode): seq<Entry>
    requires Linked(t)
  {
    if n in t.parentOf then EntriesOf(t.kids[t.parentOf[n]], t.metas) else []
  }

  // ---------------------------------------------------------------- entries

  lemma EntriesNames(cs: seq<Inode>, metas: map<Inode, Meta>)
    requires forall c :: c in cs ==> c in metas && NulFree(c.name)
    ensures EntriesOk(EntriesOf(cs, metas))
  {
  }

  /** A child that moves is found under its name and nobody else's entry changes. */
  lemma RedirectEntries(cs: seq<Inode>, metas: map<Inode, Meta>, n: Inode, m: Meta)
    requires forall c :: c in cs ==> c in metas
    requires DistinctNames(cs) && n in cs
    ensures Redirect(EntriesOf(cs, metas), n.name, m.index) == EntriesOf(cs, metas[n := m])
  {
    var es := EntriesOf(cs, metas);
    var i :| 0 <= i < |cs| && cs[i] == n;
    var k := Find(es, n.name);
    assert es[i].name == n.name;
    assert k <= i;
    assert cs[k].name == n.name;
    assert k == i;
    forall j | 0 <= j < |cs|
      ensures Redirect(es, n.name, m.index)[j] == EntriesOf(cs, metas[n := m])[j]
    {
      if j != i {
        assert cs[j].name != n.name;
      }
    }
  }

  lemma SameEntries(cs: seq<Inode>, metas: map<Inode, Meta>, n: Inode, m: Meta)
    requires forall c :: c in cs ==> c in metas
    requires n !in cs
    ensures EntriesOf(cs, metas) == EntriesOf(cs, metas[n := m])
  {
    assert forall j :: 0 <= j < |cs| ==> cs[j] in cs;
  }

  // ---------------------------------------------------------------- what an update of one inode keeps

  /** Inode n has got the on-disk part m', in place or moved to fresh sectors with its pointer following;
      nothing else on the disk has changed. */
  ghost predicate Updated(d: seq<Sector>, d': seq<Sector>, limit: nat, limit': nat, t: Tree, n: Inode, m': Meta)
    requires Linked(t) && n in t.metas
  {
    var m := t.metas[n];
    && |d'| == |d| && Fits(m', limit') && limit' <= |d| && limit' < 0x1_0000_0000
    && m'.kind == m.kind && m'.valid == 1 && d'[m'.index] == EncodeMeta(m')
    && if m'.index == m.index then
         limit' == limit && m'.alloc == m.alloc && ExtentFrame(d, d', m')
       else
         && m'.index == limit && limit' == limit + m'.alloc + 1
         && Followed(d', n.name, m'.index, Pointing(t, n), EntriesAbove(t, n))
         && MoveFrame(d, d', limit, limit', Pointing(t, n))
  }

  /** An update of an inode that is the root or has a parent, in a consistent state. */
  ghost predicate Step(d: seq<Sector>, d': seq<Sector>, limit: nat, limit': nat, t: Tree, n: Inode, m': Meta) {
    && Consistent(d, limit, t) && n in t.metas && (n == t.root || n in t.parentOf)
    && Updated(d, d', limit, limit', t, n, m')
  }

  lemma UpdateKeepsStorage(d: seq<Sector>, d': seq<Sector>, limit: nat, limit': nat, t: Tree, n: Inode, m': Meta)
    requires Step(d, d', limit, limit', t, n, m')
    ensures Stored(d', limit', t.metas[n := m'])
    ensures limit' < 0x1_0000_0000 && |d'| > 0 && d'[BALLOC_SECTOR] == WordSector(limit')
  {
    hide EncodeMeta, WordSector, Content, Encode, EntriesOf, Lists, Followed, AllApart, KidsOk;
    var metas' := t.metas[n := m'];
    forall q | q in metas'
      ensures HeaderStored(d', limit', metas'[q])
    {
      if q != n {
        assert HeaderStored(d, limit, t.metas[q]);
        if n in t.parentOf && t.parentOf[n] == q && m'.index != t.metas[n].index {
          ParentHeader(d, d', limit, limit', t, n, m');
        } else {
          OthersUntouched(d, d', limit, limit', t, n, m', q);
        }
      }
    }
  }

  lemma ParentHeader(d: seq<Sector>, d': seq<Sector>, limit: nat, limit': nat, t: Tree, n: Inode, m': Meta)
    requires Step(d, d', limit, limit', t, n, m') && n in t.parentOf && t.parentOf[n] in t.metas
    requires m'.index != t.metas[n].index
    ensures limit' <= |d'| && HeaderStored(d', limit', t.metas[t.parentOf[n]])
  {
    hide EncodeMeta, WordSector, Content, Encode, EntriesOf, Lists, AllApart, KidsOk;
    assert HeaderStored(d, limit, t.metas[t.parentOf[n]]);
  }

  /** Any other inode's sectors are left alone, unless it is the parent whose entry follows a move. */
  lemma OthersUntouched(d: seq<Sector>, d': seq<Sector>, limit: nat, limit': nat, t: Tree, n: Inode, m': Meta, q: Inode)
    requires Step(d, d', limit, limit', t, n, m')
    requires q in t.metas && q != n
    requires !(n in t.parentOf && t.parentOf[n] == q) || m'.index == t.metas[n].index
    ensures |d'| == |d| && forall s :: 0 <= s < |d| && InExtent(t.metas[q], s) ==> d'[s] == d[s]
  {
    hide EncodeMeta, WordSector, Content, Encode, EntriesOf, Lists, Followed, KidsOk;
    assert HeaderStored(d, limit, t.metas[q]);
    assert ExtentsApart(t.metas[n], t.metas[q]);
    if n in t.parentOf && t.parentOf[n] != q {
      assert ExtentsApart(t.metas[t.parentOf[n]], t.metas[q]);
    }
  }

  lemma UpdateKeepsApart(d: seq<Sector>, d': seq<Sector>, limit: nat, limit': nat, t: Tree, n: Inode, m': Meta)
    requires Step(d, d', limit, limit', t, n, m')
    ensures AllApart(t.metas[n := m'])
  {
    hide EncodeMeta, WordSector, Content, Encode, EntriesOf, Lists, Followed, KidsOk, MoveFrame, ExtentFrame, Stored,
         ExtentsApart, Updated, Linked;
    var metas' := t.metas[n := m'];
    forall a, b | a in metas' && b in metas' && a != b
      ensures ExtentsApart(metas'[a], metas'[b])
    {
      if a == n {
        NewExtentApart(d, d', limit, limit', t, n, m', b);
      } else if b == n {
        NewExtentApart(d, d', limit, limit', t, n, m', a);
        ApartSwaps(m', t.metas[a]);
      } else {
        assert ExtentsApart(t.metas[a], t.metas[b]);
      }
    }
  }

  lemma ApartSwaps(m: Meta, n: Meta)
    ensures ExtentsApart(m, n) ==> ExtentsApart(n, m)
  {
  }

  lemma NewExtentApart(d: seq<Sector>, d': seq<Sector>, limit: nat, limit': nat, t: Tree, n: Inode, m': Meta,
                       q: Inode)
    requires Step(d, d', limit, limit', t, n, m') && q in t.metas && q != n
    ensures ExtentsApart(m', t.metas[q])
  {
    hide EncodeMeta, WordSector, Content, Encode, EntriesOf, Lists, Followed, KidsOk, MoveFrame, ExtentFrame, Linked;
    assert ExtentsApart(t.metas[n], t.metas[q]);
    assert HeaderStored(d, limit, t.metas[q]);
  }

  /** Every other inode that is not n's parent keeps all its bytes. */
  lemma UpdateKeepsBytes(d: seq<Sector>, d': seq<Sector>, limit: nat, limit': nat, t: Tree, n: Inode, m': Meta,
                         q: Inode)
    requires Step(d, d', limit, limit', t, n, m')
    requires q in t.metas && q != n
    requires !(n in t.parentOf && t.parentOf[n] == q) || m'.index == t.metas[n].index
    ensures Fits(t.metas[q], |d|) && |d'| == |d| && Content(d', t.metas[q]) == Content(d, t.metas[q])
  {
    hide EncodeMeta, WordSector, Content, Encode, EntriesOf, Lists, Followed, KidsOk, MoveFrame, ExtentFrame,
         AllApart, Linked;
    OthersUntouched(d, d', limit, limit', t, n, m', q);
    assert HeaderStored(d, limit, t.metas[q]);
    ContentSame(d, d', t.metas[q]);
  }

  /** Every other directory still lists its children, at the sectors they are at now. */
  lemma UpdateKeepsList(d: seq<Sector>, d': seq<Sector>, limit: nat, limit': nat, t: Tree, n: Inode, m': Meta, q: Inode)
    requires Step(d, d', limit, limit', t, n, m')
    requires q in t.metas && q != n && t.metas[q].kind == KIND_DIR
    ensures Lists(d', t.(metas := t.metas[n := m']), q)
  {
    assert Linked(t) && Lists(d, t, q);
    if n in t.parentOf && t.parentOf[n] == q && m'.index != t.metas[n].index {
      UpdateRedirectsParent(d, d', limit, limit', t, n, m');
    } else {
      UpdateKeepsBytes(d, d', limit, limit', t, n, m', q);
      hide Consistent, Updated, Lists, Linked, Content, Encode, EntriesOf;
      ListSurvives(d, d', t, n, m', q, m'.index == t.metas[n].index);
    }
  }

  /** A directory whose bytes stay and whose children have not moved still lists them. */
  lemma ListSurvives(d: seq<Sector>, d': seq<Sector>, t: Tree, n: Inode, m': Meta, q: Inode, inPlace: bool)
    requires Linked(t) && n in t.metas && q in t.metas && q != n && Lists(d, t, q)
    requires |d'| == |d| && Content(d', t.metas[q]) == Content(d, t.metas[q])
    requires if inPlace then m'.index == t.metas[n].index else !(n in t.parentOf && t.parentOf[n] == q)
    ensures Lists(d', t.(metas := t.metas[n := m']), q)
  {
    hide Content, Encode, EntriesOf;
    assert KidsOk(t, q, t.kids[q]);
    if inPlace {
      SameIndexEntries(t.kids[q], t.metas, n, m');
    } else {
      assert n in t.kids[q] ==> KidOk(t, q, n);
      SameEntries(t.kids[q], t.metas, n, m');
    }
  }

  lemma UpdateRedirectsParent(d: seq<Sector>, d': seq<Sector>, limit: nat, limit': nat, t: Tree, n: Inode, m': Meta)
    requires Step(d, d', limit, limit', t, n, m') && n in t.parentOf && m'.index != t.metas[n].index
    ensures Lists(d', t.(metas := t.metas[n := m']), t.parentOf[n])
  {
    hide EncodeMeta, WordSector, Content, Encode, EntriesOf, MoveFrame, ExtentFrame, AllApart, Stored;
    var p := t.parentOf[n];
    assert KidsOk(t, p, t.kids[p]);
    assert n in t.kids[p] && KidOk(t, p, n);
    RedirectEntries(t.kids[p], t.metas, n, m');
  }

  lemma SameIndexEntries(cs: seq<Inode>, metas: map<Inode, Meta>, n: Inode, m: Meta)
    requires forall c :: c in cs ==> c in metas
    requires n in metas && metas[n].index == m.index
    ensures EntriesOf(cs, metas) == EntriesOf(cs, metas[n := m])
  {
    assert forall j :: 0 <= j < |cs| ==> cs[j] in cs;
  }

  lemma UpdateKeepsRootIndex(d: seq<Sector>, d': seq<Sector>, limit: nat, limit': nat, t: Tree, n: Inode, m': Meta)
    requires Step(d, d', limit, limit', t, n, m')
    ensures |d'| > 1 && t.root in t.metas && d'[ROOT_INDEX_SECTOR] == WordSector(t.metas[n := m'][t.root].index)
  {
    hide EncodeMeta, WordSector, Content, Encode, EntriesOf, Lists, AllApart, KidsOk;
    assert HeaderStored(d, limit, t.metas[n]);
    if n in t.parentOf {
      assert HeaderStored(d, limit, t.metas[t.parentOf[n]]);
    }
  }

  /** Consistency survives an update; the updated inode's own listing, if it is a directory, is up to the caller. */
  lemma UpdateKeepsConsistent(d: seq<Sector>, d': seq<Sector>, limit: nat, limit': nat, t: Tree, n: Inode, m': Meta)
    requires Step(d, d', limit, limit', t, n, m')
    requires m'.kind == KIND_DIR ==> Lists(d', t.(metas := t.metas[n := m']), n)
    ensures Consistent(d', limit', t.(metas := t.metas[n := m']))
  {
    hide Step, Consistent, Updated, Content, EncodeMeta, WordSector, Lists, AllApart, Stored, Linked;
    var t' := t.(metas := t.metas[n := m']);
    UpdateBasics(d, d', limit, limit', t, n, m');
    UpdateKeepsStorage(d, d', limit, limit', t, n, m');
    UpdateKeepsApart(d, d', limit, limit', t, n, m');
    UpdateKeepsRootIndex(d, d', limit, limit', t, n, m');
    forall q | q in t'.metas && t'.metas[q].kind == KIND_DIR
      ensures Lists(d', t', q)
    {
      if q != n {
        UpdateKeepsList(d, d', limit, limit', t, n, m', q);
      }
    }
    Assemble(d', limit', t');
  }

  lemma Assemble(d: seq<Sector>, limit: nat, t: Tree)
    requires FS_START_SECTOR <= limit <= |d| && SECTOR * |d| <= 0x1_0000_0000
    requires Linked(t) && Stored(d, limit, t.metas) && AllApart(t.metas)
    requires forall n :: n in t.metas && t.metas[n].kind == KIND_DIR ==> Lists(d, t, n)
    requires d[BALLOC_SECTOR] == WordSector(limit) && d[ROOT_INDEX_SECTOR] == WordSector(t.metas[t.root].index)
    ensures Consistent(d, limit, t)
  {
  }

  lemma UpdateBasics(d: seq<Sector>, d': seq<Sector>, limit: nat, limit': nat, t: Tree, n: Inode, m': Meta)
    requires Step(d, d', limit, limit', t, n, m')
    ensures FS_START_SECTOR <= limit' <= |d'| && SECTOR * |d'| <= 0x1_0000_0000
    ensures Linked(t) && Linked(t.(metas := t.metas[n := m']))
    ensures n in t.metas && m'.kind == t.metas[n].kind
  {
    hide Content, EncodeMeta, WordSector, Lists, AllApart, Stored, Linked, MoveFrame, ExtentFrame, Followed;
    LinkedSame(t, n, m');
  }

  lemma LinkedSame(t: Tree, n: Inode, m': Meta)
    requires Linked(t) && n in t.metas && m'.kind == t.metas[n].kind
    ensures Linked(t.(metas := t.metas[n := m']))
  {
    var t' := t.(metas := t.metas[n := m']);
    forall q | q in t.kids
      ensures KidsOk(t', q, t'.kids[q])
    {
      assert KidsOk(t, q, t.kids[q]);
      assert forall c :: c in t.kids[q] ==> KidOk(t, q, c);
    }
  }

  /** Rewriting one file, wherever it ends up, keeps the whole tree and every other file. */
  lemma FileUpdateKeepsTree(d: seq<Sector>, d': seq<Sector>, limit: nat, limit': nat, t: Tree, n: Inode, m': Meta)
    requires Step(d, d', limit, limit', t, n, m') && Complete(t)
    requires n in t.metas && t.metas[n].kind != KIND_DIR && m'.kind == t.metas[n].kind
    requires m'.childCount == t.metas[n].childCount
    ensures TreeOk(d', limit', t.(metas := t.metas[n := m']))
    ensures Files(d', t.(metas := t.metas[n := m'])) == Files(d, t)[n := Body(d', m')]
  {
    hide Step, Consistent, Updated, Content, Body, Linked;
    UpdateKeepsConsistent(d, d', limit, limit', t, n, m');
    UpdateBasics(d, d', limit, limit', t, n, m');
    forall q | q in t.metas && q != n && t.metas[q].kind != KIND_DIR
      ensures Body(d', t.metas[q]) == Body(d, t.metas[q])
    {
      FileBodySame(d, d', limit, limit', t, n, m', q);
    }
  }

  lemma FileBodySame(d: seq<Sector>, d': seq<Sector>, limit: nat, limit': nat, t: Tree, n: Inode, m': Meta, q: Inode)
    requires Step(d, d', limit, limit', t, n, m')
    requires q in t.metas && q != n && t.metas[q].kind != KIND_DIR
    ensures Body(d', t.metas[q]) == Body(d, t.metas[q])
  {
    FileNotParent(d, limit, t, n, q);
    hide Consistent, Updated, Content;
    UpdateKeepsBytes(d, d', limit, limit', t, n, m', q);
  }

  lemma FileNotParent(d: seq<Sector>, limit: nat, t: Tree, n: Inode, q: Inode)
    requires Consistent(d, limit, t) && q in t.metas && t.metas[q].kind != KIND_DIR
    ensures !(n in t.parentOf && t.parentOf[n] == q)
  {
    hide Stored, AllApart, Lists, KidsOk;
  }

  // ---------------------------------------------------------------- the operations

  /** A write as inode_write performs it is an update of that inode. */
  lemma WriteIsUpdate(d: seq<Sector>, d': seq<Sector>, limit: nat, limit': nat, t: Tree, n: Inode, m': Meta,
                      from: nat, buf: seq<byte>)
    requires Consistent(d, limit, t) && n in t.metas && (n == t.root || n in t.parentOf)
    requires Written(d, d', limit, limit', t.metas[n], m', from, buf) && Fits(m', limit')
    requires if Overflows(t.metas[n], from, |buf|) then
               && d'[m'.index] == EncodeMeta(m')
               && Followed(d', n.name, m'.index, Pointing(t, n), EntriesAbove(t, n))
               && MoveFrame(d, d', limit, limit', Pointing(t, n))
             else
               && ExtentFrame(d, d', m')
               && d'[m'.index] == if from + |buf| > t.metas[n].size then EncodeMeta(m') else d[m'.index]
    ensures Step(d, d', limit, limit', t, n, m')
    ensures m'.kind == t.metas[n].kind && m'.childCount == t.metas[n].childCount
    ensures Body(d', m') == Splice(Body(d, t.metas[n]), from, buf)
  {
    hide EncodeMeta, WordSector, Content, Splice, Encode, EntriesOf, Lists, AllApart, Linked, Followed, MoveFrame,
         ExtentFrame, Sectors;
    assert HeaderStored(d, limit, t.metas[n]);
  }

  /** Whoever points at an inode can follow it. */
  lemma ParentIsReady(d: seq<Sector>, limit: nat, t: Tree, n: Inode)
    requires Consistent(d, limit, t) && n in t.metas && n in t.parentOf
    ensures t.parentOf[n] in t.metas && t.parentOf[n] != n
    ensures NulFree(n.name) && limit <= |d|
    ensures ParentReady(d, limit, t.metas[n], t.metas[t.parentOf[n]], EntriesAbove(t, n))
  {
    hide EncodeMeta, WordSector, Content, Encode, EntriesOf;
    var p := t.parentOf[n];
    assert KidsOk(t, p, t.kids[p]) && KidOk(t, p, n);
    assert HeaderStored(d, limit, t.metas[p]) && ExtentsApart(t.metas[n], t.metas[p]);
    assert t.metas[p].kind == KIND_DIR ==> Lists(d, t, p);
    assert forall c :: c in t.kids[p] ==> KidOk(t, p, c);
    EntriesNames(t.kids[p], t.metas);
  }

  /** The tree with an inode that no directory lists yet. */
  ghost function WithOrphan(t: Tree, c: Inode, mc: Meta): Tree {
    t.(metas := t.metas[c := mc], kids := t.kids[c := []])
  }

  /** The tree after `c` has become the last child of `p`, whose on-disk part is now mp. */
  ghost function WithChild(t: Tree, p: Inode, mp: Meta, c: Inode, mc: Meta): Tree
    requires p in t.kids
  {
    var t1 := WithOrphan(t, c, mc);
    t1.(metas := t1.metas[p := mp], kids := t1.kids[p := t.kids[p] + [c]], parentOf := t.parentOf[c := p])
  }

  /** The disk after one sector has been allocated for a new inode and its header stored there. */
  function Planted(d: seq<Sector>, limit: nat, mc: Meta): seq<Sector>
    requires limit < |d| && limit + 1 < 0x1_0000_0000
  {
    d[BALLOC_SECTOR := WordSector(limit + 1)][limit := EncodeMeta(mc)]
  }

  lemma OrphanKeepsBody(d: seq<Sector>, limit: nat, t: Tree, c: Inode, mc: Meta, q: Inode)
    requires Consistent(d, limit, t) && limit < |d| && limit + 1 < 0x1_0000_0000 && q in t.metas
    ensures Fits(t.metas[q], |d|) && Content(Planted(d, limit, mc), t.metas[q]) == Content(d, t.metas[q])
  {
    hide EncodeMeta, WordSector, Content, Encode, EntriesOf, Lists, AllApart, Linked;
    assert HeaderStored(d, limit, t.metas[q]);
    ContentSame(d, Planted(d, limit, mc), t.metas[q]);
  }

  lemma OrphanKeepsList(d: seq<Sector>, limit: nat, t: Tree, c: Inode, mc: Meta, q: Inode)
    requires Consistent(d, limit, t) && limit < |d| && limit + 1 < 0x1_0000_0000
    requires c !in t.metas && q in t.metas && t.metas[q].kind == KIND_DIR
    ensures Lists(Planted(d, limit, mc), WithOrphan(t, c, mc), q)
  {
    hide EncodeMeta, WordSector, Content, Encode, EntriesOf, AllApart, Stored, Planted, Linked, Consistent;
    OrphanKeepsBody(d, limit, t, c, mc, q);
    ListFacts(d, limit, t, q);
    PlantedPointers(d, limit, mc);
    SameEntries(t.kids[q], t.metas, c, mc);
  }

  lemma OrphanLinked(t: Tree, c: Inode, mc: Meta)
    requires Linked(t) && c !in t.metas
    ensures Linked(WithOrphan(t, c, mc))
  {
    var t1 := WithOrphan(t, c, mc);
    forall q | q in t1.kids
      ensures KidsOk(t1, q, t1.kids[q])
    {
      if q != c {
        assert KidsOk(t, q, t.kids[q]);
        assert forall k :: k in t.kids[q] ==> KidOk(t, q, k);
      }
    }
  }

  /** Planting an inode keeps everything consistent. */
  lemma OrphanConsistent(d: seq<Sector>, limit: nat, t: Tree, c: Inode, mc: Meta)
    requires Consistent(d, limit, t) && limit < |d| && limit + 1 < 0x1_0000_0000 && c !in t.metas
    requires mc.valid == 1 && mc.index == limit && mc.size == 0 && mc.alloc == 0
    ensures Consistent(Planted(d, limit, mc), limit + 1, WithOrphan(t, c, mc))
  {
    hide Consistent, EncodeMeta, WordSector, Lists, AllApart, Linked, Stored, Planted, Content;
    var d1, t1 := Planted(d, limit, mc), WithOrphan(t, c, mc);
    OrphanBasics(d, limit, t, c, mc);
    OrphanStored(d, limit, t, c, mc);
    forall q | q in t.metas && t.metas[q].kind == KIND_DIR
      ensures Lists(d1, t1, q)
    {
      OrphanKeepsList(d, limit, t, c, mc, q);
    }
    Assemble(d1, limit + 1, t1);
  }

  lemma OrphanBasics(d: seq<Sector>, limit: nat, t: Tree, c: Inode, mc: Meta)
    requires Consistent(d, limit, t) && limit < |d| && limit + 1 < 0x1_0000_0000 && c !in t.metas
    requires mc.valid == 1 && mc.index == limit && mc.size == 0 && mc.alloc == 0
    ensures var d1, t1 := Planted(d, limit, mc), WithOrphan(t, c, mc);
            && FS_START_SECTOR <= limit + 1 <= |d1| && SECTOR * |d1| <= 0x1_0000_0000
            && t1.root in t1.metas && t1.root != c
            && d1[BALLOC_SECTOR] == WordSector(limit + 1)
                 && d1[ROOT_INDEX_SECTOR] == WordSector(t1.metas[t1.root].index)
            && Linked(t1) && Lists(d1, t1, c)
  {
    hide EncodeMeta, WordSector, Stored, AllApart, Linked, Lists, Content, Encode, EntriesOf, Planted;
    OrphanLinked(t, c, mc);
    LinkedRoot(t);
    OrphanLists(d, limit, t, c, mc);
    PlantedPointers(d, limit, mc);
  }

  lemma LinkedRoot(t: Tree)
    requires Linked(t)
    ensures t.root in t.metas
  {
  }

  lemma PlantedPointers(d: seq<Sector>, limit: nat, mc: Meta)
    requires FS_START_SECTOR <= limit < |d| && limit + 1 < 0x1_0000_0000
    ensures var d1 := Planted(d, limit, mc);
            |d1| == |d| && d1[BALLOC_SECTOR] == WordSector(limit + 1) && d1[ROOT_INDEX_SECTOR] == d[ROOT_INDEX_SECTOR]
  {
    hide EncodeMeta, WordSector;
  }

  lemma OrphanLists(d: seq<Sector>, limit: nat, t: Tree, c: Inode, mc: Meta)
    requires FS_START_SECTOR <= limit < |d| && limit + 1 < 0x1_0000_0000
    requires mc.index == limit && mc.size == 0 && mc.alloc == 0
    ensures Lists(Planted(d, limit, mc), WithOrphan(t, c, mc), c)
  {
    hide EncodeMeta, WordSector;
    assert Content(Planted(d, limit, mc), mc) == [] == Encode(EntriesOf([], WithOrphan(t, c, mc).metas));
  }

  lemma OrphanStored(d: seq<Sector>, limit: nat, t: Tree, c: Inode, mc: Meta)
    requires Consistent(d, limit, t) && limit < |d| && limit + 1 < 0x1_0000_0000 && c !in t.metas
    requires mc.valid == 1 && mc.index == limit && mc.size == 0 && mc.alloc == 0
    ensures Stored(Planted(d, limit, mc), limit + 1, t.metas[c := mc]) && AllApart(t.metas[c := mc])
  {
    hide EncodeMeta, WordSector, Content, Encode, EntriesOf, Lists, Linked;
    var metas' := t.metas[c := mc];
    forall q | q in metas'
      ensures HeaderStored(Planted(d, limit, mc), limit + 1, metas'[q])
    {
      if q != c {
        assert HeaderStored(d, limit, t.metas[q]);
      }
    }
    forall a, b | a in metas' && b in metas' && a != b
      ensures ExtentsApart(metas'[a], metas'[b])
    {
      if a != c { assert HeaderStored(d, limit, t.metas[a]); }
      if b != c { assert HeaderStored(d, limit, t.metas[b]); }
      if a != c && b != c { assert ExtentsApart(t.metas[a], t.metas[b]); }
    }
  }

  lemma ChildLinked(t: Tree, p: Inode, mp: Meta, c: Inode, mc: Meta)
    requires Linked(t) && c !in t.metas && p in t.kids && t.metas[p].kind == mp.kind == KIND_DIR
    requires NulFree(c.name) && |c.name| <= MAX_NAME
    requires forall k :: k in t.kids[p] ==> k.name != c.name
    ensures Linked(WithChild(t, p, mp, c, mc))
  {
    var t2 := WithChild(t, p, mp, c, mc);
    forall q | q in t2.kids
      ensures KidsOk(t2, q, t2.kids[q])
    {
      if q != c {
        assert KidsOk(t, q, t.kids[q]);
        forall k | k in t2.kids[q]
          ensures KidOk(t2, q, k)
        {
          assert k != c ==> KidOk(t, q, k);
        }
      }
    }
    forall k | k in t2.parentOf
      ensures t2.parentOf[k] in t2.kids && k in t2.kids[t2.parentOf[k]]
    {
      if k == c {
        assert t2.kids[p][|t.kids[p]|] == c;
      } else {
        assert k in t.parentOf && k in t.kids[t.parentOf[k]];
      }
    }
  }

  /** The listing of a directory that has just got a child. */
  lemma ChildEntries(cs: seq<Inode>, metas: map<Inode, Meta>, p: Inode, mp: Meta, c: Inode, mc: Meta)
    requires forall k :: k in cs ==> k in metas
    requires p !in cs && c !in cs && c != p
    ensures (forall k :: k in cs + [c] ==> k in metas[c := mc][p := mp])
    ensures EntriesOf(cs + [c], metas[c := mc][p := mp]) == EntriesOf(cs, metas) + [Entry(c.name, mc.index)]
  {
    assert forall j :: 0 <= j < |cs| ==> cs[j] in cs;
  }

  /** Every entry takes at least five bytes. */
  lemma {:induction false} EncodeLength(es: seq<Entry>)
    ensures |Encode(es)| >= 5 * |es|
  {
    if es != [] {
      EncodeLength(es[1..]);
    }
  }

  /** An inode planted at the allocation pointer becomes a child of directory p, whose write is an update. */
  ghost predicate Creation(d: seq<Sector>, d2: seq<Sector>, limit: nat, limit2: nat, t: Tree, p: Inode, mp: Meta,
                           c: Inode, mc: Meta) {
    && Consistent(d, limit, t) && limit < |d| && limit + 1 < 0x1_0000_0000 && c !in t.metas && p in t.metas
         && p in t.kids
    && mc.valid == 1 && mc.index == limit && mc.size == 0 && mc.alloc == 0
    && NulFree(c.name) && |c.name| <= MAX_NAME && (forall k :: k in t.kids[p] ==> k.name != c.name && k in t.metas)
    && t.metas[p].kind == mp.kind == KIND_DIR
    && Step(Planted(d, limit, mc), d2, limit + 1, limit2, WithOrphan(t, c, mc), p, mp)
    && Body(d2, mp) == Encode(EntriesOf(t.kids[p], t.metas) + [Entry(c.name, mc.index)])
  }

  /** Adding a child, wherever its directory ends up, keeps the disk consistent with the tree ... */
  lemma CreateConsistent(d: seq<Sector>, d2: seq<Sector>, limit: nat, limit2: nat, t: Tree, p: Inode, mp: Meta,
                         c: Inode, mc: Meta)
    requires Creation(d, d2, limit, limit2, t, p, mp, c, mc) && p in t.kids
    ensures Consistent(d2, limit2, WithChild(t, p, mp, c, mc))
  {
    hide Consistent, Step, Linked, Planted, Stored, AllApart, Content, Encode, EntriesOf, WordSector, Lists, Body;
    var d1, t1, t2 := Planted(d, limit, mc), WithOrphan(t, c, mc), WithChild(t, p, mp, c, mc);
    UpdateBasics(d1, d2, limit + 1, limit2, t1, p, mp);
    UpdateKeepsStorage(d1, d2, limit + 1, limit2, t1, p, mp);
    UpdateKeepsApart(d1, d2, limit + 1, limit2, t1, p, mp);
    UpdateKeepsRootIndex(d1, d2, limit + 1, limit2, t1, p, mp);
    CreateLists(d, d2, limit, limit2, t, p, mp, c, mc);
    forall q | q in t2.metas && t2.metas[q].kind == KIND_DIR
      ensures Lists(d2, t2, q)
    {
      if q != p {
        UpdateKeepsList(d1, d2, limit + 1, limit2, t1, p, mp, q);
        SameListing(d2, t1.(metas := t1.metas[p := mp]), t2, q);
      }
    }
    Assemble(d2, limit2, t2);
  }

  lemma SameListing(d: seq<Sector>, t: Tree, t': Tree, q: Inode)
    requires Lists(d, t, q) && t'.metas == t.metas && q in t'.kids && t'.kids[q] == t.kids[q]
    ensures Lists(d, t', q)
  {
  }

  lemma CreateLists(d: seq<Sector>, d2: seq<Sector>, limit: nat, limit2: nat, t: Tree, p: Inode, mp: Meta, c: Inode,
                    mc: Meta)
    requires Creation(d, d2, limit, limit2, t, p, mp, c, mc) && p in t.kids
    ensures Linked(WithChild(t, p, mp, c, mc)) && Lists(d2, WithChild(t, p, mp, c, mc), p)
    ensures WithChild(t, p, mp, c, mc).kids.Keys == WithChild(t, p, mp, c, mc).metas.Keys
  {
    hide Step, Planted, Content, Encode, EntriesOf, WordSector, Lists, Linked, Stored, AllApart, Body;
    CreateLinked(t, p, mp, c, mc);
    CreateListed(d, d2, limit, limit2, t, p, mp, c, mc);
  }

  lemma CreateLinked(t: Tree, p: Inode, mp: Meta, c: Inode, mc: Meta)
    requires Linked(t) && c !in t.metas && p in t.metas && p in t.kids && t.metas[p].kind == mp.kind == KIND_DIR
    requires NulFree(c.name) && |c.name| <= MAX_NAME && forall k :: k in t.kids[p] ==> k.name != c.name
    ensures Linked(WithChild(t, p, mp, c, mc))
    ensures WithChild(t, p, mp, c, mc).kids.Keys == WithChild(t, p, mp, c, mc).metas.Keys
  {
    ChildLinked(t, p, mp, c, mc);
  }

  lemma CreateListed(d: seq<Sector>, d2: seq<Sector>, limit: nat, limit2: nat, t: Tree, p: Inode, mp: Meta, c: Inode,
                     mc: Meta)
    requires Creation(d, d2, limit, limit2, t, p, mp, c, mc) && Linked(t)
    ensures Lists(d2, WithChild(t, p, mp, c, mc), p)
  {
    hide Step, Planted, Content, Encode, EntriesOf, WordSector, Consistent, Linked;
    UpdatedFits(Planted(d, limit, mc), d2, limit + 1, limit2, WithOrphan(t, c, mc), p, mp);
    OwnKids(t, p, c);
    ChildEntries(t.kids[p], t.metas, p, mp, c, mc);
  }

  /** Neither a directory itself nor an inode that is not in the tree is among its children. */
  lemma OwnKids(t: Tree, p: Inode, c: Inode)
    requires Linked(t) && p in t.kids && c !in t.metas
    ensures p !in t.kids[p] && c !in t.kids[p]
  {
    assert KidsOk(t, p, t.kids[p]);
    assert forall k :: k in t.kids[p] ==> KidOk(t, p, k);
  }

  /** ... and the whole tree well formed, with every file's bytes as they were. */
  lemma CreateKeepsTree(d: seq<Sector>, d2: seq<Sector>, limit: nat, limit2: nat, t: Tree, p: Inode, mp: Meta,
                        c: Inode, mc: Meta)
    requires Creation(d, d2, limit, limit2, t, p, mp, c, mc) && p in t.kids && Complete(t)
    requires mc.childCount == 0 && p in t.metas && mp.childCount == t.metas[p].childCount + 1
    ensures TreeOk(d2, limit2, WithChild(t, p, mp, c, mc))
    ensures Files(d2, WithChild(t, p, mp, c, mc)) == if mc.kind == KIND_DIR then Files(d, t) else Files(d, t)[c := []]
  {
    CreateConsistent(d, d2, limit, limit2, t, p, mp, c, mc);
    hide Consistent, Step, Linked, Planted, Body, Encode, EntriesOf, Complete, Files;
    CompleteWithChild(t, p, mp, c, mc);
    forall q | q in t.metas && t.metas[q].kind != KIND_DIR
      ensures Body(d2, t.metas[q]) == Body(d, t.metas[q])
    {
      CreateKeepsBody(d, d2, limit, limit2, t, p, mp, c, mc, q);
    }
    NewbornEmpty(d2, mc);
    FilesWithChild(d, d2, t, p, mp, c, mc);
  }

  lemma ChildMetas(t: Tree, p: Inode, mp: Meta, c: Inode, mc: Meta)
    requires p in t.kids
    ensures WithChild(t, p, mp, c, mc).metas == t.metas[c := mc][p := mp]
  {
  }

  lemma CompleteWithChild(t: Tree, p: Inode, mp: Meta, c: Inode, mc: Meta)
    requires Complete(t) && c !in t.metas && p in t.kids && p in t.metas
    requires mc.childCount == 0 && mp.childCount == t.metas[p].childCount + 1 && t.metas[p].kind == mp.kind
    ensures Complete(WithChild(t, p, mp, c, mc))
  {
  }

  lemma FilesWithChild(d: seq<Sector>, d2: seq<Sector>, t: Tree, p: Inode, mp: Meta, c: Inode, mc: Meta)
    requires c !in t.metas && p in t.kids && p in t.metas && t.metas[p].kind == mp.kind == KIND_DIR
    requires forall q :: q in t.metas && t.metas[q].kind != KIND_DIR ==> Body(d2, t.metas[q]) == Body(d, t.metas[q])
    requires Body(d2, mc) == []
    ensures Files(d2, WithChild(t, p, mp, c, mc)) == if mc.kind == KIND_DIR then Files(d, t) else Files(d, t)[c := []]
  {
    hide Body;
  }

  lemma NewbornEmpty(d: seq<Sector>, m: Meta)
    requires m.size == 0
    ensures Body(d, m) == []
  {
  }

  lemma CreateKeepsBody(d: seq<Sector>, d2: seq<Sector>, limit: nat, limit2: nat, t: Tree, p: Inode, mp: Meta,
                        c: Inode, mc: Meta, q: Inode)
    requires Creation(d, d2, limit, limit2, t, p, mp, c, mc)
    requires q in t.metas && t.metas[q].kind != KIND_DIR
    ensures Body(d2, t.metas[q]) == Body(d, t.metas[q])
  {
    hide Consistent, Step, Linked, Content;
    OrphanKeepsBody(d, limit, t, c, mc, q);
    FileBodySame(Planted(d, limit, mc), d2, limit + 1, limit2, WithOrphan(t, c, mc), p, mp, q);
  }

  lemma UpdatedFits(d: seq<Sector>, d': seq<Sector>, limit: nat, limit': nat, t: Tree, n: Inode, m': Meta)
    requires Step(d, d', limit, limit', t, n, m')
    ensures Fits(m', |d'|)
  {
    hide Consistent, Linked;
  }

  /** What inode_create needs of the disk with the new inode planted. */
  lemma CreateReady(d: seq<Sector>, limit: nat, t: Tree, p: Inode, c: Inode, mc: Meta)
    requires TreeOk(d, limit, t) && limit < |d| && limit + 1 < 0x1_0000_0000 && c !in t.metas && p in t.metas
    requires mc.valid == 1 && mc.index == limit && mc.size == 0 && mc.alloc == 0
    requires t.metas[p].kind == KIND_DIR
    ensures p in t.kids && (forall k :: k in t.kids[p] ==> k in t.metas)
    ensures var d1, es := Planted(d, limit, mc), EntriesOf(t.kids[p], t.metas);
            && Consistent(d1, limit + 1, WithOrphan(t, c, mc))
            && Fits(t.metas[p], limit + 1) && limit + 1 <= |d1|
            && EntriesOk(es) && Content(d1, t.metas[p]) == Encode(es)
            && t.metas[p].childCount == |es| && |Encode(es)| == t.metas[p].size
    ensures Linked(WithOrphan(t, c, mc)) && (p == t.root || p in t.parentOf)
  {
    hide EncodeMeta, WordSector, Content, Encode, EntriesOf, Planted, EntriesOk, Linked, Stored, AllApart, Lists;
    OrphanConsistent(d, limit, t, c, mc);
    OrphanKeepsBody(d, limit, t, c, mc, p);
    ListFacts(d, limit, t, p);
    PlantedPointers(d, limit, mc);
  }

  /** inode_child_set with CHOP_ADD on the planted disk completes a creation. */
  lemma ChildSetIsCreation(d: seq<Sector>, d2: seq<Sector>, limit: nat, limit2: nat, t: Tree, p: Inode, mp: Meta,
                           c: Inode, mc: Meta)
    requires Consistent(d, limit, t) && limit < |d| && limit + 1 < 0x1_0000_0000 && c !in t.metas && p in t.metas
    requires p in t.kids
    requires mc.valid == 1 && mc.index == limit && mc.size == 0 && mc.alloc == 0
    requires NulFree(c.name) && |c.name| <= MAX_NAME
    requires (forall k :: k in t.kids[p] ==> k.name != c.name && k in t.metas)
    requires t.metas[p].kind == KIND_DIR && (p == t.root || p in t.parentOf)
    requires t.metas[p].childCount + 1 < 0x1_0000_0000
    requires var d1, t1, op := Planted(d, limit, mc), WithOrphan(t, c, mc), ChopAdd(c.name, mc.index);
             var bytes := Encode(EntriesOf(t.kids[p], t.metas) + [Entry(c.name, mc.index)]);
             && Consistent(d1, limit + 1, t1) && Linked(t1)
             && Written(d1, d2, limit + 1, limit2, Counted(op, t.metas[p]), mp, 0, bytes)
             && Fits(mp, limit2) && limit2 <= |d2| && d2[mp.index] == EncodeMeta(mp) && Content(d2, mp) == bytes
             && if Overflows(t.metas[p], 0, |bytes|) then
                  && Followed(d2, p.name, mp.index, Pointing(t1, p), EntriesAbove(t1, p))
                  && MoveFrame(d1, d2, limit + 1, limit2, Pointing(t1, p))
                else ExtentFrame(d1, d2, mp)
    ensures Creation(d, d2, limit, limit2, t, p, mp, c, mc) && mp.childCount == t.metas[p].childCount + 1
  {
    hide EncodeMeta, WordSector, Content, Encode, EntriesOf, Splice, Linked, Lists, AllApart, Followed, MoveFrame,
         ExtentFrame, Sectors, EntriesAbove;
    var d1, t1 := Planted(d, limit, mc), WithOrphan(t, c, mc);
    assert HeaderStored(d1, limit + 1, t1.metas[p]);
    hide Planted;
  }

  class FileTree {
    const store: Store
    ghost var tree: Tree

    ghost predicate Valid()
      reads this, store, store.device.sectors, tree.metas.Keys
    {
      && TreeOk(store.D(), store.ballocPtr, tree)
      && forall n :: n in tree.metas ==> n.meta == tree.metas[n]
    }

    /** The simple view: every file's bytes. */
    ghost function View(): map<Inode, seq<byte>>
      reads this, store, store.device.sectors
    {
      Files(store.D(), tree)
    }

    /** One inode's bytes. */
    ghost function BytesOf(n: Inode): seq<byte>
      reads this, store, store.device.sectors, n
    {
      Body(store.D(), n.meta)
    }

    /** fs_init: an empty disk gets its two pointers and the header of an empty root; from a disk that holds a tree
        the root is fetched, and nothing is written. The other inodes of `t` are what a lookup would fetch. */
    constructor (device: Device, root: Inode, ghost t: Tree)
      requires FS_START_SECTOR < device.sectors.Length && SECTOR * device.sectors.Length <= 0x1_0000_0000
      requires t.root == root && forall n :: n in t.metas && n != root ==> n.meta == t.metas[n]
      requires Blank(device.sectors[..], t) || TreeOk(device.sectors[..], PointerOf(device.sectors[..]), t)
      modifies device.sectors, root
      ensures Valid() && store.device == device && tree == t && fresh(store)
      ensures if Blank(old(device.sectors[..]), t) then View() == map[] && store.ballocPtr == FS_START_SECTOR + 1
              else device.sectors[..] == old(device.sectors[..]) && View() == Files(device.sectors[..], t)
    {
      this.store := new Store(device, 0);
      tree := t;
      new;
      Init(root);
    }

    /** The steps of fs_init. */
    method Init(root: Inode)
      requires var d := store.D();
               && FS_START_SECTOR < |d| && SECTOR * |d| <= 0x1_0000_0000
               && tree.root == root && (forall n :: n in tree.metas && n != root ==> n.meta == tree.metas[n])
               && (Blank(d, tree) || TreeOk(d, PointerOf(d), tree))
      modifies store.device.sectors, store`ballocPtr, root
      ensures Valid()
      ensures if Blank(old(store.D()), tree) then View() == map[] && store.ballocPtr == FS_START_SECTOR + 1
              else store.D() == old(store.D())
    {
      hide WordSector, EncodeMeta, DecodeMeta, Spell, Word, TreeOk, Blank;
      ghost var d := store.D();
      if Blank(d, tree) {
        BlankWords(d, tree);
      } else {
        TreeWords(d, PointerOf(d), tree);
      }
      store.Binit();
      var rootIndex := WordAt(store.device.sectors[ROOT_INDEX_SECTOR], 0);
      if rootIndex == 0 {
        rootIndex := FS_START_SECTOR;
        store.device.AtaWrite(ROOT_INDEX_SECTOR, Spell(rootIndex) + store.device.sectors[ROOT_INDEX_SECTOR][4..]);
      }
      root.meta := DecodeMeta(store.device.sectors[rootIndex]);
      if root.meta.valid == 0 {
        var index := store.Balloc(1);
        root.meta := Meta(1, index, 0, 0, 0, KIND_DIR);
        store.InodeUpdate(root);
        LoneRoot(store.D(), tree);
      }
    }

    /** fs_read of a file. */
    method Read(n: Inode, from: nat, count: nat) returns (data: seq<byte>)
      requires Valid() && n in tree.metas && from <= |BytesOf(n)|
      ensures |data| == if count <= |BytesOf(n)| - from then count else |BytesOf(n)| - from
      ensures data == BytesOf(n)[from..from + |data|]
    {
      hide EncodeMeta, WordSector, Content, Linked, Lists, AllApart, Complete;
      assert HeaderStored(store.D(), store.ballocPtr, tree.metas[n]);
      data := store.InodeRead(n, from, count);
    }

    /** fs_write of a file whose parent directory is `parent`. The one file changes as a byte string does
        under splicing; no other file, no listing and no parent does, although the file and its entry may move. */
    method Write(n: Inode, from: nat, buf: seq<byte>, parent: Inode)
      requires Valid() && n in tree.metas && n.meta.kind != KIND_DIR && from <= |BytesOf(n)|
      requires n in tree.parentOf && parent == tree.parentOf[n]
      requires Overflows(n.meta, from, |buf|) ==>
                 store.ballocPtr + Sectors(from + |buf|) + 1 <= store.device.sectors.Length
      modifies store.device.sectors, store`ballocPtr, n, parent, `tree
      ensures Valid() && BytesOf(n) == Splice(old(BytesOf(n)), from, buf)
      ensures View() == old(View())[n := BytesOf(n)]
      ensures tree == old(tree).(metas := old(tree.metas)[n := n.meta])
    {
      hide EncodeMeta, WordSector, Content, Splice, Encode, EntriesOf, Lists, AllApart, Linked, Followed, MoveFrame,
           ExtentFrame, Sectors, Written, Step, Updated, Complete, EntriesAbove, Body, Files;
      ghost var d, limit, t := store.D(), store.ballocPtr, tree;
      assert HeaderStored(d, limit, t.metas[n]);
      ParentIsReady(d, limit, t, n);
      BodySize(d, limit, t.metas[n]);
      store.InodeWrite(n, from, buf, parent, EntriesAbove(t, n));
      WriteIsUpdate(d, store.D(), limit, store.ballocPtr, t, n, n.meta, from, buf);
      FileUpdateKeepsTree(d, store.D(), limit, store.ballocPtr, t, n, n.meta);
      tree := tree.(metas := tree.metas[n := n.meta]);
    }

    /** inode_child: the on-disk part of the child with that name, if the directory has one. */
    method Lookup(p: Inode, name: seq<byte>) returns (found: bool, m: Meta)
      requires Valid() && p in tree.metas && p.meta.kind == KIND_DIR && NulFree(name)
      ensures found <==> HasKid(tree, p, name)
      ensures found ==> p in tree.kids && exists k :: k in tree.kids[p] && k.name == name && m == k.meta
    {
      hide EncodeMeta, WordSector, Content, Encode, Complete, Spell, Word, DecodeMeta, EntriesOf, Consistent;
      m := p.meta;
      ListFacts(store.D(), store.ballocPtr, tree, p);
      CreateRoom(store.D(), store.ballocPtr, tree);
      ghost var es := EntriesOf(tree.kids[p], tree.metas);
      var data := store.InodeRead(p, 0, p.meta.size);
      var table := new ChildTable(data, p.meta.alloc);
      var index := table.Get(name, es);
      KidByName(store.D(), store.ballocPtr, tree, p, name);
      if index == 0 {
        return false, m;
      }
      found := true;
      m := DecodeMeta(store.device.sectors[index]);
    }

    /** Reading a directory record by record from position 0 until a length of 0 comes back
        yields every child's name once, in the order of the listing. */
    method List(p: Inode) returns (names: seq<seq<byte>>)
      requires Valid() && p in tree.metas && p.meta.kind == KIND_DIR
      ensures p in tree.kids && |names| == |tree.kids[p]|
      ensures forall i :: 0 <= i < |names| ==> names[i] == tree.kids[p][i].name
    {
      hide Content, Encode, Consistent, Complete, EntriesOk, Offset, StrLen;
      CreateRoom(store.D(), store.ballocPtr, tree);
      ListFacts(store.D(), store.ballocPtr, tree, p);
      ghost var es := EntriesOf(tree.kids[p], tree.metas);
      OffsetEnds(es);
      names := [];
      var pos := 0;
      while true
        invariant |names| <= |es| && pos == Offset(es, |names|) <= p.meta.size
        invariant forall i :: 0 <= i < |names| ==> names[i] == es[i].name
        decreases |es| - |names|
      {
        ghost var k := |names|;
        if k < |es| {
          ReadAtOffset(es, k);
        }
        var len, name := store.InodeReaddir(p, pos);
        if len == 0 {
          break;
        }
        names := names + [name];
        pos := pos + len;
      }
    }

    /** A header sector for a new inode. */
    method Plant(dir: bool, c: Inode) returns (index: u32)
      requires store.Geometry() && store.ballocPtr < store.device.sectors.Length
      modifies store.device.sectors, store`ballocPtr, c
      ensures store.Geometry() && store.ballocPtr == old(store.ballocPtr) + 1 && index == old(store.ballocPtr)
      ensures c.meta == Meta(1, index, 0, 0, 0, if dir then KIND_DIR else KIND_FILE)
      ensures store.D() == Planted(old(store.D()), index, c.meta)
    {
      hide EncodeMeta, WordSector;
      index := store.Balloc(1);
      c.meta := Meta(1, index, 0, 0, 0, if dir then KIND_DIR else KIND_FILE);
      store.InodeUpdate(c);
    }

    /** inode_create for a name the directory does not have yet; `above` is the directory's own parent, if any.
        The new inode is listed last, and no other listing, no other inode and no file's bytes change. */
    method Create(dir: bool, p: Inode, c: Inode, above: Inode?)
      requires Valid() && p in tree.metas && p.meta.kind == KIND_DIR && c !in tree.metas
      requires above == if p in tree.parentOf then tree.parentOf[p] else null
      requires NulFree(c.name) && |c.name| <= MAX_NAME
      requires forall k :: k in tree.kids && k == p ==> forall b :: b in tree.kids[k] ==> b.name != c.name
      requires var n := p.meta.size + |c.name| + 5;
               store.ballocPtr + 1 + (if Overflows(p.meta, 0, n) then Sectors(n) + 1
                                      else 0) <= store.device.sectors.Length
      modifies store.device.sectors, store`ballocPtr, c, p, above, `tree
      ensures Valid() && c.meta.kind == (if dir then KIND_DIR else KIND_FILE) && c.meta.size == 0
      ensures p in old(tree).kids && tree == WithChild(old(tree), p, p.meta, c, c.meta)
      ensures View() == if dir then old(View()) else old(View())[c := []]
    {
      hide EncodeMeta, WordSector, Content, Encode, EntriesOf, Splice, Linked, Lists, AllApart, Followed, MoveFrame,
           ExtentFrame, Sectors, EntriesAbove, Files, Body, Written, Creation, Consistent, Complete;
      hide WithChild, WithOrphan, NulFree, Fits, Planted;
      ghost var d, limit, t := store.D(), store.ballocPtr, tree;
      CreateRoom(d, limit, t);
      var index := Plant(dir, c);
      Attach(p, c, above, d, limit);
      CreateKeepsTree(d, store.D(), limit, store.ballocPtr, t, p, p.meta, c, c.meta);
      ChildMetas(t, p, p.meta, c, c.meta);
      tree := WithChild(t, p, p.meta, c, c.meta);
    }

    /** The entry for the planted inode. */
    method Attach(p: Inode, c: Inode, above: Inode?, ghost d: seq<Sector>, ghost limit: nat)
      requires store.Geometry() && TreeOk(d, limit, tree) && limit < |d| && limit + 1 < 0x1_0000_0000
      requires c !in tree.metas && p in tree.metas && p.meta == tree.metas[p] && p.meta.kind == KIND_DIR
      requires c.meta == Meta(1, limit, 0, 0, 0, c.meta.kind)
      requires store.D() == Planted(d, limit, c.meta) && store.ballocPtr == limit + 1
      requires above == if p in tree.parentOf then tree.parentOf[p] else null
      requires above != null ==> above in tree.metas && above.meta == tree.metas[above]
      requires NulFree(c.name) && |c.name| <= MAX_NAME
      requires forall k :: k in tree.kids && k == p ==> forall b :: b in tree.kids[k] ==> b.name != c.name
      requires var n := p.meta.size + |c.name| + 5;
               Overflows(p.meta, 0, n) ==> store.ballocPtr + Sectors(n) + 1 <= store.device.sectors.Length
      modifies store.device.sectors, store`ballocPtr, p, above
      ensures Creation(d, store.D(), limit, store.ballocPtr, tree, p, p.meta, c, c.meta)
      ensures p.meta.childCount == old(p.meta.childCount) + 1
      ensures above != null ==> above.meta == old(above.meta)
      ensures c.meta == old(c.meta) && FS_START_SECTOR <= store.ballocPtr
    {
      hide EncodeMeta, WordSector, Content, Encode, EntriesOf, Splice, Linked, Lists, AllApart, Followed, MoveFrame,
           ExtentFrame, Sectors, EntriesAbove, Files, Body, Written, Creation, Consistent, Complete, Planted;
      ghost var mc, t1 := c.meta, WithOrphan(tree, c, c.meta);
      CreateReady(d, limit, tree, p, c, mc);
      ghost var es := EntriesOf(tree.kids[p], tree.metas);
      EncodeLength(es);
      AddedLength(es, c.name, mc.index);
      if above != null {
        ParentIsReady(store.D(), limit + 1, t1, p);
      }
      store.InodeChildSet(p, ChopAdd(c.name, c.meta.index), above, es, EntriesAbove(t1, p));
      ChildSetIsCreation(d, store.D(), limit, store.ballocPtr, tree, p, p.meta, c, mc);
    }
  }

  lemma CreateRoom(d: seq<Sector>, limit: nat, t: Tree)
    requires TreeOk(d, limit, t)
    ensures FS_START_SECTOR <= limit <= |d| && SECTOR * |d| <= 0x1_0000_0000
    ensures t.kids.Keys == t.metas.Keys && forall p :: p in t.parentOf ==> t.parentOf[p] in t.metas
  {
  }

  lemma AddedLength(es: seq<Entry>, name: seq<byte>, index: u32)
    ensures |Encode(es + [Entry(name, index)])| == |Encode(es)| + |name| + 5
  {
    EncodeConcat(es, [Entry(name, index)]);
    EncodeOne(Entry(name, index));
  }

  ghost predicate HasKid(t: Tree, p: Inode, name: seq<byte>) {
    p in t.kids && exists k :: k in t.kids[p] && k.name == name
  }

  lemma ListFacts(d: seq<Sector>, limit: nat, t: Tree, p: Inode)
    requires Consistent(d, limit, t) && p in t.metas && t.metas[p].kind == KIND_DIR
    ensures p in t.kids && (forall k :: k in t.kids[p] ==> k in t.metas)
    ensures FS_START_SECTOR <= limit <= |d| && Fits(t.metas[p], limit)
    ensures EntriesOk(EntriesOf(t.kids[p], t.metas)) && Content(d, t.metas[p]) == Encode(EntriesOf(t.kids[p], t.metas))
  {
    hide EncodeMeta, WordSector, Content, Encode, AllApart, EntriesOf;
    assert HeaderStored(d, limit, t.metas[p]);
    assert Lists(d, t, p) && KidsOk(t, p, t.kids[p]);
    assert forall k :: k in t.kids[p] ==> KidOk(t, p, k);
    EntriesNames(t.kids[p], t.metas);
  }

  /** Looking a name up in the packed records leads to the header of the child with that name. */
  lemma KidByName(d: seq<Sector>, limit: nat, t: Tree, p: Inode, name: seq<byte>)
    requires Consistent(d, limit, t) && p in t.metas && t.metas[p].kind == KIND_DIR
    requires p in t.kids && (forall k :: k in t.kids[p] ==> k in t.metas)
    ensures var index := Lookup(EntriesOf(t.kids[p], t.metas), name);
            if HasKid(t, p, name) then
              exists k :: k in t.kids[p] && k.name == name && index == t.metas[k].index && 0 < index < |d|
                && DecodeMeta(d[index]) == t.metas[k]
            else index == 0
  {
    hide WordSector, EncodeMeta, Content, Encode, AllApart, Lists, Linked, Complete, HeaderStored, DecodeMeta;
    var cs, es := t.kids[p], EntriesOf(t.kids[p], t.metas);
    var i := Find(es, name);
    if i < |es| {
      assert cs[i] in cs && cs[i].name == es[i].name;
      HeaderRead(d, limit, t.metas[cs[i]]);
    } else {
      forall k | k in cs
        ensures k.name != name
      {
        var j :| 0 <= j < |cs| && cs[j] == k;
        assert es[j].name == k.name;
      }
    }
  }

  /** A stored header is read back from its sector. */
  lemma HeaderRead(d: seq<Sector>, limit: nat, m: Meta)
    requires limit <= |d| && HeaderStored(d, limit, m)
    ensures 0 < m.index < |d| && DecodeMeta(d[m.index]) == m
  {
    hide Spell, Word, DecodeMeta;
    DecodeEncodeMeta(m, Zeros(SECTOR - 24));
  }

  lemma BodySize(d: seq<Sector>, limit: nat, m: Meta)
    requires limit <= |d| && Fits(m, limit)
    ensures |Body(d, m)| == m.size
  {
  }

  /** The allocation pointer on a disk. */
  function PointerOf(d: seq<Sector>): u32
    requires |d| > BALLOC_SECTOR
  {
    WordAt(d[BALLOC_SECTOR], 0)
  }

  /** A disk that nobody has used, and the tree it is about to hold. */
  ghost predicate Blank(d: seq<Sector>, t: Tree) {
    && |d| > FS_START_SECTOR && PointerOf(d) == 0 && d[ROOT_INDEX_SECTOR] == WordSector(0)
    && WordAt(d[FS_START_SECTOR], 0) == 0
    && t == Tree(t.root, map[t.root := Meta(1, FS_START_SECTOR, 0, 0, 0, KIND_DIR)], map[t.root := []], map[])
  }

  lemma BlankWords(d: seq<Sector>, t: Tree)
    requires Blank(d, t)
    ensures PointerOf(d) == 0 && WordAt(d[ROOT_INDEX_SECTOR], 0) == 0 && DecodeMeta(d[FS_START_SECTOR]).valid == 0
    ensures Spell(FS_START_SECTOR) + d[ROOT_INDEX_SECTOR][4..] == WordSector(FS_START_SECTOR)
    ensures t.metas == map[t.root := Meta(1, FS_START_SECTOR, 0, 0, 0, KIND_DIR)] && t.kids == map[t.root := []]
    ensures t.parentOf == map[]
  {
    WordSectorWord(0);
  }

  /** A disk that holds a tree is not blank, and its root is where the root index says. */
  lemma TreeWords(d: seq<Sector>, limit: u32, t: Tree)
    requires TreeOk(d, limit, t) && |d| > FS_START_SECTOR
    ensures PointerOf(d) == limit != 0 && t.root in t.metas && !Blank(d, t)
    ensures var index := WordAt(d[ROOT_INDEX_SECTOR], 0);
            0 < index < |d| && DecodeMeta(d[index]) == t.metas[t.root] && t.metas[t.root].valid == 1
  {
    hide WordSector, DecodeMeta, Spell, Word, Lists, AllApart, Linked;
    WordSectorWord(limit);
    WordSectorWord(t.metas[t.root].index);
    assert HeaderStored(d, limit, t.metas[t.root]);
    DecodeEncodeMeta(t.metas[t.root], Zeros(SECTOR - 24));
  }

  lemma LoneRoot(d: seq<Sector>, t: Tree)
    requires |d| >= FS_START_SECTOR + 1 && SECTOR * |d| <= 0x1_0000_0000
    requires t.metas == map[t.root := Meta(1, FS_START_SECTOR, 0, 0, 0, KIND_DIR)] && t.kids == map[t.root := []]
    requires t.parentOf == map[]
    requires d[BALLOC_SECTOR] == WordSector(FS_START_SECTOR + 1) && d[ROOT_INDEX_SECTOR] == WordSector(FS_START_SECTOR)
    requires d[FS_START_SECTOR] == EncodeMeta(Meta(1, FS_START_SECTOR, 0, 0, 0, KIND_DIR))
    ensures TreeOk(d, FS_START_SECTOR + 1, t) && Files(d, t) == map[]
  {
    hide EncodeMeta, WordSector;
    assert KidsOk(t, t.root, t.kids[t.root]);
    assert HeaderStored(d, FS_START_SECTOR + 1, t.metas[t.root]);
    assert Content(d, t.metas[t.root]) == [] == Encode(EntriesOf([], t.metas));
  }
}