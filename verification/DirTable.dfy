/** Directory contents (src/fs.c, childtable_*): packed records `name NUL index`,
    where a name is a NUL-free byte string and the index a 32-bit word. The byte
    encoding is specified as an ordered list of entries. */
module DirTable {
  import opened Bytes

  const SECTOR: nat := 512
  const MAX_NAME: nat := 256

  datatype Entry = Entry(name: seq<byte>, index: u32)

  predicate NulFree(s: seq<byte>) {
    forall i :: 0 <= i < |s| ==> s[i] != 0
  }

  ghost predicate EntriesOk(es: seq<Entry>) {
    forall k :: 0 <= k < |es| ==> NulFree(es[k].name)
  }

  function Record(e: Entry): (r: seq<byte>)
    ensures |r| == |e.name| + 5
  {
    e.name + [0] + Spell(e.index)
  }

  function Encode(es: seq<Entry>): seq<byte> {
    if es == [] then [] else Record(es[0]) + Encode(es[1..])
  }

  /** The bytes of one record are its name, a NUL, and four bytes that spell its index. */
  lemma RecordShape(e: Entry)
    ensures var r := Record(e);
            && r[..|e.name|] == e.name && r[|e.name|] == 0
            && WordAt(r, |e.name| + 1) == e.index
  {
    var r := Record(e);
    WordSpell(e.index);
    hide Spell, Word;
    assert r[|e.name| + 1..] == Spell(e.index);
    assert forall k :: 0 <= k < 4 ==> r[|e.name| + 1 + k] == Spell(e.index)[k];
  }

  lemma {:induction false} EncodeConcat(a: seq<Entry>, b: seq<Entry>)
    ensures Encode(a + b) == Encode(a) + Encode(b)
  {
    if a == [] {
      assert a + b == b;
    } else {
      assert (a + b)[1..] == a[1..] + b;
      EncodeConcat(a[1..], b);
      assert Encode(a + b) == Record(a[0]) + (Encode(a[1..]) + Encode(b));
    }
  }

  /** Where record k starts. */
  function Offset(es: seq<Entry>, k: nat): nat
    requires k <= |es|
  {
    |Encode(es[..k])|
  }

  /** The encoding around record k. */
  lemma EncodeAround(es: seq<Entry>, k: nat)
    requires k < |es|
    ensures Encode(es) == Encode(es[..k]) + Record(es[k]) + Encode(es[k + 1..])
    ensures Offset(es, k + 1) == Offset(es, k) + |Record(es[k])|
  {
    hide Record;
    assert es == es[..k] + es[k..];
    EncodeConcat(es[..k], es[k..]);
    assert es[k..][1..] == es[k + 1..];
    assert Encode(es[k..]) == Record(es[k]) + Encode(es[k + 1..]);
    OffsetStep(es, k);
  }

  lemma OffsetStep(es: seq<Entry>, k: nat)
    requires k < |es|
    ensures Offset(es, k + 1) == Offset(es, k) + |Record(es[k])|
  {
    hide Record;
    assert es[..k + 1] == es[..k] + [es[k]];
    EncodeConcat(es[..k], [es[k]]);
    assert [es[k]][1..] == [];
    assert Encode([es[k]]) == Record(es[k]) + Encode([]);
  }

  lemma EncodeOne(e: Entry)
    ensures Encode([e]) == Record(e)
  {
    assert [e][1..] == [];
    assert Encode([e]) == Record(e) + Encode([]);
  }

  lemma OffsetEnds(es: seq<Entry>)
    ensures Offset(es, 0) == 0 && Offset(es, |es|) == |Encode(es)|
  {
    assert es[..|es|] == es;
    assert es[..0] == [];
  }

  // ---------------------------------------------------------------- decoding

  /** Length of the C string at the front of `s`, or |s| if no NUL ends it. */
  function StrLen(s: seq<byte>): (n: nat)
    ensures n <= |s| && (forall i :: 0 <= i < n ==> s[i] != 0) && (n < |s| ==> s[n] == 0)
  {
    if s == [] || s[0] == 0 then 0 else 1 + StrLen(s[1..])
  }

  lemma StrLenIs(s: seq<byte>, n: nat)
    requires n < |s| && NulFree(s[..n]) && s[n] == 0
    ensures StrLen(s) == n
  {
    assert forall i :: 0 <= i < n ==> s[i] == s[..n][i];
  }

  /** The entries a packed byte string holds; a torn last record is dropped. */
  function Decode(s: seq<byte>): seq<Entry>
    decreases |s|
  {
    var n := StrLen(s);
    if |s| < n + 5 then [] else [Entry(s[..n], WordAt(s, n + 1))] + Decode(s[n + 5..])
  }

  /** Decoding inverts encoding, so a directory's bytes determine its entries. */
  lemma {:induction false} DecodeEncode(es: seq<Entry>)
    requires EntriesOk(es)
    ensures Decode(Encode(es)) == es
  {
    hide Record, WordAt, StrLen;
    if es != [] {
      RecordInFront(es[0], Encode(es[1..]));
      DecodeEncode(es[1..]);
    } else {
      DecodeNothing();
    }
  }

  lemma DecodeNothing()
    ensures Decode(Encode([])) == []
  {
  }

  /** A record is read off the front of what follows it. */
  lemma RecordInFront(e: Entry, more: seq<byte>)
    requires NulFree(e.name)
    ensures var s, n := Record(e) + more, |e.name|;
            |s| >= n + 5 && StrLen(s) == n && s[..n] == e.name && WordAt(s, n + 1) == e.index && s[n + 5..] == more
  {
    hide Word, Spell;
    var s, r, n := Record(e) + more, Record(e), |e.name|;
    RecordShape(e);
    assert s[..n] == r[..n] && s[n] == r[n];
    StrLenIs(s, n);
    assert forall i :: 0 <= i < n + 5 ==> s[i] == r[i];
  }

  /** What a reader finds at the start of record k: its name, ended by a NUL, its index, and the next record behind. */
  lemma ReadAtOffset(es: seq<Entry>, k: nat)
    requires EntriesOk(es) && k < |es|
    ensures var at, n := Offset(es, k), |es[k].name|;
            && at + n + 5 == Offset(es, k + 1) <= |Encode(es)|
            && StrLen(Encode(es)[at..]) == n && Encode(es)[at..][..n] == es[k].name
            && WordAt(Encode(es), at + n + 1) == es[k].index
  {
    hide Encode, Spell, Word;
    EncodeAround(es, k);
    RecordShape(es[k]);
    var s, at, n, r, post := Encode(es), Offset(es, k), |es[k].name|, Record(es[k]), Encode(es[k + 1..]);
    assert s == Encode(es[..k]) + (r + post);
    assert s[at..] == r + post;
    hide Record;
    assert s[at..][..n] == r[..n];
    assert forall i :: n < i < n + 5 ==> s[at + i] == r[i];
    StrLenIs(s[at..], n);
  }

  // ---------------------------------------------------------------- lookup

  /** Position of the first entry called `name`, or |es|. */
  function Find(es: seq<Entry>, name: seq<byte>): (k: nat)
    ensures k <= |es|
    ensures forall j :: 0 <= j < k ==> es[j].name != name
    ensures k < |es| ==> es[k].name == name
  {
    if es == [] || es[0].name == name then 0 else 1 + Find(es[1..], name)
  }

  /** The index an entry list gives a name; 0 stands for no entry. */
  function Lookup(es: seq<Entry>, name: seq<byte>): nat {
    var k := Find(es, name);
    if k == |es| then 0 else es[k].index
  }

  /** The entry list with the first entry called `name` pointing elsewhere. */
  function Redirect(es: seq<Entry>, name: seq<byte>, index: u32): seq<Entry> {
    var k := Find(es, name);
    if k == |es| then es else es[k := Entry(name, index)]
  }

  /** The entry list without the first entry called `name`. */
  function Drop(es: seq<Entry>, name: seq<byte>): seq<Entry> {
    var k := Find(es, name);
    if k == |es| then es else es[..k] + es[k + 1..]
  }

  /** Lookups after an edit: the edited name, if there is one, leads to the new index, other names where they led. */
  lemma LookupRedirect(es: seq<Entry>, name: seq<byte>, index: u32, other: seq<byte>)
    ensures Lookup(Redirect(es, name, index), other)
         == if other == name && Find(es, name) < |es| then index else Lookup(es, other)
  {
    var es' := Redirect(es, name, index);
    assert forall j :: 0 <= j < |es| ==> es'[j].name == es[j].name;
    assert Find(es', other) == Find(es, other);
  }

  /** Lookups after an addition at the end: older entries keep precedence. */
  lemma LookupAdd(es: seq<Entry>, name: seq<byte>, index: u32, other: seq<byte>)
    ensures Lookup(es + [Entry(name, index)], other)
         == if Find(es, other) < |es| then Lookup(es, other) else if other == name then index else 0
  {
    var es' := es + [Entry(name, index)];
    assert forall j :: 0 <= j < |es| ==> es'[j] == es[j];
    assert es'[|es|].name == name;
  }

  /** Lookups after a removal, when names are distinct. */
  lemma LookupDrop(es: seq<Entry>, name: seq<byte>, other: seq<byte>)
    requires forall i, j :: 0 <= i < j < |es| ==> es[i].name != es[j].name
    ensures Lookup(Drop(es, name), other) == if other == name then 0 else Lookup(es, other)
  {
    var es', k := Drop(es, name), Find(es, name);
    if k < |es| {
      assert forall j :: 0 <= j < k ==> es'[j] == es[j];
      assert forall j :: k <= j < |es'| ==> es'[j] == es[j + 1];
      var f := Find(es, other);
      if other != name && f < |es| {
        assert es'[if f < k then f else f - 1].name == other;
      }
    }
  }

  /** The first entry of that name is gone, the others stay in order; an edit changes that entry alone. */
  lemma DropRedirectAt(es: seq<Entry>, name: seq<byte>, index: u32, j: nat)
    requires j < |es|
    ensures var k := Find(es, name);
            && |Drop(es, name)| == (if k < |es| then |es| - 1 else |es|)
            && (j < k ==> Drop(es, name)[j] == es[j]) && (k < j ==> Drop(es, name)[j - 1] == es[j])
            && |Redirect(es, name, index)| == |es|
            && Redirect(es, name, index)[j] == if j == k then Entry(name, index) else es[j]
  {
  }

  /** Rewriting the index bytes of record k is replacing entry k. */
  lemma EditedBytes(es: seq<Entry>, k: nat, index: u32, before: seq<byte>, after: seq<byte>)
    requires k < |es| && before == Encode(es) && |after| == |before|
    requires var p := Offset(es, k) + |es[k].name| + 1;
             && p + 4 <= |before|
             && after[..p] == before[..p] && after[p + 4..] == before[p + 4..]
             && after[p..p + 4] == Spell(index)
    ensures after == Encode(es[k := Entry(es[k].name, index)])
  {
    hide Spell, Encode;
    var es' := es[k := Entry(es[k].name, index)];
    var pre, name, post := Encode(es[..k]), es[k].name, Encode(es[k + 1..]);
    assert es'[..k] == es[..k] && es'[k + 1..] == es[k + 1..];
    EncodeAround(es, k);
    EncodeAround(es', k);
    Regroup(pre, name, Spell(es[k].index), post);
    Regroup(pre, name, Spell(index), post);
    Overlaid(before, after, pre + (name + [0]), Spell(es[k].index), Spell(index), post);
  }

  /** Replacing the middle of three pieces by one as long. */
  lemma Overlaid(before: seq<byte>, after: seq<byte>, a: seq<byte>, b: seq<byte>, b': seq<byte>, c: seq<byte>)
    requires before == a + b + c && |b'| == |b| && |after| == |before|
    requires after[..|a|] == before[..|a|] && after[|a|..|a| + |b|] == b' && after[|a| + |b|..] == before[|a| + |b|..]
    ensures after == a + b' + c
  {
    Pieces(a, b, c);
    assert after == after[..|a|] + after[|a|..|a| + |b|] + after[|a| + |b|..];
  }

  lemma Pieces(a: seq<byte>, b: seq<byte>, c: seq<byte>)
    ensures (a + b + c)[..|a|] == a
    ensures (a + b + c)[|a|..|a| + |b|] == b
    ensures (a + b + c)[|a| + |b|..] == c
  {
  }

  lemma Regroup(pre: seq<byte>, name: seq<byte>, word: seq<byte>, post: seq<byte>)
    ensures pre + (name + [0] + word) + post == (pre + (name + [0])) + word + post
  {
  }

  /** A byte string with the bytes from `at` up to `next` taken out. */
  function Without(s: seq<byte>, at: nat, next: nat): seq<byte>
    requires at <= next <= |s|
  {
    s[..at] + s[next..]
  }

  lemma WithoutIs(s: seq<byte>, t: seq<byte>, at: nat, next: nat)
    requires at <= next <= |s| && |t| == |s| - (next - at)
    requires forall j :: 0 <= j < at ==> t[j] == s[j]
    requires forall j {:trigger t[j]} :: at <= j < |t| ==> t[j] == s[j + (next - at)]
    ensures t == Without(s, at, next)
  {
  }

  /** Taking a record's bytes out takes the entry out. */
  lemma {:induction false} DropBytes(es: seq<Entry>, name: seq<byte>)
    requires EntriesOk(es) && Find(es, name) < |es|
    ensures var at, s := Offset(es, Find(es, name)), Encode(es);
            at + |name| + 5 <= |s| && Without(s, at, at + |name| + 5) == Encode(Drop(es, name))
    ensures EntriesOk(Drop(es, name))
  {
    hide Encode, NulFree, Without, EntriesOk, Find, Offset;
    EntryBytes(es, Find(es, name));
    DropOk(es, name);
  }

  lemma {:induction false} EntryBytes(es: seq<Entry>, k: nat)
    requires k < |es|
    ensures var at, n := Offset(es, k), |es[k].name| + 5;
            at + n <= |Encode(es)| && Without(Encode(es), at, at + n) == Encode(es[..k] + es[k + 1..])
  {
    hide Encode, Record, Without;
    EncodeAround(es, k);
    RecordLength(es[k]);
    WithoutMiddle(Encode(es[..k]), Record(es[k]), Encode(es[k + 1..]));
    EncodeConcat(es[..k], es[k + 1..]);
  }

  lemma WithoutMiddle(a: seq<byte>, b: seq<byte>, c: seq<byte>)
    ensures Without(a + b + c, |a|, |a| + |b|) == a + c
  {
  }

  lemma {:induction false} DropOk(es: seq<Entry>, name: seq<byte>)
    requires EntriesOk(es)
    ensures EntriesOk(Drop(es, name))
  {
  }

  lemma NameThere(s: seq<byte>, at: nat, n: nat, name: seq<byte>)
    requires at <= |s| && StrLen(s[at..]) == n < |s| - at && s[at..][..n] == name
    ensures s[at + n] == 0 && forall j :: at <= j < at + n ==> s[j] == name[j - at] != 0
  {
    assert forall j :: at <= j < at + n ==> s[j] == s[at..][j - at];
  }

  /** An entry's bytes behind those of others. */
  lemma {:induction false} AddBytes(es: seq<Entry>, e: Entry)
    requires EntriesOk(es) && NulFree(e.name)
    ensures Encode(es) + Record(e) == Encode(es + [e]) && EntriesOk(es + [e])
  {
    EncodeConcat(es, [e]);
    EncodeOne(e);
  }

  lemma RecordLength(e: Entry)
    ensures |Record(e)| == |e.name| + 5
  {
  }

  class ChildTable {
    var ptr: array<byte>
    var size: nat
    var sectors: nat

    /** The buffer has room for every sector the table claims, and at least one. */
    ghost predicate Valid()
      reads this
    {
      && ptr.Length >= SECTOR * (if sectors == 0 then 1 else sectors)
      && size <= SECTOR * sectors
    }

    /** The table holds exactly these entries. */
    ghost predicate Holds(es: seq<Entry>)
      reads this, ptr
    {
      Valid() && EntriesOk(es) && ptr[..size] == Encode(es)
    }

    /** A table over a copy of a directory's bytes. */
    constructor (bytes: seq<byte>, sectors: nat)
      requires |bytes| <= SECTOR * sectors
      ensures Valid() && fresh(ptr) && size == |bytes| && this.sectors == sectors && ptr[..size] == bytes
    {
      this.sectors := sectors;
      size := |bytes|;
      ptr := new byte[SECTOR * (if sectors == 0 then 1 else sectors)]
        (i requires 0 <= i < SECTOR * (if sectors == 0 then 1 else sectors) => if i < |bytes| then bytes[i] else 0);
    }

    /** A C string of length n lies at offset `at`. */
    ghost predicate StringAt(at: nat, n: nat)
      reads this, ptr
    {
      at + n < ptr.Length && ptr[at + n] == 0 && forall i :: at <= i < at + n ==> ptr[i] != 0
    }

    /** strlen at offset `at`. */
    method NameLength(at: nat, ghost n: nat) returns (len: nat)
      requires StringAt(at, n)
      ensures len == n
    {
      len := 0;
      while ptr[at + len] != 0
        invariant len <= n
        decreases n - len
      {
        len := len + 1;
      }
    }

    /** strcmp at offset `at`, for equality. */
    method NameEquals(at: nat, name: seq<byte>, ghost n: nat) returns (same: bool)
      requires StringAt(at, n) && NulFree(name)
      ensures same <==> ptr[at..at + n] == name
    {
      var i := 0;
      while i < |name| && ptr[at + i] != 0 && ptr[at + i] == name[i]
        invariant i <= n && i <= |name|
        invariant forall j :: 0 <= j < i ==> ptr[at + j] == name[j]
      {
        i := i + 1;
      }
      same := i == |name| && ptr[at + i] == 0;
      ghost var held := ptr[at..at + n];
      assert forall j :: 0 <= j < n ==> held[j] == ptr[at + j];
    }

    /** childtable_find: walks the records; -1 stands for NULL. */
    method FindRecord(name: seq<byte>, ghost es: seq<Entry>) returns (at: int)
      requires Holds(es) && NulFree(name)
      ensures var k := Find(es, name);
              at == if k == |es| then -1 else Offset(es, k)
    {
      at := 0;
      ghost var k := 0;
      OffsetEnds(es);
      while at < size
        invariant 0 <= k <= |es| && at == Offset(es, k)
        invariant forall j :: 0 <= j < k ==> es[j].name != name
        decreases |es| - k
      {
        RecordAt(es, k);
        var here := NameEquals(at, name, |es[k].name|);
        if here {
          return;
        }
        var len := NameLength(at, |es[k].name|);
        at := at + len + 5;
        k := k + 1;
      }
      if k < |es| {
        EncodeAround(es, k);
      }
      at := -1;
    }

    /** childtable_get: the index of the first record called `name`, or 0. */
    method Get(name: seq<byte>, ghost es: seq<Entry>) returns (index: nat)
      requires Holds(es) && NulFree(name)
      ensures index == Lookup(es, name)
    {
      var at := FindRecord(name, es);
      if at == -1 {
        return 0;
      }
      ghost var k := Find(es, name);
      EncodeAround(es, k);
      RecordAt(es, k);
      var p := at + |name| + 1;
      index := Word(ptr[p], ptr[p + 1], ptr[p + 2], ptr[p + 3]);
    }

    /** childtable_add: one extra sector is always enough, whatever the name. */
    method Add(name: seq<byte>, index: u32, ghost es: seq<Entry>)
      requires Holds(es) && NulFree(name) && |name| <= MAX_NAME
      modifies this, ptr
      ensures Holds(es + [Entry(name, index)])
      ensures ptr == old(ptr) || fresh(ptr)
      ensures sectors == if old(size) + |name| + 5 > SECTOR * old(sectors) then old(sectors) + 1 else old(sectors)
    {
      hide Spell, Encode, Record, EntriesOk;
      var newSize := size + 4 + |name| + 1;
      if newSize > sectors * SECTOR {
        sectors := sectors + 1;
        var buffer := new byte[sectors * SECTOR](_ => 0);
        var i := 0;
        while i < size
          invariant 0 <= i <= size
          invariant forall j :: 0 <= j < i ==> buffer[j] == ptr[j]
          modifies buffer
        {
          buffer[i] := ptr[i];
          i := i + 1;
        }
        assert buffer[..size] == ptr[..size];
        ptr := buffer;
      }
      PutRecord(name, index);
      AddBytes(es, Entry(name, index));
    }

    /** Writes a record behind the last one. */
    method PutRecord(name: seq<byte>, index: u32)
      requires size + |name| + 5 <= ptr.Length
      modifies `size, ptr
      ensures size == old(size) + |name| + 5
      ensures ptr[..size] == old(ptr[..size]) + Record(Entry(name, index))
    {
      hide Spell;
      var end := size;
      PutName(name);
      ghost var named := ptr[..end + |name| + 1];
      var p := end + |name| + 1;
      SetWord(p, index);
      size := p + 4;
      assert ptr[..p] == named;
      assert ptr[..size] == ptr[..p] + ptr[p..p + 4];
      assert (old(ptr[..size]) + (name + [0])) + Spell(index) == old(ptr[..size]) + (name + [0] + Spell(index));
    }

    method PutName(name: seq<byte>)
      requires size + |name| + 1 <= ptr.Length
      modifies ptr
      ensures ptr[..size + |name| + 1] == old(ptr[..size]) + (name + [0])
    {
      var i := 0;
      while i < |name|
        invariant 0 <= i <= |name|
        invariant forall j :: 0 <= j < size ==> ptr[j] == old(ptr[j])
        invariant forall j :: 0 <= j < i ==> ptr[size + j] == name[j]
      {
        ptr[size + i] := name[i];
        i := i + 1;
      }
      ptr[size + |name|] := 0;
    }

    method SetWord(p: nat, v: u32)
      requires p + 4 <= ptr.Length
      modifies ptr
      ensures ptr[p..p + 4] == Spell(v)
      ensures forall i :: 0 <= i < ptr.Length && !(p <= i < p + 4) ==> ptr[i] == old(ptr[i])
    {
      var s := Spell(v);
      hide Spell;
      ptr[p], ptr[p + 1], ptr[p + 2], ptr[p + 3] := s[0], s[1], s[2], s[3];
    }

    /** childtable_edit_index: rewrites four bytes of the first record called `name`. */
    method EditIndex(name: seq<byte>, index: u32, ghost es: seq<Entry>)
      requires Holds(es) && NulFree(name)
      modifies ptr
      ensures Holds(Redirect(es, name, index))
    {
      hide Spell, Encode, Record, Word;
      var at := FindRecord(name, es);
      if at == -1 {
        return;
      }
      ghost var k := Find(es, name);
      EncodeAround(es, k);
      RecordAt(es, k);
      var p := at + |name| + 1;
      ghost var before := ptr[..size];
      SetWord(p, index);
      assert ptr[..size][p..p + 4] == ptr[p..p + 4];
      EditedBytes(es, k, index, before, ptr[..size]);
    }

    /** childtable_remove: closes the gap over the first record called `name`. */
    method Remove(name: seq<byte>, ghost es: seq<Entry>)
      requires Holds(es) && NulFree(name)
      modifies this, ptr
      ensures ptr == old(ptr) && Holds(Drop(es, name))
      ensures sectors == if Find(es, name) < |es| && old(size) - |name| - 5 <= SECTOR * (old(sectors) - 1)
                         then old(sectors) - 1 else old(sectors)
    {
      hide Spell, Encode, Record, Word;
      var at := FindRecord(name, es);
      if at == -1 {
        return;
      }
      DropBytes(es, name);
      CloseGap(at, at + |name| + 5);
      var newSize := size - |name| - 5;
      if newSize <= (sectors - 1) * SECTOR {
        sectors := sectors - 1;
      }
      size := newSize;
    }

    /** memcpy of the records from `next` on down to `at`. */
    method CloseGap(at: nat, next: nat)
      requires at <= next <= size <= ptr.Length
      modifies ptr
      ensures ptr[..at + (size - next)] == Without(old(ptr[..size]), at, next)
    {
      hide Without;
      ghost var before := ptr[..size];
      var gap := next - at;
      var i := at;
      while i + gap < size
        invariant at <= i <= size - gap
        invariant forall j {:trigger ptr[j]} :: 0 <= j < at || i <= j < size ==> ptr[j] == before[j]
        invariant forall j {:trigger ptr[j]} :: at <= j < i ==> ptr[j] == before[j + gap]
        modifies ptr
      {
        ptr[i] := ptr[i + gap];
        i := i + 1;
      }
      WithoutIs(before, ptr[..size - gap], at, next);
    }

    /** childtable_edit_name: remove under the old name, add under the new one. */
    method EditName(name: seq<byte>, to: seq<byte>, ghost es: seq<Entry>)
      requires Holds(es) && NulFree(name) && NulFree(to) && |to| <= MAX_NAME
      modifies this, ptr
      ensures Lookup(es, name) == 0 ==> Holds(es)
      ensures Lookup(es, name) != 0 ==> Holds(Drop(es, name) + [Entry(to, Lookup(es, name))])
    {
      var index := Get(name, es);
      if index == 0 {
        return;
      }
      Remove(name, es);
      Add(to, index, Drop(es, name));
    }

    /** What the buffer holds where record k starts. */
    lemma RecordAt(es: seq<Entry>, k: nat)
      requires Holds(es) && k <= |es| && Offset(es, k) < size
      ensures k < |es|
      ensures var at, n := Offset(es, k), |es[k].name|;
              && at + n + 5 <= size && ptr[at..at + n] == es[k].name && StringAt(at, n)
              && Word(ptr[at + n + 1], ptr[at + n + 2], ptr[at + n + 3], ptr[at + n + 4]) == es[k].index
              && Offset(es, k + 1) == at + n + 5
    {
      hide Word, Encode, Offset, EntriesOk, StrLen;
      OffsetEnds(es);
      ReadAtOffset(es, k);
      var s, at, n := ptr[..size], Offset(es, k), |es[k].name|;
      NameThere(s, at, n, es[k].name);
      assert ptr[at..at + n] == s[at..][..n];
    }
  }
}
