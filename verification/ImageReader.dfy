/** fscan.js: parsing a disk image back into a tree. The reader is described on arbitrary byte strings,
    exceptions and the one endless loop included; on the image of a tree it gives back that tree. */
module ImageReader {
  import opened Bytes
  import opened DirTable
  import opened Disk
  import opened InodeHeader
  import opened ImageTree

  // ---------------------------------------------------------------- Buffer operations

  /** readInt32LE: the word as a signed number. */
  function SignedAt(s: seq<byte>, at: nat): (v: int)
    requires at + 4 <= |s|
    ensures -0x8000_0000 <= v < 0x8000_0000 && (v - WordAt(s, at)) % 0x1_0000_0000 == 0
  {
    var w := WordAt(s, at);
    if w >= 0x8000_0000 then w - 0x1_0000_0000 else w
  }

  /** Where a slice bound ends up: negative bounds count from the end, and all are clamped. */
  function Clamp(n: nat, x: int): (r: nat)
    ensures r <= n
  {
    if x < 0 then (if n + x < 0 then 0 else n + x) else if x > n then n else x
  }

  function JsSlice(s: seq<byte>, from: int, to: int): seq<byte> {
    var a, b := Clamp(|s|, from), Clamp(|s|, to);
    if a <= b then s[a..b] else []
  }

  // ---------------------------------------------------------------- readh

  const HEADER_INVALID: nat := 4
  const INVALID_CHILD_NAME: nat := 1
  const HEADER_FORMAT_VALIDITY: nat := 7

  datatype Head = Head(index: int, validity: int, isDir: bool, size: int, alloc: int, children: int)
  datatype HeadResult = HeadOk(head: Head) | HeadBad | HeadThrown

  function ReadH(buffer: seq<byte>, idx: int): HeadResult {
    var content := JsSlice(buffer, idx * SECTOR, (idx + 1) * SECTOR);
    if |content| < 4 then HeadThrown
    else if SignedAt(content, 0) != 1 && SignedAt(content, 0) != 0 then HeadBad
    else if |content| < 24 then HeadThrown
    else HeadOk(Head(SignedAt(content, 4), SignedAt(content, 0), SignedAt(content, 20) == 1,
                     SignedAt(content, 8), SignedAt(content, 12), SignedAt(content, 16)))
  }

  // ---------------------------------------------------------------- readch

  datatype Child = Child(name: seq<byte>, idx: int)
  datatype ChildrenResult = ChildrenOk(children: seq<Child>) | ChildrenBad | ChildrenThrown | ChildrenEndless
  datatype NameResult = NameOkAt(name: seq<byte>, ptr: int) | NameEndless

  /** The inner loop: characters up to a NUL. In front of the buffer it reads undefined, which becomes
      character 0; past the end it does so forever. */
  function ReadName(buffer: seq<byte>, ptr: int, name: seq<byte>): NameResult
    decreases |buffer| - ptr
  {
    if ptr >= |buffer| then NameEndless
    else if ptr < 0 then ReadName(buffer, ptr + 1, name + [0])
    else if buffer[ptr] == 0 then NameOkAt(name, ptr + 1)
    else ReadName(buffer, ptr + 1, name + [buffer[ptr]])
  }

  lemma ReadNameAdvances(buffer: seq<byte>, ptr: int, name: seq<byte>)
    ensures ReadName(buffer, ptr, name).NameOkAt? ==> ptr < ReadName(buffer, ptr, name).ptr <= |buffer|
    decreases |buffer| - ptr
  {
  }

  function ChildrenFrom(buffer: seq<byte>, ptr: int, end: int): ChildrenResult
    decreases end - ptr
  {
    if ptr >= end then (if ptr > end then ChildrenBad else ChildrenOk([]))
    else match ReadName(buffer, ptr, [])
      case NameEndless => ChildrenEndless
      case NameOkAt(name, p) =>
        ReadNameAdvances(buffer, ptr, []);
        if name == [] then ChildrenBad
        else if p < 0 || p + 4 > |buffer| then ChildrenThrown
        else Prepend([Child(name, SignedAt(buffer, p))], ChildrenFrom(buffer, p + 4, end))
  }

  function Prepend(front: seq<Child>, r: ChildrenResult): ChildrenResult {
    if r.ChildrenOk? then ChildrenOk(front + r.children) else r
  }

  method ReadCh(buffer: seq<byte>, idx: int, size: int) returns (r: ChildrenResult)
    ensures r == ChildrenFrom(buffer, idx * SECTOR, idx * SECTOR + size)
  {
    hide ChildrenFrom, ReadName, Prepend, SignedAt;
    var children := [];
    var end := idx * SECTOR + size;
    var ptr := idx * SECTOR;
    PrependNothing(ChildrenFrom(buffer, ptr, end));
    while ptr < end
      invariant Prepend(children, ChildrenFrom(buffer, ptr, end)) == ChildrenFrom(buffer, idx * SECTOR, end)
      decreases end - ptr
    {
      ghost var first := ptr;
      var name: seq<byte> := [];
      var ended := false;
      ChildrenUnfold(buffer, first, end);
      PrependBad(children);
      while !ended
        invariant first <= ptr
        invariant ended ==> first < ptr && ReadName(buffer, first, []) == NameOkAt(name, ptr)
        invariant !ended ==> ReadName(buffer, first, []) == ReadName(buffer, ptr, name)
        decreases |buffer| - ptr, !ended
      {
        ReadNameStep(buffer, ptr, name);
        if ptr >= |buffer| {
          return ChildrenEndless;
        }
        if ptr >= 0 && buffer[ptr] == 0 {
          ended := true;
        } else {
          name := name + [if ptr < 0 then 0 else buffer[ptr]];
        }
        ptr := ptr + 1;
      }
      if name == [] {
        return ChildrenBad;
      }
      if ptr < 0 || ptr + 4 > |buffer| {
        return ChildrenThrown;
      }
      PrependTwice(children, [Child(name, SignedAt(buffer, ptr))], ChildrenFrom(buffer, ptr + 4, end));
      children := children + [Child(name, SignedAt(buffer, ptr))];
      ptr := ptr + 4;
    }
    ChildrenUnfold(buffer, ptr, end);
    PrependBad(children);
    if ptr > end {
      return ChildrenBad;
    }
    return ChildrenOk(children);
  }

  lemma ReadNameStep(buffer: seq<byte>, ptr: int, name: seq<byte>)
    ensures ReadName(buffer, ptr, name) ==
      if ptr >= |buffer| then NameEndless
      else if ptr < 0 then ReadName(buffer, ptr + 1, name + [0])
      else if buffer[ptr] == 0 then NameOkAt(name, ptr + 1)
      else ReadName(buffer, ptr + 1, name + [buffer[ptr]])
  {
  }

  lemma ChildrenUnfold(buffer: seq<byte>, ptr: int, end: int)
    ensures ptr >= end ==> ChildrenFrom(buffer, ptr, end) == if ptr > end then ChildrenBad else ChildrenOk([])
    ensures ptr < end && ReadName(buffer, ptr, []) == NameEndless ==> ChildrenFrom(buffer, ptr, end) == ChildrenEndless
    ensures ptr < end && ReadName(buffer, ptr, []).NameOkAt? ==>
      var (name, p) := (ReadName(buffer, ptr, []).name, ReadName(buffer, ptr, []).ptr);
      ChildrenFrom(buffer, ptr, end) ==
        if name == [] then ChildrenBad
        else if p < 0 || p + 4 > |buffer| then ChildrenThrown
        else Prepend([Child(name, SignedAt(buffer, p))], ChildrenFrom(buffer, p + 4, end))
  {
    hide ReadName, SignedAt, Prepend;
    ReadNameAdvances(buffer, ptr, []);
  }

  lemma PrependBad(front: seq<Child>)
    ensures Prepend(front, ChildrenBad) == ChildrenBad && Prepend(front, ChildrenEndless) == ChildrenEndless
    ensures Prepend(front, ChildrenThrown) == ChildrenThrown && Prepend(front, ChildrenOk([])) == ChildrenOk(front)
  {
    assert front + [] == front;
  }

  lemma PrependNothing(r: ChildrenResult)
    ensures Prepend([], r) == r
  {
    if r.ChildrenOk? {
      assert [] + r.children == r.children;
    }
  }

  lemma PrependTwice(a: seq<Child>, b: seq<Child>, r: ChildrenResult)
    ensures Prepend(a, Prepend(b, r)) == Prepend(a + b, r)
  {
    if r.ChildrenOk? {
      assert a + (b + r.children) == a + b + r.children;
    }
  }

  // ---------------------------------------------------------------- readn

  datatype Report = Report(error: nat, path: seq<byte>)
  datatype Outcome = Node(tree: Tree) | Failed(report: Report) | Thrown | Endless
  datatype Option<T> = None | Some(value: T)

  /** dir[name] = node: an existing property is overwritten, a new one goes last. */
  function Assign(ks: Kids, name: seq<byte>, node: Tree): Kids {
    match ks
    case NoKids => Kid(name, node, NoKids)
    case Kid(n, t, rest) => if n == name then Kid(n, node, rest) else Kid(n, t, Assign(rest, name, node))
  }

  const SLASH: byte := 47

  /** readn: what it returns and what it adds to the error list. `depth` is how many more calls the
      stack can take; a call beyond that throws. */
  function ReadNode(buffer: seq<byte>, idx: int, path: seq<byte>, depth: nat): (Outcome, seq<Report>)
    decreases depth, 0, 0
  {
    if depth == 0 then (Thrown, [])
    else match ReadH(buffer, idx)
      case HeadThrown => (Thrown, [])
      case HeadBad => Fails(HEADER_FORMAT_VALIDITY, path)
      case HeadOk(h) =>
        if h.validity == 0 then Fails(HEADER_INVALID, path)
        else if h.isDir then
          match ChildrenFrom(buffer, (idx + 1) * SECTOR, (idx + 1) * SECTOR + h.size)
          case ChildrenThrown => (Thrown, [])
          case ChildrenEndless => (Endless, [])
          case ChildrenBad => Fails(INVALID_CHILD_NAME, path)
          case ChildrenOk(children) => ReadAll(buffer, children, path, depth - 1, NoKids, None)
        else (Node(File(JsSlice(buffer, (idx + 1) * SECTOR, (idx + 1) * SECTOR + h.size))), [])
  }

  function Fails(error: nat, path: seq<byte>): (Outcome, seq<Report>) {
    (Failed(Report(error, path)), [Report(error, path)])
  }

  /** The loop over the children; the last failure, if any, is what the directory fails with. */
  function ReadAll(buffer: seq<byte>, children: seq<Child>, path: seq<byte>, depth: nat, dir: Kids,
                   ret: Option<Report>): (Outcome, seq<Report>)
    decreases depth, 1, |children|
  {
    if children == [] then (if ret.Some? then Failed(ret.value) else Node(Dir(dir)), [])
    else
      var c := children[0];
      var (o, errs) := ReadNode(buffer, c.idx, path + [SLASH] + c.name, depth);
      match o
      case Thrown => (Thrown, errs)
      case Endless => (Endless, errs)
      case Failed(report) =>
        var (o', errs') := ReadAll(buffer, children[1..], path, depth, dir, Some(report));
        (o', errs + errs')
      case Node(t) =>
        var (o', errs') := ReadAll(buffer, children[1..], path, depth, Assign(dir, c.name, t), ret);
        (o', errs + errs')
  }

  lemma ReadAllStep(buffer: seq<byte>, children: seq<Child>, i: nat, path: seq<byte>, depth: nat, dir: Kids,
                    ret: Option<Report>)
    requires i < |children|
    ensures var (o, errs) := ReadNode(buffer, children[i].idx, path + [SLASH] + children[i].name, depth);
            ReadAll(buffer, children[i..], path, depth, dir, ret) ==
              if o.Thrown? || o.Endless? then (o, errs)
              else
                var dir' := if o.Node? then Assign(dir, children[i].name, o.tree) else dir;
                var ret' := if o.Failed? then Some(o.report) else ret;
                var (o', errs') := ReadAll(buffer, children[i + 1..], path, depth, dir', ret');
                (o', errs + errs')
  {
    assert children[i..][0] == children[i] && children[i..][1..] == children[i + 1..];
    hide ReadNode;
  }

  lemma ReadAllEnd(buffer: seq<byte>, path: seq<byte>, depth: nat, dir: Kids, ret: Option<Report>)
    ensures ReadAll(buffer, [], path, depth, dir, ret) == (if ret.Some? then Failed(ret.value) else Node(Dir(dir)), [])
  {
  }

  class Reader {
    const buffer: seq<byte>
    var errorlist: seq<Report>

    constructor (buffer: seq<byte>)
      ensures this.buffer == buffer && errorlist == []
    {
      this.buffer := buffer;
      errorlist := [];
    }

    method ReadN(idx: int, path: seq<byte>, depth: nat) returns (o: Outcome)
      modifies this
      ensures o == ReadNode(buffer, idx, path, depth).0
      ensures errorlist == old(errorlist) + ReadNode(buffer, idx, path, depth).1
      decreases depth, 0
    {
      hide ReadAll, ReadH, ChildrenFrom, JsSlice;
      if depth == 0 {
        return Thrown;
      }
      var h := ReadH(buffer, idx);
      if h.HeadThrown? {
        return Thrown;
      }
      if h.HeadBad? {
        errorlist := errorlist + [Report(HEADER_FORMAT_VALIDITY, path)];
        return Failed(Report(HEADER_FORMAT_VALIDITY, path));
      }
      if h.head.validity == 0 {
        errorlist := errorlist + [Report(HEADER_INVALID, path)];
        return Failed(Report(HEADER_INVALID, path));
      }
      if !h.head.isDir {
        var beg := (idx + 1) * SECTOR;
        return Node(File(JsSlice(buffer, beg, beg + h.head.size)));
      }
      var r := ReadCh(buffer, idx + 1, h.head.size);
      match r {
        case ChildrenThrown => return Thrown;
        case ChildrenEndless => return Endless;
        case ChildrenBad =>
          errorlist := errorlist + [Report(INVALID_CHILD_NAME, path)];
          return Failed(Report(INVALID_CHILD_NAME, path));
        case ChildrenOk(children) =>
          o := ReadKidsLoop(children, path, depth - 1);
      }
    }

    method ReadKidsLoop(children: seq<Child>, path: seq<byte>, depth: nat) returns (o: Outcome)
      modifies this
      ensures o == ReadAll(buffer, children, path, depth, NoKids, None).0
      ensures errorlist == old(errorlist) + ReadAll(buffer, children, path, depth, NoKids, None).1
      decreases depth, 1
    {
      hide ReadNode, ReadAll;
      var dir, ret := NoKids, None;
      var i := 0;
      ghost var whole, before := ReadAll(buffer, children, path, depth, NoKids, None), errorlist;
      ghost var seen: seq<Report> := [];
      assert children[0..] == children && seen + whole.1 == whole.1;
      while i < |children|
        invariant 0 <= i <= |children|
        invariant errorlist == before + seen
        invariant var rest := ReadAll(buffer, children[i..], path, depth, dir, ret);
                  whole == (rest.0, seen + rest.1)
      {
        var c := children[i];
        ghost var step := ReadNode(buffer, c.idx, path + [SLASH] + c.name, depth);
        ReadAllStep(buffer, children, i, path, depth, dir, ret);
        o := ReadN(c.idx, path + [SLASH] + c.name, depth);
        ghost var seenBefore := seen;
        seen := seen + step.1;
        match o {
          case Thrown => return;
          case Endless => return;
          case Failed(report) => ret := Some(report);
          case Node(t) => dir := Assign(dir, c.name, t);
        }
        ghost var after := ReadAll(buffer, children[i + 1..], path, depth, dir, ret);
        assert seen + after.1 == seenBefore + (step.1 + after.1);
        i := i + 1;
      }
      assert children[i..] == [];
      ReadAllEnd(buffer, path, depth, dir, ret);
      o := if ret.Some? then Failed(ret.value) else Node(Dir(dir));
    }
  }
}
