/** What fscan.js makes of any byte string, told by the bytes alone: which records a table has, which nodes are
    reached along which names, which of them are at fault, and from that what is returned and reported. */
module ImageVerdict {
  import opened Bytes
  import opened DirTable
  import opened ImageReader
  import opened ImageTree
  import opened Sequences

  // ---------------------------------------------------------------- the records of a table

  /** The characters of a name: no NUL but those read in front of the buffer. */
  predicate NameAt(buffer: seq<byte>, ptr: int, name: seq<byte>) {
    && ptr + |name| <= |buffer|
    && forall k {:trigger name[k]} :: 0 <= k < |name| ==>
         if ptr + k < 0 then name[k] == 0 else buffer[ptr + k] == name[k] && name[k] != 0
  }

  /** The name ends there with a NUL. */
  predicate NamedTo(buffer: seq<byte>, ptr: int, name: seq<byte>) {
    NameAt(buffer, ptr, name) && 0 <= ptr + |name| < |buffer| && buffer[ptr + |name|] == 0
  }

  predicate NulFreeFrom(buffer: seq<byte>, ptr: int) {
    forall k {:trigger buffer[k]} :: 0 <= k < |buffer| && ptr <= k ==> buffer[k] != 0
  }

  lemma {:induction false} ReadNameExactly(buffer: seq<byte>, ptr: int, front: seq<byte>)
    ensures var r := ReadName(buffer, ptr, front);
            if r.NameOkAt? then
              front <= r.name && NamedTo(buffer, ptr, r.name[|front|..]) && r.ptr == ptr + |r.name| - |front| + 1
            else NulFreeFrom(buffer, ptr)
    decreases |buffer| - ptr
  {
    if ptr < |buffer| && !(ptr >= 0 && buffer[ptr] == 0) {
      var c := if ptr < 0 then 0 else buffer[ptr];
      ReadNameExactly(buffer, ptr + 1, front + [c]);
      var r := ReadName(buffer, ptr + 1, front + [c]);
      if r.NameOkAt? {
        assert r.name[|front|] == c && r.name[|front|..] == [c] + r.name[|front| + 1..];
      }
    }
  }

  lemma InName(buffer: seq<byte>, ptr: int, name: seq<byte>, k: nat)
    requires NameAt(buffer, ptr, name) && k < |name| && 0 <= ptr + k
    ensures buffer[ptr + k] != 0
  {
    assert name[k] != 0;
  }

  /** No two names can be read in one place. */
  lemma NameUnique(buffer: seq<byte>, ptr: int, name: seq<byte>, name': seq<byte>)
    requires NamedTo(buffer, ptr, name)
    ensures NamedTo(buffer, ptr, name') ==> name' == name
    ensures !NulFreeFrom(buffer, ptr)
  {
    if NamedTo(buffer, ptr, name') {
      if |name| < |name'| {
        InName(buffer, ptr, name', |name|);
      } else if |name'| < |name| {
        InName(buffer, ptr, name, |name'|);
      } else {
        assert forall k :: 0 <= k < |name| ==> name[k] == name'[k];
      }
    }
  }

  /** A record: a name that is not empty, its NUL, and an index. */
  predicate RecordAt(buffer: seq<byte>, ptr: int, c: Child) {
    && c.name != [] && NamedTo(buffer, ptr, c.name) && ptr + |c.name| + 5 <= |buffer|
    && c.idx == SignedAt(buffer, ptr + |c.name| + 1)
  }

  /** The records from `ptr` to `q`, each of which starts in front of `end`. */
  predicate Records(buffer: seq<byte>, ptr: int, end: int, cs: seq<Child>, q: int)
    decreases |cs|
  {
    if cs == [] then q == ptr
    else
      ptr < end && RecordAt(buffer, ptr, cs[0]) && Records(buffer, ptr + |cs[0].name| + 5, end, cs[1..], q)
  }

  /** No name, or more than the table holds. */
  predicate BadAt(buffer: seq<byte>, q: int, end: int) {
    q > end || (q < end && 0 <= q < |buffer| && buffer[q] == 0)
  }

  /** A name without the room for an index behind it. */
  ghost predicate CutAt(buffer: seq<byte>, q: int, end: int) {
    q < end && exists name :: name != [] && NamedTo(buffer, q, name) && q + |name| + 5 > |buffer|
  }

  predicate EndlessAt(buffer: seq<byte>, q: int, end: int) {
    q < end && NulFreeFrom(buffer, q)
  }

  lemma {:induction false} RecordsRead(buffer: seq<byte>, ptr: int, end: int, cs: seq<Child>, q: int)
    requires Records(buffer, ptr, end, cs, q)
    ensures ChildrenFrom(buffer, ptr, end) == Prepend(cs, ChildrenFrom(buffer, q, end))
    decreases |cs|
  {
    hide ReadName, SignedAt, NameAt, ChildrenFrom;
    if cs == [] {
      PrependNothing(ChildrenFrom(buffer, q, end));
    } else {
      var c, p := cs[0], ptr + |cs[0].name| + 5;
      ReadNameExactly(buffer, ptr, []);
      var r := ReadName(buffer, ptr, []);
      if r.NameOkAt? {
        assert r.name[0..] == r.name;
        NameUnique(buffer, ptr, c.name, r.name);
      } else {
        NameUnique(buffer, ptr, c.name, c.name);
      }
      ChildrenUnfold(buffer, ptr, end);
      RecordsRead(buffer, p, end, cs[1..], q);
      PrependTwice([c], cs[1..], ChildrenFrom(buffer, q, end));
      assert [c] + cs[1..] == cs;
    }
  }

  /** What ends the scan. */
  lemma ScanEnds(buffer: seq<byte>, q: int, end: int)
    ensures q == end ==> ChildrenFrom(buffer, q, end) == ChildrenOk([])
    ensures BadAt(buffer, q, end) ==> ChildrenFrom(buffer, q, end) == ChildrenBad
    ensures CutAt(buffer, q, end) ==> ChildrenFrom(buffer, q, end) == ChildrenThrown
    ensures EndlessAt(buffer, q, end) ==> ChildrenFrom(buffer, q, end) == ChildrenEndless
    ensures q == end || BadAt(buffer, q, end) || CutAt(buffer, q, end) || EndlessAt(buffer, q, end)
              || exists c :: RecordAt(buffer, q, c) && q < end
  {
    hide ReadName, SignedAt, ChildrenFrom, NameAt;
    ChildrenUnfold(buffer, q, end);
    ReadNameExactly(buffer, q, []);
    forall name | NamedTo(buffer, q, name)
      ensures !NulFreeFrom(buffer, q)
    {
      NameUnique(buffer, q, name, name);
    }
    var r := ReadName(buffer, q, []);
    if r.NameOkAt? {
      assert r.name[0..] == r.name;
      NameUnique(buffer, q, r.name, r.name);
      if q < end {
        StopAtName(buffer, q, end, r.name);
      }
    }
  }

  lemma StopAtName(buffer: seq<byte>, q: int, end: int, name: seq<byte>)
    requires NamedTo(buffer, q, name) && q < end
    ensures BadAt(buffer, q, end) <==> name == []
    ensures CutAt(buffer, q, end) <==> name != [] && q + |name| + 5 > |buffer|
    ensures name != [] && q + |name| + 5 <= |buffer| ==>
              RecordAt(buffer, q, Child(name, SignedAt(buffer, q + |name| + 1)))
  {
    forall name' | NamedTo(buffer, q, name')
      ensures name' == name
    {
      NameUnique(buffer, q, name, name');
    }
    if name != [] && 0 <= q < |buffer| {
      assert name[0] != 0;
    }
  }

  /** Any scan goes through records up to the end of the table or to what stops it. */
  lemma {:induction false} Scanned(buffer: seq<byte>, ptr: int, end: int) returns (cs: seq<Child>, q: int)
    ensures Records(buffer, ptr, end, cs, q)
    ensures q == end || BadAt(buffer, q, end) || CutAt(buffer, q, end) || EndlessAt(buffer, q, end)
    decreases end - ptr
  {
    hide SignedAt, NameAt, NulFreeFrom;
    cs, q := [], ptr;
    ScanEnds(buffer, ptr, end);
    if ptr != end && !BadAt(buffer, ptr, end) && !CutAt(buffer, ptr, end) && !EndlessAt(buffer, ptr, end) {
      var c :| RecordAt(buffer, ptr, c) && ptr < end;
      var rest;
      rest, q := Scanned(buffer, ptr + |c.name| + 5, end);
      cs := [c] + rest;
    }
  }

  /** After some records the table goes wrong. */
  ghost predicate TableBad(buffer: seq<byte>, ptr: int, end: int) {
    exists cs, q :: Records(buffer, ptr, end, cs, q) && BadAt(buffer, q, end)
  }

  ghost predicate TableCut(buffer: seq<byte>, ptr: int, end: int) {
    exists cs, q :: Records(buffer, ptr, end, cs, q) && CutAt(buffer, q, end)
  }

  ghost predicate TableEndless(buffer: seq<byte>, ptr: int, end: int) {
    exists cs, q :: Records(buffer, ptr, end, cs, q) && EndlessAt(buffer, q, end)
  }

  /** The children are the records of the table, and each failure has its own reason. */
  lemma ScanExactly(buffer: seq<byte>, ptr: int, end: int)
    ensures forall cs :: ChildrenFrom(buffer, ptr, end) == ChildrenOk(cs) <==> Records(buffer, ptr, end, cs, end)
    ensures ChildrenFrom(buffer, ptr, end) == ChildrenBad <==> TableBad(buffer, ptr, end)
    ensures ChildrenFrom(buffer, ptr, end) == ChildrenThrown <==> TableCut(buffer, ptr, end)
    ensures ChildrenFrom(buffer, ptr, end) == ChildrenEndless <==> TableEndless(buffer, ptr, end)
  {
    hide ChildrenFrom, BadAt, CutAt, EndlessAt, Records;
    forall cs, q | Records(buffer, ptr, end, cs, q)
      ensures q == end ==> ChildrenFrom(buffer, ptr, end) == ChildrenOk(cs)
      ensures BadAt(buffer, q, end) ==> ChildrenFrom(buffer, ptr, end) == ChildrenBad
      ensures CutAt(buffer, q, end) ==> ChildrenFrom(buffer, ptr, end) == ChildrenThrown
      ensures EndlessAt(buffer, q, end) ==> ChildrenFrom(buffer, ptr, end) == ChildrenEndless
    {
      RecordsRead(buffer, ptr, end, cs, q);
      ScanEnds(buffer, q, end);
      assert cs + [] == cs;
    }
    var cs, q := Scanned(buffer, ptr, end);
  }

  // ---------------------------------------------------------------- nodes

  /** The first word of a header and those behind it, as far as the image has them. */
  function HeaderBytes(buffer: seq<byte>, idx: int): seq<byte> {
    JsSlice(buffer, idx * SECTOR, (idx + 1) * SECTOR)
  }

  predicate HasHeader(buffer: seq<byte>, idx: int, valid: int) {
    |HeaderBytes(buffer, idx)| >= 24 && SignedAt(HeaderBytes(buffer, idx), 0) == valid
  }

  function Beginning(idx: int): int {
    (idx + 1) * SECTOR
  }

  function Ending(buffer: seq<byte>, idx: int): int
    requires HasHeader(buffer, idx, 1)
  {
    Beginning(idx) + SignedAt(HeaderBytes(buffer, idx), 8)
  }

  predicate DirAt(buffer: seq<byte>, idx: int) {
    HasHeader(buffer, idx, 1) && SignedAt(HeaderBytes(buffer, idx), 20) == 1
  }

  predicate FileAt(buffer: seq<byte>, idx: int) {
    HasHeader(buffer, idx, 1) && SignedAt(HeaderBytes(buffer, idx), 20) != 1
  }

  /** A directory whose table is exactly these records. */
  predicate Opens(buffer: seq<byte>, idx: int, cs: seq<Child>) {
    DirAt(buffer, idx) && Records(buffer, Beginning(idx), Ending(buffer, idx), cs, Ending(buffer, idx))
  }

  /** The codes: a first word that is neither 0 nor 1, a header marked invalid, a malformed table. */
  ghost predicate FaultAt(buffer: seq<byte>, idx: int, code: nat) {
    || (code == 7 && |HeaderBytes(buffer, idx)| >= 4 && SignedAt(HeaderBytes(buffer, idx), 0) !in {0, 1})
    || (code == 4 && HasHeader(buffer, idx, 0))
    || (code == 1 && DirAt(buffer, idx) && TableBad(buffer, Beginning(idx), Ending(buffer, idx)))
  }

  /** Reading beyond the image raises an exception. */
  ghost predicate ThrowsAt(buffer: seq<byte>, idx: int) {
    var h := HeaderBytes(buffer, idx);
    || |h| < 4
    || (|h| < 24 && SignedAt(h, 0) in {0, 1})
    || (DirAt(buffer, idx) && TableCut(buffer, Beginning(idx), Ending(buffer, idx)))
  }

  /** Looking for the end of a name beyond the image goes on forever. */
  ghost predicate HangsAt(buffer: seq<byte>, idx: int) {
    DirAt(buffer, idx) && TableEndless(buffer, Beginning(idx), Ending(buffer, idx))
  }

  ghost predicate FineAt(buffer: seq<byte>, idx: int) {
    FileAt(buffer, idx) || exists cs :: Opens(buffer, idx, cs)
  }

  lemma DirStarts(buffer: seq<byte>, idx: int, path: seq<byte>, depth: nat)
    requires depth > 0 && DirAt(buffer, idx)
    ensures ReadNode(buffer, idx, path, depth) ==
      match ChildrenFrom(buffer, Beginning(idx), Ending(buffer, idx))
      case ChildrenThrown => (Thrown, [])
      case ChildrenEndless => (Endless, [])
      case ChildrenBad => Fails(1, path)
      case ChildrenOk(cs) => ReadAll(buffer, cs, path, depth - 1, NoKids, None)
  {
    hide SignedAt, JsSlice, ReadAll, ChildrenFrom;
  }

  lemma FileStarts(buffer: seq<byte>, idx: int, path: seq<byte>, depth: nat)
    requires depth > 0 && FileAt(buffer, idx)
    ensures ReadNode(buffer, idx, path, depth)
      == (Node(File(JsSlice(buffer, Beginning(idx), Ending(buffer, idx)))), [])
  {
    hide SignedAt, JsSlice, ReadAll, ChildrenFrom;
  }

  /** How a call starts, by the node alone. */
  lemma NodeCases(buffer: seq<byte>, idx: int, path: seq<byte>, depth: nat)
    requires depth > 0
    ensures var r := ReadNode(buffer, idx, path, depth);
            && (ThrowsAt(buffer, idx) ==> r == (Thrown, []))
            && (HangsAt(buffer, idx) ==> r == (Endless, []))
            && (forall code :: FaultAt(buffer, idx, code) ==>
                  r == (Failed(Report(code, path)), [Report(code, path)]))
            && (FileAt(buffer, idx) ==>
                  r == (Node(File(JsSlice(buffer, Beginning(idx), Ending(buffer, idx)))), []))
            && (forall cs :: Opens(buffer, idx, cs) ==> r == ReadAll(buffer, cs, path, depth - 1, NoKids, None))
            && (FineAt(buffer, idx) || ThrowsAt(buffer, idx) || HangsAt(buffer, idx)
                || exists code :: FaultAt(buffer, idx, code))
  {
    hide SignedAt, JsSlice, ReadAll, ChildrenFrom, Beginning, Ending, Records, TableCut, TableBad, TableEndless;
    if DirAt(buffer, idx) {
      DirStarts(buffer, idx, path, depth);
      ScanExactly(buffer, Beginning(idx), Ending(buffer, idx));
      var r := ChildrenFrom(buffer, Beginning(idx), Ending(buffer, idx));
      assert r.ChildrenOk? ==> Opens(buffer, idx, r.children);
      assert r.ChildrenBad? ==> FaultAt(buffer, idx, 1);
    } else if |HeaderBytes(buffer, idx)| >= 4 && SignedAt(HeaderBytes(buffer, idx), 0) !in {0, 1} {
      assert FaultAt(buffer, idx, 7);
    } else if HasHeader(buffer, idx, 0) {
      assert FaultAt(buffer, idx, 4);
    } else if FileAt(buffer, idx) {
      FileStarts(buffer, idx, path, depth);
    }
  }

  // ---------------------------------------------------------------- routes

  /** From node `idx` the children of these names are reached, one below the other. */
  ghost predicate Leads(buffer: seq<byte>, idx: int, route: seq<Child>)
    decreases |route|
  {
    route == []
    || exists cs :: Opens(buffer, idx, cs) && route[0] in cs && Leads(buffer, route[0].idx, route[1..])
  }

  function EndOf(idx: int, route: seq<Child>): int
    decreases |route|
  {
    if route == [] then idx else EndOf(route[0].idx, route[1..])
  }

  function PathOf(path: seq<byte>, route: seq<Child>): seq<byte>
    decreases |route|
  {
    if route == [] then path else PathOf(path + [SLASH] + route[0].name, route[1..])
  }

  /** The node there is at fault, and this is its report. */
  ghost predicate FaultBelow(buffer: seq<byte>, idx: int, path: seq<byte>, depth: nat, route: seq<Child>, r: Report) {
    && |route| < depth && Leads(buffer, idx, route)
    && FaultAt(buffer, EndOf(idx, route), r.error) && r.path == PathOf(path, route)
  }

  /** Reading the node there raises an exception, be it that the calls are too deep. */
  ghost predicate ThrowsBelow(buffer: seq<byte>, idx: int, depth: nat, route: seq<Child>) {
    && Leads(buffer, idx, route)
    && (|route| == depth || (|route| < depth && ThrowsAt(buffer, EndOf(idx, route))))
  }

  ghost predicate HangsBelow(buffer: seq<byte>, idx: int, depth: nat, route: seq<Child>) {
    |route| < depth && Leads(buffer, idx, route) && HangsAt(buffer, EndOf(idx, route))
  }

  /** Outcome and reports fit what is reached from there. */
  ghost predicate Fits(buffer: seq<byte>, idx: int, path: seq<byte>, depth: nat, o: Outcome, errs: seq<Report>) {
    && (forall r :: r in errs ==> exists route :: FaultBelow(buffer, idx, path, depth, route, r))
    && (o.Thrown? ==> exists route :: ThrowsBelow(buffer, idx, depth, route))
    && (o.Endless? ==> exists route :: HangsBelow(buffer, idx, depth, route))
    && (o.Node? ==> errs == [])
    && (o.Failed? ==> errs != [] && errs[|errs| - 1] == o.report)
    && (o.Node? || o.Failed? ==>
          && (forall route :: !ThrowsBelow(buffer, idx, depth, route))
          && (forall route :: !HangsBelow(buffer, idx, depth, route))
          && (forall route, r :: FaultBelow(buffer, idx, path, depth, route, r) ==> r in errs))
  }

  /** The same for the children from the i-th on. */
  ghost predicate FitsAll(buffer: seq<byte>, cs: seq<Child>, path: seq<byte>, depth: nat, ret: Option<Report>,
                          o: Outcome, errs: seq<Report>) {
    && (forall r :: r in errs ==> exists c, route ::
          c in cs && FaultBelow(buffer, c.idx, path + [SLASH] + c.name, depth, route, r))
    && (o.Thrown? ==> exists c, route :: c in cs && ThrowsBelow(buffer, c.idx, depth, route))
    && (o.Endless? ==> exists c, route :: c in cs && HangsBelow(buffer, c.idx, depth, route))
    && (o.Node? ==> errs == [] && ret.None?)
    && (o.Failed? ==> if errs == [] then ret == Some(o.report) else errs[|errs| - 1] == o.report)
    && (o.Node? || o.Failed? ==>
          && (forall c, route :: c in cs ==> !ThrowsBelow(buffer, c.idx, depth, route))
          && (forall c, route :: c in cs ==> !HangsBelow(buffer, c.idx, depth, route))
          && (forall c, route, r ::
                c in cs && FaultBelow(buffer, c.idx, path + [SLASH] + c.name, depth, route, r) ==> r in errs))
  }

  /** No node is in two of these states, and a table has one list of records. */
  lemma OneState(buffer: seq<byte>, idx: int)
    ensures forall cs, cs' :: Opens(buffer, idx, cs) && Opens(buffer, idx, cs') ==> cs == cs'
    ensures (exists code :: FaultAt(buffer, idx, code)) ==>
              !FineAt(buffer, idx) && !ThrowsAt(buffer, idx) && !HangsAt(buffer, idx)
    ensures FineAt(buffer, idx) ==> !ThrowsAt(buffer, idx) && !HangsAt(buffer, idx)
    ensures FileAt(buffer, idx) ==> forall cs :: !Opens(buffer, idx, cs)
    ensures forall code, code' :: FaultAt(buffer, idx, code) && FaultAt(buffer, idx, code') ==> code == code'
  {
    hide SignedAt, JsSlice, ChildrenFrom, Records, TableCut, TableBad, TableEndless;
    if DirAt(buffer, idx) {
      ScanExactly(buffer, Beginning(idx), Ending(buffer, idx));
    }
  }

  /** One child further. */
  lemma LeadsOn(buffer: seq<byte>, idx: int, cs: seq<Child>, c: Child, path: seq<byte>, route: seq<Child>)
    requires Opens(buffer, idx, cs) && c in cs
    ensures Leads(buffer, idx, [c] + route) <==> Leads(buffer, c.idx, route)
    ensures EndOf(idx, [c] + route) == EndOf(c.idx, route)
    ensures PathOf(path, [c] + route) == PathOf(path + [SLASH] + c.name, route)
  {
    hide Opens;
    assert ([c] + route)[1..] == route;
  }

  lemma Below(buffer: seq<byte>, idx: int, cs: seq<Child>, c: Child, path: seq<byte>, depth: nat, route: seq<Child>)
    requires Opens(buffer, idx, cs) && c in cs && depth > 0
    ensures ThrowsBelow(buffer, idx, depth, [c] + route) <==> ThrowsBelow(buffer, c.idx, depth - 1, route)
    ensures HangsBelow(buffer, idx, depth, [c] + route) <==> HangsBelow(buffer, c.idx, depth - 1, route)
    ensures forall r :: FaultBelow(buffer, idx, path, depth, [c] + route, r) <==>
                        FaultBelow(buffer, c.idx, path + [SLASH] + c.name, depth - 1, route, r)
  {
    hide Opens, FaultAt, ThrowsAt, HangsAt;
    LeadsOn(buffer, idx, cs, c, path, route);
    hide Leads, EndOf, PathOf;
  }

  /** What is below a directory is there already or is below one of its children. */
  lemma BelowDir(buffer: seq<byte>, idx: int, cs: seq<Child>, path: seq<byte>, depth: nat, route: seq<Child>)
    requires Opens(buffer, idx, cs) && depth > 0 && Leads(buffer, idx, route)
    ensures if route == [] then
              && !ThrowsBelow(buffer, idx, depth, route) && !HangsBelow(buffer, idx, depth, route)
              && forall r :: !FaultBelow(buffer, idx, path, depth, route, r)
            else route[0] in cs && route == [route[0]] + route[1..]
  {
    hide Opens, FaultAt, ThrowsAt, HangsAt;
    OneState(buffer, idx);
    assert FineAt(buffer, idx);
  }

  /** What is below a child is below the directory ... */
  lemma FromChild(buffer: seq<byte>, idx: int, cs: seq<Child>, path: seq<byte>, depth: nat, o: Outcome,
                  errs: seq<Report>)
    requires Opens(buffer, idx, cs) && depth > 0 && FitsAll(buffer, cs, path, depth - 1, None, o, errs)
    ensures forall r :: r in errs ==> exists route :: FaultBelow(buffer, idx, path, depth, route, r)
    ensures o.Thrown? ==> exists route :: ThrowsBelow(buffer, idx, depth, route)
    ensures o.Endless? ==> exists route :: HangsBelow(buffer, idx, depth, route)
  {
    hide Opens, FaultBelow, ThrowsBelow, HangsBelow;
    forall r | r in errs
      ensures exists route :: FaultBelow(buffer, idx, path, depth, route, r)
    {
      var c, route :| c in cs && FaultBelow(buffer, c.idx, path + [SLASH] + c.name, depth - 1, route, r);
      Below(buffer, idx, cs, c, path, depth, route);
      assert FaultBelow(buffer, idx, path, depth, [c] + route, r);
    }
    if o.Thrown? {
      var c, route :| c in cs && ThrowsBelow(buffer, c.idx, depth - 1, route);
      Below(buffer, idx, cs, c, path, depth, route);
    }
    if o.Endless? {
      var c, route :| c in cs && HangsBelow(buffer, c.idx, depth - 1, route);
      Below(buffer, idx, cs, c, path, depth, route);
    }
  }

  /** ... and the other way round. */
  lemma ToChild(buffer: seq<byte>, idx: int, cs: seq<Child>, path: seq<byte>, depth: nat, o: Outcome, errs: seq<Report>,
                route: seq<Child>)
    requires Opens(buffer, idx, cs) && depth > 0 && FitsAll(buffer, cs, path, depth - 1, None, o, errs)
    requires o.Node? || o.Failed?
    ensures !ThrowsBelow(buffer, idx, depth, route) && !HangsBelow(buffer, idx, depth, route)
    ensures forall r :: FaultBelow(buffer, idx, path, depth, route, r) ==> r in errs
  {
    if Leads(buffer, idx, route) {
      hide Opens;
      BelowDir(buffer, idx, cs, path, depth, route);
      hide FaultBelow, ThrowsBelow, HangsBelow;
      if route != [] {
        var c, rest := route[0], route[1..];
        Below(buffer, idx, cs, c, path, depth, rest);
      }
    }
  }

  lemma FitsDir(buffer: seq<byte>, idx: int, cs: seq<Child>, path: seq<byte>, depth: nat, o: Outcome, errs: seq<Report>)
    requires Opens(buffer, idx, cs) && depth > 0 && FitsAll(buffer, cs, path, depth - 1, None, o, errs)
    ensures Fits(buffer, idx, path, depth, o, errs)
  {
    hide Opens, FaultBelow, ThrowsBelow, HangsBelow;
    FromChild(buffer, idx, cs, path, depth, o, errs);
    if o.Node? || o.Failed? {
      forall route
        ensures !ThrowsBelow(buffer, idx, depth, route) && !HangsBelow(buffer, idx, depth, route)
      {
        ToChild(buffer, idx, cs, path, depth, o, errs, route);
      }
      forall route, r | FaultBelow(buffer, idx, path, depth, route, r)
        ensures r in errs
      {
        ToChild(buffer, idx, cs, path, depth, o, errs, route);
      }
    }
  }

  /** A node that is no directory: nothing is below it. */
  lemma FitsAlone(buffer: seq<byte>, idx: int, path: seq<byte>, depth: nat)
    requires depth == 0 || forall cs :: !Opens(buffer, idx, cs)
    ensures Fits(buffer, idx, path, depth, ReadNode(buffer, idx, path, depth).0, ReadNode(buffer, idx, path, depth).1)
  {
    hide Opens, FaultAt, ThrowsAt, HangsAt, ReadNode, FileAt;
    assert forall route :: Leads(buffer, idx, route) && depth > 0 ==> route == [];
    assert Leads(buffer, idx, []) && EndOf(idx, []) == idx && PathOf(path, []) == path;
    if depth == 0 {
      StackOut(buffer, idx, path);
      assert ThrowsBelow(buffer, idx, depth, []);
    } else {
      NodeCases(buffer, idx, path, depth);
      OneState(buffer, idx);
      assert ThrowsBelow(buffer, idx, depth, []) <==> ThrowsAt(buffer, idx);
      assert HangsBelow(buffer, idx, depth, []) <==> HangsAt(buffer, idx);
      forall r
        ensures FaultBelow(buffer, idx, path, depth, [], r) <==> FaultAt(buffer, idx, r.error) && r.path == path
      {
      }
    }
  }

  lemma StackOut(buffer: seq<byte>, idx: int, path: seq<byte>)
    ensures ReadNode(buffer, idx, path, 0) == (Thrown, [])
  {
  }

  /** One child in front of the others. */
  lemma FitsMore(buffer: seq<byte>, cs: seq<Child>, path: seq<byte>, depth: nat, ret: Option<Report>, o: Outcome,
                 errs: seq<Report>, ret': Option<Report>, o': Outcome, errs': seq<Report>)
    requires cs != [] && Fits(buffer, cs[0].idx, path + [SLASH] + cs[0].name, depth, o, errs)
    requires o.Node? || o.Failed?
    requires ret' == (if o.Failed? then Some(o.report) else ret)
    requires FitsAll(buffer, cs[1..], path, depth, ret', o', errs')
    ensures FitsAll(buffer, cs, path, depth, ret, o', errs + errs')
  {
    hide FaultBelow, ThrowsBelow, HangsBelow;
    assert cs[0] in cs && forall c :: c in cs <==> c == cs[0] || c in cs[1..];
  }

  lemma {:induction false} ReadFits(buffer: seq<byte>, idx: int, path: seq<byte>, depth: nat)
    ensures Fits(buffer, idx, path, depth, ReadNode(buffer, idx, path, depth).0, ReadNode(buffer, idx, path, depth).1)
    decreases depth, 0, 0
  {
    hide Opens, Fits, FitsAll, ReadNode, ReadAll;
    if depth > 0 && exists cs :: Opens(buffer, idx, cs) {
      var cs :| Opens(buffer, idx, cs);
      NodeCases(buffer, idx, path, depth);
      ReadAllFits(buffer, cs, path, depth - 1, NoKids, None);
      var r := ReadAll(buffer, cs, path, depth - 1, NoKids, None);
      FitsDir(buffer, idx, cs, path, depth, r.0, r.1);
    } else {
      FitsAlone(buffer, idx, path, depth);
    }
  }

  lemma {:induction false} ReadAllFits(buffer: seq<byte>, cs: seq<Child>, path: seq<byte>, depth: nat, dir: Kids,
                                       ret: Option<Report>)
    ensures var r := ReadAll(buffer, cs, path, depth, dir, ret);
            FitsAll(buffer, cs, path, depth, ret, r.0, r.1)
    decreases depth, 1, |cs|
  {
    hide ReadNode, ReadAll, FaultBelow, ThrowsBelow, HangsBelow;
    if cs == [] {
      ReadAllEnd(buffer, path, depth, dir, ret);
    } else {
      var c := cs[0];
      var (o, errs) := ReadNode(buffer, c.idx, path + [SLASH] + c.name, depth);
      ReadFits(buffer, c.idx, path + [SLASH] + c.name, depth);
      assert cs[0..] == cs && c in cs;
      ReadAllStep(buffer, cs, 0, path, depth, dir, ret);
      if o.Node? || o.Failed? {
        var dir' := if o.Node? then Assign(dir, c.name, o.tree) else dir;
        var ret' := if o.Failed? then Some(o.report) else ret;
        ReadAllFits(buffer, cs[1..], path, depth, dir', ret');
        var (o', errs') := ReadAll(buffer, cs[1..], path, depth, dir', ret');
        FitsMore(buffer, cs, path, depth, ret, o, errs, ret', o', errs');
      }
    }
  }

  /** A node that is reached and not fine keeps the scan from returning a tree ... */
  lemma Unfine(buffer: seq<byte>, idx: int, path: seq<byte>, depth: nat, o: Outcome, errs: seq<Report>,
               route: seq<Child>)
    requires Fits(buffer, idx, path, depth, o, errs) && Leads(buffer, idx, route) && |route| <= depth
    requires |route| == depth || !FineAt(buffer, EndOf(idx, route))
    ensures !o.Node?
  {
    hide FineAt, FaultAt, ThrowsAt, HangsAt, Leads, ReadNode;
    var e := EndOf(idx, route);
    if |route| == depth {
      assert ThrowsBelow(buffer, idx, depth, route);
    } else {
      NodeCases(buffer, e, path, 1);
      assert ThrowsBelow(buffer, idx, depth, route) <==> ThrowsAt(buffer, e);
      assert HangsBelow(buffer, idx, depth, route) <==> HangsAt(buffer, e);
      if !ThrowsAt(buffer, e) && !HangsAt(buffer, e) {
        var code :| FaultAt(buffer, e, code);
        assert FaultBelow(buffer, idx, path, depth, route, Report(code, PathOf(path, route)));
      }
    }
  }

  /** ... and without such a node there is nothing to keep it. */
  lemma AllFine(buffer: seq<byte>, idx: int, path: seq<byte>, depth: nat, o: Outcome, errs: seq<Report>)
    requires Fits(buffer, idx, path, depth, o, errs)
    requires forall route :: Leads(buffer, idx, route) && |route| <= depth ==>
                             |route| < depth && FineAt(buffer, EndOf(idx, route))
    ensures o.Node?
  {
    hide FineAt, FaultAt, ThrowsAt, HangsAt, Leads;
    if o.Thrown? {
      var route :| ThrowsBelow(buffer, idx, depth, route);
      OneState(buffer, EndOf(idx, route));
    } else if o.Endless? {
      var route :| HangsBelow(buffer, idx, depth, route);
      OneState(buffer, EndOf(idx, route));
    } else if o.Failed? {
      assert o.report in errs;
      var route :| FaultBelow(buffer, idx, path, depth, route, o.report);
      OneState(buffer, EndOf(idx, route));
    }
  }

  /** The verdict on an image, for any depth of the stack. Every report is a fault of a node that is reached, under the
      path of that node; unless the scan throws or hangs, every such fault is reported, and a failing scan returns the
      last of them. It throws or hangs only if some node reached does. It returns a tree exactly if every node reached
      is a file or a directory with a well-formed table, and no name leads deeper than the stack. */
  lemma Verdict(buffer: seq<byte>, idx: int, path: seq<byte>, depth: nat)
    ensures var (o, errs) := ReadNode(buffer, idx, path, depth);
            && Fits(buffer, idx, path, depth, o, errs)
            && (o.Node? <==> forall route :: Leads(buffer, idx, route) && |route| <= depth ==>
                                            |route| < depth && FineAt(buffer, EndOf(idx, route)))
  {
    hide ReadNode, FineAt, Leads, Fits;
    ReadFits(buffer, idx, path, depth);
    var (o, errs) := ReadNode(buffer, idx, path, depth);
    forall route | Leads(buffer, idx, route) && |route| <= depth
                   && (|route| == depth || !FineAt(buffer, EndOf(idx, route)))
      ensures !o.Node?
    {
      Unfine(buffer, idx, path, depth, o, errs, route);
    }
    if forall route :: Leads(buffer, idx, route) && |route| <= depth ==>
                       |route| < depth && FineAt(buffer, EndOf(idx, route)) {
      AllFine(buffer, idx, path, depth, o, errs);
    }
  }

  // ---------------------------------------------------------------- the tree that is read

  function KidNames(ks: Kids): seq<seq<byte>> {
    match ks
    case NoKids => []
    case Kid(n, _, rest) => [n] + KidNames(rest)
  }

  function KidAt(ks: Kids, name: seq<byte>): Option<Tree> {
    match ks
    case NoKids => None
    case Kid(n, t, rest) => if n == name then Some(t) else KidAt(rest, name)
  }

  /** Setting a property: it keeps its place if it is there, and goes last otherwise. */
  lemma {:induction false} AssignMeans(ks: Kids, name: seq<byte>, node: Tree)
    ensures forall n :: KidAt(Assign(ks, name, node), n) == if n == name then Some(node) else KidAt(ks, n)
    ensures KidNames(Assign(ks, name, node)) == if name in KidNames(ks) then KidNames(ks) else KidNames(ks) + [name]
  {
    if ks.Kid? && ks.name != name {
      AssignMeans(ks.rest, name, node);
    }
  }

  /** The names of some records in the order in which they appear first. */
  function Firsts(cs: seq<Child>): seq<seq<byte>> {
    if cs == [] then []
    else
      var front, last := Firsts(cs[..|cs| - 1]), cs[|cs| - 1].name;
      if last in front then front else front + [last]
  }

  lemma {:induction false} FirstsDistinct(cs: seq<Child>)
    ensures Distinct(Firsts(cs))
  {
    if cs != [] {
      FirstsDistinct(cs[..|cs| - 1]);
    }
  }

  /** A record that no later one of the same name overrides. */
  predicate LastOf(cs: seq<Child>, i: nat) {
    i < |cs| && forall j :: i < j < |cs| ==> cs[j].name != cs[i].name
  }

  /** The bytes at node `idx` mean this tree. */
  ghost predicate Spelled(buffer: seq<byte>, idx: int, t: Tree)
    decreases t
  {
    match t
    case File(data) => FileAt(buffer, idx) && data == JsSlice(buffer, Beginning(idx), Ending(buffer, idx))
    case Dir(ks) => exists cs :: Opens(buffer, idx, cs) && KidNames(ks) == Firsts(cs) && EachSpelled(buffer, cs, ks)
  }

  ghost predicate EachSpelled(buffer: seq<byte>, cs: seq<Child>, ks: Kids)
    decreases ks
  {
    match ks
    case NoKids => true
    case Kid(n, t, rest) =>
      && (exists i: nat :: LastOf(cs, i) && cs[i].name == n && Spelled(buffer, cs[i].idx, t))
      && EachSpelled(buffer, cs, rest)
  }

  lemma {:induction false} EachKept(buffer: seq<byte>, cs: seq<Child>, c: Child, ks: Kids)
    requires EachSpelled(buffer, cs, ks) && c.name !in KidNames(ks)
    ensures EachSpelled(buffer, cs + [c], ks)
  {
    hide Spelled;
    if ks.Kid? {
      var i: nat :| LastOf(cs, i) && cs[i].name == ks.name && Spelled(buffer, cs[i].idx, ks.node);
      assert (cs + [c])[i] == cs[i] && KidNames(ks)[0] == ks.name && LastOf(cs + [c], i);
      EachKept(buffer, cs, c, ks.rest);
    }
  }

  lemma {:induction false} EachAssigned(buffer: seq<byte>, cs: seq<Child>, c: Child, t: Tree, ks: Kids)
    requires EachSpelled(buffer, cs, ks) && Distinct(KidNames(ks)) && Spelled(buffer, c.idx, t)
    ensures EachSpelled(buffer, cs + [c], Assign(ks, c.name, t))
  {
    hide Spelled;
    var n := |cs|;
    assert (cs + [c])[n] == c && LastOf(cs + [c], n);
    if ks.Kid? {
      assert forall k :: 0 <= k < |KidNames(ks.rest)| ==> KidNames(ks)[k + 1] == KidNames(ks.rest)[k];
      if ks.name == c.name {
        assert KidNames(ks)[0] == ks.name;
        EachKept(buffer, cs, c, ks.rest);
      } else {
        var i: nat :| LastOf(cs, i) && cs[i].name == ks.name && Spelled(buffer, cs[i].idx, ks.node);
        assert (cs + [c])[i] == cs[i] && LastOf(cs + [c], i);
        EachAssigned(buffer, cs, c, t, ks.rest);
      }
    }
  }

  /** What is returned is the tree that the bytes mean. */
  lemma {:induction false} TreeRead(buffer: seq<byte>, idx: int, path: seq<byte>, depth: nat)
    ensures var o := ReadNode(buffer, idx, path, depth).0;
            o.Node? ==> Spelled(buffer, idx, o.tree)
    decreases depth, 0, 0
  {
    hide Opens, ReadNode, ReadAll, FileAt, FaultAt, ThrowsAt, HangsAt, JsSlice;
    if depth == 0 {
      StackOut(buffer, idx, path);
    } else {
      NodeCases(buffer, idx, path, depth);
      if exists cs :: Opens(buffer, idx, cs) {
        var cs :| Opens(buffer, idx, cs);
        DirRead(buffer, [], cs, path, depth - 1, NoKids);
        assert [] + cs == cs;
      }
    }
  }

  lemma FirstsMore(cs: seq<Child>, c: Child)
    ensures Firsts(cs + [c]) == if c.name in Firsts(cs) then Firsts(cs) else Firsts(cs) + [c.name]
    ensures Firsts([]) == []
  {
    assert (cs + [c])[..|cs|] == cs;
  }

  lemma OnceFailed(buffer: seq<byte>, cs: seq<Child>, path: seq<byte>, depth: nat, dir: Kids, report: Report)
    ensures !ReadAll(buffer, cs, path, depth, dir, Some(report)).0.Node?
  {
    hide ReadAll;
    ReadAllFits(buffer, cs, path, depth, dir, Some(report));
  }

  lemma {:induction false} DirRead(buffer: seq<byte>, done: seq<Child>, cs: seq<Child>, path: seq<byte>, depth: nat,
                                   dir: Kids)
    requires KidNames(dir) == Firsts(done) && EachSpelled(buffer, done, dir)
    ensures var o := ReadAll(buffer, cs, path, depth, dir, None).0;
            o.Node? ==> o.tree.Dir? && KidNames(o.tree.kids) == Firsts(done + cs)
                        && EachSpelled(buffer, done + cs, o.tree.kids)
    decreases depth, 1, |cs|
  {
    hide ReadNode, ReadAll, Spelled, EachSpelled, Opens, Firsts, KidNames, Assign, Distinct;
    if cs == [] {
      ReadAllEnd(buffer, path, depth, dir, None);
      assert done + cs == done;
    } else {
      var c := cs[0];
      var o := ReadNode(buffer, c.idx, path + [SLASH] + c.name, depth).0;
      assert cs[0..] == cs;
      ReadAllStep(buffer, cs, 0, path, depth, dir, None);
      if o.Node? {
        TreeRead(buffer, c.idx, path + [SLASH] + c.name, depth);
        AssignMeans(dir, c.name, o.tree);
        FirstsDistinct(done);
        EachAssigned(buffer, done, c, o.tree, dir);
        FirstsMore(done, c);
        DirRead(buffer, done + [c], cs[1..], path, depth, Assign(dir, c.name, o.tree));
        assert (done + [c]) + cs[1..] == done + cs;
      } else if o.Failed? {
        OnceFailed(buffer, cs[1..], path, depth, dir, o.report);
      }
    }
  }

  /** Negative bounds count from the end, and bounds beyond either end stop there. */
  lemma JsSliceMeans(s: seq<byte>, from: int, to: int)
    ensures 0 <= from <= to ==>
              var end := if to < |s| then to else |s|;
              JsSlice(s, from, to) == if from <= end then s[from..end] else []
    ensures -|s| <= from < 0 ==> JsSlice(s, from, to) == JsSlice(s, |s| + from, to)
    ensures -|s| <= to < 0 ==> JsSlice(s, from, to) == JsSlice(s, from, |s| + to)
    ensures from < -|s| ==> JsSlice(s, from, to) == JsSlice(s, 0, to)
    ensures to < -|s| ==> JsSlice(s, from, to) == []
    ensures 0 <= to < from ==> JsSlice(s, from, to) == []
  {
  }
}
