/** Paths (src/pathbuf.c): parsing, printing and joining. Whether a path was spelled as a directory is left out,
    as comparison ignores it. */
module PathBuf {
  /** A path: where it starts, how many levels it climbs first, and the names it then descends. */
  datatype Path = Path(absolute: bool, back: nat, fields: seq<string>)

  const ROOT := Path(true, 0, [])
  const HERE := Path(false, 0, [])

  // ---------------------------------------------------------------- components

  /** The text between slashes, from the first slash to the last and outside them. */
  function Components(s: string): (cs: seq<string>)
    ensures cs != []
  {
    if s == "" then [""] else Prepended(s[0], Components(s[1..]))
  }

  function Prepended(c: char, cs: seq<string>): seq<string>
    requires cs != []
    ensures Prepended(c, cs) != []
  {
    if c == '/' then [""] + cs else [[c] + cs[0]] + cs[1..]
  }

  lemma PrependedConcat(c: char, cs: seq<string>, ts: seq<string>)
    requires cs != []
    ensures Prepended(c, cs + ts) == Prepended(c, cs) + ts
  {
    assert (cs + ts)[0] == cs[0] && (cs + ts)[1..] == cs[1..] + ts;
  }

  predicate SlashFree(s: string) {
    '/' !in s
  }

  lemma {:induction false} ComponentsAfter(a: string, rest: string)
    requires SlashFree(a)
    ensures Components(a + "/" + rest) == [a] + Components(rest)
  {
    var s := a + "/" + rest;
    if a == "" {
      assert s[1..] == rest;
    } else {
      assert s[1..] == a[1..] + "/" + rest;
      ComponentsAfter(a[1..], rest);
      assert [a[0]] + a[1..] == a;
    }
  }

  lemma {:induction false} ComponentsWhole(a: string)
    requires SlashFree(a)
    ensures Components(a) == [a]
  {
    if a != "" {
      ComponentsWhole(a[1..]);
      assert [a[0]] + a[1..] == a;
    }
  }

  lemma {:induction false} ComponentsJoin(s: string, t: string)
    ensures Components(s + "/" + t) == Components(s) + Components(t)
  {
    hide Prepended;
    var all := s + "/" + t;
    if s == "" {
      assert all[1..] == t;
      PrependedSlash(Components(t));
    } else {
      assert all[1..] == s[1..] + "/" + t && all[0] == s[0];
      ComponentsJoin(s[1..], t);
      PrependedConcat(s[0], Components(s[1..]), Components(t));
    }
  }

  lemma PrependedSlash(cs: seq<string>)
    requires cs != []
    ensures Prepended('/', cs) == [""] + cs
  {
  }

  lemma {:induction false} ComponentsSlashFree(s: string)
    ensures forall c :: c in Components(s) ==> SlashFree(c)
  {
    if s != "" {
      ComponentsSlashFree(s[1..]);
      var cs := Components(s[1..]);
      assert cs[0] in cs;
    }
  }

  // ---------------------------------------------------------------- walking

  function Up(p: Path): Path {
    if p.fields != [] then p.(fields := p.fields[..|p.fields| - 1])
    else if !p.absolute then p.(back := p.back + 1)
    else p
  }

  /** Where one component leads. */
  function Enter(p: Path, c: string): Path {
    if c == ".." then Up(p)
    else if c == "." || c == "" then p
    else p.(fields := p.fields + [c])
  }

  function Walk(p: Path, cs: seq<string>): Path
    decreases |cs|
  {
    if cs == [] then p else Walk(Enter(p, cs[0]), cs[1..])
  }

  function Climb(p: Path, n: nat): Path {
    if n == 0 then p else Up(Climb(p, n - 1))
  }

  function Start(s: string): Path {
    if s != "" && s[0] == '/' then ROOT else HERE
  }

  function Parse(s: string): Path {
    Walk(Start(s), Components(s))
  }

  /** A name that a directory entry can have in a path. */
  predicate Name(c: string) {
    c != "" && c != "." && c != ".." && SlashFree(c)
  }

  predicate Normal(p: Path) {
    (p.absolute ==> p.back == 0) && forall c :: c in p.fields ==> Name(c)
  }

  lemma {:induction false} WalkConcat(p: Path, a: seq<string>, b: seq<string>)
    ensures Walk(p, a + b) == Walk(Walk(p, a), b)
    decreases |a|
  {
    if a == [] {
      assert a + b == b;
    } else {
      assert (a + b)[1..] == a[1..] + b;
      WalkConcat(Enter(p, a[0]), a[1..], b);
    }
  }

  lemma {:induction false} WalkNormal(p: Path, cs: seq<string>)
    requires Normal(p) && forall c :: c in cs ==> SlashFree(c)
    ensures Normal(Walk(p, cs)) && Walk(p, cs).absolute == p.absolute
    decreases |cs|
  {
    if cs != [] {
      var q := Enter(p, cs[0]);
      assert forall c :: c in q.fields ==> c in p.fields || c == cs[0];
      WalkNormal(q, cs[1..]);
    }
  }

  lemma {:induction false} WalkNames(p: Path, cs: seq<string>)
    requires forall c :: c in cs ==> Name(c)
    ensures Walk(p, cs) == p.(fields := p.fields + cs)
    decreases |cs|
  {
    if cs == [] {
      assert p.fields + cs == p.fields;
    } else {
      assert Name(cs[0]);
      WalkNames(Enter(p, cs[0]), cs[1..]);
      assert (p.fields + [cs[0]]) + cs[1..] == p.fields + cs;
    }
  }

  /** Parsing yields a normal path. */
  lemma ParseNormal(s: string)
    ensures Normal(Parse(s)) && (Parse(s).absolute <==> s != "" && s[0] == '/')
  {
    ComponentsSlashFree(s);
    WalkNormal(Start(s), Components(s));
  }

  // ---------------------------------------------------------------- what the components mean

  /** The component in front of a slash leads where the walk goes on; at the end a name is one level more. */
  lemma ParseBetween(s: string, c: string, t: string)
    requires SlashFree(c)
    ensures Parse(s + "/" + c + "/" + t) == Walk(Enter(Walk(Start(s + "/"), Components(s)), c), Components(t))
    ensures Parse(s + "/" + c) == Enter(Walk(Start(s + "/"), Components(s)), c)
    ensures Parse(s + "/" + t) == Walk(Walk(Start(s + "/"), Components(s)), Components(t))
    ensures s != "" ==> Start(s + "/") == Start(s)
  {
    hide Components, Enter;
    var from := Start(s + "/");
    assert Start(s + "/" + t) == Start(s + "/" + c) == Start(s + "/" + c + "/" + t) == from;
    ComponentsJoin(s, c + "/" + t);
    assert s + "/" + (c + "/" + t) == s + "/" + c + "/" + t;
    ComponentsAfter(c, t);
    ComponentsJoin(s, c);
    ComponentsWhole(c);
    ComponentsJoin(s, t);
    WalkConcat(from, Components(s), [c] + Components(t));
    WalkConcat(from, Components(s), [c]);
    WalkConcat(from, Components(s), Components(t));
    WalkFirst(Walk(from, Components(s)), c, Components(t));
  }

  lemma WalkFirst(p: Path, c: string, cs: seq<string>)
    ensures Walk(p, [c] + cs) == Walk(Enter(p, c), cs) && Walk(p, [c]) == Enter(p, c)
  {
    assert ([c] + cs)[1..] == cs;
    assert Walk(Enter(p, c), []) == Enter(p, c);
  }

  /** A dot stays where it is, and so does a doubled slash. */
  lemma ParseDot(s: string, t: string)
    ensures Parse(s + "/./" + t) == Parse(s + "/" + t) == Parse(s + "//" + t)
    ensures s != "" ==> Parse(s + "/.") == Parse(s) == Parse(s + "/")
    ensures Parse(".") == HERE == Parse("")
  {
    hide Walk, Components;
    ParseBetween(s, ".", t);
    ParseBetween(s, "", t);
    assert s + "/" + "." + "/" + t == s + "/./" + t && s + "/" + "" + "/" + t == s + "//" + t;
    assert s + "/" + "." == s + "/." && s + "/" + "" == s + "/";
    ComponentsWhole(".");
    ComponentsWhole("");
    WalkFirst(HERE, ".", []);
    WalkFirst(HERE, "", []);
  }

  /** Two dots take back the name in front of them. */
  lemma ParseBack(s: string, name: string, t: string)
    requires Name(name)
    ensures Parse(s + "/" + name + "/../" + t) == Parse(s + "/" + t)
  {
    hide Walk, Components;
    ParseBetween(s + "/" + name, "..", t);
    ParseBetween(s, name, t);
    var before := Walk(Start(s + "/"), Components(s));
    assert (before.fields + [name])[..|before.fields|] == before.fields;
    assert s + "/" + name + "/" + ".." + "/" + t == s + "/" + name + "/../" + t;
    assert Start(s + "/" + name + "/") == Start(s + "/");
  }

  /** At the end of any path they lead to the directory above it: without a name they climb, but not above the root. */
  lemma ParseAbove(s: string)
    requires s != ""
    ensures var p, above := Parse(s), Parse(s + "/..");
            if p.fields != [] then above == p.(fields := p.fields[..|p.fields| - 1])
            else above == if p.absolute then ROOT else Path(false, p.back + 1, [])
  {
    hide Walk, Components;
    ParseBetween(s, "..", "");
    assert s + "/" + ".." == s + "/..";
    ParseNormal(s);
  }

  /** A name is one level more. */
  lemma ParseName(s: string, name: string)
    requires Name(name)
    ensures s != "" ==> Parse(s + "/" + name) == Child(Parse(s), name)
    ensures Parse(name) == Child(HERE, name) && Parse("/" + name) == Child(ROOT, name)
  {
    hide Walk, Components;
    ParseBetween(s, name, "");
    ParseBetween("", name, "");
    ComponentsWhole("");
    WalkFirst(ROOT, "", []);
    assert "" + "/" + name == "/" + name;
    ComponentsWhole(name);
    WalkFirst(HERE, name, []);
    assert name[0] in name;
  }

  // ---------------------------------------------------------------- printing

  function Ups(n: nat): string {
    if n == 0 then "" else Ups(n - 1) + "../"
  }

  function Names(fields: seq<string>): string {
    if fields == [] then "" else Names(fields[..|fields| - 1]) + fields[|fields| - 1] + "/"
  }

  function Print(p: Path): string {
    (if p.absolute then "/" else "") + Ups(p.back) + Names(p.fields)
  }

  /** The climbs come first, and every component ends with a slash. */
  lemma PrintSpells(p: Path, name: string)
    ensures Print(ROOT) == "/" && Print(HERE) == ""
    ensures Print(p.(fields := p.fields + [name])) == Print(p) + name + "/"
    ensures !p.absolute && p.fields == [] ==> Print(p.(back := p.back + 1)) == Print(p) + "../"
  {
    assert (p.fields + [name])[..|p.fields|] == p.fields;
  }

  function Dots(n: nat): seq<string> {
    seq(n, i => "..")
  }

  lemma {:induction false} UpsComponents(n: nat, rest: string)
    ensures Components(Ups(n) + rest) == Dots(n) + Components(rest)
  {
    hide Components;
    if n == 0 {
      assert Ups(n) + rest == rest;
    } else {
      assert Ups(n) + rest == Ups(n - 1) + (".." + "/" + rest);
      UpsComponents(n - 1, ".." + "/" + rest);
      ComponentsAfter("..", rest);
      assert Dots(n - 1) + ([".."] + Components(rest)) == Dots(n) + Components(rest);
    }
  }

  lemma {:induction false} NamesComponents(fields: seq<string>, rest: string)
    requires forall c :: c in fields ==> SlashFree(c)
    ensures Components(Names(fields) + rest) == fields + Components(rest)
    decreases |fields|
  {
    if fields == [] {
      assert Names(fields) + rest == rest;
    } else {
      var front, last := fields[..|fields| - 1], fields[|fields| - 1];
      assert Names(fields) + rest == Names(front) + (last + "/" + rest);
      NamesComponents(front, last + "/" + rest);
      ComponentsAfter(last, rest);
      assert front + ([last] + Components(rest)) == fields + Components(rest);
    }
  }

  lemma {:induction false} WalkDots(n: nat)
    ensures Walk(HERE, Dots(n)) == Path(false, n, [])
  {
    if n > 0 {
      WalkDots(n - 1);
      assert Dots(n) == Dots(n - 1) + [".."];
      WalkConcat(HERE, Dots(n - 1), [".."]);
      assert Walk(Path(false, n - 1, []), [".."]) == Up(Path(false, n - 1, []));
    }
  }

  /** Parsing undoes printing for the normal paths, and for no others. */
  lemma ParsePrint(p: Path)
    ensures Parse(Print(p)) == p <==> Normal(p)
  {
    ParseNormal(Print(p));
    if Normal(p) {
      var names := Names(p.fields);
      NamesComponents(p.fields, "");
      ComponentsWhole("");
      assert names + "" == names;
      assert Components(names) == p.fields + [""];
      if p.absolute {
        assert Print(p) == "" + "/" + names;
        ComponentsAfter("", names);
        WalkConcat(ROOT, [""], p.fields + [""]);
        assert Walk(ROOT, [""]) == ROOT;
        WalkEnd(ROOT, p.fields);
      } else {
        UpsComponents(p.back, names);
        assert Print(p) == Ups(p.back) + names;
        PrintedRelative(p);
        WalkConcat(HERE, Dots(p.back), p.fields + [""]);
        WalkDots(p.back);
        WalkEnd(Path(false, p.back, []), p.fields);
      }
    }
  }

  lemma WalkEnd(p: Path, names: seq<string>)
    requires p.fields == [] && forall c :: c in names ==> Name(c)
    ensures Walk(p, names + [""]) == p.(fields := names)
  {
    WalkConcat(p, names, [""]);
    WalkNames(p, names);
    assert [] + names == names;
    assert Walk(p.(fields := names), [""]) == p.(fields := names);
  }

  /** A relative path does not print with a slash in front. */
  lemma PrintedRelative(p: Path)
    requires Normal(p) && !p.absolute
    ensures Print(p) == "" || Print(p)[0] != '/'
  {
    hide Walk;
    assert Print(p) == Ups(p.back) + Names(p.fields);
    UpsFront(p.back);
    NamesFront(p.fields);
  }

  lemma {:induction false} UpsFront(n: nat)
    ensures if n == 0 then Ups(n) == "" else Ups(n) != "" && Ups(n)[0] == '.'
  {
    if n > 0 {
      UpsFront(n - 1);
    }
  }

  lemma {:induction false} NamesFront(fields: seq<string>)
    requires forall c :: c in fields ==> Name(c)
    ensures if fields == [] then Names(fields) == "" else Names(fields) != "" && Names(fields)[0] != '/'
    decreases |fields|
  {
    if fields != [] {
      var front, last := fields[..|fields| - 1], fields[|fields| - 1];
      assert Name(last) && last[0] in last;
      NamesFront(front);
      assert Names(fields) == Names(front) + last + "/";
    }
  }

  /** getcwd followed by setcwd: printing a parsed path and parsing that again changes nothing. */
  lemma ParseIsStable(s: string)
    ensures Parse(Print(Parse(s))) == Parse(s)
  {
    ParseNormal(s);
    ParsePrint(Parse(s));
  }

  // ---------------------------------------------------------------- joining

  function Join(a: Path, b: Path): Path {
    if b.absolute then ROOT
    else var base := Climb(a, b.back); base.(fields := base.fields + b.fields)
  }

  lemma JoinUp(a: Path, b: Path)
    requires !b.absolute
    ensures Join(a, Up(b)) == Up(Join(a, b))
  {
    var base := Climb(a, b.back);
    if b.fields == [] {
      assert base.fields + b.fields == base.fields;
      assert Up(base).fields + b.fields == Up(base).fields;
    } else {
      assert (base.fields + b.fields)[..|base.fields + b.fields| - 1] == base.fields + b.fields[..|b.fields| - 1];
    }
  }

  lemma JoinEnter(a: Path, b: Path, c: string)
    requires !b.absolute
    ensures Join(a, Enter(b, c)) == Enter(Join(a, b), c)
  {
    var base := Climb(a, b.back);
    if c == ".." {
      JoinUp(a, b);
    } else {
      assert base.fields + (b.fields + [c]) == (base.fields + b.fields) + [c];
    }
  }

  /** Joining commutes with walking on. */
  lemma {:induction false} JoinWalk(a: Path, b: Path, cs: seq<string>)
    requires !b.absolute
    ensures Join(a, Walk(b, cs)) == Walk(Join(a, b), cs)
    decreases |cs|
  {
    if cs != [] {
      JoinEnter(a, b, cs[0]);
      JoinWalk(a, Enter(b, cs[0]), cs[1..]);
    }
  }

  /** Joining two parsed paths, the second of which is relative, is parsing them with a slash between,
      unless the first is empty: then the slash makes the whole absolute. */
  lemma ParseJoin(s: string, t: string)
    requires t == "" || t[0] != '/'
    ensures Parse(s + "/" + t) == Join(Parse(s), Parse(t)) <==> s != ""
  {
    hide Walk, Components;
    ComponentsJoin(s, t);
    ParseEmpty();
    if s == "" {
      ParseNormal(s + "/" + t);
      ParseNormal(t);
      ClimbNormal(HERE, Parse(t).back);
    } else {
      assert Start(s + "/" + t) == Start(s);
      WalkConcat(Start(s), Components(s), Components(t));
      JoinWalk(Parse(s), HERE, Components(t));
      assert Parse(s).fields + [] == Parse(s).fields;
    }
  }

  /** With an absolute second path the join is the root, whatever was to be joined. That is the second path
      exactly if it leads to the root anyway. */
  lemma JoinAbsolute(s: string, t: string)
    requires t != "" && t[0] == '/'
    ensures Join(Parse(s), Parse(t)) == ROOT
    ensures Join(Parse(s), Parse(t)) == Parse(t) <==> Parse(t).fields == []
  {
    hide Walk, Components;
    ParseNormal(t);
  }

  lemma {:induction false} JoinClimb(a: Path, b: Path, n: nat)
    requires !b.absolute
    ensures Join(a, Climb(b, n)) == Climb(Join(a, b), n) && !Climb(b, n).absolute
  {
    if n > 0 {
      JoinClimb(a, b, n - 1);
      JoinUp(a, Climb(b, n - 1));
    }
  }

  /** Joining is associative, except where the second path is absolute and the third is relative and names
      something: then the names are lost on one side only. */
  lemma JoinAssociative(a: Path, b: Path, c: Path)
    ensures Join(Join(a, b), c) == Join(a, Join(b, c)) <==> !b.absolute || c.absolute || c.fields == []
  {
    if b.absolute && !c.absolute {
      ClimbRoot(c.back);
      JoinKind(b, c);
      assert ROOT.fields + c.fields == c.fields;
    } else if !b.absolute && !c.absolute {
      JoinRelative(a, b, c);
    }
  }

  lemma {:induction false} ClimbRoot(n: nat)
    ensures Climb(ROOT, n) == ROOT
  {
    if n > 0 {
      ClimbRoot(n - 1);
    }
  }

  lemma {:induction false} ClimbKind(p: Path, n: nat)
    ensures Climb(p, n).absolute == p.absolute
  {
    if n > 0 {
      ClimbKind(p, n - 1);
    }
  }

  lemma JoinKind(a: Path, b: Path)
    ensures Join(a, b).absolute <==> a.absolute || b.absolute
  {
    ClimbKind(a, b.back);
  }

  lemma JoinRelative(a: Path, b: Path, c: Path)
    requires !b.absolute && !c.absolute
    ensures Join(Join(a, b), c) == Join(a, Join(b, c))
  {
    var up := Climb(b, c.back);
    JoinClimb(a, b, c.back);
    var base := Climb(a, up.back);
    assert (base.fields + up.fields) + c.fields == base.fields + (up.fields + c.fields);
  }

  lemma {:induction false} ClimbNormal(p: Path, n: nat)
    requires Normal(p)
    ensures Normal(Climb(p, n)) && Climb(p, n).absolute == p.absolute
  {
    if n > 0 {
      ClimbNormal(p, n - 1);
    }
  }

  /** A path resolved against an absolute directory is absolute and normal. */
  lemma JoinNormal(a: Path, b: Path)
    requires Normal(a) && Normal(b)
    ensures Normal(Join(a, b)) && (a.absolute || b.absolute ==> Join(a, b).absolute && Join(a, b).back == 0)
  {
    ClimbNormal(a, b.back);
    var base := Climb(a, b.back);
    assert forall c :: c in base.fields + b.fields ==> c in base.fields || c in b.fields;
  }

  // ---------------------------------------------------------------- resolving

  /** resolve_path: an absolute path stands for itself, so that the join is asked about relative ones only. */
  function Resolve(dir: Path, p: Path): Path {
    if p.absolute then p else Join(dir, p)
  }

  /** Resolving step by step or at once is the same, for all paths. */
  lemma ResolveAssociative(a: Path, b: Path, c: Path)
    ensures Resolve(Resolve(a, b), c) == Resolve(a, Resolve(b, c))
  {
    JoinKind(b, c);
    if !b.absolute && !c.absolute {
      JoinRelative(a, b, c);
    }
  }

  /** Against an absolute directory every path resolves to an absolute one, normal and without climbs. */
  lemma ResolveNormal(dir: Path, p: Path)
    requires Normal(dir) && Normal(p) && dir.absolute
    ensures Normal(Resolve(dir, p)) && Resolve(dir, p).absolute && Resolve(dir, p).back == 0
  {
    JoinNormal(dir, p);
  }

  /** On strings: an absolute path is parsed as it is, another behind its directory and a slash. */
  lemma ResolveParse(s: string, t: string)
    requires s != ""
    ensures Resolve(Parse(s), Parse(t)) == Parse(if t != "" && t[0] == '/' then t else s + "/" + t)
  {
    hide Walk, Components;
    ParseNormal(t);
    if t == "" || t[0] != '/' {
      ParseJoin(s, t);
    }
  }

  // ---------------------------------------------------------------- the source's loops

  lemma ParseStep(p: Path, buffer: string, rest: string)
    requires SlashFree(buffer)
    ensures Walk(p, Components(buffer + "/" + rest)) == Walk(Enter(p, buffer), Components(rest))
    ensures Walk(p, Components(buffer)) == Enter(p, buffer)
  {
    ComponentsAfter(buffer, rest);
    ComponentsWhole(buffer);
    WalkConcat(p, [buffer], Components(rest));
    assert Walk(p, [buffer]) == Walk(Enter(p, buffer), []);
  }

  /** pathbuf_parse; `address` is the C string without its NUL. */
  method PathbufParse(address: string) returns (path: Path)
    ensures path == Parse(address)
  {
    hide Walk, Components;
    var fields: seq<string>, back := [], 0;
    var absolute := |address| > 0 && address[0] == '/';
    var buffer: string := "";
    assert "" + address[0..] == address;
    var i := 0;
    while true
      invariant 0 <= i <= |address| && SlashFree(buffer)
      invariant Parse(address) == Walk(Path(absolute, back, fields), Components(buffer + address[i..]))
      decreases |address| - i
    {
      if i < |address| && address[i] != '/' {
        assert buffer + address[i..] == (buffer + [address[i]]) + address[i + 1..];
        buffer := buffer + [address[i]];
        i := i + 1;
        continue;
      }
      ghost var before := Path(absolute, back, fields);
      ghost var component := buffer;
      if buffer == ".." {
        if |fields| > 0 {
          fields := fields[..|fields| - 1];
        } else if !absolute {
          back := back + 1;
        }
      } else if buffer == "." {
      } else if |buffer| > 0 {
        fields := fields + [buffer];
      }
      buffer := "";
      assert Path(absolute, back, fields) == Enter(before, component);
      if i == |address| {
        assert component + address[i..] == component;
        ParseStep(before, component, "");
        break;
      }
      assert component + address[i..] == component + "/" + address[i + 1..];
      assert buffer + address[i + 1..] == address[i + 1..];
      ParseStep(before, component, address[i + 1..]);
      i := i + 1;
    }
    path := Path(absolute, back, fields);
  }

  /** pathbuf_stringify. */
  method PathbufStringify(buf: Path) returns (s: string)
    ensures s == Print(buf)
  {
    s := "";
    if buf.absolute {
      s := s + "/";
    }
    ghost var lead := s;
    for i := 0 to buf.back
      invariant s == lead + Ups(i)
    {
      s := s + "../";
    }
    ghost var climb := s;
    assert climb + Names(buf.fields[..0]) == climb;
    for i := 0 to |buf.fields|
      invariant s == climb + Names(buf.fields[..i])
    {
      assert buf.fields[..i + 1][..i] == buf.fields[..i];
      s := s + buf.fields[i];
      s := s + "/";
    }
    assert buf.fields[..|buf.fields|] == buf.fields;
  }

  /** pathbuf_join. */
  method PathbufJoin(a: Path, b: Path) returns (res: Path)
    ensures res == Join(a, b)
  {
    if b.absolute {
      return ROOT;
    }
    var fields, back := a.fields, a.back;
    for i := 0 to b.back
      invariant Path(a.absolute, back, fields) == Climb(a, i)
    {
      if |fields| > 0 {
        fields := fields[..|fields| - 1];
      } else if !a.absolute {
        back := back + 1;
      }
    }
    ghost var base := fields;
    for i := 0 to |b.fields|
      invariant fields == base + b.fields[..i]
    {
      fields := fields + [b.fields[i]];
    }
    assert b.fields[..|b.fields|] == b.fields;
    res := Path(a.absolute, back, fields);
  }

  /** resolve_path, with the current directory as a parameter. */
  method ResolvePath(cwd: Path, path: Path) returns (full: Path)
    ensures full == Resolve(cwd, path)
  {
    if path.absolute {
      return path;
    }
    full := PathbufJoin(cwd, path);
  }

  /** pathbuf_cmp: equality. */
  method PathbufCmp(a: Path, b: Path) returns (same: bool)
    ensures same <==> a == b
  {
    if |a.fields| != |b.fields| || a.absolute != b.absolute || a.back != b.back {
      return false;
    }
    for i := 0 to |a.fields|
      invariant forall j :: 0 <= j < i ==> a.fields[j] == b.fields[j]
    {
      if a.fields[i] != b.fields[i] {
        return false;
      }
    }
    same := true;
  }

  // ---------------------------------------------------------------- parent and child

  function Child(p: Path, name: string): Path {
    p.(fields := p.fields + [name])
  }

  /** pathbuf_child and pathbuf_parent undo each other, and a child's path is what its parent's prints as,
      followed by the name. The source calls neither for the parent of the root. */
  lemma ChildParent(p: Path, name: string)
    requires Normal(p) && Name(name)
    ensures Up(Child(p, name)) == p && Normal(Child(p, name))
    ensures Parse(Print(p) + name) == Child(p, name)
  {
    NormalChild(p, name);
    hide Components, Walk, Normal, Name;
    assert (p.fields + [name])[..|p.fields|] == p.fields;
    ParsePrint(Child(p, name));
    assert Print(Child(p, name)) == (Print(p) + name) + "/" by {
      assert Names(p.fields + [name]) == Names(p.fields) + name + "/";
    }
    SlashAtEnd(Print(p) + name);
  }

  /** A trailing slash does not matter. */
  lemma SlashAtEnd(s: string)
    requires s != ""
    ensures Parse(s + "/") == Parse(s)
  {
    hide Components, Walk;
    assert s + "/" == s + "/" + "";
    ParseJoin(s, "");
    ParseEmpty();
    assert Parse(s).fields + [] == Parse(s).fields;
  }

  lemma NormalChild(p: Path, name: string)
    requires Normal(p) && Name(name)
    ensures Normal(Child(p, name)) && name != ""
  {
    assert forall c :: c in p.fields + [name] ==> c in p.fields || c == name;
  }

  lemma ParseEmpty()
    ensures Parse("") == HERE
  {
    assert Walk(HERE, [""]) == HERE;
  }
}
