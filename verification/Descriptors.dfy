/** File descriptors (src/descriptor.c) and the pipes and message queues they share across forked tasks
    (src/mq.c, src/task.c and the pipe, mqopen, dup, fork, close and exit system calls of src/syscall.c). */
module Descriptors {
  type Ptr = nat

  datatype Kind = Stdin | Stdout | Disk | Dir | Pipe | Mq

  datatype Access = Read | Write

  datatype Fd = Fd(kind: Kind, access: Access, ptr: Ptr, pos: nat, isopen: bool)

  // ---------------------------------------------------------------- one table

  /** The slot a new descriptor takes: the first closed one, or one behind the last. */
  function FirstClosed(t: seq<Fd>): (i: nat)
    ensures i <= |t| && (i < |t| ==> !t[i].isopen) && forall j :: 0 <= j < i ==> t[j].isopen
  {
    if t == [] || !t[0].isopen then 0 else 1 + FirstClosed(t[1..])
  }

  function Added(t: seq<Fd>, fd: Fd): (t': seq<Fd>)
    ensures |t'| == (if FirstClosed(t) == |t| then |t| + 1 else |t|) && t'[FirstClosed(t)] == fd.(isopen := true)
    ensures forall j :: 0 <= j < |t| && j != FirstClosed(t) ==> t'[j] == t[j]
  {
    var i := FirstClosed(t);
    if i == |t| then t + [fd.(isopen := true)] else t[i := fd.(isopen := true)]
  }

  lemma {:induction false} FirstClosedUnique(t: seq<Fd>, i: nat)
    requires i <= |t| && (i < |t| ==> !t[i].isopen) && forall j :: 0 <= j < i ==> t[j].isopen
    ensures i == FirstClosed(t)
  {
    if i > 0 {
      FirstClosedUnique(t[1..], i - 1);
    }
  }

  /** The growing array of one task. */
  class FdTable {
    var records: array<Fd>
    var size: nat

    ghost predicate Valid()
      reads this
    {
      size <= records.Length && records.Length > 0
    }

    function Table(): seq<Fd>
      requires Valid()
      reads this, records
    {
      records[..size]
    }

    /** fd_table_create; the source always asks for at least one slot. */
    constructor (initial: nat)
      requires initial > 0
      ensures Valid() && Table() == [] && fresh(records)
    {
      records := new Fd[initial];
      size := 0;
    }

    /** fd_table_add: the array doubles when it is full. */
    method Add(fd: Fd) returns (index: nat)
      requires Valid()
      modifies this, records
      ensures Valid() && (records == old(records) || fresh(records))
      ensures index == FirstClosed(old(Table())) && Table() == Added(old(Table()), fd)
      ensures if index == old(records.Length) then records.Length == 2 * old(records.Length)
              else records == old(records)
    {
      hide FirstClosed;
      index := 0;
      while index < size && records[index].isopen
        invariant index <= size
        invariant forall j :: 0 <= j < index ==> Table()[j].isopen
      {
        index := index + 1;
      }
      FirstClosedUnique(Table(), index);
      if index == size {
        if records.Length == size {
          var buffer := new Fd[2 * records.Length];
          forall i | 0 <= i < size {
            buffer[i] := records[i];
          }
          assert buffer[..size] == records[..size];
          records := buffer;
        }
        size := size + 1;
      }
      records[index] := fd.(isopen := true);
      assert Table() == Added(old(Table()), fd);
    }

    /** fd_table_rem. */
    method Rem(index: nat)
      requires Valid() && index < size
      modifies records
      ensures Valid() && Table() == old(Table())[index := old(Table())[index].(isopen := false)]
    {
      records[index] := records[index].(isopen := false);
    }
  }

  // ---------------------------------------------------------------- counting descriptors

  predicate Shared(fd: Fd) {
    fd.isopen && (fd.kind.Pipe? || fd.kind.Mq?)
  }

  /** 1 for an open descriptor of the `a` end of pipe `p`. */
  function One(fd: Fd, p: Ptr, a: Access): nat {
    if Shared(fd) && fd.ptr == p && fd.access == a then 1 else 0
  }

  function Count(t: seq<Fd>, p: Ptr, a: Access): nat {
    if t == [] then 0 else One(t[0], p, a) + Count(t[1..], p, a)
  }

  /** The open descriptors of the `a` end of pipe `p` in all tables. */
  function Total(tables: seq<seq<Fd>>, p: Ptr, a: Access): nat {
    if tables == [] then 0 else Count(tables[0], p, a) + Total(tables[1..], p, a)
  }

  lemma {:induction false} CountConcat(s: seq<Fd>, t: seq<Fd>, p: Ptr, a: Access)
    ensures Count(s + t, p, a) == Count(s, p, a) + Count(t, p, a)
  {
    if s == [] {
      assert s + t == t;
    } else {
      assert (s + t)[1..] == s[1..] + t;
      CountConcat(s[1..], t, p, a);
    }
  }

  lemma CountOne(fd: Fd, p: Ptr, a: Access)
    ensures Count([fd], p, a) == One(fd, p, a)
  {
    assert Count([fd][1..], p, a) == 0;
  }

  lemma CountUpdate(t: seq<Fd>, i: nat, fd: Fd, p: Ptr, a: Access)
    requires i < |t|
    ensures Count(t[i := fd], p, a) + One(t[i], p, a) == Count(t, p, a) + One(fd, p, a)
  {
    assert t == t[..i] + ([t[i]] + t[i + 1..]);
    assert t[i := fd] == t[..i] + ([fd] + t[i + 1..]);
    CountConcat(t[..i], [t[i]] + t[i + 1..], p, a);
    CountConcat([t[i]], t[i + 1..], p, a);
    CountConcat(t[..i], [fd] + t[i + 1..], p, a);
    CountConcat([fd], t[i + 1..], p, a);
    CountOne(t[i], p, a);
    CountOne(fd, p, a);
  }

  lemma CountAdded(t: seq<Fd>, fd: Fd, p: Ptr, a: Access)
    ensures Count(Added(t, fd), p, a) == Count(t, p, a) + One(fd.(isopen := true), p, a)
  {
    var i, taken := FirstClosed(t), fd.(isopen := true);
    if i == |t| {
      CountConcat(t, [taken], p, a);
      CountOne(taken, p, a);
    } else {
      CountUpdate(t, i, taken, p, a);
    }
  }

  lemma {:induction false} TotalUpdate(tables: seq<seq<Fd>>, pid: nat, t: seq<Fd>, p: Ptr, a: Access)
    requires pid < |tables|
    ensures Total(tables[pid := t], p, a) + Count(tables[pid], p, a) == Total(tables, p, a) + Count(t, p, a)
  {
    if pid > 0 {
      assert tables[pid := t][1..] == tables[1..][pid - 1 := t];
      TotalUpdate(tables[1..], pid - 1, t, p, a);
    }
  }

  lemma {:induction false} TotalAppend(tables: seq<seq<Fd>>, t: seq<Fd>, p: Ptr, a: Access)
    ensures Total(tables + [t], p, a) == Total(tables, p, a) + Count(t, p, a)
  {
    if tables == [] {
      assert tables + [t] == [t];
      assert Total([t][1..], p, a) == 0;
    } else {
      assert (tables + [t])[1..] == tables[1..] + [t];
      TotalAppend(tables[1..], t, p, a);
    }
  }

  /** An open descriptor is counted. */
  lemma {:induction false} CountedOne(t: seq<Fd>, i: nat, p: Ptr, a: Access)
    requires i < |t|
    ensures Count(t, p, a) >= One(t[i], p, a)
  {
    if i > 0 {
      CountedOne(t[1..], i - 1, p, a);
    }
  }

  lemma {:induction false} TotalOne(tables: seq<seq<Fd>>, pid: nat, i: nat, p: Ptr, a: Access)
    requires pid < |tables| && i < |tables[pid]|
    ensures Total(tables, p, a) >= One(tables[pid][i], p, a)
  {
    if pid > 0 {
      TotalOne(tables[1..], pid - 1, i, p, a);
    } else {
      CountedOne(tables[0], i, p, a);
    }
  }

  lemma {:induction false} NoneCounted(tables: seq<seq<Fd>>, p: Ptr, a: Access)
    requires forall t, i :: 0 <= t < |tables| && 0 <= i < |tables[t]| ==> !tables[t][i].isopen
    ensures Total(tables, p, a) == 0
  {
    if tables != [] {
      NoneInTable(tables[0], p, a);
      forall t, i | 0 <= t < |tables[1..]| && 0 <= i < |tables[1..][t]| ensures !tables[1..][t][i].isopen {
        assert tables[1..][t] == tables[t + 1];
      }
      NoneCounted(tables[1..], p, a);
    }
  }

  lemma {:induction false} NoneInTable(t: seq<Fd>, p: Ptr, a: Access)
    requires forall i :: 0 <= i < |t| ==> !t[i].isopen
    ensures Count(t, p, a) == 0
  {
    if t != [] {
      NoneInTable(t[1..], p, a);
    }
  }

  // ---------------------------------------------------------------- the pipes

  /** What descriptors see of a pipe. */
  datatype PipeEnds = PipeEnds(readers: nat, writers: nat, dead: bool)

  function Ends(e: PipeEnds, a: Access): nat {
    if a.Read? then e.readers else e.writers
  }

  function Changed(e: PipeEnds, a: Access, n: nat): PipeEnds {
    if a.Read? then e.(readers := n) else e.(writers := n)
  }

  /** The counters are right: they count the open descriptors, and nothing open names a pipe that was freed. */
  ghost predicate Agrees(tables: seq<seq<Fd>>, pipes: map<Ptr, PipeEnds>) {
    && (forall p, a :: p in pipes ==> Ends(pipes[p], a) == Total(tables, p, a))
    && (forall p, a :: p !in pipes ==> Total(tables, p, a) == 0)
  }

  /** A pipe is dead exactly when it has lost all ends, and only message queues outlive that. */
  ghost predicate Lively(pipes: map<Ptr, PipeEnds>, mq: set<Ptr>) {
    && mq <= pipes.Keys
    && (forall p :: p in pipes ==> (pipes[p].dead <==> pipes[p].readers == 0 && pipes[p].writers == 0))
    && (forall p :: p in pipes && p !in mq ==> !pipes[p].dead)
  }

  ghost predicate KindsMatch(tables: seq<seq<Fd>>, mq: set<Ptr>) {
    forall t, i :: 0 <= t < |tables| && 0 <= i < |tables[t]| && Shared(tables[t][i]) ==>
      (tables[t][i].kind.Mq? <==> tables[t][i].ptr in mq)
  }

  /** Names and queues of the message queue list; a name has one queue and a queue one name. */
  ghost predicate ListOk(names: seq<string>, queues: seq<Ptr>, mq: set<Ptr>) {
    && |names| == |queues|
    && (forall i, j :: 0 <= i < j < |names| ==> names[i] != names[j])
    && (forall i, j :: 0 <= i < j < |queues| ==> queues[i] != queues[j])
    && (forall i :: 0 <= i < |queues| ==> queues[i] in mq)
  }

  /** One more descriptor like `fd`, if it is one of a pipe. */
  function Bumped(pipes: map<Ptr, PipeEnds>, fd: Fd): map<Ptr, PipeEnds> {
    if Shared(fd) && fd.ptr in pipes then
      pipes[fd.ptr := Changed(pipes[fd.ptr], fd.access, Ends(pipes[fd.ptr], fd.access) + 1)]
    else
      pipes
  }

  lemma BumpedAgrees(tables: seq<seq<Fd>>, pipes: map<Ptr, PipeEnds>, mq: set<Ptr>, fd: Fd)
    requires Agrees(tables, pipes) && Lively(pipes, mq) && fd.isopen
    requires Shared(fd) ==> fd.ptr in pipes && Total(tables, fd.ptr, fd.access) > 0
    ensures forall p, a :: p in pipes ==> Ends(Bumped(pipes, fd)[p], a) == Total(tables, p, a) + One(fd, p, a)
    ensures Lively(Bumped(pipes, fd), mq) && Bumped(pipes, fd).Keys == pipes.Keys
  {
    hide Total;
  }

  lemma OpenIsAllocated(tables: seq<seq<Fd>>, pipes: map<Ptr, PipeEnds>, pid: nat, i: nat)
    requires Agrees(tables, pipes) && pid < |tables| && i < |tables[pid]|
    ensures Shared(tables[pid][i]) ==>
              tables[pid][i].ptr in pipes && Total(tables, tables[pid][i].ptr, tables[pid][i].access) > 0
  {
    TotalOne(tables, pid, i, tables[pid][i].ptr, tables[pid][i].access);
  }

  lemma EmptyTable(tables: seq<seq<Fd>>, pipes: map<Ptr, PipeEnds>, mq: set<Ptr>)
    requires Agrees(tables, pipes) && KindsMatch(tables, mq)
    ensures Agrees(tables + [[]], pipes) && KindsMatch(tables + [[]], mq)
  {
    forall p, a ensures Total(tables + [[]], p, a) == Total(tables, p, a) {
      TotalAppend(tables, [], p, a);
    }
  }

  /** A table under construction grows by a descriptor that has been counted. */
  lemma GrownTable(tables: seq<seq<Fd>>, t: seq<Fd>, fd: Fd, pipes: map<Ptr, PipeEnds>, mq: set<Ptr>)
    requires forall p, a :: p in pipes ==> Ends(pipes[p], a) == Total(tables + [t], p, a) + One(fd, p, a)
    requires forall p, a :: p !in pipes ==> Total(tables + [t], p, a) == 0
    requires Shared(fd) ==> fd.ptr in pipes && (fd.kind.Mq? <==> fd.ptr in mq)
    requires KindsMatch(tables + [t], mq)
    ensures Agrees(tables + [t + [fd]], pipes) && KindsMatch(tables + [t + [fd]], mq)
  {
    forall p, a ensures Total(tables + [t + [fd]], p, a) == Total(tables + [t], p, a) + One(fd, p, a) {
      TotalAppend(tables, t, p, a);
      TotalAppend(tables, t + [fd], p, a);
      CountConcat(t, [fd], p, a);
      CountOne(fd, p, a);
    }
    var all, all' := tables + [t], tables + [t + [fd]];
    forall k, i | 0 <= k < |all'| && 0 <= i < |all'[k]| && Shared(all'[k][i])
      ensures all'[k][i].kind.Mq? <==> all'[k][i].ptr in mq
    {
      if k < |tables| || i < |t| {
        assert all'[k][i] == all[k][i];
      }
    }
  }

  /** Adding a descriptor to a table and counting it. */
  lemma AgreesAdded(tables: seq<seq<Fd>>, pipes: map<Ptr, PipeEnds>, pid: nat, fd: Fd)
    requires pid < |tables| && (fd.kind.Pipe? || fd.kind.Mq? ==> fd.ptr in pipes)
    requires forall p, a :: p in pipes ==>
      Ends(pipes[p], a) == Total(tables, p, a) + One(fd.(isopen := true), p, a)
    requires forall p, a :: p !in pipes ==> Total(tables, p, a) == 0
    ensures Agrees(tables[pid := Added(tables[pid], fd)], pipes)
  {
    var tables' := tables[pid := Added(tables[pid], fd)];
    forall p, a ensures Total(tables', p, a) == Total(tables, p, a) + One(fd.(isopen := true), p, a) {
      TotalUpdate(tables, pid, Added(tables[pid], fd), p, a);
      CountAdded(tables[pid], fd, p, a);
    }
  }

  lemma TotalClosed(tables: seq<seq<Fd>>, pid: nat, i: nat)
    requires pid < |tables| && i < |tables[pid]|
    ensures var fd := tables[pid][i];
            var tables' := tables[pid := tables[pid][i := fd.(isopen := false)]];
            forall p, a :: Total(tables', p, a) + One(fd, p, a) == Total(tables, p, a)
  {
    var fd := tables[pid][i];
    var tables' := tables[pid := tables[pid][i := fd.(isopen := false)]];
    forall p, a ensures Total(tables', p, a) + One(fd, p, a) == Total(tables, p, a) {
      TotalUpdate(tables, pid, tables[pid][i := fd.(isopen := false)], p, a);
      CountUpdate(tables[pid], i, fd.(isopen := false), p, a);
    }
  }

  class DescriptorSystem {
    /** The table of each task, by pid. */
    var tables: seq<seq<Fd>>
    /** The allocated pipes. */
    var pipes: map<Ptr, PipeEnds>
    var names: seq<string>
    var queues: seq<Ptr>
    /** The pipes that were made for a message queue. */
    ghost var mq: set<Ptr>

    ghost predicate Valid()
      reads this
    {
      && Agrees(tables, pipes)
      && Lively(pipes, mq)
      && KindsMatch(tables, mq)
      && ListOk(names, queues, mq)
    }

    /** The first task has its two standard descriptors (init_fdt). */
    constructor ()
      ensures Valid() && tables == [[Fd(Stdin, Read, 0, 0, true), Fd(Stdout, Write, 0, 0, true)]]
      ensures pipes == map[] && names == []
    {
      var stdin := Fd(Stdin, Read, 0, 0, true);
      var stdout := Fd(Stdout, Write, 0, 0, true);
      tables := [[stdin, stdout]];
      pipes, names, queues, mq := map[], [], [], {};
      new;
      forall p, a ensures Total(tables, p, a) == 0 {
        assert tables[1..] == [] && tables[0][1..] == [stdout];
        CountOne(stdout, p, a);
      }
    }

    /** The two descriptors that pipe and mqopen hand out for a pipe whose ends are already counted. */
    method AddEnds(pid: nat, kind: Kind, ptr: Ptr) returns (rd: nat, wr: nat)
      requires pid < |tables| && ptr in pipes && (kind.Pipe? || kind.Mq?) && (kind.Mq? <==> ptr in mq)
      requires KindsMatch(tables, mq)
      requires forall p, a :: p in pipes && p != ptr ==> Ends(pipes[p], a) == Total(tables, p, a)
      requires forall a :: Ends(pipes[ptr], a) == Total(tables, ptr, a) + 1
      requires forall p, a :: p !in pipes ==> Total(tables, p, a) == 0
      modifies `tables
      ensures Agrees(tables, pipes) && KindsMatch(tables, mq)
      ensures Opened(old(tables), tables, pid, kind, ptr, rd, wr)
    {
      hide Total;
      var r, w := Fd(kind, Read, ptr, 0, true), Fd(kind, Write, ptr, 0, true);
      rd := FirstClosed(tables[pid]);
      ghost var half := pipes[ptr := pipes[ptr].(writers := Total(tables, ptr, Write))];
      AgreesAdded(tables, half, pid, r);
      KindsKept(tables, mq, pid, r);
      tables := tables[pid := Added(tables[pid], r)];
      wr := FirstClosed(tables[pid]);
      AgreesAdded(tables, pipes, pid, w);
      KindsKept(tables, mq, pid, w);
      tables := tables[pid := Added(tables[pid], w)];
    }

    /** syscall_pipe; `ptr` is the memory kmalloc has just returned. */
    method Pipe(pid: nat, ptr: Ptr) returns (rd: nat, wr: nat)
      requires Valid() && pid < |tables| && ptr !in pipes
      modifies `tables, `pipes
      ensures Valid() && pipes == old(pipes)[ptr := PipeEnds(1, 1, false)]
      ensures Opened(old(tables), tables, pid, Kind.Pipe, ptr, rd, wr)
    {
      hide Total;
      pipes := pipes[ptr := PipeEnds(1, 1, false)];
      rd, wr := AddEnds(pid, Kind.Pipe, ptr);
    }

    /** mqlist_open: the queue of that name, revived when it is dead, or a new one in the first dead slot or
        behind the list. `ptr` is the memory kmalloc returns, if it is asked. */
    method MqlistOpen(name: string, ptr: Ptr) returns (pipe: Ptr)
      requires Valid() && ptr !in pipes
      modifies `pipes, `names, `queues, `mq
      ensures pipes.Keys == old(pipes).Keys + {pipe} && mq == old(mq) + {pipe}
      ensures pipe == ptr || pipe in old(mq)
      ensures forall p :: p in old(pipes) && p != pipe ==> pipes[p] == old(pipes)[p]
      ensures if pipe in old(pipes) && !old(pipes)[pipe].dead
        then pipes[pipe] == PipeEnds(old(pipes)[pipe].readers + 1, old(pipes)[pipe].writers + 1, false)
        else pipes[pipe] == PipeEnds(1, 1, false)
      ensures Lively(pipes, mq) && ListOk(names, queues, mq)
      ensures Resolved(old(names), old(queues), name, pipe, ptr) && Listed(names, queues, name, pipe)
      ensures OthersListed(old(names), old(queues), old(pipes), names, queues, name)
      ensures name in old(names) ==> names == old(names) && queues == old(queues)
      ensures name !in old(names) ==> exists f: nat ::
                && FirstDead(old(queues), old(pipes), f)
                && names == (if f < |old(names)| then old(names)[f := name] else old(names) + [name])
                && queues == (if f < |old(queues)| then old(queues)[f := ptr] else old(queues) + [ptr])
    {
      hide Resolved, Listed, OthersListed, Lively, ListOk;
      ListedAllocated(names, queues, pipes, mq);
      var free := -1;
      var i := 0;
      while i < |names|
        invariant i <= |names| && -1 <= free < i
        invariant forall k :: 0 <= k < i ==> names[k] != name
        invariant free >= 0 ==> pipes[queues[free]].dead
        invariant forall k :: 0 <= k < (if free >= 0 then free else i) ==> !pipes[queues[k]].dead
      {
        if names[i] == name {
          pipe := queues[i];
          FoundQueue(names, queues, pipes, mq, i, ptr);
          if pipes[pipe].dead {
            pipes := pipes[pipe := PipeEnds(1, 1, false)];
          } else {
            pipes := pipes[pipe := PipeEnds(pipes[pipe].readers + 1, pipes[pipe].writers + 1, false)];
          }
          return;
        }
        if free == -1 && pipes[queues[i]].dead {
          free := i;
        }
        i := i + 1;
      }
      NewQueue(names, queues, pipes, mq, name, ptr, free);
      assert FirstDead(queues, pipes, if free == -1 then |queues| else free);
      pipe := ptr;
      pipes := pipes[ptr := PipeEnds(1, 1, false)];
      mq := mq + {ptr};
      if free == -1 {
        names, queues := names + [""], queues + [0];
        free := |names| - 1;
      }
      names, queues := names[free := name], queues[free := pipe];
    }

    /** syscall_mqopen. */
    method MqOpen(pid: nat, name: string, ptr: Ptr) returns (rd: nat, wr: nat, ghost pipe: Ptr)
      requires Valid() && pid < |tables| && ptr !in pipes
      modifies this
      ensures Valid() && pipe in pipes && pipe in mq && !pipes[pipe].dead
      ensures forall p :: p in old(pipes) && p != pipe ==> p in pipes && pipes[p] == old(pipes)[p]
      ensures Opened(old(tables), tables, pid, Mq, pipe, rd, wr)
      ensures Resolved(old(names), old(queues), name, pipe, ptr) && Listed(names, queues, name, pipe)
      ensures OthersListed(old(names), old(queues), old(pipes), names, queues, name)
    {
      hide Total, Listed, Resolved, OthersListed, ListOk;
      KindsGrow(tables, mq, ptr);
      var p := MqlistOpen(name, ptr);
      pipe := p;
      rd, wr := AddEnds(pid, Mq, p);
    }

    /** fd_table_clone_entry: one more descriptor for the same end. */
    method CloneEntry(fd: Fd) returns (copy: Fd)
      requires fd.isopen && (Shared(fd) ==> fd.ptr in pipes)
      modifies `pipes
      ensures copy == fd && pipes == Bumped(old(pipes), fd)
    {
      if fd.kind.Pipe? || fd.kind.Mq? {
        pipes := pipes[fd.ptr := Changed(pipes[fd.ptr], fd.access, Ends(pipes[fd.ptr], fd.access) + 1)];
      }
      copy := fd;
    }

    /** syscall_dup. */
    method Dup(pid: nat, index: nat) returns (fd: int)
      requires Valid() && pid < |tables|
      modifies `tables, `pipes
      ensures Valid() && pipes.Keys == old(pipes).Keys
      ensures if index < |old(tables)[pid]| && old(tables)[pid][index].isopen
        then fd == FirstClosed(old(tables)[pid])
          && tables == old(tables)[pid := Added(old(tables)[pid], old(tables)[pid][index])]
        else fd == -1 && tables == old(tables) && pipes == old(pipes)
    {
      hide Total;
      if index >= |tables[pid]| || !tables[pid][index].isopen {
        return -1;
      }
      ghost var was := pipes;
      OpenIsAllocated(tables, pipes, pid, index);
      var copy := CloneEntry(tables[pid][index]);
      fd := FirstClosed(tables[pid]);
      BumpedAgrees(tables, was, mq, copy);
      AgreesAdded(tables, pipes, pid, copy);
      KindsKept(tables, mq, pid, copy);
      tables := tables[pid := Added(tables[pid], copy)];
    }

    /** fd_table_close. A pipe that has lost its last end is freed; a message queue stays, dead. */
    method Close(pid: nat, index: nat)
      requires Valid() && pid < |tables|
      modifies `tables, `pipes
      ensures Valid()
      ensures tables == old(tables)[pid := ClosedAt(old(tables)[pid], index)]
      ensures old(pipes).Keys - Freed(old(tables)[pid], index, mq) <= pipes.Keys <= old(pipes).Keys
      ensures forall p :: p in pipes && !NamedAt(old(tables)[pid], index, p) ==> pipes[p] == old(pipes)[p]
    {
      hide Total;
      if index >= |tables[pid]| {
        return;
      }
      var fd := tables[pid][index];
      if !fd.isopen {
        assert tables[pid][index := fd] == tables[pid];
        return;
      }
      OpenIsAllocated(tables, pipes, pid, index);
      TotalClosed(tables, pid, index);
      tables := tables[pid := tables[pid][index := fd.(isopen := false)]];
      if fd.kind.Pipe? || fd.kind.Mq? {
        var dead := CloseEnd(fd.ptr, fd.access);
        if dead && fd.kind != Mq {
          pipes := pipes - {fd.ptr};
        }
      }
    }

    /** pipe_close_rd and pipe_close_wr. */
    method CloseEnd(p: Ptr, a: Access) returns (dead: bool)
      requires p in pipes && Ends(pipes[p], a) > 0
      modifies `pipes
      ensures p in pipes && (dead <==> pipes[p].readers == 0 && pipes[p].writers == 0)
      ensures pipes == old(pipes)[p := pipes[p]] && pipes[p].dead == (old(pipes)[p].dead || dead)
      ensures forall b :: Ends(pipes[p], b) == Ends(old(pipes)[p], b) - (if a == b then 1 else 0)
    {
      var e := Changed(pipes[p], a, Ends(pipes[p], a) - 1);
      dead := e.readers == 0 && e.writers == 0;
      if dead {
        e := e.(dead := true);
      }
      pipes := pipes[p := e];
    }

    /** task_close_all_fds, as exit calls it. */
    method CloseAll(pid: nat)
      requires Valid() && pid < |tables|
      modifies `tables, `pipes
      ensures Valid() && |tables| == |old(tables)| && pipes.Keys <= old(pipes).Keys
      ensures forall t :: 0 <= t < |tables| && t != pid ==> tables[t] == old(tables)[t]
      ensures |tables[pid]| == |old(tables)[pid]| && forall i :: 0 <= i < |tables[pid]| ==> !tables[pid][i].isopen
    {
      var i := 0;
      while i < |tables[pid]|
        invariant Valid() && |tables| == |old(tables)| && pipes.Keys <= old(pipes).Keys
        invariant forall t :: 0 <= t < |tables| && t != pid ==> tables[t] == old(tables)[t]
        invariant i <= |tables[pid]| == |old(tables)[pid]|
        invariant forall j :: 0 <= j < i ==> !tables[pid][j].isopen
        modifies `tables, `pipes
      {
        if tables[pid][i].isopen {
          Close(pid, i);
        }
        i := i + 1;
      }
    }

    /** The descriptor part of task_fork (fd_table_clone): the child's table is the parent's, entry by entry. */
    method Fork(pid: nat) returns (child: nat)
      requires Valid() && pid < |tables|
      modifies `tables, `pipes
      ensures Valid() && child == |old(tables)| && pipes.Keys == old(pipes).Keys
      ensures |tables| == child + 1 && tables[..child] == old(tables)
      ensures Cloned(old(tables)[pid], tables[child])
    {
      hide Total, Count;
      var table, copy := tables[pid], [];
      child := |tables|;
      ghost var all := tables + [copy];
      EmptyTable(tables, pipes, mq);
      var i := 0;
      while i < |table|
        invariant i <= |table| && Cloned(table[..i], copy) && pipes.Keys == old(pipes).Keys
        invariant Agrees(tables + [copy], pipes) && Lively(pipes, mq) && KindsMatch(tables + [copy], mq)
        modifies `pipes
      {
        ghost var was := pipes;
        if table[i].isopen {
          OpenIsAllocated(tables + [copy], pipes, pid, i);
          var fd := CloneEntry(table[i]);
          BumpedAgrees(tables + [copy], was, mq, fd);
          GrownTable(tables, copy, fd, pipes, mq);
          copy := copy + [fd];
        } else {
          GrownTable(tables, copy, CLOSED, pipes, mq);
          copy := copy + [CLOSED];
        }
        i := i + 1;
      }
      tables := tables + [copy];
    }
  }

  // ---------------------------------------------------------------- what the operations say

  const CLOSED := Fd(Stdin, Read, 0, 0, false)

  /** The child's table: every open descriptor at its index, and nothing else open. */
  ghost predicate Cloned(t: seq<Fd>, t': seq<Fd>) {
    |t'| == |t| && forall i :: 0 <= i < |t| ==> if t[i].isopen then t'[i] == t[i] else !t'[i].isopen
  }

  /** The first slot whose queue is dead, or one behind the last. */
  ghost predicate FirstDead(queues: seq<Ptr>, pipes: map<Ptr, PipeEnds>, f: nat) {
    && f <= |queues|
    && (forall k :: 0 <= k < f ==> queues[k] in pipes && !pipes[queues[k]].dead)
    && (f < |queues| ==> queues[f] in pipes && pipes[queues[f]].dead)
  }

  function ClosedAt(t: seq<Fd>, index: nat): seq<Fd> {
    if index < |t| then t[index := t[index].(isopen := false)] else t
  }

  /** The descriptor at `index` is open and one of pipe `p`. */
  predicate NamedAt(t: seq<Fd>, index: nat, p: Ptr) {
    index < |t| && Shared(t[index]) && t[index].ptr == p
  }

  /** What closing a descriptor may free: the pipe it names. */
  function Freed(t: seq<Fd>, index: nat, mq: set<Ptr>): set<Ptr> {
    if index < |t| && Shared(t[index]) then {t[index].ptr} - mq else {}
  }

  /** Two new descriptors for the two ends of `ptr`; every other descriptor of every task is as before. */
  ghost predicate Opened(tables: seq<seq<Fd>>, tables': seq<seq<Fd>>, pid: nat, kind: Kind, ptr: Ptr, rd: nat,
                         wr: nat) {
    && |tables'| == |tables| && pid < |tables|
    && rd == FirstClosed(tables[pid]) && wr == FirstClosed(Added(tables[pid], Fd(kind, Read, ptr, 0, true)))
    && (forall t :: 0 <= t < |tables| && t != pid ==> tables'[t] == tables[t])
    && rd < wr < |tables'[pid]| && |tables[pid]| <= |tables'[pid]|
    && tables'[pid][rd] == Fd(kind, Read, ptr, 0, true) && tables'[pid][wr] == Fd(kind, Write, ptr, 0, true)
    && (rd < |tables[pid]| ==> !tables[pid][rd].isopen) && (wr < |tables[pid]| ==> !tables[pid][wr].isopen)
    && (forall i :: 0 <= i < |tables[pid]| && i != rd && i != wr ==> tables'[pid][i] == tables[pid][i])
  }

  /** A listed name keeps its queue; another name gets the new one. */
  ghost predicate Resolved(names: seq<string>, queues: seq<Ptr>, name: string, pipe: Ptr, ptr: Ptr)
  {
    && |names| == |queues|
    && (forall i :: 0 <= i < |names| && names[i] == name ==> pipe == queues[i])
    && ((forall i :: 0 <= i < |names| ==> names[i] != name) ==> pipe == ptr)
  }

  ghost predicate Listed(names: seq<string>, queues: seq<Ptr>, name: string, pipe: Ptr) {
    |names| == |queues| && exists i :: 0 <= i < |names| && names[i] == name && queues[i] == pipe
  }

  /** Every other name that has a live queue keeps it. */
  ghost predicate OthersListed(names: seq<string>, queues: seq<Ptr>, pipes: map<Ptr, PipeEnds>,
                               names': seq<string>, queues': seq<Ptr>, name: string) {
    |names| == |queues| && |names'| == |queues'| &&
    forall i :: 0 <= i < |names| && names[i] != name && queues[i] in pipes && !pipes[queues[i]].dead ==>
      i < |names'| && names'[i] == names[i] && queues'[i] == queues[i]
  }

  lemma ListedAllocated(names: seq<string>, queues: seq<Ptr>, pipes: map<Ptr, PipeEnds>, mq: set<Ptr>)
    requires Lively(pipes, mq) && ListOk(names, queues, mq)
    ensures |names| == |queues| && mq <= pipes.Keys
    ensures forall k :: 0 <= k < |queues| ==> queues[k] in mq && queues[k] in pipes
  {
  }

  /** The name is listed at `i`. */
  lemma FoundQueue(names: seq<string>, queues: seq<Ptr>, pipes: map<Ptr, PipeEnds>, mq: set<Ptr>, i: nat, ptr: Ptr)
    requires Lively(pipes, mq) && ListOk(names, queues, mq) && i < |names|
    ensures Resolved(names, queues, names[i], queues[i], ptr) && Listed(names, queues, names[i], queues[i])
    ensures OthersListed(names, queues, pipes, names, queues, names[i])
    ensures forall e: PipeEnds :: !e.dead && e.readers > 0 ==> Lively(pipes[queues[i] := e], mq)
  {
    assert queues[i] in mq;
  }

  /** The name is not listed, and `free` is the first slot of a dead queue, or -1. */
  lemma NewQueue(names: seq<string>, queues: seq<Ptr>, pipes: map<Ptr, PipeEnds>, mq: set<Ptr>, name: string,
                 ptr: Ptr, free: int)
    requires Lively(pipes, mq) && ListOk(names, queues, mq) && ptr !in pipes
    requires forall k :: 0 <= k < |names| ==> names[k] != name
    requires -1 <= free < |names| && (free >= 0 ==> queues[free] in pipes && pipes[queues[free]].dead)
    ensures Resolved(names, queues, name, ptr, ptr) && Lively(pipes[ptr := PipeEnds(1, 1, false)], mq + {ptr})
    ensures free >= 0 ==> Renamed(names, queues, pipes, mq, names[free := name], queues[free := ptr], name, ptr)
    ensures free == -1 ==> Renamed(names, queues, pipes, mq, (names + [""])[|names| := name],
                                   (queues + [0])[|queues| := ptr], name, ptr)
  {
    var slot := if free >= 0 then free else |names|;
    var names' := if free >= 0 then names[free := name] else (names + [""])[|names| := name];
    var queues' := if free >= 0 then queues[free := ptr] else (queues + [0])[|queues| := ptr];
    assert names'[slot] == name && queues'[slot] == ptr;
  }

  ghost predicate Renamed(names: seq<string>, queues: seq<Ptr>, pipes: map<Ptr, PipeEnds>, mq: set<Ptr>,
                          names': seq<string>, queues': seq<Ptr>, name: string, ptr: Ptr) {
    && ListOk(names', queues', mq + {ptr}) && Listed(names', queues', name, ptr)
    && OthersListed(names, queues, pipes, names', queues', name)
  }

  /** Nothing open names memory that has just been allocated. */
  lemma KindsGrow(tables: seq<seq<Fd>>, mq: set<Ptr>, ptr: Ptr)
    requires KindsMatch(tables, mq) && forall a :: Total(tables, ptr, a) == 0
    ensures KindsMatch(tables, mq + {ptr})
  {
    forall t, i | 0 <= t < |tables| && 0 <= i < |tables[t]| && Shared(tables[t][i]) ensures tables[t][i].ptr != ptr {
      TotalOne(tables, t, i, ptr, tables[t][i].access);
    }
  }

  lemma KindsKept(tables: seq<seq<Fd>>, mq: set<Ptr>, pid: nat, fd: Fd)
    requires pid < |tables| && KindsMatch(tables, mq)
    requires (fd.kind.Pipe? || fd.kind.Mq? ==> (fd.kind.Mq? <==> fd.ptr in mq))
    ensures KindsMatch(tables[pid := Added(tables[pid], fd)], mq)
  {
    var t' := Added(tables[pid], fd);
    forall i | 0 <= i < |t'| && Shared(t'[i]) ensures t'[i].kind.Mq? <==> t'[i].ptr in mq {
      if i != FirstClosed(tables[pid]) {
        assert t'[i] == tables[pid][i];
      }
    }
  }

  /** Once every task has closed everything, only message queues are left, all of them dead. */
  lemma NothingLeft(s: DescriptorSystem)
    requires s.Valid()
    requires forall t, i :: 0 <= t < |s.tables| && 0 <= i < |s.tables[t]| ==> !s.tables[t][i].isopen
    ensures s.pipes.Keys == s.mq && forall p :: p in s.pipes ==> s.pipes[p].dead
  {
    forall p | p in s.pipes ensures s.pipes[p].dead {
      NoneCounted(s.tables, p, Read);
      NoneCounted(s.tables, p, Write);
      assert Ends(s.pipes[p], Read) == 0 && Ends(s.pipes[p], Write) == 0;
    }
  }

  /** The two counters of a pipe are the numbers of open read and write descriptors, over all tasks. */
  lemma EndsAreCounted(s: DescriptorSystem, p: Ptr)
    requires s.Valid() && p in s.pipes
    ensures s.pipes[p].readers == Total(s.tables, p, Read) && s.pipes[p].writers == Total(s.tables, p, Write)
  {
    assert Ends(s.pipes[p], Read) == Total(s.tables, p, Read) && Ends(s.pipes[p], Write) == Total(s.tables, p, Write);
  }

  /** A pipe that was not made for a message queue exists exactly as long as something open names it. */
  lemma ExistsWhileOpen(s: DescriptorSystem, p: Ptr)
    requires s.Valid() && p !in s.mq
    ensures p in s.pipes <==> Total(s.tables, p, Read) + Total(s.tables, p, Write) > 0
  {
    if p in s.pipes {
      assert Ends(s.pipes[p], Read) == Total(s.tables, p, Read) && Ends(s.pipes[p], Write) == Total(s.tables, p, Write);
    }
  }

  /** Every open descriptor of a pipe names a pipe that is allocated and not dead. */
  lemma OpenNamesLive(s: DescriptorSystem, pid: nat, i: nat)
    requires s.Valid() && pid < |s.tables| && i < |s.tables[pid]| && Shared(s.tables[pid][i])
    ensures s.tables[pid][i].ptr in s.pipes && !s.pipes[s.tables[pid][i].ptr].dead
  {
    var fd := s.tables[pid][i];
    OpenIsAllocated(s.tables, s.pipes, pid, i);
    assert Ends(s.pipes[fd.ptr], fd.access) > 0;
  }
}
