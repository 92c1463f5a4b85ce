/** Pipes (src/pipe.c), semaphores (src/lock.c) and the run queue (src/task.c) together, step by step on values.
    Handlers run with interrupts off, so each step is atomic, up to the point where its task goes to sleep. Many
    readers and writers share one pipe; the tasks that use something else are in the run queue as well. */
module PipeSteps {
  import opened Bytes
  import opened DirTable
  import opened Scheduling
  import opened Sequences

  /** The part of a byte string in front of its first NUL, as strlen sees it. */
  function CString(s: seq<byte>): seq<byte> {
    s[..StrLen(s)]
  }

  lemma CStringLength(s: seq<byte>)
    ensures |CString(s)| == StrLen(s)
  {
    hide StrLen;
  }

  /** A write arrives whole exactly when it contains no NUL. */
  lemma CStringWhole(s: seq<byte>)
    ensures CString(s + [0]) == s <==> NulFree(s)
  {
    var t := s + [0];
    assert t[..|s|] == s;
    assert forall i :: 0 <= i < |s| ==> t[i] == s[i];
    if NulFree(s) {
      StrLenIs(t, |s|);
    }
  }

  /** What the queued messages still hold. */
  function Queued(list: seq<seq<byte>>): seq<byte> {
    if list == [] then [] else CString(list[0]) + Queued(list[1..])
  }

  lemma {:induction false} QueuedConcat(a: seq<seq<byte>>, b: seq<seq<byte>>)
    ensures Queued(a + b) == Queued(a) + Queued(b)
  {
    if a == [] {
      assert a + b == b;
    } else {
      assert (a + b)[1..] == a[1..] + b;
      QueuedConcat(a[1..], b);
    }
  }

  lemma QueuedOne(m: seq<byte>)
    ensures Queued([m]) == CString(m)
  {
    assert Queued([m]) == CString(m) + Queued([m][1..]);
  }

  lemma QueuedStep(list: seq<seq<byte>>)
    requires list != []
    ensures Queued(list) == CString(list[0]) + Queued(list[1..])
  {
  }

  lemma NothingQueued()
    ensures Queued([]) == []
  {
  }

  /** Every message is a C string. */
  ghost predicate Terminated(list: seq<seq<byte>>) {
    forall k :: 0 <= k < |list| ==> StrLen(list[k]) < |list[k]|
  }

  lemma TerminatedParts(list: seq<seq<byte>>, m: seq<byte>)
    requires Terminated(list)
    ensures StrLen(m) < |m| ==> Terminated(list + [m]) && (list != [] ==> Terminated([m] + list[1..]))
    ensures list != [] ==> StrLen(list[0]) < |list[0]| && Terminated(list[1..])
  {
    hide StrLen;
  }

  lemma TerminatedString(s: seq<byte>)
    ensures StrLen(s + [0]) < |s + [0]|
  {
    assert (s + [0])[|s|] == 0;
  }

  /** Moving the unread bytes to the front and ending them there. */
  lemma ShiftedString(input: seq<byte>, len: nat)
    requires len < StrLen(input) < |input|
    ensures var rest := input[len..StrLen(input)];
            var after := rest + [0] + input[|rest| + 1..];
            |rest| + 1 <= |input| && StrLen(after) < |after| && CString(after) == rest
  {
    var rest := input[len..StrLen(input)];
    var after := rest + [0] + input[|rest| + 1..];
    assert after[..|rest|] == rest && after[|rest|] == 0;
    assert forall i :: 0 <= i < |rest| ==> rest[i] == input[len + i];
    StrLenIs(after, |rest|);
  }

  // ---------------------------------------------------------------- the steps on values

  /** The pipe, its semaphore and the run queue; `granted` are the readers that were woken and have not run since, and
      `wants` is how much each reader that fell asleep had asked for, a parameter of its call that it keeps. */
  datatype PipeState = PipeState(
    list: seq<seq<byte>>, readers: nat, writers: nat, lock: Lock, rr: seq<Task>, granted: set<Task>,
    wants: map<Task, nat>)

  datatype PipeEvent =
    | Written(buffer: seq<byte>)
    | Asked(len: nat)
    | Resumed
    | Switched
    | Arrived(task: Task)
    | Departed
    | Shared(reader: bool)
    | Closed(reader: bool)

  /** A signal: the first sleeper, if there is one, becomes runnable. */
  function Woken(s: PipeState): PipeState {
    var sq := s.lock.sq;
    if sq == [] then s.(lock := Signalled(s.lock))
    else s.(lock := Signalled(s.lock), rr := s.rr + [sq[0]], granted := s.granted + {sq[0]})
  }

  /** The message with its first `len` bytes gone and the rest moved to the front. */
  function Shifted(m: seq<byte>, len: nat): seq<byte>
    requires len < StrLen(m) < |m|
  {
    var rest := m[len..StrLen(m)];
    rest + [0] + m[|rest| + 1..]
  }

  predicate Servable(s: PipeState) {
    s.list != [] && StrLen(s.list[0]) < |s.list[0]|
  }

  /** The messages after a read: a short one leaves the rest of the first message, a long one removes it. */
  function Taken(list: seq<seq<byte>>, len: nat): seq<seq<byte>>
    requires list != []
  {
    if len < StrLen(list[0]) < |list[0]| then [Shifted(list[0], len)] + list[1..] else list[1..]
  }

  /** A reader uses its permit, and signals if it leaves the rest of the message. */
  function Served(s: PipeState, len: nat): PipeState
    requires Servable(s)
  {
    var left := s.(list := Taken(s.list, len));
    if len < StrLen(s.list[0]) then Woken(left) else left
  }

  /** A read returns nothing at once. */
  predicate Ended(s: PipeState) {
    s.list == [] && s.writers == 0
  }

  /** A step that the current task can take. */
  predicate Enabled(s: PipeState, e: PipeEvent) {
    s.rr != [] &&
    match e
    case Asked(_) => s.rr[0] !in s.granted && (s.lock.value > 0 && !Ended(s) ==> Servable(s))
    case Resumed => s.rr[0] in s.granted && s.rr[0] in s.wants && Servable(s)
    case Departed => s.rr[0] !in s.granted
    case Arrived(t) => t !in s.rr && t !in s.lock.sq
    case Closed(reader) => (if reader then s.readers else s.writers) > 0
    case _ => true
  }

  function PipeNext(s: PipeState, e: PipeEvent): PipeState
    requires Enabled(s, e)
  {
    match e
    case Written(buffer) => if s.readers == 0 then s else Woken(s.(list := s.list + [buffer + [0]]))
    case Asked(len) =>
      if Ended(s) then s
      else if s.lock.value <= 0 then
        s.(lock := Waited(s.lock, s.rr[0]), rr := Step(s.rr, Sleep), wants := s.wants[s.rr[0] := len])
      else Served(s.(lock := Waited(s.lock, s.rr[0])), len)
    case Resumed => Served(s.(granted := s.granted - {s.rr[0]}), s.wants[s.rr[0]])
    case Switched => s.(rr := Step(s.rr, Preempt))
    case Arrived(t) => s.(rr := Step(s.rr, Awake(t)))
    case Departed => s.(rr := Step(s.rr, Sleep))
    case Shared(reader) => if reader then s.(readers := s.readers + 1) else s.(writers := s.writers + 1)
    case Closed(reader) =>
      var left := if reader then s.(readers := s.readers - 1) else s.(writers := s.writers - 1);
      if Dead(left) then left.(list := []) else left
  }

  predicate Dead(s: PipeState) {
    s.readers == 0 && s.writers == 0
  }

  // ---------------------------------------------------------------- what every step keeps

  /** No task is queued twice or both runnable and blocked, the idle task is always runnable, and so are the
      readers that were woken. */
  ghost predicate Queues(rr: seq<Task>, sq: seq<Task>, granted: set<Task>, idle: Task) {
    && Distinct(rr) && Distinct(sq) && (forall t :: t in sq ==> t !in rr) && idle in rr
    && (forall t :: t in granted ==> t in rr && t != idle)
  }

  /** Every message is a C string, and every reader that sleeps or was woken has asked for something. The semaphore
      counts the sleepers below zero, and above it the messages that nobody has been promised, `spare` of them left
      aside. */
  ghost predicate Sound(s: PipeState, idle: Task, spare: nat) {
    && Terminated(s.list) && Queues(s.rr, s.lock.sq, s.granted, idle)
    && (forall t :: t in s.granted || t in s.lock.sq ==> t in s.wants)
    && |s.lock.sq| == (if s.lock.value < 0 then -s.lock.value else 0)
    && |s.list| == (if s.lock.value > 0 then s.lock.value else 0) + |s.granted| + spare
  }

  lemma QueuesWake(rr: seq<Task>, sq: seq<Task>, granted: set<Task>, idle: Task)
    requires Queues(rr, sq, granted, idle) && sq != []
    ensures Queues(rr + [sq[0]], sq[1..], granted + {sq[0]}, idle) && sq[0] !in granted
  {
    assert sq == [sq[0]] + sq[1..];
    assert sq[0] in sq;
  }

  lemma QueuesSleep(rr: seq<Task>, sq: seq<Task>, granted: set<Task>, idle: Task)
    requires Queues(rr, sq, granted, idle) && rr[0] != idle && rr[0] !in granted
    ensures Step(rr, Sleep) == rr[1..] && Queues(rr[1..], sq + [rr[0]], granted, idle)
    ensures Queues(rr[1..], sq, granted, idle)
  {
    assert rr == [rr[0]] + rr[1..];
    assert idle in rr[1..];
    assert rr[0] in rr && rr[0] !in sq;
  }

  lemma QueuesTurn(rr: seq<Task>, sq: seq<Task>, granted: set<Task>, idle: Task, t: Task)
    requires Queues(rr, sq, granted, idle)
    ensures Queues(Step(rr, Preempt), sq, granted, idle)
    ensures t !in rr && t !in sq ==> Queues(Step(rr, Awake(t)), sq, granted, idle)
  {
    assert rr == [rr[0]] + rr[1..];
    assert forall x :: x in Step(rr, Preempt) <==> x in rr;
  }

  /** A signal for one message more than the invariant accounts for. */
  lemma WokenSound(s: PipeState, idle: Task)
    requires Sound(s, idle, 1)
    ensures Sound(Woken(s), idle, 0)
  {
    hide Queues, Terminated;
    if s.lock.sq != [] {
      QueuesWake(s.rr, s.lock.sq, s.granted, idle);
    }
  }

  lemma ServedSound(s: PipeState, idle: Task, len: nat)
    requires Sound(s, idle, 1)
    ensures Servable(s) && Sound(Served(s, len), idle, 0)
  {
    hide Queues, Terminated, StrLen, Woken;
    var m := s.list[0];
    TerminatedParts(s.list, m);
    if len < StrLen(m) {
      ShiftedString(m, len);
      TerminatedParts(s.list, Shifted(m, len));
      WokenSound(s.(list := [Shifted(m, len)] + s.list[1..]), idle);
    }
  }

  /** The step leaves a pipe behind, and it is not the idle task that reads or goes. */
  predicate Allowed(s: PipeState, e: PipeEvent, idle: Task) {
    Enabled(s, e) && (e.Asked? || e.Departed? ==> s.rr[0] != idle) && (e.Closed? ==> s.readers + s.writers > 1)
  }

  lemma NextSound(s: PipeState, e: PipeEvent, idle: Task)
    requires Sound(s, idle, 0) && Allowed(s, e, idle)
    ensures Sound(PipeNext(s, e), idle, 0)
  {
    hide Queues, Terminated, Served, Woken, StrLen, Step;
    match e
    case Written(buffer) =>
      TerminatedString(buffer);
      TerminatedParts(s.list, buffer + [0]);
      WokenSound(s.(list := s.list + [buffer + [0]]), idle);
    case Asked(len) => AskedSound(s, len, idle);
    case Resumed => ResumedSound(s, idle);
    case Departed => QueuesSleep(s.rr, s.lock.sq, s.granted, idle);
    case Switched => QueuesTurn(s.rr, s.lock.sq, s.granted, idle, idle);
    case Arrived(t) => QueuesTurn(s.rr, s.lock.sq, s.granted, idle, t);
    case _ =>
  }

  lemma AskedSound(s: PipeState, len: nat, idle: Task)
    requires Sound(s, idle, 0) && s.rr != [] && s.rr[0] != idle && s.rr[0] !in s.granted
    ensures Enabled(s, Asked(len)) && Sound(PipeNext(s, Asked(len)), idle, 0)
  {
    hide Queues, Terminated, Served, Woken, StrLen, Step;
    if s.lock.value <= 0 {
      QueuesSleep(s.rr, s.lock.sq, s.granted, idle);
    } else {
      ServedSound(s.(lock := Waited(s.lock, s.rr[0])), idle, len);
    }
  }

  lemma ResumedSound(s: PipeState, idle: Task)
    requires Sound(s, idle, 0) && s.rr != [] && s.rr[0] in s.granted
    ensures Enabled(s, Resumed) && Sound(PipeNext(s, Resumed), idle, 0)
  {
    hide Terminated, Served, Woken, StrLen, Step;
    ServedSound(s.(granted := s.granted - {s.rr[0]}), idle, s.wants[s.rr[0]]);
  }
}
