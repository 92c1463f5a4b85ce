/** Whole runs of a pipe that has no name: who sleeps for good once the last writer has gone. */
module PipeRuns {
  import opened Bytes
  import opened DirTable
  import opened PipeSteps
  import opened Scheduling
  import opened Sequences

  // ---------------------------------------------------------------- what the system can do

  /** System calls refuse a length of 0 (src/syscall.c:340-343 and 396-399) and need an open end; for a read any end
      will do, since the test for its kind always passes (src/syscall.c:336). A woken reader is inside its call, where
      interrupts are off, and goes on before anything else. The idle task uses no pipe and never goes. */
  predicate Legal(s: PipeState, e: PipeEvent, idle: Task) {
    && Enabled(s, e)
    && (s.rr[0] in s.granted ==> e.Resumed?)
    && (s.rr[0] == idle ==> e.Switched? || e.Arrived?)
    && match e
       case Written(buffer) => buffer != [] && s.writers > 0
       case Asked(len) => len > 0 && !Dead(s)
       case Shared(reader) => (if reader then s.readers else s.writers) > 0
       case _ => true
  }

  predicate LegalRun(s: PipeState, run: seq<PipeEvent>, idle: Task)
    decreases |run|
  {
    run == [] || (Legal(s, run[0], idle) && LegalRun(PipeNext(s, run[0]), run[1..], idle))
  }

  function AfterRun(s: PipeState, run: seq<PipeEvent>, idle: Task): PipeState
    requires LegalRun(s, run, idle)
    decreases |run|
  {
    if run == [] then s else AfterRun(PipeNext(s, run[0]), run[1..], idle)
  }

  /** Task t is asleep, and no run of the system takes it out of the queue. */
  ghost predicate SleepsForGood(s: PipeState, idle: Task, t: Task) {
    t in s.lock.sq && forall run :: LegalRun(s, run, idle) ==> t in AfterRun(s, run, idle).lock.sq
  }

  lemma RunStep(s: PipeState, e: PipeEvent, run: seq<PipeEvent>, idle: Task)
    requires Legal(s, e, idle) && LegalRun(PipeNext(s, e), run, idle)
    ensures LegalRun(s, [e] + run, idle)
    ensures AfterRun(s, [e] + run, idle) == AfterRun(PipeNext(s, e), run, idle)
  {
    assert ([e] + run)[1..] == run;
  }

  lemma NoRun(s: PipeState, idle: Task)
    ensures LegalRun(s, [], idle) && AfterRun(s, [], idle) == s
  {
  }

  lemma {:induction false} RunConcat(s: PipeState, a: seq<PipeEvent>, b: seq<PipeEvent>, idle: Task)
    requires LegalRun(s, a, idle) && LegalRun(AfterRun(s, a, idle), b, idle)
    ensures LegalRun(s, a + b, idle) && AfterRun(s, a + b, idle) == AfterRun(AfterRun(s, a, idle), b, idle)
    decreases |a|
  {
    hide PipeNext;
    if a == [] {
      assert a + b == b;
    } else {
      RunConcat(PipeNext(s, a[0]), a[1..], b, idle);
      assert (a + b)[1..] == a[1..] + b;
    }
  }

  // ---------------------------------------------------------------- counting ends

  /** How often ends of a kind were shared in a run, and closed. */
  function Shares(run: seq<PipeEvent>, reader: bool): nat {
    if run == [] then 0 else (if run[0] == Shared(reader) then 1 else 0) + Shares(run[1..], reader)
  }

  function Closes(run: seq<PipeEvent>, reader: bool): nat {
    if run == [] then 0 else (if run[0] == Closed(reader) then 1 else 0) + Closes(run[1..], reader)
  }

  lemma EndsStep(s: PipeState, e: PipeEvent)
    requires Enabled(s, e)
    ensures var s' := PipeNext(s, e);
            && s'.readers == s.readers + (if e == Shared(true) then 1 else if e == Closed(true) then -1 else 0)
            && s'.writers == s.writers + (if e == Shared(false) then 1 else if e == Closed(false) then -1 else 0)
  {
    hide StrLen, Step, Taken;
  }

  /** The open ends of each kind are those there were, and those shared since, less those closed. */
  lemma {:induction false} EndsCounted(s: PipeState, run: seq<PipeEvent>, idle: Task)
    requires LegalRun(s, run, idle)
    ensures AfterRun(s, run, idle).readers == s.readers + Shares(run, true) - Closes(run, true)
    ensures AfterRun(s, run, idle).writers == s.writers + Shares(run, false) - Closes(run, false)
    decreases |run|
  {
    hide PipeNext;
    if run != [] {
      EndsStep(s, run[0]);
      EndsCounted(PipeNext(s, run[0]), run[1..], idle);
    }
  }

  /** A reader of a new pipe is told that the writers have gone only when every write end has been closed. */
  lemma EndNeedsCloses(idle: Task, run: seq<PipeEvent>)
    requires LegalRun(NewPipe(idle), run, idle)
    ensures Ended(AfterRun(NewPipe(idle), run, idle)) ==> Closes(run, false) == Shares(run, false) + 1
  {
    hide LegalRun, AfterRun;
    EndsCounted(NewPipe(idle), run, idle);
  }

  // ---------------------------------------------------------------- the readers in front of a sleeper

  /** The woken readers, in the order in which they will run. */
  function Order(rr: seq<Task>, granted: set<Task>): seq<Task> {
    if rr == [] then [] else (if rr[0] in granted then [rr[0]] else []) + Order(rr[1..], granted)
  }

  lemma {:induction false} OrderAppend(rr: seq<Task>, t: Task, granted: set<Task>)
    ensures Order(rr + [t], granted) == Order(rr, granted) + (if t in granted then [t] else [])
  {
    if rr == [] {
      assert rr + [t] == [t] && [t][1..] == [] && Order([], granted) == [];
    } else {
      assert (rr + [t])[0] == rr[0] && (rr + [t])[1..] == rr[1..] + [t];
      OrderAppend(rr[1..], t, granted);
    }
  }

  lemma {:induction false} OrderSame(rr: seq<Task>, granted: set<Task>, granted': set<Task>)
    requires forall t :: t in rr ==> (t in granted <==> t in granted')
    ensures Order(rr, granted) == Order(rr, granted')
  {
    if rr != [] {
      OrderSame(rr[1..], granted, granted');
    }
  }

  /** It lists each of them once. */
  lemma {:induction false} OrderLists(rr: seq<Task>, granted: set<Task>)
    requires Distinct(rr) && forall t :: t in granted ==> t in rr
    ensures |Order(rr, granted)| == |granted| && forall t :: t in Order(rr, granted) ==> t in granted
  {
    if rr == [] {
      assert granted == {};
    } else {
      var rest := granted - {rr[0]};
      OrderSame(rr[1..], granted, rest);
      OrderLists(rr[1..], rest);
    }
  }

  function Lengths(ts: seq<Task>, wants: map<Task, nat>): (lens: seq<nat>)
    ensures |lens| == |ts|
  {
    seq(|ts|, i requires 0 <= i < |ts| => if ts[i] in wants then wants[ts[i]] else 0)
  }

  /** Those that have been woken, and the first `k` that sleep. */
  function Ahead(s: PipeState, k: nat): seq<Task>
    requires k <= |s.lock.sq|
  {
    Order(s.rr, s.granted) + s.lock.sq[..k]
  }

  /** The messages that readers with these lengths leave when they read one after the other. */
  function LeftOver(list: seq<seq<byte>>, lens: seq<nat>): seq<seq<byte>>
    decreases |lens|
  {
    if list == [] || lens == [] then list else LeftOver(Taken(list, lens[0]), lens[1..])
  }

  /** What the readers in front of the k-th sleeper leave for it. */
  function LeftFor(s: PipeState, k: nat): seq<seq<byte>>
    requires k <= |s.lock.sq|
  {
    LeftOver(s.list, Lengths(Ahead(s, k), s.wants))
  }

  /** A reader takes at most one message. */
  lemma {:induction false} LeftOverMany(list: seq<seq<byte>>, lens: seq<nat>)
    ensures |LeftOver(list, lens)| >= |list| - |lens|
    decreases |lens|
  {
    hide StrLen;
    if list != [] && lens != [] {
      LeftOverMany(Taken(list, lens[0]), lens[1..]);
    }
  }

  // ---------------------------------------------------------------- without a writer

  /** No message comes, and the last writer's close woke nobody. */
  ghost predicate Orphaned(s: PipeState, idle: Task) {
    Sound(s, idle, 0) && s.writers == 0
  }

  /** While no permit is left the messages are exactly promised. */
  lemma AheadCount(s: PipeState, idle: Task, k: nat)
    requires Sound(s, idle, 0) && (k < |s.lock.sq| || (k == |s.lock.sq| && s.lock.value <= 0))
    ensures |Order(s.rr, s.granted)| == |s.list| && |Ahead(s, k)| == |s.list| + k
    ensures forall t :: t in Ahead(s, k) ==> t in s.wants && (t in s.granted || t in s.lock.sq)
  {
    hide Terminated, Order;
    OrderLists(s.rr, s.granted);
  }

  /** Any step but a woken reader's leaves the messages, the sleepers and what is in front of them as they are. */
  lemma QuietStep(s: PipeState, e: PipeEvent, idle: Task, k: nat)
    requires Orphaned(s, idle) && k < |s.lock.sq| && Legal(s, e, idle) && !e.Resumed?
    requires e.Closed? ==> s.readers > 1
    ensures var s' := PipeNext(s, e);
            Orphaned(s', idle) && s'.list == s.list && s.lock.sq <= s'.lock.sq && LeftFor(s', k) == LeftFor(s, k)
  {
    hide Terminated, Distinct, StrLen, LeftOver, Lengths, Order;
    NextSound(s, e, idle);
    AheadCount(s, idle, k);
    var s' := PipeNext(s, e);
    QuietOrder(s, e, idle);
    assert s.rr[0] in s.rr && s.rr[0] !in s.granted && s.rr[0] !in s.lock.sq;
    assert Ahead(s', k) == Ahead(s, k);
    SameLengths(Ahead(s, k), s, s');
  }

  lemma QuietOrder(s: PipeState, e: PipeEvent, idle: Task)
    requires Orphaned(s, idle) && s.lock.sq != [] && Legal(s, e, idle) && !e.Resumed?
    requires e.Closed? ==> s.readers > 1
    ensures var s' := PipeNext(s, e);
            s'.granted == s.granted && Order(s'.rr, s.granted) == Order(s.rr, s.granted)
  {
    hide Terminated, StrLen;
    assert s.rr == [s.rr[0]] + s.rr[1..];
    OrderAppend(s.rr[1..], s.rr[0], s.granted);
    match e
    case Arrived(t) => OrderAppend(s.rr, t, s.granted);
    case _ =>
  }

  lemma SameLengths(ts: seq<Task>, s: PipeState, s': PipeState)
    requires forall t :: t in ts ==> t in s.wants && t in s'.wants && s'.wants[t] == s.wants[t]
    ensures Lengths(ts, s'.wants) == Lengths(ts, s.wants)
  {
  }

  /** A woken reader at the front takes what it asked for; a short read wakes the first sleeper. */
  lemma ResumedStep(s: PipeState, idle: Task, k: nat)
    requires Orphaned(s, idle) && k < |s.lock.sq| && s.rr != [] && s.rr[0] in s.granted
    ensures Legal(s, Resumed, idle)
    ensures var s', short := PipeNext(s, Resumed), s.wants[s.rr[0]] < StrLen(s.list[0]);
            && Orphaned(s', idle) && s'.lock.sq == (if short then s.lock.sq[1..] else s.lock.sq)
            && |s'.list| == |s.list| - (if short then 0 else 1)
            && (short && k == 0 ==> LeftFor(s, k) != [])
            && (short && k > 0 ==> LeftFor(s', k - 1) == LeftFor(s, k))
            && (!short ==> LeftFor(s', k) == LeftFor(s, k))
  {
    hide Sound, StrLen, LeftOver, Lengths, Order, PipeNext, Taken;
    ResumedSound(s, idle);
    var s', short := PipeNext(s, Resumed), s.wants[s.rr[0]] < StrLen(s.list[0]);
    ResumedEffect(s, idle);
    AheadCount(s, idle, k);
    FirstReads(s, k);
    if short {
      if k == 0 {
        LeftOverMany(s'.list, Lengths(Ahead(s, k)[1..], s.wants));
      } else {
        assert s.lock.sq[..k] == [s.lock.sq[0]] + s.lock.sq[1..][..k - 1];
        assert Ahead(s', k - 1) == Ahead(s, k)[1..];
      }
    } else {
      assert Ahead(s', k) == Ahead(s, k)[1..];
    }
  }

  /** The woken reader was the first in the order; the sleeper that it wakes becomes the last. */
  lemma ResumedEffect(s: PipeState, idle: Task)
    requires Sound(s, idle, 0) && s.lock.sq != [] && s.rr != [] && s.rr[0] in s.granted && Enabled(s, Resumed)
    ensures Legal(s, Resumed, idle)
    ensures var s', order, len := PipeNext(s, Resumed), Order(s.rr, s.granted), s.wants[s.rr[0]];
            var short := len < StrLen(s.list[0]);
            && order != [] && order[0] == s.rr[0]
            && Order(s'.rr, s'.granted) == order[1..] + (if short then [s.lock.sq[0]] else [])
            && s'.list == Taken(s.list, len) && |s'.list| == |s.list| - (if short then 0 else 1)
            && s'.lock.sq == (if short then s.lock.sq[1..] else s.lock.sq)
            && s'.wants == s.wants && s'.writers == s.writers
  {
    hide Terminated, StrLen;
    var s' := PipeNext(s, Resumed);
    assert s.lock.sq[0] in s.lock.sq;
    OrderSame(s.rr[1..], s.granted, s'.granted);
    OrderAppend(s.rr, s.lock.sq[0], s'.granted);
  }

  lemma FirstReads(s: PipeState, k: nat)
    requires k <= |s.lock.sq| && s.list != [] && Ahead(s, k) != [] && Ahead(s, k)[0] in s.wants
    ensures var ahead := Ahead(s, k);
            LeftFor(s, k) == LeftOver(Taken(s.list, s.wants[ahead[0]]), Lengths(ahead[1..], s.wants))
  {
    hide Taken, Ahead;
    var lens := Lengths(Ahead(s, k), s.wants);
    assert lens[1..] == Lengths(Ahead(s, k)[1..], s.wants);
  }

  // ---------------------------------------------------------------- nothing left to read

  /** No writer is left, no byte is left to read, and readers are asleep. */
  predicate Stranded(s: PipeState) {
    s.writers == 0 && Queued(s.list) == [] && s.lock.value < 0
  }

  lemma StrandedStep(s: PipeState, e: PipeEvent, idle: Task)
    requires Stranded(s) && Legal(s, e, idle)
    ensures Stranded(PipeNext(s, e)) && s.lock.sq <= PipeNext(s, e).lock.sq
    ensures s.list == [] ==> PipeNext(s, e).lock == s.lock && PipeNext(s, e).list == []
  {
    hide StrLen, Step, Woken, Queued;
    if s.list != [] {
      QueuedStep(s.list);
    }
    NothingQueued();
  }

  /** These readers, and those that join them, sleep for good; with no message left nobody joins them. */
  lemma {:induction false} StrandedForever(s: PipeState, run: seq<PipeEvent>, idle: Task)
    requires Stranded(s) && LegalRun(s, run, idle)
    ensures var s' := AfterRun(s, run, idle);
            && Stranded(s') && s.lock.sq <= s'.lock.sq
            && (s.list == [] ==> s'.lock == s.lock && s'.list == [])
    decreases |run|
  {
    hide Stranded, PipeNext;
    if run != [] {
      StrandedStep(s, run[0], idle);
      StrandedForever(PipeNext(s, run[0]), run[1..], idle);
    }
  }

  lemma StrandedSleep(s: PipeState, idle: Task, t: Task)
    requires Stranded(s) && t in s.lock.sq
    ensures SleepsForGood(s, idle, t)
  {
    hide Stranded, Legal, PipeNext;
    forall run | LegalRun(s, run, idle)
      ensures t in AfterRun(s, run, idle).lock.sq
    {
      StrandedForever(s, run, idle);
    }
  }

  // ---------------------------------------------------------------- never woken

  /** Nothing is left for sleeper t, or the pipe has died around it. */
  ghost predicate Forsaken(s: PipeState, idle: Task, t: Task) {
    && t in s.lock.sq
    && ((Stranded(s) && s.list == [])
        || (Orphaned(s, idle) && exists k :: 0 <= k < |s.lock.sq| && s.lock.sq[k] == t && LeftFor(s, k) == []))
  }

  /** The last end goes with all messages. */
  lemma DeathStrands(s: PipeState, e: PipeEvent, idle: Task)
    requires Orphaned(s, idle) && s.lock.sq != [] && Legal(s, e, idle) && e.Closed? && s.readers <= 1
    ensures Stranded(PipeNext(s, e)) && PipeNext(s, e).list == [] && PipeNext(s, e).lock == s.lock
  {
    hide Terminated, Queues, Queued;
    NothingQueued();
  }

  lemma ForsakenStep(s: PipeState, e: PipeEvent, idle: Task, t: Task)
    requires Forsaken(s, idle, t) && Legal(s, e, idle)
    ensures Forsaken(PipeNext(s, e), idle, t)
  {
    hide Sound, StrLen, LeftFor, PipeNext, Stranded;
    var s' := PipeNext(s, e);
    if Stranded(s) && s.list == [] {
      StrandedStep(s, e, idle);
    } else {
      var k :| 0 <= k < |s.lock.sq| && s.lock.sq[k] == t && LeftFor(s, k) == [];
      if e.Resumed? {
        ResumedStep(s, idle, k);
        var k' := if s.wants[s.rr[0]] < StrLen(s.list[0]) then k - 1 else k;
        assert s'.lock.sq[k'] == t;
      } else if e.Closed? && s.readers <= 1 {
        DeathStrands(s, e, idle);
      } else {
        QuietStep(s, e, idle, k);
        assert s'.lock.sq[k] == t;
      }
    }
  }

  lemma {:induction false} ForsakenForever(s: PipeState, run: seq<PipeEvent>, idle: Task, t: Task)
    requires Forsaken(s, idle, t) && LegalRun(s, run, idle)
    ensures Forsaken(AfterRun(s, run, idle), idle, t)
    decreases |run|
  {
    hide Forsaken, PipeNext;
    if run != [] {
      ForsakenStep(s, run[0], idle, t);
      ForsakenForever(PipeNext(s, run[0]), run[1..], idle, t);
    }
  }

  // ---------------------------------------------------------------- woken

  /** The timer brings the first woken reader to the front. */
  lemma {:induction false} PromisedToFront(s: PipeState, idle: Task, j: nat) returns (run: seq<PipeEvent>)
    requires Sound(s, idle, 0) && j < |s.rr| && s.rr[j] in s.granted
    ensures LegalRun(s, run, idle)
    ensures var s' := AfterRun(s, run, idle);
            && Sound(s', idle, 0) && s'.rr != [] && s'.rr[0] in s.granted && s' == s.(rr := s'.rr)
            && Order(s'.rr, s.granted) == Order(s.rr, s.granted)
    decreases j
  {
    hide Sound;
    run := [];
    if s.rr[0] !in s.granted {
      assert s.rr == [s.rr[0]] + s.rr[1..];
      OrderAppend(s.rr[1..], s.rr[0], s.granted);
      NextSound(s, Switched, idle);
      var rest := PromisedToFront(PipeNext(s, Switched), idle, j - 1);
      RunStep(s, Switched, rest, idle);
      run := [Switched] + rest;
    }
  }

  /** If the readers in front of it leave something, a sleeper is woken when they have read: the timer and these
      readers are enough for that. */
  lemma {:induction false} WokenInTurn(s: PipeState, idle: Task, k: nat) returns (run: seq<PipeEvent>)
    requires Orphaned(s, idle) && k < |s.lock.sq| && LeftFor(s, k) != []
    ensures LegalRun(s, run, idle) && AfterRun(s, run, idle).lock.sq == s.lock.sq[k + 1..]
    decreases |s.list| + k
  {
    hide Sound, StrLen, LeftFor, PipeNext;
    run := FirstPromised(s, idle, k);
    var s0 := AfterRun(s, run, idle);
    ResumedStep(s0, idle, k);
    var s1, rest := PipeNext(s0, Resumed), [];
    if s1.lock.sq == s.lock.sq {
      rest := WokenInTurn(s1, idle, k);
    } else if k > 0 {
      rest := WokenInTurn(s1, idle, k - 1);
    }
    RunStep(s0, Resumed, rest, idle);
    RunConcat(s, run, [Resumed] + rest, idle);
    run := run + ([Resumed] + rest);
  }

  /** Something is left only if messages are queued, and those are promised. */
  lemma FirstPromised(s: PipeState, idle: Task, k: nat) returns (run: seq<PipeEvent>)
    requires Orphaned(s, idle) && k < |s.lock.sq| && LeftFor(s, k) != []
    ensures LegalRun(s, run, idle)
    ensures var s' := AfterRun(s, run, idle);
            && Orphaned(s', idle) && s'.rr != [] && s'.rr[0] in s.granted && s' == s.(rr := s'.rr)
            && LeftFor(s', k) == LeftFor(s, k)
  {
    hide Terminated, Distinct, StrLen, Order, Lengths;
    assert s.granted != {};
    var t :| t in s.granted;
    var j :| 0 <= j < |s.rr| && s.rr[j] == t;
    run := PromisedToFront(s, idle, j);
  }

  /** Without a writer each reader that sleeps does so for good exactly if those in front of it leave nothing. */
  lemma SleepsExactly(s: PipeState, idle: Task, k: nat)
    requires Orphaned(s, idle) && k < |s.lock.sq|
    ensures SleepsForGood(s, idle, s.lock.sq[k]) <==> LeftFor(s, k) == []
  {
    hide LegalRun, AfterRun, LeftFor, Terminated, PipeNext, Legal;
    var t := s.lock.sq[k];
    if LeftFor(s, k) == [] {
      assert Forsaken(s, idle, t);
      forall run | LegalRun(s, run, idle)
        ensures t in AfterRun(s, run, idle).lock.sq
      {
        ForsakenForever(s, run, idle, t);
      }
    } else {
      var run := WokenInTurn(s, idle, k);
    }
  }

  /** All of them can be woken exactly if something is left for the last. */
  lemma AllWoken(s: PipeState, idle: Task)
    requires Orphaned(s, idle) && s.lock.sq != []
    ensures (exists run :: LegalRun(s, run, idle) && AfterRun(s, run, idle).lock.sq == [])
        <==> LeftFor(s, |s.lock.sq| - 1) != []
  {
    hide Orphaned, LegalRun, AfterRun, LeftFor;
    SleepsExactly(s, idle, |s.lock.sq| - 1);
    if LeftFor(s, |s.lock.sq| - 1) != [] {
      var run := WokenInTurn(s, idle, |s.lock.sq| - 1);
    }
  }

  /** A reader that asks after the last writer has gone falls asleep exactly if messages are left but all of them
      promised: the test for the end of the file does not see those. Then it sleeps for good exactly if the readers
      that came before it leave nothing. */
  lemma LateReader(s: PipeState, idle: Task, len: nat)
    requires Orphaned(s, idle) && s.readers > 0 && len > 0
    requires s.rr != [] && s.rr[0] != idle && s.rr[0] !in s.granted
    ensures Legal(s, Asked(len), idle)
    ensures var t, s' := s.rr[0], PipeNext(s, Asked(len));
            && (t in s'.lock.sq <==> s.list != [] && s.lock.value <= 0)
            && (t in s'.lock.sq ==> (SleepsForGood(s', idle, t) <==> LeftFor(s, |s.lock.sq|) == []))
  {
    AskedSound(s, len, idle);
    hide StrLen, Terminated, Distinct, LeftOver, Lengths, SleepsForGood, Served;
    var t, s' := s.rr[0], PipeNext(s, Asked(len));
    assert t in s.rr;
    if t in s'.lock.sq {
      AheadCount(s, idle, |s.lock.sq|);
      assert Ahead(s', |s.lock.sq|) == Ahead(s, |s.lock.sq|);
      SameLengths(Ahead(s, |s.lock.sq|), s, s');
      SleepsExactly(s', idle, |s.lock.sq|);
    }
  }

  // ---------------------------------------------------------------- what the lengths decide

  /** How many short reads of one byte the messages allow. */
  function Spare(list: seq<seq<byte>>): nat {
    if list == [] then 0 else (if StrLen(list[0]) > 0 then StrLen(list[0]) - 1 else 0) + Spare(list[1..])
  }

  ghost predicate Positive(lens: seq<nat>) {
    forall i :: 0 <= i < |lens| ==> lens[i] > 0
  }

  lemma ShiftedLength(m: seq<byte>, len: nat)
    requires len < StrLen(m) < |m|
    ensures var rest := Shifted(m, len);
            StrLen(rest) == StrLen(m) - len && StrLen(rest) < |rest|
  {
    hide StrLen;
    ShiftedString(m, len);
  }

  /** A read takes a message or a byte that could be spared. */
  lemma SpareStep(list: seq<seq<byte>>, len: nat)
    requires Terminated(list) && list != [] && len > 0
    ensures Terminated(Taken(list, len)) && |Taken(list, len)| + Spare(Taken(list, len)) < |list| + Spare(list)
    ensures len == 1 ==> |Taken(list, len)| + Spare(Taken(list, len)) == |list| + Spare(list) - 1
  {
    hide StrLen;
    TerminatedParts(list, list[0]);
    if len < StrLen(list[0]) {
      ShiftedLength(list[0], len);
      TerminatedParts(list, Shifted(list[0], len));
      assert Taken(list, len)[1..] == list[1..];
    }
  }

  lemma {:induction false} SpareUsedUp(list: seq<seq<byte>>, lens: seq<nat>)
    requires Terminated(list) && Positive(lens) && |list| + Spare(list) <= |lens|
    ensures LeftOver(list, lens) == []
    decreases |lens|
  {
    hide Terminated, StrLen, Spare;
    if list != [] {
      SpareStep(list, lens[0]);
      SpareUsedUp(Taken(list, lens[0]), lens[1..]);
    }
  }

  lemma {:induction false} SpareLeft(list: seq<seq<byte>>, lens: seq<nat>)
    requires Terminated(list) && (forall i :: 0 <= i < |lens| ==> lens[i] == 1) && |lens| < |list| + Spare(list)
    ensures LeftOver(list, lens) != []
    decreases |lens|
  {
    hide Terminated, StrLen;
    if list != [] && lens != [] {
      SpareStep(list, 1);
      SpareLeft(Taken(list, 1), lens[1..]);
    }
  }

  /** Every reader has asked for at least a byte. */
  ghost predicate Eager(wants: map<Task, nat>) {
    forall t :: t in wants ==> wants[t] > 0
  }

  /** System calls see to that. */
  lemma {:induction false} EagerRun(s: PipeState, run: seq<PipeEvent>, idle: Task)
    requires Eager(s.wants) && LegalRun(s, run, idle)
    ensures Eager(AfterRun(s, run, idle).wants)
    decreases |run|
  {
    hide StrLen, Step;
    if run != [] {
      EagerRun(PipeNext(s, run[0]), run[1..], idle);
    }
  }

  /** Whatever these readers asked for, the k-th sleeper sleeps for good, exactly if the messages do not allow more than
      `k` short reads. */
  lemma SleepsWhateverAsked(s: PipeState, idle: Task, k: nat)
    requires Orphaned(s, idle) && k < |s.lock.sq|
    ensures (forall wants: map<Task, nat> :: wants.Keys == s.wants.Keys && Eager(wants) ==>
              SleepsForGood(s.(wants := wants), idle, s.lock.sq[k]))
        <==> Spare(s.list) <= k
  {
    hide StrLen, Terminated, Queues, Distinct, SleepsForGood, Order, LeftOver, Spare;
    if Spare(s.list) <= k {
      forall wants: map<Task, nat> | wants.Keys == s.wants.Keys && Eager(wants)
        ensures SleepsForGood(s.(wants := wants), idle, s.lock.sq[k])
      {
        var s' := s.(wants := wants);
        assert Orphaned(s', idle);
        AheadCount(s', idle, k);
        SpareUsedUp(s'.list, Lengths(Ahead(s', k), wants));
        SleepsExactly(s', idle, k);
      }
    } else {
      var ones := map t | t in s.wants :: 1;
      var s' := s.(wants := ones);
      assert Orphaned(s', idle);
      AheadCount(s', idle, k);
      SpareLeft(s'.list, Lengths(Ahead(s', k), ones));
      SleepsExactly(s', idle, k);
      assert ones.Keys == s.wants.Keys && Eager(ones);
    }
  }

  lemma {:induction false} WholeReads(list: seq<seq<byte>>, lens: seq<nat>)
    requires |list| <= |lens| && forall i :: 0 <= i < |list| ==> StrLen(list[i]) <= lens[i]
    ensures LeftOver(list, lens) == []
    decreases |lens|
  {
    hide StrLen;
    if list != [] {
      assert Taken(list, lens[0]) == list[1..];
      WholeReads(list[1..], lens[1..]);
    }
  }

  /** Nobody is ever woken, however much is queued, if each woken reader asked for as much as its message holds. */
  lemma Drained(s: PipeState, idle: Task, k: nat)
    requires Orphaned(s, idle) && k < |s.lock.sq|
    requires var lens := Lengths(Order(s.rr, s.granted), s.wants);
             forall i :: 0 <= i < |s.list| && i < |lens| ==> StrLen(s.list[i]) <= lens[i]
    ensures SleepsForGood(s, idle, s.lock.sq[k])
  {
    hide StrLen, Terminated, Queues, SleepsForGood, Order, LeftOver;
    AheadCount(s, idle, k);
    var order, lens := Order(s.rr, s.granted), Lengths(Ahead(s, k), s.wants);
    assert forall i :: 0 <= i < |s.list| ==> lens[i] == Lengths(order, s.wants)[i];
    WholeReads(s.list, lens);
    SleepsExactly(s, idle, k);
  }

  function Sum(lens: seq<nat>): nat {
    if lens == [] then 0 else lens[0] + Sum(lens[1..])
  }

  lemma TakenOne(m: seq<byte>, len: nat)
    requires StrLen(m) < |m|
    ensures Taken([m], len) == if len < StrLen(m) then [Shifted(m, len)] else []
  {
    hide StrLen;
  }

  /** Reads use up a single message exactly if they ask for all of its bytes. */
  lemma {:induction false} OneMessageLeft(m: seq<byte>, lens: seq<nat>)
    requires StrLen(m) < |m| && lens != []
    ensures LeftOver([m], lens) == [] <==> StrLen(m) <= Sum(lens)
    decreases |lens|
  {
    hide StrLen, Taken, Shifted;
    TakenOne(m, lens[0]);
    if lens[0] < StrLen(m) {
      ShiftedLength(m, lens[0]);
      var rest := Shifted(m, lens[0]);
      assert LeftOver([m], lens) == LeftOver([rest], lens[1..]);
      if |lens| == 1 {
        assert LeftOver([rest], []) == [rest];
      } else {
        OneMessageLeft(rest, lens[1..]);
      }
    } else {
      assert LeftOver([m], lens) == LeftOver([], lens[1..]) == [];
    }
  }

  /** With one message left, a sleeper sleeps for good exactly if those in front of it asked for all its bytes. */
  lemma OneMessage(s: PipeState, idle: Task, k: nat)
    requires Orphaned(s, idle) && k < |s.lock.sq| && |s.list| == 1
    ensures SleepsForGood(s, idle, s.lock.sq[k]) <==> StrLen(s.list[0]) <= Sum(Lengths(Ahead(s, k), s.wants))
  {
    hide StrLen, Queues, SleepsForGood, Order, LeftOver, Sum;
    AheadCount(s, idle, k);
    assert s.list == [s.list[0]];
    OneMessageLeft(s.list[0], Lengths(Ahead(s, k), s.wants));
    SleepsExactly(s, idle, k);
  }

  // ---------------------------------------------------------------- runs that get there

  /** A new pipe, while only the idle task is runnable. */
  function NewPipe(idle: Task): PipeState {
    PipeState([], 1, 1, Lock(0, []), [idle], {}, map[])
  }

  /** One step in front of a run that ends in `last`. */
  lemma Before(s: PipeState, run: seq<PipeEvent>, s': PipeState, last: PipeState, idle: Task)
    requires run != [] && Legal(s, run[0], idle) && PipeNext(s, run[0]) == s'
    requires LegalRun(s', run[1..], idle) && AfterRun(s', run[1..], idle) == last
    ensures LegalRun(s, run, idle) && AfterRun(s, run, idle) == last
  {
  }

  /** Three different tasks. */
  predicate Apart(a: Task, b: Task, c: Task) {
    a != b && b != c && c != a
  }

  lemma NoneLeft(s: PipeState, idle: Task, t: Task)
    requires s.list == [] && s.writers == 0 && s.lock == Lock(-1, [t])
    ensures Stranded(s) && SleepsForGood(s, idle, t)
  {
    NothingQueued();
    StrandedSleep(s, idle, t);
  }

  /** From a new pipe a reader gets there by asking before the only writer closes ... */
  lemma StrandedReachable(idle: Task, reader: Task, writer: Task)
    requires Apart(idle, reader, writer)
    ensures var s, run := NewPipe(idle), [Arrived(reader), Arrived(writer), Switched, Asked(1), Closed(false)];
            && LegalRun(s, run, idle) && AfterRun(s, run, idle).rr == [writer, idle]
            && Stranded(AfterRun(s, run, idle)) && SleepsForGood(AfterRun(s, run, idle), idle, reader)
  {
    hide StrLen, SleepsForGood, LegalRun, AfterRun, Stranded;
    var s0 := NewPipe(idle);
    var s1, s2, s3 := s0.(rr := [idle, reader]), s0.(rr := [idle, reader, writer]), s0.(rr := [reader, writer, idle]);
    var s4 := PipeState([], 1, 1, Lock(-1, [reader]), [writer, idle], {}, map[reader := 1]);
    var s5 := s4.(writers := 0);
    NoRun(s5, idle);
    Before(s4, [Closed(false)], s5, s5, idle);
    Before(s3, [Asked(1), Closed(false)], s4, s5, idle);
    Before(s2, [Switched, Asked(1), Closed(false)], s3, s5, idle);
    Before(s1, [Arrived(writer), Switched, Asked(1), Closed(false)], s2, s5, idle);
    Before(s0, [Arrived(reader), Arrived(writer), Switched, Asked(1), Closed(false)], s1, s5, idle);
    NoneLeft(s5, idle, reader);
  }

  /** ... or by asking after it has closed, while a byte is queued that another reader has been promised. */
  lemma LateReaderReachable(idle: Task, a: Task, b: Task, writer: Task)
    requires Apart(idle, a, b) && Apart(idle, b, writer) && a != writer
    ensures var s := NewPipe(idle);
            var before := [Arrived(a), Arrived(writer), Arrived(b), Switched, Asked(1)];
            var after := [Written([7]), Closed(false), Switched, Asked(1)];
            && LegalRun(s, before + after, idle)
            && AfterRun(s, before + after, idle) == Latecomer(idle, a, b, writer)
            && SleepsForGood(Latecomer(idle, a, b, writer), idle, b)
  {
    hide StrLen, SleepsForGood, PipeNext, Legal, LegalRun, AfterRun;
    AskedFirst(idle, a, b, writer);
    WrittenFor(idle, a, b, writer);
    RunConcat(NewPipe(idle), [Arrived(a), Arrived(writer), Arrived(b), Switched, Asked(1)],
              [Written([7]), Closed(false), Switched, Asked(1)], idle);
    LatecomerSleeps(idle, a, b, writer);
  }

  /** The byte is promised to a, and b has asked behind it. */
  function Latecomer(idle: Task, a: Task, b: Task, writer: Task): PipeState {
    PipeState([[7, 0]], 1, 0, Lock(-1, [b]), [idle, a, writer], {a}, map[a := 1, b := 1])
  }

  function AskedOnce(idle: Task, a: Task, b: Task, writer: Task): PipeState {
    PipeState([], 1, 1, Lock(-1, [a]), [writer, b, idle], {}, map[a := 1])
  }

  lemma AskedFirst(idle: Task, a: Task, b: Task, writer: Task)
    requires Apart(idle, a, b) && Apart(idle, b, writer) && a != writer
    ensures var s, run := NewPipe(idle), [Arrived(a), Arrived(writer), Arrived(b), Switched, Asked(1)];
            LegalRun(s, run, idle) && AfterRun(s, run, idle) == AskedOnce(idle, a, b, writer)
  {
    hide StrLen, LegalRun, AfterRun;
    var s0, s5 := NewPipe(idle), AskedOnce(idle, a, b, writer);
    var s1, s2, s3 := s0.(rr := [idle, a]), s0.(rr := [idle, a, writer]), s0.(rr := [idle, a, writer, b]);
    var s4 := s0.(rr := [a, writer, b, idle]);
    NoRun(s5, idle);
    Before(s4, [Asked(1)], s5, s5, idle);
    Before(s3, [Switched, Asked(1)], s4, s5, idle);
    Before(s2, [Arrived(b), Switched, Asked(1)], s3, s5, idle);
    Before(s1, [Arrived(writer), Arrived(b), Switched, Asked(1)], s2, s5, idle);
    Before(s0, [Arrived(a), Arrived(writer), Arrived(b), Switched, Asked(1)], s1, s5, idle);
  }

  lemma WrittenFor(idle: Task, a: Task, b: Task, writer: Task)
    requires Apart(idle, a, b) && Apart(idle, b, writer) && a != writer
    ensures var s, run := AskedOnce(idle, a, b, writer), [Written([7]), Closed(false), Switched, Asked(1)];
            LegalRun(s, run, idle) && AfterRun(s, run, idle) == Latecomer(idle, a, b, writer)
  {
    hide StrLen, LegalRun, AfterRun;
    var s0, s4 := AskedOnce(idle, a, b, writer), Latecomer(idle, a, b, writer);
    var s1 := PipeState([[7, 0]], 1, 1, Lock(0, []), [writer, b, idle, a], {a}, map[a := 1]);
    var s2 := s1.(writers := 0);
    var s3 := s2.(rr := [b, idle, a, writer]);
    Promised(idle, a, b, writer);
    NoRun(s4, idle);
    Before(s3, [Asked(1)], s4, s4, idle);
    Before(s2, [Switched, Asked(1)], s3, s4, idle);
    Before(s1, [Closed(false), Switched, Asked(1)], s2, s4, idle);
    Before(s0, [Written([7]), Closed(false), Switched, Asked(1)], s1, s4, idle);
  }

  /** The byte goes to a, who is woken. */
  lemma Promised(idle: Task, a: Task, b: Task, writer: Task)
    requires Apart(idle, a, b) && Apart(idle, b, writer) && a != writer
    ensures var s := AskedOnce(idle, a, b, writer);
            && Legal(s, Written([7]), idle)
            && PipeNext(s, Written([7]))
                == PipeState([[7, 0]], 1, 1, Lock(0, []), [writer, b, idle, a], {a}, map[a := 1])
  {
    hide StrLen;
    assert [7 as byte] + [0] == [7, 0];
  }

  lemma LatecomerSleeps(idle: Task, a: Task, b: Task, writer: Task)
    requires Apart(idle, a, b) && Apart(idle, b, writer) && a != writer
    ensures SleepsForGood(Latecomer(idle, a, b, writer), idle, b)
  {
    StrLenIs([7, 0], 1);
    hide StrLen, SleepsForGood, LeftOver;
    var s := Latecomer(idle, a, b, writer);
    assert Order(s.rr, s.granted) == [a] by {
      assert s.rr[1..] == [a, writer] && [a, writer][1..] == [writer] && [writer][1..] == [];
      assert Order([writer], {a}) == [] && Order([a, writer], {a}) == [a];
    }
    OneMessage(s, idle, 0);
  }
}
