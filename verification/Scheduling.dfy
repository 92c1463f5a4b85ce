/** The run queue of src/task.c and the semaphores of src/lock.c on values, over whole runs. */
module Scheduling {
  type Task = nat

  // ---------------------------------------------------------------- run queue

  datatype RunEvent = Preempt | Sleep | Awake(task: Task)

  /** What an event does to the run queue: a switch leaves a queue of size 1 alone. */
  function Step(rr: seq<Task>, e: RunEvent): seq<Task>
    requires rr != []
    ensures Step(rr, e) != []
  {
    match e
    case Preempt => if |rr| == 1 then rr else rr[1..] + [rr[0]]
    case Sleep => if |rr| == 1 then rr else rr[1..]
    case Awake(t) => rr + [t]
  }

  function After(rr: seq<Task>, run: seq<RunEvent>): seq<Task>
    requires rr != []
    ensures After(rr, run) != []
    decreases |run|
  {
    if run == [] then rr else After(Step(rr, run[0]), run[1..])
  }

  function Switches(run: seq<RunEvent>): nat {
    if run == [] then 0 else (if run[0].Awake? then 0 else 1) + Switches(run[1..])
  }

  /** Fairness: whatever the tasks in front of it do and whoever is woken meanwhile, the task at position `k`
      is the current one after exactly `k` switches. */
  lemma {:induction false} RunsAfterPosition(rr: seq<Task>, k: nat, run: seq<RunEvent>)
    requires k < |rr| && Switches(run) == k
    ensures After(rr, run)[0] == rr[k]
    decreases |run|
  {
    if run != [] {
      if run[0].Awake? {
        assert Step(rr, run[0])[k] == rr[k];
        RunsAfterPosition(Step(rr, run[0]), k, run[1..]);
      } else {
        assert |rr| > 1 && Step(rr, run[0])[k - 1] == rr[k];
        RunsAfterPosition(Step(rr, run[0]), k - 1, run[1..]);
      }
    }
  }

  // ---------------------------------------------------------------- semaphore

  /** The two fields of a semaphore: its count and the tasks asleep on it. */
  datatype Lock = Lock(value: int, sq: seq<Task>)

  /** ksemaphore_wait by `t`, up to the sleep. */
  function Waited(l: Lock, t: Task): Lock {
    Lock(l.value - 1, if l.value <= 0 then l.sq + [t] else l.sq)
  }

  /** ksemaphore_signal; the task at the head of the queue is woken. */
  function Signalled(l: Lock): Lock {
    Lock(l.value + 1, if l.sq != [] then l.sq[1..] else [])
  }

  /** A semaphore with the tasks that hold a permit, in order those that asked for one and those that got one, and
      the number of signals so far. */
  datatype Sem = Sem(lock: Lock, holders: multiset<Task>, asked: seq<Task>, served: seq<Task>, signals: nat)

  datatype SemEvent = Wait(task: Task) | Signal(task: Task)

  function InitSem(initial: nat): Sem {
    Sem(Lock(initial, []), multiset{}, [], [], 0)
  }

  /** A task asks for a permit, or gives one up or makes one: whoever signals need not hold any. */
  function SemStep(s: Sem, e: SemEvent): Sem {
    match e
    case Wait(t) =>
      if s.lock.value <= 0 then
        s.(lock := Waited(s.lock, t), asked := s.asked + [t])
      else
        s.(lock := Waited(s.lock, t), holders := s.holders + multiset{t}, asked := s.asked + [t],
           served := s.served + [t])
    case Signal(t) =>
      var left := s.(lock := Signalled(s.lock), holders := s.holders - multiset{t}, signals := s.signals + 1);
      if s.lock.sq != [] then
        var woken := s.lock.sq[0];
        left.(holders := left.holders + multiset{woken}, served := s.served + [woken])
      else
        left
  }

  function SemRun(s: Sem, run: seq<SemEvent>): Sem
    decreases |run|
  {
    if run == [] then s else SemRun(SemStep(s, run[0]), run[1..])
  }

  /** What every wait and every signal keeps: the count is what was put in less what was asked for, its negative
      part is the number of sleepers, and they are those who asked and have not been served, in that order. */
  ghost predicate QueueInv(s: Sem, initial: nat) {
    && s.lock.value == initial + s.signals - |s.asked|
    && |s.lock.sq| == (if s.lock.value < 0 then -s.lock.value else 0)
    && s.served + s.lock.sq == s.asked
  }

  lemma QueueStepKeeps(s: Sem, e: SemEvent, initial: nat)
    requires QueueInv(s, initial)
    ensures QueueInv(SemStep(s, e), initial)
  {
    match e
    case Wait(t) =>
      assert s.served + (s.lock.sq + [t]) == (s.served + s.lock.sq) + [t];
    case Signal(t) =>
      if s.lock.sq != [] {
        assert s.lock.sq == [s.lock.sq[0]] + s.lock.sq[1..];
        assert (s.served + [s.lock.sq[0]]) + s.lock.sq[1..] == s.served + s.lock.sq;
      }
  }

  lemma {:induction false} QueueRunKeeps(s: Sem, run: seq<SemEvent>, initial: nat)
    requires QueueInv(s, initial)
    ensures QueueInv(SemRun(s, run), initial)
    decreases |run|
  {
    hide QueueInv;
    if run != [] {
      QueueStepKeeps(s, run[0], initial);
      QueueRunKeeps(SemStep(s, run[0]), run[1..], initial);
    }
  }

  /** Those who ask for a permit in a run, in order, and the number of its signals. */
  function Asks(run: seq<SemEvent>): seq<Task> {
    if run == [] then [] else (if run[0].Wait? then [run[0].task] else []) + Asks(run[1..])
  }

  function Signals(run: seq<SemEvent>): nat {
    if run == [] then 0 else (if run[0].Signal? then 1 else 0) + Signals(run[1..])
  }

  lemma StepRecords(s: Sem, e: SemEvent)
    ensures SemStep(s, e).asked == s.asked + (if e.Wait? then [e.task] else [])
    ensures SemStep(s, e).signals == s.signals + (if e.Signal? then 1 else 0)
  {
    assert s.asked + [] == s.asked;
  }

  lemma {:induction false} RunRecords(s: Sem, run: seq<SemEvent>)
    ensures SemRun(s, run).asked == s.asked + Asks(run) && SemRun(s, run).signals == s.signals + Signals(run)
    decreases |run|
  {
    hide SemStep;
    if run == [] {
      assert s.asked + [] == s.asked;
    } else {
      StepRecords(s, run[0]);
      RunRecords(SemStep(s, run[0]), run[1..]);
      var first, rest := if run[0].Wait? then [run[0].task] else [], Asks(run[1..]);
      assert (s.asked + first) + rest == s.asked + (first + rest);
    }
  }

  /** First come, first served, whoever signals: those served are the first that asked, as many as there were permits
      at first and signals since. */
  lemma FirstComeFirstServed(run: seq<SemEvent>, initial: nat)
    ensures var s, n := SemRun(InitSem(initial), run), initial + Signals(run);
            if |Asks(run)| <= n then s.served == Asks(run) && s.lock.sq == []
            else s.served == Asks(run)[..n] && s.lock.sq == Asks(run)[n..]
  {
    hide QueueInv;
    NewInv(initial);
    QueueRunKeeps(InitSem(initial), run, initial);
    RunRecords(InitSem(initial), run);
    NoneBefore(Asks(run));
    hide SemRun, Asks, Signals;
    ServedFirst(SemRun(InitSem(initial), run), initial);
  }

  lemma NewInv(initial: nat)
    ensures QueueInv(InitSem(initial), initial)
  {
  }

  lemma NoneBefore(q: seq<Task>)
    ensures [] + q == q
  {
  }

  lemma ServedFirst(s: Sem, initial: nat)
    requires QueueInv(s, initial)
    ensures var n := initial + s.signals;
            if |s.asked| <= n then s.served == s.asked && s.lock.sq == []
            else s.served == s.asked[..n] && s.lock.sq == s.asked[n..]
  {
    if |s.asked| <= initial + s.signals {
      assert s.served + [] == s.served;
    }
  }

  /** A run in which only holders signal. */
  predicate Disciplined(s: Sem, run: seq<SemEvent>)
    decreases |run|
  {
    run == [] || ((run[0].Signal? ==> run[0].task in s.holders) && Disciplined(SemStep(s, run[0]), run[1..]))
  }

  /** Under that discipline permits are only passed on. */
  ghost predicate SemInv(s: Sem, initial: nat) {
    QueueInv(s, initial) && |s.holders| + (if s.lock.value > 0 then s.lock.value else 0) == initial
  }

  lemma SemStepKeeps(s: Sem, e: SemEvent, initial: nat)
    requires SemInv(s, initial) && (e.Signal? ==> e.task in s.holders)
    ensures SemInv(SemStep(s, e), initial)
  {
    QueueStepKeeps(s, e, initial);
  }

  lemma {:induction false} SemRunKeeps(s: Sem, run: seq<SemEvent>, initial: nat)
    requires SemInv(s, initial) && Disciplined(s, run)
    ensures SemInv(SemRun(s, run), initial)
    decreases |run|
  {
    hide SemInv, SemStep;
    if run != [] {
      SemStepKeeps(s, run[0], initial);
      SemRunKeeps(SemStep(s, run[0]), run[1..], initial);
    }
  }

  /** Over any run in which only holders signal at most `initial` tasks hold a permit, nobody waits while one is left,
      and permits are given in the order in which they were asked for. */
  lemma PermitsAreBounded(run: seq<SemEvent>, initial: nat)
    requires Disciplined(InitSem(initial), run)
    ensures var s := SemRun(InitSem(initial), run);
            && |s.holders| <= initial
            && |s.lock.sq| == (if s.lock.value < 0 then -s.lock.value else 0)
            && (s.lock.sq != [] ==> |s.holders| == initial)
            && s.served + s.lock.sq == s.asked
  {
    SemRunKeeps(InitSem(initial), run, initial);
  }

  // ---------------------------------------------------------------- many semaphores, one run queue

  /** The run queue and all semaphores. */
  datatype Machine = Machine(rr: seq<Task>, sems: seq<Sem>)

  /** What the current task does, or the timer, or whatever brings back a task that slept on something else. */
  datatype MachineEvent = WaitOn(k: nat) | SignalOn(k: nat) | Turn | Leave | Arrive(task: Task)

  /** How often a task occurs in a queue. */
  function Times(q: seq<Task>, t: Task): nat {
    multiset(q)[t]
  }

  function Asleep(sems: seq<Sem>, t: Task): nat {
    if sems == [] then 0 else Times(sems[0].lock.sq, t) + Asleep(sems[1..], t)
  }

  /** The places of a task: one for each time it is runnable and one for each time it sleeps on a semaphore. */
  function Places(m: Machine, t: Task): nat {
    Times(m.rr, t) + Asleep(m.sems, t)
  }

  /** The idle task sleeps on nothing and never leaves, and who arrives has no place yet. Anyone may signal. */
  predicate Possible(m: Machine, e: MachineEvent, idle: Task) {
    m.rr != [] &&
    match e
    case WaitOn(k) => k < |m.sems| && m.rr[0] != idle
    case SignalOn(k) => k < |m.sems|
    case Turn => true
    case Leave => m.rr[0] != idle
    case Arrive(t) => Places(m, t) == 0
  }

  function MachineStep(m: Machine, e: MachineEvent): Machine
    requires m.rr != [] && ((e.WaitOn? || e.SignalOn?) ==> e.k < |m.sems|)
  {
    match e
    case WaitOn(k) =>
      var sem := m.sems[k];
      Machine(if sem.lock.value <= 0 then Step(m.rr, Sleep) else m.rr, m.sems[k := SemStep(sem, Wait(m.rr[0]))])
    case SignalOn(k) =>
      var sem := m.sems[k];
      Machine(if sem.lock.sq != [] then Step(m.rr, Awake(sem.lock.sq[0])) else m.rr,
              m.sems[k := SemStep(sem, Signal(m.rr[0]))])
    case Turn => m.(rr := Step(m.rr, Preempt))
    case Leave => m.(rr := Step(m.rr, Sleep))
    case Arrive(t) => m.(rr := Step(m.rr, Awake(t)))
  }

  predicate PossibleRun(m: Machine, run: seq<MachineEvent>, idle: Task)
    decreases |run|
  {
    run == [] || (Possible(m, run[0], idle) && PossibleRun(MachineStep(m, run[0]), run[1..], idle))
  }

  function MachineRun(m: Machine, run: seq<MachineEvent>, idle: Task): Machine
    requires PossibleRun(m, run, idle)
    decreases |run|
  {
    if run == [] then m else MachineRun(MachineStep(m, run[0]), run[1..], idle)
  }

  /** Nobody has two places, the idle task is runnable, and every semaphore keeps its own invariant. */
  ghost predicate MachineInv(m: Machine, idle: Task, initial: seq<nat>) {
    && (forall t :: Places(m, t) <= 1) && idle in m.rr
    && |m.sems| == |initial| && forall k :: 0 <= k < |initial| ==> QueueInv(m.sems[k], initial[k])
  }

  lemma TimesHead(q: seq<Task>, t: Task)
    requires q != []
    ensures Times(q, t) == (if t == q[0] then 1 else 0) + Times(q[1..], t)
  {
    assert q == [q[0]] + q[1..];
  }

  lemma TimesLast(q: seq<Task>, x: Task, t: Task)
    ensures Times(q + [x], t) == Times(q, t) + if t == x then 1 else 0
  {
  }

  lemma {:induction false} AsleepUpdate(sems: seq<Sem>, k: nat, s: Sem, t: Task)
    requires k < |sems|
    ensures Asleep(sems[k := s], t) + Times(sems[k].lock.sq, t) == Asleep(sems, t) + Times(s.lock.sq, t)
  {
    hide Times;
    if k > 0 {
      AsleepUpdate(sems[1..], k - 1, s, t);
      assert sems[k := s][1..] == sems[1..][k - 1 := s];
    } else {
      assert sems[k := s][1..] == sems[1..];
    }
  }

  /** The sleepers of two semaphores are counted separately. */
  lemma {:induction false} AsleepOnce(sems: seq<Sem>, k: nat, l: nat, t: Task)
    requires k < |sems| && l < |sems|
    ensures Asleep(sems, t) >= Times(sems[k].lock.sq, t) + if k != l then Times(sems[l].lock.sq, t) else 0
  {
    hide Times;
    if k > 0 && l > 0 {
      AsleepOnce(sems[1..], k - 1, l - 1, t);
    } else if k > 0 {
      AsleepOnce(sems[1..], k - 1, k - 1, t);
    } else if l > 0 {
      AsleepOnce(sems[1..], l - 1, l - 1, t);
    }
  }

  /** What the three events of the run queue do to the places of `t`. */
  lemma StepTimes(rr: seq<Task>, x: Task, t: Task)
    requires rr != []
    ensures Times(Step(rr, Preempt), t) == Times(rr, t)
    ensures Times(Step(rr, Awake(x)), t) == Times(rr, t) + if t == x then 1 else 0
    ensures |rr| > 1 ==> Times(Step(rr, Sleep), t) + (if t == rr[0] then 1 else 0) == Times(rr, t)
  {
    TimesHead(rr, t);
    TimesLast(rr, x, t);
    TimesLast(rr[1..], rr[0], t);
  }

  /** The idle task stays queued, so the queue is never down to the task that goes to sleep. */
  lemma IdleStays(rr: seq<Task>, idle: Task, x: Task)
    requires idle in rr
    ensures idle in Step(rr, Preempt) && idle in Step(rr, Awake(x))
    ensures rr[0] != idle ==> |rr| > 1 && idle in Step(rr, Sleep)
  {
    assert rr == [rr[0]] + rr[1..];
    assert rr[0] != idle ==> idle in rr[1..];
  }

  /** A step moves tasks from place to place. Only an arrival adds a place and only leaving gives one up. */
  lemma StepMoves(m: Machine, e: MachineEvent, idle: Task, t: Task)
    requires Possible(m, e, idle) && idle in m.rr
    ensures Places(MachineStep(m, e), t) + (if e == Leave && t == m.rr[0] then 1 else 0)
         == Places(m, t) + (if e == Arrive(t) then 1 else 0)
  {
    hide Step, Asleep, Times;
    IdleStays(m.rr, idle, idle);
    match e
    case WaitOn(k) =>
      StepTimes(m.rr, idle, t);
      AsleepUpdate(m.sems, k, SemStep(m.sems[k], Wait(m.rr[0])), t);
      TimesLast(m.sems[k].lock.sq, m.rr[0], t);
    case SignalOn(k) =>
      var sq := m.sems[k].lock.sq;
      AsleepUpdate(m.sems, k, SemStep(m.sems[k], Signal(m.rr[0])), t);
      if sq != [] {
        TimesHead(sq, t);
        StepTimes(m.rr, sq[0], t);
      }
    case Arrive(x) => StepTimes(m.rr, x, t);
    case _ => StepTimes(m.rr, idle, t);
  }

  lemma IdleRunnable(m: Machine, e: MachineEvent, idle: Task)
    requires Possible(m, e, idle) && idle in m.rr
    ensures idle in MachineStep(m, e).rr
  {
    hide Step, SemStep;
    match e
    case SignalOn(k) => IdleStays(m.rr, idle, if m.sems[k].lock.sq != [] then m.sems[k].lock.sq[0] else idle);
    case Arrive(t) => IdleStays(m.rr, idle, t);
    case _ => IdleStays(m.rr, idle, idle);
  }

  lemma SemsKeep(m: Machine, e: MachineEvent, idle: Task, initial: seq<nat>)
    requires |m.sems| == |initial| && Possible(m, e, idle)
    requires forall k :: 0 <= k < |initial| ==> QueueInv(m.sems[k], initial[k])
    ensures |MachineStep(m, e).sems| == |initial|
    ensures forall k :: 0 <= k < |initial| ==> QueueInv(MachineStep(m, e).sems[k], initial[k])
  {
    hide Step, SemStep, QueueInv;
    match e
    case WaitOn(k) => QueueStepKeeps(m.sems[k], Wait(m.rr[0]), initial[k]);
    case SignalOn(k) => QueueStepKeeps(m.sems[k], Signal(m.rr[0]), initial[k]);
    case _ =>
  }

  lemma MachineStepKeeps(m: Machine, e: MachineEvent, idle: Task, initial: seq<nat>)
    requires MachineInv(m, idle, initial) && Possible(m, e, idle)
    ensures MachineInv(MachineStep(m, e), idle, initial)
  {
    hide MachineStep, QueueInv;
    IdleRunnable(m, e, idle);
    SemsKeep(m, e, idle, initial);
    forall t ensures Places(MachineStep(m, e), t) <= 1 {
      StepMoves(m, e, idle, t);
      hide Places;
      assert Places(m, t) <= 1;
    }
  }

  lemma {:induction false} MachineRunKeeps(m: Machine, run: seq<MachineEvent>, idle: Task, initial: seq<nat>)
    requires MachineInv(m, idle, initial) && PossibleRun(m, run, idle)
    ensures MachineInv(MachineRun(m, run, idle), idle, initial)
    decreases |run|
  {
    hide MachineInv, MachineStep, Places;
    if run != [] {
      MachineStepKeeps(m, run[0], idle, initial);
      MachineRunKeeps(MachineStep(m, run[0]), run[1..], idle, initial);
    }
  }

  /** How often in a run the current task gives up its turn: to the timer, for good, or by falling asleep. */
  function TurnsEnded(m: Machine, run: seq<MachineEvent>, idle: Task): nat
    requires PossibleRun(m, run, idle)
    decreases |run|
  {
    if run == [] then 0
    else (if EndsTurn(m, run[0]) then 1 else 0) + TurnsEnded(MachineStep(m, run[0]), run[1..], idle)
  }

  predicate EndsTurn(m: Machine, e: MachineEvent) {
    e.Turn? || e.Leave? || (e.WaitOn? && e.k < |m.sems| && m.sems[e.k].lock.value <= 0)
  }

  /** Fairness holds whatever semaphores the tasks use: the task at position `k` is the current one when `k` turns have
      ended. */
  lemma {:induction false} MachineIsFair(m: Machine, run: seq<MachineEvent>, idle: Task, k: nat)
    requires PossibleRun(m, run, idle) && idle in m.rr && k < |m.rr| && TurnsEnded(m, run, idle) == k
    ensures var m' := MachineRun(m, run, idle); m'.rr != [] && m'.rr[0] == m.rr[k]
    decreases |run|
  {
    if run != [] {
      var m' := MachineStep(m, run[0]);
      FairStep(m, run[0], k);
      IdleRunnable(m, run[0], idle);
      hide MachineStep;
      MachineIsFair(m', run[1..], idle, if EndsTurn(m, run[0]) then k - 1 else k);
    }
  }

  /** The end of a turn brings everybody one place forward, and nothing else moves anybody. */
  lemma FairStep(m: Machine, e: MachineEvent, k: nat)
    requires m.rr != [] && ((e.WaitOn? || e.SignalOn?) ==> e.k < |m.sems|) && k < |m.rr|
    ensures var rr := MachineStep(m, e).rr;
            if !EndsTurn(m, e) then k < |rr| && rr[k] == m.rr[k]
            else k > 0 ==> k - 1 < |rr| && rr[k - 1] == m.rr[k]
    ensures e.Turn? ==> var rr := MachineStep(m, e).rr; |rr| == |m.rr| && rr[|rr| - 1] == m.rr[0]
  {
    hide SemStep;
  }

  function NewSems(initial: seq<nat>): (sems: seq<Sem>)
    ensures |sems| == |initial| && forall k :: 0 <= k < |initial| ==> sems[k] == InitSem(initial[k])
  {
    if initial == [] then [] else [InitSem(initial[0])] + NewSems(initial[1..])
  }

  lemma {:induction false} NoneAsleep(initial: seq<nat>, t: Task)
    ensures Asleep(NewSems(initial), t) == 0
  {
    if initial != [] {
      assert NewSems(initial)[1..] == NewSems(initial[1..]);
      NoneAsleep(initial[1..], t);
    }
  }

  lemma NewMachineInv(idle: Task, initial: seq<nat>)
    ensures MachineInv(Machine([idle], NewSems(initial)), idle, initial)
  {
    forall t ensures Places(Machine([idle], NewSems(initial)), t) <= 1 {
      NoneAsleep(initial, t);
    }
  }

  /** The run's signals of semaphore k all come from holders of its permits. */
  predicate Honest(m: Machine, run: seq<MachineEvent>, idle: Task, k: nat)
    requires k < |m.sems| && PossibleRun(m, run, idle)
    decreases |run|
  {
    run == [] || ((run[0] == SignalOn(k) ==> m.rr[0] in m.sems[k].holders)
                  && Honest(MachineStep(m, run[0]), run[1..], idle, k))
  }

  lemma {:induction false} HonestRunKeeps(m: Machine, run: seq<MachineEvent>, idle: Task, k: nat, initial: nat)
    requires k < |m.sems| && PossibleRun(m, run, idle) && Honest(m, run, idle, k) && SemInv(m.sems[k], initial)
    ensures var m' := MachineRun(m, run, idle); k < |m'.sems| && SemInv(m'.sems[k], initial)
    decreases |run|
  {
    hide Step, SemStep, SemInv;
    if run != [] {
      if run[0] == WaitOn(k) {
        SemStepKeeps(m.sems[k], Wait(m.rr[0]), initial);
      } else if run[0] == SignalOn(k) {
        SemStepKeeps(m.sems[k], Signal(m.rr[0]), initial);
      }
      HonestRunKeeps(MachineStep(m, run[0]), run[1..], idle, k, initial);
    }
  }

  /** What happens to semaphore k in a run. */
  function EventsOn(m: Machine, run: seq<MachineEvent>, idle: Task, k: nat): seq<SemEvent>
    requires PossibleRun(m, run, idle)
    decreases |run|
  {
    if run == [] then []
    else
      var rest := EventsOn(MachineStep(m, run[0]), run[1..], idle, k);
      if run[0] == WaitOn(k) then [Wait(m.rr[0])] + rest
      else if run[0] == SignalOn(k) then [Signal(m.rr[0])] + rest
      else rest
  }

  /** Each semaphore of the system goes through its own events as if it were alone. */
  lemma {:induction false} EachAsAlone(m: Machine, run: seq<MachineEvent>, idle: Task, k: nat)
    requires PossibleRun(m, run, idle) && k < |m.sems|
    ensures var m' := MachineRun(m, run, idle);
            |m'.sems| == |m.sems| && m'.sems[k] == SemRun(m.sems[k], EventsOn(m, run, idle, k))
    decreases |run|
  {
    hide SemStep, Step, Places;
    if run != [] {
      var m', events := MachineStep(m, run[0]), EventsOn(m, run, idle, k);
      EachAsAlone(m', run[1..], idle, k);
      if run[0] == WaitOn(k) || run[0] == SignalOn(k) {
        assert events[1..] == EventsOn(m', run[1..], idle, k);
      }
    }
  }

  /** Over any run of a system with any number of semaphores, whoever signals them: a task that sleeps on a semaphore
      sleeps there once, on no other semaphore, and is not runnable; the idle task is; and each semaphore serves those
      who asked in their order, as many as there were permits at first and signals since. */
  lemma OnePlaceForEveryTask(idle: Task, initial: seq<nat>, run: seq<MachineEvent>, k: nat, l: nat, t: Task)
    requires PossibleRun(Machine([idle], NewSems(initial)), run, idle) && k < |initial| && l < |initial|
    ensures var m := MachineRun(Machine([idle], NewSems(initial)), run, idle);
            && |m.sems| == |initial| && idle in m.rr && Times(m.rr, t) <= 1 && Times(m.sems[k].lock.sq, t) <= 1
            && (t in m.sems[k].lock.sq ==> t !in m.rr && (t in m.sems[l].lock.sq ==> l == k))
            && var s := m.sems[k];
               && s.served + s.lock.sq == s.asked
               && |s.served| == if |s.asked| <= initial[k] + s.signals then |s.asked| else initial[k] + s.signals
  {
    hide PossibleRun, MachineRun, Asleep, NewSems;
    NewMachineInv(idle, initial);
    MachineRunKeeps(Machine([idle], NewSems(initial)), run, idle, initial);
    var m := MachineRun(Machine([idle], NewSems(initial)), run, idle);
    AsleepOnce(m.sems, k, l, t);
    assert QueueInv(m.sems[k], initial[k]) && Places(m, t) <= 1;
  }

  /** And as long as only holders signal it, a semaphore never has more holders than permits and keeps nobody waiting
      while one is left, whatever happens to the others. */
  lemma HoldersBounded(idle: Task, initial: seq<nat>, run: seq<MachineEvent>, k: nat)
    requires PossibleRun(Machine([idle], NewSems(initial)), run, idle) && k < |initial|
    requires Honest(Machine([idle], NewSems(initial)), run, idle, k)
    ensures var m := MachineRun(Machine([idle], NewSems(initial)), run, idle);
            && k < |m.sems| && |m.sems[k].holders| <= initial[k]
            && (m.sems[k].lock.sq != [] ==> |m.sems[k].holders| == initial[k])
  {
    hide PossibleRun, MachineRun, NewSems, Honest;
    HonestRunKeeps(Machine([idle], NewSems(initial)), run, idle, k, initial[k]);
  }
}
