/** The pipe of src/pipe.c with its semaphore and the run queue. Each method is one step of PipeSteps; many readers
    and writers share the pipe, and the tasks that use something else are in the run queue as well. */
module Pipes {
  import opened Bytes
  import opened DirTable
  import opened PipeRuns
  import opened PipeSteps
  import opened Scheduling
  import opened Sequences

  class PipeSystem {
    // the pipe
    var list: seq<seq<byte>>
    var readerCount: nat
    var writerCount: nat
    // its semaphore
    var value: int
    var sq: seq<Task>
    /** What each reader that fell asleep had asked for: the parameter of its call of pipe_read. */
    var wants: map<Task, nat>
    // the run queue; its head is the current task
    var rr: seq<Task>
    const idle: Task
    /** Readers that have been woken and have not run since: the run queue holds them, and a message is theirs. */
    ghost var granted: set<Task>
    /** What writers have put in and what readers have got out, over the whole run. */
    ghost var written: seq<byte>
    ghost var delivered: seq<byte>

    ghost predicate Valid()
      reads this
    {
      // nothing is lost, invented or reordered
      Sound(State(), idle, 0) && delivered + Queued(list) == written
    }

    ghost function State(): PipeState
      reads this
    {
      PipeState(list, readerCount, writerCount, Lock(value, sq), rr, granted, wants)
    }

    constructor (idle: Task)
      ensures Valid() && rr == [idle] && this.idle == idle && sq == [] && list == [] && value == 0
      ensures readerCount == 1 && writerCount == 1 && granted == {} && wants == map[]
      ensures written == [] && delivered == []
    {
      this.idle := idle;
      list, readerCount, writerCount := [], 1, 1;
      value, sq := 0, [];
      rr, wants := [idle], map[];
      granted, written, delivered := {}, [], [];
    }

    // ------------------------------------------------------------ run queue

    /** task_curtask. */
    function Current(): Task
      requires rr != []
      reads this
    {
      rr[0]
    }

    /** task_switch(0): the timer moves the current task behind all others. */
    method Preempt()
      requires Valid()
      modifies `rr
      ensures Valid() && State() == PipeNext(old(State()), Switched)
      ensures rr == old(rr)[1..] + [old(Current())]
    {
      hide Terminated, Queued, Distinct;
      NextSound(State(), Switched, idle);
      if |rr| == 1 {
        return;
      }
      var cur := rr[0];
      rr := rr[1..];
      rr := rr + [cur];
    }

    /** task_switch(1) for a task other than the idle one: since the idle task is in the run queue too,
        the early return for a queue of size 1 is not taken and the task does leave the queue. */
    method Sleep()
      requires idle in rr && rr[0] != idle
      modifies `rr
      ensures rr == old(rr)[1..] == Step(old(rr), RunEvent.Sleep) && idle in rr
    {
      assert rr == [rr[0]] + rr[1..];
      assert idle in rr[1..];
      if |rr| == 1 {
        return;
      }
      rr := rr[1..];
    }

    /** A task that is not blocked on this pipe becomes runnable: a new one, or one that slept elsewhere. */
    method Arrive(t: Task)
      requires Valid() && t !in rr && t !in sq
      modifies `rr
      ensures Valid() && State() == PipeNext(old(State()), Arrived(t)) && rr == old(rr) + [t]
    {
      hide Terminated, Queued, Distinct;
      NextSound(State(), Arrived(t), idle);
      rr := rr + [t];
    }

    /** task_switch(1) by a task that falls asleep on something else, or exits. */
    method Depart()
      requires Valid() && Current() != idle && Current() !in granted
      modifies `rr
      ensures Valid() && State() == PipeNext(old(State()), Departed) && rr == old(rr)[1..]
    {
      hide Terminated, Queued, Distinct;
      NextSound(State(), Departed, idle);
      Sleep();
    }

    // ------------------------------------------------------------ semaphore

    /** ksemaphore_signal: a sleeper, if there is one, is woken in the order of arrival. */
    method Signal()
      modifies `value, `sq, `rr, `granted
      ensures State() == Woken(old(State())) && value == old(value) + 1
      ensures sq == (if old(sq) == [] then [] else old(sq)[1..])
      ensures rr == (if old(sq) == [] then old(rr) else old(rr) + [old(sq)[0]])
    {
      value := value + 1;
      if |sq| != 0 {
        var t := sq[0];
        sq := sq[1..];
        rr := rr + [t];
        granted := granted + {t};
      }
    }

    // ------------------------------------------------------------ pipe

    /** pipe_write by the current task. Without readers the bytes are dropped. */
    method Write(buffer: seq<byte>)
      requires Valid()
      modifies `list, `value, `sq, `rr, `granted, `written
      ensures Valid() && State() == PipeNext(old(State()), Written(buffer))
      ensures written == old(written) + if readerCount == 0 then [] else CString(buffer + [0])
      ensures readerCount == 0 ==> State() == old(State())
      ensures readerCount > 0 ==>
                && list == old(list) + [buffer + [0]] && value == old(value) + 1
                && sq == (if old(sq) == [] then [] else old(sq)[1..])
                && rr == (if old(sq) == [] then old(rr) else old(rr) + [old(sq)[0]])
    {
      hide StrLen, CString, Queued, Terminated, Distinct, Woken;
      NextSound(State(), Written(buffer), idle);
      if readerCount == 0 {
        return;
      }
      var buf := buffer + [0];
      QueuedPush(list, buf, delivered);
      list := list + [buf];
      written := written + CString(buf);
      Signal();
    }

    /** pipe_read by the current task, up to where it sleeps or returns. */
    method Read(len: nat) returns (blocked: bool, data: seq<byte>)
      requires Valid() && Current() != idle && Current() !in granted
      modifies `list, `value, `sq, `rr, `granted, `wants, `delivered
      ensures Valid()
      ensures Enabled(old(State()), Asked(len)) && State() == PipeNext(old(State()), Asked(len))
      ensures blocked || (old(list) == [] && writerCount == 0) ==> data == []
      ensures !blocked && !(old(list) == [] && writerCount == 0) ==> Received(old(list), list, len, data)
      ensures delivered == old(delivered) + data
      ensures blocked <==> old(value) <= 0 && !(old(list) == [] && writerCount == 0)
      ensures blocked ==>
                && list == old(list) && value == old(value) - 1 && rr == old(rr)[1..]
                && sq == old(sq) + [old(Current())] && wants == old(wants)[old(Current()) := len]
      ensures old(list) == [] && writerCount == 0 ==> State() == old(State())
    {
      hide StrLen, Queued, Terminated, Distinct, Served, Received, Step;
      AskedSound(State(), len, idle);
      assert delivered + [] == delivered;
      if |list| == 0 && writerCount == 0 {
        return false, [];
      }
      var cur := Current();
      value := value - 1;
      if value + 1 <= 0 {
        sq := sq + [cur];
        wants := wants[cur := len];
        Sleep();
        return true, [];
      }
      data := Finish(len);
      blocked := false;
    }

    /** The rest of pipe_read once the sleeper runs again. */
    method Resume() returns (data: seq<byte>)
      requires Valid() && Current() in granted
      modifies `list, `value, `sq, `rr, `granted, `delivered
      ensures Valid() && old(Current()) !in granted
      ensures Enabled(old(State()), Resumed) && State() == PipeNext(old(State()), Resumed)
      ensures Received(old(list), list, wants[old(Current())], data) && delivered == old(delivered) + data
      ensures if wants[old(Current())] < |CString(old(list)[0])| then
                && value == old(value) + 1 && sq == (if old(sq) == [] then [] else old(sq)[1..])
                && rr == (if old(sq) == [] then old(rr) else old(rr) + [old(sq)[0]])
              else value == old(value) && sq == old(sq) && rr == old(rr)
    {
      hide StrLen, Queued, Terminated, Distinct, Served, Received;
      ResumedSound(State(), idle);
      var len := wants[Current()];
      granted := granted - {Current()};
      data := Finish(len);
    }

    /** What a reader does with the message its permit stands for. The queue is never empty here. */
    method Finish(len: nat) returns (data: seq<byte>)
      requires Sound(State(), idle, 1) && delivered + Queued(list) == written
      modifies `list, `value, `sq, `rr, `granted, `delivered
      ensures Valid() && Received(old(list), list, len, data) && delivered == old(delivered) + data
      ensures Servable(old(State())) && State() == Served(old(State()), len)
      ensures if len < |CString(old(list)[0])| then
                && value == old(value) + 1 && sq == (if old(sq) == [] then [] else old(sq)[1..])
                && rr == (if old(sq) == [] then old(rr) else old(rr) + [old(sq)[0]])
              else value == old(value) && sq == old(sq) && rr == old(rr)
      ensures forall t :: t in granted ==> t in old(granted) || t in old(sq)
    {
      hide CString, Queued, StrLen, Received, Terminated, Queues, Distinct;
      ServedSound(State(), idle, len);
      var input := list[0];
      TerminatedParts(list, input);
      CStringLength(input);
      var inputLen := StrLen(input);
      var count := if len > inputLen then inputLen else len;
      data := input[..count];
      delivered := delivered + data;
      if len < inputLen {
        var rest := input[len..inputLen];
        ShiftedString(input, len);
        list := [rest + [0] + input[|rest| + 1..]] + list[1..];
        PartialRead(old(list), list, len, old(delivered));
        Signal();
      } else {
        list := list[1..];
        WholeRead(old(list), len, old(delivered));
      }
    }

    // ------------------------------------------------------------ ends

    /** Another descriptor for an end, as fork and dup make it. */
    method Share(reader: bool)
      requires Valid()
      modifies `readerCount, `writerCount
      ensures Valid() && State() == PipeNext(old(State()), Shared(reader))
      ensures readerCount == old(readerCount) + (if reader then 1 else 0)
      ensures writerCount == old(writerCount) + (if reader then 0 else 1)
    {
      if reader {
        readerCount := readerCount + 1;
      } else {
        writerCount := writerCount + 1;
      }
    }

    /** pipe_close_rd and pipe_close_wr: the pipe dies, and its messages are freed, exactly when it has lost all
        its ends. Sleepers are not woken: once the last writer has gone, each of them sleeps for good exactly if the
        readers in front of it leave nothing. */
    method Close(reader: bool) returns (dead: bool)
      requires Valid() && (if reader then readerCount else writerCount) > 0
      modifies `readerCount, `writerCount, `list
      ensures State() == PipeNext(old(State()), Closed(reader))
      ensures readerCount == old(readerCount) - (if reader then 1 else 0)
      ensures writerCount == old(writerCount) - (if reader then 0 else 1)
      ensures list == if dead then [] else old(list)
      ensures (dead <==> readerCount == 0 && writerCount == 0) && (!dead ==> Valid())
      ensures sq == old(sq)
      ensures writerCount == 0 ==>
        forall k :: 0 <= k < |sq| ==> (SleepsForGood(State(), idle, sq[k]) <==> LeftFor(State(), k) == [])
    {
      hide Queued, Terminated, Queues, SleepsForGood;
      if reader {
        readerCount := readerCount - 1;
      } else {
        writerCount := writerCount - 1;
      }
      dead := readerCount == 0 && writerCount == 0;
      if dead {
        while |list| != 0
          decreases |list|
          modifies `list
        {
          list := list[1..];
        }
      }
      NothingQueued();
      forall k | 0 <= k < |sq| && writerCount == 0
        ensures SleepsForGood(State(), idle, sq[k]) <==> LeftFor(State(), k) == []
      {
        if dead {
          StrandedSleep(State(), idle, sq[k]);
        } else {
          SleepsExactly(State(), idle, k);
        }
      }
    }
  }

  lemma QueuedPush(list: seq<seq<byte>>, m: seq<byte>, delivered: seq<byte>)
    ensures delivered + Queued(list + [m]) == (delivered + Queued(list)) + CString(m)
  {
    hide CString, Queued;
    QueuedConcat(list, [m]);
    QueuedOne(m);
  }

  /** A short read leaves the rest of the message in front of the others. */
  lemma PartialRead(list: seq<seq<byte>>, list': seq<seq<byte>>, len: nat, delivered: seq<byte>)
    requires list != [] && len < StrLen(list[0]) && list' != [] && list'[1..] == list[1..]
    requires CString(list'[0]) == list[0][len..StrLen(list[0])]
    ensures Received(list, list', len, list[0][..len])
    ensures delivered + list[0][..len] + Queued(list') == delivered + Queued(list)
  {
    hide Queued, StrLen;
    QueuedStep(list);
    QueuedStep(list');
    SplitMessage(list[0], len);
    Regroup(delivered, list[0][..len], CString(list'[0]), Queued(list[1..]));
  }

  lemma SplitMessage(m: seq<byte>, len: nat)
    requires len < StrLen(m)
    ensures m[..len] == CString(m)[..len] && CString(m)[len..] == m[len..StrLen(m)]
    ensures CString(m) == m[..len] + m[len..StrLen(m)]
  {
    hide StrLen;
  }

  lemma Regroup(a: seq<byte>, b: seq<byte>, c: seq<byte>, d: seq<byte>)
    ensures (a + b) + (c + d) == a + ((b + c) + d)
  {
  }

  /** A long enough read removes the message. */
  lemma WholeRead(list: seq<seq<byte>>, len: nat, delivered: seq<byte>)
    requires list != [] && len >= StrLen(list[0])
    ensures Received(list, list[1..], len, list[0][..StrLen(list[0])])
    ensures delivered + list[0][..StrLen(list[0])] + Queued(list[1..]) == delivered + Queued(list)
  {
    hide Queued, StrLen;
    QueuedStep(list);
    var m, more := CString(list[0]), Queued(list[1..]);
    assert delivered + m + more == delivered + (m + more);
  }

  /** A read of up to `len` bytes took `data` off the front of the first message, which keeps the rest,
      if any. */
  ghost predicate Received(list: seq<seq<byte>>, list': seq<seq<byte>>, len: nat, data: seq<byte>) {
    && list != []
    && var m := CString(list[0]);
       if len < |m| then
         data == m[..len] && list' != [] && CString(list'[0]) == m[len..] && list'[1..] == list[1..]
       else
         data == m && list' == list[1..]
  }
}
