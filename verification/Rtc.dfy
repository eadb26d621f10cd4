/** The real-time clock read: a busy-waiting reader and an interrupt handler that share two flags. */
module Rtc {
  /** Where the reader is: outside a read, polling, about to clear the sync flag, about to clear the read flag. */
  datatype Pc = Outside | Polling | ClearSync | ClearRead

  /** Flags and reader position, with a history: interrupts so far, the interrupt that raised the sync flag, the one
      the current read saw, and for each finished read the interrupt that released it. */
  datatype State = State(
    readFlag: bool, syncFlag: bool, pc: Pc,
    interrupts: nat, raisedBy: nat, seen: nat, released: seq<nat>)

  datatype Event = Reader | Interrupt

  const START := State(false, false, Outside, 0, 0, 0, [])

  /** One statement of rtc_read; the step from Outside is the call's first assignment. */
  function ReaderStep(s: State): State {
    match s.pc
    case Outside => s.(readFlag := true, pc := Polling)
    case Polling => if s.syncFlag then s.(pc := ClearSync) else s
    case ClearSync => s.(syncFlag := false, seen := s.raisedBy, pc := ClearRead)
    case ClearRead => s.(readFlag := false, pc := Outside, released := s.released + [s.seen])
  }

  /** rtc_handler, numbered from 1. */
  function InterruptStep(s: State): State {
    var n := s.interrupts + 1;
    if s.readFlag then s.(syncFlag := true, interrupts := n, raisedBy := if s.syncFlag then s.raisedBy else n)
    else s.(interrupts := n)
  }

  function Step(s: State, e: Event): State {
    match e
    case Reader => ReaderStep(s)
    case Interrupt => InterruptStep(s)
  }

  function Run(s: State, events: seq<Event>): State
    decreases |events|
  {
    if events == [] then s else Run(Step(s, events[0]), events[1..])
  }

  // ---------------------------------------------------------------- what every interleaving keeps

  ghost predicate Increasing(r: seq<nat>) {
    forall i, j :: 0 <= i < j < |r| ==> r[i] < r[j]
  }

  ghost predicate AllBelow(r: seq<nat>, n: int) {
    forall i :: 0 <= i < |r| ==> 1 <= r[i] < n
  }

  ghost predicate Inv(s: State) {
    && (s.readFlag <==> s.pc != Outside) && (s.pc == ClearSync ==> s.syncFlag)
    && Increasing(s.released)
    && AllBelow(s.released, s.interrupts + 1)
    && (s.syncFlag ==> s.raisedBy <= s.interrupts && s.raisedBy >= 1 && AllBelow(s.released, s.raisedBy))
    && (s.pc == ClearRead ==> 1 <= s.seen <= s.interrupts && AllBelow(s.released, s.seen))
    && (s.pc == ClearRead && s.syncFlag ==> s.seen < s.raisedBy)
  }

  lemma StepKeepsInv(s: State, e: Event)
    requires Inv(s)
    ensures Inv(Step(s, e))
  {
  }

  lemma {:induction false} RunKeepsInv(s: State, events: seq<Event>)
    requires Inv(s)
    ensures Inv(Run(s, events))
    decreases |events|
  {
    if events != [] {
      StepKeepsInv(s, events[0]);
      RunKeepsInv(Step(s, events[0]), events[1..]);
    }
  }

  lemma {:induction false} IncreasingLength(r: seq<nat>, n: nat)
    requires Increasing(r) && AllBelow(r, n + 1)
    ensures |r| <= n
  {
    if r != [] {
      var last := r[|r| - 1];
      var front := r[..|r| - 1];
      assert AllBelow(front, last);
      IncreasingLength(front, last - 1);
    }
  }

  /** Over every interleaving each finished read was released by an interrupt of its own, in order; so there are never
      more finished reads than interrupts. */
  lemma ReadsHaveTheirOwnInterrupts(events: seq<Event>)
    ensures
      var s := Run(START, events);
      Increasing(s.released) && AllBelow(s.released, s.interrupts + 1) && |s.released| <= s.interrupts
  {
    RunKeepsInv(START, events);
    var s := Run(START, events);
    IncreasingLength(s.released, s.interrupts);
  }

  // ---------------------------------------------------------------- release

  function ReaderSteps(events: seq<Event>): nat {
    if events == [] then 0 else (if events[0].Reader? then 1 else 0) + ReaderSteps(events[1..])
  }

  /** Reader statements left before a read whose interrupt has come is finished. */
  function StepsLeft(pc: Pc): nat {
    match pc
    case Polling => 3
    case ClearSync => 2
    case ClearRead => 1
    case Outside => 0
  }

  lemma {:induction false} ReleasedReadFinishes(s: State, events: seq<Event>)
    requires Inv(s) && s.pc != Outside && (s.pc == Polling ==> s.syncFlag)
    requires ReaderSteps(events) >= StepsLeft(s.pc)
    ensures |Run(s, events).released| > |s.released|
    decreases |events|
  {
    var t := Step(s, events[0]);
    StepKeepsInv(s, events[0]);
    if t.pc == Outside {
      NeverForgets(t, events[1..]);
    } else {
      ReleasedReadFinishes(t, events[1..]);
    }
  }

  lemma {:induction false} NeverForgets(s: State, events: seq<Event>)
    ensures |Run(s, events).released| >= |s.released|
    decreases |events|
  {
    if events != [] {
      NeverForgets(Step(s, events[0]), events[1..]);
    }
  }

  /** A waiting reader is released by the next interrupt: three more of its own statements finish the read, whatever
      else interrupts it. */
  lemma NextInterruptReleases(s: State, events: seq<Event>)
    requires Inv(s) && s.pc == Polling && ReaderSteps(events) >= 3
    ensures |Run(Step(s, Interrupt), events).released| > |s.released|
  {
    StepKeepsInv(s, Interrupt);
    ReleasedReadFinishes(Step(s, Interrupt), events);
  }

  // ---------------------------------------------------------------- does a read wait?

  /** Every run that finishes the read started here contains an interrupt. */
  ghost predicate Waits(s: State) {
    forall events :: |Run(s, events).released| > |s.released| ==> Run(s, events).interrupts > s.interrupts
  }

  lemma {:induction false} NoInterruptNoRelease(s: State, events: seq<Event>)
    requires s.pc.Outside? || s.pc.Polling?
    requires !s.syncFlag && Interrupt !in events
    ensures Run(s, events).released == s.released
    decreases |events|
  {
    if events != [] {
      assert events[0] == Reader;
      NoInterruptNoRelease(Step(s, Reader), events[1..]);
    }
  }

  lemma {:induction false} InterruptsCount(s: State, events: seq<Event>)
    ensures Run(s, events).interrupts >= s.interrupts
    ensures Interrupt in events ==> Run(s, events).interrupts > s.interrupts
    decreases |events|
  {
    if events != [] {
      InterruptsCount(Step(s, events[0]), events[1..]);
    }
  }

  /** A read waits for an interrupt exactly when the sync flag is clear as it starts. */
  lemma ReadWaitsIff(s: State)
    requires s.pc == Outside
    ensures Waits(s) <==> !s.syncFlag
  {
    if s.syncFlag {
      var go := [Reader, Reader, Reader, Reader];
      FourSteps(s);
      assert |Run(s, go).released| > |s.released| && Run(s, go).interrupts == s.interrupts;
    } else {
      forall events | |Run(s, events).released| > |s.released|
        ensures Run(s, events).interrupts > s.interrupts
      {
        InterruptsCount(s, events);
        if Interrupt !in events {
          NoInterruptNoRelease(s, events);
        }
      }
    }
  }

  lemma FourSteps(s: State)
    requires s.pc == Outside && s.syncFlag
    ensures
      var r := Run(s, [Reader, Reader, Reader, Reader]);
      r.interrupts == s.interrupts && |r.released| == |s.released| + 1
  {
    RunOne(s, [Reader, Reader, Reader]);
    var a := ReaderStep(s);
    RunOne(a, [Reader, Reader]);
    var b := ReaderStep(a);
    RunOne(b, [Reader]);
    RunOne(ReaderStep(b), []);
  }

  lemma RunOne(s: State, rest: seq<Event>)
    ensures Run(s, [Reader] + rest) == Run(ReaderStep(s), rest)
  {
    assert ([Reader] + rest)[1..] == rest;
  }

  lemma {:induction false} RunSnoc(s: State, events: seq<Event>, e: Event)
    ensures Run(s, events + [e]) == Step(Run(s, events), e)
    decreases |events|
  {
    if events == [] {
      assert events + [e] == [e] && [e][1..] == [];
    } else {
      assert (events + [e])[1..] == events[1..] + [e];
      RunSnoc(Step(s, events[0]), events[1..], e);
    }
  }

  /** Event j is the last statement of a read, the event before it an interrupt, and the reader does nothing later. */
  ghost predicate LateInterrupt(events: seq<Event>, j: nat) {
    && 1 <= j < |events| && events[j] == Reader && events[j - 1] == Interrupt
    && Run(START, events[..j - 1]).pc == ClearRead
    && forall k :: j < k < |events| ==> events[k] == Interrupt
  }

  lemma LateNext(events: seq<Event>, j: nat)
    requires LateInterrupt(events, j)
    ensures LateInterrupt(events + [Interrupt], j)
  {
    assert (events + [Interrupt])[..j - 1] == events[..j - 1];
  }

  /** Outside a read the sync flag is set exactly when an interrupt came between the last two statements of the read
      before; interrupts outside reads leave it alone. */
  lemma {:induction false} LeftoverIff(events: seq<Event>)
    ensures
      var s := Run(START, events);
      s.pc == Outside && s.syncFlag <==> exists j: nat :: LateInterrupt(events, j)
    decreases |events|
  {
    if events != [] {
      var n := |events| - 1;
      var front, e := events[..n], events[n];
      assert front + [e] == events;
      RunSnoc(START, front, e);
      RunKeepsInv(START, front);
      if e == Interrupt {
        LeftoverIff(front);
        InterruptKeepsLeftover(front, events);
      } else {
        ReaderLeaves(front, events);
      }
    }
  }

  lemma InterruptKeepsLeftover(front: seq<Event>, events: seq<Event>)
    requires events == front + [Interrupt]
    ensures (exists j: nat :: LateInterrupt(events, j)) <==> exists j: nat :: LateInterrupt(front, j)
  {
    if j: nat :| LateInterrupt(front, j) {
      LateNext(front, j);
    }
    if j: nat :| LateInterrupt(events, j) {
      assert events[..j - 1] == front[..j - 1] && forall k :: 0 <= k < |front| ==> front[k] == events[k];
      assert LateInterrupt(front, j);
    }
  }

  /** The reader's last statement leaves the flag set exactly when it comes right after an interrupt. */
  lemma ReaderLeaves(front: seq<Event>, events: seq<Event>)
    requires events == front + [Reader] && Inv(Run(START, front))
    ensures
      var s := Step(Run(START, front), Reader);
      s.pc == Outside && s.syncFlag <==> exists j: nat :: LateInterrupt(events, j)
  {
    var n := |front|;
    if j: nat :| LateInterrupt(events, j) {
      assert events[n] == Reader;
    }
    if n > 0 {
      var before, e := front[..n - 1], front[n - 1];
      assert before + [e] == front && events[..n - 1] == before;
      RunSnoc(START, before, e);
      RunKeepsInv(START, before);
      assert Run(START, before).pc == ClearRead && e == Interrupt ==> LateInterrupt(events, n);
    }
  }

  /** A left-over sync flag can be reached: an interrupt between the reader's two last statements leaves it. */
  lemma LeftoverReachable()
    ensures exists events :: Run(START, events).pc == Outside && Run(START, events).syncFlag
  {
    var events := [Reader, Interrupt, Reader, Reader, Interrupt, Reader];
    var s1 := Step(START, Reader);
    var s2 := Step(s1, Interrupt);
    var s3 := Step(s2, Reader);
    var s4 := Step(s3, Reader);
    var s5 := Step(s4, Interrupt);
    assert events[1..] == [Interrupt, Reader, Reader, Interrupt, Reader];
    assert events[1..][1..] == [Reader, Reader, Interrupt, Reader];
    assert events[1..][1..][1..] == [Reader, Interrupt, Reader];
    assert Run(START, events) == Run(s3, [Reader, Interrupt, Reader]);
    assert [Reader, Interrupt, Reader][1..] == [Interrupt, Reader];
    assert [Interrupt, Reader][1..] == [Reader];
    assert Run(s3, [Reader, Interrupt, Reader]) == Run(s5, [Reader]);
    RunOne(s5, []);
  }
}
