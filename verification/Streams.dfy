/** What one process reads through one descriptor over a whole run, whatever it and everyone else do in between. */
module Streams {
  import opened Common
  import opened FileSystem
  import opened Descriptors
  import opened Commands
  import opened Processes

  /** The process at height i of terminal t's stack is the one that acts. */
  ghost predicate Acts(w: World, t: nat, i: nat)
    requires Shape(w) && t < TERMINALS
  {
    w.cur == t && |w.stacks[t]| == i + 1
  }

  /** The process neither ends nor closes descriptor k by this step. */
  ghost predicate StepHolds(w: World, step: Step, t: nat, i: nat, k: nat)
    requires Shape(w) && t < TERMINALS
  {
    Acts(w, t, i) ==> !step.Halt? && step != Close(k)
  }

  /** ... nor by any step of the run. */
  ghost predicate Holds(img: Image, w: World, steps: seq<Step>, t: nat, i: nat, k: nat)
    requires ValidImage(img) && WellFormed(img, w) && Feasible(img, w, steps) && t < TERMINALS
    decreases steps
  {
    steps == [] ||
    (StepHolds(w, steps[0], t, i, k) &&
     (NextKeeps(img, w, steps[0]); Holds(img, Next(img, w, steps[0]), steps[1..], t, i, k)))
  }

  ghost predicate ReadsThrough(w: World, step: Step, t: nat, i: nat, k: nat)
    requires Shape(w) && t < TERMINALS
  {
    Acts(w, t, i) && step.Read? && step.fd == k
  }

  /** The bytes the process receives through descriptor k, joined in order. */
  ghost function Received(img: Image, w: World, steps: seq<Step>, t: nat, i: nat, k: nat): seq<byte>
    requires ValidImage(img) && WellFormed(img, w) && Feasible(img, w, steps) && t < TERMINALS && k < FD_COUNT
    decreases steps
  {
    if steps == [] then []
    else
      NextKeeps(img, w, steps[0]);
      (if ReadsThrough(w, steps[0], t, i, k)
       then TableAt(img, w, t, i); BytesOf(ReadOutcome(img, k, w.stacks[t][i].fds[k], steps[0].n))
       else [])
      + Received(img, Next(img, w, steps[0]), steps[1..], t, i, k)
  }

  /** How many bytes it asks for. */
  ghost function Asked(img: Image, w: World, steps: seq<Step>, t: nat, i: nat, k: nat): nat
    requires ValidImage(img) && WellFormed(img, w) && Feasible(img, w, steps) && t < TERMINALS
    decreases steps
  {
    if steps == [] then 0
    else
      NextKeeps(img, w, steps[0]);
      (if ReadsThrough(w, steps[0], t, i, k) then steps[0].n else 0)
      + Asked(img, Next(img, w, steps[0]), steps[1..], t, i, k)
  }

  lemma TableAt(img: Image, w: World, t: nat, i: nat)
    requires WellFormed(img, w) && t < TERMINALS && i < |w.stacks[t]|
    ensures FdsOk(img, w.stacks[t][i].fds)
  {
    assert StackOk(img, w.stacks[t]);
  }

  /** Descriptor k of the process at height i of terminal t. */
  ghost function DescAt(img: Image, w: World, t: nat, i: nat, k: nat): Desc
    requires WellFormed(img, w) && t < TERMINALS && i < |w.stacks[t]| && k < FD_COUNT
  {
    TableAt(img, w, t, i);
    w.stacks[t][i].fds[k]
  }

  /** Descriptor k of that process is in use. */
  ghost predicate IsOpen(img: Image, w: World, t: nat, i: nat, k: nat)
    requires WellFormed(img, w)
  {
    t < TERMINALS && i < |w.stacks[t]| && FD_MIN <= k < FD_COUNT && DescAt(img, w, t, i, k).ops != NoOps
  }

  ghost predicate OnFile(img: Image, w: World, t: nat, i: nat, k: nat)
    requires WellFormed(img, w)
  {
    && t < TERMINALS && i < |w.stacks[t]| && FD_MIN <= k < FD_COUNT
    && IsFile(img, DescAt(img, w, t, i, k)) && ConsecutiveFile(FileOf(img, DescAt(img, w, t, i, k)))
  }

  lemma BelowAt(w: World, v: World, t: nat, d: nat, i: nat)
    requires Shape(w) && Shape(v) && t < TERMINALS && SameBelow(w, v, t, d) && i < d
    ensures i < |w.stacks[t]| && i < |v.stacks[t]| && v.stacks[t][i] == w.stacks[t][i]
  {
    assert w.stacks[t][i] == w.stacks[t][..d][i] && v.stacks[t][i] == v.stacks[t][..d][i];
  }

  /** A step of somebody else leaves the process alone. */
  lemma OthersLeaveIt(img: Image, w: World, step: Step, t: nat, i: nat)
    requires ValidImage(img) && WellFormed(img, w) && Enabled(w, step) && t < TERMINALS && i < |w.stacks[t]|
    requires !Acts(w, t, i)
    ensures i < |Next(img, w, step).stacks[t]| && Next(img, w, step).stacks[t][i] == w.stacks[t][i]
  {
    hide StackOk, SlotsOf, Executable, Parse, Overruns, FreeSlot, OpenFds, CloseFds, ReadFds, SameBelow;
    if i + 1 < |w.stacks[t]| {
      NextKeepsBelow(img, w, step, t, i + 1);
      BelowAt(w, Next(img, w, step), t, i + 1, i);
    }
  }

  /** One step moves the descriptor by what the process reads through it, and not otherwise. */
  lemma StepMoves(img: Image, w: World, step: Step, v: World, t: nat, i: nat, k: nat)
    requires ValidImage(img) && WellFormed(img, w) && Enabled(w, step) && IsOpen(img, w, t, i, k)
    requires StepHolds(w, step, t, i, k) && v == Next(img, w, step) && WellFormed(img, v)
    ensures i < |v.stacks[t]|
    ensures
      var d := DescAt(img, w, t, i, k);
      DescAt(img, v, t, i, k) == if ReadsThrough(w, step, t, i, k) then AfterRead(img, d, step.n) else d
  {
    hide StackOk, SlotsOf, ConsecutiveFile, Executable, Parse, Overruns, FreeSlot;
    if Acts(w, t, i) {
      TopTable(img, w);
    } else {
      OthersLeaveIt(img, w, step, t, i);
    }
  }

  /** A process that has a consecutive file open, and neither ends nor closes the descriptor, receives through it
      exactly the file's next bytes, as many as it asks for or the file still has: whatever else it opens, closes,
      reads or starts, and whatever runs on top of it or on the other terminals. */
  lemma {:induction false} RunReads(img: Image, w: World, steps: seq<Step>, t: nat, i: nat, k: nat)
    requires ValidImage(img) && WellFormed(img, w) && Feasible(img, w, steps) && OnFile(img, w, t, i, k)
    requires Holds(img, w, steps, t, i, k)
    ensures
      var d, n, r := DescAt(img, w, t, i, k), Asked(img, w, steps, t, i, k), Run(img, w, steps);
      && Received(img, w, steps, t, i, k)
         == Contents(img.data, FileOf(img, d))[d.position..EndAfter(img, d, n)]
      && i < |r.stacks[t]| && DescAt(img, r, t, i, k) == d.(position := EndAfter(img, d, n))
    decreases steps
  {
    hide StackOk, SlotsOf, ConsecutiveFile, Next, Enabled, Contents, AfterRead, Chunk, ReadOutcome;
    if steps != [] {
      var step := steps[0];
      TableAt(img, w, t, i);
      ReadOutcomes(img, w.stacks[t][i].fds, k, if step.Read? then step.n else 0);
      NextKeeps(img, w, step);
      var v, d := Next(img, w, step), DescAt(img, w, t, i, k);
      StepMoves(img, w, step, v, t, i, k);
      OneRead(img, d, if step.Read? then step.n else 0);
      RunReads(img, v, steps[1..], t, i, k);
      if ReadsThrough(w, step, t, i, k) {
        JoinChunks(img, d, step.n, Asked(img, v, steps[1..], t, i, k));
      }
    }
  }

  // ---------------------------------------------------------------- opening and reading

  /** The running process opens a name: where that puts the found entry. */
  lemma OpenStep(img: Image, w: World, name: seq<byte>, v: World)
    requires ValidImage(img) && WellFormed(img, w) && Busy(w) && Lookup(img.entries, name).Some?
    requires FirstFree(Top(w).fds, FD_MIN) < FD_COUNT && v == Next(img, w, Open(name)) && WellFormed(img, v)
    ensures
      var i, k := |w.stacks[w.cur]| - 1, FirstFree(Top(w).fds, FD_MIN);
      i < |v.stacks[w.cur]| && OpenedOn(img, Lookup(img.entries, name).value, DescAt(img, v, w.cur, i, k))
  {
    hide StackOk, SlotsOf, Executable, Parse, Overruns, OpenFds, OpenedOn;
    TopTable(img, w);
    OpenOpens(img, Top(w).fds, name);
  }

  /** A process that opens a regular file with consecutive blocks, and then neither ends nor closes the descriptor,
      receives the file's prefix through it, over every run. */
  lemma OpenThenRead(img: Image, w: World, name: seq<byte>, e: Dentry, v: World, steps: seq<Step>)
    requires ValidImage(img) && WellFormed(img, w) && Busy(w) && Lookup(img.entries, name) == Some(e)
    requires e.ftype == 2 && e.inode < |img.inodes| && ConsecutiveFile(img.inodes[e.inode])
    requires FirstFree(Top(w).fds, FD_MIN) < FD_COUNT && v == Next(img, w, Open(name)) && WellFormed(img, v)
    requires Feasible(img, v, steps)
    requires Holds(img, v, steps, w.cur, |w.stacks[w.cur]| - 1, FirstFree(Top(w).fds, FD_MIN))
    ensures
      var t, i, k := w.cur, |w.stacks[w.cur]| - 1, FirstFree(Top(w).fds, FD_MIN);
      Received(img, v, steps, t, i, k)
      == Contents(img.data, img.inodes[e.inode])[..Min(Asked(img, v, steps, t, i, k), img.inodes[e.inode].length)]
  {
    hide Next, StackOk, SlotsOf, ConsecutiveFile, Contents, Received, Asked, Feasible, Run, Holds;
    TopTable(img, w);
    OpenStep(img, w, name, v);
    RunReads(img, v, steps, w.cur, |w.stacks[w.cur]| - 1, FirstFree(Top(w).fds, FD_MIN));
  }

  // ---------------------------------------------------------------- listing a directory

  /** What the process's reads through descriptor k deliver, in order. */
  ghost function Results(img: Image, w: World, steps: seq<Step>, t: nat, i: nat, k: nat): seq<ReadResult>
    requires ValidImage(img) && WellFormed(img, w) && Feasible(img, w, steps) && t < TERMINALS && k < FD_COUNT
    decreases steps
  {
    if steps == [] then []
    else
      NextKeeps(img, w, steps[0]);
      (if ReadsThrough(w, steps[0], t, i, k)
       then TableAt(img, w, t, i); [ReadOutcome(img, k, w.stacks[t][i].fds[k], steps[0].n)]
       else [])
      + Results(img, Next(img, w, steps[0]), steps[1..], t, i, k)
  }

  /** How many reads those are. */
  ghost function ReadCount(img: Image, w: World, steps: seq<Step>, t: nat, i: nat, k: nat): nat
    requires ValidImage(img) && WellFormed(img, w) && Feasible(img, w, steps) && t < TERMINALS
    decreases steps
  {
    if steps == [] then 0
    else
      NextKeeps(img, w, steps[0]);
      (if ReadsThrough(w, steps[0], t, i, k) then 1 else 0)
      + ReadCount(img, Next(img, w, steps[0]), steps[1..], t, i, k)
  }

  ghost predicate OnDirectory(img: Image, w: World, t: nat, i: nat, k: nat)
    requires WellFormed(img, w)
  {
    t < TERMINALS && i < |w.stacks[t]| && FD_MIN <= k < FD_COUNT && IsDirectory(img, DescAt(img, w, t, i, k))
  }

  /** A process that has the directory open, and neither ends nor closes the descriptor, gets the names one by one and
      then the end for ever, whatever it and all others do in between. */
  lemma {:induction false} RunLists(
    img: Image, w: World, steps: seq<Step>, texts: seq<seq<byte>>, t: nat, i: nat, k: nat)
    requires ValidImage(img) && WellFormed(img, w) && Feasible(img, w, steps) && OnDirectory(img, w, t, i, k)
    requires Holds(img, w, steps, t, i, k) && ShortTitled(img.entries, texts)
    ensures Results(img, w, steps, t, i, k)
         == ListingFrom(texts, DescAt(img, w, t, i, k).position, ReadCount(img, w, steps, t, i, k))
    decreases steps
  {
    hide StackOk, SlotsOf, Next, Enabled, AfterRead, ReadOutcome, ListingFrom, ShortTitled;
    if steps != [] {
      var step := steps[0];
      NextKeeps(img, w, step);
      var v, d := Next(img, w, step), DescAt(img, w, t, i, k);
      StepMoves(img, w, step, v, t, i, k);
      OneEntry(img, d, k, if step.Read? then step.n else 0, texts, ReadCount(img, v, steps[1..], t, i, k));
      RunLists(img, v, steps[1..], texts, t, i, k);
    } else {
      assert ListingFrom(texts, DescAt(img, w, t, i, k).position, 0) == [];
    }
  }

  /** A process that opens a directory lists it from the first name on. */
  lemma OpenThenList(
    img: Image, w: World, name: seq<byte>, e: Dentry, v: World, steps: seq<Step>, texts: seq<seq<byte>>)
    requires ValidImage(img) && WellFormed(img, w) && Busy(w) && Lookup(img.entries, name) == Some(e)
    requires e.ftype == 1 && ShortTitled(img.entries, texts)
    requires FirstFree(Top(w).fds, FD_MIN) < FD_COUNT && v == Next(img, w, Open(name)) && WellFormed(img, v)
    requires Feasible(img, v, steps)
    requires Holds(img, v, steps, w.cur, |w.stacks[w.cur]| - 1, FirstFree(Top(w).fds, FD_MIN))
    ensures
      var t, i, k := w.cur, |w.stacks[w.cur]| - 1, FirstFree(Top(w).fds, FD_MIN);
      Results(img, v, steps, t, i, k) == ListingFrom(texts, 0, ReadCount(img, v, steps, t, i, k))
  {
    hide Next, StackOk, SlotsOf, Results, ReadCount, Feasible, Holds, ListingFrom, ShortTitled;
    TopTable(img, w);
    OpenStep(img, w, name, v);
    RunLists(img, v, steps, texts, w.cur, |w.stacks[w.cur]| - 1, FirstFree(Top(w).fds, FD_MIN));
  }
}
