/** The abstract process world: one stack of processes per terminal, and what every system call does to it.
    Nothing here knows about process table slots' contents, counters or parent links. */
module Processes {
  import opened Common
  import opened FileSystem
  import opened Descriptors
  import opened Commands

  const MAX_PROCESSES: nat := 7

  datatype Proc = Proc(slot: nat, name: seq<byte>, args: seq<byte>, fds: seq<Desc>, vid: bool)

  /** Stacks grow to the right: the last process of a stack is the one that runs. */
  datatype World = World(stacks: seq<seq<Proc>>, cur: nat)

  const EMPTY_WORLD := World([[], [], []], 0)

  ghost predicate Shape(w: World) {
    |w.stacks| == TERMINALS && w.cur < TERMINALS
  }

  /** The slots a stack occupies. */
  ghost function SlotsOf(st: seq<Proc>): set<nat> {
    set i | 0 <= i < |st| :: st[i].slot
  }

  /** A stack on its own: its processes sit in distinct slots of the table and have sound descriptor tables. */
  ghost predicate StackOk(img: Image, st: seq<Proc>) {
    && (forall i :: 0 <= i < |st| ==> 1 <= st[i].slot < MAX_PROCESSES && FdsOk(img, st[i].fds))
    && (forall i, j :: 0 <= i < j < |st| ==> st[i].slot != st[j].slot)
  }

  ghost predicate WellFormed(img: Image, w: World) {
    && Shape(w)
    && (forall t :: 0 <= t < TERMINALS ==> StackOk(img, w.stacks[t]))
    && (forall t, u :: 0 <= t < u < TERMINALS ==> SlotsOf(w.stacks[t]) !! SlotsOf(w.stacks[u]))
  }

  /** The slots in use. */
  ghost function Live(w: World): set<nat>
    requires Shape(w)
  {
    SlotsOf(w.stacks[0]) + SlotsOf(w.stacks[1]) + SlotsOf(w.stacks[2])
  }

  function Total(w: World): nat
    requires |w.stacks| == TERMINALS
  {
    |w.stacks[0]| + |w.stacks[1]| + |w.stacks[2]|
  }

  lemma EmptyWellFormed(img: Image)
    ensures WellFormed(img, EMPTY_WORLD)
  {
  }

  lemma SameLive(w: World, t: nat)
    requires Shape(w) && t < TERMINALS
    ensures Live(w.(cur := t)) == Live(w)
  {
  }

  // ---------------------------------------------------------------- operations

  ghost function Push(w: World, p: Proc): (r: World)
    requires Shape(w)
    ensures Shape(r)
  {
    w.(stacks := w.stacks[w.cur := w.stacks[w.cur] + [p]])
  }

  ghost predicate Busy(w: World) {
    Shape(w) && w.stacks[w.cur] != []
  }

  ghost function Top(w: World): Proc
    requires Busy(w)
  {
    w.stacks[w.cur][|w.stacks[w.cur]| - 1]
  }

  ghost function Pop(w: World): (r: World)
    requires Busy(w)
    ensures Shape(r)
  {
    w.(stacks := w.stacks[w.cur := w.stacks[w.cur][..|w.stacks[w.cur]| - 1]])
  }

  ghost function SetTop(w: World, p: Proc): (r: World)
    requires Busy(w)
    ensures Shape(r) && Busy(r) && Top(r) == p
  {
    w.(stacks := w.stacks[w.cur := w.stacks[w.cur][|w.stacks[w.cur]| - 1 := p]])
  }

  /** The first slot from s on that is not in use. */
  ghost function FreeFrom(live: set<nat>, s: nat): (r: nat)
    requires s <= MAX_PROCESSES
    ensures s <= r <= MAX_PROCESSES
    ensures r < MAX_PROCESSES ==> r !in live
    ensures forall k :: s <= k < r ==> k in live
    decreases MAX_PROCESSES - s
  {
    if s == MAX_PROCESSES || s !in live then s else FreeFrom(live, s + 1)
  }

  ghost function FreeSlot(w: World): nat
    requires Shape(w)
  {
    FreeFrom(Live(w), 1)
  }

  ghost function Launch(w: World, c: Command): (r: World)
    requires Shape(w)
    ensures Shape(r)
  {
    if Total(w) + 1 >= MAX_PROCESSES then w
    else Push(w, Proc(FreeSlot(w), c.name, c.args, FRESH_FDS, false))
  }

  const SHELL_COMMAND := Command(SHELL, [])

  datatype Step =
    | Execute(command: Option<seq<byte>>, garbage: seq<byte>)
    | Halt
    | Switch(terminal: nat)
    | Open(name: seq<byte>)
    | Close(fd: nat)
    | Read(fd: nat, n: nat)
    | Vidmap

  /** The command an execute would start, when it is one that can be started. */
  ghost function Accepted(img: Image, command: Option<seq<byte>>, garbage: seq<byte>): Option<Command>
    requires ValidImage(img) && |garbage| == HEADER_SIZE
  {
    var c := Parse(command);
    if c.Some? && Executable(img, c.value.name, garbage) then c else None
  }

  /** Asking for a shell is always accepted. */
  lemma ShellAccepted(img: Image, garbage: seq<byte>)
    requires ShellLoadable(img) && |garbage| == HEADER_SIZE
    ensures Accepted(img, Some(SHELL), garbage) == Some(SHELL_COMMAND) && !Overruns(Some(SHELL))
  {
    ParseShell();
  }

  ghost predicate Fits(w: World, command: Option<seq<byte>>)
    requires |w.stacks| == TERMINALS
  {
    Total(w) + 1 < MAX_PROCESSES ==> !Overruns(command)
  }

  /** Steps a run may take: with no process on the current terminal, only a switch, the start of a shell,
      or an execute that finds the process table full. A command line that gets as far as being copied must not overrun
      the new process's record. */
  ghost predicate Enabled(w: World, step: Step) {
    && Shape(w)
    && (step.Execute? ==> |step.garbage| == HEADER_SIZE && Fits(w, step.command))
    && (step.Switch? ==> step.terminal < TERMINALS)
    && (step.Close? || step.Read? ==> step.fd < FD_COUNT)
    && (Busy(w) || step.Switch? || (step.Execute? && (step.command == Some(SHELL) || Total(w) + 1 >= MAX_PROCESSES)))
  }

  /** The top process ends; the last one of a terminal is replaced by a new shell. */
  ghost function AfterHalt(w: World): (r: World)
    requires Busy(w)
    ensures Shape(r)
  {
    if |w.stacks[w.cur]| == 1 then Launch(Pop(w), SHELL_COMMAND) else Pop(w)
  }

  /** Another terminal comes forward; an empty one gets a shell if there is room. */
  ghost function AfterSwitch(w: World, t: nat): (r: World)
    requires Shape(w) && t < TERMINALS
    ensures Shape(r)
  {
    var v := w.(cur := t);
    if t != w.cur && v.stacks[t] == [] then Launch(v, SHELL_COMMAND) else v
  }

  ghost function Next(img: Image, w: World, step: Step): (r: World)
    requires ValidImage(img) && WellFormed(img, w) && Enabled(w, step)
    ensures Shape(r)
  {
    match step
    case Execute(command, garbage) =>
      var c := Accepted(img, command, garbage);
      if c.Some? then Launch(w, c.value) else w
    case Halt => AfterHalt(w)
    case Switch(t) => AfterSwitch(w, t)
    case Open(name) => SetTop(w, Top(w).(fds := OpenFds(img, Top(w).fds, name)))
    case Close(fd) => SetTop(w, Top(w).(fds := CloseFds(Top(w).fds, fd)))
    case Read(fd, n) => SetTop(w, Top(w).(fds := ReadFds(img, Top(w).fds, fd, n)))
    case Vidmap => SetTop(w, Top(w).(vid := true))
  }

  // ---------------------------------------------------------------- counting slots

  lemma SlotsPush(st: seq<Proc>, p: Proc)
    ensures SlotsOf(st + [p]) == SlotsOf(st) + {p.slot}
  {
    var r := st + [p];
    assert forall i :: 0 <= i < |st| ==> r[i] == st[i];
    assert r[|st|] == p;
    forall s | s in SlotsOf(st)
      ensures s in SlotsOf(r)
    {
      var i :| 0 <= i < |st| && st[i].slot == s;
      assert r[i].slot == s;
    }
  }

  lemma SlotsPop(img: Image, st: seq<Proc>)
    requires st != [] && StackOk(img, st)
    ensures SlotsOf(st[..|st| - 1]) == SlotsOf(st) - {st[|st| - 1].slot}
    ensures st[|st| - 1].slot in SlotsOf(st)
    ensures StackOk(img, st[..|st| - 1])
  {
    SlotsPush(st[..|st| - 1], st[|st| - 1]);
    assert st[..|st| - 1] + [st[|st| - 1]] == st;
  }

  lemma SlotsSetTop(st: seq<Proc>, p: Proc)
    requires st != [] && p.slot == st[|st| - 1].slot
    ensures SlotsOf(st[|st| - 1 := p]) == SlotsOf(st)
  {
    var r := st[|st| - 1 := p];
    assert forall i :: 0 <= i < |st| ==> r[i].slot == st[i].slot;
    forall s | s in SlotsOf(st)
      ensures s in SlotsOf(r)
    {
      var i :| 0 <= i < |st| && st[i].slot == s;
      assert r[i].slot == s;
    }
  }

  lemma LivePush(w: World, p: Proc)
    requires Shape(w)
    ensures Live(Push(w, p)) == Live(w) + {p.slot}
  {
    SlotsPush(w.stacks[w.cur], p);
  }

  lemma LivePop(img: Image, w: World)
    requires Busy(w) && WellFormed(img, w)
    ensures Live(Pop(w)) == Live(w) - {Top(w).slot}
    ensures Top(w).slot in Live(w)
  {
    SlotsPop(img, w.stacks[w.cur]);
  }

  lemma LiveSetTop(w: World, p: Proc)
    requires Busy(w) && p.slot == Top(w).slot
    ensures Live(SetTop(w, p)) == Live(w)
  {
    SlotsSetTop(w.stacks[w.cur], p);
  }

  /** A stack holds as many processes as slots. */
  lemma {:induction false} SlotCount(img: Image, st: seq<Proc>)
    requires StackOk(img, st)
    ensures |SlotsOf(st)| == |st|
  {
    if st != [] {
      SlotsPop(img, st);
      SlotCount(img, st[..|st| - 1]);
    }
  }

  lemma SlotsBounded(live: set<nat>)
    requires forall s <- live :: 1 <= s < MAX_PROCESSES
    ensures |live| <= MAX_PROCESSES - 1
    ensures |live| < MAX_PROCESSES - 1 ==> FreeFrom(live, 1) < MAX_PROCESSES
  {
    var all: set<nat> := {1, 2, 3, 4, 5, 6};
    assert |all| == 6;
    assert live <= all;
    assert |all| == |live| + |all - live|;
    if FreeFrom(live, 1) == MAX_PROCESSES {
      assert all - live == {};
    }
  }

  lemma LiveCount(img: Image, w: World)
    requires WellFormed(img, w)
    ensures |Live(w)| == Total(w)
    ensures forall s <- Live(w) :: 1 <= s < MAX_PROCESSES
  {
    SlotCount(img, w.stacks[0]);
    SlotCount(img, w.stacks[1]);
    SlotCount(img, w.stacks[2]);
  }

  /** Pigeonhole: the table never overflows, and while a process may still start there is a slot for it. */
  lemma SlotAvailable(img: Image, w: World)
    requires WellFormed(img, w)
    ensures Total(w) < MAX_PROCESSES
    ensures Total(w) + 1 < MAX_PROCESSES ==> 1 <= FreeSlot(w) < MAX_PROCESSES && FreeSlot(w) !in Live(w)
  {
    LiveCount(img, w);
    SlotsBounded(Live(w));
  }

  // ---------------------------------------------------------------- every step keeps the world well formed

  lemma StackPush(img: Image, st: seq<Proc>, p: Proc)
    requires StackOk(img, st) && p.slot !in SlotsOf(st) && 1 <= p.slot < MAX_PROCESSES && FdsOk(img, p.fds)
    ensures StackOk(img, st + [p])
  {
    assert forall i :: 0 <= i < |st| ==> st[i].slot in SlotsOf(st);
  }

  lemma PushKeeps(img: Image, w: World, p: Proc)
    requires WellFormed(img, w) && p.slot !in Live(w) && 1 <= p.slot < MAX_PROCESSES && FdsOk(img, p.fds)
    ensures WellFormed(img, Push(w, p))
  {
    SlotsPush(w.stacks[w.cur], p);
    StackPush(img, w.stacks[w.cur], p);
  }

  lemma PopKeeps(img: Image, w: World)
    requires WellFormed(img, w) && Busy(w)
    ensures WellFormed(img, Pop(w))
  {
    SlotsPop(img, w.stacks[w.cur]);
  }

  lemma SetTopKeeps(img: Image, w: World, p: Proc)
    requires WellFormed(img, w) && Busy(w) && p.slot == Top(w).slot && FdsOk(img, p.fds)
    ensures WellFormed(img, SetTop(w, p))
  {
    SlotsSetTop(w.stacks[w.cur], p);
  }

  lemma LaunchKeeps(img: Image, w: World, c: Command)
    requires WellFormed(img, w)
    ensures WellFormed(img, Launch(w, c))
  {
    SlotAvailable(img, w);
    if Total(w) + 1 < MAX_PROCESSES {
      PushKeeps(img, w, Proc(FreeSlot(w), c.name, c.args, FRESH_FDS, false));
    }
  }

  lemma TopTable(img: Image, w: World)
    requires WellFormed(img, w) && Busy(w)
    ensures FdsOk(img, Top(w).fds)
  {
    assert StackOk(img, w.stacks[w.cur]);
  }

  lemma NextKeeps(img: Image, w: World, step: Step)
    requires ValidImage(img) && WellFormed(img, w) && Enabled(w, step)
    ensures WellFormed(img, Next(img, w, step))
  {
    match step
    case Execute(command, garbage) =>
      var c := Accepted(img, command, garbage);
      if c.Some? { LaunchKeeps(img, w, c.value); }
    case Halt =>
      PopKeeps(img, w);
      LaunchKeeps(img, Pop(w), SHELL_COMMAND);
    case Switch(t) =>
      LaunchKeeps(img, w.(cur := t), SHELL_COMMAND);
    case Open(name) =>
      OpenKeepsFdsOk(img, Top(w).fds, name);
      SetTopKeeps(img, w, Top(w).(fds := OpenFds(img, Top(w).fds, name)));
    case Close(fd) =>
      SetTopKeeps(img, w, Top(w).(fds := CloseFds(Top(w).fds, fd)));
    case Read(fd, n) =>
      ReadKeepsFdsOk(img, Top(w).fds, fd, n);
      SetTopKeeps(img, w, Top(w).(fds := ReadFds(img, Top(w).fds, fd, n)));
    case Vidmap =>
      SetTopKeeps(img, w, Top(w).(vid := true));
  }

  // ---------------------------------------------------------------- whole runs

  /** Every step of the run is enabled where it is taken. */
  ghost predicate Feasible(img: Image, w: World, steps: seq<Step>)
    requires ValidImage(img) && WellFormed(img, w)
    decreases steps
  {
    steps == [] ||
    (Enabled(w, steps[0]) && (NextKeeps(img, w, steps[0]); Feasible(img, Next(img, w, steps[0]), steps[1..])))
  }

  ghost function Run(img: Image, w: World, steps: seq<Step>): (r: World)
    requires ValidImage(img) && WellFormed(img, w) && Feasible(img, w, steps)
    ensures WellFormed(img, r)
    decreases steps
  {
    if steps == [] then w
    else NextKeeps(img, w, steps[0]); Run(img, Next(img, w, steps[0]), steps[1..])
  }

  /** The bottom process of every stack is a shell. */
  ghost predicate Rooted(w: World) {
    forall t :: 0 <= t < |w.stacks| && w.stacks[t] != [] ==> w.stacks[t][0].name == SHELL
  }

  lemma LaunchRooted(w: World, c: Command)
    requires Shape(w) && Rooted(w) && (Busy(w) || c.name == SHELL || Total(w) + 1 >= MAX_PROCESSES)
    ensures Rooted(Launch(w, c))
    ensures forall t :: 0 <= t < TERMINALS && w.stacks[t] != [] ==> Launch(w, c).stacks[t] != []
    ensures Total(w) + 1 < MAX_PROCESSES ==> Launch(w, c).stacks[w.cur] != []
  {
  }

  lemma SetTopRooted(w: World, p: Proc)
    requires Busy(w) && Rooted(w) && p.name == Top(w).name
    ensures Rooted(SetTop(w, p))
    ensures forall t :: 0 <= t < TERMINALS && w.stacks[t] != [] ==> SetTop(w, p).stacks[t] != []
  {
  }

  lemma NextRooted(img: Image, w: World, step: Step)
    requires ValidImage(img) && WellFormed(img, w) && Enabled(w, step) && Rooted(w)
    ensures Rooted(Next(img, w, step))
    ensures forall t :: 0 <= t < TERMINALS && w.stacks[t] != [] ==> Next(img, w, step).stacks[t] != []
  {
    match step
    case Execute(command, garbage) =>
      ParseShell();
      var c := Accepted(img, command, garbage);
      if c.Some? { LaunchRooted(w, c.value); }
    case Halt =>
      SlotAvailable(img, w);
      LaunchRooted(Pop(w), SHELL_COMMAND);
    case Switch(t) => LaunchRooted(w.(cur := t), SHELL_COMMAND);
    case Open(name) => SetTopRooted(w, Top(w).(fds := OpenFds(img, Top(w).fds, name)));
    case Close(fd) => SetTopRooted(w, Top(w).(fds := CloseFds(Top(w).fds, fd)));
    case Read(fd, n) => SetTopRooted(w, Top(w).(fds := ReadFds(img, Top(w).fds, fd, n)));
    case Vidmap => SetTopRooted(w, Top(w).(vid := true));
  }

  /** Once a terminal has a process it has one for ever, and the bottom one is always a shell. */
  lemma {:induction false} RunRooted(img: Image, w: World, steps: seq<Step>)
    requires ValidImage(img) && WellFormed(img, w) && Feasible(img, w, steps) && Rooted(w)
    ensures Rooted(Run(img, w, steps))
    ensures forall t :: 0 <= t < TERMINALS && w.stacks[t] != [] ==> Run(img, w, steps).stacks[t] != []
    decreases steps
  {
    if steps != [] {
      NextKeeps(img, w, steps[0]);
      NextRooted(img, w, steps[0]);
      RunRooted(img, Next(img, w, steps[0]), steps[1..]);
    }
  }

  /** A halt that empties a terminal finds a slot for the shell it starts there. */
  lemma HaltRelaunches(img: Image, w: World)
    requires ValidImage(img) && WellFormed(img, w) && Busy(w) && |w.stacks[w.cur]| == 1
    ensures
      var s := FreeSlot(Pop(w));
      && 1 <= s < MAX_PROCESSES && s !in Live(w) - {Top(w).slot}
      && Next(img, w, Halt).stacks[w.cur] == [Proc(s, SHELL, [], FRESH_FDS, false)]
  {
    SlotAvailable(img, w);
    PopKeeps(img, w);
    LivePop(img, w);
    SlotAvailable(img, Pop(w));
  }

  /** Only a full table leaves the current terminal without a process. */
  ghost predicate IdleOnlyWhenFull(w: World)
    requires Shape(w)
  {
    w.stacks[w.cur] == [] ==> Total(w) == 0 || Total(w) + 1 >= MAX_PROCESSES
  }

  lemma NextIdle(img: Image, w: World, step: Step)
    requires ValidImage(img) && WellFormed(img, w) && Enabled(w, step) && IdleOnlyWhenFull(w)
    ensures IdleOnlyWhenFull(Next(img, w, step))
  {
    if step.Halt? {
      SlotAvailable(img, w);
    }
  }

  lemma {:induction false} RunIdle(img: Image, w: World, steps: seq<Step>)
    requires ValidImage(img) && WellFormed(img, w) && Feasible(img, w, steps) && IdleOnlyWhenFull(w)
    ensures IdleOnlyWhenFull(Run(img, w, steps))
    decreases steps
  {
    if steps != [] {
      NextKeeps(img, w, steps[0]);
      NextIdle(img, w, steps[0]);
      RunIdle(img, Next(img, w, steps[0]), steps[1..]);
    }
  }

  /** k shells on the first terminal, then a switch to the second. */
  ghost function FillThenSwitch(k: nat, garbage: seq<byte>): seq<Step> {
    seq(k, _ => Execute(Some(SHELL), garbage)) + [Switch(1)]
  }

  /** With six processes on the first terminal, the second one comes forward with no process at all. */
  lemma {:induction false} IdleTerminalReachable(img: Image, w: World, k: nat, garbage: seq<byte>)
    requires ShellLoadable(img) && WellFormed(img, w) && |garbage| == HEADER_SIZE
    requires w.cur == 0 && w.stacks[1] == [] == w.stacks[2] && |w.stacks[0]| + k == MAX_PROCESSES - 1
    ensures Feasible(img, w, FillThenSwitch(k, garbage))
    ensures
      var r := Run(img, w, FillThenSwitch(k, garbage));
      !Busy(r) && r.cur == 1 && Total(r) == MAX_PROCESSES - 1
    decreases k
  {
    hide StackOk, SlotsOf, Executable, Parse, FreeSlot, Overruns;
    var steps := FillThenSwitch(k, garbage);
    ShellAccepted(img, garbage);
    NextKeeps(img, w, steps[0]);
    if k > 0 {
      assert steps[1..] == FillThenSwitch(k - 1, garbage);
      IdleTerminalReachable(img, Next(img, w, steps[0]), k - 1, garbage);
    } else {
      assert steps[1..] == [];
    }
  }

  // ---------------------------------------------------------------- what each step does to the stacks

  /** An accepted command line pushes one process, with the line's word as its name and the rest as its arguments, the
      first two descriptors open, no video page, in a slot nobody uses; nothing else changes. */
  lemma ExecutePushes(img: Image, w: World, name: seq<byte>, spaces: nat, args: seq<byte>, garbage: seq<byte>)
    requires ValidImage(img) && WellFormed(img, w) && Busy(w) && |garbage| == HEADER_SIZE && Total(w) < 6
    requires name != [] && |name| < 128 && PlainWord(name) && 0 !in args && |args| <= 130
    requires args != [] ==> spaces > 0 && args[0] != SPACE
    requires Executable(img, name, garbage)
    ensures
      var step := Execute(Some(name + (seq(spaces, _ => SPACE) + args)), garbage);
      && Enabled(w, step)
      && exists s :: 1 <= s < 7 && s !in Live(w)
           && Next(img, w, step) == w.(stacks := w.stacks[w.cur := w.stacks[w.cur] + [Proc(s, name, args,
                [STDIN, STDOUT, CLOSED, CLOSED, CLOSED, CLOSED, CLOSED, CLOSED], false)]])
  {
    hide Executable;
    ParseInvertsJoin(name, spaces, args);
    SlotAvailable(img, w);
    var s := FreeSlot(w);
    assert 1 <= s < 7 && s !in Live(w);
  }

  /** No command, one that starts with a space and one that names no file are not accepted. */
  lemma NotAccepted(img: Image, command: Option<seq<byte>>, garbage: seq<byte>)
    requires ValidImage(img) && |garbage| == HEADER_SIZE
    requires command == None || CharAt(command.value, 0) == ' ' as int
          || Lookup(img.entries, Split(command.value).name) == None
    ensures Accepted(img, command, garbage) == None
  {
    if command.Some? {
      StoredNameLooksUp(img.entries, command.value);
    }
  }

  /** One that is not accepted, or comes when six processes run, changes nothing. */
  lemma RefusedChangesNothing(img: Image, w: World, command: Option<seq<byte>>, garbage: seq<byte>)
    requires ValidImage(img) && WellFormed(img, w) && Enabled(w, Execute(command, garbage))
    requires Total(w) == 6 || Accepted(img, command, garbage) == None
    ensures Next(img, w, Execute(command, garbage)) == w
  {
  }

  /** A halt above the bottom of a terminal leaves exactly the stack below the top, and everything else alone. */
  lemma HaltPops(img: Image, w: World)
    requires ValidImage(img) && WellFormed(img, w) && Busy(w) && |w.stacks[w.cur]| >= 2
    ensures
      var v, st := Next(img, w, Halt), w.stacks[w.cur];
      && v.cur == w.cur && |v.stacks| == 3 && v.stacks[w.cur] + [st[|st| - 1]] == st
      && forall t :: 0 <= t < 3 && t != w.cur ==> v.stacks[t] == w.stacks[t]
  {
  }

  /** The steps of a running process that change only its own record: a close clears the descriptor it names, a vidmap
      gives it the video page. */
  lemma OwnRecordSteps(img: Image, w: World, fd: nat, v: World, u: World)
    requires ValidImage(img) && WellFormed(img, w) && Busy(w) && 2 <= fd < 8
    requires v == Next(img, w, Close(fd)) && u == Next(img, w, Vidmap)
    ensures
      var st, n := w.stacks[w.cur], |w.stacks[w.cur]| - 1;
      && |st[n].fds| == 8 && v.cur == u.cur == w.cur
      && v.stacks == w.stacks[w.cur := st[n := st[n].(fds := st[n].fds[fd := CLOSED])]]
      && u.stacks == w.stacks[w.cur := st[n := st[n].(vid := true)]]
  {
    TopTable(img, w);
  }

  /** A switch brings its terminal forward and changes no stack but an empty one it finds there, which gets a shell
      exactly when fewer than six processes run. */
  lemma SwitchBringsForward(img: Image, w: World, t: nat)
    requires ValidImage(img) && WellFormed(img, w) && t < 3
    ensures
      var v := Next(img, w, Switch(t));
      && v.cur == t && |v.stacks| == 3 && (forall u :: 0 <= u < 3 && u != t ==> v.stacks[u] == w.stacks[u])
      && (w.stacks[t] != [] || t == w.cur || Total(w) == 6 ==> v.stacks[t] == w.stacks[t])
      && (w.stacks[t] == [] && t != w.cur && Total(w) < 6 ==>
          |v.stacks[t]| == 1 && v.stacks[t][0].name == SHELL && v.stacks[t][0].args == []
          && v.stacks[t][0].slot !in Live(w))
  {
    SlotAvailable(img, w);
    SameLive(w, t);
    SlotAvailable(img, w.(cur := t));
  }

  // ---------------------------------------------------------------- what a caller finds when its child is gone

  /** Terminal t holds more than d processes after each step of the run except possibly the last. */
  ghost predicate StaysAbove(img: Image, w: World, steps: seq<Step>, t: nat, d: nat)
    requires ValidImage(img) && WellFormed(img, w) && Feasible(img, w, steps) && t < TERMINALS
    decreases steps
  {
    steps == [] ||
    (|w.stacks[t]| > d &&
     (NextKeeps(img, w, steps[0]); StaysAbove(img, Next(img, w, steps[0]), steps[1..], t, d)))
  }

  ghost predicate SameBelow(w: World, v: World, t: nat, d: nat)
    requires Shape(w) && Shape(v) && t < TERMINALS
  {
    d <= |w.stacks[t]| && d <= |v.stacks[t]| && v.stacks[t][..d] == w.stacks[t][..d]
  }

  lemma LaunchBelow(w: World, c: Command, t: nat, d: nat)
    requires Shape(w) && t < TERMINALS && d <= |w.stacks[t]|
    ensures SameBelow(w, Launch(w, c), t, d)
  {
  }

  lemma SetTopBelow(w: World, p: Proc, t: nat, d: nat)
    requires Busy(w) && t < TERMINALS && d < |w.stacks[t]|
    ensures SameBelow(w, SetTop(w, p), t, d)
  {
  }

  lemma NextKeepsBelow(img: Image, w: World, step: Step, t: nat, d: nat)
    requires ValidImage(img) && WellFormed(img, w) && Enabled(w, step) && t < TERMINALS
    requires 1 <= d < |w.stacks[t]|
    ensures SameBelow(w, Next(img, w, step), t, d)
  {
    match step
    case Execute(command, garbage) =>
      var c := Accepted(img, command, garbage);
      if c.Some? { LaunchBelow(w, c.value, t, d); }
    case Halt =>
      assert SameBelow(w, Pop(w), t, d);
      LaunchBelow(Pop(w), SHELL_COMMAND, t, d);
    case Switch(u) => LaunchBelow(w.(cur := u), SHELL_COMMAND, t, d);
    case Open(name) => SetTopBelow(w, Top(w).(fds := OpenFds(img, Top(w).fds, name)), t, d);
    case Close(fd) => SetTopBelow(w, Top(w).(fds := CloseFds(Top(w).fds, fd)), t, d);
    case Read(fd, n) => SetTopBelow(w, Top(w).(fds := ReadFds(img, Top(w).fds, fd, n)), t, d);
    case Vidmap => SetTopBelow(w, Top(w).(vid := true), t, d);
  }

  /** While terminal t stays above depth d, its lowest d processes are untouched, whatever happens on any terminal. */
  lemma {:induction false} BelowUntouched(img: Image, w: World, steps: seq<Step>, t: nat, d: nat)
    requires ValidImage(img) && WellFormed(img, w) && Feasible(img, w, steps) && t < TERMINALS
    requires 1 <= d <= |w.stacks[t]| && StaysAbove(img, w, steps, t, d)
    ensures SameBelow(w, Run(img, w, steps), t, d)
    decreases steps
  {
    if steps != [] {
      NextKeeps(img, w, steps[0]);
      NextKeepsBelow(img, w, steps[0], t, d);
      BelowUntouched(img, Next(img, w, steps[0]), steps[1..], t, d);
    }
  }

  /** A process that starts a child, and gets control back when the terminal is at its depth again, finds the
      whole stack up to itself as it left it: slots, names, descriptors, mappings. */
  lemma BalancedRunRestores(img: Image, w: World, launch: Step, v: World, steps: seq<Step>)
    requires ValidImage(img) && WellFormed(img, w) && WellFormed(img, v) && Busy(w)
    requires launch.Execute? && Enabled(w, launch) && v == Next(img, w, launch)
    requires Feasible(img, v, steps) && StaysAbove(img, v, steps, w.cur, |w.stacks[w.cur]|)
    requires |Run(img, v, steps).stacks[w.cur]| == |w.stacks[w.cur]|
    ensures Run(img, v, steps).stacks[w.cur] == w.stacks[w.cur]
  {
    var d := |w.stacks[w.cur]|;
    assert v.stacks[w.cur][..d] == w.stacks[w.cur];
    BelowUntouched(img, v, steps, w.cur, d);
    var r := Run(img, v, steps);
    assert r.stacks[w.cur] == r.stacks[w.cur][..d];
  }
}
