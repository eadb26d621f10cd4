/** The concrete process table as values, and how it represents a world of stacks. */
module ProcessTable {
  import opened Common
  import opened FileSystem
  import opened Descriptors
  import opened Paging
  import opened Commands
  import opened Processes

  const KERNEL_STACK: nat := 0x800000
  const STACK_SIZE: nat := 0x2000

  /** get_kernel_stack_ptr */
  function StackTop(programId: nat): int {
    KERNEL_STACK - (programId - 1) * STACK_SIZE
  }

  /** The first process's kernel stack ends at 8 MB, every other one 8 KB below the one before. */
  lemma StackTops(programId: nat)
    requires programId >= 1
    ensures StackTop(1) == 0x80_0000 && StackTop(programId + 1) == StackTop(programId) - 0x2000
  {
  }

  datatype Pcb = Pcb(fds: seq<Desc>, programId: nat, parentId: nat, address: int, terminal: int,
                     name: seq<byte>, args: seq<byte>)

  datatype TerminalInfo = TerminalInfo(top: nat, count: nat)

  /** Everything the kernel keeps: no stacks, only counters, indices and parent links. */
  datatype Machine = Machine(
    pcbs: seq<Pcb>, info: seq<TerminalInfo>, number: nat, current: nat, terminal: nat, esp0: int,
    at: Tables, cr3: nat, dirs: seq<seq<int>>, vidTable: seq<int>)

  ghost predicate Sized(m: Machine) {
    && |m.pcbs| == MAX_PROCESSES && |m.info| == TERMINALS && |m.dirs| == MAX_TASKS
    && m.current < MAX_PROCESSES && m.terminal < TERMINALS
  }

  function TopSlot(st: seq<Proc>): nat {
    if st == [] then 0 else st[|st| - 1].slot
  }

  ghost function ParentSlot(st: seq<Proc>, i: nat): nat
    requires i < |st|
  {
    TopSlot(st[..i])
  }

  ghost function PcbOf(p: Proc, parent: nat, t: nat): Pcb {
    Pcb(p.fds, p.slot, parent, StackTop(p.slot), t, p.name, p.args)
  }

  /** The table entry and page directory of one stacked process. */
  ghost predicate ProcRep(m: Machine, p: Proc, parent: nat, t: nat)
    requires Sized(m) && 1 <= p.slot < MAX_PROCESSES
  {
    && m.pcbs[p.slot] == PcbOf(p, parent, t)
    && m.dirs[p.slot - 1] == Directory(m.at, p.slot - 1, p.vid)
    && (p.vid ==> IsVidmapTable(m.vidTable))
  }

  ghost predicate ProcOk(m: Machine, st: seq<Proc>, i: nat, t: nat)
    requires Sized(m) && i < |st|
  {
    1 <= st[i].slot < MAX_PROCESSES && ProcRep(m, st[i], ParentSlot(st, i), t)
  }

  ghost predicate StackRep(m: Machine, st: seq<Proc>, t: nat)
    requires Sized(m)
  {
    forall i :: 0 <= i < |st| ==> ProcOk(m, st, i, t)
  }

  ghost predicate SlotFree(p: Pcb) {
    p.programId == 0 && TailClosed(p.fds)
  }

  /** Process count, terminal tops and counts, current slot. */
  ghost predicate Counters(m: Machine, w: World)
    requires Sized(m) && Shape(w)
  {
    && m.terminal == w.cur && m.number == Total(w) && m.current == TopSlot(w.stacks[w.cur])
    && (forall t :: 0 <= t < TERMINALS ==> m.info[t] == TerminalInfo(TopSlot(w.stacks[t]), |w.stacks[t]|))
  }

  ghost predicate Stacks(img: Image, m: Machine, w: World)
    requires Sized(m) && WellFormed(img, w)
  {
    forall t :: 0 <= t < TERMINALS ==> StackRep(m, w.stacks[t], t)
  }

  ghost predicate FreeSlots(m: Machine, live: set<nat>)
    requires Sized(m)
  {
    && (forall s :: 0 <= s < MAX_PROCESSES && s !in live ==> SlotFree(m.pcbs[s]))
    && m.pcbs[0].parentId == 0
  }

  /** Counters, tops, parent links, descriptors and directories all describe the stacks of w. */
  ghost predicate Core(img: Image, m: Machine, w: World) {
    Sized(m) && WellFormed(img, w) && Counters(m, w) && Stacks(img, m, w) && FreeSlots(m, Live(w))
  }

  /** The running process has its own directory and kernel stack loaded. */
  ghost predicate Loaded(m: Machine, w: World)
    requires Shape(w)
  {
    Busy(w) ==> m.cr3 == Top(w).slot - 1 && m.esp0 == StackTop(Top(w).slot)
  }

  ghost predicate Represented(img: Image, m: Machine, w: World) {
    Core(img, m, w) && Loaded(m, w)
  }

  /** The zeroed table describes three empty stacks. */
  lemma BootRep(img: Image, m: Machine)
    requires Sized(m) && m.info == [TerminalInfo(0, 0), TerminalInfo(0, 0), TerminalInfo(0, 0)]
    requires m.number == m.current == m.terminal == 0
    requires forall s :: 0 <= s < MAX_PROCESSES ==> SlotFree(m.pcbs[s]) && m.pcbs[s].parentId == 0
    ensures Represented(img, m, EMPTY_WORLD)
  {
  }

  // ---------------------------------------------------------------- frames

  /** m' differs from m at most in slot s, in its directory and in the vidmap table, which may only be filled in. */
  ghost predicate SameBut(m: Machine, m': Machine, s: nat)
    requires Sized(m) && Sized(m')
  {
    && (forall k :: 0 <= k < MAX_PROCESSES && k != s ==> m'.pcbs[k] == m.pcbs[k])
    && (forall k :: 0 <= k < MAX_TASKS && k != s - 1 ==> m'.dirs[k] == m.dirs[k])
    && m'.at == m.at && (m'.vidTable == m.vidTable || IsVidmapTable(m'.vidTable))
  }

  lemma StackFrame(img: Image, m: Machine, m': Machine, s: nat, st: seq<Proc>, t: nat)
    requires Sized(m) && Sized(m') && SameBut(m, m', s)
    requires StackOk(img, st) && s !in SlotsOf(st) && StackRep(m, st, t)
    ensures StackRep(m', st, t)
  {
    forall i | 0 <= i < |st|
      ensures ProcOk(m', st, i, t)
    {
      assert ProcOk(m, st, i, t);
      assert st[i].slot in SlotsOf(st);
    }
  }

  lemma StackRepPush(img: Image, m: Machine, st: seq<Proc>, p: Proc, t: nat)
    requires Sized(m) && StackOk(img, st) && StackOk(img, st + [p])
    requires 1 <= p.slot < MAX_PROCESSES && StackRep(m, st, t) && ProcRep(m, p, TopSlot(st), t)
    ensures StackRep(m, st + [p], t)
  {
    var r := st + [p];
    forall i | 0 <= i < |r|
      ensures ProcOk(m, r, i, t)
    {
      if i < |st| {
        assert r[..i] == st[..i] && ProcOk(m, st, i, t);
      } else {
        assert r[..i] == st;
      }
    }
  }

  lemma StackRepPop(img: Image, m: Machine, st: seq<Proc>, t: nat)
    requires Sized(m) && StackOk(img, st) && st != [] && StackRep(m, st, t)
    ensures StackOk(img, st[..|st| - 1]) && StackRep(m, st[..|st| - 1], t)
  {
    var r := st[..|st| - 1];
    forall i | 0 <= i < |r|
      ensures ProcOk(m, r, i, t)
    {
      assert r[..i] == st[..i] && ProcOk(m, st, i, t);
    }
  }

  // ---------------------------------------------------------------- the four kinds of change

  ghost predicate InfoSet(m: Machine, m': Machine, t: nat, top: nat, count: nat)
    requires Sized(m) && Sized(m') && t < TERMINALS
  {
    && m'.info[t] == TerminalInfo(top, count)
    && forall u :: 0 <= u < TERMINALS && u != t ==> m'.info[u] == m.info[u]
  }

  lemma SlotsAreLive(w: World, t: nat)
    requires Shape(w) && t < TERMINALS
    ensures SlotsOf(w.stacks[t]) <= Live(w)
  {
  }

  lemma TopElsewhere(img: Image, w: World, t: nat)
    requires WellFormed(img, w) && Busy(w) && t < TERMINALS && t != w.cur
    ensures Top(w).slot !in SlotsOf(w.stacks[t])
  {
    SlotsPop(img, w.stacks[w.cur]);
    if t < w.cur {
      assert SlotsOf(w.stacks[t]) !! SlotsOf(w.stacks[w.cur]);
    } else {
      assert SlotsOf(w.stacks[w.cur]) !! SlotsOf(w.stacks[t]);
    }
  }

  lemma StacksPush(img: Image, m: Machine, m': Machine, w: World, p: Proc)
    requires Sized(m) && Sized(m') && WellFormed(img, w) && WellFormed(img, Push(w, p))
    requires Stacks(img, m, w) && SameBut(m, m', p.slot) && m.current == TopSlot(w.stacks[w.cur])
    requires 1 <= p.slot < MAX_PROCESSES && p.slot !in Live(w) && ProcRep(m', p, m.current, w.cur)
    ensures Stacks(img, m', Push(w, p))
  {
    hide FdsOk, SlotsOf, ProcRep;
    forall t | 0 <= t < TERMINALS
      ensures StackRep(m', Push(w, p).stacks[t], t)
    {
      SlotsAreLive(w, t);
      StackFrame(img, m, m', p.slot, w.stacks[t], t);
      if t == w.cur {
        assert Push(w, p).stacks[t] == w.stacks[t] + [p];
        StackRepPush(img, m', w.stacks[t], p, t);
      }
    }
  }

  /** A process is pushed on the current terminal's stack. */
  lemma CorePush(img: Image, m: Machine, m': Machine, w: World, p: Proc)
    requires Core(img, m, w) && Sized(m') && SameBut(m, m', p.slot)
    requires 1 <= p.slot < MAX_PROCESSES && p.slot !in Live(w) && FdsOk(img, p.fds)
    requires ProcRep(m', p, m.current, w.cur)
    requires m'.terminal == m.terminal && m'.number == m.number + 1 && m'.current == p.slot
    requires InfoSet(m, m', w.cur, p.slot, |w.stacks[w.cur]| + 1)
    ensures Core(img, m', Push(w, p))
  {
    hide FdsOk, SlotsOf, StackOk, StackRep, ProcRep, SlotFree;
    PushKeeps(img, w, p);
    LivePush(w, p);
    StacksPush(img, m, m', w, p);
    assert Counters(m', Push(w, p));
    assert FreeSlots(m', Live(w) + {p.slot});
  }

  lemma StacksPop(img: Image, m: Machine, m': Machine, w: World)
    requires Sized(m) && Sized(m') && WellFormed(img, w) && Busy(w) && WellFormed(img, Pop(w))
    requires Stacks(img, m, w) && SameBut(m, m', Top(w).slot)
    ensures Stacks(img, m', Pop(w))
  {
    forall t | 0 <= t < TERMINALS
      ensures StackRep(m', Pop(w).stacks[t], t)
    {
      if t == w.cur {
        StackRepPop(img, m, w.stacks[t], t);
        SlotsPop(img, w.stacks[t]);
      } else {
        TopElsewhere(img, w, t);
      }
      StackFrame(img, m, m', Top(w).slot, Pop(w).stacks[t], t);
    }
  }

  /** The top process is popped and its slot freed. */
  lemma CorePop(img: Image, m: Machine, m': Machine, w: World)
    requires Core(img, m, w) && Sized(m') && Busy(w) && SameBut(m, m', Top(w).slot)
    requires Top(w).slot < MAX_PROCESSES && SlotFree(m'.pcbs[Top(w).slot])
    requires m'.terminal == m.terminal && m'.number == m.number - 1
    requires m'.current == TopSlot(Pop(w).stacks[w.cur])
    requires InfoSet(m, m', w.cur, m'.current, |w.stacks[w.cur]| - 1)
    ensures Core(img, m', Pop(w))
  {
    hide FdsOk, SlotsOf, StackOk, StackRep, ProcRep, SlotFree;
    PopKeeps(img, w);
    LivePop(img, w);
    StacksPop(img, m, m', w);
    assert Counters(m', Pop(w));
    TopRep(img, m, w);
    assert FreeSlots(m', Live(w) - {Top(w).slot});
  }

  lemma StacksSetTop(img: Image, m: Machine, m': Machine, w: World, p: Proc)
    requires Sized(m) && Sized(m') && WellFormed(img, w) && Busy(w) && WellFormed(img, SetTop(w, p))
    requires Stacks(img, m, w) && SameBut(m, m', Top(w).slot)
    requires p.slot == Top(w).slot && 1 <= p.slot < MAX_PROCESSES
    requires ProcRep(m', p, TopSlot(Pop(w).stacks[w.cur]), w.cur)
    ensures Stacks(img, m', SetTop(w, p))
  {
    hide FdsOk, SlotsOf, ProcRep;
    forall t | 0 <= t < TERMINALS
      ensures StackRep(m', SetTop(w, p).stacks[t], t)
    {
      if t == w.cur {
        var below := Pop(w).stacks[t];
        SlotsPop(img, w.stacks[t]);
        StackRepPop(img, m, w.stacks[t], t);
        StackFrame(img, m, m', p.slot, below, t);
        assert below + [p] == SetTop(w, p).stacks[t];
        StackRepPush(img, m', below, p, t);
      } else {
        TopElsewhere(img, w, t);
        StackFrame(img, m, m', p.slot, w.stacks[t], t);
      }
    }
  }

  /** The top process changes but keeps its slot. */
  lemma CoreSetTop(img: Image, m: Machine, m': Machine, w: World, p: Proc)
    requires Core(img, m, w) && Sized(m') && Busy(w) && SameBut(m, m', Top(w).slot)
    requires p.slot == Top(w).slot && 1 <= p.slot < MAX_PROCESSES && FdsOk(img, p.fds)
    requires ProcRep(m', p, TopSlot(Pop(w).stacks[w.cur]), w.cur)
    requires m'.terminal == m.terminal && m'.number == m.number && m'.current == m.current && m'.info == m.info
    ensures Core(img, m', SetTop(w, p))
  {
    hide FdsOk, SlotsOf, StackOk, StackRep, ProcRep, SlotFree;
    SetTopKeeps(img, w, p);
    LiveSetTop(w, p);
    StacksSetTop(img, m, m', w, p);
    assert Counters(m', SetTop(w, p));
    LivePop(img, w);
    assert FreeSlots(m', Live(w));
  }

  /** A free slot may be scribbled on as long as it stays free. */
  lemma CoreScribble(img: Image, m: Machine, m': Machine, w: World, s: nat)
    requires Core(img, m, w) && 1 <= s < MAX_PROCESSES && s !in Live(w)
    requires Sized(m') && m' == m.(pcbs := m'.pcbs) && SameBut(m, m', s) && SlotFree(m'.pcbs[s])
    ensures Core(img, m', w)
  {
    forall t | 0 <= t < TERMINALS
      ensures StackRep(m', w.stacks[t], t)
    {
      SlotsAreLive(w, t);
      StackFrame(img, m, m', s, w.stacks[t], t);
    }
  }

  // ---------------------------------------------------------------- execute, in two halves

  /** The machine after a slot was initialised, named and linked to the caller, before the command is checked. */
  ghost predicate Allocated(m: Machine, m': Machine, slot: nat, name: seq<byte>, args: seq<byte>) {
    && Sized(m) && 1 <= slot < MAX_PROCESSES
    && m' == m.(pcbs := m'.pcbs, info := m'.info, number := m.number + 1, current := slot)
    && m'.pcbs == m.pcbs[slot := PcbOf(Proc(slot, name, args, FRESH_FDS, false), m.current, m.terminal)]
    && m'.info == m.info[m.terminal := TerminalInfo(slot, m.info[m.terminal].count + 1)]
  }

  lemma NumberOf(img: Image, m: Machine, w: World)
    requires Core(img, m, w)
    ensures m.number == Total(w) < MAX_PROCESSES && m.terminal == w.cur && m.current == TopSlot(w.stacks[w.cur])
    ensures m.info[w.cur] == TerminalInfo(m.current, |w.stacks[w.cur]|)
  {
    SlotAvailable(img, w);
  }

  /** The parent link a new process gets: the current slot, zero when there is none. */
  lemma CallerId(img: Image, m: Machine, w: World)
    requires Core(img, m, w)
    ensures m.pcbs[m.current].programId == m.current && (m.current != 0 <==> Busy(w))
  {
    hide StackOk, SlotsOf;
    if Busy(w) {
      LivePop(img, w);
      TopRep(img, m, w);
    } else {
      LiveCount(img, w);
    }
    ProgramIds(img, m, w, m.current);
  }

  /** A refused execute has put back every counter, index and register, and every live process. */
  ghost predicate RolledBack(m: Machine, m': Machine)
    requires Sized(m) && Sized(m')
  {
    && m' == m.(pcbs := m'.pcbs)
    && forall k :: 0 <= k < MAX_PROCESSES && m.pcbs[k].programId != 0 ==> m'.pcbs[k] == m.pcbs[k]
  }

  /** Undoing an allocation leaves the represented world as it was. */
  lemma RefusedRep(img: Image, m: Machine, m': Machine, w: World, slot: nat)
    requires Represented(img, m, w) && 1 <= slot < MAX_PROCESSES && slot !in Live(w)
    requires m' == m.(pcbs := m'.pcbs) && |m'.pcbs| == MAX_PROCESSES
    requires m'.pcbs[slot].programId == 0 && m'.pcbs[slot].fds == FRESH_FDS
    requires forall k :: 0 <= k < MAX_PROCESSES && k != slot ==> m'.pcbs[k] == m.pcbs[k]
    ensures Represented(img, m', w) && RolledBack(m, m')
  {
    hide StackOk, SlotsOf, Stacks;
    CoreScribble(img, m, m', w, slot);
    ProgramIds(img, m, w, slot);
  }

  /** Completing an allocation pushes the new process. */
  lemma StartedRep(img: Image, m: Machine, mid: Machine, m': Machine, w: World, c: Command)
    requires Represented(img, m, w) && Total(w) + 1 < MAX_PROCESSES
    requires 1 <= FreeSlot(w) < MAX_PROCESSES && FreeSlot(w) !in Live(w)
    requires Allocated(m, mid, FreeSlot(w), c.name, c.args)
    requires m' == mid.(esp0 := StackTop(FreeSlot(w)), cr3 := FreeSlot(w) - 1,
                        dirs := mid.dirs[FreeSlot(w) - 1 := Directory(m.at, FreeSlot(w) - 1, false)])
    ensures Represented(img, m', Launch(w, c))
  {
    hide StackOk, SlotsOf, Stacks, FreeSlots;
    var p := Proc(FreeSlot(w), c.name, c.args, FRESH_FDS, false);
    NumberOf(img, m, w);
    CorePush(img, m, m', w, p);
  }

  // ---------------------------------------------------------------- halt and switch

  /** What ending the current slot relies on, whether or not a process sits there. */
  lemma RetireReady(img: Image, m: Machine, w: World)
    requires Core(img, m, w)
    ensures TailOk(img, m.pcbs[m.current].fds) && m.pcbs[m.current].parentId < MAX_PROCESSES
    ensures Busy(w) ==> m.current == Top(w).slot
    ensures !Busy(w) ==> m.current == 0 && m.pcbs[0].parentId == 0
  {
    hide SlotsOf, StackOk, Stacks;
    if Busy(w) {
      TopRep(img, m, w);
      ParentLink(img, m, w, w.cur, |w.stacks[w.cur]| - 1);
    } else {
      LiveCount(img, w);
    }
  }

  /** A wrapped process count describes no stack at all. */
  lemma NothingRepresented(img: Image, m: Machine, w: World)
    requires Sized(m) && m.info[m.terminal].count == 0xFFFF_FFFF
    ensures !Core(img, m, w)
  {
    hide SlotsOf, StackOk, Stacks, FreeSlots;
    if Core(img, m, w) {
      SlotAvailable(img, w);
    }
  }

  lemma RetiredRep(img: Image, m: Machine, m': Machine, w: World)
    requires Core(img, m, w) && Busy(w) && Top(w).slot < MAX_PROCESSES && Sized(m')
    requires m' == m.(pcbs := m'.pcbs, info := m'.info, number := m.number - 1, current := m.pcbs[Top(w).slot].parentId)
    requires forall k :: 0 <= k < MAX_PROCESSES && k != Top(w).slot ==> m'.pcbs[k] == m.pcbs[k]
    requires SlotFree(m'.pcbs[Top(w).slot])
    requires m'.info == m.info[m.terminal := TerminalInfo(m'.current, m.info[m.terminal].count - 1)]
    ensures Core(img, m', Pop(w))
  {
    hide StackOk, SlotsOf, Stacks, FreeSlots;
    TopRep(img, m, w);
    CorePop(img, m, m', w);
  }

  lemma StacksSame(img: Image, m: Machine, m': Machine, w: World)
    requires Sized(m) && Sized(m') && WellFormed(img, w) && Stacks(img, m, w)
    requires m'.pcbs == m.pcbs && m'.dirs == m.dirs && m'.at == m.at && m'.vidTable == m.vidTable
    ensures Stacks(img, m', w)
  {
    hide SlotsOf, FdsOk;
    forall u | 0 <= u < TERMINALS
      ensures StackRep(m', w.stacks[u], u)
    {
      assert StackRep(m, w.stacks[u], u);
      forall i | 0 <= i < |w.stacks[u]|
        ensures ProcOk(m', w.stacks[u], i, u)
      {
        assert ProcOk(m, w.stacks[u], i, u);
      }
    }
  }

  lemma SwitchedRep(img: Image, m: Machine, m': Machine, w: World, t: nat)
    requires Core(img, m, w) && t < TERMINALS
    requires m' == m.(terminal := t, current := m.info[t].top)
    ensures Core(img, m', w.(cur := t))
  {
    hide SlotsOf, StackOk, StackRep, SlotFree;
    if w.stacks[t] != [] {
      ProcAt(img, m, w, t, |w.stacks[t]| - 1);
    }
    var v := w.(cur := t);
    assert Live(v) == Live(w);
    StacksSame(img, m, m', w);
  }

  /** Loading the current process's directory and kernel stack completes the representation. */
  lemma ResumedRep(img: Image, m: Machine, m': Machine, w: World)
    requires Core(img, m, w) && Busy(w)
    requires m' == m.(esp0 := m.pcbs[m.current].address, cr3 := Wrap32(m.pcbs[m.current].programId - 1))
    ensures Represented(img, m', w)
  {
    hide SlotsOf, StackOk, StackRep, SlotFree;
    TopRep(img, m, w);
    StacksSame(img, m, m', w);
  }

  // ---------------------------------------------------------------- calls that change only the running process

  lemma FdsChangedRep(img: Image, m: Machine, m': Machine, w: World, fds: seq<Desc>)
    requires Represented(img, m, w) && Busy(w) && FdsOk(img, fds)
    requires m' == m.(pcbs := m.pcbs[m.current := m.pcbs[m.current].(fds := fds)])
    ensures Represented(img, m', SetTop(w, Top(w).(fds := fds)))
  {
    hide SlotsOf, StackOk, Stacks, FreeSlots, FdsOk;
    TopRep(img, m, w);
    CoreSetTop(img, m, m', w, Top(w).(fds := fds));
  }

  lemma VidmapRep(img: Image, m: Machine, m': Machine, w: World)
    requires Represented(img, m, w) && Busy(w) && 1 <= m.current < MAX_PROCESSES
    requires m' == m.(dirs := m.dirs[m.current - 1 := Directory(m.at, m.current - 1, true)], vidTable := m'.vidTable)
    requires IsVidmapTable(m'.vidTable)
    ensures Represented(img, m', SetTop(w, Top(w).(vid := true)))
  {
    hide SlotsOf, StackOk, Stacks, FreeSlots, FdsOk;
    TopRep(img, m, w);
    CoreSetTop(img, m, m', w, Top(w).(vid := true));
  }

  // ---------------------------------------------------------------- consequences

  /** A slot's program id is its own number while it is in use and zero otherwise. */
  lemma ProgramIds(img: Image, m: Machine, w: World, s: nat)
    requires Core(img, m, w) && s < MAX_PROCESSES
    ensures m.pcbs[s].programId == if s in Live(w) then s else 0
  {
    if s in Live(w) {
      var t: nat :| t < TERMINALS && s in SlotsOf(w.stacks[t]);
      var i :| 0 <= i < |w.stacks[t]| && w.stacks[t][i].slot == s;
      assert ProcOk(m, w.stacks[t], i, t);
    }
  }

  /** The search for a zero program id finds the first slot no process sits in. */
  lemma SlotFound(img: Image, m: Machine, w: World, r: nat)
    requires Core(img, m, w) && Total(w) + 1 < MAX_PROCESSES
    requires r < MAX_PROCESSES ==> r >= 1 && m.pcbs[r].programId == 0
    requires forall k :: 1 <= k < MAX_PROCESSES && k < r ==> m.pcbs[k].programId != 0
    ensures r == FreeSlot(w) && 1 <= r < MAX_PROCESSES && r !in Live(w) && SlotFree(m.pcbs[r])
    ensures |m.pcbs[r].fds| == FD_COUNT && m.pcbs[r].fds[0 := STDIN][1 := STDOUT] == FRESH_FDS
  {
    hide StackOk, StackRep, SlotsOf;
    SlotAvailable(img, w);
    var f := FreeSlot(w);
    ProgramIds(img, m, w, f);
    if r < MAX_PROCESSES {
      ProgramIds(img, m, w, r);
    }
  }

  lemma TopRep(img: Image, m: Machine, w: World)
    requires Core(img, m, w) && Busy(w)
    ensures 1 <= Top(w).slot < MAX_PROCESSES && m.current == Top(w).slot && FdsOk(img, Top(w).fds)
    ensures ProcRep(m, Top(w), TopSlot(Pop(w).stacks[w.cur]), w.cur)
  {
    var st := w.stacks[w.cur];
    assert ProcOk(m, st, |st| - 1, w.cur);
    assert Pop(w).stacks[w.cur] == st[..|st| - 1];
  }

  lemma ProcAt(img: Image, m: Machine, w: World, t: nat, i: nat)
    requires Core(img, m, w) && t < TERMINALS && i < |w.stacks[t]|
    ensures 1 <= w.stacks[t][i].slot < MAX_PROCESSES && ProcRep(m, w.stacks[t][i], ParentSlot(w.stacks[t], i), t)
  {
    assert ProcOk(m, w.stacks[t], i, t);
  }

  /** Parent links walk down the stack and stop at its bottom. */
  lemma ParentLink(img: Image, m: Machine, w: World, t: nat, i: nat)
    requires Core(img, m, w) && t < TERMINALS && i < |w.stacks[t]|
    ensures 1 <= w.stacks[t][i].slot < MAX_PROCESSES
    ensures m.pcbs[w.stacks[t][i].slot].parentId == if i == 0 then 0 else w.stacks[t][i - 1].slot
    ensures m.pcbs[w.stacks[t][i].slot].parentId == 0 <==> i == 0
    ensures m.pcbs[w.stacks[t][i].slot].parentId < MAX_PROCESSES
  {
    ProcAt(img, m, w, t, i);
    if i > 0 {
      ProcAt(img, m, w, t, i - 1);
    }
  }

  /** A walk along parent links of the current terminal has come down to height d, at slot `top`. */
  ghost predicate OnChain(m: Machine, w: World, top: nat, d: nat) {
    && Sized(m) && Shape(w) && d <= |w.stacks[w.cur]| && top < MAX_PROCESSES
    && (w.stacks[w.cur] == [] ==> top == 0 && m.pcbs[top].parentId == 0)
    && (w.stacks[w.cur] != [] ==>
        && d > 0 && top == w.stacks[w.cur][d - 1].slot
        && m.pcbs[top].parentId == if d == 1 then 0 else w.stacks[w.cur][d - 2].slot)
  }

  lemma OnChainBounds(m: Machine, w: World, top: nat, d: nat)
    requires OnChain(m, w, top, d)
    ensures top < |m.pcbs|
  {
  }

  lemma ChainStart(img: Image, m: Machine, w: World)
    requires Core(img, m, w)
    ensures OnChain(m, w, m.current, |w.stacks[w.cur]|)
  {
    hide StackOk, SlotsOf, Stacks, SlotFree;
    if Busy(w) {
      ParentLink(img, m, w, w.cur, |w.stacks[w.cur]| - 1);
    }
  }

  lemma ChainStep(img: Image, m: Machine, w: World, top: nat, d: nat)
    requires Core(img, m, w) && OnChain(m, w, top, d)
    ensures m.pcbs[top].parentId != 0 ==> d > 1 && OnChain(m, w, m.pcbs[top].parentId, d - 1)
    ensures m.pcbs[top].parentId == 0 ==> top == if Busy(w) then w.stacks[w.cur][0].slot else 0
  {
    hide StackOk, SlotsOf, Stacks, SlotFree, FreeSlots, Counters;
    if d > 1 {
      ParentLink(img, m, w, w.cur, d - 2);
    }
  }

  /** The slots met by following parent links from a slot until zero, looking at no more than `bound` of them. */
  ghost function ParentWalk(m: Machine, slot: nat, bound: nat): seq<nat>
    decreases bound
  {
    if slot == 0 || slot >= |m.pcbs| || bound == 0 then []
    else [slot] + ParentWalk(m, m.pcbs[slot].parentId, bound - 1)
  }

  /** A stack's slots from the top down. */
  ghost function SlotsDown(st: seq<Proc>): (r: seq<nat>)
    ensures |r| == |st|
  {
    if st == [] then [] else [st[|st| - 1].slot] + SlotsDown(st[..|st| - 1])
  }

  lemma {:induction false} WalkDown(img: Image, m: Machine, w: World, t: nat, d: nat, bound: nat)
    requires Core(img, m, w) && t < TERMINALS && d <= |w.stacks[t]| && bound >= d
    ensures ParentWalk(m, TopSlot(w.stacks[t][..d]), bound) == SlotsDown(w.stacks[t][..d])
    decreases d
  {
    hide StackOk, SlotsOf, Stacks, FreeSlots, Counters;
    if d > 0 {
      var st := w.stacks[t];
      ParentLink(img, m, w, t, d - 1);
      assert st[..d][..d - 1] == st[..d - 1];
      WalkDown(img, m, w, t, d - 1, bound - 1);
    }
  }

  /** Whatever bound it is given, the walk from a terminal's top visits exactly the terminal's processes, as many as its
      count says, and stops: the parent links form no cycle. */
  lemma TerminalChain(img: Image, m: Machine, w: World, t: nat, bound: nat)
    requires Core(img, m, w) && t < TERMINALS && bound >= m.info[t].count
    ensures ParentWalk(m, m.info[t].top, bound) == SlotsDown(w.stacks[t])
    ensures |ParentWalk(m, m.info[t].top, bound)| == m.info[t].count
  {
    hide StackOk, SlotsOf, Stacks, FreeSlots;
    assert w.stacks[t][..|w.stacks[t]|] == w.stacks[t];
    WalkDown(img, m, w, t, |w.stacks[t]|, bound);
  }

  lemma {:induction false} SlotsDownAre(st: seq<Proc>, s: nat)
    ensures s in SlotsDown(st) <==> s in SlotsOf(st)
  {
    if st != [] {
      var below := st[..|st| - 1];
      SlotsDownAre(below, s);
      SlotsPush(below, st[|st| - 1]);
      assert below + [st[|st| - 1]] == st;
    }
  }

  /** The three chains partition the slots in use: a slot has a program id exactly when it is on the chain of the
      terminal it is tagged with, and it is on no other. */
  lemma ChainsPartitionSlots(img: Image, m: Machine, w: World, s: nat, t: nat)
    requires Core(img, m, w) && 1 <= s < MAX_PROCESSES && t < TERMINALS
    ensures s in ParentWalk(m, m.info[t].top, m.info[t].count) <==> m.pcbs[s].programId != 0 && m.pcbs[s].terminal == t
  {
    hide StackOk, StackRep, FreeSlots;
    TerminalChain(img, m, w, t, m.info[t].count);
    SlotsDownAre(w.stacks[t], s);
    ProgramIds(img, m, w, s);
    if s in Live(w) {
      var u: nat :| u < TERMINALS && s in SlotsOf(w.stacks[u]);
      var i :| 0 <= i < |w.stacks[u]| && w.stacks[u][i].slot == s;
      ProcAt(img, m, w, u, i);
      assert u < t ==> SlotsOf(w.stacks[u]) !! SlotsOf(w.stacks[t]);
      assert t < u ==> SlotsOf(w.stacks[t]) !! SlotsOf(w.stacks[u]);
    } else {
      SlotsAreLive(w, t);
    }
  }

  /** Where an address leads through the directory of a slot. */
  ghost function Reach(m: Machine, table: seq<int>, slot: nat, la: nat): Option<int> {
    if 1 <= slot <= |m.dirs| && |m.dirs[slot - 1]| == |table| == |m.vidTable| == ENTRIES && la < TWO_32
    then Translate(m.at, m.dirs[slot - 1], table, m.vidTable, la)
    else None
  }

  ghost predicate TablesSound(m: Machine, table: seq<int>) {
    ValidTables(m.at) && IsPageTable(table) && |m.vidTable| == ENTRIES
  }

  lemma ProcMapped(m: Machine, p: Proc, parent: nat, t: nat, table: seq<int>, la: nat)
    requires Sized(m) && 1 <= p.slot < MAX_PROCESSES && ProcRep(m, p, parent, t)
    requires TablesSound(m, table) && la < TWO_32
    ensures Reach(m, table, p.slot, la) == Expected(p.slot, p.vid, la)
  {
    TranslateExact(m.at, p.slot, p.vid, table, m.vidTable, la);
  }

  lemma DistinctSlots(img: Image, w: World, t: nat, i: nat, u: nat, j: nat)
    requires WellFormed(img, w) && t < TERMINALS && i < |w.stacks[t]| && u < TERMINALS && j < |w.stacks[u]|
    requires (t, i) != (u, j)
    ensures w.stacks[t][i].slot != w.stacks[u][j].slot
  {
    assert w.stacks[t][i].slot in SlotsOf(w.stacks[t]) && w.stacks[u][j].slot in SlotsOf(w.stacks[u]);
    if t < u {
      assert SlotsOf(w.stacks[t]) !! SlotsOf(w.stacks[u]);
    } else if u < t {
      assert SlotsOf(w.stacks[u]) !! SlotsOf(w.stacks[t]);
    } else {
      assert StackOk(img, w.stacks[t]);
    }
  }

  /** Every live process's directory maps exactly the kernel, its own frame and, if it asked, the video page. */
  lemma EveryProcessMapped(img: Image, m: Machine, w: World, t: nat, i: nat, table: seq<int>, la: nat)
    requires Core(img, m, w) && t < TERMINALS && i < |w.stacks[t]|
    requires TablesSound(m, table) && la < TWO_32
    ensures Reach(m, table, w.stacks[t][i].slot, la) == Expected(w.stacks[t][i].slot, w.stacks[t][i].vid, la)
  {
    hide FdsOk, SlotsOf, StackOk, StackRep, SlotFree, ProcRep, Reach, Expected;
    ProcAt(img, m, w, t, i);
    ProcMapped(m, w.stacks[t][i], ParentSlot(w.stacks[t], i), t, table, la);
  }

  /** Physical targets x and y lie in different user frames, and kernel stacks of p and q do not overlap. */
  ghost predicate Apart(m: Machine, p: nat, q: nat, x: Option<int>, y: Option<int>)
    requires Sized(m) && p < MAX_PROCESSES && q < MAX_PROCESSES
  {
    && x.Some? && y.Some? && x != y && x.value >= KERNEL_STACK && y.value >= KERNEL_STACK
    && m.pcbs[p].address == StackTop(p) && m.pcbs[q].address == StackTop(q)
    && (StackTop(p) <= StackTop(q) - STACK_SIZE || StackTop(q) <= StackTop(p) - STACK_SIZE)
    && PAGE_4MB <= StackTop(p) - STACK_SIZE < StackTop(p) <= KERNEL_STACK
  }

  lemma SeparateFrames(m: Machine, p: Proc, pp: nat, t: nat, q: Proc, qp: nat, u: nat, table: seq<int>, a: nat, b: nat)
    requires Sized(m) && 1 <= p.slot < MAX_PROCESSES && ProcRep(m, p, pp, t)
    requires 1 <= q.slot < MAX_PROCESSES && ProcRep(m, q, qp, u) && p.slot != q.slot
    requires TablesSound(m, table)
    requires USER_BASE <= a < USER_BASE + PAGE_4MB && USER_BASE <= b < USER_BASE + PAGE_4MB
    ensures Apart(m, p.slot, q.slot, Reach(m, table, p.slot, a), Reach(m, table, q.slot, b))
  {
    ProcMapped(m, p, pp, t, table, a);
    ProcMapped(m, q, qp, u, table, b);
  }

  /** Two live processes never reach one physical byte through their program regions, and neither reaches the
      kernel's; their kernel stacks do not overlap. */
  lemma Isolation(img: Image, m: Machine, w: World, t: nat, i: nat, u: nat, j: nat, table: seq<int>, a: nat, b: nat)
    requires Core(img, m, w) && t < TERMINALS && i < |w.stacks[t]| && u < TERMINALS && j < |w.stacks[u]|
    requires (t, i) != (u, j) && TablesSound(m, table)
    requires USER_BASE <= a < USER_BASE + PAGE_4MB && USER_BASE <= b < USER_BASE + PAGE_4MB
    ensures
      var p, q := w.stacks[t][i].slot, w.stacks[u][j].slot;
      p < MAX_PROCESSES && q < MAX_PROCESSES && Apart(m, p, q, Reach(m, table, p, a), Reach(m, table, q, b))
  {
    hide FdsOk, SlotsOf, StackOk, StackRep, SlotFree, ProcRep, Reach, Apart;
    ProcAt(img, m, w, t, i);
    ProcAt(img, m, w, u, j);
    DistinctSlots(img, w, t, i, u, j);
    SeparateFrames(m, w.stacks[t][i], ParentSlot(w.stacks[t], i), t,
                   w.stacks[u][j], ParentSlot(w.stacks[u], j), u, table, a, b);
  }
}
