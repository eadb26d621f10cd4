/** The kernel itself: scattered counters, indices and parent links, updated in place by the system calls. */
module Kernel {
  import opened Common
  import opened FileSystem
  import opened Descriptors
  import opened Commands
  import opened Paging
  import opened Processes
  import opened ProcessTable
  import opened Loader

  datatype ExecuteResult = TableFull | Refused | Started

  /** Where a write is sent: files refuse it. */
  datatype WriteResult = WriteFailed | ToTerminal | ToRtc | FileRefused

  const NO_SLOT: nat := 0xFFFF_FFFF

  class Kernel {
    const img: Image
    const pager: Pager
    var pcbs: seq<Pcb>
    var info: seq<TerminalInfo>
    var processNumber: nat
    /** Index of the record `current_pcb` points at; slot 0 stands for none. */
    var current: nat
    var currTerminal: nat
    var esp0: int
    /** What the loader has put in physical memory, over whatever else is there. */
    var memory: Memory
    /** The stacks this state stands for. */
    ghost var world: World

    ghost function State(): Machine
      reads this, pager
    {
      Machine(pcbs, info, processNumber, current, currTerminal, esp0, pager.at, pager.cr3, pager.dirs, pager.vidTable)
    }

    ghost predicate Represents(w: World)
      reads this, pager
    {
      pager.Valid() && Represented(img, State(), w)
    }

    ghost predicate Valid()
      reads this, pager
    {
      ShellLoadable(img) && Represents(world)
    }

    /** The state the boot code leaves before it starts the first shell. */
    constructor (img: Image, at: Tables, memory: Memory)
      requires ShellLoadable(img) && ValidTables(at)
      ensures Valid() && fresh(pager) && this.img == img && world == EMPTY_WORLD
      ensures pager.cr3 == 0 && esp0 == KERNEL_STACK && this.memory == memory
    {
      this.img := img;
      pager := new Pager(at);
      var fds := seq(FD_COUNT, _ => CLOSED);
      pcbs := seq(MAX_PROCESSES, _ => Pcb(fds, 0, 0, 0, 0, [], []));
      info := seq(TERMINALS, _ => TerminalInfo(0, 0));
      processNumber, current, currTerminal, esp0 := 0, 0, 0, KERNEL_STACK;
      this.memory := memory;
      world := EMPTY_WORLD;
      new;
      hide Core, Represented, Executable;
      BootRep(img, State());
    }

    // -------------------------------------------------------------- process table

    method FindFreePcb() returns (r: nat)
      requires |pcbs| == MAX_PROCESSES
      ensures r == NO_SLOT || 1 <= r < MAX_PROCESSES
      ensures r < MAX_PROCESSES ==> pcbs[r].programId == 0
      ensures forall k :: 1 <= k < MAX_PROCESSES && k < r ==> pcbs[k].programId != 0
    {
      for i := 1 to MAX_PROCESSES
        invariant forall k :: 1 <= k < i ==> pcbs[k].programId != 0
      {
        if pcbs[i].programId == 0 {
          return i;
        }
      }
      return NO_SLOT;
    }

    method PcbInit(slot: nat)
      requires Sized(State()) && 1 <= slot < MAX_PROCESSES && |pcbs[slot].fds| == FD_COUNT
      requires pcbs[slot].programId == 0 && forall k :: 1 <= k < slot ==> pcbs[k].programId != 0
      modifies this`pcbs, this`info, this`current
      ensures current == slot
      ensures pcbs == old(pcbs)[slot := PcbOf(
        Proc(slot, old(pcbs[slot].name), old(pcbs[slot].args), old(pcbs[slot].fds)[0 := STDIN][1 := STDOUT], false),
        0, currTerminal)]
      ensures info == old(info)[currTerminal := TerminalInfo(slot, Wrap32(old(info[currTerminal].count) + 1))]
    {
      pcbs := pcbs[slot := pcbs[slot].(fds := pcbs[slot].fds[0 := STDIN])];
      pcbs := pcbs[slot := pcbs[slot].(fds := pcbs[slot].fds[1 := STDOUT])];
      assert pcbs[slot].programId == 0 && forall k :: 1 <= k < slot ==> pcbs[k] == old(pcbs)[k];
      var id := FindFreePcb();
      assert id == slot;
      pcbs := pcbs[slot := pcbs[slot].(programId := id, terminal := currTerminal)];
      info := info[currTerminal := TerminalInfo(id, Wrap32(info[currTerminal].count + 1))];
      pcbs := pcbs[slot := pcbs[slot].(address := StackTop(id), parentId := 0)];
      current := slot;
    }

    method PcbDestroy(slot: nat)
      requires Sized(State()) && slot < MAX_PROCESSES && pcbs[slot].parentId < MAX_PROCESSES
      modifies this`pcbs, this`info, this`current, this`processNumber
      ensures processNumber == Wrap32(old(processNumber) - 1) && current == old(pcbs[slot].parentId)
      ensures info == old(info)[currTerminal :=
        TerminalInfo(old(pcbs[slot].parentId), Wrap32(old(info[currTerminal].count) - 1))]
      ensures pcbs == old(pcbs)[slot :=
        old(pcbs[slot]).(terminal := -1, programId := 0, parentId := 0, address := 0)]
    {
      processNumber := Wrap32(processNumber - 1);
      info := info[currTerminal := TerminalInfo(pcbs[slot].parentId, Wrap32(info[currTerminal].count - 1))];
      current := pcbs[slot].parentId;
      pcbs := pcbs[slot := pcbs[slot].(terminal := -1, programId := 0)];
      pcbs := pcbs[slot := pcbs[slot].(parentId := 0, address := 0)];
    }

    /** The bottom of the current terminal's chain of parents; the walk always ends there. */
    method GetTopPcb() returns (top: nat)
      requires Valid()
      ensures top == if Busy(world) then world.stacks[world.cur][0].slot else 0
    {
      hide Stacks, Counters, FreeSlots, StackOk, SlotsOf, OnChain;
      top := current;
      ghost var d: nat := |world.stacks[world.cur]|;
      ChainStart(img, State(), world);
      OnChainBounds(State(), world, top, d);
      while pcbs[top].parentId != 0
        invariant top < |pcbs| && OnChain(State(), world, top, d)
        decreases d
      {
        ChainStep(img, State(), world, top, d);
        top := pcbs[top].parentId;
        d := d - 1;
        OnChainBounds(State(), world, top, d);
      }
      ChainStep(img, State(), world, top, d);
    }

    // -------------------------------------------------------------- execute, halt, switch_terminal

    /** The first half of execute: take a slot, initialise it, link it to the caller and make it current. */
    method Allocate() returns (slot: nat)
      requires Valid() && Total(world) + 1 < MAX_PROCESSES
      modifies this`pcbs, this`info, this`current, this`processNumber
      ensures |old(pcbs)| == MAX_PROCESSES && slot == FreeSlot(world)
      ensures 1 <= slot < MAX_PROCESSES && slot !in Live(world)
      ensures Allocated(old(State()), State(), slot, old(pcbs[slot].name), old(pcbs[slot].args))
    {
      hide StackOk, SlotsOf, Stacks, FreeSlots, Counters, SlotFree, FreeSlot, Live;
      ghost var m := State();
      NumberOf(img, m, world);
      CallerId(img, m, world);
      processNumber := Wrap32(processNumber + 1);
      slot := FindFreePcb();
      SlotFound(img, m, world, slot);
      var caller := current;
      PcbInit(slot);
      assert caller != slot && pcbs[caller].programId == caller;
      pcbs := pcbs[slot := pcbs[slot].(parentId := pcbs[caller].programId)];
      if caller == 0 {
        pcbs := pcbs[slot := pcbs[slot].(parentId := 0)];
      }
      assert pcbs[slot]
        == PcbOf(Proc(slot, m.pcbs[slot].name, m.pcbs[slot].args, FRESH_FDS, false), caller, currTerminal);
    }

    /** Gives an allocated slot back. */
    method Abandon(slot: nat, ghost m: Machine, ghost name: seq<byte>, ghost args: seq<byte>)
      requires Represented(img, m, world) && 1 <= slot < MAX_PROCESSES && slot !in Live(world)
      requires Allocated(m, State(), slot, name, args) && Total(world) + 1 < MAX_PROCESSES
      modifies this`pcbs, this`info, this`current, this`processNumber
      ensures Represented(img, State(), world) && RolledBack(m, State())
    {
      hide StackOk, SlotsOf, Stacks, FreeSlots;
      NumberOf(img, m, world);
      PcbDestroy(slot);
      assert info == m.info;
      RefusedRep(img, m, State(), world, slot);
    }

    /** A byte stored at an address of the running program, through the loaded directory. Without a page there the
        processor faults; nothing is stored. */
    method Store(la: nat, b: byte, ghost slot: nat)
      requires pager.Valid() && 1 <= slot <= MAX_TASKS && pager.cr3 == slot - 1 && USER_BASE <= la < VIDMAP
      requires pager.dirs[slot - 1] == Directory(pager.at, slot - 1, false)
      modifies this`memory
      ensures StoredByte(old(memory), memory, slot, la, b)
    {
      hide Translate, Directory;
      TranslateExact(pager.at, slot, false, pager.table, pager.vidTable, la);
      var pa := Translate(pager.at, pager.dirs[pager.cr3], pager.table, pager.vidTable, la);
      if pa.Some? {
        var mem, a := memory, pa.value;
        memory := x => if x == a then b else mem(x);
      }
    }

    /** copy_file_image: the file goes to the program start through the loaded directory, byte by byte. */
    method CopyFileImage(name: seq<byte>, stack: nat -> byte, ghost slot: nat)
      requires ValidImage(img) && Lookup(img.entries, name).Some? && pager.Valid()
      requires 1 <= slot <= MAX_TASKS && pager.cr3 == slot - 1
      requires pager.dirs[slot - 1] == Directory(pager.at, slot - 1, false)
      modifies this`memory
      ensures Copied(old(memory), memory, slot, ImageBytes(img, name, stack))
    {
      hide Contents;
      var e := ReadDentryByName(img.entries, name);
      var ino := img.inodes[e.value.inode];
      var buf := new byte[ino.length](i requires 0 <= i < ino.length => stack(i));
      assert buf[..] == seq(ino.length, i requires 0 <= i => stack(i));
      var _ := ReadData(img.data, ino, buf, ino.length);
      var bytes := buf[..];
      assert bytes == ImageBytes(img, name, stack);
      for i := 0 to |bytes|
        invariant Copied(old(memory), memory, slot, bytes[..i])
      {
        ghost var mid := memory;
        Store(IMAGE_START + i, bytes[i], slot);
        CopiedMore(old(memory), mid, memory, slot, bytes, i);
      }
      assert bytes[..|bytes|] == bytes;
    }

    /** Gives an allocated slot its address space, loads its program and makes it run. */
    method Start(slot: nat, ghost m: Machine, ghost c: Command, stack: nat -> byte)
      requires Represented(img, m, world) && Total(world) + 1 < MAX_PROCESSES && pager.Valid()
      requires slot == FreeSlot(world) && 1 <= slot < MAX_PROCESSES && slot !in Live(world)
      requires Allocated(m, State(), slot, c.name, c.args) && ValidImage(img) && Lookup(img.entries, c.name).Some?
      modifies this`esp0, this`world, this`memory, pager
      ensures pager.Valid() && Represented(img, State(), world) && world == Launch(old(world), c)
      ensures Copied(old(memory), memory, slot, ImageBytes(img, c.name, stack))
    {
      hide StackOk, SlotsOf, Stacks, FreeSlots, Counters, Copied, ImageBytes, ValidImage;
      pager.NewTaskPd(pcbs[current].programId - 1);
      CopyFileImage(pcbs[current].name, stack, slot);
      esp0 := pcbs[slot].address;
      StartedRep(img, m, old(State()), State(), world, c);
      world := Launch(world, c);
    }

    /** Copies the command into the new record, and reads its two strings back. */
    method FillRecord(command: Option<seq<byte>>) returns (c: Option<Command>)
      requires !Overruns(command)
      ensures c == Parse(command)
    {
      var record := new byte[RECORD_SIZE];
      ghost var was := record[..];
      var r := CheckCommand(command, record, NAME_AT, ARGS_AT);
      if r != 0 {
        return None;
      }
      FieldsReadBack(was, 0, command.value);
      return Some(Command(Text(record[NAME_AT..]), Text(record[ARGS_AT..])));
    }

    /** Starts a command on the current terminal, or leaves the process world as it was. */
    method Execute(command: Option<seq<byte>>, garbage: seq<byte>, stack: nat -> byte) returns (r: ExecuteResult)
      requires Valid() && |garbage| == HEADER_SIZE && Fits(world, command)
      modifies this, pager
      ensures Valid()
      ensures r == if Total(old(world)) + 1 >= MAX_PROCESSES then TableFull
                   else if Accepted(img, command, garbage).None? then Refused else Started
      ensures world == if r.Started? then Launch(old(world), Accepted(img, command, garbage).value) else old(world)
      ensures !r.Started? ==> RolledBack(old(State()), State()) && memory == old(memory)
      ensures r.Started? ==>
        Copied(old(memory), memory, FreeSlot(old(world)),
               ImageBytes(img, Accepted(img, command, garbage).value.name, stack))
      ensures FramesKept(old(memory), memory, Live(old(world)))
    {
      hide StackOk, SlotsOf, Stacks, FreeSlots, Counters, Executable, Parse, Overruns, Copied, ImageBytes;
      ghost var m := State();
      NumberOf(img, m, world);
      if Wrap32(processNumber + 1) >= MAX_PROCESSES {
        return TableFull;
      }
      var slot := Allocate();
      var c := FillRecord(command);
      if c.None? {
        Abandon(slot, m, pcbs[slot].name, pcbs[slot].args);
        return Refused;
      }
      pcbs := pcbs[slot := pcbs[slot].(name := c.value.name, args := c.value.args)];
      var ok := CheckExecutable(img, c.value.name, garbage);
      if !ok {
        Abandon(slot, m, c.value.name, c.value.args);
        return Refused;
      }
      ExecutableFound(img, c.value.name, garbage);
      Start(slot, m, c.value, stack);
      CopySparesOthers(old(memory), memory, slot, ImageBytes(img, c.value.name, stack), Live(old(world)));
      return Started;
    }

    /** close: a descriptor that is open has an operation table to call and ends up entirely clear. */
    method CloseFd(fd: nat) returns (r: int)
      requires Sized(State()) && fd < FD_COUNT && TailOk(img, pcbs[current].fds)
      modifies this`pcbs
      ensures r == if fd >= FD_MIN && old(pcbs[current].fds[fd].flags) != 0 then 0 else -1
      ensures pcbs == old(pcbs)[current := old(pcbs[current]).(fds := CloseFds(old(pcbs[current].fds), fd))]
    {
      if pcbs[current].fds[fd].flags == 0 || fd < FD_MIN {
        assert fd >= FD_MIN ==> pcbs[current].fds[fd := CLOSED] == pcbs[current].fds;
        return -1;
      }
      var fds := pcbs[current].fds;
      fds := fds[fd := fds[fd].(flags := 0)];
      assert fds[fd].ops != NoOps;
      if fds[fd].ops == FileOps {
        fds := fds[fd := CLOSED];
      }
      fds := fds[fd := fds[fd].(ops := NoOps)];
      assert fds == pcbs[current].fds[fd := CLOSED];
      pcbs := pcbs[current := pcbs[current].(fds := fds)];
      return 0;
    }

    method CloseAll()
      requires Sized(State()) && TailOk(img, pcbs[current].fds)
      modifies this`pcbs
      ensures |pcbs| == MAX_PROCESSES && TailClosed(pcbs[current].fds)
      ensures pcbs == old(pcbs)[current := old(pcbs[current]).(fds := pcbs[current].fds)]
    {
      for i := 0 to FD_COUNT
        invariant |pcbs| == MAX_PROCESSES && TailOk(img, pcbs[current].fds)
        invariant pcbs == old(pcbs)[current := old(pcbs[current]).(fds := pcbs[current].fds)]
        invariant forall k :: FD_MIN <= k < i ==> pcbs[current].fds[k] == CLOSED
      {
        var _ := CloseFd(i);
      }
    }

    /** The end of the current process: descriptors closed, slot freed, parent current again. */
    method Retire()
      requires Valid()
      modifies this`pcbs, this`info, this`current, this`processNumber, this`world
      ensures Sized(State())
      ensures Busy(old(world)) ==> Core(img, State(), Pop(old(world))) && world == Pop(old(world))
      ensures !Busy(old(world)) ==> info[currTerminal].count == 0xFFFF_FFFF && current == 0
    {
      hide StackOk, SlotsOf, Stacks, FreeSlots, Counters, TailOk;
      ghost var m, w := State(), world;
      NumberOf(img, m, w);
      RetireReady(img, m, w);
      CloseAll();
      PcbDestroy(current);
      if Busy(w) {
        RetiredRep(img, m, State(), w);
        world := Pop(w);
      }
    }

    /** Loads the current process's directory and kernel stack. */
    method Resume()
      requires pager.Valid() && Sized(State())
      modifies this`esp0, pager`cr3
      ensures pager.Valid()
      ensures State() == old(State()).(esp0 := pcbs[current].address, cr3 := Wrap32(pcbs[current].programId - 1))
    {
      esp0 := pcbs[current].address;
      pager.LoadPageDirectory(Wrap32(pcbs[current].programId - 1));
    }

    /** Starts a shell on a terminal that has just become empty. */
    method StartShell(garbage: seq<byte>, stack: nat -> byte)
      requires Valid() && |garbage| == HEADER_SIZE
      modifies this, pager
      ensures Valid() && world == Launch(old(world), SHELL_COMMAND)
      ensures FramesKept(old(memory), memory, Live(old(world)))
    {
      hide StackOk, SlotsOf, Stacks, FreeSlots, Counters, Executable, Parse, Overruns;
      ShellAccepted(img, garbage);
      var _ := Execute(Some(SHELL), garbage, stack);
    }

    /** Ends a process that has a parent to go back to, or wraps the counters when there is no process. */
    method EndNested()
      requires Valid() && |world.stacks[world.cur]| != 1
      modifies this, pager
      ensures Busy(old(world)) ==> Valid() && world == Pop(old(world))
      ensures !Busy(old(world)) ==> forall w :: !Represents(w)
      ensures memory == old(memory)
    {
      hide StackOk, SlotsOf, Stacks, FreeSlots, Counters;
      Retire();
      ghost var m := State();
      Resume();
      if Busy(old(world)) {
        ResumedRep(img, m, State(), world);
      } else {
        forall v
          ensures !Represents(v)
        {
          NothingRepresented(img, State(), v);
        }
      }
    }

    /** Ends a terminal's last process and starts a shell in its place. */
    method EndLast(garbage: seq<byte>, stack: nat -> byte)
      requires Valid() && |world.stacks[world.cur]| == 1 && |garbage| == HEADER_SIZE
      modifies this, pager
      ensures Valid() && world == Launch(Pop(old(world)), SHELL_COMMAND)
      ensures FramesKept(old(memory), memory, Live(Pop(old(world))))
    {
      hide StackOk, SlotsOf, Stacks, FreeSlots, Counters, Launch;
      Retire();
      assert !Busy(world);
      StartShell(garbage, stack);
    }

    /** Ends the current process; a terminal's last process is replaced by a new shell. Without a current process
        the counters wrap and no stacks describe the result. */
    method Halt(garbage: seq<byte>, stack: nat -> byte)
      requires Valid() && |garbage| == HEADER_SIZE
      modifies this, pager
      ensures Busy(old(world)) ==> Valid() && world == AfterHalt(old(world))
      ensures Busy(old(world)) ==> FramesKept(old(memory), memory, Live(Pop(old(world))))
      ensures !Busy(old(world)) ==> forall w :: !Represents(w)
    {
      hide StackOk, SlotsOf, Stacks, FreeSlots, Counters, Launch, Live, FramesKept, Executable;
      NumberOf(img, State(), world);
      KeptAll(memory, if Busy(world) then Live(Pop(world)) else {});
      if Wrap32(info[currTerminal].count - 1) <= 0 {
        EndLast(garbage, stack);
      } else {
        EndNested();
      }
    }

    /** Brings another terminal forward; an empty one gets a shell when a process may still start. */
    method SwitchTerminal(t: nat, garbage: seq<byte>, stack: nat -> byte)
      requires Valid() && t < TERMINALS && |garbage| == HEADER_SIZE
      modifies this, pager
      ensures Valid() && world == AfterSwitch(old(world), t)
      ensures FramesKept(old(memory), memory, Live(old(world)))
    {
      hide StackOk, SlotsOf, Stacks, FreeSlots, Counters, Launch, Live, FramesKept, Executable;
      NumberOf(img, State(), world);
      KeptAll(memory, Live(world));
      SameLive(world, t);
      if t == currTerminal {
        return;
      }
      SwitchedRep(img, State(), State().(terminal := t, current := info[t].top), world, t);
      currTerminal := t;
      current := info[t].top;
      world := world.(cur := t);
      ghost var m := State();
      CallerId(img, m, world);
      if pcbs[current].programId == 0 {
        StartShell(garbage, stack);
      } else {
        Resume();
        ResumedRep(img, m, State(), world);
      }
    }

    // -------------------------------------------------------------- descriptors

    method FindFreeFd() returns (r: nat)
      requires Sized(State()) && |pcbs[current].fds| == FD_COUNT
      ensures r == FirstFree(pcbs[current].fds, FD_MIN)
    {
      for i := FD_MIN to FD_COUNT
        invariant FirstFree(pcbs[current].fds, FD_MIN) == FirstFree(pcbs[current].fds, i)
      {
        if pcbs[current].fds[i].ops == NoOps {
          return i;
        }
      }
      return FD_COUNT;
    }

    /** Stores a descriptor table for the running process. */
    method SetFds(fds: seq<Desc>)
      requires Valid() && Busy(world) && FdsOk(img, fds)
      modifies this`pcbs, this`world
      ensures Valid() && world == SetTop(old(world), Top(old(world)).(fds := fds))
    {
      hide SlotsOf, StackOk, Stacks, FreeSlots, FdsOk;
      FdsChangedRep(img, State(), State().(pcbs := pcbs[current := pcbs[current].(fds := fds)]), world, fds);
      pcbs := pcbs[current := pcbs[current].(fds := fds)];
      world := SetTop(world, Top(world).(fds := fds));
    }

    /** Opens a file on the first free descriptor; -1 when there is no such file or no free descriptor. */
    method Open(name: seq<byte>) returns (r: int)
      requires Valid() && Busy(world)
      modifies this`pcbs, this`world
      ensures Valid() && world == SetTop(old(world), Top(old(world)).(fds := OpenFds(img, Top(old(world)).fds, name)))
      ensures r == if Lookup(img.entries, name).None? || FirstFree(Top(old(world)).fds, FD_MIN) == FD_COUNT
                   then -1 else FirstFree(Top(old(world)).fds, FD_MIN)
      ensures |Top(world).fds| == FD_COUNT
      ensures r >= 0 ==> 2 <= r < FD_COUNT && OpenedOn(img, Lookup(img.entries, name).value, Top(world).fds[r])
      ensures forall k :: 0 <= k < FD_COUNT && k != r ==> Top(world).fds[k] == Top(old(world)).fds[k]
    {
      hide SlotsOf, StackOk, Stacks, FreeSlots, FdOk, OpenedOn;
      TopRep(img, State(), world);
      var fds := pcbs[current].fds;
      TopTable(img, world);
      OpenOpens(img, fds, name);
      OpenKeepsFdsOk(img, fds, name);
      var e := ReadDentryByName(img.entries, name);
      var fd := FindFreeFd();
      r := -1;
      if e.Some? && fd != FD_COUNT {
        fds := fds[fd := OpenedDesc(img, e.value, fds[fd])];
        r := fd;
      }
      SetFds(fds);
    }

    method Close(fd: nat) returns (r: int)
      requires Valid() && Busy(world) && fd < FD_COUNT
      modifies this`pcbs, this`world
      ensures Valid() && world == SetTop(old(world), Top(old(world)).(fds := CloseFds(Top(old(world)).fds, fd)))
      ensures r == if fd >= FD_MIN && Top(old(world)).fds[fd] != CLOSED then 0 else -1
      ensures forall k :: 0 <= k < FD_COUNT ==>
        Top(world).fds[k] == if k == fd && fd >= 2 then CLOSED else Top(old(world)).fds[k]
    {
      hide SlotsOf, StackOk, Stacks, FreeSlots, FdOk, Executable;
      TopRep(img, State(), world);
      CloseKeepsFdsOk(img, Top(world).fds, fd);
      ghost var m, fds := State(), CloseFds(pcbs[current].fds, fd);
      r := CloseFd(fd);
      FdsChangedRep(img, m, State(), world, fds);
      world := SetTop(world, Top(world).(fds := fds));
    }

    /** One descriptor's share of a read. */
    method ServeRead(fd: nat, d: Desc, n: nat) returns (r: ReadResult, d': Desc)
      requires ValidImage(img) && fd != 1 && (if fd == 0 then d == STDIN else FdOk(img, d))
      ensures d' == AfterRead(img, d, n) && r == ReadOutcome(img, fd, d, n)
      ensures fd >= 2 && IsDirectory(img, d) ==>
        if d.position < |img.entries| then
          d' == d.(position := d.position + 1) && r == EntryName(EntryText(img.entries[d.position]))
        else d' == d && r == DirectoryEnd
    {
      d' := d;
      if d.flags == 0 {
        r := ReadFailed;
      } else if d.ops == StdinOps {
        r := FromTerminal;
      } else if d.ops == RtcOps {
        r := FromRtc;
      } else if d.inodePtr == 0 {
        r := DirectoryEnd;
        if d.position < |img.entries| {
          var text := CopyEntryText(img.entries[d.position]);
          r := EntryName(text);
          d' := d.(position := d.position + 1);
        }
      } else {
        var ino := img.inodes[InodeIndex(img.base, d.inodePtr)];
        var buf := new byte[n];
        var count, position := ReadDataOne(img.data, ino, d.position, buf, n);
        r := Bytes(buf[..count]);
        d' := d.(position := position);
      }
    }

    /** Serves a read from whatever the descriptor is open on. */
    method Read(fd: nat, n: nat) returns (r: ReadResult)
      requires Valid() && Busy(world) && fd < FD_COUNT
      modifies this`pcbs, this`world
      ensures Valid() && world == SetTop(old(world), Top(old(world)).(fds := ReadFds(img, Top(old(world)).fds, fd, n)))
      ensures r == ReadOutcome(img, fd, Top(old(world)).fds[fd], n)
      ensures |Top(world).fds| == FD_COUNT
      ensures IsDirectory(img, Top(old(world)).fds[fd]) && fd >= 2 ==>
        var p := Top(old(world)).fds[fd].position;
        Top(world).fds[fd].position == if p < |img.entries| then p + 1 else p
      ensures forall k :: 0 <= k < FD_COUNT && k != fd ==> Top(world).fds[k] == Top(old(world)).fds[k]
    {
      hide SlotsOf, StackOk, Stacks, FreeSlots, Counters, FdOk, IsFile, IsDirectory, AfterRead;
      TopRep(img, State(), world);
      TopTable(img, world);
      ReadKeepsFdsOk(img, pcbs[current].fds, fd, n);
      var fds := pcbs[current].fds;
      if fd == 1 {
        r := ReadFailed;
      } else {
        var d;
        r, d := ServeRead(fd, fds[fd], n);
        fds := fds[fd := d];
      }
      SetFds(fds);
    }

    /** The table a write is sent through, found by program id, is the running process's own. */
    method Write(fd: nat) returns (r: WriteResult)
      requires Valid() && Busy(world) && fd < FD_COUNT
      ensures
        var d := Top(world).fds[fd];
        && (r.WriteFailed? <==> fd == 0 || d == CLOSED) && (r.ToTerminal? <==> fd == 1)
        && (r.ToRtc? <==> d.ops == RtcOps) && (r.FileRefused? <==> IsFile(img, d) || IsDirectory(img, d))
    {
      hide SlotsOf, StackOk, Stacks, FreeSlots;
      TopRep(img, State(), world);
      TopTable(img, world);
      if pcbs[current].fds[fd].flags == 0 || fd == 0 {
        return WriteFailed;
      }
      var ops := pcbs[pcbs[current].programId].fds[fd].ops;
      match ops
      case StdoutOps => return ToTerminal;
      case RtcOps => return ToRtc;
      case FileOps => return FileRefused;
    }

    /** Maps the video page for the running process, and stores its address through the result pointer, when that lies
        in the program's page. */
    method Vidmap(ptr: nat) returns (r: int, stored: Option<nat>)
      requires Valid() && Busy(world)
      modifies this`world, pager
      ensures Valid() && r == if USER_BASE <= ptr <= USER_BASE + PAGE_4MB then 0 else -1
      ensures world == if r == 0 then SetTop(old(world), Top(old(world)).(vid := true)) else old(world)
      ensures stored == (if r == 0 then Some(VIDMAP) else None)
      ensures r == 0 ==> forall la: nat :: VIDMAP <= la < VIDMAP + PAGE_4KB ==>
        Reach(State(), pager.table, Top(world).slot, la) == Some(VIDEO_MEM + (la - VIDMAP))
    {
      hide SlotsOf, StackOk, Stacks, FreeSlots, FdsOk;
      if ptr < USER_BASE || ptr > USER_BASE + PAGE_4MB {
        return -1, None;
      }
      ghost var m := State();
      TopRep(img, m, world);
      pager.CreateVidmap(pcbs[current].programId - 1, Top(world).vid);
      VidmapRep(img, m, State(), world);
      world := SetTop(world, Top(world).(vid := true));
      VideoReached(img, State(), world, pager.table);
      return 0, Some(VIDMAP);
    }

    // -------------------------------------------------------------- whole runs

    /** One step; `garbage` and `stack` are what the kernel stack holds should it start a shell. */
    method Perform(step: Step, garbage: seq<byte>, stack: nat -> byte)
      requires Valid() && Enabled(world, step) && |garbage| == HEADER_SIZE
      modifies this, pager
      ensures Valid() && world == Next(img, old(world), step)
      ensures FramesKept(old(memory), memory, Spared(old(world), step))
    {
      hide SlotsOf, StackOk, Stacks, FreeSlots, Counters, Executable, Parse, FdsOk, Live, FrameKept;
      NumberOf(img, State(), world);
      KeptAll(memory, Spared(world, step));
      match step
      case Execute(command, header) => var _ := Execute(command, header, stack);
      case Halt => Halt(garbage, stack);
      case Switch(t) => SwitchTerminal(t, garbage, stack);
      case Open(name) => var _ := Open(name);
      case Close(fd) => var _ := Close(fd);
      case Read(fd, n) => var _ := Read(fd, n);
      case Vidmap => var _, _ := Vidmap(USER_BASE);
    }

    /** Every run, from any valid state: the counters and links describe exactly the stacks the run should give, and no
        program that is loaded touches the frame of a process that lives through the run. */
    method RunAll(steps: seq<Step>, garbage: nat -> seq<byte>, stack: nat -> nat -> byte)
      requires Valid() && Feasible(img, world, steps) && forall i :: |garbage(i)| == HEADER_SIZE
      modifies this, pager
      ensures Valid() && world == Run(img, old(world), steps)
      ensures FramesKept(old(memory), memory, Lasting(img, old(world), steps))
    {
      hide SlotsOf, StackOk, Stacks, FreeSlots, Counters, Next, Live, FrameKept;
      ghost var all := Lasting(img, world, steps);
      KeptAll(memory, all);
      for i := 0 to |steps|
        invariant Valid() && Feasible(img, world, steps[i..])
        invariant Run(img, world, steps[i..]) == Run(img, old(world), steps)
        invariant all <= Lasting(img, world, steps[i..]) && FramesKept(old(memory), memory, all)
      {
        assert steps[i..][1..] == steps[i + 1..];
        ghost var mem := memory;
        Perform(steps[i], garbage(i), stack(i));
        KeptTwice(old(memory), mem, memory, all);
      }
    }
  }

  /** From boot, over every run of system calls and terminal switches. */
  method EveryRun(
    img: Image, at: Tables, memory: Memory, steps: seq<Step>, garbage: nat -> seq<byte>, stack: nat -> nat -> byte)
    returns (k: Kernel)
    requires ShellLoadable(img) && ValidTables(at) && forall i :: |garbage(i)| == HEADER_SIZE
    requires (EmptyWellFormed(img); Feasible(img, EMPTY_WORLD, steps))
    ensures k.Valid() && k.img == img && (EmptyWellFormed(img); k.world == Run(img, EMPTY_WORLD, steps))
    ensures Rooted(k.world) && IdleOnlyWhenFull(k.world)
  {
    hide StackOk, SlotsOf, Stacks, FreeSlots, Counters, Next;
    EmptyWellFormed(img);
    k := new Kernel(img, at, memory);
    RunRooted(img, EMPTY_WORLD, steps);
    RunIdle(img, EMPTY_WORLD, steps);
    k.RunAll(steps, garbage, stack);
  }
}
