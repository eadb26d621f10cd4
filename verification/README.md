# A Dafny model of the kudOS teaching kernel

This project models the stateful parts of a small x86 teaching kernel and two of its user programs, and proves what
they keep over every run. Check everything with `dafny verify dfyconfig.toml`.

| file | what it models |
|---|---|
| `Processes.dfy` | the abstract world: one stack of processes per terminal, and what each system call does to it |
| `ProcessTable.dfy` | the concrete table (seven slots, counters, parent links, page directories) as a value, and when it represents a world |
| `Kernel.dfy` | the kernel as a class: `execute`, `halt`, `switch_terminal`, `open`, `close`, `read`, `write`, `vidmap`, updating fields in place |
| `Paging.dfy` | page directories and tables, built by loops, and the 32-bit page walk of section 4.3 of the Intel SDM, Volume 3A |
| `Commands.dfy` | splitting a command line into the two fields of a process record, recognising an executable |
| `Overrun.dfy` | a run on which an overlong command line destroys another process's record |
| `Loader.dfy` | physical memory, where a program's file goes, and what each process then sees |
| `FileSystem.dfy`, `Descriptors.dfy` | directory lookup, the two block readers, file descriptors and interleaved reads |
| `Streams.dfy` | what one process reads through one descriptor over a whole run of the system |
| `Paper.dfy`, `Console.dfy` | terminals as endless sheets of paper, and the one screen, save areas, cursors and line editor that show them |
| `Grep.dfy` | the sliding-buffer line search against a per-line specification |
| `Blink.dfy` | the fish program's linked list in a fixed pool, and its timer |
| `Numbers.dfy` | `itoa`, `strrev` and zero-padded hexadecimal |
| `Memory.dfy` | `memcpy`, `memset` and `memmove` as alignment-split loops |
| `Rtc.dfy` | the two-flag handshake between `rtc_read` and the interrupt handler, as an interleaved protocol |

## How it is put together

The kernel keeps no stacks: only counters, indices and parent links scattered over three structures. `Core` in
`ProcessTable.dfy` says when such a machine describes three stacks of processes; `Represented` adds that the running
process has its own directory in CR3 and its own kernel stack in the TSS. Every method of the class is proved to keep
this and to change the stacks as `Next` in `Processes.dfy` says, and what holds over whole runs (isolation, rollback,
termination of parent walks, shells at the bottom, what a caller finds when its child is gone) is then proved about
stacks or about any represented machine. The screen, the list and the line search follow the same pattern: a
representation predicate, methods with loops that keep it, and theorems about the simple thing represented.

Memory, the disk and buffers are arbitrary: file data is a function of block number and offset, and uninitialised
buffers are parameters. Unsigned counters wrap at 32 bits where the code lets them (`Wrap32`), countdowns at 16 bits.

## Where the code and its intention part

Each of these is stated as an exact condition.

- A `halt` (or Ctrl-C) with no process on the current terminal wraps the terminal's count: the state then describes no
  stacks. Such a terminal is reachable: six processes on one terminal, then a switch to an empty one
  (`Kernel.Kernel.Halt`, `Processes.IdleTerminalReachable`).
- `read_data` loses the last block of a file whose length is a multiple of 4096, and more when the remainder is 1; it
  is exact for other lengths (`FileSystem.ReadDataExactIff`).
- `read_data_one` steps to the next block by adding one to the block number, so it delivers the file exactly when the
  blocks it touches are numbered consecutively (`FileSystem.ReadDataOneExactIff`).
- `execute` copies the command into two 128-byte fields without looking at their size, before it knows whether the
  command can be started. The other fields and records survive exactly when the first word has at most 258 bytes and
  the arguments at most 130 (`Commands.SurvivesIff`); a line typed at a terminal always does (`Commands.TypedCommandsFit`).
  A longer one, on a short run from boot, wipes out the descriptors of a process on another terminal
  (`Overrun.OverrunReachable`, `Overrun.OverrunDestroysRecord`). What is stated over runs is stated for commands that
  do not overrun.
- `scroll` re-anchors a typed line to row 23 after any scroll. Over any sequence of keys that is right exactly when the
  line starts at row 22 or above or every version of it ends on the row of its start or the next
  (`Console.Console.TypeKeys`); otherwise the anchor is lost for good, as on a prompt of 40 characters on row 23
  followed by 120 characters (`Console.AnchorLost`).
- `grep` cuts a line longer than 1024 characters into pieces, and compares the first character of the search string
  through a signed type, so that an empty string and one that starts above 127 are never found. It prints exactly the
  lines that contain the string if and only if each of those has at most 1024 characters and the string is not empty
  and starts below 128 (`Grep.StreamingExactIff`; for which strings, and for which texts, this is always so:
  `Grep.ExactStringsIff`, `Grep.ExactTextsIff`, `Grep.PlainTextsIff`; an input on which it fails: `Grep.HighByteLost`).
- `memcpy` with a destination that starts inside the source is exact only for one aligned word
  (`Memory.MemcpyExactIff`); `memmove` is always exact.
- A directory read ignores the byte count, and delivers the file type as a 33rd character after a name that fills its
  field (`FileSystem.CopyEntryText`).
- Adding a blinker at location 0 leaves its pool entry marked free; the next add links it to itself
  (`Blink.AddKeepsListIff`, `Blink.ZeroLocationLoops`).
- Blink lengths mean what they say exactly when they lie in 1..32768; any other length lasts one tick
  (`Blink.PlainLengthsIff`).
- An interrupt between the last two statements of `rtc_read` leaves the sync flag set, and the next read does not wait
  (`Rtc.ReadWaitsIff`, `Rtc.LeftoverReachable`).
- `execute` answers 0 both when the table is full and when a program ran; the model tells the two apart.

## Assumptions

- The image holds a `shell` that can be loaded (`ShellLoadable`), its directory names existing inodes and has file
  types below 256, and it lies below 4 GB. The null `current_pcb` of the boot code is slot 0.
- A process record is laid out as a 32-bit compiler does: 416 bytes, with the command name at 153, the arguments at 281
  and the terminal tag at 412.
- In runs, a command line that gets as far as being copied does not overrun the record of the new process (`Fits`).
- A step is one whole system call or terminal switch. `open`, `close`, `read`, `write` and `vidmap` are taken only with
  a process on the current terminal; descriptors are 0..7, byte counts are not negative, user buffers are not null.
- `page_table` and `page_table_vidmap` lie at distinct page-aligned addresses.

## Model

| member | source | states |
|---|---|---|
| Processes.SlotAvailable | student-distrib/pcb.c:144-153 | pigeonhole: at most six processes exist, and while fewer than six do the first free slot is a real one no process sits in |
| Processes.LiveCount | student-distrib/pcb.h:14-38 | the number of live slots is the number of stacked processes, all in 1..6 |
| Processes.NextKeeps | student-distrib/syscall.c:26-135 | every system call and terminal switch, but for an execute that overruns its record, keeps slots distinct, in range and descriptor tables sound |
| Processes.ShellAccepted | student-distrib/terminal.c:39-66 | asking for a shell is never refused for its command line or its file, and never overruns |
| Processes.RunRooted | student-distrib/syscall.c:33-41 | over every run a terminal that has a process never becomes empty and its bottom process is always named shell |
| Processes.HaltRelaunches | student-distrib/syscall.c:33-41 | the relaunch inside a terminal's last halt always finds a free slot and leaves exactly a fresh shell there |
| Processes.RunIdle | student-distrib/terminal.c:59-66 | over every run only a full process table leaves the current terminal without a process |
| Processes.IdleTerminalReachable | student-distrib/terminal.c:59-66 | six processes and a switch do lead to a current terminal without a process |
| Processes.BelowUntouched | student-distrib/syscall.c:55-64 | while a terminal stays above depth d its lowest d processes (slots, names, descriptors, mappings) are untouched by anything any terminal does |
| Processes.BalancedRunRestores | student-distrib/syscall.c:85-129 | a process that starts a child finds its whole stack, itself included, unchanged when the terminal is back at its depth, whatever ran elsewhere |
| Processes.ExecutePushes | student-distrib/syscall.c:85-153 | an accepted line pushes one process named by its word, with the rest as arguments, only descriptors 0 and 1 open, no video page, in an unused slot, and changes nothing else |
| Processes.NotAccepted | student-distrib/syscall.c:337-348 | no command, a leading space and a word that names no file are refused |
| Processes.RefusedChangesNothing | student-distrib/syscall.c:85-129 | a refused line, or one that finds six processes, changes nothing |
| Processes.HaltPops | student-distrib/syscall.c:55-64 | a halt above the bottom leaves exactly the stack below the top, and all else alone |
| Processes.SwitchBringsForward | student-distrib/terminal.c:37-77 | a switch makes its terminal current and changes no stack but an empty one it finds there, which gets a shell exactly when fewer than six processes run |
| Processes.OwnRecordSteps | student-distrib/syscall.c:263-323 | close clears exactly the named descriptor and vidmap exactly marks the running process |
| ProcessTable.TerminalChain | student-distrib/pcb.c:144-182 | following parent_id from a terminal's top visits exactly num_process slots, the terminal's own, and stops: no cycle, under any step bound |
| ProcessTable.ChainsPartitionSlots | student-distrib/pcb.c:13-43 | a slot has a program id exactly when it is on the chain of the terminal it is tagged with, and it is on no other chain |
| ProcessTable.ProgramIds | student-distrib/pcb.c:53-78 | program_id of slot i is i while a process sits there and 0 otherwise |
| ProcessTable.StackTops | student-distrib/pcb.c:192-195 | the first kernel stack ends at 8 MB, each other one 8 KB below |
| ProcessTable.ParentLink | student-distrib/syscall.c:104-112 | each process's parent link is the slot below it, 0 exactly for the bottom one |
| ProcessTable.CorePush | student-distrib/pcb.c:13-43 | initialising a free slot, linking it and counting it represents a push on the current stack |
| ProcessTable.CorePop | student-distrib/pcb.c:53-78 | destroying the current slot represents a pop, with every other slot and directory untouched |
| ProcessTable.RefusedRep | student-distrib/syscall.c:117-129 | undoing an allocation restores count, stack, current process, registers and every live slot |
| ProcessTable.NothingRepresented | student-distrib/pcb.c:56-59 | a wrapped terminal count describes no stacks whatsoever |
| ProcessTable.EveryProcessMapped | student-distrib/paging.c:52-98 | every address of every live process leads exactly to: itself below 8 MB, its own 4 MB frame at 128 MB, the video page if it asked for it, nowhere else |
| ProcessTable.Isolation | student-distrib/pcb.c:192-195 | two live processes never reach one physical byte through their program regions, never the kernel's 8 MB, and their kernel stacks are disjoint and inside the kernel page |
| Kernel.Kernel.constructor | student-distrib/kernel.c:158-194 | the boot state represents three empty stacks |
| Kernel.Kernel.FindFreePcb | student-distrib/pcb.c:144-153 | the first slot from 1 with program id 0, or 0xFFFFFFFF when all are taken |
| Kernel.Kernel.PcbInit | student-distrib/pcb.c:13-43 | the slot's whole new record, the terminal's new top and count, and the current slot |
| Kernel.Kernel.PcbDestroy | student-distrib/pcb.c:53-78 | the whole state after a slot is freed, with wrapping counters |
| Kernel.Kernel.GetTopPcb | student-distrib/pcb.c:176-182 | the walk up the parent links terminates at the bottom process of the current terminal |
| Kernel.Kernel.Allocate | student-distrib/syscall.c:90-115 | the slot taken is the first free one; its record starts with only descriptors 0 and 1 open although the rest is never cleared |
| Kernel.Kernel.Abandon | student-distrib/syscall.c:117-129 | a refused execute has rolled back every counter, index, register and live slot |
| Kernel.Kernel.Store | student-distrib/paging.c:52-75 | a byte stored at a program address lands in the frame of the process whose directory is loaded, nowhere else |
| Kernel.Kernel.CopyFileImage | student-distrib/filesystem.c:187-197 | all of physical memory after a load: the file's bytes as the reader left them, from 0x8048000 of the new process to the end of its frame, and nothing else changed |
| Kernel.Kernel.Start | student-distrib/syscall.c:131-153 | the new process has its own rebuilt directory in CR3, its own kernel stack in the TSS and its file in its frame |
| Kernel.Kernel.FillRecord | student-distrib/syscall.c:117-121 | the strings stored for a command that does not overrun are the ones its split gives |
| Kernel.Kernel.Execute | student-distrib/syscall.c:81-185 | for a command that does not overrun: exactly when the table is full, the command refused or the process started; pushes the process and loads its file, or rolls back; no live process's frame changes |
| Kernel.Kernel.CloseFd | student-distrib/syscall.c:263-287 | an open descriptor has a table to call and ends entirely clear; 0, 1 and closed ones are refused |
| Kernel.Kernel.CloseAll | student-distrib/syscall.c:55-58 | descriptors 2..7 of the current slot are all clear afterwards, nothing else changes |
| Kernel.Kernel.Retire | student-distrib/syscall.c:55-61 | ends the current process as a pop of its stack; with no process the terminal's count wraps |
| Kernel.Kernel.Halt | student-distrib/syscall.c:26-70 | with a process on the terminal, pops it or replaces a last one by a shell, leaving the frames of all others alone; without one the result represents no stacks |
| Kernel.Kernel.SwitchTerminal | student-distrib/terminal.c:37-77 | current slot, CR3 and TSS follow the terminal brought forward; an empty one gets a shell if there is room |
| Kernel.Kernel.FindFreeFd | student-distrib/pcb.c:108-120 | the first descriptor from 2 with no operation table |
| Kernel.Kernel.Open | student-distrib/filesystem.c:282-318 | -1 exactly when there is no such file or no free descriptor; otherwise the first free one, at least 2, is a file at position 0 on the entry's own inode, the directory at position 0 or the clock, by the entry's type, and no other descriptor changes |
| Kernel.Kernel.Close | student-distrib/syscall.c:263-287 | the named descriptor, from 2 on, is clear afterwards and no other changes |
| Kernel.Kernel.Read | student-distrib/syscall.c:196-212 | where a read is served from and what it delivers; a directory's position moves on by one until the end, and no other descriptor changes |
| Kernel.Kernel.ServeRead | student-distrib/filesystem.c:207-260 | one descriptor's share: failed, terminal, clock, the file's bytes, or the text of the directory entry it stands at, which it then leaves |
| Kernel.Kernel.Write | student-distrib/syscall.c:224-239 | the table found through program_id is the running process's own, and a table is there whenever the flag is set |
| Kernel.Kernel.Vidmap | student-distrib/syscall.c:314-323 | maps the video page for the running process, and stores its address 0x084B8000, exactly when the pointer lies in its program page; every address of that page then leads to video memory |
| Kernel.Kernel.RunAll | student-distrib/syscall.c:26-135 | after every feasible run the counters and links represent exactly the stacks the run should give, and no program loaded on the way touched the frame of a process that lives through the run |
| Kernel.EveryRun | student-distrib/kernel.c:256-258 | the same from boot, with shells at the bottom of every stack and no idle terminal unless the table is full |
| Paging.TranslateExact | student-distrib/paging.c:52-98 | a task's directory translates every 32-bit address to exactly what it should, and the rest to nothing |
| Paging.Pager.constructor | student-distrib/paging.c:16-42 | the boot directory and the identity table |
| Paging.Pager.NewTaskPd | student-distrib/paging.c:52-75 | one directory is rebuilt entirely, dropping an old video mapping, the others are untouched, CR3 holds it |
| Paging.Pager.CreateVidmap | student-distrib/paging.c:85-98 | the shared table maps only page 0xB8, and one directory gains its entry |
| Commands.CheckCommand | student-distrib/syscall.c:334-371 | the whole of memory after the first word and the text behind the spaces were copied to two addresses, whatever lies there; refused, with nothing written, when missing or starting with a space |
| Commands.FieldsReadBack | student-distrib/pcb.h:30-31 | what the two fields of any record then read back as: a word of 128 bytes or more runs on into the arguments |
| Commands.StoredNameLooksUp | student-distrib/syscall.c:125-125 | such a word still names the same file |
| Commands.SurvivesIff | student-distrib/syscall.c:352-368 | whatever memory held, the record's other fields, its terminal tag and all other records survive the copy if and only if the command does not overrun |
| Commands.TypedCommandsFit | student-distrib/terminal.c:153-161 | a command of at most the 128 bytes a terminal line can hold never overruns |
| Overrun.OverrunReachable | student-distrib/syscall.c:81-121 | five steps from boot lead to a process about to execute into slot 2 with a process of another terminal in slot 3 |
| Overrun.OverrunDestroysRecord | student-distrib/syscall.c:363-368 | a 202-byte command line copied there overwrites every byte of the other process's first descriptor |
| Commands.ParseInvertsJoin | student-distrib/syscall.c:349-370 | splitting undoes joining a word and its arguments with any number of spaces |
| Commands.CheckExecutable | student-distrib/syscall.c:407-436 | accepted exactly when found, not inode 0, and with a valid header; a file shorter than a header is judged by stack contents |
| Commands.HeaderAcceptedIff | student-distrib/syscall.c:422-431 | a header is accepted exactly when it starts with 0x7F and ELF and the entry address at offset 24, low byte first, lies in the program page |
| Commands.ExecutableIff | student-distrib/syscall.c:407-436 | the same for a found file of at least 52 bytes, which must not be inode 0 |
| Commands.ShellSpelled | student-distrib/terminal.c:39-66 | the name of the shell |
| FileSystem.Strncmp | student-distrib/lib.c:489-507 | zero exactly when both strings look the same within n bytes, otherwise the signed difference at the first mismatch |
| FileSystem.ReadDentryByName | student-distrib/filesystem.c:52-72 | the entry at the greatest index whose field holds the same string as the name, byte for byte up to a NUL or 32 bytes; none exactly when no field does |
| FileSystem.NamedIsSameText | student-distrib/filesystem.c:59-59 | an entry is found under a name exactly when both hold the same string |
| FileSystem.PlainNamed | student-distrib/filesystem.c:59-59 | an entry whose field is a padded with zeros is named by b if and only if a equals b, for all NUL-free a and b of at most 32 bytes |
| FileSystem.LookupPlain | student-distrib/filesystem.c:52-72 | in a directory of such names, a lookup yields the last entry with that name, and none exactly when there is none |
| FileSystem.LookupLongName | student-distrib/filesystem.c:59-59 | of a longer name only the first 32 bytes count |
| FileSystem.InodeIndexInvertsPtr | student-distrib/filesystem.c:149-149 | recovering the inode index from inode_ptr inverts what open stored, even across address wrap-around |
| FileSystem.ReadDataOne | student-distrib/filesystem.c:144-177 | how many bytes arrive, which, the new position, and that the rest of the buffer is untouched |
| FileSystem.ReadDataOneExactIff | student-distrib/filesystem.c:159-174 | whatever the disk holds, the file's own bytes are delivered exactly when the touched blocks are consecutive |
| FileSystem.ReadData | student-distrib/filesystem.c:86-134 | the buffer after a load at offset 0 for every length, the refusal of longer ones, and the returned multiple of 4096 |
| FileSystem.ReadDataExactIff | student-distrib/filesystem.c:102-130 | whatever disk and buffer held, the load is the file's prefix exactly for lengths 0 or with remainder at least 2 modulo 4096, or a one-byte coincidence |
| FileSystem.LoadedInFull | student-distrib/filesystem.c:102-130 | what every load leaves, exact or not: the file's prefix, one block less when the last block would be missing or hold one byte, and the old buffer behind it |
| FileSystem.ReadersAgree | student-distrib/filesystem.c:86-177 | on consecutive blocks the two readers deliver the same bytes |
| FileSystem.CopyEntryText | student-distrib/filesystem.c:207-222 | what a directory read delivers for an entry, also when its name has no terminator inside its field |
| FileSystem.PlainEntryText | student-distrib/filesystem.c:213-214 | a name of at most 31 bytes is delivered as it stands, one of 32 with the type behind it unless that is 0 |
| Loader.ImageIsFile | student-distrib/filesystem.c:187-197 | the whole file is what is loaded, whatever the stack held, for every length the reader gets right |
| Loader.ImageSeen | student-distrib/filesystem.c:193-195 | through its own directory the new process finds byte k of its file at 0x8048000 + k |
| Loader.OthersSeeNoChange | student-distrib/paging.c:52-75 | through their own directories all other live processes find every byte of their program region as it was |
| Loader.CopySparesOthers | student-distrib/filesystem.c:193-195 | a load into a slot changes no byte of any other slot's frame |
| Loader.VideoReached | student-distrib/paging.c:85-98 | a process that asked for the video page reaches video memory through it |
| Streams.OthersLeaveIt | student-distrib/syscall.c:26-287 | a step of any other process leaves a process's record alone |
| Streams.StepMoves | student-distrib/syscall.c:196-287 | one step moves a descriptor by what its own process reads through it, and not otherwise |
| Streams.RunReads | student-distrib/filesystem.c:144-177 | over every run in which a process neither ends nor closes the descriptor, what it receives through it joins up to its file's next min(requested, rest) bytes, whatever it and all others do in between |
| Streams.OpenThenRead | student-distrib/filesystem.c:282-318 | a process that opens a name and then reads through the descriptor receives the prefix of that entry's own file, over every run |
| Streams.RunLists | student-distrib/filesystem.c:207-222 | over every run in which a process neither ends nor closes it, successive reads of an open directory deliver its names one by one, as they stand, and then the end for ever |
| Streams.OpenThenList | student-distrib/filesystem.c:304-310 | from the first name on, for a directory just opened |
| Descriptors.OpenKeepsFdsOk | student-distrib/filesystem.c:282-318 | after open every descriptor 2..7 is entirely clear or open with a non-null table and a usable inode address |
| Descriptors.OpenOpens | student-distrib/filesystem.c:282-318 | the first free descriptor holds the found entry: its own inode at position 0, the directory, or the clock; nothing else changes |
| Descriptors.ReadOutcomes | student-distrib/syscall.c:196-212 | each kind of descriptor is read from its own source, and only that |
| Descriptors.InterleavedListing | student-distrib/filesystem.c:207-222 | however reads on eight descriptors interleave, those of a directory deliver its names in order and then the end for ever |
| Descriptors.InterleavedReads | student-distrib/filesystem.c:144-177 | however reads on eight descriptors interleave, one descriptor's chunks join up to its file's next min(requested, rest) bytes |
| Descriptors.ServedPosition | student-distrib/filesystem.c:167-167 | and its position moves by exactly that, whatever the others did |
| Descriptors.ReadsAfterEndAreEmpty | student-distrib/filesystem.c:159-176 | past the end every further read is empty, for ever |
| Paper.SheetsIndependent | student-distrib/terminal.c:37-57 | for every interleaving of writes and switches each terminal's sheet holds its own output and nothing else |
| Paper.FeedDraws | student-distrib/terminal.c:221-259 | printing text overwrites exactly the cells ahead of the cursor and adds rows only when the cursor leaves the sheet |
| Paper.GlyphBytes | student-distrib/terminal.c:244-244 | a video word holds the character in its low byte and the attribute in its high byte |
| Paper.NewlineGoesDown | student-distrib/terminal.c:134-143 | a newline goes to the start of the next row, from any column |
| Paper.Layout | student-distrib/terminal.c:221-259 | where every character of any lines of any length ends up, written at any cursor; nothing else changes, rows are added only for the cursor, and that is behind the last line |
| Paper.ShortLayout | student-distrib/terminal.c:221-259 | lines shorter than 80, from the start of a row: row i below holds line i and then what it held or blanks |
| Paper.CursorLeft | student-distrib/terminal.c:231-234 | byte 8 moves the cursor left by one, down to column 0, and changes nothing else |
| Paper.ControlIgnored | student-distrib/terminal.c:221-259 | the other control characters do nothing |
| Paper.KeptRowExactIff | student-distrib/terminal.c:119-121 | the row kept for a redrawn line is its true row exactly when it stays within two rows or starts at row 22 or above |
| Paper.RowsAddedIsGrowth | student-distrib/terminal.c:269-281 | how many rows a redraw adds |
| Paper.RedrawHolds | student-distrib/terminal.c:269-281 | redrawing over a line that was no longer leaves exactly the new text, blanks after it, and the rest untouched |
| Paper.DriftExactIff | student-distrib/terminal.c:119-121 | the kept place of a redrawn line only ever moves down, and moves exactly when the line passes its second row and starts below row 22 |
| Paper.TypedText | student-distrib/terminal.c:153-161 | typing adds a text at the end of the line up to 128 characters, and the rest is lost |
| Paper.EraseUndoes | student-distrib/terminal.c:291-300 | an erase undoes a character that found room |
| Paper.EditedSurvives | student-distrib/terminal.c:153-300 | for every sequence of keys the edited line is the characters that found room and were matched by no later erase, in typing order |
| Paper.SurvivingUnique | student-distrib/terminal.c:153-300 | which fixes the line |
| Console.Console.constructor | student-distrib/terminal.c:421-458 | the cleared console shows three blank sheets |
| Console.Console.Scroll | student-distrib/terminal.c:88-124 | the screen moves up one row exactly when the cursor has left it, with the cursor and line anchor this leaves |
| Console.Console.NewLine | student-distrib/terminal.c:134-143 | the cursor goes to the start of the next row, or of the last one after a scroll; the sheet takes a newline, the line is anchored at the cursor, the buffer is empty |
| Console.Console.PutGlyph | student-distrib/terminal.c:236-258 | a printable character always lands inside video memory: the early returns never fire |
| Console.Console.PutCh | student-distrib/terminal.c:221-259 | the 80x25 screen shows the last 25 rows of the sheet after one more byte, and where the cursor goes, for every byte; cursor and line row stay on the screen |
| Console.Console.TerminalWrite | student-distrib/terminal.c:312-331 | the front sheet takes the whole text, its lines laid out row by row, no other terminal changes, the next line is anchored at the cursor |
| Console.Console.SwitchTerminal | student-distrib/terminal.c:37-57 | no sheet or cursor changes: each comes back exactly as it was left |
| Console.Console.RunAll | student-distrib/terminal.c:37-57 | one screen and three save areas refine three independent sheets over every run |
| Console.Console.AddToBuffer | student-distrib/terminal.c:153-161 | the typed line gains the character unless it already holds 128 |
| Console.Console.PrintBuffer | student-distrib/terminal.c:269-281 | the whole line is drawn from its anchor, the row that is kept for it, and how far that moves the anchor |
| Console.Console.Redraw | student-distrib/terminal.c:269-281 | the line is shown, blank after its end, and correctly anchored exactly under the two-row condition |
| Console.Console.Backspace | student-distrib/terminal.c:291-300 | the line is its old self without the last character, if any, and a line shown as edited stays so, its old last cell blank |
| Console.Console.EraseKey | student-distrib/keyboard.c:116-120 | the same once the line has been redrawn over the blank |
| Console.Console.TypeKey | student-distrib/keyboard.c:116-166 | one key or backspace edits the line; a line shown as edited stays so exactly when it starts at row 22 or above or stays within two rows, and otherwise its anchor moves down |
| Console.Console.TypeKeys | student-distrib/keyboard.c:116-166 | any sequence of printable keys and backspaces leaves the abstractly edited line in the buffer, and on the screen, through any scrolling, if and only if it starts at row 22 or above or every version stayed within two rows |
| Console.LowPrompt | student-distrib/terminal.c:312-331 | a prompt of 40 characters on row 23, correctly anchored |
| Console.AnchorLost | student-distrib/terminal.c:119-121 | 120 characters typed after it leave the anchor below the line's start |
| Console.Console.TerminalRead | student-distrib/terminal.c:342-362 | the first min(count, length) characters of the finished line and one newline |
| Console.Console.ReadEditedLine | student-distrib/keyboard.c:103-120 | from an empty buffer, what is read back is the first count of the characters no later erase matched, in typing order, and one newline |
| Grep.StrncmpAt | syscalls/ece391support.c:35-46 | zero exactly when the search string occurs at that place |
| Grep.SearchLine | syscalls/ece391grep.c:42-51 | found exactly when the line contains the string, which is not empty and does not start above 127 |
| Grep.MoveDown | syscalls/ece391support.c:14-17 | the overlapping copy brings the unfinished line to the front |
| Grep.ScanBuffer | syscalls/ece391grep.c:27-57 | one buffer's pass prints exactly the matching lines it finishes; printed and remaining text add up |
| Grep.DoOneFile | syscalls/ece391grep.c:20-60 | for every NUL-free file and string, exactly the matching pieces in order and once each; the lines containing the string if and only if each of them fits and the string can be found; it terminates |
| Grep.LinesTogether | syscalls/ece391grep.c:30-32 | a text's lines put together again are the text |
| Grep.LinesApart | syscalls/ece391grep.c:30-32 | and lines put together are found again |
| Grep.PiecesHoldLines | syscalls/ece391grep.c:27-57 | the pieces searched hold every byte of the lines, in order |
| Grep.StreamingExactIff | syscalls/ece391grep.c:20-60 | what is printed is the lines containing the string, in order, if and only if each of those has at most 1024 characters and the string is not empty and starts below 128 |
| Grep.ExactStringsIff | syscalls/ece391grep.c:43-43 | the strings found exactly in every text of short lines: those that start below 128, and those with a newline or longer than 1024 that no such line contains |
| Grep.ExactTextsIff | syscalls/ece391grep.c:25-40 | the texts searched exactly for every string that starts below 128: no overlong line, but for lines in which no such string can start |
| Grep.PlainTextsIff | syscalls/ece391grep.c:25-43 | the texts searched exactly for every non-empty string: lines of at most 1024 characters, all below 128 |
| Grep.HighByteLost | syscalls/ece391grep.c:43-43 | a one-character line and string, above 127, for which nothing is printed |
| Blink.FullMeansAllListed | fish/fish.c:161-171 | no free entry is left exactly when all entries are listed |
| Blink.AddKeepsListIff | fish/blink.S:131-162 | an add leaves an acyclic list of exactly the used entries exactly when its location is not 0 |
| Blink.ZeroLocationLoops | fish/blink.S:159-162 | after an add at location 0 the next add links an entry to itself |
| Blink.RemoveKeepsList | fish/blink.S:206-221 | unlinking an entry keeps the others in order and frees exactly it |
| Blink.Blinkers.constructor | fish/fish.c:21-28 | the cleared pool is the empty list |
| Blink.Blinkers.Malloc | fish/fish.c:161-171 | the first entry marked free, if any |
| Blink.Blinkers.Add | fish/blink.S:105-184 | success condition and the whole new pool, head and screen |
| Blink.Blinkers.AddListed | fish/blink.S:105-184 | with location 1..1999 an add fails only when all 2000 entries are listed, otherwise the list gains it in front |
| Blink.Blinkers.FindHelper | fish/blink.S:351-379 | the walk terminates at the first entry with that location, or at the end |
| Blink.Blinkers.Unlink | fish/blink.S:206-222 | the walk to the predecessor terminates, bypasses the entry and clears it |
| Blink.Blinkers.Remove | fish/blink.S:187-237 | deletes exactly the first match, keeps the order of the rest |
| Blink.Blinkers.RunAll | fish/blink.S:49-237 | every run of adds, removes and ticks leaves list and screen as on a plain list of at most 2000 entries |
| Blink.TimerClosedForm | fish/blink.S:64-86 | the entry's state after any number of ticks, in closed form, for all 16-bit lengths |
| Blink.OnExactlyWhen | fish/blink.S:64-86 | on exactly when k modulo the cycle falls in the on-time |
| Blink.PlainLengthsIff | fish/blink.S:64-66 | on exactly when k mod (on + off) < on, for every k, if and only if both lengths lie in 1..32768 |
| Blink.Blinkers.TickEntry | fish/blink.S:64-86 | one entry's tick and redraw |
| Blink.Blinkers.Tasklet | fish/blink.S:49-99 | the walk terminates; each listed entry ticks once, in list order, and is redrawn when it flips; nothing else changes |
| Blink.LoneRun | fish/blink.S:49-237 | over every run that adds and removes nothing at its location, a lone entry has ticked once per tick and its cell shows its current character |
| Blink.BlinkerShows | fish/blink.S:49-184 | an entry added where there is none shows, over every such run, its on character exactly when the number of ticks modulo its cycle falls in the on-time |
| Numbers.TextFaithful | student-distrib/lib.c:213-246 | for every 32-bit value and radix 2..36 the text consists of digits of the radix, parses back, has no leading zero and at most 32 digits, 8 in radix 16 |
| Numbers.NumeralUnique | student-distrib/lib.c:216-216 | among texts of digits of the radix, value and length fix the text |
| Numbers.DigitsSpelled | student-distrib/lib.c:216-216 | digit d is character d of the lookup string |
| Numbers.Strrev | student-distrib/lib.c:255-271 | the string is reversed in place, nothing else changes |
| Numbers.WriteDigits | student-distrib/lib.c:234-242 | the digits, least significant first, and a NUL |
| Numbers.Itoa | student-distrib/lib.c:213-246 | the buffer holds a numeral that parses to the value, and a NUL |
| Numbers.PaddedHex | student-distrib/lib.c:87-106 | exactly eight hexadecimal digits with the same value |
| Memory.Memcpy | student-distrib/lib.c:400-441 | all of memory after leading bytes, words and trailing bytes were copied; an exact copy unless the destination starts inside the source |
| Memory.MemcpyExactIff | student-distrib/lib.c:400-441 | whatever memory holds, the copy is exact if and only if the destination does not start inside the source or it is one aligned word |
| Memory.Memmove | student-distrib/lib.c:452-474 | exact for every overlap, nothing else changes |
| Memory.Memset | student-distrib/lib.c:299-336 | every byte of the region becomes the low byte of the value, and no other byte changes |
| Rtc.ReadsHaveTheirOwnInterrupts | student-distrib/rtc.c:44-118 | over every interleaving each finished read was released by an interrupt of its own, so reads never exceed interrupts |
| Rtc.NextInterruptReleases | student-distrib/rtc.c:108-118 | a waiting reader finishes within three of its own statements after the next interrupt, whatever else interrupts |
| Rtc.ReadWaitsIff | student-distrib/rtc.c:110-115 | a read waits for an interrupt exactly when the sync flag is clear as it starts |
| Rtc.LeftoverIff | student-distrib/rtc.c:52-115 | over every interleaving the sync flag is set outside a read exactly when an interrupt came between the last two statements of the read before |
| Rtc.LeftoverReachable | student-distrib/rtc.c:114-115 | an interrupt between the last two statements leaves the flag set |

## Left out

- Kernel.Kernel.Execute: stack switching, saved stack pointers, `iret` and the jump back into the parent are abstracted to which process is current; console messages are not modelled.
- Kernel.Kernel.Open: with no process on the current terminal the code would use slot 0's descriptors; the model covers calls from a running process. The same holds for Close, Read, Write and Vidmap.
- Kernel.Kernel.Read: bytes are delivered as a value; that they go to the caller's buffer in its own frame is not modelled.
- FileSystem.ReadData: only offset 0, the one offset callers use.
- Grep.DoOneFile: files with NUL bytes, and a newline in the uninitialised byte after the buffer, which would end a line early; the file name prefix and the directory loop of `main`.
- Console.Console.TypeKeys: non-printing keys, which put NULs in the buffer; modifier keys and Ctrl-L.
- Blink.Blinkers.AddListed: `mp1_ioctl_sync` and `mp1_ioctl_find`, which do not change the list.
- Console.Console.SwitchTerminal: save areas are values copied whole; the cursor registers of the display adapter are not modelled.
- The copy of the process record beside the kernel stack: it is never read back.
- Kernel.Kernel.CopyFileImage: the file-sized buffer on the 8 KB kernel stack, and the page fault of a file that does not fit its frame, are not modelled.
- Port I/O, interrupt controller, timer, descriptor tables, boot printout and keyboard tables: hardware plumbing and small finite tables.
- Scheduling: the timer handler's body is commented out.
- Signed and unsigned decimal formats of `printf`: they add only easy members to `itoa`.
