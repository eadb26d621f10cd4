/** Where a program's file ends up: physical memory, the frames of processes, and what each of them sees. */
module Loader {
  import opened Common
  import opened FileSystem
  import opened Paging
  import opened Commands
  import opened Processes
  import opened ProcessTable

  /** Where programs start, in every process's address space. */
  const IMAGE_START: nat := 0x8048000

  /** Physical memory. */
  type Memory = int -> byte

  function UserFrame(slot: nat): int {
    0x800000 + (slot - 1) * PAGE_4MB
  }

  ghost predicate InFrame(slot: nat, x: int) {
    UserFrame(slot) <= x < UserFrame(slot) + PAGE_4MB
  }

  /** What the loader copies for a file: what it read into a buffer on the stack, over what the stack held. */
  ghost function ImageBytes(img: Image, name: seq<byte>, stack: nat -> byte): (r: seq<byte>)
    requires ValidImage(img)
    ensures Lookup(img.entries, name).Some? ==> |r| == img.inodes[Lookup(img.entries, name).value.inode].length
  {
    var e := Lookup(img.entries, name);
    if e.None? then []
    else
      var ino := img.inodes[e.value.inode];
      FileSystem.Loaded(img.data, ino, ino.length, seq(ino.length, i requires 0 <= i => stack(i)))
  }

  /** The whole file arrives, whatever the stack held, when its length is one the reader gets right. */
  lemma ImageIsFile(img: Image, name: seq<byte>, stack: nat -> byte)
    requires ValidImage(img) && Lookup(img.entries, name).Some?
    ensures
      var ino := img.inodes[Lookup(img.entries, name).value.inode];
      LoadableLength(ino, ino.length) ==> ImageBytes(img, name, stack) == Contents(img.data, ino)
  {
    var ino := img.inodes[Lookup(img.entries, name).value.inode];
    if LoadableLength(ino, ino.length) {
      LoadedIsContents(img.data, ino, ino.length, seq(ino.length, i requires 0 <= i => stack(i)));
      assert Contents(img.data, ino)[..ino.length] == Contents(img.data, ino);
    }
  }

  /** Memory byte x once the bytes lie in a slot's frame, from the program start to the end of the frame. */
  ghost function CopiedByte(mem: Memory, slot: nat, bytes: seq<byte>, x: int): byte {
    var start := UserFrame(slot) + (IMAGE_START - USER_BASE);
    if start <= x < start + |bytes| && InFrame(slot, x) then bytes[x - start] else mem(x)
  }

  ghost predicate Copied(mem: Memory, mem': Memory, slot: nat, bytes: seq<byte>) {
    forall x :: mem'(x) == CopiedByte(mem, slot, bytes, x)
  }

  /** One byte stored at a program address of a slot; past the end of its frame there is no page to store it in. */
  ghost predicate StoredByte(mem: Memory, mem': Memory, slot: nat, la: nat, b: byte) {
    forall x :: mem'(x) ==
      if USER_BASE <= la < USER_BASE + PAGE_4MB && x == UserFrame(slot) + (la - USER_BASE) then b else mem(x)
  }

  lemma CopiedMore(mem: Memory, mid: Memory, mem': Memory, slot: nat, bytes: seq<byte>, i: nat)
    requires i < |bytes| && Copied(mem, mid, slot, bytes[..i]) && StoredByte(mid, mem', slot, IMAGE_START + i, bytes[i])
    ensures Copied(mem, mem', slot, bytes[..i + 1])
  {
    forall x
      ensures mem'(x) == CopiedByte(mem, slot, bytes[..i + 1], x)
    {
      assert mid(x) == CopiedByte(mem, slot, bytes[..i], x);
    }
  }

  ghost predicate FrameKept(mem: Memory, mem': Memory, slot: nat) {
    forall x :: InFrame(slot, x) ==> mem'(x) == mem(x)
  }

  ghost predicate FramesKept(mem: Memory, mem': Memory, slots: set<nat>) {
    forall s <- slots :: FrameKept(mem, mem', s)
  }

  lemma CopySparesOthers(mem: Memory, mem': Memory, slot: nat, bytes: seq<byte>, slots: set<nat>)
    requires Copied(mem, mem', slot, bytes) && slot !in slots
    ensures FramesKept(mem, mem', slots)
  {
    forall s <- slots
      ensures FrameKept(mem, mem', s)
    {
      forall x | InFrame(s, x)
        ensures mem'(x) == mem(x)
      {
        assert mem'(x) == CopiedByte(mem, slot, bytes, x);
        assert s != slot;
      }
    }
  }

  lemma KeptAll(mem: Memory, slots: set<nat>)
    ensures FramesKept(mem, mem, slots)
  {
  }

  lemma KeptTwice(mem: Memory, mid: Memory, mem': Memory, slots: set<nat>)
    requires FramesKept(mem, mid, slots) && FramesKept(mid, mem', slots)
    ensures FramesKept(mem, mem', slots)
  {
    forall s <- slots
      ensures FrameKept(mem, mem', s)
    {
      assert FrameKept(mem, mid, s) && FrameKept(mid, mem', s);
    }
  }

  /** A process that was loaded finds its file at the program start. */
  lemma ImageSeen(
    img: Image, m: Machine, w: World, table: seq<int>, mem: Memory, mem': Memory, bytes: seq<byte>, k: nat)
    requires Core(img, m, w) && Busy(w) && TablesSound(m, table)
    requires Copied(mem, mem', Top(w).slot, bytes) && k < |bytes| && IMAGE_START + k < USER_BASE + PAGE_4MB
    ensures
      var a := Reach(m, table, Top(w).slot, IMAGE_START + k);
      a.Some? && mem'(a.value) == bytes[k]
  {
    hide Core, Reach;
    EveryProcessMapped(img, m, w, w.cur, |w.stacks[w.cur]| - 1, table, IMAGE_START + k);
    var x := UserFrame(Top(w).slot) + (IMAGE_START - USER_BASE) + k;
    assert mem'(x) == CopiedByte(mem, Top(w).slot, bytes, x);
  }

  /** No other live process sees any change at any of its program addresses. */
  lemma OthersSeeNoChange(
    img: Image, m: Machine, w: World, t: nat, i: nat, table: seq<int>, mem: Memory, mem': Memory, bytes: seq<byte>,
    la: nat)
    requires Core(img, m, w) && Busy(w) && TablesSound(m, table) && Copied(mem, mem', Top(w).slot, bytes)
    requires t < TERMINALS && i < |w.stacks[t]| && (t, i) != (w.cur, |w.stacks[w.cur]| - 1)
    requires USER_BASE <= la < USER_BASE + PAGE_4MB
    ensures
      var a := Reach(m, table, w.stacks[t][i].slot, la);
      a.Some? && mem'(a.value) == mem(a.value)
  {
    hide Stacks, Counters, FreeSlots, StackOk, SlotsOf, Reach;
    var s := w.stacks[t][i].slot;
    EveryProcessMapped(img, m, w, t, i, table, la);
    DistinctSlots(img, w, t, i, w.cur, |w.stacks[w.cur]| - 1);
    var x := UserFrame(s) + (la - USER_BASE);
    assert mem'(x) == CopiedByte(mem, Top(w).slot, bytes, x);
  }

  /** A process that has asked for the video page reaches video memory through it. */
  lemma VideoReached(img: Image, m: Machine, w: World, table: seq<int>)
    requires Core(img, m, w) && Busy(w) && Top(w).vid && TablesSound(m, table)
    ensures forall la: nat :: VIDMAP <= la < VIDMAP + PAGE_4KB ==>
      Reach(m, table, Top(w).slot, la) == Some(VIDEO_MEM + (la - VIDMAP))
  {
    hide Core, Reach;
    forall la: nat | VIDMAP <= la < VIDMAP + PAGE_4KB
      ensures Reach(m, table, Top(w).slot, la) == Some(VIDEO_MEM + (la - VIDMAP))
    {
      EveryProcessMapped(img, m, w, w.cur, |w.stacks[w.cur]| - 1, table, la);
    }
  }

  /** The slots whose processes live through the whole run. */
  ghost function Lasting(img: Image, w: World, steps: seq<Step>): set<nat>
    requires ValidImage(img) && WellFormed(img, w) && Feasible(img, w, steps)
    decreases steps
  {
    if steps == [] then Live(w)
    else NextKeeps(img, w, steps[0]); Spared(w, steps[0]) * Lasting(img, Next(img, w, steps[0]), steps[1..])
  }

  /** The slots whose processes a step does not end. */
  ghost function Spared(w: World, step: Step): set<nat>
    requires Shape(w)
  {
    if step.Halt? && Busy(w) then Live(Pop(w)) else Live(w)
  }
}
