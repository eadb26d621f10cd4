/** Page directories and page tables, and the address translation they define. */
module Paging {
  import opened Common

  const ENTRIES: nat := 1024
  const MAX_TASKS: nat := 6
  const PAGE_4KB: nat := 0x1000
  const PAGE_4MB: nat := 0x400000
  const VIDEO_MEM: nat := 0xB8000
  const VIDMAP: nat := 0x084B8000
  const ABSENT: nat := 0x6
  const PRESENT: nat := 0x7
  const KERNEL_PAGE: nat := 0x00400183
  const USER_PAGE: nat := 0x00800087
  const VIDEO_OFFSET: nat := 0
  const KERNEL_OFFSET: nat := 1
  const PROGRAM_OFFSET: nat := 0x20
  const VIDMAP_OFFSET: nat := 0x21
  const USER_BASE: nat := 0x8000000

  /** Entry j of the table behind the first four megabytes. */
  function TableEntry(j: nat): int { j * PAGE_4KB + PRESENT }

  /** Entry j of the table shared by every vidmap caller: only the page numbered 0xB8 is present. */
  function VidmapEntry(j: nat): int {
    VIDEO_MEM + if j * PAGE_4KB == VIDEO_MEM then PRESENT else ABSENT
  }

  /** Entry i of the directory of the task with index p; `at` holds where the two page tables lie. */
  function DirectoryEntry(at: Tables, p: nat, vid: bool, i: nat): int {
    if i == VIDEO_OFFSET then at.identity + PRESENT
    else if i == KERNEL_OFFSET then KERNEL_PAGE
    else if i == PROGRAM_OFFSET then USER_PAGE + p * PAGE_4MB
    else if i == VIDMAP_OFFSET && vid then at.vidmap + PRESENT
    else ABSENT
  }

  function Directory(at: Tables, p: nat, vid: bool): (d: seq<int>)
    ensures |d| == ENTRIES
  {
    seq(ENTRIES, i requires 0 <= i => DirectoryEntry(at, p, vid, i))
  }

  /** Addresses the linker gives `page_table` and `page_table_vidmap`. */
  datatype Tables = Tables(identity: nat, vidmap: nat)

  ghost predicate ValidTables(at: Tables) {
    && at.identity % PAGE_4KB == 0 && at.vidmap % PAGE_4KB == 0
    && at.identity != at.vidmap && at.identity < TWO_32 && at.vidmap < TWO_32
  }

  // ---------------------------------------------------------------- 32-bit translation

  predicate Present(entry: int) { entry % 2 == 1 }
  predicate Large(entry: int) { entry / 0x80 % 2 == 1 }
  function Frame(entry: int): int { entry / PAGE_4KB * PAGE_4KB }

  /** The page walk of section 4.3 of the Intel SDM, Volume 3A, over a directory and the two tables. */
  function Translate(at: Tables, dir: seq<int>, table: seq<int>, vidTable: seq<int>, la: nat): Option<int>
    requires |dir| == |table| == |vidTable| == ENTRIES && la < TWO_32
  {
    var pde := dir[la / PAGE_4MB];
    if !Present(pde) then None
    else if Large(pde) then Some(pde / PAGE_4MB * PAGE_4MB + la % PAGE_4MB)
    else
      var entries := if Frame(pde) == at.identity then table else vidTable;
      if Frame(pde) != at.identity && Frame(pde) != at.vidmap then None
      else
        var pte := entries[la / PAGE_4KB % ENTRIES];
        if !Present(pte) then None else Some(Frame(pte) + la % PAGE_4KB)
  }

  /** Where process p's address la should lead. */
  ghost function Expected(p: nat, vid: bool, la: nat): Option<int> {
    if la < 0x800000 then Some(la)
    else if USER_BASE <= la < USER_BASE + PAGE_4MB then Some(0x800000 + (p - 1) * PAGE_4MB + (la - USER_BASE))
    else if vid && VIDMAP <= la < VIDMAP + PAGE_4KB then Some(VIDEO_MEM + (la - VIDMAP))
    else None
  }

  ghost predicate IsPageTable(table: seq<int>) {
    |table| == ENTRIES && forall j :: 0 <= j < ENTRIES ==> table[j] == TableEntry(j)
  }

  ghost predicate IsVidmapTable(table: seq<int>) {
    |table| == ENTRIES && forall j :: 0 <= j < ENTRIES ==> table[j] == VidmapEntry(j)
  }

  lemma IdentityMapped(at: Tables, dir: seq<int>, table: seq<int>, vidTable: seq<int>, la: nat)
    requires ValidTables(at) && |dir| == |vidTable| == ENTRIES && IsPageTable(table)
    requires la < PAGE_4MB && dir[0] == at.identity + PRESENT
    ensures Translate(at, dir, table, vidTable, la) == Some(la)
  {
    AlignedEntry(at.identity);
    var j := la / PAGE_4KB;
    AlignedEntry(j * PAGE_4KB);
    assert table[j] == TableEntry(j);
  }

  lemma VideoMapped(at: Tables, dir: seq<int>, table: seq<int>, vidTable: seq<int>, la: nat)
    requires ValidTables(at) && |dir| == |table| == ENTRIES && IsVidmapTable(vidTable)
    requires la < TWO_32 && la / PAGE_4MB == VIDMAP_OFFSET && dir[VIDMAP_OFFSET] == at.vidmap + PRESENT
    ensures Translate(at, dir, table, vidTable, la)
         == if VIDMAP <= la < VIDMAP + PAGE_4KB then Some(VIDEO_MEM + (la - VIDMAP)) else None
  {
    AlignedEntry(at.vidmap);
    var j := la / PAGE_4KB - VIDMAP_OFFSET * ENTRIES;
    assert la / PAGE_4KB % ENTRIES == j;
    assert vidTable[j] == VidmapEntry(j);
  }

  lemma LargeMapped(at: Tables, dir: seq<int>, table: seq<int>, vidTable: seq<int>, la: nat, f: nat, low: nat)
    requires |dir| == |table| == |vidTable| == ENTRIES && la < TWO_32
    requires low == 0x183 || low == 0x87
    requires dir[la / PAGE_4MB] == f * PAGE_4MB + low
    ensures Translate(at, dir, table, vidTable, la) == Some(f * PAGE_4MB + la % PAGE_4MB)
  {
    var pde := f * 0x400000 + low;
    Divide(pde, f, 0x400000, low);
    if low == 0x183 {
      Divide(pde, f * 0x200000 + 0xC1, 2, 1);
      Divide(pde, f * 0x8000 + 3, 0x80, 3);
      Divide(f * 0x8000 + 3, f * 0x4000 + 1, 2, 1);
    } else {
      Divide(pde, f * 0x200000 + 0x43, 2, 1);
      Divide(pde, f * 0x8000 + 1, 0x80, 7);
      Divide(f * 0x8000 + 1, f * 0x4000, 2, 1);
    }
  }

  /** A task's directory maps exactly the kernel, its own four megabytes and, once asked for, the video page. */
  lemma TranslateExact(at: Tables, p: nat, vid: bool, table: seq<int>, vidTable: seq<int>, la: nat)
    requires ValidTables(at) && 1 <= p <= MAX_TASKS && la < TWO_32
    requires IsPageTable(table) && |vidTable| == ENTRIES && (vid ==> IsVidmapTable(vidTable))
    ensures Translate(at, Directory(at, p - 1, vid), table, vidTable, la) == Expected(p, vid, la)
  {
    var i := la / PAGE_4MB;
    var dir := Directory(at, p - 1, vid);
    assert dir[i] == DirectoryEntry(at, p - 1, vid, i);
    if i == VIDEO_OFFSET {
      IdentityMapped(at, dir, table, vidTable, la);
    } else if i == KERNEL_OFFSET {
      LargeMapped(at, dir, table, vidTable, la, 1, 0x183);
    } else if i == PROGRAM_OFFSET {
      LargeMapped(at, dir, table, vidTable, la, p + 1, 0x87);
    } else if i == VIDMAP_OFFSET && vid {
      VideoMapped(at, dir, table, vidTable, la);
    }
  }

  lemma AlignedEntry(frame: nat)
    requires frame % PAGE_4KB == 0
    ensures Frame(frame + PRESENT) == frame && Present(frame + PRESENT) && !Large(frame + PRESENT)
  {
    var q := frame / 0x1000;
    var entry := frame + 7;
    assert frame == q * 0x1000;
    Divide(entry, q, 0x1000, 7);
    Divide(entry, q * 0x800 + 3, 2, 1);
    Divide(entry, q * 0x20, 0x80, 7);
    Divide(q * 0x20, q * 0x10, 2, 0);
  }

  // ---------------------------------------------------------------- the tables themselves

  class Pager {
    const at: Tables
    var table: seq<int>
    var vidTable: seq<int>
    var dirs: seq<seq<int>>
    /** Index of the directory CR3 holds. */
    var cr3: nat

    ghost predicate Valid()
      reads this
    {
      && ValidTables(at) && IsPageTable(table) && |vidTable| == ENTRIES
      && |dirs| == MAX_TASKS
      && forall p :: 0 <= p < MAX_TASKS ==> |dirs[p]| == ENTRIES
    }

    /** paging_init: identity map the first four megabytes and load directory 0. */
    constructor (at: Tables)
      requires ValidTables(at)
      ensures Valid() && cr3 == 0 && this.at == at
      ensures forall i :: 0 <= i < ENTRIES ==>
        dirs[0][i] == if i == PROGRAM_OFFSET then ABSENT else DirectoryEntry(at, 0, false, i)
    {
      this.at := at;
      var zero := seq(ENTRIES, _ => 0);
      var dir := zero;
      for i := 0 to ENTRIES
        invariant |dir| == ENTRIES && forall k :: 0 <= k < i ==> dir[k] == ABSENT
      {
        dir := dir[i := ABSENT];
      }
      var tab := zero;
      for j := 0 to ENTRIES
        invariant |tab| == ENTRIES && forall k :: 0 <= k < j ==> tab[k] == TableEntry(k)
      {
        tab := tab[j := j * PAGE_4KB + PRESENT];
      }
      dir := dir[VIDEO_OFFSET := at.identity + PRESENT];
      dir := dir[KERNEL_OFFSET := KERNEL_PAGE];
      table, vidTable := tab, zero;
      dirs := [dir, zero, zero, zero, zero, zero];
      cr3 := 0;
    }

    /** new_task_pd: rebuild one directory from nothing and load it. */
    method NewTaskPd(p: nat)
      requires Valid() && p < MAX_TASKS
      modifies this`dirs, this`cr3
      ensures Valid() && cr3 == p
      ensures dirs == old(dirs)[p := Directory(at, p, false)]
    {
      for i := 0 to ENTRIES
        invariant |dirs| == MAX_TASKS && |dirs[p]| == ENTRIES
        invariant forall q :: 0 <= q < MAX_TASKS && q != p ==> dirs[q] == old(dirs)[q]
        invariant forall k :: 0 <= k < i ==> dirs[p][k] == ABSENT
      {
        dirs := dirs[p := dirs[p][i := ABSENT]];
      }
      dirs := dirs[p := dirs[p][VIDEO_OFFSET := at.identity + PRESENT]];
      dirs := dirs[p := dirs[p][KERNEL_OFFSET := KERNEL_PAGE]];
      dirs := dirs[p := dirs[p][PROGRAM_OFFSET := USER_PAGE + p * PAGE_4MB]];
      assert dirs[p] == Directory(at, p, false);
      cr3 := p;
    }

    /** create_vidmap for the task with index p. */
    method CreateVidmap(p: nat, ghost vid: bool)
      requires Valid() && p < MAX_TASKS && dirs[p] == Directory(at, p, vid)
      modifies this`dirs, this`vidTable
      ensures Valid() && IsVidmapTable(vidTable)
      ensures dirs == old(dirs)[p := Directory(at, p, true)]
    {
      for j := 0 to ENTRIES
        invariant |vidTable| == ENTRIES && dirs == old(dirs)
        invariant forall k :: 0 <= k < j ==> vidTable[k] == VidmapEntry(k)
      {
        if j * PAGE_4KB == VIDEO_MEM {
          vidTable := vidTable[j := VIDEO_MEM + PRESENT];
        } else {
          vidTable := vidTable[j := VIDEO_MEM + ABSENT];
        }
      }
      dirs := dirs[p := dirs[p][VIDMAP_OFFSET := at.vidmap + PRESENT]];
      assert dirs[p] == Directory(at, p, true);
    }

    method LoadPageDirectory(p: nat)
      modifies this`cr3
      ensures cr3 == p
    {
      cr3 := p;
    }
  }
}
