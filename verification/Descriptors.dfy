/** File descriptors: what open stores, what close clears, and what reads deliver. */
module Descriptors {
  import opened Common
  import opened FileSystem

  const FD_COUNT: nat := 8
  const FD_MIN: nat := 2

  const TYPE_RTC: nat := 0
  const TYPE_DIR: nat := 1
  const TYPE_REG: nat := 2

  /** The operation tables a descriptor can point at; NoOps is the null pointer. */
  datatype Ops = NoOps | StdinOps | StdoutOps | FileOps | RtcOps

  datatype Desc = Desc(ops: Ops, inodePtr: nat, position: nat, flags: nat)

  const CLOSED := Desc(NoOps, 0, 0, 0)
  const STDIN := Desc(StdinOps, 0, 0, 1)
  const STDOUT := Desc(StdoutOps, 0, 0, 1)

  /** The descriptor table a process starts with. */
  const FRESH_FDS: seq<Desc> := [STDIN, STDOUT, CLOSED, CLOSED, CLOSED, CLOSED, CLOSED, CLOSED]

  /** Open on a regular file: the stored address leads back to an inode, and the position is within it. */
  ghost predicate IsFile(img: Image, d: Desc) {
    && d.ops == FileOps && d.flags == 1 && d.inodePtr != 0
    && 0 <= InodeIndex(img.base, d.inodePtr) < |img.inodes|
    && d.position <= img.inodes[InodeIndex(img.base, d.inodePtr)].length
  }

  ghost predicate IsDirectory(img: Image, d: Desc) {
    d.ops == FileOps && d.flags == 1 && d.inodePtr == 0 && d.position <= |img.entries|
  }

  /** Descriptors 2..7: entirely clear, or open with a non-null operation table. */
  ghost predicate FdOk(img: Image, d: Desc) {
    d == CLOSED || d == Desc(RtcOps, 0, 0, 1) || IsDirectory(img, d) || IsFile(img, d)
  }

  ghost predicate TailOk(img: Image, fds: seq<Desc>) {
    |fds| == FD_COUNT && forall k :: FD_MIN <= k < FD_COUNT ==> FdOk(img, fds[k])
  }

  ghost predicate TailClosed(fds: seq<Desc>) {
    |fds| == FD_COUNT && forall k :: FD_MIN <= k < FD_COUNT ==> fds[k] == CLOSED
  }

  /** A live process's table. */
  ghost predicate FdsOk(img: Image, fds: seq<Desc>) {
    TailOk(img, fds) && fds[0] == STDIN && fds[1] == STDOUT
  }

  /** The first free descriptor from k on, FD_COUNT when there is none. */
  ghost function FirstFree(fds: seq<Desc>, k: nat): (r: nat)
    requires |fds| == FD_COUNT && k <= FD_COUNT
    ensures k <= r <= FD_COUNT
    ensures r < FD_COUNT ==> fds[r].ops == NoOps
    ensures forall j :: k <= j < r ==> fds[j].ops != NoOps
    decreases FD_COUNT - k
  {
    if k == FD_COUNT || fds[k].ops == NoOps then k else FirstFree(fds, k + 1)
  }

  function OpenedDesc(img: Image, e: Dentry, before: Desc): Desc {
    if e.ftype == TYPE_RTC then Desc(RtcOps, 0, 0, 1)
    else if e.ftype == TYPE_DIR then Desc(FileOps, 0, 0, 1)
    else if e.ftype == TYPE_REG then Desc(FileOps, InodePtr(img.base, e.inode), 0, 1)
    else before
  }

  /** The table after open: the first free descriptor, when there is one and the file exists. */
  ghost function OpenFds(img: Image, fds: seq<Desc>, name: seq<byte>): (r: seq<Desc>)
    requires |fds| == FD_COUNT
  {
    var e := Lookup(img.entries, name);
    var fd := FirstFree(fds, FD_MIN);
    if e.None? || fd == FD_COUNT then fds else fds[fd := OpenedDesc(img, e.value, fds[fd])]
  }

  ghost function CloseFds(fds: seq<Desc>, fd: nat): (r: seq<Desc>)
    requires |fds| == FD_COUNT
  {
    if FD_MIN <= fd < FD_COUNT then fds[fd := CLOSED] else fds
  }

  /** A descriptor after a read of n bytes through it. */
  ghost function AfterRead(img: Image, d: Desc, n: nat): Desc {
    if IsFile(img, d) then
      var ino := img.inodes[InodeIndex(img.base, d.inodePtr)];
      d.(position := d.position + Available(ino, d.position, n))
    else if IsDirectory(img, d) && d.position < |img.entries| then d.(position := d.position + 1)
    else d
  }

  ghost function ReadFds(img: Image, fds: seq<Desc>, fd: nat, n: nat): seq<Desc>
    requires |fds| == FD_COUNT
  {
    if fd == 1 || fd >= FD_COUNT then fds else fds[fd := AfterRead(img, fds[fd], n)]
  }

  /** Opening through the lookup gives a usable descriptor and keeps every other one. */
  lemma OpenKeepsFdsOk(img: Image, fds: seq<Desc>, name: seq<byte>)
    requires ValidImage(img) && FdsOk(img, fds)
    ensures FdsOk(img, OpenFds(img, fds, name))
  {
    var e := Lookup(img.entries, name);
    if e.Some? {
      InodeIndexInvertsPtr(img.base, e.value.inode);
    }
  }

  /** What a descriptor opened on a directory entry must be. */
  ghost predicate OpenedOn(img: Image, e: Dentry, d: Desc) {
    && (e.ftype == 2 ==>
        IsFile(img, d) && InodeIndex(img.base, d.inodePtr) == e.inode && FileOf(img, d) == img.inodes[e.inode]
        && d.position == 0)
    && (e.ftype == 1 ==> IsDirectory(img, d) && d.position == 0)
    && (e.ftype == 0 ==> d.ops == RtcOps && d.flags == 1)
    && (e.ftype > 2 ==> d == CLOSED)
  }

  /** Opening stores the found entry in the first free descriptor, and nothing anywhere else. */
  lemma OpenOpens(img: Image, fds: seq<Desc>, name: seq<byte>)
    requires ValidImage(img) && FdsOk(img, fds)
    ensures
      var e, r, now := Lookup(img.entries, name), FirstFree(fds, FD_MIN), OpenFds(img, fds, name);
      && |now| == FD_COUNT && (forall k :: 0 <= k < FD_COUNT && (e == None || k != r) ==> now[k] == fds[k])
      && (e.Some? && r < FD_COUNT ==> OpenedOn(img, e.value, now[r]))
  {
    var e := Lookup(img.entries, name);
    if e.Some? {
      InodeIndexInvertsPtr(img.base, e.value.inode);
    }
  }

  lemma CloseKeepsFdsOk(img: Image, fds: seq<Desc>, fd: nat)
    requires FdsOk(img, fds)
    ensures FdsOk(img, CloseFds(fds, fd))
    ensures FD_MIN <= fd < FD_COUNT ==> (fds[fd].flags != 0 <==> fds[fd] != CLOSED)
  {
  }

  lemma ReadKeepsFdsOk(img: Image, fds: seq<Desc>, fd: nat, n: nat)
    requires FdsOk(img, fds)
    ensures FdsOk(img, ReadFds(img, fds, fd, n))
  {
  }

  // ---------------------------------------------------------------- what one read delivers

  /** Where a read is served from; a directory read delivers the text of one entry, whatever count was asked for. */
  datatype ReadResult =
    | ReadFailed | FromTerminal | FromRtc | EntryName(text: seq<byte>) | DirectoryEnd | Bytes(data: seq<byte>)

  /** What a read of n bytes through descriptor d, numbered fd, has to deliver. */
  ghost function ReadOutcome(img: Image, fd: nat, d: Desc, n: nat): ReadResult
    requires ValidImage(img)
  {
    if fd == 1 || d == CLOSED then ReadFailed
    else if fd == 0 then FromTerminal
    else if d.ops == RtcOps then FromRtc
    else if IsDirectory(img, d) then
      if d.position < |img.entries| then EntryName(EntryText(img.entries[d.position])) else DirectoryEnd
    else Bytes(Chunk(img, d, n))
  }

  ghost function BytesOf(r: ReadResult): seq<byte> {
    if r.Bytes? then r.data else []
  }

  /** What each kind of descriptor is read from. */
  lemma ReadOutcomes(img: Image, fds: seq<Desc>, fd: nat, n: nat)
    requires ValidImage(img) && FdsOk(img, fds) && fd < FD_COUNT
    ensures
      var d, r := fds[fd], ReadOutcome(img, fd, fds[fd], n);
      && (fd == 1 || d.flags == 0 <==> r == ReadFailed) && (fd == 0 <==> r == FromTerminal)
      && (d.ops == RtcOps <==> r == FromRtc) && (IsFile(img, d) <==> r == Bytes(Chunk(img, d, n)))
      && (IsDirectory(img, d) <==> r.EntryName? || r.DirectoryEnd?)
  {
  }

  /** The directory's names, all short enough to be terminated inside their fields. */
  ghost predicate ShortTitled(entries: seq<Dentry>, texts: seq<seq<byte>>) {
    Titled(entries, texts) && forall i :: 0 <= i < |texts| ==> |texts[i]| <= 31
  }

  /** What reading a directory from entry p on should give: the names in order, then the end for ever. */
  ghost function ListingFrom(texts: seq<seq<byte>>, p: nat, count: nat): (r: seq<ReadResult>)
    ensures |r| == count
  {
    seq(count, j requires 0 <= j => if p + j < |texts| then EntryName(texts[p + j]) else DirectoryEnd)
  }

  /** One directory read gives the next name, or the end, and leaves the rest of the listing. */
  lemma OneEntry(img: Image, d: Desc, fd: nat, n: nat, texts: seq<seq<byte>>, more: nat)
    requires ValidImage(img) && IsDirectory(img, d) && fd >= FD_MIN && ShortTitled(img.entries, texts)
    ensures IsDirectory(img, AfterRead(img, d, n))
    ensures [ReadOutcome(img, fd, d, n)] + ListingFrom(texts, AfterRead(img, d, n).position, more)
         == ListingFrom(texts, d.position, more + 1)
  {
    if d.position < |texts| {
      PlainEntryText(img.entries[d.position], texts[d.position]);
    }
  }

  // ---------------------------------------------------------------- interleaved reads

  datatype Request = Request(fd: nat, n: nat)

  ghost function Chunk(img: Image, d: Desc, n: nat): seq<byte> {
    if IsFile(img, d) then Streamed(img.data, img.inodes[InodeIndex(img.base, d.inodePtr)], d.position, n) else []
  }

  /** Everything descriptor k delivers while the requests are served in order. */
  ghost function Delivered(img: Image, fds: seq<Desc>, reqs: seq<Request>, k: nat): seq<byte>
    requires |fds| == FD_COUNT && k < FD_COUNT
    decreases reqs
  {
    if reqs == [] then []
    else
      (if reqs[0].fd == k && k != 1 then Chunk(img, fds[k], reqs[0].n) else [])
      + Delivered(img, ReadFds(img, fds, reqs[0].fd, reqs[0].n), reqs[1..], k)
  }

  /** The table once the requests are served. */
  ghost function Served(img: Image, fds: seq<Desc>, reqs: seq<Request>): (r: seq<Desc>)
    requires |fds| == FD_COUNT
    ensures |r| == FD_COUNT
    decreases reqs
  {
    if reqs == [] then fds else Served(img, ReadFds(img, fds, reqs[0].fd, reqs[0].n), reqs[1..])
  }

  ghost function Requested(reqs: seq<Request>, k: nat): nat {
    if reqs == [] then 0 else (if reqs[0].fd == k then reqs[0].n else 0) + Requested(reqs[1..], k)
  }

  ghost predicate ConsecutiveFile(ino: Inode) {
    ValidInode(ino) && ConsecutiveOver(ino, 0, ino.length)
  }

  lemma ConsecutiveAnywhere(ino: Inode, position: nat, n: nat)
    requires ConsecutiveFile(ino) && position <= ino.length
    ensures ConsecutiveOver(ino, position, n)
  {
    forall j | position / BLOCK_SIZE <= j < MAX_BLOCKS && j * BLOCK_SIZE < position + Available(ino, position, n)
      ensures ino.blocks[j] == ino.blocks[position / BLOCK_SIZE] + (j - position / BLOCK_SIZE)
    {
      var i := position / BLOCK_SIZE;
      assert ino.blocks[j] == ino.blocks[0] + j;
      assert i * BLOCK_SIZE <= position && ino.blocks[i] == ino.blocks[0] + i;
    }
  }

  ghost function FileOf(img: Image, d: Desc): Inode
    requires IsFile(img, d)
  {
    img.inodes[InodeIndex(img.base, d.inodePtr)]
  }

  /** Where n requested bytes leave a descriptor. */
  ghost function EndAfter(img: Image, d: Desc, n: nat): nat
    requires IsFile(img, d)
  {
    Min(d.position + n, FileOf(img, d).length)
  }

  lemma OneRead(img: Image, d: Desc, n: nat)
    requires IsFile(img, d) && ConsecutiveFile(FileOf(img, d))
    ensures AfterRead(img, d, n) == d.(position := EndAfter(img, d, n))
    ensures IsFile(img, AfterRead(img, d, n)) && FileOf(img, AfterRead(img, d, n)) == FileOf(img, d)
    ensures Chunk(img, d, n) == Contents(img.data, FileOf(img, d))[d.position..EndAfter(img, d, n)]
  {
    ConsecutiveAnywhere(FileOf(img, d), d.position, n);
    StreamedIsContents(img.data, FileOf(img, d), d.position, n);
  }

  /** A request only moves the descriptor it names. */
  lemma {:induction false} ServedPosition(img: Image, fds: seq<Desc>, reqs: seq<Request>, k: nat)
    requires |fds| == FD_COUNT && k < FD_COUNT && k != 1
    requires IsFile(img, fds[k]) && ConsecutiveFile(FileOf(img, fds[k]))
    ensures Served(img, fds, reqs)[k] == fds[k].(position := EndAfter(img, fds[k], Requested(reqs, k)))
    decreases reqs
  {
    if reqs != [] {
      OneRead(img, fds[k], reqs[0].n);
      ServedPosition(img, ReadFds(img, fds, reqs[0].fd, reqs[0].n), reqs[1..], k);
    }
  }

  lemma JoinChunks(img: Image, d: Desc, n: nat, rest: nat)
    requires IsFile(img, d) && ConsecutiveFile(FileOf(img, d))
    ensures IsFile(img, AfterRead(img, d, n)) && FileOf(img, AfterRead(img, d, n)) == FileOf(img, d)
    ensures
      var d', whole := AfterRead(img, d, n), Contents(img.data, FileOf(img, d));
      && EndAfter(img, d', rest) == EndAfter(img, d, n + rest)
      && Chunk(img, d, n) + whole[d'.position..EndAfter(img, d', rest)]
         == whole[d.position..EndAfter(img, d, n + rest)]
  {
    OneRead(img, d, n);
  }

  /** However reads on the whole table interleave, one descriptor's chunks join up to its file's next bytes. */
  lemma {:induction false} InterleavedReads(img: Image, fds: seq<Desc>, reqs: seq<Request>, k: nat)
    requires |fds| == FD_COUNT && k < FD_COUNT && k != 1
    requires IsFile(img, fds[k]) && ConsecutiveFile(FileOf(img, fds[k]))
    ensures Delivered(img, fds, reqs, k)
         == Contents(img.data, FileOf(img, fds[k]))[fds[k].position..EndAfter(img, fds[k], Requested(reqs, k))]
    decreases reqs
  {
    if reqs != [] {
      var next := ReadFds(img, fds, reqs[0].fd, reqs[0].n);
      if reqs[0].fd == k {
        JoinChunks(img, fds[k], reqs[0].n, Requested(reqs[1..], k));
      }
      InterleavedReads(img, next, reqs[1..], k);
    }
  }

  /** What the reads of descriptor k deliver while the requests are served in order. */
  ghost function Outcomes(img: Image, fds: seq<Desc>, reqs: seq<Request>, k: nat): seq<ReadResult>
    requires ValidImage(img) && |fds| == FD_COUNT && k < FD_COUNT
    decreases reqs
  {
    if reqs == [] then []
    else
      (if reqs[0].fd == k then [ReadOutcome(img, k, fds[k], reqs[0].n)] else [])
      + Outcomes(img, ReadFds(img, fds, reqs[0].fd, reqs[0].n), reqs[1..], k)
  }

  ghost function RequestCount(reqs: seq<Request>, k: nat): nat {
    if reqs == [] then 0 else (if reqs[0].fd == k then 1 else 0) + RequestCount(reqs[1..], k)
  }

  /** However reads on the whole table interleave, those of an open directory deliver its names one by one, from where
      it stands, and then the end for ever. */
  lemma {:induction false} InterleavedListing(
    img: Image, fds: seq<Desc>, texts: seq<seq<byte>>, reqs: seq<Request>, k: nat)
    requires ValidImage(img) && |fds| == FD_COUNT && FD_MIN <= k < FD_COUNT
    requires IsDirectory(img, fds[k]) && ShortTitled(img.entries, texts)
    ensures Outcomes(img, fds, reqs, k) == ListingFrom(texts, fds[k].position, RequestCount(reqs, k))
    decreases reqs
  {
    if reqs != [] {
      hide ListingFrom, ReadOutcome, AfterRead;
      var rest := RequestCount(reqs[1..], k);
      OneEntry(img, fds[k], k, reqs[0].n, texts, rest);
      InterleavedListing(img, ReadFds(img, fds, reqs[0].fd, reqs[0].n), texts, reqs[1..], k);
    }
  }

  /** Past the end of the file every further read is empty, for ever. */
  lemma ReadsAfterEndAreEmpty(img: Image, fds: seq<Desc>, reqs: seq<Request>, more: seq<Request>, k: nat)
    requires |fds| == FD_COUNT && k < FD_COUNT && k != 1
    requires IsFile(img, fds[k]) && ConsecutiveFile(FileOf(img, fds[k]))
    requires fds[k].position + Requested(reqs, k) >= FileOf(img, fds[k]).length
    ensures Delivered(img, Served(img, fds, reqs), more, k) == []
  {
    ServedPosition(img, fds, reqs, k);
    InterleavedReads(img, Served(img, fds, reqs), more, k);
  }
}
