/** The read-only file system: directory lookup and the two block readers. */
module FileSystem {
  import opened Common

  const BLOCK_SIZE: nat := 4096
  const MAX_BLOCKS: nat := 1023
  const MAX_NAME: nat := 32

  /** A directory entry: a 32-byte name field, then the file type. */
  datatype Dentry = Dentry(name: seq<byte>, ftype: nat, inode: nat)
  datatype Inode = Inode(length: nat, blocks: seq<nat>)

  /** Memory from the first data block on, addressed by block number and offset. */
  type Data = (nat, nat) -> byte

  datatype Image = Image(base: nat, entries: seq<Dentry>, inodes: seq<Inode>, data: Data)

  ghost predicate ValidInode(ino: Inode) {
    |ino.blocks| == MAX_BLOCKS && ino.length <= MAX_BLOCKS * BLOCK_SIZE
  }

  /** The image fits in the 32-bit address space; its directory names existing inodes and small type numbers. */
  ghost predicate ValidImage(img: Image) {
    && img.base + BLOCK_SIZE * (|img.inodes| + 1) < TWO_32
    && (forall i :: 0 <= i < |img.inodes| ==> ValidInode(img.inodes[i]))
    && (forall i :: 0 <= i < |img.entries| ==>
         img.entries[i].inode < |img.inodes| && img.entries[i].ftype < 256)
  }

  /** A file's contents: byte k lives in the k / 4096-th listed block. */
  ghost function Contents(data: Data, ino: Inode): (s: seq<byte>)
    requires ValidInode(ino)
    ensures |s| == ino.length
  {
    seq(ino.length, k requires 0 <= k < ino.length => data(ino.blocks[k / BLOCK_SIZE], k % BLOCK_SIZE))
  }

  // ---------------------------------------------------------------- directory lookup

  lemma {:induction false} CPrefixSame(s1: seq<byte>, s2: seq<byte>, n: nat, i: nat)
    requires i <= n
    requires forall k :: 0 <= k < i ==> CharAt(s1, k) == CharAt(s2, k) != 0
    ensures i == n || CharAt(s1, i) == CharAt(s2, i) == 0 ==> CPrefix(s1, n) == CPrefix(s2, n)
    ensures i < n && CharAt(s1, i) != CharAt(s2, i) ==> CPrefix(s1, n) != CPrefix(s2, n)
  {
    if 0 < i {
      assert CharAt(s1, 0) == CharAt(s2, 0) != 0;
      var t1, t2 := s1[1..], s2[1..];
      assert forall k: nat :: CharAt(t1, k) == CharAt(s1, k + 1) && CharAt(t2, k) == CharAt(s2, k + 1);
      CPrefixSame(t1, t2, n - 1, i - 1);
      assert CPrefix(s1, n)[1..] == CPrefix(t1, n - 1) && CPrefix(s2, n)[1..] == CPrefix(t2, n - 1);
    } else if 0 < n {
      assert CPrefix(s1, n) == [] || CPrefix(s1, n)[0] == CharAt(s1, 0);
      assert CPrefix(s2, n) == [] || CPrefix(s2, n)[0] == CharAt(s2, 0);
    }
  }

  lemma {:induction false} CPrefixIs(s: seq<byte>, n: nat, len: nat)
    requires len <= n && (forall i :: 0 <= i < len ==> CharAt(s, i) != 0) && (len < n ==> CharAt(s, len) == 0)
    ensures len <= |s| && CPrefix(s, n) == s[..len]
  {
    if len > 0 {
      assert CharAt(s, 0) != 0;
      assert forall i :: 0 <= i < len - 1 ==> CharAt(s[1..], i) == CharAt(s, i + 1);
      CPrefixIs(s[1..], n - 1, len - 1);
    }
  }

  /** The strings agree, and neither ends, before index i. */
  ghost predicate AgreeBelow(s1: seq<byte>, s2: seq<byte>, i: nat) {
    forall k :: 0 <= k < i ==> CharAt(s1, k) == CharAt(s2, k) != 0
  }

  /** Zero exactly when both strings look the same within n bytes; otherwise the difference at the first mismatch. */
  method Strncmp(s1: seq<byte>, s2: seq<byte>, n: nat) returns (r: int)
    ensures r == 0 <==> CPrefix(s1, n) == CPrefix(s2, n)
    ensures r != 0 ==>
      exists i: nat :: i < n && AgreeBelow(s1, s2, i) && r == Signed(CharAt(s1, i)) - Signed(CharAt(s2, i))
  {
    for i := 0 to n
      invariant forall k :: 0 <= k < i ==> CharAt(s1, k) == CharAt(s2, k) != 0
    {
      if CharAt(s1, i) != CharAt(s2, i) || CharAt(s1, i) == 0 {
        CPrefixSame(s1, s2, n, i);
        assert AgreeBelow(s1, s2, i);
        return Signed(CharAt(s1, i)) - Signed(CharAt(s2, i));
      }
    }
    CPrefixSame(s1, s2, n, n);
    return 0;
  }

  ghost predicate Named(d: Dentry, name: seq<byte>) {
    CPrefix(name, MAX_NAME) == CPrefix(d.name, MAX_NAME)
  }

  /** The last directory entry with the given name. */
  ghost function Lookup(entries: seq<Dentry>, name: seq<byte>): (r: Option<Dentry>)
    ensures r.Some? ==> r.value in entries && Named(r.value, name)
    ensures r.None? ==> forall d <- entries :: !Named(d, name)
  {
    if entries == [] then None
    else
      var last := entries[|entries| - 1];
      if Named(last, name) then Some(last) else Lookup(entries[..|entries| - 1], name)
  }

  /** The string in a field of at most 32 bytes has length n: no NUL among its bytes, and one behind them when there is
      room. */
  ghost predicate TextLength(s: seq<byte>, n: nat) {
    n <= 32 && n <= |s| && (forall i :: 0 <= i < n ==> s[i] != 0) && (n < 32 && n < |s| ==> s[n] == 0)
  }

  /** Two fields hold the same string, byte for byte. */
  ghost predicate SameText(a: seq<byte>, b: seq<byte>) {
    exists n: nat :: TextLength(a, n) && TextLength(b, n) && a[..n] == b[..n]
  }

  lemma {:induction false} TextLengthExists(s: seq<byte>, i: nat)
    requires i <= 32 && i <= |s| && forall k :: 0 <= k < i ==> s[k] != 0
    ensures exists n: nat :: TextLength(s, n)
    decreases 32 - i
  {
    if i == 32 || i == |s| || s[i] == 0 {
      assert TextLength(s, i);
    } else {
      TextLengthExists(s, i + 1);
    }
  }

  /** An entry is found under a name exactly when both hold the same string. */
  lemma NamedIsSameText(d: Dentry, name: seq<byte>)
    ensures Named(d, name) <==> SameText(name, d.name)
  {
    TextLengthExists(name, 0);
    TextLengthExists(d.name, 0);
    var n: nat :| TextLength(name, n);
    var m: nat :| TextLength(d.name, m);
    CPrefixIs(name, 32, n);
    CPrefixIs(d.name, 32, m);
    if SameText(name, d.name) {
      var l: nat :| TextLength(name, l) && TextLength(d.name, l) && name[..l] == d.name[..l];
      CPrefixIs(name, 32, l);
      CPrefixIs(d.name, 32, l);
    }
  }

  /** A name as it is stored: padded with zeros to 32 bytes. */
  ghost function Field(text: seq<byte>): (f: seq<byte>)
    requires |text| <= 32
    ensures |f| == 32
  {
    text + seq(32 - |text|, _ => 0)
  }

  ghost predicate PlainName(text: seq<byte>) {
    |text| <= 32 && 0 !in text
  }

  /** Names of at most 32 bytes are told apart in full. */
  lemma PlainNamed(d: Dentry, a: seq<byte>, b: seq<byte>)
    requires PlainName(a) && PlainName(b) && d.name == Field(a)
    ensures Named(d, b) <==> a == b
  {
    assert TextLength(b, |b|);
    assert forall i :: 0 <= i < |a| ==> d.name[i] == a[i];
    assert TextLength(d.name, |a|) && d.name[..|a|] == a;
    CPrefixIs(b, 32, |b|);
    CPrefixIs(d.name, 32, |a|);
  }

  /** The directory's name fields hold the given texts. */
  ghost predicate Titled(entries: seq<Dentry>, texts: seq<seq<byte>>) {
    |texts| == |entries| && forall i :: 0 <= i < |texts| ==> PlainName(texts[i]) && entries[i].name == Field(texts[i])
  }

  /** A lookup yields the entry at the greatest index that carries the name, and none exactly when no index does. */
  lemma {:induction false} LookupPlain(entries: seq<Dentry>, texts: seq<seq<byte>>, b: seq<byte>)
    requires Titled(entries, texts) && PlainName(b)
    ensures Lookup(entries, b) == None <==> b !in texts
    ensures forall i :: 0 <= i < |texts| && texts[i] == b && b !in texts[i + 1..] ==>
      Lookup(entries, b) == Some(entries[i])
  {
    if entries != [] {
      var n := |entries| - 1;
      assert texts == texts[..n] + [texts[n]];
      LookupPlain(entries[..n], texts[..n], b);
      PlainNamed(entries[n], texts[n], b);
      forall i | 0 <= i < |texts| && texts[i] == b && b !in texts[i + 1..]
        ensures Lookup(entries, b) == Some(entries[i])
      {
        if i < n {
          assert texts[n] == texts[i + 1..][n - i - 1];
          assert texts[i + 1..] == texts[..n][i + 1..] + [texts[n]];
          assert texts[..n][i] == b;
        }
      }
    }
  }

  /** Of a longer name only the first 32 bytes count. */
  lemma {:induction false} LookupLongName(entries: seq<Dentry>, name: seq<byte>)
    requires |name| > 32 && 0 !in name
    ensures Lookup(entries, name) == Lookup(entries, name[..32])
  {
    CPrefixIs(name, 32, 32);
    CPrefixIs(name[..32], 32, 32);
    if entries != [] {
      LookupLongName(entries[..|entries| - 1], name);
    }
  }

  lemma {:induction false} LookupLast(entries: seq<Dentry>, name: seq<byte>)
    ensures Lookup(entries, name) == None ==> forall i :: 0 <= i < |entries| ==> !SameText(name, entries[i].name)
    ensures Lookup(entries, name).Some? ==> exists i :: LastNamed(entries, name, i, Lookup(entries, name).value)
  {
    if entries != [] {
      var n := |entries| - 1;
      NamedIsSameText(entries[n], name);
      LookupLast(entries[..n], name);
      if Named(entries[n], name) {
        assert LastNamed(entries, name, n, entries[n]);
      } else if Lookup(entries, name).Some? {
        var i :| LastNamed(entries[..n], name, i, Lookup(entries, name).value);
        assert LastNamed(entries, name, i, Lookup(entries, name).value);
      }
    }
  }

  /** Entry i holds the name and no later one does. */
  ghost predicate LastNamed(entries: seq<Dentry>, name: seq<byte>, i: int, d: Dentry) {
    && 0 <= i < |entries| && entries[i] == d && SameText(name, d.name)
    && forall j :: i < j < |entries| ==> !SameText(name, entries[j].name)
  }

  method ReadDentryByName(entries: seq<Dentry>, name: seq<byte>) returns (r: Option<Dentry>)
    ensures r == Lookup(entries, name)
    ensures r == None ==> forall i :: 0 <= i < |entries| ==> !SameText(name, entries[i].name)
    ensures r.Some? ==> exists i :: LastNamed(entries, name, i, r.value)
  {
    LookupLast(entries, name);
    r := None;
    for i := 0 to |entries|
      invariant r == Lookup(entries[..i], name)
    {
      var c := Strncmp(name, entries[i].name, MAX_NAME);
      assert entries[..i + 1][..i] == entries[..i];
      if c == 0 {
        r := Some(entries[i]);
      }
    }
    assert entries[..|entries|] == entries;
  }

  /** Byte i of an entry as it lies in memory, up to the second byte of its type. */
  function EntryByte(e: Dentry, i: nat): byte
    requires e.ftype < 256
  {
    if i < MAX_NAME then CharAt(e.name, i) else if i == MAX_NAME then e.ftype else 0
  }

  /** What a directory read delivers for an entry: its name, and the type as one more character when the name fills
      its whole field and the type is not 0. */
  ghost function EntryText(e: Dentry): seq<byte>
    requires e.ftype < 256
  {
    var name := CPrefix(e.name, MAX_NAME);
    if |name| == MAX_NAME && e.ftype != 0 then name + [e.ftype] else name
  }

  /** strlen and memcpy on an entry's name field. */
  method CopyEntryText(e: Dentry) returns (text: seq<byte>)
    requires e.ftype < 256
    ensures text == EntryText(e)
  {
    var len := 0;
    while EntryByte(e, len) != 0
      invariant len <= MAX_NAME + 1 && forall i :: 0 <= i < len ==> EntryByte(e, i) != 0
      decreases MAX_NAME + 1 - len
    {
      len := len + 1;
    }
    text := seq(len, i requires 0 <= i < len => EntryByte(e, i));
    assert forall i :: 0 <= i < len && i < MAX_NAME ==> CharAt(e.name, i) == EntryByte(e, i);
    CPrefixIs(e.name, MAX_NAME, Min(len, MAX_NAME));
    assert text[..Min(len, MAX_NAME)] == CPrefix(e.name, MAX_NAME);
    assert len == MAX_NAME + 1 ==> text[MAX_NAME] == e.ftype;
  }

  /** A name of at most 31 bytes is delivered as it stands; one that fills its field is followed by the type. */
  lemma PlainEntryText(e: Dentry, text: seq<byte>)
    requires e.ftype < 256 && PlainName(text) && e.name == Field(text)
    ensures |text| <= 31 ==> EntryText(e) == text
    ensures |text| == 32 ==> EntryText(e) == if e.ftype == 0 then text else text + [e.ftype]
  {
    assert forall i :: 0 <= i < |text| ==> e.name[i] == text[i];
    CPrefixIs(e.name, 32, |text|);
    assert e.name[..|text|] == text;
  }

  // ---------------------------------------------------------------- inode pointers

  /** The address stored in a descriptor by open: `&inodes_array[i]`. */
  function InodePtr(base: nat, i: nat): nat {
    Wrap32(base + BLOCK_SIZE * (i + 1))
  }

  /** The inode index a read recovers from that address. */
  function InodeIndex(base: nat, ptr: nat): int {
    Wrap32(ptr - base) / BLOCK_SIZE - 1
  }

  /** Recovering the index inverts storing the address, even across 32-bit wrap-around of the address. */
  lemma InodeIndexInvertsPtr(base: nat, i: nat)
    requires BLOCK_SIZE * (i + 1) < TWO_32
    ensures InodeIndex(base, InodePtr(base, i)) == i
    ensures base + BLOCK_SIZE * (i + 1) < TWO_32 ==> InodePtr(base, i) != 0
  {
    var d := BLOCK_SIZE * (i + 1);
    var q := (base + d) / TWO_32;
    assert InodePtr(base, i) == base + d - q * TWO_32;
    assert InodePtr(base, i) - base == d - q * TWO_32;
    assert (d - q * TWO_32) % TWO_32 == d;
    assert d / BLOCK_SIZE == i + 1;
  }

  // ---------------------------------------------------------------- byte-at-a-time reader

  /** How many bytes a read of n at the given position delivers. */
  function Available(ino: Inode, position: nat, n: nat): nat {
    if position >= ino.length then 0 else Min(n, ino.length - position)
  }

  function FirstBlock(ino: Inode, position: nat): nat {
    if position / BLOCK_SIZE < |ino.blocks| then ino.blocks[position / BLOCK_SIZE] else 0
  }

  /** The k-th byte found by walking on from the first block, block number by block number. */
  ghost function StreamByte(data: Data, ino: Inode, position: nat, k: nat): byte {
    var at := position % BLOCK_SIZE + k;
    data(FirstBlock(ino, position) + at / BLOCK_SIZE, at % BLOCK_SIZE)
  }

  ghost function Streamed(data: Data, ino: Inode, position: nat, n: nat): (s: seq<byte>)
    ensures |s| == Available(ino, position, n)
  {
    seq(Available(ino, position, n), k requires 0 <= k => StreamByte(data, ino, position, k))
  }

  method ReadDataOne(data: Data, ino: Inode, position: nat, buf: array<byte>, n: nat)
    returns (bytesRead: nat, newPosition: nat)
    requires Available(ino, position, n) <= buf.Length
    modifies buf
    ensures bytesRead == Available(ino, position, n) && newPosition == position + bytesRead
    ensures buf[..bytesRead] == Streamed(data, ino, position, n)
    ensures buf[bytesRead..] == old(buf[bytesRead..])
  {
    var offset := position;
    newPosition := position;
    var block := FirstBlock(ino, position);
    var inBlock := position % BLOCK_SIZE;
    bytesRead := 0;
    ghost var spec := Streamed(data, ino, position, n);
    ghost var start := position % BLOCK_SIZE;
    while bytesRead < n && offset < ino.length
      invariant 0 <= bytesRead <= |spec|
      invariant offset == newPosition == position + bytesRead
      invariant bytesRead < |spec| <==> bytesRead < n && offset < ino.length
      invariant block == FirstBlock(ino, position) + (start + bytesRead) / BLOCK_SIZE
      invariant inBlock == (start + bytesRead) % BLOCK_SIZE
      invariant forall k :: 0 <= k < bytesRead ==> buf[k] == spec[k]
      invariant forall k :: bytesRead <= k < buf.Length ==> buf[k] == old(buf[k])
      decreases ino.length - offset
    {
      buf[bytesRead] := data(block, inBlock);
      offset := offset + 1;
      inBlock := inBlock + 1;
      bytesRead := bytesRead + 1;
      newPosition := newPosition + 1;
      if inBlock % BLOCK_SIZE == 0 {
        inBlock := 0;
        block := block + 1;
      }
    }
  }

  /** The blocks a read of n bytes at the given position touches are numbered consecutively. */
  ghost predicate ConsecutiveOver(ino: Inode, position: nat, n: nat)
    requires ValidInode(ino)
  {
    forall j :: position / BLOCK_SIZE <= j < MAX_BLOCKS && j * BLOCK_SIZE < position + Available(ino, position, n)
      ==> ino.blocks[j] == ino.blocks[position / BLOCK_SIZE] + (j - position / BLOCK_SIZE)
  }

  ghost predicate StreamExact(ino: Inode, position: nat, n: nat)
    requires ValidInode(ino)
  {
    forall data: Data | position <= ino.length ::
      Streamed(data, ino, position, n) == Contents(data, ino)[position..position + Available(ino, position, n)]
  }

  lemma StreamedIsContents(data: Data, ino: Inode, position: nat, n: nat)
    requires ValidInode(ino) && position <= ino.length && ConsecutiveOver(ino, position, n)
    ensures Streamed(data, ino, position, n)
         == Contents(data, ino)[position..position + Available(ino, position, n)]
  {
    var count := Available(ino, position, n);
    var start := position % BLOCK_SIZE;
    forall k | 0 <= k < count
      ensures Streamed(data, ino, position, n)[k] == Contents(data, ino)[position + k]
    {
      var j := (position + k) / BLOCK_SIZE;
      assert position == position / BLOCK_SIZE * BLOCK_SIZE + start;
      assert j == position / BLOCK_SIZE + (start + k) / BLOCK_SIZE;
      assert (position + k) % BLOCK_SIZE == (start + k) % BLOCK_SIZE;
      assert ino.blocks[j] == ino.blocks[position / BLOCK_SIZE] + (j - position / BLOCK_SIZE);
    }
  }

  lemma StreamRevealsGap(ino: Inode, position: nat, n: nat, j: nat)
    requires ValidInode(ino) && position <= ino.length
    requires position / BLOCK_SIZE <= j < MAX_BLOCKS
    requires j * BLOCK_SIZE < position + Available(ino, position, n)
    requires ino.blocks[j] != ino.blocks[position / BLOCK_SIZE] + (j - position / BLOCK_SIZE)
    ensures !StreamExact(ino, position, n)
  {
    var data: Data := (b, o) => if b == ino.blocks[j] then 1 else 0;
    var k := if position <= j * BLOCK_SIZE then j * BLOCK_SIZE - position else 0;
    var start := position % BLOCK_SIZE;
    assert position == position / BLOCK_SIZE * BLOCK_SIZE + start;
    assert (position + k) / BLOCK_SIZE == j;
    assert (start + k) / BLOCK_SIZE == j - position / BLOCK_SIZE;
    assert Streamed(data, ino, position, n)[k] == 0;
    assert Contents(data, ino)[position + k] == 1;
    assert Contents(data, ino)[position..position + Available(ino, position, n)][k] == 1;
  }

  /** The reader delivers the file's own bytes, whatever the disk holds, exactly when the blocks it touches are
      consecutive. */
  lemma ReadDataOneExactIff(ino: Inode, position: nat, n: nat)
    requires ValidInode(ino) && position <= ino.length
    ensures StreamExact(ino, position, n) <==> ConsecutiveOver(ino, position, n)
  {
    if ConsecutiveOver(ino, position, n) {
      forall data: Data
        ensures Streamed(data, ino, position, n)
             == Contents(data, ino)[position..position + Available(ino, position, n)]
      {
        StreamedIsContents(data, ino, position, n);
      }
    } else {
      var j :| position / BLOCK_SIZE <= j < MAX_BLOCKS && j * BLOCK_SIZE < position + Available(ino, position, n)
            && ino.blocks[j] != ino.blocks[position / BLOCK_SIZE] + (j - position / BLOCK_SIZE);
      StreamRevealsGap(ino, position, n, j);
    }
  }

  // ---------------------------------------------------------------- block-wise loader at offset 0

  /** The number of blocks the counting loop arrives at: arguments 1, 4097, 8193, ... below length. */
  function BlockCount(length: nat): nat {
    if length < 2 then 0 else (length - 2) / BLOCK_SIZE + 1
  }

  /** The block the tail is copied from; with no block counted the index is -1, which is the inode's length word. */
  function TailBlock(ino: Inode, length: nat): nat
    requires ValidInode(ino) && length <= ino.length
  {
    if BlockCount(length) == 0 then ino.length else ino.blocks[BlockCount(length) - 1]
  }

  /** How many bytes the loader writes. */
  function Written(length: nat): (w: nat)
    ensures w <= length
  {
    (if BlockCount(length) == 0 then 0 else (BlockCount(length) - 1) * BLOCK_SIZE) + length % BLOCK_SIZE
  }

  /** The buffer after a load over the bytes that were there before. */
  ghost function Loaded(data: Data, ino: Inode, length: nat, before: seq<byte>): (s: seq<byte>)
    requires ValidInode(ino) && length <= ino.length && |before| >= length
    ensures |s| == |before|
  {
    seq(|before|, k requires 0 <= k < |before| => LoadByte(data, ino, length, before, k))
  }

  ghost function LoadByte(data: Data, ino: Inode, length: nat, before: seq<byte>, k: nat): byte
    requires ValidInode(ino) && length <= ino.length && k < |before|
  {
    var full := Written(length) - length % BLOCK_SIZE;
    if k < full then data(ino.blocks[k / BLOCK_SIZE], k % BLOCK_SIZE)
    else if k < Written(length) then data(TailBlock(ino, length), k - full)
    else before[k]
  }

  /** One block's worth of memcpy out of a data block. */
  method CopyFromBlock(data: Data, block: nat, buf: array<byte>, at: nat, n: nat)
    requires at + n <= buf.Length
    modifies buf
    ensures forall k :: 0 <= k < buf.Length ==>
      buf[k] == if at <= k < at + n then data(block, k - at) else old(buf[k])
  {
    for i := 0 to n
      invariant forall k :: 0 <= k < buf.Length ==>
        buf[k] == if at <= k < at + i then data(block, k - at) else old(buf[k])
    {
      buf[at + i] := data(block, i);
    }
  }

  method ReadData(data: Data, ino: Inode, buf: array<byte>, length: nat) returns (r: int)
    requires ValidInode(ino) && length <= buf.Length
    modifies buf
    ensures length > ino.length ==> r == -1 && buf[..] == old(buf[..])
    ensures length <= ino.length ==> buf[..] == Loaded(data, ino, length, old(buf[..]))
    ensures length <= ino.length ==> r == BLOCK_SIZE * (if BlockCount(length) == 0 then 1 else BlockCount(length))
  {
    if length > ino.length {
      return -1;
    }
    var count := 0;
    for a := 0 to length
      invariant count == BlockCount(a)
    {
      if a >= 1 && (a - 1) % BLOCK_SIZE == 0 {
        count := count + 1;
      }
    }
    var at := 0;
    r := 0;
    var i := 0;
    while i < count - 1
      invariant 0 <= i && (count == 0 ==> i == 0) && (count > 0 ==> i <= count - 1)
      invariant at == r == i * BLOCK_SIZE
      invariant forall k :: 0 <= k < at ==> buf[k] == data(ino.blocks[k / BLOCK_SIZE], k % BLOCK_SIZE)
      invariant forall k :: at <= k < buf.Length ==> buf[k] == old(buf[k])
    {
      CopyFromBlock(data, ino.blocks[i], buf, at, BLOCK_SIZE);
      at, i := at + BLOCK_SIZE, i + 1;
      r := r + BLOCK_SIZE;
    }
    CopyFromBlock(data, TailBlock(ino, length), buf, at, length % BLOCK_SIZE);
    r := r + BLOCK_SIZE;
  }

  /** The loader is exact: the first length bytes are the file's, whatever the disk and the buffer held. */
  ghost predicate LoadExact(ino: Inode, length: nat)
    requires ValidInode(ino) && length <= ino.length
  {
    forall data: Data, before: seq<byte> | |before| == length ::
      Loaded(data, ino, length, before) == Contents(data, ino)[..length]
  }

  /** Lengths the counting loop gets right, and the one coincidence it cannot spoil. */
  predicate LoadableLength(ino: Inode, length: nat)
    requires ValidInode(ino) && length <= ino.length
  {
    length == 0 || length % BLOCK_SIZE >= 2 || (length == 1 && ino.blocks[0] == ino.length)
  }

  lemma LoadedIsContents(data: Data, ino: Inode, length: nat, before: seq<byte>)
    requires ValidInode(ino) && length <= ino.length && |before| == length
    requires LoadableLength(ino, length)
    ensures Loaded(data, ino, length, before) == Contents(data, ino)[..length]
  {
    forall k | 0 <= k < length
      ensures Loaded(data, ino, length, before)[k] == Contents(data, ino)[k]
    {
      if length % BLOCK_SIZE >= 2 {
        assert BlockCount(length) == length / BLOCK_SIZE + 1;
        if k >= length / BLOCK_SIZE * BLOCK_SIZE {
          assert k / BLOCK_SIZE == length / BLOCK_SIZE;
        }
      }
    }
  }

  lemma LoadMissesBytes(ino: Inode, length: nat)
    requires ValidInode(ino) && length <= ino.length && !LoadableLength(ino, length)
    ensures !LoadExact(ino, length)
  {
    if length == 1 {
      var data: Data := (b, o) => if b == ino.blocks[0] then 1 else 0;
      assert Loaded(data, ino, 1, [0])[0] == 0;
      assert Contents(data, ino)[..1][0] == 1;
    } else {
      var data: Data := (b, o) => 1;
      var before: seq<byte> := seq(length, _ => 0);
      assert BlockCount(length) == length / BLOCK_SIZE;
      assert Written(length) < length;
      assert Loaded(data, ino, length, before)[length - 1] == 0;
      assert Contents(data, ino)[..length][length - 1] == 1;
    }
  }

  lemma ReadDataExactIff(ino: Inode, length: nat)
    requires ValidInode(ino) && length <= ino.length
    ensures LoadExact(ino, length) <==> LoadableLength(ino, length)
  {
    if LoadableLength(ino, length) {
      forall data: Data, before: seq<byte> | |before| == length
        ensures Loaded(data, ino, length, before) == Contents(data, ino)[..length]
      {
        LoadedIsContents(data, ino, length, before);
      }
    } else {
      LoadMissesBytes(ino, length);
    }
  }

  /** For every length but 1 a load leaves the file's prefix and, behind it, what the buffer held: all of the prefix, or
      one block less when the last block would be missing or hold a single byte. Length 1 reads the block numbered by
      the file's length. */
  lemma LoadedInFull(data: Data, ino: Inode, length: nat, before: seq<byte>)
    requires ValidInode(ino) && length <= ino.length && |before| == length
    ensures
      var n := if length % 4096 >= 2 || length == 0 then length else length - 4096;
      length != 1 ==> Loaded(data, ino, length, before) == Contents(data, ino)[..n] + before[n..]
    ensures length == 1 ==> Loaded(data, ino, length, before) == [data(ino.length, 0)]
  {
    if length > 1 {
      var n := if length % 4096 >= 2 then length else length - 4096;
      assert BlockCount(length) == (length - 2) / 4096 + 1;
      assert Written(length) == n;
      var s, t := Loaded(data, ino, length, before), Contents(data, ino)[..n] + before[n..];
      forall k | 0 <= k < length
        ensures s[k] == t[k]
      {
        var full := n - length % 4096;
        assert full == (BlockCount(length) - 1) * 4096;
        if full <= k < n {
          assert k / 4096 == BlockCount(length) - 1 && k % 4096 == k - full;
        }
      }
    }
  }

  /** On consecutive blocks the loader and the byte-at-a-time reader deliver the same bytes. */
  lemma ReadersAgree(data: Data, ino: Inode, length: nat, before: seq<byte>)
    requires ValidInode(ino) && length <= ino.length && |before| == length
    requires LoadableLength(ino, length) && ConsecutiveOver(ino, 0, length)
    ensures Loaded(data, ino, length, before) == Streamed(data, ino, 0, length)
  {
    LoadedIsContents(data, ino, length, before);
    StreamedIsContents(data, ino, 0, length);
  }
}
