/** memcpy, memset and memmove as the instruction loops they are: bytes up to a word boundary, words, then the rest.
    Memory is one array; an index is an address. */
module Memory {
  import opened Common

  const WORD: nat := 4

  /** n bytes moved at once: every byte is read before any is written. */
  ghost function Moved(m: seq<byte>, dst: nat, src: nat, n: nat): (r: seq<byte>)
    requires dst + n <= |m| && src + n <= |m|
    ensures |r| == |m|
  {
    seq(|m|, k requires 0 <= k < |m| => if dst <= k < dst + n then m[src + (k - dst)] else m[k])
  }

  // ---------------------------------------------------------------- memcpy

  /** Copies that each move `size` bytes at once, one after the other. */
  ghost function Chunks(m: seq<byte>, dst: nat, src: nat, size: nat, count: nat): (r: seq<byte>)
    requires dst + size * count <= |m| && src + size * count <= |m|
    ensures |r| == |m|
    decreases count
  {
    if count == 0 then m
    else Chunks(Moved(m, dst, src, size), dst + size, src + size, size, count - 1)
  }

  /** How many single bytes come before the words: up to the next word boundary of the destination. */
  function Lead(dst: nat, n: nat): nat {
    Min((WORD - dst % WORD) % WORD, n)
  }

  /** How many words fit behind them. */
  function WordCount(dst: nat, n: nat): (w: nat)
    ensures Lead(dst, n) + WORD * w <= n < Lead(dst, n) + WORD * w + WORD
  {
    (n - Lead(dst, n)) / WORD
  }

  lemma WordBound(dst: nat, n: nat)
    ensures Lead(dst, n) + WORD * WordCount(dst, n) <= n < Lead(dst, n) + WORD * WordCount(dst, n) + WORD
  {
  }

  /** What memcpy leaves: leading bytes, words, trailing bytes. */
  ghost function Copied(m: seq<byte>, dst: nat, src: nat, n: nat): (r: seq<byte>)
    requires dst + n <= |m| && src + n <= |m|
    ensures |r| == |m|
  {
    var lead := Lead(dst, n);
    var words := WordCount(dst, n);
    var done := lead + WORD * words;
    Chunks(Chunks(Chunks(m, dst, src, 1, lead), dst + lead, src + lead, WORD, words),
           dst + done, src + done, 1, n - done)
  }

  lemma {:induction false} ChunksSnoc(m: seq<byte>, dst: nat, src: nat, size: nat, count: nat)
    requires dst + size * (count + 1) <= |m| && src + size * (count + 1) <= |m|
    ensures size * (count + 1) == size * count + size
    ensures Chunks(m, dst, src, size, count + 1)
         == Moved(Chunks(m, dst, src, size, count), dst + size * count, src + size * count, size)
    decreases count
  {
    hide Moved;
    assert size * (count + 1) == size * count + size;
    if count > 0 {
      assert size * count == size * (count - 1) + size;
      ChunksSnoc(Moved(m, dst, src, size), dst + size, src + size, size, count - 1);
    }
  }

  /** Moves one chunk, reading all of it first. */
  method MoveWord(mem: array<byte>, dst: nat, src: nat)
    requires dst + WORD <= mem.Length && src + WORD <= mem.Length
    modifies mem
    ensures mem[..] == Moved(old(mem[..]), dst, src, WORD)
  {
    var b0, b1, b2, b3 := mem[src], mem[src + 1], mem[src + 2], mem[src + 3];
    mem[dst], mem[dst + 1], mem[dst + 2], mem[dst + 3] := b0, b1, b2, b3;
  }

  method MoveByte(mem: array<byte>, dst: nat, src: nat)
    requires dst < mem.Length && src < mem.Length
    modifies mem
    ensures mem[..] == Moved(old(mem[..]), dst, src, 1)
  {
    mem[dst] := mem[src];
  }

  method MoveBytes(mem: array<byte>, dst: nat, src: nat, n: nat)
    requires dst + n <= mem.Length && src + n <= mem.Length
    modifies mem
    ensures mem[..] == Chunks(old(mem[..]), dst, src, 1, n)
  {
    hide Moved;
    for i := 0 to n
      invariant mem[..] == Chunks(old(mem[..]), dst, src, 1, i)
    {
      ChunksSnoc(old(mem[..]), dst, src, 1, i);
      MoveByte(mem, dst + i, src + i);
    }
  }

  method MoveWords(mem: array<byte>, dst: nat, src: nat, n: nat)
    requires dst + WORD * n <= mem.Length && src + WORD * n <= mem.Length
    modifies mem
    ensures mem[..] == Chunks(old(mem[..]), dst, src, WORD, n)
  {
    hide Moved;
    for i := 0 to n
      invariant mem[..] == Chunks(old(mem[..]), dst, src, WORD, i)
    {
      ChunksSnoc(old(mem[..]), dst, src, WORD, i);
      MoveWord(mem, dst + WORD * i, src + WORD * i);
    }
  }

  method Memcpy(mem: array<byte>, dst: nat, src: nat, n: nat)
    requires dst + n <= mem.Length && src + n <= mem.Length
    modifies mem
    ensures mem[..] == Copied(old(mem[..]), dst, src, n)
    ensures !Overlapped(dst, src, n) ==> mem[..] == Moved(old(mem[..]), dst, src, n)
  {
    hide Moved, Chunks, Lead;
    ghost var was := mem[..];
    NoChunks(was, dst, src);
    LeadBound(dst, n);
    var i := 0;
    while i < n && (dst + i) % WORD != 0
      invariant 0 <= i <= Lead(dst, n) && mem[..] == Chunks(was, dst, src, 1, i)
      decreases n - i
    {
      LeadStep(dst, n, i);
      ChunksSnoc(was, dst, src, 1, i);
      MoveByte(mem, dst + i, src + i);
      i := i + 1;
    }
    LeadStep(dst, n, i);
    var words := (n - i) / WORD;
    assert words == WordCount(dst, n);
    MoveWords(mem, dst + i, src + i, words);
    i := i + WORD * words;
    MoveBytes(mem, dst + i, src + i, n - i);
    if !Overlapped(dst, src, n) {
      CopiedIsMoved(was, dst, src, n);
    }
  }

  lemma LeadBound(dst: nat, n: nat)
    ensures Lead(dst, n) <= n
  {
  }

  /** Bytes are moved one by one exactly up to the lead. */
  lemma LeadStep(dst: nat, n: nat, i: nat)
    requires i <= Lead(dst, n)
    ensures i < n && (dst + i) % WORD != 0 <==> i < Lead(dst, n)
  {
  }

  lemma NoChunks(m: seq<byte>, dst: nat, src: nat)
    requires dst <= |m| && src <= |m|
    ensures Chunks(m, dst, src, 1, 0) == m
  {
  }

  /** The destination starts inside the source, other than in a single aligned word. */
  predicate Overlapped(dst: nat, src: nat, n: nat) {
    src < dst < src + n && !(n == WORD && dst % WORD == 0)
  }

  /** A chunk does not disturb what later chunks read. */
  lemma MovedTwice(m: seq<byte>, dst: nat, src: nat, a: nat, b: nat)
    requires dst + a + b <= |m| && src + a + b <= |m| && !(src < dst < src + a + b)
    ensures Moved(Moved(m, dst, src, a), dst + a, src + a, b) == Moved(m, dst, src, a + b)
  {
  }

  lemma {:induction false} ChunksAreMoved(m: seq<byte>, dst: nat, src: nat, size: nat, count: nat)
    requires dst + size * count <= |m| && src + size * count <= |m| && !(src < dst < src + size * count)
    ensures Chunks(m, dst, src, size, count) == Moved(m, dst, src, size * count)
    decreases count
  {
    if count > 0 {
      hide Moved;
      assert size * count == size + size * (count - 1);
      var rest := size * (count - 1);
      ChunksAreMoved(Moved(m, dst, src, size), dst + size, src + size, size, count - 1);
      MovedTwice(m, dst, src, size, rest);
    } else {
      assert Moved(m, dst, src, 0) == m;
    }
  }

  lemma CopiedIsMoved(m: seq<byte>, dst: nat, src: nat, n: nat)
    requires dst + n <= |m| && src + n <= |m| && !Overlapped(dst, src, n)
    ensures Copied(m, dst, src, n) == Moved(m, dst, src, n)
  {
    hide Moved, Chunks, Lead, WordCount;
    WordBound(dst, n);
    var lead := Lead(dst, n);
    var words := WordCount(dst, n);
    var done := lead + WORD * words;
    if src < dst < src + n {
      LeadStep(dst, n, 0);
      OneWord(m, dst, src);
    } else {
      ChunksAreMoved(m, dst, src, 1, lead);
      var m1 := Moved(m, dst, src, lead);
      ChunksAreMoved(m1, dst + lead, src + lead, WORD, words);
      MovedTwice(m, dst, src, lead, WORD * words);
      var m2 := Moved(m, dst, src, done);
      ChunksAreMoved(m2, dst + done, src + done, 1, n - done);
      MovedTwice(m, dst, src, done, n - done);
    }
  }

  lemma OneWord(m: seq<byte>, dst: nat, src: nat)
    requires dst + WORD <= |m| && src + WORD <= |m| && dst % WORD == 0
    ensures Copied(m, dst, src, WORD) == Moved(m, dst, src, WORD)
  {
    assert Chunks(m, dst, src, 1, 0) == m;
    assert Chunks(m, dst, src, WORD, 1) == Moved(m, dst, src, WORD);
  }

  // ---------------------------------------------------------------- where memcpy loses bytes

  /** A single 1 in memory of zeros. */
  ghost function One(size: nat, at: nat): (m: seq<byte>)
    ensures |m| == size && forall k :: 0 <= k < size ==> m[k] == if k == at then 1 else 0
  {
    seq(size, k => if k == at then 1 else 0)
  }

  ghost predicate Zero(m: seq<byte>) {
    forall k :: 0 <= k < |m| ==> m[k] == 0
  }

  lemma {:induction false} ZeroStays(m: seq<byte>, dst: nat, src: nat, size: nat, count: nat)
    requires dst + size * count <= |m| && src + size * count <= |m| && Zero(m)
    ensures Zero(Chunks(m, dst, src, size, count))
    decreases count
  {
    if count > 0 {
      assert size * count == size + size * (count - 1);
      ZeroStays(Moved(m, dst, src, size), dst + size, src + size, size, count - 1);
    }
  }

  /** Once the first chunk has wiped out the only 1, the copy is all zeros. */
  lemma FirstChunkDecides(m: seq<byte>, dst: nat, src: nat, n: nat)
    requires dst + n <= |m| && src + n <= |m| && n > 0
    requires Zero(Moved(m, dst, src, if dst % WORD == 0 && n >= WORD then WORD else 1))
    ensures Zero(Copied(m, dst, src, n))
  {
    hide Moved, Zero, Lead, WordCount;
    WordBound(dst, n);
    LeadStep(dst, n, 0);
    var lead := Lead(dst, n);
    var words := WordCount(dst, n);
    var done := lead + WORD * words;
    var m1 := Chunks(m, dst, src, 1, lead);
    var m2 := Chunks(m1, dst + lead, src + lead, WORD, words);
    if lead > 0 {
      ZeroStays(Moved(m, dst, src, 1), dst + 1, src + 1, 1, lead - 1);
      ZeroStays(m1, dst + lead, src + lead, WORD, words);
      ZeroStays(m2, dst + done, src + done, 1, n - done);
    } else if words > 0 {
      assert m1 == m && n >= WORD && dst % WORD == 0;
      ZeroStays(Moved(m, dst, src, WORD), dst + WORD, src + WORD, WORD, words - 1);
      ZeroStays(m2, dst + done, src + done, 1, n - done);
    } else {
      assert m2 == m && n < WORD;
      ZeroStays(Moved(m, dst, src, 1), dst + 1, src + 1, 1, n - 1);
    }
  }

  lemma FirstChunkWipes(size: nat, at: nat, dst: nat, src: nat, n: nat)
    requires dst + n <= size && src + n <= size && dst <= at < dst + n && !(src <= at < src + n)
    ensures Zero(Moved(One(size, at), dst, src, n))
  {
  }

  lemma MovedOne(size: nat, at: nat, dst: nat, src: nat, n: nat)
    requires dst + n <= size && src + n <= size && src <= at < src + n
    ensures Moved(One(size, at), dst, src, n)[dst + (at - src)] == 1
  {
  }

  lemma OverlapLoses(dst: nat, src: nat, n: nat, size: nat)
    requires Overlapped(dst, src, n) && dst + n <= size
    ensures exists m: seq<byte> :: |m| == size && Copied(m, dst, src, n) != Moved(m, dst, src, n)
  {
    hide Moved, Copied, One;
    var first := if dst % WORD == 0 && n >= WORD then WORD else 1;
    var at := if first == WORD && dst - src < WORD then src + WORD else dst;
    var m := One(size, at);
    FirstChunkWipes(size, at, dst, src, first);
    FirstChunkDecides(m, dst, src, n);
    MovedOne(size, at, dst, src, n);
    assert Copied(m, dst, src, n)[dst + (at - src)] == 0;
  }

  /** Whatever memory holds, memcpy copies exactly if and only if the destination does not start inside the source, or
      the copy is one aligned word. */
  lemma MemcpyExactIff(dst: nat, src: nat, n: nat, size: nat)
    requires dst + n <= size && src + n <= size
    ensures (forall m: seq<byte> | |m| == size :: Copied(m, dst, src, n) == Moved(m, dst, src, n))
            <==> !Overlapped(dst, src, n)
  {
    if Overlapped(dst, src, n) {
      OverlapLoses(dst, src, n, size);
    } else {
      forall m: seq<byte> | |m| == size
        ensures Copied(m, dst, src, n) == Moved(m, dst, src, n)
      {
        CopiedIsMoved(m, dst, src, n);
      }
    }
  }

  // ---------------------------------------------------------------- memmove

  /** Forwards when the source lies at or above the destination, backwards otherwise: always exact. */
  method Memmove(mem: array<byte>, dst: nat, src: nat, n: nat)
    requires dst + n <= mem.Length && src + n <= mem.Length
    modifies mem
    ensures mem[..] == Moved(old(mem[..]), dst, src, n)
  {
    if src >= dst {
      for i := 0 to n
        invariant forall k :: 0 <= k < mem.Length ==>
          mem[k] == if dst <= k < dst + i then old(mem[src + (k - dst)]) else old(mem[k])
      {
        mem[dst + i] := mem[src + i];
      }
    } else {
      for i := n downto 0
        invariant forall k :: 0 <= k < mem.Length ==>
          mem[k] == if dst + i <= k < dst + n then old(mem[src + (k - dst)]) else old(mem[k])
      {
        mem[dst + i] := mem[src + i];
      }
    }
  }

  // ---------------------------------------------------------------- memset

  /** The low byte repeated in all four bytes of a word. */
  function Splat(c: byte): nat {
    var v: int := c;
    v * 0x100_0000 + v * 0x1_0000 + v * 0x100 + v
  }

  function ByteOf(word: nat, i: nat): byte
    requires i < WORD
  {
    if i == 0 then word % 256
    else if i == 1 then word / 0x100 % 256
    else if i == 2 then word / 0x1_0000 % 256
    else word / 0x100_0000 % 256
  }

  lemma SplatBytes(c: byte, i: nat)
    requires i < WORD
    ensures ByteOf(Splat(c), i) == c
  {
    var v: int := c;
    var v2, v3, v4 := v * 0x101, v * 0x10101, v * 0x1010101;
    assert Splat(c) == v4;
    if i == 0 {
      assert v4 == v3 * 0x100 + v;
    } else if i == 1 {
      assert v4 == v3 * 0x100 + v && v3 == v2 * 0x100 + v;
      assert v4 / 0x100 == v3;
    } else if i == 2 {
      assert v4 == v2 * 0x1_0000 + v2 && v2 == v * 0x100 + v;
      assert v4 / 0x1_0000 == v2;
    } else {
      assert v4 == v * 0x100_0000 + v3;
      assert v4 / 0x100_0000 == v;
    }
  }

  ghost predicate Set(was: seq<byte>, now: seq<byte>, at: nat, n: nat, c: byte) {
    |was| == |now| && forall k :: 0 <= k < |was| ==> now[k] == if at <= k < at + n then c else was[k]
  }

  method StoreWord(mem: array<byte>, at: nat, word: nat)
    requires at + WORD <= mem.Length
    modifies mem
    ensures forall k :: 0 <= k < mem.Length ==>
      mem[k] == if at <= k < at + WORD then ByteOf(word, k - at) else old(mem[k])
  {
    mem[at], mem[at + 1] := ByteOf(word, 0), ByteOf(word, 1);
    mem[at + 2], mem[at + 3] := ByteOf(word, 2), ByteOf(word, 3);
  }

  /** Every byte of the region becomes the low byte of c, and no other byte changes. */
  method Memset(mem: array<byte>, at: nat, c: int, n: nat)
    requires at + n <= mem.Length
    modifies mem
    ensures Set(old(mem[..]), mem[..], at, n, c % 256)
  {
    var low: byte := c % 256;
    var i := 0;
    while i < n && (at + i) % WORD != 0
      invariant 0 <= i <= n && Set(old(mem[..]), mem[..], at, i, low)
      decreases n - i
    {
      mem[at + i] := low;
      i := i + 1;
    }
    var words := (n - i) / WORD;
    for j := 0 to words
      invariant Set(old(mem[..]), mem[..], at, i + WORD * j, low)
    {
      StoreWord(mem, at + i + WORD * j, Splat(low));
      forall k: nat | k < WORD ensures ByteOf(Splat(low), k) == low { SplatBytes(low, k); }
    }
    i := i + WORD * words;
    while i < n
      invariant 0 <= i <= n && Set(old(mem[..]), mem[..], at, i, low)
    {
      mem[at + i] := low;
      i := i + 1;
    }
  }
}
