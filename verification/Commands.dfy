/** Splitting a command line and recognising an executable. */
module Commands {
  import opened Common
  import opened FileSystem
  import Paging

  const HEADER_SIZE: nat := 52

  /** "shell" */
  const SHELL: seq<byte> := [115, 104, 101, 108, 108]

  lemma ShellSpelled()
    ensures |SHELL| == |"shell"| && forall i :: 0 <= i < |SHELL| ==> SHELL[i] == "shell"[i] as int
  {
  }

  // ---------------------------------------------------------------- command lines

  /** The first word: everything before the first space or NUL. */
  ghost function Word(s: seq<byte>): (r: seq<byte>)
    ensures |r| <= |s|
  {
    if CharAt(s, 0) == 0 || s[0] == SPACE then [] else [s[0]] + Word(s[1..])
  }

  ghost function SkipSpaces(s: seq<byte>): (r: seq<byte>)
    ensures |r| <= |s|
  {
    if s != [] && s[0] == SPACE then SkipSpaces(s[1..]) else s
  }

  /** The string at the front of s: everything before the first NUL. */
  function Text(s: seq<byte>): (r: seq<byte>)
    ensures |r| <= |s|
  {
    if CharAt(s, 0) == 0 then [] else [s[0]] + Text(s[1..])
  }

  datatype Command = Command(name: seq<byte>, args: seq<byte>)

  /** The first word of a command line and everything after the spaces behind it. */
  ghost function Split(s: seq<byte>): Command {
    Command(Word(s), Text(SkipSpaces(s[|Word(s)|..])))
  }

  /** A missing command and one that starts with a space are refused. */
  ghost predicate Splits(command: Option<seq<byte>>) {
    command.Some? && CharAt(command.value, 0) != SPACE
  }

  // ---------------------------------------------------------------- where the two strings go

  /** The layout of a process record: two unchecked string fields, three bytes of padding, the terminal tag. */
  const NAME_AT: nat := 153
  const ARGS_AT: nat := 281
  const TAG_AT: nat := 412
  const RECORD_SIZE: nat := 416
  const FIELD_SIZE: nat := 128

  /** What is read back from the two fields: a word that fills the first runs on into the second. */
  ghost function Stored(c: Command): Command {
    if |c.name| < FIELD_SIZE then c else c.(name := c.name[..FIELD_SIZE] + c.args)
  }

  ghost function Parse(command: Option<seq<byte>>): Option<Command> {
    if Splits(command) then Some(Stored(Split(command.value))) else None
  }

  /** Copying the command reaches the terminal tag of the new record, and perhaps the records after it. */
  ghost predicate Overruns(command: Option<seq<byte>>) {
    Splits(command) &&
    var c := Split(command.value);
    NAME_AT + |c.name| >= TAG_AT || ARGS_AT + |c.args| >= TAG_AT
  }

  /** Memory once the string s has been written at an address. */
  ghost function Poke(mem: seq<byte>, at: nat, s: seq<byte>): (r: seq<byte>)
    requires at + |s| <= |mem|
    ensures |r| == |mem|
  {
    seq(|mem|, k requires 0 <= k < |mem| => if at <= k < at + |s| then s[k - at] else mem[k])
  }

  ghost predicate Room(mem: seq<byte>, name: nat, args: nat, c: Command) {
    name + |c.name| < |mem| && args + |c.args| < |mem|
  }

  /** Memory once a command has been copied: the word and a NUL, then the arguments and a NUL. */
  ghost function Filled(mem: seq<byte>, name: nat, args: nat, c: Command): (r: seq<byte>)
    requires Room(mem, name, args, c)
    ensures |r| == |mem|
  {
    Poke(Poke(mem, name, c.name + [0]), args, c.args + [0])
  }

  lemma PokeMore(mem: seq<byte>, at: nat, s: seq<byte>, b: byte)
    requires at + |s| < |mem|
    ensures Poke(mem, at, s)[at + |s| := b] == Poke(mem, at, s + [b])
  {
  }

  lemma WordFrom(s: seq<byte>, i: nat)
    requires i <= |s|
    ensures if CharAt(s, i) == 0 || CharAt(s, i) == SPACE then Word(s[i..]) == []
            else i < |s| && Word(s[i..]) == [s[i]] + Word(s[i + 1..])
  {
    assert i < |s| ==> s[i..][1..] == s[i + 1..];
  }

  lemma TextFrom(s: seq<byte>, i: nat)
    requires i <= |s|
    ensures if CharAt(s, i) == 0 then Text(s[i..]) == [] else i < |s| && Text(s[i..]) == [s[i]] + Text(s[i + 1..])
  {
    assert i < |s| ==> s[i..][1..] == s[i + 1..];
  }

  lemma PokeNothing(mem: seq<byte>, at: nat)
    requires at <= |mem|
    ensures Poke(mem, at, []) == mem
  {
  }

  method CopyWord(s: seq<byte>, mem: array<byte>, at: nat) returns (i: nat)
    requires at + |Word(s)| < mem.Length
    modifies mem
    ensures i == |Word(s)| && mem[..] == Poke(old(mem[..]), at, Word(s) + [0])
  {
    hide Word, Poke;
    i := 0;
    ghost var was, done := mem[..], [];
    assert s[0..] == s;
    PokeNothing(was, at);
    WordFrom(s, 0);
    while CharAt(s, i) != SPACE && CharAt(s, i) != 0
      invariant i <= |s| && |done| == i && done + Word(s[i..]) == Word(s)
      invariant mem[..] == Poke(was, at, done)
      decreases |s| - i
    {
      WordFrom(s, i);
      PokeMore(was, at, done, s[i]);
      mem[at + i] := s[i];
      done := done + [s[i]];
      i := i + 1;
    }
    WordFrom(s, i);
    assert done == Word(s);
    PokeMore(was, at, done, 0);
    mem[at + i] := 0;
  }

  method PassSpaces(s: seq<byte>, start: nat) returns (i: nat)
    requires start <= |s|
    ensures i <= |s| && s[i..] == SkipSpaces(s[start..])
  {
    i := start;
    while CharAt(s, i) == SPACE
      invariant i <= |s| && SkipSpaces(s[i..]) == SkipSpaces(s[start..])
      decreases |s| - i
    {
      assert s[i..][1..] == s[i + 1..];
      i := i + 1;
    }
  }

  method CopyText(s: seq<byte>, start: nat, mem: array<byte>, at: nat)
    requires start <= |s| && at + |Text(s[start..])| < mem.Length
    modifies mem
    ensures mem[..] == Poke(old(mem[..]), at, Text(s[start..]) + [0])
  {
    hide Text, Poke;
    var i, j := start, 0;
    ghost var was, done, all := mem[..], [], Text(s[start..]);
    PokeNothing(was, at);
    while CharAt(s, i) != 0
      invariant i <= |s| && |done| == j && done + Text(s[i..]) == all
      invariant mem[..] == Poke(was, at, done)
      decreases |s| - i
    {
      TextFrom(s, i);
      PokeMore(was, at, done, s[i]);
      mem[at + j] := s[i];
      done := done + [s[i]];
      i := i + 1;
      j := j + 1;
    }
    TextFrom(s, i);
    assert done == all;
    PokeMore(was, at, done, 0);
    mem[at + j] := 0;
  }

  /** check_command: copies the word and the arguments to two addresses, whatever the size of what is there. */
  method CheckCommand(command: Option<seq<byte>>, mem: array<byte>, name: nat, args: nat) returns (r: int)
    requires Splits(command) ==> Room(mem[..], name, args, Split(command.value))
    modifies mem
    ensures r == if Splits(command) then 0 else -1
    ensures mem[..] == if Splits(command) then Filled(old(mem[..]), name, args, Split(command.value)) else old(mem[..])
  {
    if command.None? || CharAt(command.value, 0) == SPACE {
      return -1;
    }
    var i := CopyWord(command.value, mem, name);
    i := PassSpaces(command.value, i);
    CopyText(command.value, i, mem, args);
    return 0;
  }

  lemma {:induction false} TextEnds(s: seq<byte>, n: nat)
    requires n < |s| && s[n] == 0 && 0 !in s[..n]
    ensures Text(s) == s[..n]
  {
    if n > 0 {
      assert s[0] == s[..n][0];
      assert s[1..][..n - 1] == s[..n][1..];
      TextEnds(s[1..], n - 1);
    }
  }

  lemma {:induction false} NoNuls(s: seq<byte>)
    ensures 0 !in Word(s) && 0 !in Text(s)
  {
    if CharAt(s, 0) != 0 {
      NoNuls(s[1..]);
    }
  }

  /** What the copied fields read back as. */
  lemma FieldsReadBack(mem: seq<byte>, record: nat, s: seq<byte>)
    requires Room(mem, record + NAME_AT, record + ARGS_AT, Split(s))
    ensures
      var now := Filled(mem, record + NAME_AT, record + ARGS_AT, Split(s));
      Text(now[record + NAME_AT..]) == Stored(Split(s)).name && Text(now[record + ARGS_AT..]) == Stored(Split(s)).args
  {
    NoNuls(s);
    NoNuls(SkipSpaces(s[|Word(s)|..]));
    hide Split, Filled, Text;
    NameReadsBack(mem, record, Split(s));
    ArgsReadBack(mem, record, Split(s));
  }

  lemma ArgsReadBack(mem: seq<byte>, record: nat, c: Command)
    requires Room(mem, record + NAME_AT, record + ARGS_AT, c) && 0 !in c.args
    ensures Text(Filled(mem, record + NAME_AT, record + ARGS_AT, c)[record + ARGS_AT..]) == c.args
  {
    hide Text;
    var a := Filled(mem, record + NAME_AT, record + ARGS_AT, c)[record + ARGS_AT..];
    assert a[..|c.args|] == c.args;
    TextEnds(a, |c.args|);
  }

  lemma NameReadsBack(mem: seq<byte>, record: nat, c: Command)
    requires Room(mem, record + NAME_AT, record + ARGS_AT, c) && 0 !in c.name && 0 !in c.args
    ensures Text(Filled(mem, record + NAME_AT, record + ARGS_AT, c)[record + NAME_AT..]) == Stored(c).name
  {
    hide Text, Filled;
    var now, name := Filled(mem, record + NAME_AT, record + ARGS_AT, c), Stored(c).name;
    var n := now[record + NAME_AT..];
    forall k | 0 <= k <= |name|
      ensures k < |n| && n[k] == (name + [0])[k]
    {
      NameByte(mem, record, c, k);
    }
    assert n[..|name|] == name;
    TextEnds(n, |name|);
  }

  lemma NameByte(mem: seq<byte>, record: nat, c: Command, k: nat)
    requires Room(mem, record + NAME_AT, record + ARGS_AT, c) && k <= |Stored(c).name|
    ensures record + NAME_AT + k < |mem|
    ensures Filled(mem, record + NAME_AT, record + ARGS_AT, c)[record + NAME_AT + k] == (Stored(c).name + [0])[k]
  {
  }

  /** Bytes of memory a filled record leaves alone: all but its own two fields and padding. */
  ghost predicate RestKept(mem: seq<byte>, now: seq<byte>, record: nat)
    requires |now| == |mem|
  {
    forall k :: 0 <= k < |mem| && !(record + NAME_AT <= k < record + TAG_AT) ==> now[k] == mem[k]
  }

  /** Whatever memory holds, the record's other fields, its terminal tag and all other records survive a copy exactly
      when the command does not overrun. */
  lemma SurvivesIff(s: seq<byte>, record: nat, size: nat)
    requires Splits(Some(s)) && record + RECORD_SIZE <= size
    requires record + NAME_AT + |Split(s).name| < size && record + ARGS_AT + |Split(s).args| < size
    ensures (forall mem: seq<byte> | |mem| == size ::
               RestKept(mem, Filled(mem, record + NAME_AT, record + ARGS_AT, Split(s)), record))
            <==> !Overruns(Some(s))
  {
    hide Split, Filled;
    var c, name, args := Split(s), record + NAME_AT, record + ARGS_AT;
    if Overruns(Some(s)) {
      var zeros, ones := seq<byte>(size, _ => 0), seq<byte>(size, _ => 1);
      TagSame(zeros, ones, record, c);
      assert zeros[record + TAG_AT] != ones[record + TAG_AT];
      assert !RestKept(zeros, Filled(zeros, name, args, c), record)
          || !RestKept(ones, Filled(ones, name, args, c), record);
    } else {
      forall mem: seq<byte> | |mem| == size
        ensures RestKept(mem, Filled(mem, name, args, c), record)
      {
        FieldsHold(mem, record, c);
      }
    }
  }

  lemma FieldsHold(mem: seq<byte>, record: nat, c: Command)
    requires Room(mem, record + NAME_AT, record + ARGS_AT, c)
    requires NAME_AT + |c.name| < TAG_AT && ARGS_AT + |c.args| < TAG_AT
    ensures RestKept(mem, Filled(mem, record + NAME_AT, record + ARGS_AT, c), record)
  {
  }

  /** An overrunning copy leaves the same byte in the tag whatever was there. */
  lemma TagSame(mem: seq<byte>, mem': seq<byte>, record: nat, c: Command)
    requires Room(mem, record + NAME_AT, record + ARGS_AT, c) && |mem'| == |mem| >= record + RECORD_SIZE
    requires NAME_AT + |c.name| >= TAG_AT || ARGS_AT + |c.args| >= TAG_AT
    ensures Filled(mem, record + NAME_AT, record + ARGS_AT, c)[record + TAG_AT]
         == Filled(mem', record + NAME_AT, record + ARGS_AT, c)[record + TAG_AT]
  {
  }

  /** A command line of at most the length a terminal line can have never overruns. */
  lemma TypedCommandsFit(s: seq<byte>)
    requires |s| <= FIELD_SIZE
    ensures !Overruns(Some(s))
  {
  }

  ghost predicate PlainWord(s: seq<byte>) {
    forall i :: 0 <= i < |s| ==> s[i] != 0 && s[i] != SPACE
  }

  lemma {:induction false} WordOfJoin(name: seq<byte>, rest: seq<byte>)
    requires PlainWord(name) && (rest == [] || rest[0] == SPACE)
    ensures Word(name + rest) == name
  {
    if name == [] {
      assert name + rest == rest;
    } else {
      assert (name + rest)[1..] == name[1..] + rest;
      WordOfJoin(name[1..], rest);
    }
  }

  lemma {:induction false} SkipsAllSpaces(n: nat, args: seq<byte>)
    requires args == [] || args[0] != SPACE
    ensures SkipSpaces(seq(n, _ => SPACE) + args) == args
  {
    if n == 0 {
      assert seq(n, _ => SPACE) + args == args;
    } else {
      assert (seq(n, _ => SPACE) + args)[1..] == seq(n - 1, _ => SPACE) + args;
      SkipsAllSpaces(n - 1, args);
    }
  }

  lemma {:induction false} TextOfPlain(s: seq<byte>)
    requires 0 !in s
    ensures Text(s) == s
  {
    if s != [] {
      TextOfPlain(s[1..]);
    }
  }

  /** Splitting undoes joining a word and its arguments with any number of spaces. */
  lemma ParseInvertsJoin(name: seq<byte>, spaces: nat, args: seq<byte>)
    requires name != [] && PlainWord(name) && 0 !in args
    requires args != [] ==> spaces > 0 && args[0] != SPACE
    ensures Split(name + (seq(spaces, _ => SPACE) + args)) == Command(name, args)
  {
    var rest: seq<byte> := seq(spaces, _ => SPACE) + args;
    WordOfJoin(name, rest);
    assert (name + rest)[|name|..] == rest;
    SkipsAllSpaces(spaces, args);
    TextOfPlain(args);
  }

  lemma ParseShell()
    ensures Parse(Some(SHELL)) == Some(Command(SHELL, [])) && !Overruns(Some(SHELL))
  {
    ParseInvertsJoin(SHELL, 0, []);
    assert SHELL + (seq(0, _ => SPACE) + []) == SHELL;
  }

  lemma {:induction false} LookupAlike(entries: seq<Dentry>, name: seq<byte>, name': seq<byte>)
    requires CPrefix(name, MAX_NAME) == CPrefix(name', MAX_NAME)
    ensures Lookup(entries, name) == Lookup(entries, name')
  {
    if entries != [] {
      LookupAlike(entries[..|entries| - 1], name, name');
    }
  }

  /** A word that runs on into the arguments still names the same file: only its first 32 bytes are compared. */
  lemma StoredNameLooksUp(entries: seq<Dentry>, s: seq<byte>)
    ensures Lookup(entries, Stored(Split(s)).name) == Lookup(entries, Split(s).name)
  {
    var name, stored := Split(s).name, Stored(Split(s)).name;
    if |name| >= FIELD_SIZE {
      NoNuls(s);
      hide Split;
      assert forall k :: 0 <= k < MAX_NAME ==> CharAt(stored, k) == CharAt(name, k) == name[k] != 0;
      CPrefixSame(stored, name, MAX_NAME, MAX_NAME);
      LookupAlike(entries, stored, name);
    }
  }

  // ---------------------------------------------------------------- executables

  function LittleEndian(s: seq<byte>): int
    requires |s| == 4
  {
    var b0: int, b1: int, b2: int, b3: int := s[0], s[1], s[2], s[3];
    b0 + 0x100 * b1 + 0x1_0000 * b2 + 0x100_0000 * b3
  }

  predicate ValidHeader(h: seq<byte>)
    requires |h| == HEADER_SIZE
  {
    h[..4] == [0x7F, 69, 76, 70] && Paging.USER_BASE <= LittleEndian(h[24..28]) <= Paging.USER_BASE + Paging.PAGE_4MB
  }

  /** Four bytes hold a number, the lowest first. */
  ghost predicate StoredLowFirst(b0: int, b1: int, b2: int, b3: int, n: nat) {
    n == b0 + 256 * (b1 + 256 * (b2 + 256 * b3))
  }

  /** A header with the magic is accepted exactly when the entry address stored in it, low byte first, lies in the
      program page. */
  lemma HeaderAcceptedIff(h: seq<byte>, entry: nat)
    requires |h| == 52 && StoredLowFirst(h[24], h[25], h[26], h[27], entry)
    ensures ValidHeader(h) <==>
      && h[0] == 0x7F && h[1] == 'E' as int && h[2] == 'L' as int && h[3] == 'F' as int
      && 0x800_0000 <= entry <= 0x840_0000
  {
    assert LittleEndian(h[24..28]) == entry;
    assert h[..4] == [h[0], h[1], h[2], h[3]];
  }

  /** The header the check looks at: a file shorter than a header leaves the stack's old bytes there. */
  ghost function HeaderOf(img: Image, inode: nat, garbage: seq<byte>): (h: seq<byte>)
    requires ValidImage(img) && inode < |img.inodes| && |garbage| == HEADER_SIZE
    ensures |h| == HEADER_SIZE
  {
    if img.inodes[inode].length < HEADER_SIZE then garbage
    else Contents(img.data, img.inodes[inode])[..HEADER_SIZE]
  }

  ghost predicate Executable(img: Image, name: seq<byte>, garbage: seq<byte>)
    requires ValidImage(img) && |garbage| == HEADER_SIZE
  {
    var e := Lookup(img.entries, name);
    e.Some? && e.value.inode != 0 && ValidHeader(HeaderOf(img, e.value.inode, garbage))
  }

  /** A file that holds a whole header can be executed exactly when it is not inode 0, starts with the magic and names
      an entry address in the program page. */
  lemma ExecutableIff(img: Image, name: seq<byte>, garbage: seq<byte>, inode: nat, entry: nat)
    requires ValidImage(img) && |garbage| == 52 && inode < |img.inodes| && img.inodes[inode].length >= 52
    requires Lookup(img.entries, name).Some? && Lookup(img.entries, name).value.inode == inode
    requires
      var f := Contents(img.data, img.inodes[inode]);
      StoredLowFirst(f[24], f[25], f[26], f[27], entry)
    ensures
      var f := Contents(img.data, img.inodes[inode]);
      Executable(img, name, garbage) <==>
        && inode != 0 && 0x800_0000 <= entry <= 0x840_0000
        && f[0] == 0x7F && f[1] == 'E' as int && f[2] == 'L' as int && f[3] == 'F' as int
  {
    HeaderAcceptedIff(Contents(img.data, img.inodes[inode])[..52], entry);
  }

  lemma ExecutableFound(img: Image, name: seq<byte>, garbage: seq<byte>)
    requires ValidImage(img) && |garbage| == HEADER_SIZE && Executable(img, name, garbage)
    ensures Lookup(img.entries, name).Some?
  {
  }

  method CheckExecutable(img: Image, name: seq<byte>, garbage: seq<byte>) returns (ok: bool)
    requires ValidImage(img) && |garbage| == HEADER_SIZE
    ensures ok == Executable(img, name, garbage)
  {
    var e := ReadDentryByName(img.entries, name);
    if e.None? || e.value.inode == 0 {
      return false;
    }
    var header := new byte[HEADER_SIZE](i requires 0 <= i < HEADER_SIZE => garbage[i]);
    assert header[..] == garbage;
    var ino := img.inodes[e.value.inode];
    var _ := ReadData(img.data, ino, header, HEADER_SIZE);
    if HEADER_SIZE <= ino.length {
      LoadedIsContents(img.data, ino, HEADER_SIZE, garbage);
    }
    return ValidHeader(header[..]);
  }

  /** The image holds a shell that can be started whatever the stack holds. */
  ghost predicate ShellLoadable(img: Image) {
    ValidImage(img) && forall garbage: seq<byte> | |garbage| == HEADER_SIZE :: Executable(img, SHELL, garbage)
  }
}
