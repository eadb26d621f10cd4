/** The streaming line search of the grep program: a sliding 1024-byte buffer against a per-line specification. */
module Grep {
  import opened Common

  const BUFSIZE: nat := 1024

  // ---------------------------------------------------------------- what a search should print

  /** The length of the first line of a text. */
  ghost function LineEnd(f: seq<byte>): (n: nat)
    ensures n <= |f| && NEWLINE !in f[..n] && (n < |f| ==> f[n] == NEWLINE)
  {
    if f == [] || f[0] == NEWLINE then 0 else 1 + LineEnd(f[1..])
  }

  ghost function Lines(f: seq<byte>): seq<seq<byte>> {
    var n := LineEnd(f);
    if f == [] then [] else [f[..n]] + if n < |f| then Lines(f[n + 1..]) else []
  }

  /** Lines, each ended by a newline. */
  ghost function Ended(lines: seq<seq<byte>>): seq<byte> {
    if lines == [] then [] else lines[0] + [NEWLINE] + Ended(lines[1..])
  }

  /** The lines of a text put together again are the text, but for a newline missing at its end ... */
  lemma {:induction false} LinesTogether(f: seq<byte>)
    ensures Ended(Lines(f)) == f || Ended(Lines(f)) == f + [NEWLINE]
    decreases |f|
  {
    hide Lines, Ended;
    NoLines();
    EndedCons(f, []);
    if f != [] {
      var n := LineEnd(f);
      LinesOf(f);
      EndedCons(f[..n], Lines(After(f)));
      LinesTogether(After(f));
      if n < |f| {
        AroundNewline(f, n);
      } else {
        assert After(f) == [] && f[..n] == f;
        assert f + [NEWLINE] + [] == f + [NEWLINE];
      }
    }
  }

  lemma AroundNewline(f: seq<byte>, n: nat)
    requires n < |f| && f[n] == NEWLINE
    ensures f[..n] + [NEWLINE] + f[n + 1..] == f
    ensures f[..n] + [NEWLINE] + (f[n + 1..] + [NEWLINE]) == f + [NEWLINE]
  {
  }

  lemma EndedCons(line: seq<byte>, rest: seq<seq<byte>>)
    ensures Ended([line] + rest) == line + [NEWLINE] + Ended(rest) && Ended([]) == []
  {
    assert ([line] + rest)[1..] == rest;
  }

  /** ... and any lines put together are found again. */
  lemma {:induction false} LinesApart(lines: seq<seq<byte>>)
    requires forall i :: 0 <= i < |lines| ==> NEWLINE !in lines[i]
    ensures Lines(Ended(lines)) == lines
  {
    if lines != [] {
      var f, n := Ended(lines), |lines[0]|;
      assert forall i :: 0 <= i < n ==> f[i] == lines[0][i];
      LineEndUnique(f, n);
      assert f[..n] == lines[0] && f[n + 1..] == Ended(lines[1..]);
      LinesApart(lines[1..]);
    }
  }

  ghost predicate OccursAt(line: seq<byte>, s: seq<byte>, k: int) {
    0 <= k && k + |s| <= |line| && line[k..k + |s|] == s
  }

  ghost predicate Contains(line: seq<byte>, s: seq<byte>) {
    exists k :: OccursAt(line, s, k)
  }

  /** The lines that contain the string, in order: what a search should print. */
  ghost function PlainHits(lines: seq<seq<byte>>, s: seq<byte>): seq<seq<byte>> {
    if lines == [] then []
    else (if Contains(lines[0], s) then [lines[0]] else []) + PlainHits(lines[1..], s)
  }

  // ---------------------------------------------------------------- what the program prints

  /** The first byte is compared through a signed character: a string that starts above 127 is never found, nor is the
      empty one, whose first byte is its NUL. */
  ghost predicate Findable(s: seq<byte>) {
    s != [] && s[0] < 128
  }

  ghost predicate Matches(line: seq<byte>, s: seq<byte>) {
    Findable(s) && Contains(line, s)
  }

  ghost function Hits(lines: seq<seq<byte>>, s: seq<byte>): seq<seq<byte>> {
    if lines == [] then []
    else (if Matches(lines[0], s) then [lines[0]] else []) + Hits(lines[1..], s)
  }

  /** The lines as the buffer sees them: one longer than the buffer is cut into buffer-sized pieces. */
  ghost function Pieces(f: seq<byte>): seq<seq<byte>> {
    var n := LineEnd(f);
    if f == [] then []
    else if n >= BUFSIZE then [f[..BUFSIZE]] + Pieces(f[BUFSIZE..])
    else [f[..n]] + if n < |f| then Pieces(f[n + 1..]) else []
  }

  /** What a search of a text prints. */
  ghost function Found(f: seq<byte>, s: seq<byte>): seq<seq<byte>> {
    Hits(Pieces(f), s)
  }

  /** One line's share of the output. */
  ghost function Hit(line: seq<byte>, s: seq<byte>): seq<seq<byte>> {
    if Matches(line, s) then [line] else []
  }

  lemma HitsCons(line: seq<byte>, rest: seq<seq<byte>>, s: seq<byte>)
    ensures Hits([line] + rest, s) == Hit(line, s) + Hits(rest, s)
  {
    assert ([line] + rest)[1..] == rest;
  }

  lemma {:induction false} LineEndUnique(f: seq<byte>, n: nat)
    requires n <= |f| && (forall i :: 0 <= i < n ==> f[i] != NEWLINE) && (n < |f| ==> f[n] == NEWLINE)
    ensures LineEnd(f) == n
  {
    if n > 0 {
      LineEndUnique(f[1..], n - 1);
    }
  }

  // ---------------------------------------------------------------- when the pieces give the same answer as the lines

  /** What follows the first line. */
  ghost function After(f: seq<byte>): seq<byte> {
    if LineEnd(f) < |f| then f[LineEnd(f) + 1..] else []
  }

  lemma LinesOf(f: seq<byte>)
    requires f != []
    ensures Lines(f) == [f[..LineEnd(f)]] + Lines(After(f)) && |After(f)| < |f|
  {
  }

  lemma PiecesOf(f: seq<byte>)
    requires f != []
    ensures LineEnd(f) < BUFSIZE ==> Pieces(f) == [f[..LineEnd(f)]] + Pieces(After(f))
    ensures LineEnd(f) >= BUFSIZE ==> Pieces(f) == [f[..BUFSIZE]] + Pieces(f[BUFSIZE..])
  {
  }

  /** Cutting a long line leaves the lines after it alone. */
  lemma AfterCut(f: seq<byte>)
    requires LineEnd(f) >= BUFSIZE
    ensures f[BUFSIZE..] == [] || After(f[BUFSIZE..]) == After(f)
    ensures LineEnd(f[BUFSIZE..]) == LineEnd(f) - BUFSIZE
  {
    var n := LineEnd(f);
    var g := f[BUFSIZE..];
    assert forall i :: 0 <= i < n ==> f[i] == f[..n][i];
    LineEndUnique(g, n - BUFSIZE);
  }

  lemma PlainHitsFirst(f: seq<byte>, s: seq<byte>)
    requires f != []
    ensures PlainHits(Lines(f), s)
         == (if Contains(f[..LineEnd(f)], s) then [f[..LineEnd(f)]] else []) + PlainHits(Lines(After(f)), s)
  {
    LinesOf(f);
    assert Lines(f)[1..] == Lines(After(f));
  }

  lemma NoLines()
    ensures Lines([]) == [] && Pieces([]) == []
  {
  }

  lemma ContainsWithin(line: seq<byte>, i: nat, j: nat, s: seq<byte>)
    requires i <= j <= |line| && Contains(line[i..j], s)
    ensures Contains(line, s)
  {
    var k :| OccursAt(line[i..j], s, k);
    assert forall m :: 0 <= m < |s| ==> s[m] == line[i..j][k..k + |s|][m] == line[i + k + m];
    assert line[i + k..i + k + |s|] == s;
    assert OccursAt(line, s, i + k);
  }

  /** A line the buffer cannot hold does not contain the string. */
  ghost predicate NotCut(line: seq<byte>, s: seq<byte>) {
    |line| > BUFSIZE ==> !Contains(line, s)
  }

  lemma {:induction false} PiecesAgree(f: seq<byte>, s: seq<byte>)
    requires Findable(s) && forall l <- Lines(f) :: NotCut(l, s)
    ensures Found(f, s) == PlainHits(Lines(f), s)
    decreases |f|
  {
    hide Lines, Pieces, LineEnd, Hits, PlainHits, After, Contains;
    NoLines();
    if f != [] {
      var n, g := LineEnd(f), After(f);
      LinesOf(f);
      PiecesOf(f);
      PlainHitsFirst(f, s);
      assert Lines(f)[0] == f[..n] && Lines(f)[1..] == Lines(g);
      if n < BUFSIZE {
        PiecesAgree(g, s);
        HitsCons(f[..n], Pieces(g), s);
      } else {
        PiecesAgreeAfterCut(f, s);
      }
    } else {
      assert Hits([], s) == [] == PlainHits([], s) by { NothingFound(s); }
    }
  }

  /** A line at least as long as the buffer: its first piece, then the rest of it as a line of its own. */
  lemma {:induction false} PiecesAgreeAfterCut(f: seq<byte>, s: seq<byte>)
    requires LineEnd(f) >= BUFSIZE && Findable(s) && forall l <- Lines(f) :: NotCut(l, s)
    ensures Found(f, s) == PlainHits(Lines(f), s)
    decreases |f|, 0
  {
    hide Lines, Pieces, Hits, PlainHits, Contains;
    var n, cut, g := LineEnd(f), f[..BUFSIZE], f[BUFSIZE..];
    var line := f[..n];
    LinesOf(f);
    PiecesOf(f);
    AfterCut(f);
    PlainHitsFirst(f, s);
    HitsCons(cut, Pieces(g), s);
    NoLines();
    assert Lines(f)[0] == line && Lines(f)[1..] == Lines(After(f));
    assert NotCut(line, s) && cut == line[0..BUFSIZE];
    if Contains(cut, s) {
      ContainsWithin(line, 0, BUFSIZE, s);
      assert n == BUFSIZE && line == cut;
    }
    if g != [] {
      var tail := g[..LineEnd(g)];
      LinesOf(g);
      PlainHitsFirst(g, s);
      TailOfLine(f, n);
      if Contains(tail, s) {
        LongEnough(tail, s);
        ContainsWithin(line, BUFSIZE, n, s);
        assert false;
      }
      PiecesAgree(g, s);
      assert n == BUFSIZE ==> line == cut;
    } else {
      assert After(f) == [] && line == cut;
      NothingFound(s);
    }
  }

  lemma TailOfLine(f: seq<byte>, n: nat)
    requires BUFSIZE <= n <= |f|
    ensures f[BUFSIZE..][..n - BUFSIZE] == f[..n][BUFSIZE..n]
  {
  }

  lemma LongEnough(line: seq<byte>, s: seq<byte>)
    requires Contains(line, s)
    ensures |s| <= |line| && forall i :: 0 <= i < |s| ==> s[i] in line
  {
    var k :| OccursAt(line, s, k);
    assert forall i :: 0 <= i < |s| ==> s[i] == line[k..k + |s|][i] == line[k + i];
  }

  ghost function Flat(parts: seq<seq<byte>>): seq<byte> {
    if parts == [] then [] else parts[0] + Flat(parts[1..])
  }

  /** The pieces hold every byte of the lines, in order, and nothing else. */
  lemma {:induction false} PiecesHoldLines(f: seq<byte>)
    ensures Flat(Pieces(f)) == Flat(Lines(f))
    decreases |f|
  {
    hide Lines, Pieces, Flat, After;
    NoLines();
    if f != [] {
      var n := LineEnd(f);
      LinesOf(f);
      PiecesOf(f);
      FlatCons(f[..n], Lines(After(f)));
      if n < BUFSIZE {
        PiecesHoldLines(After(f));
        FlatCons(f[..n], Pieces(After(f)));
      } else {
        PiecesHoldLines(f[BUFSIZE..]);
        CutHoldsLine(f);
      }
    }
  }

  lemma FlatCons(part: seq<byte>, rest: seq<seq<byte>>)
    ensures Flat([part] + rest) == part + Flat(rest)
  {
    assert ([part] + rest)[1..] == rest;
  }

  lemma CutHoldsLine(f: seq<byte>)
    requires LineEnd(f) >= BUFSIZE
    ensures Flat([f[..BUFSIZE]] + Pieces(f[BUFSIZE..])) == f[..BUFSIZE] + Flat(Pieces(f[BUFSIZE..]))
    ensures Flat(Lines(f)) == f[..BUFSIZE] + Flat(Lines(f[BUFSIZE..]))
  {
    hide Lines, Pieces, Flat;
    var n, g := LineEnd(f), f[BUFSIZE..];
    FlatCons(f[..BUFSIZE], Pieces(g));
    LinesOf(f);
    FlatCons(f[..n], Lines(After(f)));
    AfterCut(f);
    NoLines();
    if g != [] {
      LinesOf(g);
      FlatCons(g[..n - BUFSIZE], Lines(After(g)));
      assert f[..n] == f[..BUFSIZE] + g[..n - BUFSIZE];
    } else {
      assert After(f) == [] && f[..n] == f[..BUFSIZE];
    }
  }

  lemma {:induction false} PiecesAreShort(f: seq<byte>)
    ensures forall p <- Pieces(f) :: |p| <= BUFSIZE
    decreases |f|
  {
    var n := LineEnd(f);
    if f == [] {
    } else if n >= BUFSIZE {
      PiecesAreShort(f[BUFSIZE..]);
    } else if n < |f| {
      PiecesAreShort(f[n + 1..]);
    }
  }

  lemma {:induction false} HitsAre(lines: seq<seq<byte>>, s: seq<byte>, l: seq<byte>)
    ensures l in Hits(lines, s) <==> l in lines && Matches(l, s)
  {
    if lines != [] {
      HitsAre(lines[1..], s, l);
    }
  }

  lemma {:induction false} PlainHitsAre(lines: seq<seq<byte>>, s: seq<byte>, l: seq<byte>)
    ensures l in PlainHits(lines, s) <==> l in lines && Contains(l, s)
  {
    if lines != [] {
      PlainHitsAre(lines[1..], s, l);
    }
  }

  lemma {:induction false} LinesHoldFileBytes(f: seq<byte>, l: seq<byte>, i: nat)
    requires l in Lines(f) && i < |l|
    ensures l[i] in f && l[i] != NEWLINE
    decreases |f|
  {
    LinesOf(f);
    if l != f[..LineEnd(f)] {
      LinesHoldFileBytes(After(f), l, i);
    }
  }

  /** A line with the string on it that the program can print: it fits in the buffer, and the string can be found. */
  ghost predicate Reachable(l: seq<byte>, s: seq<byte>) {
    Contains(l, s) ==> |l| <= BUFSIZE && Findable(s)
  }

  /** The program prints exactly the lines that contain the string if and only if all of those fit in the buffer and
      the string is non-empty and starts below 128. */
  lemma StreamingExactIff(f: seq<byte>, s: seq<byte>)
    ensures Found(f, s) == PlainHits(Lines(f), s) <==> forall l <- Lines(f) :: Reachable(l, s)
  {
    hide Lines, Pieces, Hits, PlainHits;
    var lines := Lines(f);
    if forall l <- lines :: Reachable(l, s) {
      if Findable(s) {
        PiecesAgree(f, s);
      } else {
        if PlainHits(lines, s) != [] {
          PlainHitsAre(lines, s, PlainHits(lines, s)[0]);
          assert false;
        }
        NeverFound(f, s);
      }
    } else {
      var l :| l in lines && !Reachable(l, s);
      PlainHitsAre(lines, s, l);
      HitsAre(Pieces(f), s, l);
      PiecesAreShort(f);
    }
  }

  lemma NeverFound(f: seq<byte>, s: seq<byte>)
    requires !Findable(s)
    ensures Found(f, s) == []
  {
    hide Hits;
    var out := Hits(Pieces(f), s);
    if out != [] {
      HitsAre(Pieces(f), s, out[0]);
      assert false;
    }
  }

  // ---------------------------------------------------------------- for every file, and for every string

  lemma OneLine(l: seq<byte>)
    requires l != [] && NEWLINE !in l
    ensures Lines(l) == [l]
  {
    LineEndUnique(l, |l|);
    assert l[..|l|] == l;
  }

  ghost predicate ShortLines(f: seq<byte>) {
    forall l <- Lines(f) :: |l| <= BUFSIZE
  }

  /** The strings for which every text of short lines is searched exactly: those that can be found, and those no such
      line can contain. */
  lemma ExactStringsIff(s: seq<byte>)
    requires 0 !in s
    ensures (forall f: seq<byte> | 0 !in f && ShortLines(f) :: Found(f, s) == PlainHits(Lines(f), s))
            <==> Findable(s) || NEWLINE in s || |s| > BUFSIZE
  {
    hide Lines, Found, PlainHits, Contains;
    if Findable(s) || NEWLINE in s || |s| > BUFSIZE {
      forall f: seq<byte> | 0 !in f && ShortLines(f)
        ensures Found(f, s) == PlainHits(Lines(f), s)
      {
        forall l <- Lines(f)
          ensures Reachable(l, s)
        {
          if Contains(l, s) {
            LongEnough(l, s);
            forall i | 0 <= i < |l| ensures l[i] != NEWLINE { LinesHoldFileBytes(f, l, i); }
          }
        }
        StreamingExactIff(f, s);
      }
    } else {
      var f: seq<byte> := if s == [] then [SPACE] else s;
      OneLine(f);
      assert Contains(f, s) by { SelfContained(f, s); }
      assert f in Lines(f) && !Reachable(f, s);
      StreamingExactIff(f, s);
      assert ShortLines(f);
    }
  }

  lemma SelfContained(f: seq<byte>, s: seq<byte>)
    requires s == [] || f == s
    ensures Contains(f, s)
  {
    assert f[0..|s|] == s;
    assert OccursAt(f, s, 0);
  }

  /** The texts that are searched exactly for every string that can be found: no line is longer than the buffer, but
      for lines no such string can start in. */
  lemma ExactTextsIff(f: seq<byte>)
    requires 0 !in f
    ensures (forall s: seq<byte> | 0 !in s && Findable(s) :: Found(f, s) == PlainHits(Lines(f), s))
            <==> forall l <- Lines(f) :: |l| <= BUFSIZE || forall c <- l :: c >= 128
  {
    hide Lines, Found, PlainHits, Contains;
    if forall l <- Lines(f) :: |l| <= BUFSIZE || forall c <- l :: c >= 128 {
      forall s: seq<byte> | 0 !in s && Findable(s)
        ensures Found(f, s) == PlainHits(Lines(f), s)
      {
        forall l <- Lines(f)
          ensures Reachable(l, s)
        {
          if Contains(l, s) {
            LongEnough(l, s);
            assert s[0] in l;
          }
        }
        StreamingExactIff(f, s);
      }
    } else {
      var l :| l in Lines(f) && |l| > BUFSIZE && exists c <- l :: c < 128;
      var i :| 0 <= i < |l| && l[i] < 128;
      OneByteSearch(f, l, i);
      assert |l| > BUFSIZE && !Reachable(l, [l[i]]);
      StreamingExactIff(f, [l[i]]);
    }
  }

  /** The texts that are searched exactly for every non-empty string: short lines of characters below 128. */
  lemma PlainTextsIff(f: seq<byte>)
    requires 0 !in f
    ensures (forall s: seq<byte> | 0 !in s && s != [] :: Found(f, s) == PlainHits(Lines(f), s))
            <==> forall l <- Lines(f) :: |l| <= BUFSIZE && forall c <- l :: c < 128
  {
    hide Lines, Found, PlainHits, Contains;
    if forall l <- Lines(f) :: |l| <= BUFSIZE && forall c <- l :: c < 128 {
      forall s: seq<byte> | 0 !in s && s != []
        ensures Found(f, s) == PlainHits(Lines(f), s)
      {
        forall l <- Lines(f)
          ensures Reachable(l, s)
        {
          if Contains(l, s) {
            LongEnough(l, s);
            assert s[0] in l;
          }
        }
        StreamingExactIff(f, s);
      }
    } else {
      var l :| l in Lines(f) && (|l| > BUFSIZE || exists c <- l :: c >= 128);
      var i :| 0 <= i < |l| && (|l| > BUFSIZE || l[i] >= 128);
      OneByteSearch(f, l, i);
      assert !Reachable(l, [l[i]]);
      StreamingExactIff(f, [l[i]]);
    }
  }

  lemma OneByteSearch(f: seq<byte>, l: seq<byte>, i: nat)
    requires 0 !in f && l in Lines(f) && i < |l|
    ensures 0 !in [l[i]] && Contains(l, [l[i]])
  {
    LinesHoldFileBytes(f, l, i);
    assert OccursAt(l, [l[i]], i);
  }

  /** A text and a string for which a line that contains the string is not printed. */
  lemma HighByteLost()
    ensures var c: seq<byte> := [0xC3]; Found(c, c) == [] && PlainHits(Lines(c), c) == [c]
  {
    var c: seq<byte> := [0xC3];
    OneLine(c);
    SelfContained(c, c);
    NeverFound(c, c);
    PlainHitsAre([c], c, c);
  }

  // ---------------------------------------------------------------- the program

  lemma OccursMeans(line: seq<byte>, s: seq<byte>, k: nat)
    ensures OccursAt(line, s, k) ==> k + |s| <= |line| && forall i :: 0 <= i < |s| ==> line[k + i] == s[i]
  {
    if OccursAt(line, s, k) {
      assert forall i :: 0 <= i < |s| ==> line[k..k + |s|][i] == s[i];
    }
  }

  /** ece391_strncmp against a string whose text ends at `end`: zero exactly when s occurs at `at`. */
  method StrncmpAt(data: array<byte>, at: nat, s: seq<byte>, ghost start: nat, ghost end: nat) returns (r: int)
    requires start <= at < end < data.Length && data[end] == 0 && 0 !in data[start..end] && 0 !in s && s != []
    ensures r == 0 <==> OccursAt(data[start..end], s, at - start)
  {
    ghost var line := data[start..end];
    assert forall k :: start <= k < end ==> data[k] == line[k - start] != 0;
    var i, n := 0, |s|;
    while data[at + i] == CharAt(s, i)
      invariant 0 <= i < |s| && n == |s| - i && at + i <= end
      invariant forall k :: 0 <= k < i ==> data[at + k] == s[k]
      decreases n
    {
      if data[at + i] == 0 || n - 1 == 0 {
        assert line[at - start..at - start + |s|] == s;
        return 0;
      }
      n := n - 1;
      i := i + 1;
    }
    OccursMeans(line, s, at - start);
    return data[at + i] - CharAt(s, i);
  }

  /** Tries every place in a line. */
  method SearchLine(data: array<byte>, start: nat, end: nat, s: seq<byte>) returns (found: bool)
    requires start <= end < data.Length && data[end] == 0 && 0 !in data[start..end] && 0 !in s
    ensures found == Matches(data[start..end], s)
  {
    ghost var line := data[start..end];
    for check := start to end
      invariant forall k :: 0 <= k < check - start && s != [] && s[0] < 128 ==> !OccursAt(line, s, k)
    {
      assert data[check] == line[check - start] != 0;
      if Signed(CharAt(s, 0)) == data[check] {
        var c := StrncmpAt(data, check, s, start, end);
        if c == 0 {
          return true;
        }
      }
      OccursMeans(line, s, check - start);
    }
    return false;
  }

  /** The end of the line that starts at `start`: a newline or the end of the data read so far. */
  method FindLineEnd(data: array<byte>, start: nat, last: nat) returns (end: nat)
    requires start <= last < data.Length
    ensures start <= end <= last && NEWLINE !in data[start..end] && (end < last ==> data[end] == NEWLINE)
  {
    end := start;
    while end < last && data[end] != NEWLINE
      invariant start <= end <= last && NEWLINE !in data[start..end]
    {
      end := end + 1;
    }
  }

  /** ece391_strcpy of the unfinished line down to the front of the buffer. */
  method MoveDown(data: array<byte>, start: nat, end: nat)
    requires 0 < start <= end < data.Length && data[end] == 0 && 0 !in data[start..end]
    modifies data
    ensures data[..end - start] == old(data[start..end])
    ensures forall k :: end < k < data.Length ==> data[k] == old(data[k])
    ensures data[end] == 0 || end - start == end
  {
    var i := 0;
    ghost var line := data[start..end];
    assert forall k :: start <= k < end ==> data[k] == line[k - start] != 0;
    data[0] := data[start];
    while data[i] != 0
      invariant 0 <= i <= end - start
      invariant forall k :: 0 <= k < i ==> data[k] == line[k]
      invariant data[i] == old(data[start + i])
      invariant forall k :: i < k < data.Length ==> data[k] == old(data[k])
      decreases end - start - i
    {
      i := i + 1;
      data[i] := data[start + i];
    }
  }

  /** Printing the line a scan stopped at leaves the pieces after it: the line ended at a newline, filled the buffer, or
      was the end of the file. */
  lemma PieceTaken(have: seq<byte>, rest: seq<byte>, e: nat, s: seq<byte>)
    requires e <= |have| <= BUFSIZE && NEWLINE !in have[..e] && (e < |have| ==> have[e] == NEWLINE)
    requires e == |have| ==> |have| == BUFSIZE || rest == []
    ensures
      var next := if e < |have| then have[e + 1..] else [];
      Found(have + rest, s) == Hit(have[..e], s) + Found(next + rest, s)
  {
    hide Hits, Matches, Pieces;
    var todo, line := have + rest, have[..e];
    var next := if e < |have| then have[e + 1..] else [];
    assert forall i :: 0 <= i < e ==> have[i] == line[i];
    NoLines();
    if todo == [] {
      assert next + rest == [] && line == [];
      NothingFound(s);
      NotInEmpty(s);
    } else if e < |have| || |have| < BUFSIZE {
      LineEndUnique(todo, e);
      PiecesOf(todo);
      assert todo[..e] == line && After(todo) == next + rest;
      HitsCons(line, Pieces(next + rest), s);
    } else {
      LineEndAtLeast(todo, e);
      PiecesOf(todo);
      assert todo[..BUFSIZE] == line && todo[BUFSIZE..] == next + rest;
      HitsCons(line, Pieces(next + rest), s);
    }
  }

  lemma {:induction false} LineEndAtLeast(f: seq<byte>, n: nat)
    requires n <= |f| && forall i :: 0 <= i < n ==> f[i] != NEWLINE
    ensures LineEnd(f) >= n
  {
    if n > 0 {
      LineEndAtLeast(f[1..], n - 1);
    }
  }

  lemma NotInEmpty(s: seq<byte>)
    ensures !Matches([], s)
  {
  }

  /** Ends the line with a NUL, searches it and prints it if it matches; the text after it is still to be searched. */
  method TakeLine(data: array<byte>, start: nat, end: nat, last: nat, s: seq<byte>, ghost rest: seq<byte>)
    returns (printed: seq<seq<byte>>)
    requires data.Length == BUFSIZE + 1 && start <= end <= last <= BUFSIZE && 0 !in data[start..last] && 0 !in s
    requires NEWLINE !in data[start..end] && (end < last ==> data[end] == NEWLINE) && data[BUFSIZE] != NEWLINE
    requires end == last ==> last - start == BUFSIZE || rest == []
    modifies data
    ensures Found(old(data[start..last]) + rest, s)
         == printed + Found((if end < last then data[end + 1..last] else []) + rest, s)
    ensures end < last ==> 0 !in data[end + 1..last]
    ensures data[BUFSIZE] != NEWLINE
  {
    hide Found, Matches;
    ghost var have, line := data[start..last], data[start..end];
    assert have[..end - start] == line;
    PieceTaken(have, rest, end - start, s);
    data[end] := 0;
    assert data[start..end] == line;
    var found := SearchLine(data, start, end, s);
    printed := if found then [data[start..end]] else [];
    if end < last {
      assert data[end + 1..last] == have[end + 1 - start..];
    }
  }

  /** Keeps an unfinished line at the front of the buffer. */
  method KeepTail(data: array<byte>, start: nat, last: nat)
    requires data.Length == BUFSIZE + 1 && 0 < start <= last <= BUFSIZE && 0 !in data[start..last]
    requires data[BUFSIZE] != NEWLINE
    modifies data
    ensures data[..last - start] == old(data[start..last]) && data[BUFSIZE] != NEWLINE
  {
    data[last] := 0;
    assert data[start..last] == old(data[start..last]);
    MoveDown(data, start, last);
  }

  /** One buffer's worth: prints the finished lines and keeps what is unfinished at the front. `rest` is what the file
      still holds; the read that filled the buffer came up short only if that is nothing. */
  method ScanBuffer(data: array<byte>, last: nat, cnt: nat, s: seq<byte>, ghost rest: seq<byte>)
    returns (kept: nat, out: seq<seq<byte>>)
    requires data.Length == BUFSIZE + 1 && last <= BUFSIZE && data[BUFSIZE] != NEWLINE
    requires 0 !in data[..last] && 0 !in s
    requires (last < BUFSIZE ==> rest == []) && (cnt == 0 ==> last < BUFSIZE)
    modifies data
    ensures kept < BUFSIZE && data[BUFSIZE] != NEWLINE && 0 !in data[..kept] && (cnt == 0 ==> kept == 0)
    ensures out + Found(data[..kept] + rest, s) == Found(old(data[..last]) + rest, s)
  {
    hide Found;
    ghost var whole := Found(data[..last] + rest, s);
    var start := 0;
    out := [];
    assert data[0..last] == data[..last];
    while true
      invariant 0 <= start <= last && (start == last ==> start == 0)
      invariant data[BUFSIZE] != NEWLINE && 0 !in data[start..last]
      invariant out + Found(data[start..last] + rest, s) == whole
      decreases last - start
    {
      var end := FindLineEnd(data, start, last);
      if data[end] != NEWLINE && cnt != 0 && start != 0 {
        KeepTail(data, start, last);
        kept := last - start;
        return;
      }
      var printed := TakeLine(data, start, end, last, s, rest);
      Regroup(out, printed, Found((if end < last then data[end + 1..last] else []) + rest, s));
      out := out + printed;
      start := end + 1;
      if start >= last {
        kept := 0;
        assert data[..0] == (if end < last then data[end + 1..last] else []);
        return;
      }
    }
  }

  lemma Regroup(a: seq<seq<byte>>, b: seq<seq<byte>>, c: seq<seq<byte>>)
    ensures a + (b + c) == (a + b) + c
  {
  }

  /** The reader behind the descriptor: short only at the end of the file. */
  method ReadInto(f: seq<byte>, pos: nat, data: array<byte>, at: nat, n: nat) returns (cnt: nat)
    requires pos <= |f| && at + n <= data.Length
    modifies data
    ensures cnt == Min(n, |f| - pos)
    ensures forall k :: 0 <= k < data.Length ==> data[k] == if at <= k < at + cnt then f[pos + k - at] else old(data[k])
  {
    cnt := 0;
    while cnt < n && pos + cnt < |f|
      invariant 0 <= cnt <= Min(n, |f| - pos)
      invariant forall k :: 0 <= k < data.Length ==>
        data[k] == if at <= k < at + cnt then f[pos + k - at] else old(data[k])
    {
      data[at + cnt] := f[pos + cnt];
      cnt := cnt + 1;
    }
  }

  /** Tops the buffer up: buffer and file together still hold the same text. */
  method Refill(f: seq<byte>, pos: nat, data: array<byte>, last: nat) returns (cnt: nat)
    requires data.Length == BUFSIZE + 1 && last <= BUFSIZE && pos <= |f| && 0 !in f && 0 !in data[..last]
    requires data[BUFSIZE] != NEWLINE
    modifies data
    ensures cnt == Min(BUFSIZE - last, |f| - pos) && data[BUFSIZE] != NEWLINE
    ensures data[..last + cnt] + f[pos + cnt..] == old(data[..last]) + f[pos..]
    ensures 0 !in data[..last + cnt]
  {
    ghost var had := data[..last];
    cnt := ReadInto(f, pos, data, last, BUFSIZE - last);
    assert data[..last + cnt] == had + f[pos..pos + cnt];
    assert f[pos..] == f[pos..pos + cnt] + f[pos + cnt..];
  }

  /** do_one_file: prints, in file order and once each, exactly the pieces that match, and terminates. */
  method DoOneFile(f: seq<byte>, s: seq<byte>, data: array<byte>) returns (out: seq<seq<byte>>)
    requires data.Length == BUFSIZE + 1 && data[BUFSIZE] != NEWLINE && 0 !in f && 0 !in s
    modifies data
    ensures out == Found(f, s)
    ensures out == PlainHits(Lines(f), s) <==> forall l <- Lines(f) :: Reachable(l, s)
  {
    hide Hits, Pieces, Lines;
    out := [];
    var last, pos, done := 0, 0, false;
    assert data[..0] + f[0..] == f;
    while !done
      invariant last < BUFSIZE && pos <= |f| && data[BUFSIZE] != NEWLINE && 0 !in data[..last]
      invariant done ==> pos == |f| && last == 0
      invariant out + Found(data[..last] + f[pos..], s) == Found(f, s)
      decreases |f| - pos, !done
    {
      var cnt := Refill(f, pos, data, last);
      last, pos := last + cnt, pos + cnt;
      var kept, printed := ScanBuffer(data, last, cnt, s, f[pos..]);
      assert out + (printed + Found(data[..kept] + f[pos..], s)) == Found(f, s);
      last, out := kept, out + printed;
      done := cnt == 0;
    }
    assert data[..0] + f[|f|..] == [];
    NothingFound(s);
    StreamingExactIff(f, s);
  }

  lemma NothingFound(s: seq<byte>)
    ensures Found([], s) == [] && Hits([], s) == [] && PlainHits([], s) == []
  {
  }
}
