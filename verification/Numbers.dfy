/** Number formatting in the kernel library: itoa with its in-place reversal, and zero-padded hexadecimal. */
module Numbers {
  import opened Common

  const ZERO: byte := 48

  /** Entry d of the lookup string "0123456789ABC...Z". */
  function DigitChar(d: nat): byte
    requires d < 36
  {
    if d < 10 then ZERO + d else 55 + d
  }

  lemma DigitsSpelled(d: nat)
    requires d < 36
    ensures DigitChar(d) == "0123456789ABCDEFGHIJKLMNOPQRSTUVWXYZ"[d] as int && DigitValue(DigitChar(d)) == d
  {
  }

  function DigitValue(c: byte): int {
    if c < 58 then c - 48 else c - 55
  }

  /** The number a string of digits stands for, most significant first. */
  ghost function ValueOf(s: seq<byte>, radix: nat): int {
    if s == [] then 0 else ValueOf(s[..|s| - 1], radix) * radix + DigitValue(s[|s| - 1])
  }

  /** The lowest digit of a value. */
  function Low(value: nat, radix: nat): (d: nat)
    requires radix >= 2
    ensures d < radix
  {
    value % radix
  }

  /** What is left above the lowest digit. */
  function High(value: nat, radix: nat): (q: nat)
    requires radix >= 2
    ensures value == q * radix + Low(value, radix) && 2 * q <= value
    ensures value > 0 ==> q < value
  {
    Quotient(value, radix);
    value / radix
  }

  /** The digits of a value, least significant first; none for 0. */
  ghost function Digits(value: nat, radix: nat): seq<byte>
    requires 2 <= radix <= 36
    decreases value
  {
    if value == 0 then [] else [DigitChar(Low(value, radix))] + Digits(High(value, radix), radix)
  }

  ghost function Reversed(s: seq<byte>): (r: seq<byte>)
    ensures |r| == |s| && forall k :: 0 <= k < |s| ==> r[k] == s[|s| - 1 - k]
  {
    if s == [] then [] else Reversed(s[1..]) + [s[0]]
  }

  lemma Quotient(value: nat, radix: nat)
    requires radix >= 2
    ensures value == value / radix * radix + value % radix && 2 * (value / radix) <= value
    ensures value > 0 ==> value / radix < value
  {
    var q := value / radix;
    assert value == q * radix + value % radix;
    Doubles(q, radix);
  }

  lemma {:induction false} Doubles(q: nat, radix: nat)
    requires radix >= 2
    ensures 2 * q <= q * radix
  {
    if q > 0 {
      Doubles(q - 1, radix);
      assert q * radix == (q - 1) * radix + radix;
    }
  }

  lemma ValueSnoc(s: seq<byte>, d: nat, radix: nat)
    requires d < 36
    ensures ValueOf(s + [DigitChar(d)], radix) == ValueOf(s, radix) * radix + d
  {
    assert (s + [DigitChar(d)])[..|s|] == s;
  }

  lemma DigitsOf(value: nat, radix: nat)
    requires 2 <= radix <= 36 && value > 0
    ensures Digits(value, radix) == [DigitChar(Low(value, radix))] + Digits(High(value, radix), radix)
    ensures Reversed(Digits(value, radix))
         == Reversed(Digits(High(value, radix), radix)) + [DigitChar(Low(value, radix))]
  {
    hide Low, High;
    var ds := Digits(value, radix);
    assert ds[1..] == Digits(High(value, radix), radix);
  }

  lemma DigitsZero(radix: nat)
    requires 2 <= radix <= 36
    ensures Digits(0, radix) == []
  {
  }

  /** Reading the reversed digits gives the value back. */
  lemma {:induction false} ReversedDigitsValue(value: nat, radix: nat)
    requires 2 <= radix <= 36
    ensures ValueOf(Reversed(Digits(value, radix)), radix) == value
    decreases value
  {
    if value > 0 {
      hide Digits, ValueOf, Reversed, Low, High;
      ReversedDigitsValue(High(value, radix), radix);
      DigitsOf(value, radix);
      ValueSnoc(Reversed(Digits(High(value, radix), radix)), Low(value, radix), radix);
    }
  }

  /** The most significant digit is never 0. */
  lemma {:induction false} NoLeadingZero(value: nat, radix: nat)
    requires 2 <= radix <= 36 && value > 0
    ensures var ds := Digits(value, radix); ds != [] && ds[|ds| - 1] != ZERO
    decreases value
  {
    hide Low, High;
    if High(value, radix) > 0 {
      NoLeadingZero(High(value, radix), radix);
    } else {
      assert Digits(0, radix) == [];
    }
  }

  /** A character of the lookup string that stands for a digit of the radix. */
  ghost predicate IsDigit(c: byte, radix: nat) {
    exists d: nat :: d < radix && d < 36 && c == DigitChar(d)
  }

  ghost predicate IsNumeral(s: seq<byte>, radix: nat) {
    forall k :: 0 <= k < |s| ==> IsDigit(s[k], radix)
  }

  /** Digits are told apart by their values: the value, the radix and the length fix a numeral. */
  lemma {:induction false} NumeralUnique(s: seq<byte>, t: seq<byte>, radix: nat)
    requires 2 <= radix <= 36 && |s| == |t| && IsNumeral(s, radix) && IsNumeral(t, radix)
    requires ValueOf(s, radix) == ValueOf(t, radix)
    ensures s == t
  {
    if s != [] {
      var n := |s| - 1;
      DigitRange(s[n], radix);
      DigitRange(t[n], radix);
      SameQuotient(ValueOf(s[..n], radix), DigitValue(s[n]), ValueOf(t[..n], radix), DigitValue(t[n]), radix);
      NumeralUnique(s[..n], t[..n], radix);
      assert s == s[..n] + [s[n]] && t == t[..n] + [t[n]];
    }
  }

  lemma DigitRange(c: byte, radix: nat)
    requires radix <= 36 && IsDigit(c, radix)
    ensures 0 <= DigitValue(c) < radix && c == DigitChar(DigitValue(c)) && c != 0
  {
  }

  lemma {:induction false} DigitsAreDigits(value: nat, radix: nat)
    requires 2 <= radix <= 36
    ensures IsNumeral(Digits(value, radix), radix)
    decreases value
  {
    hide Low, High;
    if value > 0 {
      DigitsAreDigits(High(value, radix), radix);
    }
  }

  ghost function Power(base: nat, n: nat): nat {
    if n == 0 then 1 else base * Power(base, n - 1)
  }

  /** A value below radix^n has at most n digits. */
  lemma {:induction false} DigitsBound(value: nat, radix: nat, n: nat)
    requires 2 <= radix <= 36 && value < Power(radix, n)
    ensures |Digits(value, radix)| <= n
    decreases n
  {
    hide Low, High;
    if value > 0 && n > 0 {
      QuotientBelow(High(value, radix), radix, Power(radix, n - 1));
      DigitsBound(High(value, radix), radix, n - 1);
    }
  }

  lemma QuotientBelow(q: nat, radix: nat, p: nat)
    requires radix >= 2 && q * radix < radix * p
    ensures q < p
  {
    if q >= p {
      assert q * radix == p * radix + (q - p) * radix;
      Doubles(q - p, radix);
      assert false;
    }
  }

  lemma {:induction false} PowerGrows(a: nat, b: nat, n: nat)
    requires a <= b
    ensures Power(a, n) <= Power(b, n)
  {
    if n > 0 {
      PowerGrows(a, b, n - 1);
      var x, y := Power(a, n - 1), Power(b, n - 1);
      Monotone(a, x, y);
      Monotone(y, a, b);
    }
  }

  lemma {:induction false} Monotone(k: nat, x: nat, y: nat)
    requires x <= y
    ensures k * x <= k * y && k * x == x * k && k * y == y * k
  {
    if k > 0 {
      Monotone(k - 1, x, y);
    }
  }

  lemma WordDigits(value: nat, radix: nat)
    requires 2 <= radix <= 36 && value < TWO_32
    ensures |Digits(value, radix)| <= 32 && (radix == 16 ==> |Digits(value, radix)| <= 8)
  {
    PowerGrows(2, radix, 32);
    assert Power(2, 16) == 0x1_0000 && Power(2, 32) == 0x1_0000_0000 by { PowersOfTwo(); }
    DigitsBound(value, radix, 32);
    if radix == 16 {
      assert Power(16, 4) == 0x1_0000;
      assert Power(16, 8) == 0x1_0000_0000;
      DigitsBound(value, 16, 8);
    }
  }

  lemma PowersOfTwo()
    ensures Power(2, 16) == 0x1_0000 && Power(2, 32) == 0x1_0000_0000
  {
    assert Power(2, 8) == 256;
    assert Power(2, 16) == 0x1_0000;
    assert Power(2, 24) == 0x100_0000;
  }

  // ---------------------------------------------------------------- the routines

  method Strlen(buf: array<byte>, at: nat, ghost end: nat) returns (len: nat)
    requires at <= end < buf.Length && buf[end] == 0 && forall k :: at <= k < end ==> buf[k] != 0
    ensures len == end - at
  {
    len := 0;
    while buf[at + len] != 0
      invariant at + len <= end
      decreases end - at - len
    {
      len := len + 1;
    }
  }

  /** strrev */
  method Strrev(buf: array<byte>, at: nat, ghost end: nat)
    requires at <= end < buf.Length && buf[end] == 0 && forall k :: at <= k < end ==> buf[k] != 0
    modifies buf
    ensures buf[at..end] == Reversed(old(buf[at..end])) && buf[end] == 0
    ensures forall k :: 0 <= k < buf.Length && !(at <= k < end) ==> buf[k] == old(buf[k])
  {
    var n := Strlen(buf, at, end);
    var beg, last := at, at + n - 1;
    ghost var was := buf[..];
    while beg < last
      invariant at <= beg && last < end && beg + last == at + end - 1 && beg <= last + 1
      invariant forall k :: 0 <= k < buf.Length ==> buf[k] == PartlyReversed(was, at, end, beg, last, k)
      decreases last - beg
    {
      var tmp := buf[last];
      buf[last] := buf[beg];
      buf[beg] := tmp;
      beg := beg + 1;
      last := last - 1;
    }
    FullyReversed(was, at, end, beg, last, buf[..]);
    assert was[at..end] == old(buf[at..end]) && buf[..][at..end] == buf[at..end];
  }

  /** The byte at k once everything of was[at..end] outside beg..last has been swapped. */
  ghost function PartlyReversed(was: seq<byte>, at: nat, end: nat, beg: nat, last: int, k: nat): byte
    requires at <= end <= |was| && k < |was|
  {
    if at <= k < end && !(beg <= k <= last) then was[at + end - 1 - k] else was[k]
  }

  lemma FullyReversed(was: seq<byte>, at: nat, end: nat, beg: nat, last: int, now: seq<byte>)
    requires at <= end <= |was| == |now| && beg + last == at + end - 1 && last <= beg <= last + 1
    requires forall k :: 0 <= k < |was| ==> now[k] == PartlyReversed(was, at, end, beg, last, k)
    ensures now[at..end] == Reversed(was[at..end])
  {
    var n, r := end - at, Reversed(was[at..end]);
    forall i | 0 <= i < n
      ensures now[at..end][i] == r[i]
    {
      assert r[i] == was[at..end][n - 1 - i] == was[end - 1 - i];
      assert now[at + i] == PartlyReversed(was, at, end, beg, last, at + i);
    }
  }

  /** The characters itoa should leave. */
  ghost function Text(value: nat, radix: nat): seq<byte>
    requires 2 <= radix <= 36
  {
    if value == 0 then [ZERO] else Reversed(Digits(value, radix))
  }

  /** The text is a faithful, minimal numeral. */
  lemma TextFaithful(value: nat, radix: nat)
    requires 2 <= radix <= 36 && value < TWO_32
    ensures ValueOf(Text(value, radix), radix) == value
    ensures 1 <= |Text(value, radix)| <= 32 && (radix == 16 ==> |Text(value, radix)| <= 8)
    ensures value > 0 ==> Text(value, radix)[0] != ZERO
    ensures IsNumeral(Text(value, radix), radix)
  {
    WordDigits(value, radix);
    DigitsAreDigits(value, radix);
    if value > 0 {
      ReversedDigitsValue(value, radix);
      NoLeadingZero(value, radix);
    } else {
      assert [ZERO][..0] == [];
      assert ZERO == DigitChar(0);
    }
  }

  /** itoa: the numeral and a NUL, at the given place in a buffer with room for it. */
  method Itoa(value: nat, buf: array<byte>, at: nat, radix: nat)
    requires 2 <= radix <= 36 && value < TWO_32 && at + 32 < buf.Length
    modifies buf
    ensures
      var text := Text(value, radix);
      at + |text| < buf.Length && buf[at..at + |text|] == text && buf[at + |text|] == 0
      && forall k :: 0 <= k < buf.Length && !(at <= k <= at + |text|) ==> buf[k] == old(buf[k])
    ensures ValueOf(Text(value, radix), radix) == value
  {
    hide Digits, Low, High, ValueOf;
    TextFaithful(value, radix);
    if value == 0 {
      buf[at] := ZERO;
      buf[at + 1] := 0;
      return;
    }
    WriteDigits(value, buf, at, radix);
    ghost var n := |Digits(value, radix)|;
    WordDigits(value, radix);
    DigitsAreDigits(value, radix);
    assert forall k :: at <= k < at + n ==> buf[k] == Digits(value, radix)[k - at];
    Strrev(buf, at, at + n);
  }

  method WriteDigits(value: nat, buf: array<byte>, at: nat, radix: nat)
    requires 2 <= radix <= 36 && value < TWO_32 && at + 32 < buf.Length
    modifies buf
    ensures
      var ds := Digits(value, radix);
      at + |ds| < buf.Length && buf[at..at + |ds|] == ds && buf[at + |ds|] == 0
      && forall k :: 0 <= k < buf.Length && !(at <= k <= at + |ds|) ==> buf[k] == old(buf[k])
  {
    hide Low, High, Digits, DigitChar;
    WordDigits(value, radix);
    DigitsZero(radix);
    ghost var ds, done := Digits(value, radix), [];
    var newval, p := value, at;
    while newval > 0
      invariant 0 <= newval && p == at + |done| && done + Digits(newval, radix) == ds
      invariant forall k :: 0 <= k < buf.Length ==> buf[k] == if at <= k < p then done[k - at] else old(buf[k])
    {
      DigitsOf(newval, radix);
      var d := DigitChar(Low(newval, radix));
      buf[p] := d;
      assert ds == (done + [d]) + Digits(High(newval, radix), radix);
      done := done + [d];
      p := p + 1;
      newval := High(newval, radix);
    }
    buf[p] := 0;
    assert buf[at..p] == ds;
  }

  /** "%#x": the numeral at index 8, zeros in front of it; what is printed has eight digits and the same value. */
  method PaddedHex(value: nat) returns (printed: seq<byte>)
    requires value < TWO_32
    ensures |printed| == 8 && ValueOf(printed, 16) == value && IsNumeral(printed, 16)
  {
    hide Digits, Low, High, ValueOf, Text;
    var buf := new byte[64];
    ghost var text := Text(value, 16);
    TextFaithful(value, 16);
    Itoa(value, buf, 8, 16);
    assert forall k :: 8 <= k < 8 + |text| ==> buf[k] == text[k - 8];
    var start := Strlen(buf, 8, 8 + |text|);
    for i := start to 8
      invariant forall k :: start <= k < i ==> buf[k] == ZERO
      invariant forall k :: 8 <= k < 8 + |text| ==> buf[k] == text[k - 8]
      invariant buf[8 + |text|] == 0
    {
      buf[i] := ZERO;
    }
    var len := Strlen(buf, start, 8 + |text|);
    printed := buf[start..start + len];
    assert len == 8 + |text| - start && |printed| == len;
    forall k | 0 <= k < |printed|
      ensures printed[k] == buf[start + k]
    {
    }
    assert printed[8 - start..] == text;
    assert ZERO == DigitChar(0);
    LeadingZeros(printed, 8 - start, 16);
  }

  /** Zeros in front do not change a numeral's value. */
  lemma {:induction false} LeadingZeros(s: seq<byte>, n: nat, radix: nat)
    requires n <= |s| && forall k :: 0 <= k < n ==> s[k] == ZERO
    ensures ValueOf(s, radix) == ValueOf(s[n..], radix)
  {
    if n < |s| {
      LeadingZeros(s[..|s| - 1], n, radix);
      assert s[..|s| - 1][n..] == s[n..][..|s| - n - 1];
    } else if n > 0 {
      LeadingZeros(s[..n - 1], n - 1, radix);
      assert s[..n - 1][n - 1..] == [] == s[n..];
    }
  }
}
