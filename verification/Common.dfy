/** Types and string helpers shared by every component of the kernel model. */
module Common {

  type byte = b: int | 0 <= b < 256

  datatype Option<+T> = None | Some(value: T)

  const TWO_32: nat := 0x1_0000_0000

  const NEWLINE: byte := 10
  const SPACE: byte := 32

  const TERMINALS: nat := 3

  /** Unsigned 32-bit arithmetic: every `uint32_t` counter wraps. */
  function Wrap32(x: int): (r: nat)
    ensures r < TWO_32
    ensures 0 <= x < TWO_32 ==> r == x
  {
    x % TWO_32
  }

  function Min(a: int, b: int): int {
    if a < b then a else b
  }

  /** A byte read as a signed character. */
  function Signed(c: byte): int {
    if c < 128 then c else c - 256
  }

  /** The byte at index i of a C string or of a zero-padded field. */
  function CharAt(s: seq<byte>, i: nat): byte {
    if i < |s| then s[i] else 0
  }

  /** What a bounded string routine sees of s: everything before the first NUL, at most n bytes. */
  function CPrefix(s: seq<byte>, n: nat): seq<byte> {
    if n == 0 || CharAt(s, 0) == 0 then [] else [s[0]] + CPrefix(s[1..], n - 1)
  }

  // ---------------------------------------------------------------- division

  lemma {:induction false} Multiple(d: nat, n: nat)
    ensures d > 0 ==> d * n >= n
  {
    if d > 1 {
      Multiple(d - 1, n);
      assert d * n == (d - 1) * n + n;
    }
  }

  lemma LargerQuotient(q: int, r: int, q': int, r': int, n: nat)
    requires 0 <= r < n && 0 <= r' < n && q < q'
    ensures q * n + r < q' * n + r'
  {
    assert (q' - q) * n == q' * n - q * n;
    Multiple(q' - q, n);
  }

  /** Quotient and remainder are unique. */
  lemma SameQuotient(q: int, r: int, q': int, r': int, n: nat)
    requires 0 <= r < n && 0 <= r' < n && q * n + r == q' * n + r'
    ensures q == q' && r == r'
  {
    if q < q' {
      LargerQuotient(q, r, q', r', n);
    } else if q' < q {
      LargerQuotient(q', r', q, r, n);
    }
  }

  lemma Divide(x: int, q: int, n: nat, r: int)
    requires 0 <= r < n && x == q * n + r
    ensures x / n == q && x % n == r
  {
    SameQuotient(x / n, x % n, q, r, n);
  }
}
