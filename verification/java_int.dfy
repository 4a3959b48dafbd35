/**
 * The parts of Java's integer semantics the image code relies on: bytes,
 * powers of two, truncating division and little-endian 16-bit words.
 * Dafny integers are unbounded; each Java narrowing is written out here.
 */
module JavaInt {

  /** Integer.MAX_VALUE. */
  const MaxInt: int := 0x7FFF_FFFF

  /** An unsigned byte value, as produced by `b & 0xff`. */
  type Byte = x: int | 0 <= x < 256

  function Pow2(n: nat): (r: nat)
    ensures r >= 1
  {
    if n == 0 then 1 else 2 * Pow2(n - 1)
  }

  lemma Pow2Byte()
    ensures Pow2(8) == 256
  {
  }

  lemma {:induction false} Pow2Monotone(m: nat, n: nat)
    requires m <= n
    ensures Pow2(m) <= Pow2(n)
    ensures m < n ==> 2 * Pow2(m) <= Pow2(n)
    decreases n
  {
    if m < n {
      Pow2Monotone(m, n - 1);
    }
  }

  lemma {:induction false} Pow2Add(m: nat, n: nat)
    ensures Pow2(m + n) == Pow2(m) * Pow2(n)
    decreases m
  {
    if m > 0 {
      Pow2Add(m - 1, n);
    }
  }

  function Abs(x: int): nat
  {
    if x < 0 then -x else x
  }

  /**
   * Java's `/` on ints: the quotient truncated toward zero (Dafny's own `/`
   * is Euclidean). The remainder `a - q * b` is smaller than the divisor
   * and never has the opposite sign of the dividend.
   */
  function JavaDiv(a: int, b: int): (q: int)
    requires b != 0
    ensures Abs(a - q * b) < Abs(b)
    ensures a >= 0 ==> 0 <= a - q * b
    ensures a <= 0 ==> a - q * b <= 0
  {
    var m := Abs(a) / Abs(b);
    TruncatedRemainder(a, b, m);
    if (a < 0) == (b < 0) then m else -m
  }

  lemma TruncatedRemainder(a: int, b: int, m: int)
    requires b != 0 && m == Abs(a) / Abs(b)
    ensures var q := if (a < 0) == (b < 0) then m else -m;
      a - q * b == (if a < 0 then -(Abs(a) % Abs(b)) else Abs(a) % Abs(b))
  {
    var n, d := Abs(a), Abs(b);
    assert n == m * d + n % d;
    if b < 0 {
      assert m * b == -(m * d);
    } else {
      assert m * b == m * d;
    }
  }

  /** Truncating division is odd in its dividend, unlike Euclidean division. */
  lemma JavaDivNegate(a: int, b: int)
    requires b != 0
    ensures JavaDiv(-a, b) == -JavaDiv(a, b)
  {
  }

  /** The low eight bits of an int, as `(byte) x & 0xff` keeps them. */
  function LowByte(x: int): (r: Byte)
    ensures (x - r) % 256 == 0
  {
    x % 256
  }

  /** The value a Java `byte` holding the bits of `b` has (-128..127). */
  function SignedByte(b: Byte): (r: int)
    ensures -128 <= r < 128
    ensures LowByte(r) == b
  {
    if b < 128 then b else b - 256
  }

  /** A 16-bit word written low byte first, as the GIF encoders write it. */
  function Word(w: int): (r: seq<Byte>)
    ensures |r| == 2
    ensures r[0] as int + 256 * (r[1] as int) == w % 65536
  {
    [w % 256, (w / 256) % 256]
  }
}
