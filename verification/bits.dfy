/**
 * The bit- and byte-level layout of GIF image data: LZW codes of varying
 * width packed least significant bit first into bytes, and the bytes cut
 * into length-prefixed sub-blocks.
 */
module Bits {
  import opened JavaInt
  import opened Wrappers

  /** One LZW code and the number of bits it is written with. */
  datatype Code = Code(value: int, width: nat)

  /**
   * The `n` low bits of `c`, least significant first. A negative `c`
   * contributes its two's complement bits, as Java's shifts and masks do.
   */
  function BitsOf(c: int, n: nat): (r: seq<bool>)
    ensures |r| == n
    decreases n
  {
    if n == 0 then [] else [c % 2 == 1] + BitsOf(c / 2, n - 1)
  }

  /** The number a little-endian bit string denotes. */
  function ValueOf(bits: seq<bool>): (v: nat)
    ensures v < Pow2(|bits|)
  {
    if |bits| == 0 then 0 else (if bits[0] then 1 else 0) + 2 * ValueOf(bits[1..])
  }

  /** Every code's value fits its width. */
  ghost predicate Fits(codes: seq<Code>)
  {
    forall i :: 0 <= i < |codes| ==> 0 <= codes[i].value < Pow2(codes[i].width)
  }

  /** The codes end with `eof`, and it appears nowhere before the end. */
  ghost predicate Terminated(codes: seq<Code>, eof: int)
  {
    |codes| > 0 && codes[|codes| - 1].value == eof
    && forall i :: 0 <= i < |codes| - 1 ==> codes[i].value != eof
  }

  /** The bits of every code, one code after the other. */
  function Pack(codes: seq<Code>): seq<bool>
  {
    if |codes| == 0 then [] else BitsOf(codes[0].value, codes[0].width) + Pack(codes[1..])
  }

  /** Bits grouped eight at a time into bytes; a short last group is padded with zero bits. */
  function ToBytes(bits: seq<bool>): (r: seq<Byte>)
    ensures |r| == (|bits| + 7) / 8
    decreases |bits|
  {
    if |bits| == 0 then []
    else if |bits| <= 8 then [ValueOf(bits)]
    else [ValueOf(bits[..8])] + ToBytes(bits[8..])
  }

  /** The eight bits of one byte, least significant first. */
  function ByteBits(b: Byte): (r: seq<bool>)
    ensures |r| == 8
  {
    BitsOf(b, 8)
  }

  /** The bits of a byte sequence, eight per byte, least significant first. */
  function BytesBits(bytes: seq<Byte>): (r: seq<bool>)
    ensures |r| == 8 * |bytes|
  {
    if |bytes| == 0 then [] else ByteBits(bytes[0]) + BytesBits(bytes[1..])
  }

  /** The bytes of the packed codes. */
  function PackBytes(codes: seq<Code>): seq<Byte>
  {
    ToBytes(Pack(codes))
  }

  /**
   * Data cut into sub-blocks of at most `size` bytes, each preceded by its
   * length; only the last block may be shorter. The terminating empty
   * block is not part of the frame.
   */
  function Frame(data: seq<Byte>, size: nat): (r: seq<Byte>)
    requires 1 <= size <= 255
    decreases |data|
  {
    if |data| == 0 then []
    else if |data| <= size then [|data|] + data
    else [size] + data[..size] + Frame(data[size..], size)
  }

  /**
   * Reads sub-blocks up to and including the empty one that ends them,
   * as a GIF decoder does; yields the data and the number of bytes read.
   */
  function Unframe(s: seq<Byte>): (r: Option<(seq<Byte>, nat)>)
    ensures r.Some? ==> 1 <= r.value.1 <= |s|
    decreases |s|
  {
    if |s| == 0 then None
    else
      var n := s[0] as int;
      if n == 0 then Some(([], 1))
      else if |s| < 1 + n then None
      else match Unframe(s[1 + n..])
        case None => None
        case Some((d, k)) => Some((s[1..1 + n] + d, 1 + n + k))
  }

  // ----- arithmetic facts about Euclidean division by powers of two -----

  lemma DivUnique(a: int, d: int, k: int, x: int)
    requires d > 0 && a == d * k + x && 0 <= x < d
    ensures a / d == k && a % d == x
  {
    var q, r := a / d, a % d;
    assert a == d * q + r;
    assert d * (k - q) == r - x by {
      assert d * (k - q) == d * k - d * q;
    }
    if k > q {
      MulAtLeast(d, k - q);
    } else if k < q {
      MulAtLeast(d, q - k);
    }
  }

  lemma MulAtLeast(d: int, t: int)
    requires d > 0 && t >= 1
    ensures d * t >= d
  {
    assert d * t == d + d * (t - 1);
  }

  lemma AppendAssoc<T>(a: seq<T>, b: seq<T>, c: seq<T>)
    ensures (a + b) + c == a + (b + c)
  {
  }

  /** Moving the first element of `s` across a concatenation. */
  lemma ShiftFirst<T>(a: seq<T>, s: seq<T>)
    requires |s| > 0
    ensures a + s == (a + [s[0]]) + s[1..]
  {
    assert s == [s[0]] + s[1..];
  }

  lemma TakeDrop<T>(s: seq<T>, k: nat)
    requires k <= |s|
    ensures s[..k] + s[k..] == s
  {
  }

  lemma AppendEmpty<T>(a: seq<T>)
    ensures [] + a == a && a + [] == a
  {
  }

  lemma MulLe(x: int, y: int, m: int)
    requires x <= y && m >= 0
    ensures x * m <= y * m
  {
    assert y * m - x * m == (y - x) * m;
  }

  /** A digit below `p` plus a multiple of `p` by a digit below `q` stays below `q * p`. */
  lemma ShiftBound(a: int, p: int, code: int, q: int)
    requires 0 <= a < p && 0 <= code < q
    ensures 0 <= a + code * p < q * p
  {
    MulLe(0, code, p);
    MulLe(code, q - 1, p);
    assert (q - 1) * p == q * p - p;
  }

  lemma DivDouble(c: int, p: nat)
    requires p >= 1
    ensures (c / 2) / p == c / (2 * p)
    ensures c % (2 * p) == c % 2 + 2 * ((c / 2) % p)
  {
    var h := c / 2;
    var q, m := h / p, h % p;
    assert c == 2 * h + c % 2;
    assert h == p * q + m;
    assert c == (2 * p) * q + (2 * m + c % 2);
    DivUnique(c, 2 * p, q, 2 * m + c % 2);
  }

  // ----- bits and values -----

  lemma {:induction false} ValueOfBitsOf(c: int, n: nat)
    ensures ValueOf(BitsOf(c, n)) == c % Pow2(n)
    decreases n
  {
    if n > 0 {
      ValueOfBitsOf(c / 2, n - 1);
      DivDouble(c, Pow2(n - 1));
      assert BitsOf(c, n)[1..] == BitsOf(c / 2, n - 1);
    }
  }

  lemma {:induction false} BitsOfValueOf(bits: seq<bool>)
    ensures BitsOf(ValueOf(bits), |bits|) == bits
    decreases |bits|
  {
    if |bits| > 0 {
      var v := ValueOf(bits);
      var b := if bits[0] then 1 else 0;
      BitsOfValueOf(bits[1..]);
      DivUnique(v, 2, ValueOf(bits[1..]), b);
      assert [bits[0]] + bits[1..] == bits;
    }
  }

  /** Only the low bits matter. */
  lemma BitsOfMod(c: int, n: nat)
    ensures BitsOf(c % Pow2(n), n) == BitsOf(c, n)
  {
    ValueOfBitsOf(c, n);
    BitsOfValueOf(BitsOf(c, n));
  }

  /** The low `a + b` bits are the low `a` bits followed by the next `b`. */
  lemma {:induction false} BitsOfSplit(c: int, a: nat, b: nat)
    ensures BitsOf(c, a + b) == BitsOf(c, a) + BitsOf(c / Pow2(a), b)
    decreases a
  {
    if a > 0 {
      BitsOfSplit(c / 2, a - 1, b);
      DivDouble(c, Pow2(a - 1));
    }
  }

  /** The same split, stated for the total width `n`. */
  lemma BitsOfCut(c: int, a: nat, n: nat)
    requires a <= n
    ensures BitsOf(c, n) == BitsOf(c, a) + BitsOf(c / Pow2(a), n - a)
  {
    BitsOfSplit(c, a, n - a);
    assert a + (n - a) == n;
  }

  /** Or-ing `y` shifted past the `j` bits of `x` appends the bits of `y`. */
  lemma BitsOfJoin(x: int, j: nat, y: int, k: nat)
    requires 0 <= x < Pow2(j)
    ensures BitsOf(x + y * Pow2(j), j + k) == BitsOf(x, j) + BitsOf(y, k)
  {
    var v := x + y * Pow2(j);
    BitsOfSplit(v, j, k);
    DivUnique(v, Pow2(j), y, x);
    BitsOfMod(v, j);
  }

  /** A value below `2^j` has only zero bits above its low `j`. */
  lemma BitsOfSmall(x: int, j: nat, n: nat)
    requires 0 <= x < Pow2(j) && j <= n
    ensures BitsOf(x, n) == BitsOf(x, j) + BitsOf(0, n - j)
  {
    BitsOfJoin(x, j, 0, n - j);
    assert x + 0 * Pow2(j) == x && j + (n - j) == n;
  }

  lemma {:induction false} PackAppend(a: seq<Code>, b: seq<Code>)
    ensures Pack(a + b) == Pack(a) + Pack(b)
    decreases |a|
  {
    if |a| > 0 {
      assert (a + b)[0] == a[0];
      assert (a + b)[1..] == a[1..] + b;
      PackAppend(a[1..], b);
      calc {
        Pack(a + b);
        BitsOf(a[0].value, a[0].width) + Pack(a[1..] + b);
        BitsOf(a[0].value, a[0].width) + (Pack(a[1..]) + Pack(b));
        Pack(a) + Pack(b);
      }
    } else {
      assert a + b == b;
    }
  }

  lemma PackOne(c: Code)
    ensures Pack([c]) == BitsOf(c.value, c.width)
  {
    assert Pack([c]) == BitsOf(c.value, c.width) + Pack([]);
  }

  // ----- bytes -----

  lemma ByteValue(b: Byte)
    ensures ValueOf(ByteBits(b)) == b
  {
    ValueOfBitsOf(b, 8);
    Pow2Byte();
    DivUnique(b, 256, 0, b);
  }

  /** The first eight bits make the first byte, whatever follows. */
  lemma ToBytesStep(s: seq<bool>)
    requires |s| >= 8
    ensures ToBytes(s) == [ValueOf(s[..8])] + ToBytes(s[8..])
  {
    if |s| == 8 {
      assert s[..8] == s;
      assert s[8..] == [];
    }
  }

  /** A whole byte's bits in front pack back into that byte. */
  lemma ToBytesByte(b: Byte, t: seq<bool>)
    ensures ToBytes(ByteBits(b) + t) == [b] + ToBytes(t)
  {
    var s := ByteBits(b) + t;
    assert s[..8] == ByteBits(b);
    assert s[8..] == t;
    ByteValue(b);
    ToBytesStep(s);
  }

  /** Packing whole bytes back into bytes gives them back. */
  lemma {:induction false} ToBytesBytesBits(bytes: seq<Byte>, rest: seq<bool>)
    ensures ToBytes(BytesBits(bytes) + rest) == bytes + ToBytes(rest)
    decreases |bytes|
  {
    if |bytes| > 0 {
      var t := BytesBits(bytes[1..]) + rest;
      AppendAssoc(ByteBits(bytes[0]), BytesBits(bytes[1..]), rest);
      ToBytesByte(bytes[0], t);
      ToBytesBytesBits(bytes[1..], rest);
      AppendAssoc([bytes[0]], bytes[1..], ToBytes(rest));
      assert [bytes[0]] + bytes[1..] == bytes;
    } else {
      AppendEmpty(rest);
    }
  }

  lemma {:induction false} BytesBitsAppend(a: seq<Byte>, b: seq<Byte>)
    ensures BytesBits(a + b) == BytesBits(a) + BytesBits(b)
    decreases |a|
  {
    if |a| > 0 {
      assert (a + b)[0] == a[0];
      assert (a + b)[1..] == a[1..] + b;
      BytesBitsAppend(a[1..], b);
    } else {
      assert a + b == b;
    }
  }

  /** The bits of a whole byte appended to the bytes before it. */
  lemma AppendByte(data: seq<Byte>, b: Byte)
    ensures BytesBits(data + [b]) == BytesBits(data) + ByteBits(b)
  {
    BytesBitsAppend(data, [b]);
    assert BytesBits([b]) == ByteBits(b) + BytesBits([]);
  }

  /** A partial last byte: its zero padding is what `ToBytes` adds. */
  lemma LastByte(v: int, used: nat)
    requires 0 < used <= 8 && 0 <= v < Pow2(used)
    ensures ToBytes(BitsOf(v, used)) == [v]
  {
    ValueOfBitsOf(v, used);
    DivUnique(v, Pow2(used), 0, v);
    Pow2Monotone(used, 8);
    Pow2Byte();
  }

  /** The number of zero bits that fill up the last byte of `n` bits. */
  function Padding(n: nat): (p: nat)
    ensures p < 8 && (n + p) % 8 == 0
  {
    if n == 0 then 0 else if n <= 8 then 8 - n else Padding(n - 8)
  }

  /** The first byte unpacks to the first eight bits. */
  lemma ToBytesLong(bits: seq<bool>)
    requires |bits| > 8
    ensures BytesBits(ToBytes(bits)) == bits[..8] + BytesBits(ToBytes(bits[8..]))
  {
    var v, x := ValueOf(bits[..8]), ToBytes(bits[8..]);
    ToBytesStep(bits);
    ByteBitsValueOf(bits[..8]);
    BytesBitsAppend([v], x);
    assert BytesBits([v]) == ByteBits(v) + BytesBits([]);
  }

  /** A last byte of at most eight bits unpacks to them and the padding. */
  lemma ToBytesShort(bits: seq<bool>)
    requires 0 < |bits| <= 8
    ensures BytesBits(ToBytes(bits)) == bits + BitsOf(0, Padding(|bits|))
  {
    ByteBitsValueOf(bits);
    assert BytesBits(ToBytes(bits)) == ByteBits(ValueOf(bits)) + BytesBits([]);
  }

  /** Unpacking the bytes gives the bits back, followed by the zero padding. */
  lemma {:induction false} BytesBitsToBytes(bits: seq<bool>)
    ensures BytesBits(ToBytes(bits)) == bits + BitsOf(0, Padding(|bits|))
    decreases |bits|
  {
    var n := |bits|;
    if n > 8 {
      var z := BitsOf(0, Padding(n - 8));
      ToBytesLong(bits);
      BytesBitsToBytes(bits[8..]);
      assert Padding(n) == Padding(n - 8);
      AppendAssoc(bits[..8], bits[8..], z);
      assert bits[..8] + bits[8..] == bits;
    } else if n > 0 {
      ToBytesShort(bits);
    }
  }

  /** Bits that fill whole bytes come back without padding. */
  lemma WholeBytes(bits: seq<bool>)
    requires |bits| % 8 == 0
    ensures BytesBits(ToBytes(bits)) == bits
  {
    BytesBitsToBytes(bits);
    PaddingWhole(|bits|);
    AppendEmpty(bits);
  }

  /** Whole bytes need no padding. */
  lemma {:induction false} PaddingWhole(n: nat)
    requires n % 8 == 0
    ensures Padding(n) == 0
    decreases n
  {
    if n > 8 {
      PaddingWhole(n - 8);
    }
  }

  /** At most eight bits make a byte. */
  lemma ValueOfByte(bits: seq<bool>)
    requires |bits| <= 8
    ensures ValueOf(bits) < 256
  {
    Pow2Monotone(|bits|, 8);
    Pow2Byte();
  }

  lemma ByteBitsValueOf(bits: seq<bool>)
    requires 0 < |bits| <= 8
    ensures ValueOf(bits) < 256
    ensures ByteBits(ValueOf(bits)) == bits + BitsOf(0, 8 - |bits|)
  {
    ValueOfByte(bits);
    BitsOfValueOf(bits);
    BitsOfSmall(ValueOf(bits), |bits|, 8);
  }

  // ----- sub-blocks -----

  lemma FrameLong(data: seq<Byte>, size: nat)
    requires 1 <= size <= 255 && |data| > size
    ensures Frame(data, size) == [size] + data[..size] + Frame(data[size..], size)
  {
  }

  lemma FrameShort(data: seq<Byte>, size: nat)
    requires 1 <= size <= 255 && 0 < |data| <= size
    ensures Frame(data, size) == [|data|] + data
  {
  }

  lemma WholeBlocksStep(n: nat, size: nat)
    requires 1 <= size && n > 0 && n % size == 0
    ensures n >= size && (n - size) % size == 0
  {
    var q := n / size;
    assert n == size * q;
    if q > 0 {
      MulAtLeast(size, q);
      assert n - size == size * (q - 1) + 0;
      DivUnique(n - size, size, q - 1, 0);
    }
  }

  /** A frame of whole blocks followed by more data frames block by block. */
  lemma {:induction false} FrameAppend(a: seq<Byte>, b: seq<Byte>, size: nat)
    requires 1 <= size <= 255 && |a| % size == 0
    ensures Frame(a + b, size) == Frame(a, size) + Frame(b, size)
    decreases |a|
  {
    if |a| == 0 {
      assert a + b == b;
    } else {
      WholeBlocksStep(|a|, size);
      var ab := a + b;
      if |a| == size {
        FrameShort(a, size);
        if |b| == 0 {
          assert ab == a;
        } else {
          FrameLong(ab, size);
          assert ab[..size] == a && ab[size..] == b;
        }
      } else {
        FrameLong(a, size);
        FrameLong(ab, size);
        assert ab[..size] == a[..size];
        assert ab[size..] == a[size..] + b;
        FrameAppend(a[size..], b, size);
      }
    }
  }

  /** Every block of a frame holds between 1 and `size` bytes. */
  ghost predicate WellBlocked(s: seq<Byte>, size: nat)
    decreases |s|
  {
    |s| == 0 || (1 <= s[0] <= size && 1 + s[0] <= |s| && WellBlocked(s[1 + s[0]..], size))
  }

  lemma {:induction false} FrameWellBlocked(data: seq<Byte>, size: nat)
    requires 1 <= size <= 255
    ensures WellBlocked(Frame(data, size), size)
    decreases |data|
  {
    if |data| > size {
      var f := Frame(data, size);
      FrameWellBlocked(data[size..], size);
      assert f[1 + size..] == Frame(data[size..], size);
    } else if |data| > 0 {
      assert Frame(data, size)[1 + |data|..] == [];
    }
  }

  /** Reading one non-empty block and then the rest. */
  lemma UnframeBlock(s: seq<Byte>, n: nat, d: seq<Byte>, k: nat)
    requires 0 < n < |s| && s[0] as int == n && Unframe(s[1 + n..]) == Some((d, k))
    ensures Unframe(s) == Some((s[1..1 + n] + d, 1 + n + k))
  {
  }

  /** A single short block and the terminator. */
  lemma UnframeShort(data: seq<Byte>, size: nat, rest: seq<Byte>)
    requires 1 <= size <= 255 && 0 < |data| <= size
    ensures Unframe(Frame(data, size) + [0] + rest) == Some((data, |Frame(data, size)| + 1))
  {
    var f := Frame(data, size);
    var s := f + [0] + rest;
    var n := |data|;
    assert s[0] as int == n && |f| == 1 + n && s[1..1 + n] == data && s[1 + n..] == [0] + rest by {
      FrameShort(data, size);
    }
    UnframeBlock(s, n, [], 1);
    assert data + [] == data;
  }

  /** A full block in front of the blocks of the rest of the data. */
  lemma UnframeLong(data: seq<Byte>, size: nat, rest: seq<Byte>)
    requires 1 <= size <= 255 && |data| > size
    requires Unframe(Frame(data[size..], size) + [0] + rest) == Some((data[size..], |Frame(data[size..], size)| + 1))
    ensures Unframe(Frame(data, size) + [0] + rest) == Some((data, |Frame(data, size)| + 1))
  {
    var f' := Frame(data[size..], size);
    var a := data[..size];
    var t := f' + [0] + rest;
    TakeDrop(data, size);
    FrameLong(data, size);
    assert Frame(data, size) + [0] + rest == [size as Byte] + a + t;
    UnframeCons(size as Byte, a, t, data[size..], |f'| + 1);
  }

  /** A length byte and its block in front of blocks that read back. */
  lemma UnframeCons(b: Byte, a: seq<Byte>, t: seq<Byte>, d: seq<Byte>, k: nat)
    requires b as int == |a| > 0 && Unframe(t) == Some((d, k))
    ensures Unframe([b] + a + t) == Some((a + d, 1 + |a| + k))
  {
    var s := [b] + a + t;
    assert s[1..1 + |a|] == a;
    assert s[1 + |a|..] == t;
  }

  /** A decoder reading the blocks and the terminator gets the data back. */
  lemma {:induction false} UnframeFrame(data: seq<Byte>, size: nat, rest: seq<Byte>)
    requires 1 <= size <= 255
    ensures Unframe(Frame(data, size) + [0] + rest) == Some((data, |Frame(data, size)| + 1))
    decreases |data|
  {
    if |data| == 0 {
      var s := Frame(data, size) + [0] + rest;
      assert Frame(data, size) == [] && s[0] == 0;
      assert Unframe(s) == Some(([], 1));
    } else if |data| <= size {
      UnframeShort(data, size, rest);
    } else {
      UnframeFrame(data[size..], size, rest);
      UnframeLong(data, size, rest);
    }
  }
}
