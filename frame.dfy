/** The embedded frame: protocol constants, the bit stream that is hidden in
    the pixel buffer (a 32-bit length, least-significant bit first, then the
    payload byte by byte, each byte least-significant bit first) and the
    decoding of such a stream with its three ordered sanity checks.

    Machine words are modelled by unbounded integers: a byte is an integer in
    [0, 256), bit `i` of `x` is `(x / 2^i) % 2`, and the 32-bit truncation
    `static_cast<uint32_t>` is written out as `Word`. */
module Frame {
  import opened Errors
  import opened Format

  type byte = x: int | 0 <= x < 256

  const HEADER_SIZE_BITS: nat := 32
  const HEADER_SIZE_BYTES: nat := 4
  /** The sanity ceiling on a declared payload size: 100 MiB. */
  const MAX_REASONABLE_SIZE: nat := 100 * 1024 * 1024
  const WORD_MODULUS: nat := 0x1_0000_0000

  lemma HeaderConstants()
    ensures HEADER_SIZE_BITS == 8 * HEADER_SIZE_BYTES
    ensures MAX_REASONABLE_SIZE == 104857600
    // a size that passed the ceiling cannot make `size * 8 + 32` wrap in 32 bits
    ensures MAX_REASONABLE_SIZE * 8 + HEADER_SIZE_BITS < WORD_MODULUS
    ensures WORD_MODULUS == Pow2(32)
  {
    Pow2Add(16, 16);
    assert Pow2(16) == 65536 by { Pow2Add(8, 8); assert Pow2(8) == 256; }
  }

  function Pow2(k: nat): (r: nat)
    ensures r >= 1
  {
    if k == 0 then 1 else 2 * Pow2(k - 1)
  }

  lemma {:induction false} Pow2Add(a: nat, b: nat)
    ensures Pow2(a + b) == Pow2(a) * Pow2(b)
    decreases b
  {
    if b > 0 {
      Pow2Add(a, b - 1);
      assert Pow2(a + b) == 2 * Pow2(a + (b - 1));
    }
  }

  lemma Pow2Monotone(a: nat, b: nat)
    requires a <= b
    ensures Pow2(a) <= Pow2(b)
  {
  }

  /** Bit `i` of `x`, `(x >> i) & 1`. */
  predicate Bit(x: nat, i: nat)
  {
    (x / Pow2(i)) % 2 == 1
  }

  /** The 32-bit truncation `static_cast<uint32_t>`. */
  function Word(n: nat): (w: nat)
    ensures w < WORD_MODULUS && w <= n
    ensures n < WORD_MODULUS ==> w == n
  {
    n % WORD_MODULUS
  }

  /** Division by a positive `m` is determined by any decomposition `x == a*m + b`. */
  lemma DivModUnique(x: int, m: int, a: int, b: int)
    requires m > 0 && x == a * m + b && 0 <= b < m
    ensures x % m == b && x / m == a
  {
    var q, r := x / m, x % m;
    assert (a - q) * m == r - b;
    if a > q {
      MulAtLeast(a - q, m);
    } else if a < q {
      MulAtLeast(q - a, m);
    }
  }

  lemma MulAtLeast(d: int, m: int)
    requires d >= 1 && m > 0
    ensures d * m >= m
  {
  }

  /** Keeping one more low bit adds that bit's weight. */
  lemma ModStep(x: nat, k: nat)
    ensures x % Pow2(k + 1) == x % Pow2(k) + (if Bit(x, k) then Pow2(k) else 0)
  {
    var p := Pow2(k);
    var q, r := x / p, x % p;
    var b := (q % 2) * p + r;
    assert x == (q / 2) * (2 * p) + b by {
      assert q == 2 * (q / 2) + q % 2;
      calc {
        x;
        q * p + r;
        (2 * (q / 2) + q % 2) * p + r;
        (q / 2) * (2 * p) + (q % 2) * p + r;
      }
    }
    DivModUnique(x, 2 * p, q / 2, b);
  }

  /** Bit `i` of a number below `2^i` is clear. */
  lemma BitAbove(x: nat, i: nat)
    requires x < Pow2(i)
    ensures !Bit(x, i)
  {
    DivModUnique(x, Pow2(i), 0, x);
  }

  lemma Regroup(hi: int, pk: int, pi: int, qi: int, ri: int)
    ensures hi * (pk * pi) + (qi * pi + ri) == (hi * pk + qi) * pi + ri
  {
  }

  lemma MulMonotone(a: int, b: int, c: int)
    requires a >= b && c > 0
    ensures a * c >= b * c
  {
  }

  lemma ParityOfEvenMultiple(hi: int, pk: int, qi: int)
    requires pk % 2 == 0 && qi >= 0 && hi >= 0
    ensures (hi * pk + qi) % 2 == qi % 2
  {
    var h := hi * (pk / 2);
    assert hi * pk == 2 * h by { assert pk == 2 * (pk / 2); }
    DivModUnique(hi * pk + qi, 2, h + qi / 2, qi % 2);
  }

  lemma Combine(x: int, hi: int, pp: int, lo: int, pk: int, pi: int, qi: int, ri: int)
    requires x == hi * pp + lo && pp == pk * pi && lo == qi * pi + ri
    ensures x == (hi * pk + qi) * pi + ri
  {
    Regroup(hi, pk, pi, qi, ri);
  }

  /** Taking `x` modulo `pk * pi` with `pk` even keeps the parity of `x / pi`. */
  lemma ParityBelow(x: nat, pp: int, pi: int, pk: int)
    requires pi > 0 && pk > 0 && pk % 2 == 0 && pp == pk * pi
    ensures ((x % pp) / pi) % 2 == (x / pi) % 2
  {
    var hi, lo := x / pp, x % pp;
    var qi, ri := lo / pi, lo % pi;
    Combine(x, hi, pp, lo, pk, pi, qi, ri);
    DivModUnique(x, pi, hi * pk + qi, ri);
    ParityOfEvenMultiple(hi, pk, qi);
  }

  /** Bits below position `k` do not depend on what lies above `2^k`. */
  lemma BitOfMod(x: nat, k: nat, i: nat)
    requires i < k
    ensures Bit(x % Pow2(k), i) == Bit(x, i)
  {
    var pk, pi, pd := Pow2(k), Pow2(i), Pow2(k - i);
    Pow2Add(k - i, i);
    assert k - i + i == k;
    Pow2Even(k - i);
    ParityBelow(x, pk, pi, pd);
  }

  lemma Pow2Even(n: nat)
    requires n > 0
    ensures Pow2(n) % 2 == 0
  {
    DivModUnique(Pow2(n), 2, Pow2(n - 1), 0);
  }

  /** `acc | (bit << i)`: OR a single bit into an accumulator. */
  function OrBit(acc: nat, bit: bool, i: nat): (r: nat)
    ensures Bit(r, i) <== bit
    ensures !bit ==> r == acc
    ensures bit ==> r == (if Bit(acc, i) then acc else acc + Pow2(i))
  {
    if bit && !Bit(acc, i) then
      DivModUnique(acc + Pow2(i), Pow2(i), acc / Pow2(i) + 1, acc % Pow2(i));
      acc + Pow2(i)
    else acc
  }

  /** OR-ing a bit above every set bit of the accumulator adds its weight. */
  lemma OrBitFresh(acc: nat, bit: bool, i: nat)
    requires acc < Pow2(i)
    ensures OrBit(acc, bit, i) == acc + (if bit then Pow2(i) else 0)
  {
    BitAbove(acc, i);
  }

  /** The number whose bit `i` is `bits[i]`: the bits OR-ed together,
      `v |= bits[i] << i`, from position 0 upwards. */
  function ValueOf(bits: seq<bool>): (v: nat)
    ensures v < Pow2(|bits|)
  {
    if bits == [] then 0
    else
      var n := |bits| - 1;
      OrBitFresh(ValueOf(bits[..n]), bits[n], n);
      OrBit(ValueOf(bits[..n]), bits[n], n)
  }

  /** The low `width` bits of `x`, least-significant first. */
  function BitsOf(x: nat, width: nat): (s: seq<bool>)
    ensures |s| == width
  {
    seq(width, i requires 0 <= i < width => Bit(x, i))
  }

  /** Reading the low `k` bits of `x` gives `x` modulo `2^k`. */
  lemma {:induction false} ValueOfBits(x: nat, k: nat)
    ensures ValueOf(BitsOf(x, k)) == x % Pow2(k)
  {
    if k > 0 {
      var s := BitsOf(x, k);
      assert s[..k - 1] == BitsOf(x, k - 1);
      ValueOfBits(x, k - 1);
      OrBitFresh(ValueOf(s[..k - 1]), s[k - 1], k - 1);
      ModStep(x, k - 1);
    }
  }

  /** Bit `i` of the number `bits` denotes is `bits[i]`. */
  lemma {:induction false} BitOfValue(bits: seq<bool>, i: nat)
    requires i < |bits|
    ensures Bit(ValueOf(bits), i) == bits[i]
  {
    var n := |bits| - 1;
    var v := ValueOf(bits[..n]);
    OrBitFresh(v, bits[n], n);
    if i < n {
      BitOfValue(bits[..n], i);
      var w := ValueOf(bits);
      assert w % Pow2(n) == v by {
        DivModUnique(w, Pow2(n), if bits[n] then 1 else 0, v);
      }
      BitOfMod(w, n, i);
    } else {
      BitAbove(v, n);
      DivModUnique(ValueOf(bits), Pow2(n), if bits[n] then 1 else 0, v);
    }
  }

  /** The least-significant bit of a pixel value, `x & 1`. */
  predicate Lsb(x: byte)
  {
    x % 2 == 1
  }

  /** `(x & 0xFE) | bit`: overwrite bit 0 and keep the seven others. */
  function SetLsb(x: byte, b: bool): (y: byte)
    ensures Lsb(y) == b
    ensures y / 2 == x / 2
    ensures y == x || y == x + 1 || y == x - 1
  {
    var y := x - x % 2 + (if b then 1 else 0);
    DivModUnique(y, 2, x / 2, if b then 1 else 0);
    y
  }

  /** The 32 header bits of a length: the low 32 bits of its truncation to a word. */
  function HeaderBits(n: nat): (s: seq<bool>)
    ensures |s| == HEADER_SIZE_BITS
  {
    BitsOf(Word(n), HEADER_SIZE_BITS)
  }

  /** Payload bits in byte-then-bit order: bit `b` of byte `k` is stream bit `8k+b`. */
  function PayloadBits(d: seq<byte>): (s: seq<bool>)
    ensures |s| == 8 * |d|
  {
    seq(8 * |d|, j requires 0 <= j < 8 * |d| => Bit(d[j / 8], j % 8))
  }

  lemma DivMod8(k: nat, b: nat)
    requires b < 8
    ensures (8 * k + b) / 8 == k && (8 * k + b) % 8 == b
  {
    DivModUnique(8 * k + b, 8, k, b);
  }

  /** The stream the embedders write for a payload: the header of the
      length, then the bits of the first `Word(|d|)` bytes (the loops count
      up to the truncated size). */
  function Encode(d: seq<byte>): (s: seq<bool>)
    ensures |s| == HEADER_SIZE_BITS + 8 * Word(|d|)
    ensures |s| <= HEADER_SIZE_BITS + 8 * |d|
  {
    HeaderBits(|d|) + PayloadBits(d[..Word(|d|)])
  }

  /** Where each bit of the stream comes from. */
  lemma EncodeAt(d: seq<byte>, k: nat, b: nat)
    ensures k < HEADER_SIZE_BITS ==> Encode(d)[k] == Bit(Word(|d|), k)
    ensures k < Word(|d|) && b < 8 ==> Encode(d)[HEADER_SIZE_BITS + 8 * k + b] == Bit(d[k], b)
  {
    if k < Word(|d|) && b < 8 {
      DivMod8(k, b);
      assert Encode(d)[32 + 8 * k + b] == PayloadBits(d[..Word(|d|)])[8 * k + b];
    }
  }

  /** Bytes assembled from consecutive groups of eight bits. */
  function BytesOf(bits: seq<bool>): (d: seq<byte>)
    requires |bits| % 8 == 0
    ensures |d| == |bits| / 8
  {
    seq(|bits| / 8, k requires 0 <= k < |bits| / 8 =>
      assert Pow2(8) == 256;
      ValueOf(bits[8 * k .. 8 * k + 8]))
  }

  /** Assembling the payload bits gives the payload back. */
  lemma BytesOfPayload(d: seq<byte>)
    ensures BytesOf(PayloadBits(d)) == d
  {
    var p := PayloadBits(d);
    assert Pow2(8) == 256;
    forall k | 0 <= k < |d|
      ensures BytesOf(p)[k] == d[k]
    {
      PayloadGroup(d, k);
      ByteValue(d[k]);
    }
  }

  /** The `k`-th group of eight payload bits is the bits of byte `k`. */
  lemma PayloadGroup(d: seq<byte>, k: nat)
    requires k < |d|
    ensures PayloadBits(d)[8 * k .. 8 * k + 8] == BitsOf(d[k], 8)
  {
    forall b | 0 <= b < 8
      ensures PayloadBits(d)[8 * k .. 8 * k + 8][b] == BitsOf(d[k], 8)[b]
    {
      DivMod8(k, b);
    }
  }

  /** The eight bits of a byte assemble to that byte. */
  lemma ByteValue(x: byte)
    ensures ValueOf(BitsOf(x, 8)) == x
  {
    ValueOfBits(x, 8);
    assert Pow2(8) == 256;
  }

  /** One more bit OR-ed into a byte accumulator keeps it a byte and extends
      the bits it denotes by one. */
  lemma AccumulateBit(s: seq<bool>, start: nat, b: nat)
    requires b < 8 && start + 8 <= |s|
    ensures ValueOf(s[start .. start + b + 1])
         == OrBit(ValueOf(s[start .. start + b]), s[start + b], b)
    ensures ValueOf(s[start .. start + b + 1]) < 256
  {
    assert s[start .. start + b + 1][..b] == s[start .. start + b];
    Pow2Monotone(b + 1, 8);
    assert Pow2(8) == 256;
  }

  /** A byte sequence that agrees byte by byte with the groups of eight
      bits is their assembly. */
  lemma BytesOfPointwise(d: seq<byte>, bits: seq<bool>)
    requires |bits| == 8 * |d|
    requires forall j :: 0 <= j < |d| ==> d[j] == ValueOf(bits[8 * j .. 8 * j + 8])
    ensures d == BytesOf(bits)
  {
  }

  /** A slice of a slice is a slice of the whole. */
  lemma SliceOfSlice<T>(s: seq<T>, a: nat, b: nat, c: nat, d: nat)
    requires a <= b <= |s| && c <= d <= b - a
    ensures s[a..b][c..d] == s[a + c .. a + d]
  {
    forall i | 0 <= i < d - c
      ensures s[a..b][c..d][i] == s[a + c .. a + d][i]
    {
    }
  }

  /** The declared size of a stream: its first 32 bits as a number. */
  function Header(bits: seq<bool>): (n: nat)
    requires |bits| >= HEADER_SIZE_BITS
    ensures n < WORD_MODULUS
  {
    HeaderConstants();
    ValueOf(bits[..HEADER_SIZE_BITS])
  }

  /** One step of the header loops: OR-ing stream bit `k` into the value of
      the first `k` bits gives the value of the first `k + 1`. */
  lemma ValueOfStep(bits: seq<bool>, k: nat)
    requires k < |bits|
    ensures ValueOf(bits[..k + 1]) == OrBit(ValueOf(bits[..k]), bits[k], k)
  {
    assert bits[..k + 1][..k] == bits[..k];
  }

  /** Bit `i` of the declared size is stream bit `i`. */
  lemma HeaderAt(bits: seq<bool>, i: nat)
    requires |bits| >= HEADER_SIZE_BITS && i < HEADER_SIZE_BITS
    ensures Bit(Header(bits), i) == bits[i]
  {
    BitOfValue(bits[..HEADER_SIZE_BITS], i);
  }

  /** The message for a declared size above the ceiling. */
  function TooLargeMessage(size: nat): string
  {
    "Extracted size (" + Decimal(size) + " bytes) is unreasonably large (max "
      + Decimal(MAX_REASONABLE_SIZE) + " bytes). Data is likely corrupted or password is wrong."
  }

  /** The message for a declared size that does not fit in `pixels` values. */
  function NoRoomMessage(size: nat, pixels: nat): string
  {
    "Extracted size (" + Decimal(size) + " bytes) exceeds image capacity. "
      + "Image has " + Decimal(pixels) + " pixel values, "
      + "but would need " + Decimal(size * 8 + HEADER_SIZE_BITS) + " values. "
      + "Data is corrupted or password may be wrong."
  }

  /** The message for a buffer too short to hold the header. */
  function TooSmallMessage(pixels: nat): string
  {
    "Image too small to contain embedded data. Has " + Decimal(pixels) + " pixels, needs at least "
      + Decimal(HEADER_SIZE_BITS)
  }

  /** Reading a stream of `|bits|` pixel bits: length checks in the fixed
      order (zero, ceiling, room), then the payload. */
  function Decode(bits: seq<bool>): Result<seq<byte>>
    requires |bits| >= HEADER_SIZE_BITS
  {
    var size := Header(bits);
    if size == 0 then
      Err(NoEmbeddedData, "Extracted size is 0. Image may not contain embedded data.")
    else if size > MAX_REASONABLE_SIZE then
      Err(CorruptedPayload, TooLargeMessage(size))
    else if size * 8 + HEADER_SIZE_BITS > |bits| then
      Err(InvalidDataSize, NoRoomMessage(size, |bits|))
    else
      Ok(BytesOf(bits[HEADER_SIZE_BITS .. HEADER_SIZE_BITS + 8 * size]))
  }

  /** The outcome of decoding is decided by the header alone, in this order. */
  lemma DecodeOrder(bits: seq<bool>)
    requires |bits| >= HEADER_SIZE_BITS
    ensures var n := Header(bits);
      && (Decode(bits).GetErrorCode() == NoEmbeddedData <==> n == 0)
      && (Decode(bits).GetErrorCode() == CorruptedPayload <==> n > MAX_REASONABLE_SIZE)
      && ((Decode(bits).GetErrorCode() == InvalidDataSize)
            <==> (0 < n <= MAX_REASONABLE_SIZE && 8 * n + HEADER_SIZE_BITS > |bits|))
      && ((Decode(bits).IsSuccess())
            <==> (0 < n <= MAX_REASONABLE_SIZE && 8 * n + HEADER_SIZE_BITS <= |bits|))
      && (Decode(bits).IsSuccess() ==> |Decode(bits).value| == n)
      && (Decode(bits).Err? ==> Decode(bits).code != Success)
  {
    var n := Header(bits);
    if n == 0 {
      assert Decode(bits).code == NoEmbeddedData;
    } else if n > MAX_REASONABLE_SIZE {
      assert Decode(bits).code == CorruptedPayload;
    } else if 8 * n + HEADER_SIZE_BITS > |bits| {
      assert Decode(bits).code == InvalidDataSize;
    } else {
      assert Decode(bits).IsSuccess();
    }
  }

  /** Decoding reads only the first `32 + 8 * size` bits: a stream that
      agrees with another on them (and has the same length) decodes alike. */
  lemma DecodeReadsPrefix(bits: seq<bool>, other: seq<bool>)
    requires |bits| == |other| >= HEADER_SIZE_BITS
    requires bits[..HEADER_SIZE_BITS] == other[..HEADER_SIZE_BITS]
    requires var n := Header(bits);
      8 * n + HEADER_SIZE_BITS <= |bits| ==>
        bits[..HEADER_SIZE_BITS + 8 * n] == other[..HEADER_SIZE_BITS + 8 * n]
    ensures Decode(bits) == Decode(other)
  {
    var n := Header(bits);
    if 0 < n <= MAX_REASONABLE_SIZE && 8 * n + HEADER_SIZE_BITS <= |bits| {
      assert bits[32 .. 32 + 8 * n] == other[32 .. 32 + 8 * n] by {
        assert bits[32 .. 32 + 8 * n] == bits[..32 + 8 * n][32..];
        assert other[32 .. 32 + 8 * n] == other[..32 + 8 * n][32..];
      }
    }
  }

  /** A stream that starts with the encoding of `d` decodes to `d`, whatever
      follows it, provided `d` passes the sanity checks. */
  lemma DecodeEncode(d: seq<byte>, bits: seq<bool>)
    requires 1 <= |d| <= MAX_REASONABLE_SIZE
    requires |bits| >= HEADER_SIZE_BITS + 8 * |d|
    requires bits[..HEADER_SIZE_BITS + 8 * |d|] == Encode(d)
    ensures Decode(bits) == Ok(d)
  {
    HeaderConstants();
    var e := Encode(d);
    assert d[..Word(|d|)] == d;
    assert bits[..32] == HeaderBits(|d|) by {
      assert bits[..32] == e[..32];
    }
    ValueOfBits(|d|, 32);
    assert Header(bits) == |d|;
    assert bits[32 .. 32 + 8 * |d|] == PayloadBits(d) by {
      assert bits[32 .. 32 + 8 * |d|] == e[32..];
    }
    BytesOfPayload(d);
  }

  /** The stream of low bits of a buffer, in buffer order. */
  function Lsbs(p: seq<byte>): (s: seq<bool>)
    ensures |s| == |p|
    ensures forall i :: 0 <= i < |p| ==> s[i] == Lsb(p[i])
  {
    seq(|p|, i requires 0 <= i < |p| => Lsb(p[i]))
  }

  /** The buffer once `bits` are written into the low bits of its first
      `|bits|` values; nothing else changes. */
  function Overwrite(p: seq<byte>, bits: seq<bool>): (r: seq<byte>)
    requires |bits| <= |p|
    ensures |r| == |p|
    ensures forall i :: 0 <= i < |p| ==> r[i] / 2 == p[i] / 2
    ensures forall i :: 0 <= i < |bits| ==> Lsb(r[i]) == bits[i]
    ensures forall i :: |bits| <= i < |p| ==> r[i] == p[i]
  {
    seq(|p|, i requires 0 <= i < |p| => if i < |bits| then SetLsb(p[i], bits[i]) else p[i])
  }

  /** Writing one more bit changes one more pixel. */
  lemma OverwriteStep(p: seq<byte>, bits: seq<bool>, k: nat)
    requires k < |bits| <= |p|
    ensures Overwrite(p, bits[..k + 1]) == Overwrite(p, bits[..k])[k := SetLsb(p[k], bits[k])]
  {
  }

  /** What is written is what is read: the low-bit stream starts with `bits`. */
  lemma LsbsOverwrite(p: seq<byte>, bits: seq<bool>)
    requires |bits| <= |p|
    ensures Lsbs(Overwrite(p, bits))[..|bits|] == bits
    ensures Lsbs(Overwrite(p, bits))[|bits|..] == Lsbs(p)[|bits|..]
  {
  }

  /** Writing a frame into a buffer and reading it back returns the payload. */
  lemma RoundTrip(p: seq<byte>, d: seq<byte>)
    requires 1 <= |d| <= MAX_REASONABLE_SIZE
    requires HEADER_SIZE_BITS + 8 * |d| <= |p|
    ensures Decode(Lsbs(Overwrite(p, Encode(d)))) == Ok(d)
  {
    HeaderConstants();
    var e := Encode(d);
    LsbsOverwrite(p, e);
    DecodeEncode(d, Lsbs(Overwrite(p, e)));
  }
}
