/** The permuted LSB codec: stream bit `k` goes to the low bit of pixel value
    `locs[k]`, where `locs` is the identity list of positions shuffled by a
    generator seeded from the password.  The hash of the password and the
    generator's draws are the parameters of a `Shuffler`. */
module LSBShuffleStegoHandler {
  import opened Errors
  import opened Format
  import opened Frame
  import opened Capacity
  import opened PipelineSteps
  import CryptoModule
  import ImageIO

  /** The password hash (`std::hash<std::string>`) and the generator: `draw(seed, n, i)`
      is the raw value the shuffle of `n` positions seeded with `seed` draws for
      position `i`. */
  datatype Shuffler = Shuffler(hash: string -> nat, draw: (nat, nat, nat) -> nat)

  /** The index in `[0, i]` that position `i` is swapped with. */
  function Draw(sh: Shuffler, seed: nat, n: nat, i: nat): (j: nat)
    ensures j <= i
  {
    sh.draw(seed, n, i) % (i + 1)
  }

  /** The positions `0, 1, ..., n-1`. */
  function Iota(n: nat): (s: seq<nat>)
    ensures |s| == n
    ensures forall i :: 0 <= i < n ==> s[i] == i
  {
    seq(n, i requires 0 <= i < n => i)
  }

  /** Exchange of two entries. */
  function Swap(s: seq<nat>, i: nat, j: nat): (t: seq<nat>)
    requires i < |s| && j < |s|
    ensures |t| == |s| && t[i] == s[j] && t[j] == s[i]
    ensures forall k :: 0 <= k < |s| && k != i && k != j ==> t[k] == s[k]
  {
    s[i := s[j]][j := s[i]]
  }

  /** The Fisher-Yates passes for positions `i, i-1, ..., 1`. */
  function ShuffleFrom(sh: Shuffler, seed: nat, s: seq<nat>, i: nat): (t: seq<nat>)
    requires i < |s|
    ensures |t| == |s|
    decreases i
  {
    if i == 0 then s else ShuffleFrom(sh, seed, Swap(s, i, Draw(sh, seed, |s|, i)), i - 1)
  }

  /** The shuffled position list for a buffer of `n` values. */
  function Locations(sh: Shuffler, seed: nat, n: nat): (locs: seq<nat>)
    ensures |locs| == n
  {
    if n == 0 then [] else ShuffleFrom(sh, seed, Iota(n), n - 1)
  }

  /** Every entry a position of the buffer, no position twice. */
  predicate IsPermutation(s: seq<nat>, n: nat)
  {
    && |s| == n
    && (forall i :: 0 <= i < n ==> s[i] < n)
    && (forall i, j :: 0 <= i < j < n ==> s[i] != s[j])
  }

  lemma SwapPermutation(s: seq<nat>, n: nat, i: nat, j: nat)
    requires IsPermutation(s, n) && i < n && j < n
    ensures IsPermutation(Swap(s, i, j), n)
  {
    var t := Swap(s, i, j);
    forall a, b | 0 <= a < b < n
      ensures t[a] != t[b]
    {
      var a' := if a == i then j else if a == j then i else a;
      var b' := if b == i then j else if b == j then i else b;
      assert t[a] == s[a'] && t[b] == s[b'];
    }
  }

  lemma {:induction false} ShuffleFromPermutation(sh: Shuffler, seed: nat, s: seq<nat>, i: nat)
    requires i < |s| && IsPermutation(s, |s|)
    ensures IsPermutation(ShuffleFrom(sh, seed, s, i), |s|)
    decreases i
  {
    if i > 0 {
      var j := Draw(sh, seed, |s|, i);
      SwapPermutation(s, |s|, i, j);
      ShuffleFromPermutation(sh, seed, Swap(s, i, j), i - 1);
    }
  }

  /** The position list is a permutation of the buffer's positions, and it
      depends on nothing but the seed and the buffer length. */
  lemma LocationsPermutation(sh: Shuffler, seed: nat, n: nat)
    ensures IsPermutation(Locations(sh, seed, n), n)
  {
    if n > 0 {
      ShuffleFromPermutation(sh, seed, Iota(n), n - 1);
    }
  }

  /** A list of `n` distinct positions below `n` takes every position. */
  lemma PermutationCovers(s: seq<nat>, n: nat, v: nat)
    requires IsPermutation(s, n) && v < n
    ensures exists i :: 0 <= i < n && s[i] == v
  {
    var ident := Iota(n);
    var values := set i | 0 <= i < n :: s[i];
    var all := set i | 0 <= i < n :: ident[i];
    forall x | x in values
      ensures x in all
    {
      var i :| 0 <= i < n && s[i] == x;
      assert ident[x] == x;
    }
    InjectiveImageSize(s, n);
    InjectiveImageSize(ident, n);
    if values != all {
      SubsetSmaller(values, all);
    }
    assert ident[v] == v;
    assert v in all;
  }

  /** `k` distinct entries make a set of `k` values. */
  lemma {:induction false} InjectiveImageSize(s: seq<nat>, k: nat)
    requires k <= |s|
    requires forall i, j :: 0 <= i < j < k ==> s[i] != s[j]
    ensures |set i | 0 <= i < k :: s[i]| == k
    decreases k
  {
    if k > 0 {
      InjectiveImageSize(s, k - 1);
      var before := set i | 0 <= i < k - 1 :: s[i];
      assert (set i | 0 <= i < k :: s[i]) == before + {s[k - 1]};
      assert s[k - 1] !in before;
    }
  }

  lemma SubsetSmaller(a: set<nat>, b: set<nat>)
    requires a <= b && a != b
    ensures |a| < |b|
  {
    var x :| x in b && x !in a;
    assert b == a + (b - a);
    assert a * (b - a) == {};
    assert x in b - a;
  }

  /** The list built in place: the identity, then a swap per position from the
      top down, each with the index the generator draws for it. */
  method BuildLocations(sh: Shuffler, seed: nat, n: nat) returns (locs: array<nat>)
    ensures fresh(locs)
    ensures locs[..] == Locations(sh, seed, n)
  {
    locs := new nat[n];
    FillIota(locs);
    if n > 0 {
      ShufflePasses(sh, seed, locs);
    }
  }

  /** The iota loop: entry `i` becomes `i`. */
  method FillIota(a: array<nat>)
    modifies a
    ensures a[..] == Iota(a.Length)
  {
    var i := 0;
    while i < a.Length
      invariant 0 <= i <= a.Length
      invariant forall k :: 0 <= k < i ==> a[k] == k
    {
      a[i] := i;
      i := i + 1;
    }
  }

  /** The swap loop of the shuffle, from the top index down to 1. */
  method ShufflePasses(sh: Shuffler, seed: nat, a: array<nat>)
    requires a.Length > 0
    modifies a
    ensures a[..] == ShuffleFrom(sh, seed, old(a[..]), a.Length - 1)
  {
    ghost var a0 := a[..];
    var k := a.Length - 1;
    while k > 0
      invariant 0 <= k < a.Length
      invariant ShuffleFrom(sh, seed, a[..], k) == ShuffleFrom(sh, seed, a0, a.Length - 1)
    {
      var j := Draw(sh, seed, a.Length, k);
      ghost var before := a[..];
      assert ShuffleFrom(sh, seed, before, k) == ShuffleFrom(sh, seed, Swap(before, k, j), k - 1);
      a[k], a[j] := a[j], a[k];
      assert a[..] == Swap(before, k, j);
      k := k - 1;
    }
  }

  /** The buffer after writing `bits[k]` into the low bit of value `locs[k]`,
      for `k` from 0 upwards. */
  function Scatter(p: seq<byte>, locs: seq<nat>, bits: seq<bool>): (r: seq<byte>)
    requires |bits| <= |locs|
    requires forall k :: 0 <= k < |locs| ==> locs[k] < |p|
    ensures |r| == |p|
    decreases |bits|
  {
    if bits == [] then p
    else
      var m := |bits| - 1;
      var q := Scatter(p, locs, bits[..m]);
      q[locs[m] := SetLsb(q[locs[m]], bits[m])]
  }

  /** The low bits of the values at `locs`, in list order. */
  function LsbsAt(p: seq<byte>, locs: seq<nat>): (s: seq<bool>)
    requires forall k :: 0 <= k < |locs| ==> locs[k] < |p|
    ensures |s| == |locs|
    ensures forall k :: 0 <= k < |locs| ==> s[k] == Lsb(p[locs[k]])
  {
    seq(|locs|, k requires 0 <= k < |locs| => Lsb(p[locs[k]]))
  }

  /** Writing through a permutation: the listed values carry the bits, every
      value keeps its seven high bits, the values not listed are untouched. */
  lemma {:induction false} ScatterAt(p: seq<byte>, locs: seq<nat>, bits: seq<bool>)
    requires IsPermutation(locs, |p|) && |bits| <= |p|
    ensures forall k :: 0 <= k < |bits| ==> Lsb(Scatter(p, locs, bits)[locs[k]]) == bits[k]
    ensures forall i :: 0 <= i < |p| ==> Scatter(p, locs, bits)[i] / 2 == p[i] / 2
    ensures forall i :: 0 <= i < |p| && i !in locs[..|bits|] ==> Scatter(p, locs, bits)[i] == p[i]
    decreases |bits|
  {
    if bits != [] {
      var m := |bits| - 1;
      ScatterAt(p, locs, bits[..m]);
      assert locs[..|bits|] == locs[..m] + [locs[m]];
      forall k | 0 <= k < m
        ensures locs[k] != locs[m]
      {
      }
    }
  }

  /** The bits written through the list are the bits read through it. */
  lemma ScatterLsbsAt(p: seq<byte>, locs: seq<nat>, bits: seq<bool>)
    requires IsPermutation(locs, |p|) && |bits| <= |p|
    ensures LsbsAt(Scatter(p, locs, bits), locs)[..|bits|] == bits
  {
    ScatterAt(p, locs, bits);
  }

  /** Writing one bit more through the list. */
  lemma ScatterStep(p: seq<byte>, locs: seq<nat>, bits: seq<bool>, m: nat)
    requires m < |bits| <= |locs| && forall k :: 0 <= k < |locs| ==> locs[k] < |p|
    ensures var q := Scatter(p, locs, bits[..m]);
      Scatter(p, locs, bits[..m + 1]) == q[locs[m] := SetLsb(q[locs[m]], bits[m])]
  {
    assert bits[..m + 1][..m] == bits[..m];
  }

  /** Size validation: the ceiling first (`DataTooLarge`), then the capacity
      (`InsufficientCapacity`). */
  function ValidateLSBCapacity(pixelCount: nat, dataSize: nat): (r: Result<()>)
    ensures r.GetErrorCode() == DataTooLarge <==> dataSize > MAX_REASONABLE_SIZE
    ensures r.GetErrorCode() == InsufficientCapacity
        <==> (dataSize <= MAX_REASONABLE_SIZE && dataSize > CalculateLSBCapacity(pixelCount))
    ensures r.IsSuccess()
        <==> (dataSize <= MAX_REASONABLE_SIZE && dataSize <= CalculateLSBCapacity(pixelCount))
  {
    ValidateCapacity(pixelCount, dataSize, HEADER_SIZE_BITS, MAX_REASONABLE_SIZE)
  }

  /** Byte `j` of the little-endian header, `(dataSize >> 8j) & 0xFF`. */
  function HeaderByte(w: nat, j: nat): (b: byte)
  {
    (w / Pow2(8 * j)) % 256
  }

  lemma DivDiv(x: nat, a: nat, b: nat)
    requires a > 0 && b > 0
    ensures (x / a) / b == x / (a * b)
  {
    var q1, r1 := x / a, x % a;
    var q2, r2 := q1 / b, q1 % b;
    assert x == (a * b) * q2 + (a * r2 + r1) by {
      assert x == a * q1 + r1;
      assert q1 == b * q2 + r2;
      assert a * q1 == a * (b * q2) + a * r2;
    }
    MulMonotone(b - 1, r2, a);
    assert a * r2 <= a * (b - 1);
    assert a * (b - 1) == a * b - a;
    DivModUnique(x, a * b, q2, a * r2 + r1);
  }

  /** Bit `b` of header byte `j` is bit `8j + b` of the size. */
  lemma HeaderByteBit(w: nat, j: nat, b: nat)
    requires b < 8
    ensures Bit(HeaderByte(w, j), b) == Bit(w, 8 * j + b)
  {
    var hi := w / Pow2(8 * j);
    assert Pow2(8) == 256;
    BitOfMod(hi, 8, b);
    DivDiv(w, Pow2(8 * j), Pow2(b));
    Pow2Add(8 * j, b);
  }

  /** The four header bytes of a size, low byte first. */
  function HeaderBytes(w: nat): seq<byte>
  {
    [HeaderByte(w, 0), HeaderByte(w, 1), HeaderByte(w, 2), HeaderByte(w, 3)]
  }

  /** The byte sequence the embedder writes out: four header bytes, the
      payload, then the `binarySize` zeros the vector started with. */
  function DataVector(data: seq<byte>, binarySize: nat): (v: seq<byte>)
    ensures |v| == HEADER_SIZE_BYTES + |data| + binarySize
    ensures v[..HEADER_SIZE_BYTES] == HeaderBytes(Word(|data|))
    ensures v[HEADER_SIZE_BYTES .. HEADER_SIZE_BYTES + |data|] == data
    ensures forall i :: HEADER_SIZE_BYTES + |data| <= i < |v| ==> v[i] == 0
  {
    var w := Word(|data|);
    var zeros := seq(binarySize, _ => 0);
    var withHeader := HeaderBytes(w) + zeros;
    withHeader[..HEADER_SIZE_BYTES] + data + withHeader[HEADER_SIZE_BYTES..]
  }

  /** The bits of the data vector, byte by byte and low bit first, are the
      frame's stream. */
  lemma DataVectorBit(data: seq<byte>, binarySize: nat, k: nat, b: nat)
    requires k < HEADER_SIZE_BYTES + Word(|data|) && b < 8
    ensures Bit(DataVector(data, binarySize)[k], b) == Encode(data)[8 * k + b]
  {
    if k < HEADER_SIZE_BYTES {
      HeaderVectorBit(data, binarySize, k, b);
    } else {
      PayloadVectorBit(data, binarySize, k - HEADER_SIZE_BYTES, b);
    }
  }

  lemma HeaderVectorBit(data: seq<byte>, binarySize: nat, k: nat, b: nat)
    requires k < HEADER_SIZE_BYTES && b < 8
    ensures Bit(DataVector(data, binarySize)[k], b) == Encode(data)[8 * k + b]
  {
    var w := Word(|data|);
    var v := DataVector(data, binarySize);
    assert v[k] == v[..HEADER_SIZE_BYTES][k] == HeaderBytes(w)[k] == HeaderByte(w, k);
    HeaderByteBit(w, k, b);
    EncodeAt(data, 8 * k + b, 0);
  }

  lemma PayloadVectorBit(data: seq<byte>, binarySize: nat, j: nat, b: nat)
    requires j < Word(|data|) && b < 8
    ensures Bit(DataVector(data, binarySize)[HEADER_SIZE_BYTES + j], b)
         == Encode(data)[HEADER_SIZE_BITS + 8 * j + b]
  {
    var v := DataVector(data, binarySize);
    assert v[HEADER_SIZE_BYTES + j] == v[HEADER_SIZE_BYTES .. HEADER_SIZE_BYTES + |data|][j];
    EncodeAt(data, j, b);
  }

  /** The eight bits of vector byte `k` are stream bits `8k .. 8k + 8`. */
  lemma VectorByteBits(data: seq<byte>, binarySize: nat, k: nat)
    requires k < HEADER_SIZE_BYTES + Word(|data|)
    ensures k < |DataVector(data, binarySize)|
    ensures forall b :: 0 <= b < 8 ==> Bit(DataVector(data, binarySize)[k], b) == Encode(data)[8 * k + b]
  {
    forall b | 0 <= b < 8
      ensures Bit(DataVector(data, binarySize)[k], b) == Encode(data)[8 * k + b]
    {
      DataVectorBit(data, binarySize, k, b);
    }
  }

  /** Embeds `data` in place through the position list of the password.
      The empty payload and a frame that does not fit are rejected before
      any value is written. */
  method EmbedLSB(pixels: array<byte>, data: seq<byte>, sh: Shuffler, password: string)
    returns (r: Result<()>)
    modifies pixels
    ensures |data| == 0 ==>
      r == Err(InvalidArgument, "Cannot embed empty data") && pixels[..] == old(pixels[..])
    ensures |data| > 0 && ExceedsBuffer(|data|, pixels.Length) ==>
      r == Err(EmbeddingFailed, "Internal error: Data size " + Decimal(Word(|data|))
                                + " bytes exceeds available capacity")
      && pixels[..] == old(pixels[..])
    ensures |data| > 0 && !ExceedsBuffer(|data|, pixels.Length) ==>
      r == Ok(()) && IsPermutation(Locations(sh, sh.hash(password), pixels.Length), pixels.Length)
      && pixels[..] == Scatter(old(pixels[..]), Locations(sh, sh.hash(password), pixels.Length), Encode(data))
  {
    if |data| == 0 {
      return Err(InvalidArgument, "Cannot embed empty data");
    }
    var dataSize := Word(|data|);
    var binarySize := dataSize * 8 + HEADER_SIZE_BITS;
    var imgSize := pixels.Length;
    if ExceedsBuffer(|data|, imgSize) {
      return Err(EmbeddingFailed, "Internal error: Data size " + Decimal(dataSize)
                                  + " bytes exceeds available capacity");
    }
    var seed := sh.hash(password);
    var locs := BuildLocations(sh, seed, imgSize);
    LocationsPermutation(sh, seed, imgSize);
    var dataVector := DataVector(data, binarySize);
    ScatterStream(pixels, locs[..], data, dataVector, binarySize);
    return Ok(());
  }

  /** The nested loops of the embedder: bit `b` of vector byte `k` to the low
      bit of value `locs[8k + b]`. */
  method ScatterStream(pixels: array<byte>, locs: seq<nat>, data: seq<byte>,
                       dataVector: seq<byte>, binarySize: nat)
    requires IsPermutation(locs, pixels.Length)
    requires HEADER_SIZE_BITS + 8 * |data| <= pixels.Length
    requires dataVector == DataVector(data, binarySize)
    modifies pixels
    ensures pixels[..] == Scatter(old(pixels[..]), locs, Encode(data))
  {
    ghost var p0 := pixels[..];
    ghost var stream := Encode(data);
    var dataSize := Word(|data|);
    var byteIdx := 0;
    while byteIdx < dataSize + HEADER_SIZE_BYTES
      invariant 0 <= byteIdx <= dataSize + HEADER_SIZE_BYTES
      invariant pixels[..] == Scatter(p0, locs, stream[..8 * byteIdx])
    {
      VectorByteBits(data, binarySize, byteIdx);
      ScatterByte(pixels, locs, data, dataVector, binarySize, byteIdx, p0);
      byteIdx := byteIdx + 1;
    }
    assert stream[..8 * (dataSize + HEADER_SIZE_BYTES)] == stream;
  }

  /** The inner embedding loop: the eight bits of vector byte `k` to the low
      bits of values `locs[8k .. 8k + 8]`. */
  method ScatterByte(pixels: array<byte>, locs: seq<nat>, data: seq<byte>,
                     dataVector: seq<byte>, binarySize: nat, k: nat, ghost p0: seq<byte>)
    requires |locs| == pixels.Length == |p0| && forall i :: 0 <= i < |locs| ==> locs[i] < |p0|
    requires HEADER_SIZE_BITS + 8 * |data| <= pixels.Length
    requires k < Word(|data|) + HEADER_SIZE_BYTES && k < |dataVector|
    requires forall b :: 0 <= b < 8 ==> Bit(dataVector[k], b) == Encode(data)[8 * k + b]
    requires pixels[..] == Scatter(p0, locs, Encode(data)[..8 * k])
    modifies pixels
    ensures pixels[..] == Scatter(p0, locs, Encode(data)[..8 * k + 8])
  {
    ghost var stream := Encode(data);
    assert 8 * k + 8 <= |stream| <= |locs|;
    var bitIdx := 0;
    while bitIdx < 8
      invariant 0 <= bitIdx <= 8
      invariant pixels[..] == Scatter(p0, locs, stream[..8 * k + bitIdx])
    {
      var bitIndex := 8 * k + bitIdx;
      ScatterStep(p0, locs, stream, bitIndex);
      ghost var before := pixels[..];
      var pos := locs[bitIndex];
      var v := SetLsb(pixels[pos], Bit(dataVector[k], bitIdx));
      pixels[pos] := v;
      assert pixels[..] == before[pos := v];
      bitIdx := bitIdx + 1;
    }
  }

  /** Reads the frame through the position list of the password: the header
      from the first 32 listed values, the three ordered checks, the payload. */
  method ExtractLSB(pixels: seq<byte>, sh: Shuffler, password: string) returns (r: Result<seq<byte>>)
    requires |pixels| >= HEADER_SIZE_BITS
    ensures IsPermutation(Locations(sh, sh.hash(password), |pixels|), |pixels|)
    ensures r == Decode(LsbsAt(pixels, Locations(sh, sh.hash(password), |pixels|)))
  {
    var imgSize := |pixels|;
    var seed := sh.hash(password);
    var locs := BuildLocations(sh, seed, imgSize);
    LocationsPermutation(sh, seed, imgSize);
    var dataSize := GatherHeader(pixels, locs[..]);
    if dataSize == 0 {
      return Err(NoEmbeddedData, "Extracted size is 0. Image may not contain embedded data.");
    }
    if dataSize > MAX_REASONABLE_SIZE {
      return Err(CorruptedPayload, TooLargeMessage(dataSize));
    }
    if dataSize * 8 + HEADER_SIZE_BITS > |pixels| {
      return Err(InvalidDataSize, NoRoomMessage(dataSize, |pixels|));
    }
    var extracted := GatherPayload(pixels, locs[..], dataSize);
    return Ok(extracted);
  }

  /** The header loops: bit `8j + b` of the size from the low bit of value
      `locs[8j + b]`. */
  method GatherHeader(pixels: seq<byte>, locs: seq<nat>) returns (dataSize: nat)
    requires |pixels| >= HEADER_SIZE_BITS
    requires |locs| == |pixels| && forall k :: 0 <= k < |locs| ==> locs[k] < |pixels|
    ensures dataSize == Header(LsbsAt(pixels, locs))
  {
    ghost var bits := LsbsAt(pixels, locs);
    dataSize := 0;
    var byteIdx := 0;
    while byteIdx < HEADER_SIZE_BYTES
      invariant 0 <= byteIdx <= HEADER_SIZE_BYTES
      invariant dataSize == ValueOf(bits[..8 * byteIdx])
    {
      var bitIdx := 0;
      while bitIdx < 8
        invariant 0 <= bitIdx <= 8
        invariant dataSize == ValueOf(bits[..8 * byteIdx + bitIdx])
      {
        var bitIndex := byteIdx * 8 + bitIdx;
        ValueOfStep(bits, bitIndex);
        assert bits[bitIndex] == Lsb(pixels[locs[bitIndex]]);
        dataSize := OrBit(dataSize, Lsb(pixels[locs[bitIndex]]), bitIndex);
        bitIdx := bitIdx + 1;
      }
      byteIdx := byteIdx + 1;
    }
  }

  /** The payload loops: bit `b` of byte `k` from the low bit of value
      `locs[8(k + 4) + b]`, OR-ed into a zero-filled buffer. */
  method GatherPayload(pixels: seq<byte>, locs: seq<nat>, dataSize: nat) returns (extracted: seq<byte>)
    requires HEADER_SIZE_BITS + 8 * dataSize <= |pixels| == |locs|
    requires forall k :: 0 <= k < |locs| ==> locs[k] < |pixels|
    ensures extracted == BytesOf(LsbsAt(pixels, locs)[HEADER_SIZE_BITS .. HEADER_SIZE_BITS + 8 * dataSize])
  {
    ghost var bits := LsbsAt(pixels, locs);
    ghost var payload := bits[HEADER_SIZE_BITS .. HEADER_SIZE_BITS + 8 * dataSize];
    var buffer := new byte[dataSize](_ => 0);
    var byteIdx := 0;
    while byteIdx < dataSize
      invariant 0 <= byteIdx <= dataSize
      invariant forall j :: 0 <= j < byteIdx ==> buffer[j] == ValueOf(payload[8 * j .. 8 * j + 8])
      invariant forall j :: byteIdx <= j < dataSize ==> buffer[j] == 0
    {
      GatherByte(pixels, locs, HEADER_SIZE_BITS + 8 * byteIdx, buffer, byteIdx);
      SliceOfSlice(bits, HEADER_SIZE_BITS, HEADER_SIZE_BITS + 8 * dataSize, 8 * byteIdx, 8 * byteIdx + 8);
      byteIdx := byteIdx + 1;
    }
    extracted := buffer[..];
    BytesOfPointwise(extracted, payload);
  }

  /** The inner payload loop: OR the low bits of values `locs[start .. start + 8]`
      into bits 0..7 of the zeroed `buffer[k]`. */
  method GatherByte(pixels: seq<byte>, locs: seq<nat>, start: nat, buffer: array<byte>, k: nat)
    requires start + 8 <= |pixels| == |locs|
    requires forall i :: 0 <= i < |locs| ==> locs[i] < |pixels|
    requires k < buffer.Length && buffer[k] == 0
    modifies buffer
    ensures buffer[k] == ValueOf(LsbsAt(pixels, locs)[start .. start + 8])
    ensures forall j :: 0 <= j < buffer.Length && j != k ==> buffer[j] == old(buffer[j])
  {
    ghost var bits := LsbsAt(pixels, locs);
    var bitIdx := 0;
    while bitIdx < 8
      invariant 0 <= bitIdx <= 8
      invariant buffer[k] == ValueOf(bits[start .. start + bitIdx])
      invariant forall j :: 0 <= j < buffer.Length && j != k ==> buffer[j] == old(buffer[j])
    {
      AccumulateBit(bits, start, bitIdx);
      assert bits[start + bitIdx] == Lsb(pixels[locs[start + bitIdx]]);
      buffer[k] := OrBit(buffer[k], Lsb(pixels[locs[start + bitIdx]]), bitIdx);
      bitIdx := bitIdx + 1;
    }
  }

  /** Writing a frame through any permutation and reading it back through
      the same one returns the payload. */
  lemma ScatterRoundTrip(p: seq<byte>, locs: seq<nat>, data: seq<byte>)
    requires IsPermutation(locs, |p|)
    requires 1 <= |data| <= MAX_REASONABLE_SIZE && HEADER_SIZE_BITS + 8 * |data| <= |p|
    ensures Decode(LsbsAt(Scatter(p, locs, Encode(data)), locs)) == Ok(data)
  {
    HeaderConstants();
    var e := Encode(data);
    var bits := LsbsAt(Scatter(p, locs, e), locs);
    assert |e| == HEADER_SIZE_BITS + 8 * |data|;
    ScatterLsbsAt(p, locs, e);
    assert bits[..HEADER_SIZE_BITS + 8 * |data|] == e;
    DecodeEncode(data, bits);
  }

  /** Embedding and extracting with the same password on buffers of the same
      length returns the payload, for every payload the validation accepts. */
  lemma EmbedExtractRoundTrip(sh: Shuffler, password: string, pixels: seq<byte>, data: seq<byte>)
    requires |data| > 0 && ValidateLSBCapacity(|pixels|, |data|).IsSuccess()
    ensures !ExceedsBuffer(|data|, |pixels|)
    ensures IsPermutation(Locations(sh, sh.hash(password), |pixels|), |pixels|)
    ensures var locs := Locations(sh, sh.hash(password), |pixels|);
      && |Scatter(pixels, locs, Encode(data))| == |pixels| >= HEADER_SIZE_BITS
      && Decode(LsbsAt(Scatter(pixels, locs, Encode(data)), locs)) == Ok(data)
  {
    ValidatedFits(|pixels|, |data|);
    LocationsPermutation(sh, sh.hash(password), |pixels|);
    ScatterRoundTrip(pixels, Locations(sh, sh.hash(password), |pixels|), data);
  }

  /** The handler's embed pipeline: the capacity is validated against the
      image's `GetPixelCount()` with the ceiling, and the payload is scattered
      through the positions of the password. */
  method Embed(coverFile: string, dataFile: string, outputFile: string, password: string,
               loaded: Result<ImageIO.ImageData>, contents: Option<seq<byte>>,
               e: CryptoModule.Engine, saltDraw: Option<seq<byte>>, ivDraw: Option<seq<byte>>,
               write: ImageIO.Encoder -> bool, sh: Shuffler)
    returns (r: Result<()>, calls: seq<CryptoModule.Call>, stego: Option<ImageIO.ImageData>)
    requires saltDraw.Some? ==> |saltDraw.value| == CryptoModule.SALT_SIZE
    requires ivDraw.Some? ==> |ivDraw.value| == CryptoModule.IV_SIZE
    ensures loaded.IsError() ==> r == Err(loaded.code, loaded.message) && calls == [] && stego == None
    ensures loaded.IsSuccess() && contents.None? ==>
      r == Err(FileNotFound, OpenDataMessage(dataFile)) && calls == [] && stego == None
    ensures loaded.IsSuccess() && contents == Some([]) ==>
      r == Err(InvalidArgument, EmptyDataMessage(dataFile)) && calls == [] && stego == None
    ensures loaded.IsSuccess() && contents.Some? && contents.value != [] ==>
      var enc := CryptoModule.Encrypt(e, contents.value, password, saltDraw, ivDraw);
      var image := loaded.value;
      && (enc.IsError() ==> r == Err(enc.code, "Encryption failed: " + enc.message) && stego == None)
      && (enc.IsSuccess() ==>
            var check := ValidateLSBCapacity(image.GetPixelCount(), |enc.value|);
            var locs := Locations(sh, sh.hash(password), |image.pixels|);
            && IsPermutation(locs, |image.pixels|)
            && (check.IsError() ==> r == check && stego == None)
            && (check.IsSuccess() && ExceedsBuffer(|enc.value|, |image.pixels|) ==>
                  r == Err(EmbeddingFailed, "Internal error: Data size " + Decimal(Word(|enc.value|))
                                            + " bytes exceeds available capacity")
                  && stego == None)
            && (check.IsSuccess() && !ExceedsBuffer(|enc.value|, |image.pixels|) ==>
                  stego == Some(image.(pixels := Scatter(image.pixels, locs, Encode(enc.value))))
                  && r == ImageIO.SaveImage(outputFile, stego.value, write)))
  {
    calls := [];
    stego := None;
    if loaded.IsError() {
      return Err(loaded.GetErrorCode(), loaded.GetErrorMessage()), calls, stego;
    }
    var imageData := loaded.value;
    LocationsPermutation(sh, sh.hash(password), |imageData.pixels|);
    if contents.None? {
      return Err(FileNotFound, OpenDataMessage(dataFile)), calls, stego;
    }
    var plainData := contents.value;
    if |plainData| == 0 {
      return Err(InvalidArgument, EmptyDataMessage(dataFile)), calls, stego;
    }

    var encryptResult;
    encryptResult, calls := CryptoModule.EncryptData(e, plainData, password, saltDraw, ivDraw);
    if encryptResult.IsError() {
      return Err(encryptResult.GetErrorCode(), "Encryption failed: " + encryptResult.GetErrorMessage()),
             calls, stego;
    }
    var encryptedData := encryptResult.value;

    var capacityCheck := ValidateLSBCapacity(imageData.GetPixelCount(), |encryptedData|);
    if capacityCheck.IsError() {
      return capacityCheck, calls, stego;
    }

    var pixels := CopyToBuffer(imageData.pixels);
    var embedResult := EmbedLSB(pixels, encryptedData, sh, password);
    if embedResult.IsError() {
      return embedResult, calls, stego;
    }
    imageData := imageData.(pixels := pixels[..]);

    stego := Some(imageData);
    var saveResult := ImageIO.SaveImage(outputFile, imageData, write);
    if saveResult.IsError() {
      return saveResult, calls, stego;
    }
    return Ok(()), calls, stego;
  }

  /** The handler's extract pipeline: `ImageTooSmall` without the extraction
      prefix for a buffer shorter than the header, then the frame gathered
      through the positions of the password, decryption and the write. */
  method Extract(stegoFile: string, outputFile: string, password: string,
                 loaded: Result<ImageIO.ImageData>, e: CryptoModule.Engine, openOk: bool, writeOk: bool,
                 sh: Shuffler)
    returns (r: Result<()>, calls: seq<CryptoModule.Call>, output: Option<seq<byte>>)
    ensures loaded.IsError() ==> r == Err(loaded.code, loaded.message) && calls == [] && output == None
    ensures loaded.IsSuccess() && |loaded.value.pixels| < HEADER_SIZE_BITS ==>
      r == Err(ImageTooSmall, TooSmallMessage(|loaded.value.pixels|)) && calls == [] && output == None
    ensures loaded.IsSuccess() && |loaded.value.pixels| >= HEADER_SIZE_BITS ==>
      var p := loaded.value.pixels;
      IsPermutation(Locations(sh, sh.hash(password), |p|), |p|) &&
      var x := Decode(LsbsAt(p, Locations(sh, sh.hash(password), |p|)));
      && (x.IsError() ==> r == Err(x.code, "Extraction failed: " + x.message) && calls == [] && output == None)
      && (x.IsSuccess() ==>
            var d := CryptoModule.Decrypt(e, x.value, password);
            && (d.IsError() ==> r == Err(d.code, "Decryption failed: " + d.message) && output == None)
            && (d.IsSuccess() ==>
                  output == (if openOk then Some(d.value) else None)
                  && r == WriteOutput(outputFile, openOk, writeOk)))
  {
    calls := [];
    output := None;
    if loaded.IsError() {
      return Err(loaded.GetErrorCode(), loaded.GetErrorMessage()), calls, output;
    }
    var pixels := loaded.value.pixels;

    if |pixels| < HEADER_SIZE_BITS {
      return Err(ImageTooSmall, TooSmallMessage(|pixels|)), calls, output;
    }

    var extractResult := ExtractLSB(pixels, sh, password);
    if extractResult.IsError() {
      return Err(extractResult.GetErrorCode(), "Extraction failed: " + extractResult.GetErrorMessage()),
             calls, output;
    }
    var encryptedData := extractResult.value;

    var decryptResult;
    decryptResult, calls := CryptoModule.DecryptData(e, encryptedData, password);
    if decryptResult.IsError() {
      return Err(decryptResult.GetErrorCode(), "Decryption failed: " + decryptResult.GetErrorMessage()),
             calls, output;
    }
    var plainData := decryptResult.value;

    if !openOk {
      return WriteOutput(outputFile, openOk, writeOk), calls, output;
    }
    output := Some(plainData);
    return WriteOutput(outputFile, openOk, writeOk), calls, output;
  }

  /** End to end: for an image whose pixel count matches its buffer, a
      ciphertext the validation accepts is scattered, gathered back through
      the same password's positions and decrypted to the original data. */
  lemma PipelineRoundTrip(e: CryptoModule.Engine, plain: seq<byte>, password: string,
                          salt: seq<byte>, iv: seq<byte>, image: ImageIO.ImageData, sh: Shuffler,
                          c: seq<byte>)
    requires CryptoModule.Sound(e)
    requires |salt| == CryptoModule.SALT_SIZE && |iv| == CryptoModule.IV_SIZE
    requires |image.pixels| == image.GetPixelCount()
    requires CryptoModule.Encrypt(e, plain, password, Some(salt), Some(iv)) == Ok(c)
    requires ValidateLSBCapacity(image.GetPixelCount(), |c|).IsSuccess()
    ensures var locs := Locations(sh, sh.hash(password), |image.pixels|);
      && IsPermutation(locs, |image.pixels|)
      && !ExceedsBuffer(|c|, |image.pixels|)
      && |Scatter(image.pixels, locs, Encode(c))| == |image.pixels| >= HEADER_SIZE_BITS
      && Decode(LsbsAt(Scatter(image.pixels, locs, Encode(c)), locs)) == Ok(c)
      && CryptoModule.Decrypt(e, c, password) == Ok(plain)
  {
    CryptoModule.EncryptLength(e, plain, password, salt, iv);
    EmbedExtractRoundTrip(sh, password, image.pixels, c);
    CryptoModule.DecryptEncrypt(e, plain, password, salt, iv);
  }
}
