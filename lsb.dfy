/** The sequential LSB codec of the original handler: stream bit `k` goes to
    the low bit of pixel value `k`.  Its size validation has no sanity
    ceiling and its embedder accepts an empty payload; both are written here
    as the handler has them. */
module LSBStegoHandler {
  import opened Errors
  import opened Format
  import opened Frame
  import opened Capacity
  import opened PipelineSteps
  import CryptoModule
  import ImageIO

  /** Size validation without a ceiling: only the capacity is checked. */
  function ValidateLSBCapacity(pixelCount: nat, dataSize: nat): (r: Result<()>)
    ensures r.IsSuccess() <==> dataSize <= CalculateLSBCapacity(pixelCount)
    ensures r.IsError() ==> r == Err(InsufficientCapacity,
      InsufficientMessage(pixelCount, dataSize, CalculateLSBCapacity(pixelCount), HEADER_SIZE_BITS))
  {
    var available := CalculateLSBCapacity(pixelCount);
    if dataSize > available then
      Err(InsufficientCapacity, InsufficientMessage(pixelCount, dataSize, available, HEADER_SIZE_BITS))
    else
      Ok(())
  }

  /** Without the ceiling, a size one byte above it is accepted by a large
      enough image, where a `DataTooLarge` rejection is expected. */
  lemma ValidateLSBCapacityNoCeiling()
    ensures ValidateLSBCapacity(1000000000, MAX_REASONABLE_SIZE + 1).IsSuccess()
    ensures ValidateCapacity(1000000000, MAX_REASONABLE_SIZE + 1, HEADER_SIZE_BITS, MAX_REASONABLE_SIZE)
              .GetErrorCode() == DataTooLarge
  {
  }

  /** Below the ceiling the older validation agrees with the ceiling-checked one. */
  lemma ValidateLSBCapacityBelowCeiling(pixelCount: nat, dataSize: nat)
    requires dataSize <= MAX_REASONABLE_SIZE
    ensures ValidateLSBCapacity(pixelCount, dataSize)
         == ValidateCapacity(pixelCount, dataSize, HEADER_SIZE_BITS, MAX_REASONABLE_SIZE)
  {
  }

  /** The message of the embedder's internal room check. */
  function RoomMessage(dataSize: nat): string
  {
    "Internal error: Data size " + Decimal(Word(dataSize)) + " bytes exceeds available capacity"
  }

  /** Writes the frame of `data` into the low bits of the first values of
      `pixels`: the 32 header bits, then each byte's bits, low bit first. */
  method WriteFrame(pixels: array<byte>, data: seq<byte>)
    requires HEADER_SIZE_BITS + 8 * |data| <= pixels.Length
    modifies pixels
    ensures pixels[..] == Overwrite(old(pixels[..]), Encode(data))
  {
    ghost var p0 := pixels[..];
    WriteHeader(pixels, data);
    WritePayload(pixels, data, p0);
  }

  /** The first loop: bit `i` of the truncated size into pixel value `i`. */
  method WriteHeader(pixels: array<byte>, data: seq<byte>)
    requires HEADER_SIZE_BITS + 8 * |data| <= pixels.Length
    modifies pixels
    ensures pixels[..] == Overwrite(old(pixels[..]), Encode(data)[..HEADER_SIZE_BITS])
  {
    ghost var p0 := pixels[..];
    ghost var stream := Encode(data);
    var dataSize := Word(|data|);
    var idx := 0;
    while idx < HEADER_SIZE_BITS
      invariant 0 <= idx <= HEADER_SIZE_BITS
      invariant pixels[..] == Overwrite(p0, stream[..idx])
    {
      EncodeAt(data, idx, 0);
      OverwriteStep(p0, stream, idx);
      pixels[idx] := SetLsb(pixels[idx], Bit(dataSize, idx));
      idx := idx + 1;
    }
  }

  /** The nested loops: bit `b` of byte `k` into pixel value `32 + 8k + b`. */
  method WritePayload(pixels: array<byte>, data: seq<byte>, ghost p0: seq<byte>)
    requires HEADER_SIZE_BITS + 8 * |data| <= pixels.Length == |p0|
    requires pixels[..] == Overwrite(p0, Encode(data)[..HEADER_SIZE_BITS])
    modifies pixels
    ensures pixels[..] == Overwrite(p0, Encode(data))
  {
    ghost var stream := Encode(data);
    var dataSize := Word(|data|);
    var byteIdx := 0;
    while byteIdx < dataSize
      invariant 0 <= byteIdx <= dataSize
      invariant pixels[..] == Overwrite(p0, stream[..HEADER_SIZE_BITS + 8 * byteIdx])
    {
      WriteByte(pixels, data, byteIdx, p0);
      byteIdx := byteIdx + 1;
    }
    assert stream[..HEADER_SIZE_BITS + 8 * dataSize] == stream;
  }

  /** The inner payload loop: bit `b` of byte `k` into pixel value `32 + 8k + b`. */
  method WriteByte(pixels: array<byte>, data: seq<byte>, k: nat, ghost p0: seq<byte>)
    requires k < Word(|data|) && HEADER_SIZE_BITS + 8 * |data| <= pixels.Length == |p0|
    requires pixels[..] == Overwrite(p0, Encode(data)[..HEADER_SIZE_BITS + 8 * k])
    modifies pixels
    ensures pixels[..] == Overwrite(p0, Encode(data)[..HEADER_SIZE_BITS + 8 * k + 8])
  {
    ghost var stream := Encode(data);
    var bitIdx := 0;
    while bitIdx < 8
      invariant 0 <= bitIdx <= 8
      invariant pixels[..] == Overwrite(p0, stream[..HEADER_SIZE_BITS + 8 * k + bitIdx])
    {
      var pixelIdx := HEADER_SIZE_BITS + 8 * k + bitIdx;
      EncodeAt(data, k, bitIdx);
      OverwriteStep(p0, stream, pixelIdx);
      pixels[pixelIdx] := SetLsb(pixels[pixelIdx], Bit(data[k], bitIdx));
      bitIdx := bitIdx + 1;
    }
  }

  /** Embeds `data` in place.  Fails with `EmbeddingFailed`, touching nothing,
      when the frame does not fit; otherwise only the low bits of the first
      `32 + 8 * |data|` values change, to the frame's bits. */
  method EmbedLSB(pixels: array<byte>, data: seq<byte>) returns (r: Result<()>)
    modifies pixels
    ensures ExceedsBuffer(|data|, pixels.Length) ==>
      r == Err(EmbeddingFailed, RoomMessage(|data|)) && pixels[..] == old(pixels[..])
    ensures !ExceedsBuffer(|data|, pixels.Length) ==>
      r == Ok(()) && pixels[..] == Overwrite(old(pixels[..]), Encode(data))
  {
    if ExceedsBuffer(|data|, pixels.Length) {
      return Err(EmbeddingFailed, RoomMessage(|data|));
    }
    WriteFrame(pixels, data);
    return Ok(());
  }

  /** Reads the frame back from the low bits of `pixels`: the header, the three
      ordered checks of the declared size, then the payload bytes. */
  method ExtractLSB(pixels: seq<byte>) returns (r: Result<seq<byte>>)
    requires |pixels| >= HEADER_SIZE_BITS
    ensures r == Decode(Lsbs(pixels))
  {
    var dataSize := ReadHeader(pixels);
    if dataSize == 0 {
      return Err(NoEmbeddedData, "Extracted size is 0. Image may not contain embedded data.");
    }
    if dataSize > MAX_REASONABLE_SIZE {
      return Err(CorruptedPayload, TooLargeMessage(dataSize));
    }
    if dataSize * 8 + HEADER_SIZE_BITS > |pixels| {
      return Err(InvalidDataSize, NoRoomMessage(dataSize, |pixels|));
    }
    var extracted := ReadPayload(pixels, dataSize);
    return Ok(extracted);
  }

  /** The header loop: OR the low bit of value `i` into bit `i` of the size. */
  method ReadHeader(pixels: seq<byte>) returns (dataSize: nat)
    requires |pixels| >= HEADER_SIZE_BITS
    ensures dataSize == Header(Lsbs(pixels))
  {
    ghost var bits := Lsbs(pixels);
    dataSize := 0;
    var idx := 0;
    while idx < HEADER_SIZE_BITS
      invariant 0 <= idx <= HEADER_SIZE_BITS
      invariant dataSize == ValueOf(bits[..idx])
    {
      ValueOfStep(bits, idx);
      dataSize := OrBit(dataSize, Lsb(pixels[idx]), idx);
      idx := idx + 1;
    }
  }

  /** The payload loops: OR the low bit of value `32 + 8k + b` into bit `b` of
      byte `k` of a zero-filled buffer. */
  method ReadPayload(pixels: seq<byte>, dataSize: nat) returns (extracted: seq<byte>)
    requires HEADER_SIZE_BITS + 8 * dataSize <= |pixels|
    ensures extracted == BytesOf(Lsbs(pixels)[HEADER_SIZE_BITS .. HEADER_SIZE_BITS + 8 * dataSize])
  {
    ghost var payload := Lsbs(pixels)[HEADER_SIZE_BITS .. HEADER_SIZE_BITS + 8 * dataSize];
    var buffer := new byte[dataSize](_ => 0);
    var byteIdx := 0;
    while byteIdx < dataSize
      invariant 0 <= byteIdx <= dataSize
      invariant forall j :: 0 <= j < byteIdx ==> buffer[j] == ValueOf(payload[8 * j .. 8 * j + 8])
      invariant forall j :: byteIdx <= j < dataSize ==> buffer[j] == 0
    {
      ReadByte(pixels, HEADER_SIZE_BITS + 8 * byteIdx, buffer, byteIdx);
      SliceOfSlice(Lsbs(pixels), HEADER_SIZE_BITS, HEADER_SIZE_BITS + 8 * dataSize, 8 * byteIdx, 8 * byteIdx + 8);
      byteIdx := byteIdx + 1;
    }
    extracted := buffer[..];
    BytesOfPointwise(extracted, payload);
  }

  /** The inner payload loop: OR the low bits of values `start .. start + 8`
      into bits 0..7 of the zeroed `buffer[k]`. */
  method ReadByte(pixels: seq<byte>, start: nat, buffer: array<byte>, k: nat)
    requires start + 8 <= |pixels| && k < buffer.Length && buffer[k] == 0
    modifies buffer
    ensures buffer[k] == ValueOf(Lsbs(pixels)[start .. start + 8])
    ensures forall j :: 0 <= j < buffer.Length && j != k ==> buffer[j] == old(buffer[j])
  {
    var bitIdx := 0;
    while bitIdx < 8
      invariant 0 <= bitIdx <= 8
      invariant buffer[k] == ValueOf(Lsbs(pixels)[start .. start + bitIdx])
      invariant forall j :: 0 <= j < buffer.Length && j != k ==> buffer[j] == old(buffer[j])
    {
      AccumulateBit(Lsbs(pixels), start, bitIdx);
      buffer[k] := OrBit(buffer[k], Lsb(pixels[start + bitIdx]), bitIdx);
      bitIdx := bitIdx + 1;
    }
  }

  /** What `EmbedLSB` writes, `ExtractLSB` reads back, for every payload of
      1 to `CalculateLSBCapacity(|pixels|)` bytes up to the ceiling. */
  lemma EmbedExtractRoundTrip(pixels: seq<byte>, data: seq<byte>)
    requires 1 <= |data| <= CalculateLSBCapacity(|pixels|)
    requires |data| <= MAX_REASONABLE_SIZE
    ensures !ExceedsBuffer(|data|, |pixels|)
    ensures Decode(Lsbs(Overwrite(pixels, Encode(data)))) == Ok(data)
  {
    FitsIffWithinCapacity(|pixels|, |data|);
    RoundTrip(pixels, data);
  }

  /** An empty payload is embedded (a zero header), and reading it back
      reports that no data is embedded: the empty payload does not round-trip. */
  lemma EmptyPayloadNotRecoverable(pixels: seq<byte>)
    requires |pixels| >= HEADER_SIZE_BITS
    ensures !ExceedsBuffer(0, |pixels|)
    ensures Decode(Lsbs(Overwrite(pixels, Encode([])))).GetErrorCode() == NoEmbeddedData
  {
    var e := Encode([]);
    var bits := Lsbs(Overwrite(pixels, e));
    LsbsOverwrite(pixels, e);
    assert bits[..HEADER_SIZE_BITS] == BitsOf(0, HEADER_SIZE_BITS);
    ValueOfBits(0, HEADER_SIZE_BITS);
  }

  /** The handler's own embed pipeline: as the generic one, except that the
      capacity is validated against the image's `GetPixelCount()` without a
      ceiling, and the payload goes through `EmbedLSB`. */
  method Embed(coverFile: string, dataFile: string, outputFile: string, password: string,
               loaded: Result<ImageIO.ImageData>, contents: Option<seq<byte>>,
               e: CryptoModule.Engine, saltDraw: Option<seq<byte>>, ivDraw: Option<seq<byte>>,
               write: ImageIO.Encoder -> bool)
    returns (r: Result<()>, calls: seq<CryptoModule.Call>, stego: Option<ImageIO.ImageData>)
    requires saltDraw.Some? ==> |saltDraw.value| == CryptoModule.SALT_SIZE
    requires ivDraw.Some? ==> |ivDraw.value| == CryptoModule.IV_SIZE
    ensures loaded.IsError() ==> r == Err(loaded.code, loaded.message) && calls == [] && stego == None
    ensures loaded.IsSuccess() && contents.None? ==>
      r == Err(FileNotFound, OpenDataMessage(dataFile)) && calls == [] && stego == None
    ensures loaded.IsSuccess() && contents == Some([]) ==>
      r == Err(InvalidArgument, EmptyDataMessage(dataFile)) && calls == [] && stego == None
    ensures loaded.IsSuccess() && contents.Some? && contents.value != [] ==>
      var enc := CryptoModule.Encrypt(e, contents.value, password, saltDraw, ivDraw);
      var image := loaded.value;
      && (enc.IsError() ==> r == Err(enc.code, "Encryption failed: " + enc.message) && stego == None)
      && (enc.IsSuccess() ==>
            var check := ValidateLSBCapacity(image.GetPixelCount(), |enc.value|);
            && (check.IsError() ==> r == check && stego == None)
            && (check.IsSuccess() && ExceedsBuffer(|enc.value|, |image.pixels|) ==>
                  r == Err(EmbeddingFailed, RoomMessage(|enc.value|)) && stego == None)
            && (check.IsSuccess() && !ExceedsBuffer(|enc.value|, |image.pixels|) ==>
                  stego == Some(image.(pixels := Overwrite(image.pixels, Encode(enc.value))))
                  && r == ImageIO.SaveImage(outputFile, stego.value, write)))
  {
    calls := [];
    stego := None;
    if loaded.IsError() {
      return Err(loaded.GetErrorCode(), loaded.GetErrorMessage()), calls, stego;
    }
    var imageData := loaded.value;
    if contents.None? {
      return Err(FileNotFound, OpenDataMessage(dataFile)), calls, stego;
    }
    var plainData := contents.value;
    if |plainData| == 0 {
      return Err(InvalidArgument, EmptyDataMessage(dataFile)), calls, stego;
    }

    var encryptResult;
    encryptResult, calls := CryptoModule.EncryptData(e, plainData, password, saltDraw, ivDraw);
    if encryptResult.IsError() {
      return Err(encryptResult.GetErrorCode(), "Encryption failed: " + encryptResult.GetErrorMessage()),
             calls, stego;
    }
    var encryptedData := encryptResult.value;

    var capacityCheck := ValidateLSBCapacity(imageData.GetPixelCount(), |encryptedData|);
    if capacityCheck.IsError() {
      return capacityCheck, calls, stego;
    }

    var pixels := CopyToBuffer(imageData.pixels);
    var embedResult := EmbedLSB(pixels, encryptedData);
    if embedResult.IsError() {
      return embedResult, calls, stego;
    }
    imageData := imageData.(pixels := pixels[..]);

    stego := Some(imageData);
    var saveResult := ImageIO.SaveImage(outputFile, imageData, write);
    if saveResult.IsError() {
      return saveResult, calls, stego;
    }
    return Ok(()), calls, stego;
  }

  /** The handler's own extract pipeline: a buffer shorter than the header is
      reported as `ImageTooSmall` without the extraction prefix; the rest is
      the generic pipeline over `ExtractLSB`. */
  method Extract(stegoFile: string, outputFile: string, password: string,
                 loaded: Result<ImageIO.ImageData>, e: CryptoModule.Engine, openOk: bool, writeOk: bool)
    returns (r: Result<()>, calls: seq<CryptoModule.Call>, output: Option<seq<byte>>)
    ensures loaded.IsError() ==> r == Err(loaded.code, loaded.message) && calls == [] && output == None
    ensures loaded.IsSuccess() && |loaded.value.pixels| < HEADER_SIZE_BITS ==>
      r == Err(ImageTooSmall, TooSmallMessage(|loaded.value.pixels|)) && calls == [] && output == None
    ensures loaded.IsSuccess() && |loaded.value.pixels| >= HEADER_SIZE_BITS ==>
      var x := Decode(Lsbs(loaded.value.pixels));
      && (x.IsError() ==> r == Err(x.code, "Extraction failed: " + x.message) && calls == [] && output == None)
      && (x.IsSuccess() ==>
            var d := CryptoModule.Decrypt(e, x.value, password);
            && (d.IsError() ==> r == Err(d.code, "Decryption failed: " + d.message) && output == None)
            && (d.IsSuccess() ==>
                  output == (if openOk then Some(d.value) else None)
                  && r == WriteOutput(outputFile, openOk, writeOk)))
  {
    calls := [];
    output := None;
    if loaded.IsError() {
      return Err(loaded.GetErrorCode(), loaded.GetErrorMessage()), calls, output;
    }
    var pixels := loaded.value.pixels;

    if |pixels| < HEADER_SIZE_BITS {
      return Err(ImageTooSmall, TooSmallMessage(|pixels|)), calls, output;
    }

    var extractResult := ExtractLSB(pixels);
    if extractResult.IsError() {
      return Err(extractResult.GetErrorCode(), "Extraction failed: " + extractResult.GetErrorMessage()),
             calls, output;
    }
    var encryptedData := extractResult.value;

    var decryptResult;
    decryptResult, calls := CryptoModule.DecryptData(e, encryptedData, password);
    if decryptResult.IsError() {
      return Err(decryptResult.GetErrorCode(), "Decryption failed: " + decryptResult.GetErrorMessage()),
             calls, output;
    }
    var plainData := decryptResult.value;

    if !openOk {
      return WriteOutput(outputFile, openOk, writeOk), calls, output;
    }
    output := Some(plainData);
    return WriteOutput(outputFile, openOk, writeOk), calls, output;
  }

  /** End to end: for an image whose pixel count matches its buffer, a
      ciphertext up to the sanity ceiling that passes the validation is
      embedded, read back and decrypted to the original data. */
  lemma PipelineRoundTrip(e: CryptoModule.Engine, plain: seq<byte>, password: string,
                          salt: seq<byte>, iv: seq<byte>, image: ImageIO.ImageData)
    requires CryptoModule.Sound(e)
    requires |salt| == CryptoModule.SALT_SIZE && |iv| == CryptoModule.IV_SIZE
    requires |image.pixels| == image.GetPixelCount()
    requires CryptoModule.Encrypt(e, plain, password, Some(salt), Some(iv)).IsSuccess()
    requires |CryptoModule.Encrypt(e, plain, password, Some(salt), Some(iv)).value| <= MAX_REASONABLE_SIZE
    requires ValidateLSBCapacity(image.GetPixelCount(),
                                 |CryptoModule.Encrypt(e, plain, password, Some(salt), Some(iv)).value|).IsSuccess()
    ensures var c := CryptoModule.Encrypt(e, plain, password, Some(salt), Some(iv)).value;
      && !ExceedsBuffer(|c|, |image.pixels|)
      && |Overwrite(image.pixels, Encode(c))| >= HEADER_SIZE_BITS
      && Decode(Lsbs(Overwrite(image.pixels, Encode(c)))) == Ok(c)
      && CryptoModule.Decrypt(e, c, password) == Ok(plain)
  {
    var c := CryptoModule.Encrypt(e, plain, password, Some(salt), Some(iv)).value;
    CryptoModule.EncryptLength(e, plain, password, salt, iv);
    EmbedExtractRoundTrip(image.pixels, c);
    CryptoModule.DecryptEncrypt(e, plain, password, salt, iv);
  }
}
