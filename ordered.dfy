/** The ordered handler: the sequential codec behind the complete set of
    guards (empty payload, capacity with ceiling, short image).  The image is
    its pixel buffer; the password is accepted and ignored. */
module LSBStegoHandlerOrdered {
  import opened Errors
  import opened Format
  import opened Frame
  import opened Capacity
  import LSBStegoHandler

  /** What extraction yields for a buffer: a short buffer is rejected before
      anything is read, otherwise the frame in the low bits is decoded. */
  function ExtractFrom(pixels: seq<byte>): Result<seq<byte>>
  {
    if |pixels| < HEADER_SIZE_BITS then Err(ImageTooSmall, TooSmallMessage(|pixels|))
    else Decode(Lsbs(pixels))
  }

  /** Embeds `data` into the pixel buffer.  The empty payload and a failed
      capacity validation are reported before any value is written; on
      success only the low bits of the frame's values change. */
  method EmbedMethod(pixels: array<byte>, data: seq<byte>, password: string) returns (r: Result<()>)
    modifies pixels
    ensures |data| == 0 ==>
      r == Err(InvalidArgument, "Cannot embed empty data") && pixels[..] == old(pixels[..])
    ensures |data| > 0 ==>
      var check := ValidateCapacity(pixels.Length, |data|, HEADER_SIZE_BITS, MAX_REASONABLE_SIZE);
      && (check.IsError() ==> r == check && pixels[..] == old(pixels[..]))
      && (check.IsSuccess() ==> r == Ok(()) && pixels[..] == Overwrite(old(pixels[..]), Encode(data)))
  {
    if |data| == 0 {
      return Err(InvalidArgument, "Cannot embed empty data");
    }
    var capacityCheck := ValidateCapacity(pixels.Length, |data|, HEADER_SIZE_BITS, MAX_REASONABLE_SIZE);
    if capacityCheck.IsError() {
      return capacityCheck;
    }
    LSBStegoHandler.WriteFrame(pixels, data);
    return Ok(());
  }

  /** Extracts the payload of the pixel buffer. */
  method ExtractMethod(pixels: seq<byte>, password: string) returns (r: Result<seq<byte>>)
    ensures r == ExtractFrom(pixels)
    ensures |pixels| < HEADER_SIZE_BITS <==> r.GetErrorCode() == ImageTooSmall
  {
    if |pixels| < HEADER_SIZE_BITS {
      return Err(ImageTooSmall, TooSmallMessage(|pixels|));
    }
    DecodeOrder(Lsbs(pixels));
    r := LSBStegoHandler.ExtractLSB(pixels);
  }

  /** Extraction fails in the fixed order: short image, zero size, size above
      the ceiling, frame larger than the image. */
  lemma ExtractOrder(pixels: seq<byte>)
    ensures var r := ExtractFrom(pixels);
      && (r.GetErrorCode() == ImageTooSmall <==> |pixels| < HEADER_SIZE_BITS)
      && (|pixels| >= HEADER_SIZE_BITS ==>
           var n := Header(Lsbs(pixels));
           && (r.GetErrorCode() == NoEmbeddedData <==> n == 0)
           && (r.GetErrorCode() == CorruptedPayload <==> n > MAX_REASONABLE_SIZE)
           && (r.IsSuccess() <==> (0 < n <= MAX_REASONABLE_SIZE && HEADER_SIZE_BITS + 8 * n <= |pixels|)))
  {
    if |pixels| >= HEADER_SIZE_BITS {
      DecodeOrder(Lsbs(pixels));
    }
  }

  /** Whatever the embedder accepts, the extractor returns: a payload that
      passed the guards is read back exactly. */
  lemma EmbedExtractRoundTrip(pixels: seq<byte>, data: seq<byte>)
    requires |data| > 0
    requires ValidateCapacity(|pixels|, |data|, HEADER_SIZE_BITS, MAX_REASONABLE_SIZE).IsSuccess()
    ensures HEADER_SIZE_BITS + 8 * |data| <= |pixels|
    ensures ExtractFrom(Overwrite(pixels, Encode(data))) == Ok(data)
  {
    ValidatedFits(|pixels|, |data|);
    RoundTrip(pixels, data);
  }
}
