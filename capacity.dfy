/** Capacity arithmetic (one hidden bit per pixel value, after the header) and
    the validation of a payload size against an image. */
module Capacity {
  import opened Errors
  import opened Format
  import opened Frame

  /** Whole bytes that fit in `pixelCount` values after a `headerBits`-bit header. */
  function CapacityFor(pixelCount: nat, headerBits: nat): (c: nat)
    ensures pixelCount <= headerBits ==> c == 0
    ensures pixelCount > headerBits ==> headerBits + 8 * c <= pixelCount < headerBits + 8 * (c + 1)
  {
    if pixelCount <= headerBits then 0 else (pixelCount - headerBits) / 8
  }

  /** The capacity of a buffer of `pixelCount` values under the 32-bit header. */
  function CalculateLSBCapacity(pixelCount: nat): (c: nat)
    ensures pixelCount <= HEADER_SIZE_BITS ==> c == 0
    ensures pixelCount > HEADER_SIZE_BITS ==>
      HEADER_SIZE_BITS + 8 * c <= pixelCount < HEADER_SIZE_BITS + 8 * (c + 1)
  {
    CapacityFor(pixelCount, HEADER_SIZE_BITS)
  }

  /** The capacity is exactly the largest payload whose frame fits. */
  lemma FitsIffWithinCapacity(pixelCount: nat, dataSize: nat)
    ensures dataSize <= CalculateLSBCapacity(pixelCount)
        <==> (dataSize == 0 || HEADER_SIZE_BITS + 8 * dataSize <= pixelCount)
  {
  }

  lemma CapacityExamples()
    ensures CalculateLSBCapacity(0) == 0 && CalculateLSBCapacity(10) == 0
    ensures CalculateLSBCapacity(31) == 0 && CalculateLSBCapacity(32) == 0
    ensures CalculateLSBCapacity(40) == 1 && CalculateLSBCapacity(100) == 8
    ensures CalculateLSBCapacity(300) == 33 && CalculateLSBCapacity(1000) == 121
    ensures CalculateLSBCapacity(1000000) == 124996
  {
  }

  /** The message of a capacity failure: the size, the capacity, the number of
      values and the number of values the frame would need. */
  function InsufficientMessage(pixelCount: nat, dataSize: nat, available: nat, headerBits: nat): string
  {
    "Data size (" + Decimal(dataSize) + " bytes) exceeds LSB capacity (" + Decimal(available) + " bytes).\n"
      + "    Image has " + Decimal(pixelCount) + " pixel values.\n"
      + "    You need an image with at least " + Decimal(dataSize * 8 + headerBits) + " pixel values."
  }

  /** Size validation with a sanity ceiling checked first, then the capacity
      left after a `headerBits`-bit header. */
  function ValidateCapacity(pixelCount: nat, dataSize: nat, headerBits: nat, ceiling: nat): (r: Result<()>)
    ensures r.IsSuccess() <==> (dataSize <= ceiling && dataSize <= CapacityFor(pixelCount, headerBits))
    ensures r.GetErrorCode() == DataTooLarge <==> dataSize > ceiling
    ensures r.GetErrorCode() == InsufficientCapacity
        <==> (dataSize <= ceiling && dataSize > CapacityFor(pixelCount, headerBits))
    ensures r.Err? ==> r.code != Success
  {
    if dataSize > ceiling then
      Err(DataTooLarge, "Data size (" + Decimal(dataSize) + " bytes) exceeds maximum reasonable size ("
        + Decimal(ceiling) + " bytes)")
    else
      var available := CapacityFor(pixelCount, headerBits);
      if dataSize > available then
        Err(InsufficientCapacity, InsufficientMessage(pixelCount, dataSize, available, headerBits))
      else
        Ok(())
  }

  /** A size that passes validation has a frame that fits and passes the
      decoder's ceiling, unless it is zero. */
  lemma ValidatedFits(pixelCount: nat, dataSize: nat)
    requires ValidateCapacity(pixelCount, dataSize, HEADER_SIZE_BITS, MAX_REASONABLE_SIZE).IsSuccess()
    ensures dataSize <= MAX_REASONABLE_SIZE
    ensures HEADER_SIZE_BITS + 8 * dataSize <= pixelCount || dataSize == 0
  {
  }

  /** The embedders' room check as written: `dataSize * 8 + 32` with the size
      truncated to 32 bits and the product and sum computed in 32 bits. */
  predicate ExceedsBufferAsWritten(dataSize: nat, pixelCount: nat)
  {
    Word(Word(dataSize) * 8 + HEADER_SIZE_BITS) > pixelCount
  }

  /** The room check as intended: the frame of `dataSize` bytes needs more
      values than the buffer has. */
  predicate ExceedsBuffer(dataSize: nat, pixelCount: nat)
  {
    HEADER_SIZE_BITS + 8 * dataSize > pixelCount
  }

  /** A payload of 536870908 bytes makes the 32-bit bit count wrap to 0, so
      the check as written lets it into a buffer of 1000 values. */
  lemma ExceedsBufferWraps()
    ensures !ExceedsBufferAsWritten(536870908, 1000)
    ensures ExceedsBuffer(536870908, 1000)
  {
  }

  /** A payload of 2^32 + 1 bytes is announced as 1 byte: the check as
      written lets it into 1000 values, with a frame of one byte. */
  lemma ExceedsBufferTruncates()
    ensures Word(0x1_0000_0001) == 1
    ensures !ExceedsBufferAsWritten(0x1_0000_0001, 1000)
    ensures ExceedsBuffer(0x1_0000_0001, 1000)
  {
  }

  /** Below 2^29 - 4 bytes nothing wraps and the two checks agree; every size
      that passed the ceiling is below that bound. */
  lemma ExceedsBufferAgrees(dataSize: nat, pixelCount: nat)
    requires dataSize < 0x2000_0000 - 4
    ensures ExceedsBufferAsWritten(dataSize, pixelCount) == ExceedsBuffer(dataSize, pixelCount)
  {
    HeaderConstants();
  }
}
