/** Images in memory and the checks around reading and writing them.  The
    image decoder and the three encoders are parameters: what the decoder
    delivered (or its failure and reason) and whether the chosen encoder
    succeeded. */
module ImageIO {
  import opened Errors
  import opened Format
  import opened Frame

  /** A C++ `int`. */
  type int32 = x: int | -0x8000_0000 <= x < 0x8000_0000

  /** `size_t` arithmetic is modulo 2^64. */
  const SIZE_MODULUS: nat := 0x1_0000_0000_0000_0000

  const JPEG_QUALITY: int := 90

  /** An image in memory: interleaved pixel values and its dimensions. */
  datatype ImageData = ImageData(pixels: seq<byte>, width: int32, height: int32, channels: int32)
  {
    /** `width * height * channels`, computed in `size_t`. */
    function GetPixelCount(): (n: nat)
      ensures n < SIZE_MODULUS
      ensures 0 <= width * height * channels < SIZE_MODULUS ==> n == width * height * channels
    {
      (width * height * channels) % SIZE_MODULUS
    }

    /** Positive dimensions and some pixel data; the size is not compared
        with the dimensions. */
    predicate IsValid()
    {
      width > 0 && height > 0 && channels > 0 && |pixels| > 0
    }
  }

  /** The pixel counts of 100x100 grey, 100x100 RGB and 512x512 RGB images. */
  lemma PixelCountExamples(pixels: seq<byte>)
    ensures ImageData(pixels, 100, 100, 1).GetPixelCount() == 10000
    ensures ImageData(pixels, 100, 100, 3).GetPixelCount() == 30000
    ensures ImageData(pixels, 512, 512, 3).GetPixelCount() == 786432
  {
  }

  /** The count is the `size_t` product for every `int` dimension: a
      negative dimension converts to a value near 2^64, and a product of
      2^64 wraps to 0 although every dimension is positive. */
  lemma PixelCountWraps(pixels: seq<byte>)
    ensures ImageData(pixels, -1, 1, 1).GetPixelCount() == SIZE_MODULUS - 1
    ensures ImageData(pixels, -2, 3, 1).GetPixelCount() == SIZE_MODULUS - 6
    ensures ImageData(pixels, 0x4000_0000, 0x4000_0000, 16).GetPixelCount() == 0
  {
  }

  /** An image without pixel data is never valid, whatever its dimensions. */
  lemma EmptyNotValid(img: ImageData)
    requires |img.pixels| == 0
    ensures !img.IsValid()
  {
  }

  /** Validity does not tie the size of the data to the dimensions: a single
      value with 100x100x1 dimensions is a valid image. */
  lemma ValidityIgnoresSize()
    ensures ImageData([0], 100, 100, 1).IsValid()
    ensures |ImageData([0], 100, 100, 1).pixels| != ImageData([0], 100, 100, 1).GetPixelCount()
  {
  }

  /** `std::tolower` in the C locale: only ASCII capitals change. */
  function ToLower(c: char): (d: char)
    ensures !IsUpper(d)
    ensures d == '.' <==> c == '.'
  {
    if IsUpper(c) then (c as int + 32) as char else c
  }

  predicate IsUpper(c: char)
  {
    'A' <= c <= 'Z'
  }

  function Lowercase(s: string): (t: string)
    ensures |t| == |s| && forall i :: 0 <= i < |s| ==> t[i] == ToLower(s[i])
  {
    seq(|s|, i requires 0 <= i < |s| => ToLower(s[i]))
  }

  /** `find_last_of('.')`: the position of the last dot, if any. */
  function FindLastDot(s: string): (r: Option<nat>)
    ensures r.Some? ==> r.value < |s| && s[r.value] == '.'
                        && forall j :: r.value < j < |s| ==> s[j] != '.'
    ensures r.None? ==> forall j :: 0 <= j < |s| ==> s[j] != '.'
  {
    if |s| == 0 then None
    else if s[|s| - 1] == '.' then Some(|s| - 1)
    else FindLastDot(s[..|s| - 1])
  }

  /** The extension of a file name: what follows the last dot, lowercased;
      empty when there is no dot or the dot ends the name. */
  function Extension(filename: string): string
  {
    match FindLastDot(filename)
    case None => ""
    case Some(p) => if p == |filename| - 1 then "" else Lowercase(filename[p + 1..])
  }

  /** Takes the text after the last dot and lowercases it in place. */
  method GetExtension(filename: string) returns (ext: string)
    ensures ext == Extension(filename)
  {
    var dotPos := FindLastDot(filename);
    if dotPos.None? || dotPos.value == |filename| - 1 {
      return "";
    }
    var start := dotPos.value + 1;
    ext := filename[start..];
    var i := 0;
    while i < |ext|
      invariant 0 <= i <= |ext| == |filename| - start
      invariant forall j :: 0 <= j < i ==> ext[j] == ToLower(filename[start + j])
      invariant forall j :: i <= j < |ext| ==> ext[j] == filename[start + j]
    {
      ext := ext[i := ToLower(ext[i])];
      i := i + 1;
    }
    assert ext == Lowercase(filename[start..]);
  }

  /** The extension holds no dot and no capital; it is empty exactly when the
      name has no dot or ends with one; otherwise it is the lowercased tail
      of the name after a dot. */
  lemma ExtensionShape(filename: string)
    ensures forall i :: 0 <= i < |Extension(filename)| ==>
      Extension(filename)[i] != '.' && !IsUpper(Extension(filename)[i])
    ensures Extension(filename) == "" <==>
      ((forall j :: 0 <= j < |filename| ==> filename[j] != '.') || filename[|filename| - 1] == '.')
    ensures var ext := Extension(filename);
      ext != "" ==> |ext| < |filename| && filename[|filename| - |ext| - 1] == '.'
                    && Lowercase(filename[|filename| - |ext|..]) == ext
  {
    match FindLastDot(filename)
    case None =>
    case Some(p) =>
      if p < |filename| - 1 {
        TailCharacters(filename, p);
      }
  }

  /** The lowercased tail after the last dot holds neither a dot nor a
      capital. */
  lemma TailCharacters(filename: string, p: nat)
    requires p < |filename| - 1 && filename[p] == '.'
    requires forall j :: p < j < |filename| ==> filename[j] != '.'
    ensures var ext := Lowercase(filename[p + 1..]);
      forall i :: 0 <= i < |ext| ==> ext[i] != '.' && !IsUpper(ext[i])
  {
    var tail := filename[p + 1..];
    assert forall i :: 0 <= i < |tail| ==> tail[i] != '.';
  }

  /** Lowercasing a name moves none of its dots. */
  lemma {:induction false} FindLastDotLowercase(s: string)
    ensures FindLastDot(Lowercase(s)) == FindLastDot(s)
    decreases |s|
  {
    if |s| > 0 {
      assert Lowercase(s)[..|s| - 1] == Lowercase(s[..|s| - 1]);
      FindLastDotLowercase(s[..|s| - 1]);
    }
  }

  /** The last dot is where the contract of `FindLastDot` places it. */
  lemma LastDotAt(s: string, p: nat)
    requires p < |s| && s[p] == '.'
    requires forall j :: p < j < |s| ==> s[j] != '.'
    ensures FindLastDot(s) == Some(p)
  {
  }

  predicate IsSupportedFormat(filename: string)
  {
    Extension(filename) in {"png", "bmp", "jpg", "jpeg"}
  }

  /** Two names that differ only in the case of their letters have the same
      extension, so format support does not depend on case. */
  lemma ExtensionCaseInsensitive(f: string, g: string)
    requires Lowercase(f) == Lowercase(g)
    ensures Extension(f) == Extension(g)
    ensures IsSupportedFormat(f) == IsSupportedFormat(g)
  {
    ExtensionOfLowercase(f);
    ExtensionOfLowercase(g);
  }

  lemma ExtensionOfLowercase(f: string)
    ensures Extension(Lowercase(f)) == Extension(f)
  {
    var lf := Lowercase(f);
    FindLastDotLowercase(f);
    match FindLastDot(f)
    case None =>
    case Some(p) =>
      if p < |f| - 1 {
        assert Extension(lf) == Lowercase(lf[p + 1..]);
        LowercaseSuffix(f, p + 1);
        LowercaseIdempotent(f[p + 1..]);
      }
  }

  lemma LowercaseSuffix(s: string, k: nat)
    requires k <= |s|
    ensures Lowercase(s)[k..] == Lowercase(s[k..])
  {
  }

  lemma LowercaseIdempotent(s: string)
    ensures Lowercase(Lowercase(s)) == Lowercase(s)
  {
  }

  /** Names the format check accepts, whatever the case of the extension. */
  lemma SupportedFormatExamples()
    ensures IsSupportedFormat("TEST.PNG") && IsSupportedFormat("photo.JpEg")
    ensures IsSupportedFormat("a.b.bmp") && IsSupportedFormat("x.jpg")
  {
    LastDotAt("TEST.PNG", 4);
    assert "TEST.PNG"[5..] == "PNG" && Lowercase("PNG") == "png";
    LastDotAt("photo.JpEg", 5);
    assert "photo.JpEg"[6..] == "JpEg" && Lowercase("JpEg") == "jpeg";
    LastDotAt("a.b.bmp", 3);
    assert "a.b.bmp"[4..] == "bmp" && Lowercase("bmp") == "bmp";
    LastDotAt("x.jpg", 1);
    assert "x.jpg"[2..] == "jpg" && Lowercase("jpg") == "jpg";
  }

  /** Names it rejects: another extension, a supported one followed by more,
      no dot, a trailing dot. */
  lemma UnsupportedFormatExamples()
    ensures !IsSupportedFormat("notes.txt") && !IsSupportedFormat("image.png.bak")
    ensures !IsSupportedFormat("png") && !IsSupportedFormat("image.")
  {
    LastDotAt("notes.txt", 5);
    assert "notes.txt"[6..] == "txt" && Lowercase("txt") == "txt";
    LastDotAt("image.png.bak", 9);
    assert "image.png.bak"[10..] == "bak" && Lowercase("bak") == "bak";
    LastDotAt("image.", 5);
  }

  /** The encoder the extension selects: PNG with its row stride, BMP, or
      JPEG at quality 90. */
  datatype Encoder = PngEncoder(strideBytes: int) | BmpEncoder | JpgEncoder(quality: int)

  function DimensionsText(width: int32, height: int32, channels: int32): string
  {
    SignedDecimal(width) + "x" + SignedDecimal(height) + "x" + SignedDecimal(channels)
  }

  function MismatchMessage(expected: nat, actual: nat): string
  {
    "Cannot save image: pixel data size mismatch. Expected " + Decimal(expected)
      + " bytes, got " + Decimal(actual) + " bytes"
  }

  /** The checks `Save` makes before writing, in order; on success the
      encoder to use. */
  function SaveGuards(filename: string, pixels: seq<byte>, width: int32, height: int32, channels: int32)
    : Result<Encoder>
  {
    if |pixels| == 0 then
      Err(InvalidArgument, "Cannot save image: pixel data is empty")
    else if width <= 0 || height <= 0 || channels <= 0 then
      Err(InvalidImageDimensions, "Cannot save image: invalid dimensions "
        + DimensionsText(width, height, channels))
    else if |pixels| != ImageData(pixels, width, height, channels).GetPixelCount() then
      Err(ImageCorrupted, MismatchMessage(ImageData(pixels, width, height, channels).GetPixelCount(), |pixels|))
    else if Extension(filename) == "" then
      Err(UnsupportedImageFormat, "Cannot save image: no file extension specified in '" + filename + "'")
    else if !IsSupportedFormat(filename) then
      Err(UnsupportedImageFormat, "Unsupported image format '" + Extension(filename)
        + "'. Supported formats: PNG, BMP, JPG/JPEG")
    else if Extension(filename) == "png" then Ok(PngEncoder(width * channels))
    else if Extension(filename) == "bmp" then Ok(BmpEncoder)
    else Ok(JpgEncoder(JPEG_QUALITY))
  }

  /** Saves an image: the guards, then the selected encoder, whose success
      `write` reports. */
  function Save(filename: string, pixels: seq<byte>, width: int32, height: int32, channels: int32,
                write: Encoder -> bool): Result<()>
  {
    match SaveGuards(filename, pixels, width, height, channels)
    case Err(code, message) => Err(code, message)
    case Ok(encoder) =>
      if write(encoder) then Ok(())
      else Err(ImageSaveFailed, "Failed to save image to '" + filename
        + "'. Check write permissions and disk space.")
  }

  /** The overload taking an `ImageData`. */
  function SaveImage(filename: string, image: ImageData, write: Encoder -> bool): Result<()>
  {
    Save(filename, image.pixels, image.width, image.height, image.channels, write)
  }

  /** The guards fire in order: empty data, then non-positive dimensions,
      then a size mismatch, then a missing or unsupported extension; the
      encoder's failure is the only other error. */
  lemma SaveGuardOrder(filename: string, pixels: seq<byte>, width: int32, height: int32,
                       channels: int32, write: Encoder -> bool)
    ensures var r := Save(filename, pixels, width, height, channels, write);
      (r.GetErrorCode() == InvalidArgument <==> |pixels| == 0)
      && (r.GetErrorCode() == InvalidImageDimensions <==>
           (|pixels| > 0 && (width <= 0 || height <= 0 || channels <= 0)))
      && (r.GetErrorCode() == ImageCorrupted <==>
           (ImageData(pixels, width, height, channels).IsValid()
            && |pixels| != ImageData(pixels, width, height, channels).GetPixelCount()))
      && (r.GetErrorCode() == UnsupportedImageFormat <==>
           (ImageData(pixels, width, height, channels).IsValid()
            && |pixels| == ImageData(pixels, width, height, channels).GetPixelCount()
            && !IsSupportedFormat(filename)))
      && (r.IsError() ==>
            r.GetErrorCode() in
              {InvalidArgument, InvalidImageDimensions, ImageCorrupted, UnsupportedImageFormat, ImageSaveFailed})
  {
  }

  /** The encoder is consulted only once every guard has passed: while a
      guard fails, the outcome does not depend on it. */
  lemma WriterOnlyAfterGuards(filename: string, pixels: seq<byte>, width: int32, height: int32,
                              channels: int32, w1: Encoder -> bool, w2: Encoder -> bool)
    requires SaveGuards(filename, pixels, width, height, channels).IsError()
    ensures Save(filename, pixels, width, height, channels, w1)
         == Save(filename, pixels, width, height, channels, w2)
  {
  }

  /** A successful save wrote a valid image whose data fills its dimensions,
      under a supported name, with the encoder its extension names. */
  lemma SaveSucceeds(filename: string, pixels: seq<byte>, width: int32, height: int32,
                     channels: int32, write: Encoder -> bool)
    requires Save(filename, pixels, width, height, channels, write).IsSuccess()
    ensures ImageData(pixels, width, height, channels).IsValid()
    ensures |pixels| == ImageData(pixels, width, height, channels).GetPixelCount()
    ensures IsSupportedFormat(filename)
    ensures var enc := SaveGuards(filename, pixels, width, height, channels).value;
      write(enc)
      && (enc.PngEncoder? <==> Extension(filename) == "png")
      && (enc.BmpEncoder? <==> Extension(filename) == "bmp")
      && (enc.JpgEncoder? <==> Extension(filename) in {"jpg", "jpeg"})
  {
  }

  /** What the decoder delivers: a buffer and the dimensions it reports. */
  datatype Decoded = Decoded(buffer: seq<byte>, width: int32, height: int32, channels: int32)

  /** Loads an image from what the decoder delivered (`None` when it failed,
      with its reason if it gave one).  The decoder's buffer holds at least
      `width * height * channels` values whenever the dimensions are positive. */
  function Load(filename: string, decoded: Option<Decoded>, reason: Option<string>): Result<ImageData>
    requires decoded.Some? && decoded.value.width > 0 && decoded.value.height > 0
             && decoded.value.channels > 0 ==>
             |decoded.value.buffer| >= ImageData([], decoded.value.width, decoded.value.height,
                                                 decoded.value.channels).GetPixelCount()
  {
    if decoded.None? then
      Err(ImageLoadFailed, "Failed to load image '" + filename + "'. "
        + (if reason.Some? then "Reason: " + reason.value else "File may not exist or format is unsupported."))
    else
      var d := decoded.value;
      if d.width <= 0 || d.height <= 0 || d.channels <= 0 then
        Err(InvalidImageDimensions, "Image loaded but has invalid dimensions: "
          + DimensionsText(d.width, d.height, d.channels))
      else
        var count := ImageData([], d.width, d.height, d.channels).GetPixelCount();
        Ok(ImageData(d.buffer[..count], d.width, d.height, d.channels))
  }

  /** A load fails with `ImageLoadFailed` exactly when decoding failed, with
      `InvalidImageDimensions` exactly when a dimension is not positive, and
      otherwise holds the first `width * height * channels` decoded values. */
  lemma LoadOutcome(filename: string, decoded: Option<Decoded>, reason: Option<string>)
    requires decoded.Some? && decoded.value.width > 0 && decoded.value.height > 0
             && decoded.value.channels > 0 ==>
             |decoded.value.buffer| >= ImageData([], decoded.value.width, decoded.value.height,
                                                 decoded.value.channels).GetPixelCount()
    ensures var r := Load(filename, decoded, reason);
      (r.GetErrorCode() == ImageLoadFailed <==> decoded.None?)
      && (r.GetErrorCode() == InvalidImageDimensions <==>
           (decoded.Some? && (decoded.value.width <= 0 || decoded.value.height <= 0
                              || decoded.value.channels <= 0)))
      && (r.IsSuccess() ==>
           decoded.Some? && r.value.width == decoded.value.width
           && r.value.height == decoded.value.height && r.value.channels == decoded.value.channels
           && |r.value.pixels| == r.value.GetPixelCount()
           && r.value.pixels == decoded.value.buffer[..r.value.GetPixelCount()])
  {
  }

  /** A loaded image is valid exactly when its pixel count is not zero,
      which a positive product of 2^64 defeats. */
  lemma LoadedValidity(filename: string, decoded: Option<Decoded>, reason: Option<string>)
    requires decoded.Some? && decoded.value.width > 0 && decoded.value.height > 0
             && decoded.value.channels > 0 ==>
             |decoded.value.buffer| >= ImageData([], decoded.value.width, decoded.value.height,
                                                 decoded.value.channels).GetPixelCount()
    requires Load(filename, decoded, reason).IsSuccess()
    ensures var img := Load(filename, decoded, reason).value;
      img.IsValid() <==> img.GetPixelCount() > 0
  {
  }

  /** Positive dimensions whose product is 2^64 load to an empty image that
      is not valid. */
  lemma LoadedEmptyImage(filename: string)
    ensures var r := Load(filename, Some(Decoded([], 0x4000_0000, 0x4000_0000, 16)), None);
      r.IsSuccess() && !r.value.IsValid()
  {
  }

  /** A loaded image with some data passes every guard of a save under a
      supported name. */
  lemma LoadedImageSaves(filename: string, decoded: Option<Decoded>, reason: Option<string>, target: string)
    requires decoded.Some? && decoded.value.width > 0 && decoded.value.height > 0
             && decoded.value.channels > 0 ==>
             |decoded.value.buffer| >= ImageData([], decoded.value.width, decoded.value.height,
                                                 decoded.value.channels).GetPixelCount()
    requires Load(filename, decoded, reason).IsSuccess()
    requires |Load(filename, decoded, reason).value.pixels| > 0
    requires IsSupportedFormat(target)
    ensures var img := Load(filename, decoded, reason).value;
      img.IsValid() && SaveGuards(target, img.pixels, img.width, img.height, img.channels).IsSuccess()
  {
  }
}
