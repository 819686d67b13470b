/** The generic embed and extract pipelines: load the image, read and
    encrypt the data, hand the ciphertext to the handler's codec, save; and
    in reverse, load, extract, decrypt, write.  Each step runs only when the
    previous one succeeded.  The codec is the ordered handler's.  The image
    loader's outcome, the data file, the random draws, the encoder and the
    output file are parameters. */
module StegoHandler {
  import opened Errors
  import opened Frame
  import opened Capacity
  import opened PipelineSteps
  import CryptoModule
  import ImageIO
  import LSBStegoHandlerOrdered

  /** Embeds the contents of `dataFile` into the loaded cover image and saves
      the result as `outputFile`.  `stego` is the image handed to the saver,
      `None` when the pipeline stopped before saving. */
  method Embed(coverFile: string, dataFile: string, outputFile: string, password: string,
               loaded: Result<ImageIO.ImageData>, contents: Option<seq<byte>>,
               e: CryptoModule.Engine, saltDraw: Option<seq<byte>>, ivDraw: Option<seq<byte>>,
               write: ImageIO.Encoder -> bool)
    returns (r: Result<()>, calls: seq<CryptoModule.Call>, stego: Option<ImageIO.ImageData>)
    requires saltDraw.Some? ==> |saltDraw.value| == CryptoModule.SALT_SIZE
    requires ivDraw.Some? ==> |ivDraw.value| == CryptoModule.IV_SIZE
    ensures loaded.IsError() ==> r == Err(loaded.code, loaded.message) && calls == [] && stego == None
    ensures loaded.IsSuccess() && contents.None? ==>
      r == Err(FileNotFound, OpenDataMessage(dataFile)) && calls == [] && stego == None
    ensures loaded.IsSuccess() && contents == Some([]) ==>
      r == Err(InvalidArgument, EmptyDataMessage(dataFile)) && calls == [] && stego == None
    ensures loaded.IsSuccess() && contents.Some? && contents.value != [] ==>
      var enc := CryptoModule.Encrypt(e, contents.value, password, saltDraw, ivDraw);
      var image := loaded.value;
      && (enc.IsError() ==> r == Err(enc.code, "Encryption failed: " + enc.message) && stego == None)
      && (enc.IsSuccess() ==>
            var check := ValidateCapacity(|image.pixels|, |enc.value|, HEADER_SIZE_BITS, MAX_REASONABLE_SIZE);
            && (check.IsError() ==> r == check && stego == None)
            && (check.IsSuccess() ==>
                  stego == Some(image.(pixels := Overwrite(image.pixels, Encode(enc.value))))
                  && r == ImageIO.SaveImage(outputFile, stego.value, write)))
  {
    calls := [];
    stego := None;
    if loaded.IsError() {
      return Err(loaded.GetErrorCode(), loaded.GetErrorMessage()), calls, stego;
    }
    var imageData := loaded.value;
    if contents.None? {
      return Err(FileNotFound, OpenDataMessage(dataFile)), calls, stego;
    }
    var plainData := contents.value;
    if |plainData| == 0 {
      return Err(InvalidArgument, EmptyDataMessage(dataFile)), calls, stego;
    }

    var encryptResult;
    encryptResult, calls := CryptoModule.EncryptData(e, plainData, password, saltDraw, ivDraw);
    if encryptResult.IsError() {
      return Err(encryptResult.GetErrorCode(), "Encryption failed: " + encryptResult.GetErrorMessage()),
             calls, stego;
    }
    var encryptedData := encryptResult.value;

    var pixels := CopyToBuffer(imageData.pixels);
    var embedResult := LSBStegoHandlerOrdered.EmbedMethod(pixels, encryptedData, password);
    if embedResult.IsError() {
      return embedResult, calls, stego;
    }
    imageData := imageData.(pixels := pixels[..]);

    stego := Some(imageData);
    var saveResult := ImageIO.SaveImage(outputFile, imageData, write);
    if saveResult.IsError() {
      return saveResult, calls, stego;
    }
    return Ok(()), calls, stego;
  }

  /** Extracts the data hidden in the loaded image and writes it to
      `outputFile`.  `output` is what is handed to the file, `None` when the
      pipeline stopped before writing. */
  method Extract(stegoFile: string, outputFile: string, password: string,
                 loaded: Result<ImageIO.ImageData>, e: CryptoModule.Engine, openOk: bool, writeOk: bool)
    returns (r: Result<()>, calls: seq<CryptoModule.Call>, output: Option<seq<byte>>)
    ensures loaded.IsError() ==> r == Err(loaded.code, loaded.message) && calls == [] && output == None
    ensures loaded.IsSuccess() ==>
      var x := LSBStegoHandlerOrdered.ExtractFrom(loaded.value.pixels);
      && (x.IsError() ==> r == Err(x.code, "Extraction failed: " + x.message) && calls == [] && output == None)
      && (x.IsSuccess() ==>
            var d := CryptoModule.Decrypt(e, x.value, password);
            && (d.IsError() ==> r == Err(d.code, "Decryption failed: " + d.message) && output == None)
            && (d.IsSuccess() ==>
                  output == (if openOk then Some(d.value) else None)
                  && r == WriteOutput(outputFile, openOk, writeOk)))
  {
    calls := [];
    output := None;
    if loaded.IsError() {
      return Err(loaded.GetErrorCode(), loaded.GetErrorMessage()), calls, output;
    }
    var imageData := loaded.value;

    var extractResult := LSBStegoHandlerOrdered.ExtractMethod(imageData.pixels, password);
    if extractResult.IsError() {
      return Err(extractResult.GetErrorCode(), "Extraction failed: " + extractResult.GetErrorMessage()),
             calls, output;
    }
    var encryptedData := extractResult.value;

    var decryptResult;
    decryptResult, calls := CryptoModule.DecryptData(e, encryptedData, password);
    if decryptResult.IsError() {
      return Err(decryptResult.GetErrorCode(), "Decryption failed: " + decryptResult.GetErrorMessage()),
             calls, output;
    }
    var plainData := decryptResult.value;

    if !openOk {
      return WriteOutput(outputFile, openOk, writeOk), calls, output;
    }
    output := Some(plainData);
    return WriteOutput(outputFile, openOk, writeOk), calls, output;
  }

  /** End to end: the stego image `Embed` saves, loaded back unchanged and
      given to `Extract` with the same password, yields the ciphertext and
      then the original data. */
  lemma EmbedExtractRoundTrip(e: CryptoModule.Engine, plain: seq<byte>, password: string,
                              salt: seq<byte>, iv: seq<byte>, pixels: seq<byte>)
    requires CryptoModule.Sound(e)
    requires |salt| == CryptoModule.SALT_SIZE && |iv| == CryptoModule.IV_SIZE
    requires CryptoModule.Encrypt(e, plain, password, Some(salt), Some(iv)).IsSuccess()
    requires ValidateCapacity(|pixels|, |CryptoModule.Encrypt(e, plain, password, Some(salt), Some(iv)).value|,
                              HEADER_SIZE_BITS, MAX_REASONABLE_SIZE).IsSuccess()
    ensures var c := CryptoModule.Encrypt(e, plain, password, Some(salt), Some(iv)).value;
      LSBStegoHandlerOrdered.ExtractFrom(Overwrite(pixels, Encode(c))) == Ok(c)
      && CryptoModule.Decrypt(e, c, password) == Ok(plain)
  {
    var c := CryptoModule.Encrypt(e, plain, password, Some(salt), Some(iv)).value;
    CryptoModule.EncryptLength(e, plain, password, salt, iv);
    LSBStegoHandlerOrdered.EmbedExtractRoundTrip(pixels, c);
    CryptoModule.DecryptEncrypt(e, plain, password, salt, iv);
  }
}
