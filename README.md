# stego-toolkit core, modelled in Dafny

The toolkit hides a file inside an image. To embed, it reads the data file,
encrypts it with a password, and writes the ciphertext one bit per value into
the least-significant bits of the cover image's pixel values; it then saves
the image. To extract, it reverses each step. The ciphertext is written as a
frame: a 32-bit little-endian length header, then the payload byte by byte,
each byte low bit first.

The model has one module per part of the core:

- `Errors` (errors.dfy): the error codes with their numeric values, the tagged
  `Result`, the category, description and formatting functions.
- `Format` (format.dfy): decimal rendering of numbers inside messages.
- `Frame` (frame.dfy): the protocol constants, the bit model of bytes and
  32-bit words, the frame's bit stream (`Encode`), its decoding with the three
  ordered sanity checks (`Decode`), and writing a stream into the low bits of a
  buffer (`Overwrite`).
- `Capacity` (capacity.dfy): capacity arithmetic and size validation with a
  sanity ceiling.
- `LSBStegoHandler` (lsb.dfy): the original sequential handler. Its codec
  (`EmbedLSB`, `ExtractLSB`) works in place on an `array`, and its
  `Embed`/`Extract` pipelines are here too.
- `LSBStegoHandlerOrdered` (ordered.dfy): the sequential codec with every
  guard.
- `LSBShuffleStegoHandler` (shuffle.dfy): the permuted codec. Stream bit `k`
  goes to value `locs[k]`, where `locs` is a Fisher–Yates shuffle of the
  positions driven by a generator seeded from the password. Its pipelines are
  here too.
- `CryptoModule` (crypto.dfy): authenticated encryption with the frame
  `salt ‖ iv ‖ ct ‖ hmac`.
- `LegacyCryptoModule` (legacy_crypto.dfy): the older `salt ‖ iv ‖ ct`
  encryption with output parameters.
- `ImageIO` (imageio.dfy): `ImageData`, extensions and formats, the guard
  chain of `Save`, and the checks of `Load` after decoding.
- `PipelineSteps` (steps.dfy) and `StegoHandler` (pipeline.dfy): the generic
  embed and extract pipelines, which run the ordered handler's codec.

Collaborators the model cannot see are parameters:

- The OpenSSL primitives are an `Engine` of function values. Key derivation,
  the MAC, encryption and decryption each either deliver or fail. They obey
  stated laws only where a lemma assumes `Sound` (PKCS#7 length and the
  decrypt/encrypt round trip) or `Binding` (an idealised injectivity).
- The two `RAND_bytes` draws are optional values.
- The password hash and the shuffle generator are a `Shuffler`.
- The image decoder's output and the encoder's success are inputs.
- So are the data file's contents and whether the output file opened and was
  written.

The crypto methods also return the sequence of primitive calls they made.
This is how "the tag is checked before any decryption" is stated.

Notes on the code:

- The enumeration as written lacks `AuthenticationFailed`, although the
  description switch and the authenticated decryption use it. The model adds
  it with the value 404, the next free value of the encryption group.
- `MIN_SIZE`, `HMAC_SIZE` and `ENCRYPTION_OVERHEAD` are not defined in the
  files modelled. The code comment at the size check describes the minimum as
  salt + IV + HMAC + one block, so `MIN_SIZE` is 16 + 16 + 32 + 16 = 80. The
  overhead is 64 and the tag 32 bytes, as the crypto tests fix them.
- The 4-argument validation that the ordered handler calls is not part of
  this model's sources. `Capacity.ValidateCapacity` follows the shuffle
  handler's validation, with the header bits and the ceiling as parameters.

## Model

| member | source | states |
|---|---|---|
| Errors.ValueInjective | src/utils/ErrorHandler.h:8-47 | Two codes have the same numeric value exactly when they are the same code. |
| Errors.Failure | src/utils/ErrorHandler.h:67-71 | The error constructor gives a failed result whose `bool` view is false. It keeps the code and the message verbatim, whatever their length. |
| Errors.Succeed | src/utils/ErrorHandler.h:61-64 | The value constructor gives a success with code `Success` and `GetValue` returning the value. |
| Errors.Done | src/utils/ErrorHandler.h:92-94 | The value-less success has code `Success`. |
| Errors.SuccessIffCodeSuccess | src/utils/ErrorHandler.h:73-79 | `IsSuccess` holds exactly when the code is `Success`. `IsError` is its negation, and the `bool` view equals `IsSuccess`. |
| Errors.Propagate | src/algorithms/StegoHandler.cpp:46-51 | Re-labelling a failure keeps its code and puts the prefix before its message. |
| Errors.CategoryMatchesGroup | src/utils/ErrorHandler.cpp:3-15 | Every code's category is the name of the group the enumeration declares it in. No code is "Unknown Error". |
| Errors.UnknownCategoryGaps | src/utils/ErrorHandler.cpp:3-15 | "Unknown Error" is exactly the values below 0, 1..99 and 600..899. No code has such a value. |
| Errors.GetErrorCategory | src/utils/ErrorHandler.cpp:3-15 | The category is the name of the code's numeric range, or "Unknown Error" outside every range. `CategoryMatchesGroup` and `UnknownCategoryGaps` state its contract. |
| Errors.UndefinedDescriptions | src/utils/ErrorHandler.cpp:17-83 | Exactly `InvalidPassword` and `KeyDerivationFailed` fall to "Undefined error". |
| Errors.GetErrorDescription | src/utils/ErrorHandler.cpp:17-83 | One fixed description per code, and "Undefined error" for the codes without a case. `UndefinedDescriptions` states which codes those are. |
| Errors.FormatError | src/utils/ErrorHandler.cpp:85-93 | The text starts with category ": " description. The details line follows exactly when the context is non-empty. |
| Format.Decimal | src/algorithms/lsb/LSBStegoHandler.cpp:26-29 | The decimal rendering of a count is non-empty, all digits and without a leading zero. |
| Format.ParseDecimal | src/algorithms/lsb/LSBStegoHandler.cpp:26-29 | Reading a decimal rendering back gives the number. |
| Format.DecimalInjective | src/algorithms/lsb/LSBStegoHandler.cpp:26-29 | Distinct numbers render differently. |
| Frame.HeaderConstants | src/algorithms/lsbshuffle/LSBShuffleStegoHandler.h:42-44 | The header is 32 bits = 8 × 4 bytes. The ceiling is 104857600. A frame at the ceiling fits a 32-bit count. |
| Frame.Word | src/algorithms/lsb/LSBStegoHandler.cpp:170 | The 32-bit truncation is below 2^32 and leaves smaller values alone. |
| Frame.SetLsb | src/algorithms/lsb/LSBStegoHandler.cpp:181 | `(x & 0xFE) \| bit` has low bit `bit`, keeps the seven high bits and changes the value by at most one. |
| Frame.OrBit | src/algorithms/lsb/LSBStegoHandler.cpp:201 | OR-ing a set bit sets that bit. OR-ing a clear bit changes nothing. |
| Frame.ValueOfBits | src/algorithms/lsb/LSBStegoHandler.cpp:199-202 | Reading the low `k` bits of `x` back gives `x mod 2^k`. |
| Frame.BitOfValue | src/algorithms/lsb/LSBStegoHandler.cpp:199-202 | Bit `i` of the number assembled from a bit list is entry `i` of the list. |
| Frame.Encode | src/algorithms/lsb/LSBStegoHandler.cpp:178-191 | The written stream has 32 + 8·(truncated size) bits. |
| Frame.EncodeAt | src/algorithms/lsb/LSBStegoHandler.cpp:179-191 | Stream bit `i < 32` is bit `i` of the size. Stream bit `32 + 8k + b` is bit `b` of data byte `k`. |
| Frame.BytesOfPayload | src/algorithms/lsb/LSBStegoHandler.cpp:235-242 | Assembling the payload bits eight at a time gives the payload back. |
| Frame.Header | src/algorithms/lsb/LSBStegoHandler.cpp:199-202 | The declared size is below 2^32. |
| Frame.HeaderAt | src/algorithms/lsb/LSBStegoHandler.cpp:199-202 | Bit `i` of the declared size is stream bit `i`. |
| Frame.DecodeOrder | src/algorithms/lsb/LSBStegoHandler.cpp:205-232 | Decoding fails in the fixed order: size 0 gives `NoEmbeddedData`, above the ceiling `CorruptedPayload`, too large for the buffer `InvalidDataSize`; each holds exactly in its case. On success the result has the declared length. |
| Frame.Decode | src/algorithms/lsb/LSBStegoHandler.cpp:200-245 | Reads the header, applies the three size checks in order, then assembles the payload bytes. `DecodeOrder`, `DecodeReadsPrefix` and `DecodeEncode` state its contract. |
| Frame.DecodeReadsPrefix | src/algorithms/lsb/LSBStegoHandler.cpp:196-245 | Decoding reads only the header and the first `8·size` payload bits. |
| Frame.DecodeEncode | src/algorithms/lsb/LSBStegoHandler.cpp:196-245 | A stream that starts with the encoding of `d` (1 ≤ \|d\| ≤ ceiling) decodes to `d`. |
| Frame.Lsbs | src/algorithms/lsb/LSBStegoHandler.cpp:239 | The low-bit stream of a buffer has its length; entry `i` is value `i`'s low bit. |
| Frame.Overwrite | src/algorithms/lsb/LSBStegoHandler.cpp:178-191 | Writing bits into the low bits keeps the length and every high bit. The first \|bits\| values carry the bits; the rest are untouched. |
| Frame.LsbsOverwrite | src/algorithms/lsb/LSBStegoHandler.cpp:178-191 | The low-bit stream after writing starts with the bits written and keeps the rest. |
| Frame.RoundTrip | src/algorithms/lsb/LSBStegoHandler.cpp:167-245 | Writing a frame whose size fits and is within the ceiling, then reading it back, gives the payload. |
| Capacity.CapacityFor | src/algorithms/lsbshuffle/LSBShuffleStegoHandler.cpp:13-19 | The capacity is 0 up to the header size. Otherwise it is the largest `c` with `header + 8c ≤ n`. |
| Capacity.CalculateLSBCapacity | src/algorithms/lsb/LSBStegoHandler.cpp:10-16 | The same for the 32-bit header. |
| Capacity.FitsIffWithinCapacity | src/algorithms/lsb/LSBStegoHandler.cpp:10-16 | A size is within capacity exactly when it is 0 or its frame fits. |
| Capacity.CapacityExamples | src/algorithms/lsb/LSBStegoHandler.cpp:10-16 | 0, 10, 31, 32 → 0; 40 → 1; 100 → 8; 300 → 33; 1000 → 121; 1000000 → 124996. |
| Capacity.ValidateCapacity | src/algorithms/lsbshuffle/LSBShuffleStegoHandler.cpp:25-44 | Success exactly when the size is within both the ceiling and the capacity. `DataTooLarge` exactly above the ceiling, checked first. `InsufficientCapacity` exactly within the ceiling and above the capacity. |
| Capacity.ValidatedFits | src/algorithms/lsb/ordered/LSBStegoHandlerOrdered.cpp:23-26 | A validated size is within the ceiling, and its frame fits unless it is 0. |
| Capacity.ExceedsBufferWraps | src/algorithms/lsb/LSBStegoHandler.cpp:170-176 | With 32-bit arithmetic, 536870908 bytes pass the room check of a 1000-value buffer. |
| Capacity.ExceedsBufferAgrees | src/algorithms/lsbshuffle/LSBShuffleStegoHandler.cpp:185-193 | Below 2^29 − 4 bytes the 32-bit check and the exact check agree. |
| Capacity.ExceedsBufferTruncates | src/algorithms/lsbshuffle/LSBShuffleStegoHandler.cpp:185-189 | A payload of 2^32 + 1 bytes is announced as 1 byte, so the 32-bit check lets it into 1000 values, where the exact check refuses it. |
| LSBStegoHandler.ValidateLSBCapacity | src/algorithms/lsb/LSBStegoHandler.cpp:22-34 | Success exactly when the size is within capacity. Otherwise `InsufficientCapacity`, with a message naming the size, the capacity, the value count and `8·size + 32`. |
| LSBStegoHandler.ValidateLSBCapacityNoCeiling | src/algorithms/lsb/LSBStegoHandler.cpp:22-34 | One byte above the ceiling is accepted by 10^9 values, where the ceiling-checked validation says `DataTooLarge`. |
| LSBStegoHandler.ValidateLSBCapacityBelowCeiling | src/algorithms/lsb/LSBStegoHandler.cpp:22-34 | Within the ceiling, the older validation equals the ceiling-checked one. |
| LSBStegoHandler.WriteFrame | src/algorithms/lsb/LSBStegoHandler.cpp:178-191 | The two loops leave the buffer equal to `Overwrite(old, Encode(data))`. |
| LSBStegoHandler.WriteHeader | src/algorithms/lsb/LSBStegoHandler.cpp:179-182 | The header loop writes the 32 size bits into values 0..31 and nothing else. |
| LSBStegoHandler.WritePayload | src/algorithms/lsb/LSBStegoHandler.cpp:185-191 | The nested loops write bit `b` of byte `k` into value `32 + 8k + b` and nothing else. |
| LSBStegoHandler.EmbedLSB | src/algorithms/lsb/LSBStegoHandler.cpp:167-194 | A frame too large for the buffer gives `EmbeddingFailed` and leaves the buffer untouched. Otherwise the result is success and the buffer is `Overwrite(old, Encode(data))`. The room check is the exact one, the corrected half of Findings row 3, not the wrapping 32-bit check at line 172. |
| LSBStegoHandler.ExtractLSB | src/algorithms/lsb/LSBStegoHandler.cpp:196-245 | The result is `Decode` of the buffer's low-bit stream. |
| LSBStegoHandler.ReadHeader | src/algorithms/lsb/LSBStegoHandler.cpp:199-202 | The header loop yields the declared size of the low-bit stream. |
| LSBStegoHandler.ReadPayload | src/algorithms/lsb/LSBStegoHandler.cpp:235-242 | The nested loops yield the bytes of the `8·size` payload bits. |
| LSBStegoHandler.EmbedExtractRoundTrip | src/algorithms/lsb/LSBStegoHandler.cpp:167-245 | For 1 ≤ \|d\| ≤ capacity (and the ceiling), the room check passes and extraction returns `d`. |
| LSBStegoHandler.EmptyPayloadNotRecoverable | src/algorithms/lsb/LSBStegoHandler.cpp:167-194 | The empty payload passes the room check, but reading it back gives `NoEmbeddedData`. |
| LSBStegoHandler.Embed | src/algorithms/lsb/LSBStegoHandler.cpp:36-100 | Each step runs only after the previous one succeeded: load, open data, empty check, encryption, validation against `GetPixelCount()`, `EmbedLSB`, save. Every failure is returned with its code, with "Encryption failed: " before the crypto message. On success the saved image is the cover with the ciphertext's frame in its low bits. |
| LSBStegoHandler.Extract | src/algorithms/lsb/LSBStegoHandler.cpp:102-165 | A short buffer gives `ImageTooSmall` without a prefix. Then extraction (prefixed "Extraction failed: "), decryption (prefixed "Decryption failed: "), and the output written only after decryption succeeded. |
| LSBStegoHandler.PipelineRoundTrip | src/algorithms/lsb/LSBStegoHandler.cpp:36-165 | For a ciphertext within the ceiling that passes validation, the embedded image is read back to the ciphertext, and that decrypts to the data. |
| LSBStegoHandlerOrdered.EmbedMethod | src/algorithms/lsb/ordered/LSBStegoHandlerOrdered.cpp:10-46 | Empty data gives `InvalidArgument` and a failed validation is returned unchanged, both before any write. Otherwise the result is success and the buffer is `Overwrite(old, Encode(data))`. |
| LSBStegoHandlerOrdered.ExtractMethod | src/algorithms/lsb/ordered/LSBStegoHandlerOrdered.cpp:48-111 | `ImageTooSmall` exactly when fewer than 32 values, before any read. Otherwise `Decode` of the low-bit stream. |
| LSBStegoHandlerOrdered.ExtractOrder | src/algorithms/lsb/ordered/LSBStegoHandlerOrdered.cpp:57-98 | `ImageTooSmall` exactly below 32 values. Then `NoEmbeddedData` exactly for a zero size and `CorruptedPayload` exactly above the ceiling. Success exactly when the size is within the ceiling and its frame fits. |
| LSBStegoHandlerOrdered.EmbedExtractRoundTrip | src/algorithms/lsb/ordered/LSBStegoHandlerOrdered.cpp:10-111 | Every non-empty payload the validation accepts fits and is extracted unchanged. |
| LSBShuffleStegoHandler.Draw | src/algorithms/lsbshuffle/LSBShuffleStegoHandler.cpp:203 | The swap partner of position `i` is in `[0, i]`. |
| LSBShuffleStegoHandler.Iota | src/algorithms/lsbshuffle/LSBShuffleStegoHandler.cpp:199-202 | The initial list is `0, 1, …, n−1`. |
| LSBShuffleStegoHandler.Locations | src/algorithms/lsbshuffle/LSBShuffleStegoHandler.cpp:196-203 | The list has one entry per value of the buffer. `LocationsPermutation` proves it a permutation of [0, n) that depends only on the seed and n. |
| LSBShuffleStegoHandler.Swap | src/algorithms/lsbshuffle/LSBShuffleStegoHandler.cpp:203 | A swap exchanges two entries and keeps the others. |
| LSBShuffleStegoHandler.ShuffleFromPermutation | src/algorithms/lsbshuffle/LSBShuffleStegoHandler.cpp:203 | The Fisher–Yates passes keep a permutation a permutation. |
| LSBShuffleStegoHandler.LocationsPermutation | src/algorithms/lsbshuffle/LSBShuffleStegoHandler.cpp:195-203 | The position list of a seed and length is a permutation of `[0, n)`. |
| LSBShuffleStegoHandler.PermutationCovers | src/algorithms/lsbshuffle/LSBShuffleStegoHandler.cpp:199-203 | A permutation of `[0, n)` lists every position. |
| LSBShuffleStegoHandler.BuildLocations | src/algorithms/lsbshuffle/LSBShuffleStegoHandler.cpp:196-203 | The array built in place is the position list of the seed and length. |
| LSBShuffleStegoHandler.Scatter | src/algorithms/lsbshuffle/LSBShuffleStegoHandler.cpp:216-222 | Writing through a position list keeps the buffer's length. |
| LSBShuffleStegoHandler.LsbsAt | src/algorithms/lsbshuffle/LSBShuffleStegoHandler.cpp:245-250 | Entry `k` of the gathered stream is the low bit of value `locs[k]`. |
| LSBShuffleStegoHandler.ScatterAt | src/algorithms/lsbshuffle/LSBShuffleStegoHandler.cpp:220 | Through a permutation, value `locs[k]` carries bit `k`. Every value keeps its high bits. Values not listed in the first \|bits\| positions are untouched. |
| LSBShuffleStegoHandler.ScatterLsbsAt | src/algorithms/lsbshuffle/LSBShuffleStegoHandler.cpp:216-250 | Bits written through a permutation are read back through it. |
| LSBShuffleStegoHandler.ValidateLSBCapacity | src/algorithms/lsbshuffle/LSBShuffleStegoHandler.cpp:25-44 | `DataTooLarge` exactly above the ceiling, whatever the capacity. `InsufficientCapacity` exactly within the ceiling and above the capacity. Success otherwise. |
| LSBShuffleStegoHandler.HeaderByteBit | src/algorithms/lsbshuffle/LSBShuffleStegoHandler.cpp:206-211 | Bit `b` of header byte `j` is bit `8j + b` of the size. |
| LSBShuffleStegoHandler.DataVector | src/algorithms/lsbshuffle/LSBShuffleStegoHandler.cpp:205-213 | The vector starts with the 4 header bytes of the truncated size, low byte first. The data follows unchanged, then `binarySize` zero bytes. |
| LSBShuffleStegoHandler.DataVectorBit | src/algorithms/lsbshuffle/LSBShuffleStegoHandler.cpp:205-219 | Bit `b` of vector byte `k` is stream bit `8k + b` of the frame. |
| LSBShuffleStegoHandler.EmbedLSB | src/algorithms/lsbshuffle/LSBShuffleStegoHandler.cpp:177-225 | Empty data gives `InvalidArgument` and a frame too large gives `EmbeddingFailed`, both before any write. Otherwise the position list is a permutation and the buffer is `Scatter(old, locs, Encode(data))`. The room check is the exact one, the corrected half of Findings row 4, not the wrapping 32-bit check at lines 185-189. |
| LSBShuffleStegoHandler.ScatterStream | src/algorithms/lsbshuffle/LSBShuffleStegoHandler.cpp:216-222 | The nested loops leave the buffer equal to `Scatter(old, locs, Encode(data))`. |
| LSBShuffleStegoHandler.ExtractLSB | src/algorithms/lsbshuffle/LSBShuffleStegoHandler.cpp:227-293 | The position list rebuilt from the password is a permutation. The result is `Decode` of the stream gathered through it. |
| LSBShuffleStegoHandler.GatherHeader | src/algorithms/lsbshuffle/LSBShuffleStegoHandler.cpp:245-250 | The header loops yield the declared size of the gathered stream. |
| LSBShuffleStegoHandler.GatherPayload | src/algorithms/lsbshuffle/LSBShuffleStegoHandler.cpp:283-290 | The payload loops yield the bytes of the gathered payload bits. |
| LSBShuffleStegoHandler.ScatterRoundTrip | src/algorithms/lsbshuffle/LSBShuffleStegoHandler.cpp:177-293 | Through any permutation, a frame written and read back gives the payload. |
| LSBShuffleStegoHandler.EmbedExtractRoundTrip | src/algorithms/lsbshuffle/LSBShuffleStegoHandler.cpp:177-293 | Same password and buffer length: every non-empty payload the validation accepts is extracted unchanged. |
| LSBShuffleStegoHandler.Embed | src/algorithms/lsbshuffle/LSBShuffleStegoHandler.cpp:46-110 | The pipeline steps in order, each error returned with its code. Validation (with the ceiling) uses `GetPixelCount()` on the encrypted size before embedding. On success the saved image is the cover scattered with the ciphertext's frame. |
| LSBShuffleStegoHandler.Extract | src/algorithms/lsbshuffle/LSBShuffleStegoHandler.cpp:112-175 | `ImageTooSmall` without prefix before extracting. Then extraction through the password's positions, decryption, and the write, with the prefixes. |
| LSBShuffleStegoHandler.PipelineRoundTrip | src/algorithms/lsbshuffle/LSBShuffleStegoHandler.cpp:46-175 | A ciphertext that passes validation, embedded and extracted with the same password, decrypts to the data. |
| CryptoModule.CipherLength | src/utils/CryptoModule.cpp:73-98 | The padded length is a whole number of blocks, strictly above the plaintext length and at most one block above it. |
| CryptoModule.SlicesOfFrame | src/utils/CryptoModule.cpp:145-156 | Slicing `salt ‖ iv ‖ ct ‖ tag` at 16, 32 and len − 32 gives back the four fields. |
| CryptoModule.FrameOfSlices | src/utils/CryptoModule.cpp:145-156 | Any input of 64 or more bytes is the concatenation of its four slices. The first three are everything but the last 32 bytes. |
| CryptoModule.Encrypt | src/utils/CryptoModule.cpp:21-128 | A success needs non-empty data and is at least `ENCRYPTION_OVERHEAD` bytes long. `EncryptLayout`, `EncryptLength` and `DecryptEncrypt` state the rest of its contract. |
| CryptoModule.Decrypt | src/utils/CryptoModule.cpp:130-245 | Checks the length, derives the key, checks the tag, then deciphers. `DecryptErrorCodes`, `DecryptAuthenticates`, `DecryptEncrypt` and `WrongPasswordRejected` state its contract. |
| CryptoModule.EncryptData | src/utils/CryptoModule.cpp:21-128 | The result is that of the `Encrypt` specification. Empty data makes no primitive call. A failed salt or IV draw stops before key derivation. Every derivation uses the password, the drawn salt and 10000 iterations. On success the fifth and last call was the MAC over everything but the tag. |
| CryptoModule.DecryptData | src/utils/CryptoModule.cpp:130-245 | The result is that of the `Decrypt` specification. Input below 80 bytes makes no primitive call. Otherwise the first call derives the key from the stored salt. Every decryption call directly follows a matching tag comparison. `AuthenticationFailed` means no decryption was attempted. |
| CryptoModule.EncryptLayout | src/utils/CryptoModule.cpp:100-125 | A successful encryption is the drawn salt, the IV, the cipher's output under the derived key, and the MAC of the first three under that key. |
| CryptoModule.EncryptLength | src/utils/CryptoModule.cpp:97-125 | Under the cipher laws, the output is `64 + 16·(n/16 + 1)` bytes, so at least 80. |
| CryptoModule.EncryptedSizes | src/utils/CryptoModule.cpp:119-125 | Overhead 64 and minimum 80. Sizes: 1 → 80, 15 → 80, 16 → 96, 17 → 96, 1000 → 1072. |
| CryptoModule.DecryptEncrypt | src/utils/CryptoModule.cpp:21-245 | Under the cipher laws, decrypting an encryption with the same password gives the plaintext. |
| CryptoModule.DecryptErrorCodes | src/utils/CryptoModule.cpp:130-245 | `CorruptedPayload` holds exactly for input below 80 bytes. `AuthenticationFailed` holds exactly when the MAC was computed with the right length and differs from the stored tag. The only failure codes are these two and `DecryptionFailed`, which is also the code of a padding failure. |
| CryptoModule.StageMessagesDistinct | src/utils/CryptoModule.cpp:197-236 | Each decryption stage has its own message. Encryption's two cipher calls share one. |
| CryptoModule.DecryptAuthenticates | src/utils/CryptoModule.cpp:170-195 | A successful decryption had a stored tag equal to the MAC, under the key from the password and stored salt, of everything before it. |
| CryptoModule.WrongPasswordRejected | src/utils/CryptoModule.cpp:189-195 | With binding primitives, another password never decrypts an encryption: the result is `AuthenticationFailed` or `DecryptionFailed`. When its key and MAC can be computed, the rejection is the tag comparison or the MAC length check. |
| CryptoModule.ForeignKeyRejected | src/utils/CryptoModule.cpp:160-195 | Any frame whose tag is the MAC under one password's key is rejected under every other password, with `AuthenticationFailed` or `DecryptionFailed`. When the other key and MAC can be computed, the rejection is the tag comparison or the MAC length check. |
| LegacyCryptoModule.EncryptData | src/CryptoModule.cpp:9-84 | Success exactly when the `Encrypt` specification delivers, and the output is then its frame. On failure the caller's vector is unchanged. The salt draw comes first, then key derivation with the drawn salt. A failed draw or derivation stops there. |
| LegacyCryptoModule.DecryptData | src/CryptoModule.cpp:87-160 | Success exactly when every step succeeds; otherwise the caller's vector is unchanged. Input below 32 bytes is rejected before any call. The key comes from the stored salt. |
| LegacyCryptoModule.EncryptLayout | src/CryptoModule.cpp:77-81 | The frame is salt, IV and ciphertext, with no tag. |
| LegacyCryptoModule.DecryptEncrypt | src/CryptoModule.cpp:9-160 | Under the cipher laws the frame is `32 + 16·(n/16 + 1)` bytes and decrypts to the plaintext with the same password. |
| LegacyCryptoModule.Encrypt | src/CryptoModule.cpp:9-84 | The frame salt, IV, ciphertext, built after the salt draw, key derivation, IV draw and cipher all succeeded. `EncryptLayout` and `DecryptEncrypt` state its contract. |
| LegacyCryptoModule.Decrypt | src/CryptoModule.cpp:87-160 | Below 32 bytes nothing; otherwise the key from the stored salt deciphers the rest. `DecryptEncrypt` states its contract. |
| ImageIO.ImageData.GetPixelCount | src/utils/ImageIO.h:19-21 | The count is `width·height·channels` whenever that fits in 64 bits. |
| ImageIO.PixelCountWraps | src/utils/ImageIO.h:19-21 | The count is the product modulo 2^64 for any `int` dimensions: -1×1×1 gives 2^64 − 1, -2×3×1 gives 2^64 − 6, and 2^30×2^30×16 gives 0. |
| ImageIO.PixelCountExamples | src/utils/ImageIO.h:19-21 | 100×100×1 = 10000, 100×100×3 = 30000, 512×512×3 = 786432. |
| ImageIO.EmptyNotValid | src/utils/ImageIO.h:26-28 | An image without pixel data is not valid. |
| ImageIO.ValidityIgnoresSize | src/utils/ImageIO.h:26-28 | Validity does not compare the data size with the dimensions. |
| ImageIO.ImageData.IsValid | src/utils/ImageIO.h:26-28 | Positive dimensions and some pixel data. `EmptyNotValid`, `ValidityIgnoresSize`, `LoadedValidity` and `SaveSucceeds` state what it implies. |
| ImageIO.ToLower | src/utils/ImageIO.cpp:131-132 | Lowercasing leaves no capital and moves no dot. |
| ImageIO.Lowercase | src/utils/ImageIO.cpp:131-132 | Each character is lowercased in place. |
| ImageIO.FindLastDot | src/utils/ImageIO.cpp:123 | The position found holds the last dot. None means there is no dot. |
| ImageIO.GetExtension | src/utils/ImageIO.cpp:122-135 | The in-place lowercasing loop yields the extension. |
| ImageIO.Extension | src/utils/ImageIO.cpp:122-135 | The lowercased text after the last dot, empty without a dot or after a trailing one. `ExtensionShape` and `ExtensionOfLowercase` state its contract. |
| ImageIO.ExtensionShape | src/utils/ImageIO.cpp:122-135 | The extension has no dot and no capital. It is empty exactly when there is no dot or the dot is last. Otherwise it is the lowercased tail after a dot. |
| ImageIO.FindLastDotLowercase | src/utils/ImageIO.cpp:122-135 | Lowercasing a name keeps its last dot where it was. |
| ImageIO.ExtensionCaseInsensitive | src/utils/ImageIO.cpp:117-120 | Names equal up to case have the same extension and the same format support. |
| ImageIO.ExtensionOfLowercase | src/utils/ImageIO.cpp:122-135 | Lowercasing a name first does not change its extension. |
| ImageIO.IsSupportedFormat | src/utils/ImageIO.cpp:117-120 | The extension is png, bmp, jpg or jpeg. `ExtensionCaseInsensitive` and the two example lemmas state its contract. |
| ImageIO.SupportedFormatExamples | src/utils/ImageIO.cpp:117-120 | TEST.PNG, photo.JpEg, a.b.bmp and x.jpg are supported. |
| ImageIO.UnsupportedFormatExamples | src/utils/ImageIO.cpp:117-120 | notes.txt, image.png.bak, png and image. are not. |
| ImageIO.SaveGuards | src/utils/ImageIO.cpp:59-105 | The checks before writing, in order, and the encoder the extension selects. `SaveGuardOrder` and `SaveSucceeds` state its contract. |
| ImageIO.Save | src/utils/ImageIO.cpp:55-115 | The guards, then the selected encoder, whose failure is `ImageSaveFailed`. `SaveGuardOrder`, `WriterOnlyAfterGuards` and `SaveSucceeds` state its contract. |
| ImageIO.SaveImage | src/utils/ImageIO.cpp:51-53 | The `ImageData` overload passes the image's fields to `Save`. |
| ImageIO.SaveGuardOrder | src/utils/ImageIO.cpp:55-115 | The guards fire in order, each code exactly in its case: empty data `InvalidArgument`, bad dimensions `InvalidImageDimensions`, size mismatch `ImageCorrupted`, missing or unsupported extension `UnsupportedImageFormat`. The encoder's failure is the only other error. |
| ImageIO.WriterOnlyAfterGuards | src/utils/ImageIO.cpp:93-105 | While a guard fails, the encoder is not consulted. |
| ImageIO.SaveSucceeds | src/utils/ImageIO.cpp:93-114 | A successful save had a valid image whose data fills its dimensions and a supported name. The encoder its extension selects succeeded. |
| ImageIO.LoadOutcome | src/utils/ImageIO.cpp:13-49 | `ImageLoadFailed` exactly when decoding failed. `InvalidImageDimensions` exactly for a non-positive dimension. Otherwise the image holds the first `w·h·c` decoded values and the decoded dimensions. |
| ImageIO.Load | src/utils/ImageIO.cpp:13-49 | Decoder failure, then the dimension check, then the first `w·h·c` decoded values. `LoadOutcome` and `LoadedValidity` state its contract. |
| ImageIO.LoadedValidity | src/utils/ImageIO.cpp:38-48 | A loaded image is valid exactly when its pixel count is not zero. |
| ImageIO.LoadedEmptyImage | src/utils/ImageIO.cpp:30-48 | Positive dimensions whose product is 2^64 pass the dimension check and load to an empty image that is not valid. |
| ImageIO.LoadedImageSaves | src/utils/ImageIO.cpp:13-91 | A loaded image with data passes every guard of a save under a supported name. |
| PipelineSteps.WriteOutput | src/algorithms/StegoHandler.cpp:104-123 | Writing succeeds exactly when the file opened and the write succeeded. Otherwise the code is `FileWriteError`. |
| PipelineSteps.CopyToBuffer | src/algorithms/StegoHandler.cpp:21 | The working copy of the pixels is a fresh array with their contents. |
| StegoHandler.Embed | src/algorithms/StegoHandler.cpp:10-68 | Load errors are returned. A missing data file gives `FileNotFound` and empty data `InvalidArgument`, both before encryption. Encryption errors keep their code with "Encryption failed: ". `EmbedMethod` gets the ciphertext, and its error is returned unchanged. The image is saved only after it succeeded, with the frame in its low bits. |
| StegoHandler.Extract | src/algorithms/StegoHandler.cpp:70-124 | Load errors are returned. An `ExtractMethod` error keeps its code with "Extraction failed: " and skips decryption. Decryption gets the extracted bytes, and its errors keep their code with "Decryption failed: ". The output is written only after decryption succeeded. |
| StegoHandler.EmbedExtractRoundTrip | src/algorithms/StegoHandler.cpp:10-124 | Under the cipher laws, what `Embed` saves is extracted to the ciphertext, and that decrypts to the original data. |

## Left out

- The command-line layer, the overwrite prompt and console output are UI
  plumbing and are not modelled.
- The stb image decoder and encoders are collaborators. Their results are
  inputs (`Decoded`, `write`), and the encoded file bytes are not modelled.
- The OpenSSL primitives are function values with stated laws. Constant-time
  comparison, randomness quality and distinct ciphertexts per call cannot
  be expressed. Error text from the OpenSSL error queue is not modelled
  either.
- The exact output of `std::hash`, `std::mt19937_64` and `std::shuffle` is
  implementation-defined. The shuffle is Fisher–Yates from the top index
  down with an abstract draw in `[0, i]`.
- File reads and writes in the pipelines are inputs: the data file's
  contents, or `None` when it cannot be opened, and whether the output
  opened and was written.
- The float-tolerance image comparison and the random-ciphertext tests have
  no counterpart.
- The declaration-only headers hold no logic and are not modelled.
- ImageIO.ImageData.GetPixelCount: the body, the product modulo 2^64, is
  the `size_t` arithmetic exactly for every `int` input, negative ones
  included. The ensures only gives the product when it lies in [0, 2^64);
  `PixelCountWraps` shows the other cases.
- LSBShuffleStegoHandler.EmbedLSB: the room check is the exact frame size
  against the buffer, not the 32-bit `dataSize * 8 + 32` of lines 185-189.
  The check as written lets in sizes whose loops read past the position
  list, which the model cannot express. Below 2^29 − 4 bytes the two checks
  agree (`Capacity.ExceedsBufferAgrees`), and every size the pipeline
  validates is below that bound.
- LSBStegoHandler.EmbedLSB: the room check is the exact one, for the same
  reason, in place of the wrapping check at LSBStegoHandler.cpp:172.
- ImageIO.SaveGuards: the PNG row stride `width * channels` is computed in
  unbounded integers; the encoder does not see an `int` overflow.
- Errors.SuccessIffCodeSuccess: the C++ error constructor accepts
  `ErrorCode::Success`, which yields a success with no value. No modelled
  code builds one, so the lemma is stated for results that are not
  `Err(Success, _)`.
- The header reads in both handlers shift an `int` 1 into bit 31, which is
  undefined in older C++. The model reads bit 31 as value 2^31.
- The pipelines copy the pixel vector into an array for the codec; C++
  updates the image's own vector. Aliasing between that vector and others is
  not modelled.
- LegacyCryptoModule.EncryptData: the C++ caller's ciphertext buffer has
  `plainData.size() + 16` bytes. The model does not check that the cipher's
  output fits it.
- LSBShuffleStegoHandler.Embed: the `EmbeddingFailed` branch cannot occur
  when the pixel count matches the buffer; the contract states its exact
  message all the same.

## Findings

| source | as written | input that shows it | evidently intended | confidence | as-written member | corrected member |
|---|---|---|---|---|---|---|
| src/algorithms/lsb/LSBStegoHandler.cpp:22-34 | The older validation has no sanity ceiling. | 10^9 values and 104857601 bytes: accepted. | `DataTooLarge` above 100 MiB, as its tests expect and the other handlers do. | high; not executed | LSBStegoHandler.ValidateLSBCapacityNoCeiling | LSBShuffleStegoHandler.ValidateLSBCapacity |
| src/algorithms/lsb/LSBStegoHandler.cpp:167-194 | The older embedder accepts an empty payload. It writes a zero header, which extraction then reports as `NoEmbeddedData`. | 1000 values, empty data: success. | `InvalidArgument` for empty data, as its tests expect and the other embedders do. | high; not executed | LSBStegoHandler.EmptyPayloadNotRecoverable | LSBStegoHandlerOrdered.EmbedMethod |
| src/algorithms/lsb/LSBStegoHandler.cpp:170-176 | The room check `dataSize * 8 + 32` is computed in 32 bits and wraps. | 536870908 bytes, 1000 values: the check passes and the loops run past the buffer. | The frame's exact bit count compared with the buffer length. | medium; not executed | Capacity.ExceedsBufferWraps | Capacity.ExceedsBufferAgrees |
| src/algorithms/lsbshuffle/LSBShuffleStegoHandler.cpp:185-189 | The shuffle embedder computes `dataSize * 8 + 32` in 32 bits before widening it, and first truncates the size to 32 bits. | 2^32 + 1 bytes, 1000 values: the check passes and a one-byte frame is written with success. 536870908 bytes wrap to 0 as in row 3. | The frame's exact bit count compared with the buffer length. | medium; not executed | Capacity.ExceedsBufferTruncates | Capacity.ExceedsBufferAgrees |
