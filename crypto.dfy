/** Authenticated password-based encryption, encrypt-then-MAC: a key is
    derived from the password and a random salt with PBKDF2-HMAC-SHA256,
    the plaintext is enciphered with AES-256-CBC under a random IV, and an
    HMAC-SHA256 tag over salt, IV and ciphertext is appended.

    The OpenSSL primitives are parameters: an `Engine` of function values,
    and the two `RAND_bytes` draws as optional values.  Each method also
    returns the sequence of primitive calls it made, so that the order of
    the steps can be stated. */
module CryptoModule {
  import opened Errors
  import opened Format
  import opened Frame

  const SALT_SIZE: nat := 16
  const IV_SIZE: nat := 16
  const KEY_SIZE: nat := 32
  const HMAC_SIZE: nat := 32
  const BLOCK_SIZE: nat := 16
  const PBKDF2_ITERATIONS: nat := 10000

  /** Bytes an encryption adds besides the ciphertext: salt, IV and tag. */
  const ENCRYPTION_OVERHEAD: nat := SALT_SIZE + IV_SIZE + HMAC_SIZE

  /** The shortest well-formed input: salt, IV, tag and one cipher block. */
  const MIN_SIZE: nat := SALT_SIZE + IV_SIZE + HMAC_SIZE + BLOCK_SIZE

  /** The stage of an OpenSSL cipher run that reported failure: context
      allocation, initialisation, the update call, the final (padding) call. */
  datatype Stage = NewContext | Init | Update | Final

  datatype CipherOutcome = Ciphered(output: seq<byte>) | CipherFailed(stage: Stage)

  /** The primitives.  `deriveKey(password, salt, iterations)` is PBKDF2,
      `mac(key, data)` is HMAC-SHA256 (its result may have any length, as the
      reported `hmac_len` may), `encrypt(key, iv, p)` and `decrypt(key, iv, c)`
      are full AES-256-CBC runs with PKCS#7 padding. */
  datatype Engine = Engine(
    deriveKey: (string, seq<byte>, nat) -> Option<seq<byte>>,
    mac: (seq<byte>, seq<byte>) -> Option<seq<byte>>,
    encrypt: (seq<byte>, seq<byte>, seq<byte>) -> CipherOutcome,
    decrypt: (seq<byte>, seq<byte>, seq<byte>) -> CipherOutcome)

  /** The length PKCS#7 padding gives an `n`-byte plaintext: the next whole
      block strictly above `n`. */
  function CipherLength(n: nat): (c: nat)
    ensures c % BLOCK_SIZE == 0 && n < c <= n + BLOCK_SIZE
  {
    BLOCK_SIZE * (n / BLOCK_SIZE + 1)
  }

  /** The laws the cipher is assumed to obey: a successful encryption pads to
      `CipherLength`, and decrypting it under the same key and IV gives the
      plaintext back. */
  ghost predicate Sound(e: Engine)
  {
    forall key: seq<byte>, iv: seq<byte>, p: seq<byte> :: e.encrypt(key, iv, p).Ciphered? ==>
      |e.encrypt(key, iv, p).output| == CipherLength(|p|)
      && e.decrypt(key, iv, e.encrypt(key, iv, p).output) == Ciphered(p)
  }

  /** An idealisation of the key derivation and the MAC: distinct passwords
      give distinct keys for the same salt, and distinct keys give distinct
      tags for the same data. */
  ghost predicate Binding(e: Engine)
  {
    (forall p1: string, p2: string, s: seq<byte>, n: nat ::
       p1 != p2 && e.deriveKey(p1, s, n).Some? && e.deriveKey(p2, s, n).Some? ==>
       e.deriveKey(p1, s, n) != e.deriveKey(p2, s, n))
    && (forall k1: seq<byte>, k2: seq<byte>, d: seq<byte> ::
       k1 != k2 && e.mac(k1, d).Some? && e.mac(k2, d).Some? ==> e.mac(k1, d) != e.mac(k2, d))
  }

  /** A call into the primitives. */
  datatype Call =
    | RandomBytes(count: nat)
    | DeriveKey(password: string, salt: seq<byte>, iterations: nat)
    | Mac(key: seq<byte>, data: seq<byte>)
    | CompareMac(matched: bool)
    | Encipher(key: seq<byte>, iv: seq<byte>)
    | Decipher(key: seq<byte>, iv: seq<byte>)

  /** No decryption was attempted. */
  predicate NoDecipher(trace: seq<Call>)
  {
    forall i | 0 <= i < |trace| :: !trace[i].Decipher?
  }

  /** Every decryption directly follows a tag comparison that matched. */
  predicate DecipherAfterMatch(trace: seq<Call>)
  {
    forall i | 0 <= i < |trace| && trace[i].Decipher? :: 0 < i && trace[i - 1] == CompareMac(true)
  }

  /** No key was derived. */
  predicate NoDerivation(trace: seq<Call>)
  {
    forall i | 0 <= i < |trace| :: !trace[i].DeriveKey?
  }

  function EncryptStageMessage(s: Stage): string
  {
    match s
    case NewContext => "Failed to create encryption context"
    case Init => "Failed to initialize AES-256-CBC encryption"
    case Update => "Encryption failed"
    case Final => "Encryption failed"
  }

  function DecryptStageMessage(s: Stage): string
  {
    match s
    case NewContext => "Failed to create decryption context"
    case Init => "Failed to initialize AES-256-CBC decryption"
    case Update => "Decryption failed"
    case Final => "Decryption padding verification failed"
  }

  function RandomFailureMessage(): string
  {
    "Cryptographic random number generation failed"
  }

  function TagMismatchMessage(): string
  {
    "HMAC verification failed (incorrect password or corrupted data)"
  }

  function TooShortMessage(size: nat): string
  {
    "Data too small for decryption (" + Decimal(size) + " bytes, expected at least "
      + Decimal(MIN_SIZE) + ")"
  }

  /** The fields of a frame, by fixed offsets from both ends. */
  function SaltOf(c: seq<byte>): seq<byte>
    requires |c| >= ENCRYPTION_OVERHEAD
  {
    c[..SALT_SIZE]
  }

  function IvOf(c: seq<byte>): seq<byte>
    requires |c| >= ENCRYPTION_OVERHEAD
  {
    c[SALT_SIZE .. SALT_SIZE + IV_SIZE]
  }

  function CiphertextOf(c: seq<byte>): seq<byte>
    requires |c| >= ENCRYPTION_OVERHEAD
  {
    c[SALT_SIZE + IV_SIZE .. |c| - HMAC_SIZE]
  }

  function TagOf(c: seq<byte>): seq<byte>
    requires |c| >= ENCRYPTION_OVERHEAD
  {
    c[|c| - HMAC_SIZE ..]
  }

  /** Slicing a frame `salt ‖ iv ‖ ct ‖ tag` at the fixed offsets gives back
      its four fields, and the tag covers everything before it. */
  lemma SlicesOfFrame(salt: seq<byte>, iv: seq<byte>, ct: seq<byte>, tag: seq<byte>)
    requires |salt| == SALT_SIZE && |iv| == IV_SIZE && |tag| == HMAC_SIZE
    ensures |salt + iv + ct + tag| == ENCRYPTION_OVERHEAD + |ct|
    ensures SaltOf(salt + iv + ct + tag) == salt
    ensures IvOf(salt + iv + ct + tag) == iv
    ensures CiphertextOf(salt + iv + ct + tag) == ct
    ensures TagOf(salt + iv + ct + tag) == tag
  {
    var c := salt + iv + ct + tag;
    assert c[..SALT_SIZE] == salt;
    assert c[SALT_SIZE .. SALT_SIZE + IV_SIZE] == iv;
    assert c[SALT_SIZE + IV_SIZE .. |c| - HMAC_SIZE] == ct;
    assert c[|c| - HMAC_SIZE ..] == tag;
  }

  /** Conversely, every input long enough is the frame of its own fields. */
  lemma FrameOfSlices(c: seq<byte>)
    requires |c| >= ENCRYPTION_OVERHEAD
    ensures SaltOf(c) + IvOf(c) + CiphertextOf(c) + TagOf(c) == c
    ensures SaltOf(c) + IvOf(c) + CiphertextOf(c) == c[..|c| - HMAC_SIZE]
  {
    assert SaltOf(c) + IvOf(c) + CiphertextOf(c) == c[..|c| - HMAC_SIZE];
    assert c[..|c| - HMAC_SIZE] + c[|c| - HMAC_SIZE ..] == c;
  }

  /** What an encryption yields, given the two random draws (`None` when the
      generator fails). */
  function Encrypt(e: Engine, plain: seq<byte>, password: string,
                   saltDraw: Option<seq<byte>>, ivDraw: Option<seq<byte>>): (r: Result<seq<byte>>)
    requires saltDraw.Some? ==> |saltDraw.value| == SALT_SIZE
    requires ivDraw.Some? ==> |ivDraw.value| == IV_SIZE
    ensures r.IsSuccess() ==> |plain| > 0 && |r.value| >= ENCRYPTION_OVERHEAD
  {
    if |plain| == 0 then Err(InvalidArgument, "Cannot encrypt empty data")
    else if saltDraw.None? || ivDraw.None? then Err(EncryptionFailed, RandomFailureMessage())
    else
      var salt, iv := saltDraw.value, ivDraw.value;
      var key := e.deriveKey(password, salt, PBKDF2_ITERATIONS);
      if key.None? then Err(EncryptionFailed, "Key derivation failed")
      else
        match e.encrypt(key.value, iv, plain)
        case CipherFailed(stage) => Err(EncryptionFailed, EncryptStageMessage(stage))
        case Ciphered(ct) =>
          var tag := e.mac(key.value, salt + iv + ct);
          if tag.None? || |tag.value| != HMAC_SIZE then Err(EncryptionFailed, "HMAC computation failed")
          else Ok(salt + iv + ct + tag.value)
  }

  /** What a decryption yields. */
  function Decrypt(e: Engine, c: seq<byte>, password: string): (r: Result<seq<byte>>)
  {
    if |c| < MIN_SIZE then Err(CorruptedPayload, TooShortMessage(|c|))
    else
      var key := e.deriveKey(password, SaltOf(c), PBKDF2_ITERATIONS);
      if key.None? then Err(DecryptionFailed, "Key derivation failed")
      else
        var computed := e.mac(key.value, SaltOf(c) + IvOf(c) + CiphertextOf(c));
        if computed.None? || |computed.value| != HMAC_SIZE then Err(DecryptionFailed, "HMAC computation failed")
        else if computed.value != TagOf(c) then Err(AuthenticationFailed, TagMismatchMessage())
        else
          match e.decrypt(key.value, IvOf(c), CiphertextOf(c))
          case CipherFailed(stage) => Err(DecryptionFailed, DecryptStageMessage(stage))
          case Ciphered(p) => Ok(p)
  }

  /** Encrypts `plainData`: the empty check, both random draws, key
      derivation, encryption, the tag over salt, IV and ciphertext, then the
      output built field by field. */
  method EncryptData(e: Engine, plainData: seq<byte>, password: string,
                     saltDraw: Option<seq<byte>>, ivDraw: Option<seq<byte>>)
    returns (r: Result<seq<byte>>, trace: seq<Call>)
    requires saltDraw.Some? ==> |saltDraw.value| == SALT_SIZE
    requires ivDraw.Some? ==> |ivDraw.value| == IV_SIZE
    ensures r == Encrypt(e, plainData, password, saltDraw, ivDraw)
    ensures |plainData| == 0 ==> trace == []
    ensures |plainData| > 0 && saltDraw.None? ==> trace == [RandomBytes(SALT_SIZE)]
    ensures |plainData| > 0 && saltDraw.Some? && ivDraw.None? ==>
      trace == [RandomBytes(SALT_SIZE), RandomBytes(IV_SIZE)]
    ensures saltDraw.None? || ivDraw.None? ==> NoDerivation(trace)
    ensures forall i | 0 <= i < |trace| && trace[i].DeriveKey? ::
      trace[i].password == password && Some(trace[i].salt) == saltDraw
      && trace[i].iterations == PBKDF2_ITERATIONS
    ensures r.IsSuccess() ==>
      |r.value| >= ENCRYPTION_OVERHEAD && |trace| == 5 && trace[4].Mac?
      && trace[4].data == r.value[..|r.value| - HMAC_SIZE]
  {
    trace := [];
    if |plainData| == 0 {
      return Err(InvalidArgument, "Cannot encrypt empty data"), trace;
    }
    trace := trace + [RandomBytes(SALT_SIZE)];
    if saltDraw.None? {
      return Err(EncryptionFailed, RandomFailureMessage()), trace;
    }
    trace := trace + [RandomBytes(IV_SIZE)];
    if ivDraw.None? {
      return Err(EncryptionFailed, RandomFailureMessage()), trace;
    }
    var salt, iv := saltDraw.value, ivDraw.value;

    trace := trace + [DeriveKey(password, salt, PBKDF2_ITERATIONS)];
    var key := e.deriveKey(password, salt, PBKDF2_ITERATIONS);
    if key.None? {
      return Err(EncryptionFailed, "Key derivation failed"), trace;
    }

    trace := trace + [Encipher(key.value, iv)];
    var outcome := e.encrypt(key.value, iv, plainData);
    if outcome.CipherFailed? {
      return Err(EncryptionFailed, EncryptStageMessage(outcome.stage)), trace;
    }
    var ciphertext := outcome.output;

    var dataToAuth: seq<byte> := [];
    dataToAuth := dataToAuth + salt;
    dataToAuth := dataToAuth + iv;
    dataToAuth := dataToAuth + ciphertext;
    assert dataToAuth == salt + iv + ciphertext;

    trace := trace + [Mac(key.value, dataToAuth)];
    var hmac := e.mac(key.value, dataToAuth);
    if hmac.None? || |hmac.value| != HMAC_SIZE {
      return Err(EncryptionFailed, "HMAC computation failed"), trace;
    }

    var encryptedData: seq<byte> := [];
    encryptedData := encryptedData + salt;
    encryptedData := encryptedData + iv;
    encryptedData := encryptedData + ciphertext;
    encryptedData := encryptedData + hmac.value;
    assert encryptedData[..|encryptedData| - HMAC_SIZE] == dataToAuth;
    return Ok(encryptedData), trace;
  }

  /** Decrypts `encryptedData`: the size check, the slicing, key derivation,
      the tag recomputed and compared, and only then the decryption. */
  method DecryptData(e: Engine, encryptedData: seq<byte>, password: string)
    returns (r: Result<seq<byte>>, trace: seq<Call>)
    ensures r == Decrypt(e, encryptedData, password)
    ensures |encryptedData| < MIN_SIZE ==> trace == []
    ensures |encryptedData| >= MIN_SIZE ==>
      |trace| >= 1 && trace[0] == DeriveKey(password, encryptedData[..SALT_SIZE], PBKDF2_ITERATIONS)
    ensures DecipherAfterMatch(trace)
    ensures r.GetErrorCode() == AuthenticationFailed ==> NoDecipher(trace)
  {
    trace := [];
    if |encryptedData| < MIN_SIZE {
      return Err(CorruptedPayload, TooShortMessage(|encryptedData|)), trace;
    }

    var salt := encryptedData[..SALT_SIZE];
    var iv := encryptedData[SALT_SIZE .. SALT_SIZE + IV_SIZE];
    var ciphertextStart := SALT_SIZE + IV_SIZE;
    var ciphertextEnd := |encryptedData| - HMAC_SIZE;
    var ciphertext := encryptedData[ciphertextStart .. ciphertextEnd];
    var receivedHmac := encryptedData[ciphertextEnd ..];

    trace := trace + [DeriveKey(password, salt, PBKDF2_ITERATIONS)];
    var key := e.deriveKey(password, salt, PBKDF2_ITERATIONS);
    if key.None? {
      return Err(DecryptionFailed, "Key derivation failed"), trace;
    }

    var dataToAuth: seq<byte> := [];
    dataToAuth := dataToAuth + salt;
    dataToAuth := dataToAuth + iv;
    dataToAuth := dataToAuth + ciphertext;
    assert dataToAuth == SaltOf(encryptedData) + IvOf(encryptedData) + CiphertextOf(encryptedData);

    trace := trace + [Mac(key.value, dataToAuth)];
    var computedHmac := e.mac(key.value, dataToAuth);
    if computedHmac.None? || |computedHmac.value| != HMAC_SIZE {
      return Err(DecryptionFailed, "HMAC computation failed"), trace;
    }

    var matched := computedHmac.value == receivedHmac;
    trace := trace + [CompareMac(matched)];
    if !matched {
      return Err(AuthenticationFailed, TagMismatchMessage()), trace;
    }

    trace := trace + [Decipher(key.value, iv)];
    var outcome := e.decrypt(key.value, iv, ciphertext);
    if outcome.CipherFailed? {
      return Err(DecryptionFailed, DecryptStageMessage(outcome.stage)), trace;
    }
    return Ok(outcome.output), trace;
  }

  /** A successful encryption is exactly `salt ‖ iv ‖ ct ‖ tag`: the drawn
      salt and IV, the cipher's output under the key derived from the password
      and salt at 10000 iterations, and the 32-byte tag over the first three. */
  lemma EncryptLayout(e: Engine, plain: seq<byte>, password: string, salt: seq<byte>, iv: seq<byte>)
    requires |salt| == SALT_SIZE && |iv| == IV_SIZE
    requires Encrypt(e, plain, password, Some(salt), Some(iv)).IsSuccess()
    ensures var c := Encrypt(e, plain, password, Some(salt), Some(iv)).value;
      var key := e.deriveKey(password, salt, PBKDF2_ITERATIONS);
      |c| >= ENCRYPTION_OVERHEAD && key.Some?
      && SaltOf(c) == salt && IvOf(c) == iv
      && e.encrypt(key.value, iv, plain) == Ciphered(CiphertextOf(c))
      && e.mac(key.value, c[..|c| - HMAC_SIZE]) == Some(TagOf(c))
  {
    var c := Encrypt(e, plain, password, Some(salt), Some(iv)).value;
    var key := e.deriveKey(password, salt, PBKDF2_ITERATIONS).value;
    var ct := e.encrypt(key, iv, plain).output;
    var tag := e.mac(key, salt + iv + ct).value;
    SlicesOfFrame(salt, iv, ct, tag);
    FrameOfSlices(c);
  }

  /** Under the cipher laws, an encryption of `n` bytes is `64 + 16 * (n / 16 + 1)`
      bytes long, so it always passes the decryption's size check. */
  lemma EncryptLength(e: Engine, plain: seq<byte>, password: string, salt: seq<byte>, iv: seq<byte>)
    requires Sound(e)
    requires |salt| == SALT_SIZE && |iv| == IV_SIZE
    requires Encrypt(e, plain, password, Some(salt), Some(iv)).IsSuccess()
    ensures |Encrypt(e, plain, password, Some(salt), Some(iv)).value|
         == ENCRYPTION_OVERHEAD + BLOCK_SIZE * (|plain| / BLOCK_SIZE + 1)
    ensures |Encrypt(e, plain, password, Some(salt), Some(iv)).value| >= MIN_SIZE
  {
    EncryptLayout(e, plain, password, salt, iv);
  }

  /** The sizes the length law gives for 1, 15, 16, 17 and 1000 plaintext bytes. */
  lemma EncryptedSizes()
    ensures ENCRYPTION_OVERHEAD == 64 && MIN_SIZE == 80
    ensures ENCRYPTION_OVERHEAD + CipherLength(1) == 80
    ensures ENCRYPTION_OVERHEAD + CipherLength(15) == 80
    ensures ENCRYPTION_OVERHEAD + CipherLength(16) == 96
    ensures ENCRYPTION_OVERHEAD + CipherLength(17) == 96
    ensures ENCRYPTION_OVERHEAD + CipherLength(1000) == 1072
  {
  }

  /** Under the cipher laws, decrypting an encryption with the same password
      gives the plaintext back. */
  lemma DecryptEncrypt(e: Engine, plain: seq<byte>, password: string, salt: seq<byte>, iv: seq<byte>)
    requires Sound(e)
    requires |salt| == SALT_SIZE && |iv| == IV_SIZE
    requires Encrypt(e, plain, password, Some(salt), Some(iv)).IsSuccess()
    ensures Decrypt(e, Encrypt(e, plain, password, Some(salt), Some(iv)).value, password) == Ok(plain)
  {
    var c := Encrypt(e, plain, password, Some(salt), Some(iv)).value;
    EncryptLayout(e, plain, password, salt, iv);
    EncryptLength(e, plain, password, salt, iv);
    FrameOfSlices(c);
    var key := e.deriveKey(password, salt, PBKDF2_ITERATIONS).value;
    assert e.decrypt(key, iv, e.encrypt(key, iv, plain).output) == Ciphered(plain);
  }

  /** Each outcome of a decryption is told apart by its code: `CorruptedPayload`
      exactly for short input, `AuthenticationFailed` exactly for a computed
      tag that differs from the stored one, `DecryptionFailed` for every other
      failure, the padding check after a verified tag included. */
  lemma DecryptErrorCodes(e: Engine, c: seq<byte>, password: string)
    ensures Decrypt(e, c, password).GetErrorCode() == CorruptedPayload <==> |c| < MIN_SIZE
    ensures Decrypt(e, c, password).GetErrorCode() == AuthenticationFailed <==>
      (|c| >= MIN_SIZE
       && e.deriveKey(password, SaltOf(c), PBKDF2_ITERATIONS).Some?
       && e.mac(e.deriveKey(password, SaltOf(c), PBKDF2_ITERATIONS).value,
                SaltOf(c) + IvOf(c) + CiphertextOf(c)).Some?
       && |e.mac(e.deriveKey(password, SaltOf(c), PBKDF2_ITERATIONS).value,
                 SaltOf(c) + IvOf(c) + CiphertextOf(c)).value| == HMAC_SIZE
       && e.mac(e.deriveKey(password, SaltOf(c), PBKDF2_ITERATIONS).value,
                SaltOf(c) + IvOf(c) + CiphertextOf(c)).value != TagOf(c))
    ensures Decrypt(e, c, password).IsError() ==>
      Decrypt(e, c, password).GetErrorCode() in {CorruptedPayload, AuthenticationFailed, DecryptionFailed}
    ensures |c| >= MIN_SIZE && Decrypt(e, c, password).GetErrorMessage() == DecryptStageMessage(Final) ==>
      Decrypt(e, c, password).GetErrorCode() == DecryptionFailed
  {
  }

  /** The messages name the failing step: each stage of either direction has
      its own message, except encryption's update and final calls, which
      share one. */
  lemma StageMessagesDistinct(a: Stage, b: Stage)
    ensures DecryptStageMessage(a) == DecryptStageMessage(b) <==> a == b
    ensures EncryptStageMessage(a) == EncryptStageMessage(b) <==>
      (a == b || (a in {Update, Final} && b in {Update, Final}))
    ensures DecryptStageMessage(a) != "Key derivation failed"
    ensures DecryptStageMessage(a) != "HMAC computation failed"
    ensures DecryptStageMessage(a) != TagMismatchMessage()
  {
  }

  /** A decryption that succeeds has checked the stored tag: it is the MAC,
      under the key derived from the password and the stored salt, of
      everything before it. */
  lemma DecryptAuthenticates(e: Engine, c: seq<byte>, password: string)
    requires Decrypt(e, c, password).IsSuccess()
    ensures |c| >= MIN_SIZE
    ensures e.deriveKey(password, SaltOf(c), PBKDF2_ITERATIONS).Some?
    ensures e.mac(e.deriveKey(password, SaltOf(c), PBKDF2_ITERATIONS).value, c[..|c| - HMAC_SIZE])
         == Some(TagOf(c))
    ensures e.decrypt(e.deriveKey(password, SaltOf(c), PBKDF2_ITERATIONS).value, IvOf(c), CiphertextOf(c))
         == Ciphered(Decrypt(e, c, password).value)
  {
    FrameOfSlices(c);
  }

  /** With binding primitives, an encryption does not decrypt under another
      password: the tag comparison rejects it, unless a primitive failed first. */
  lemma WrongPasswordRejected(e: Engine, plain: seq<byte>, password: string, other: string,
                              salt: seq<byte>, iv: seq<byte>)
    requires Sound(e) && Binding(e)
    requires |salt| == SALT_SIZE && |iv| == IV_SIZE
    requires Encrypt(e, plain, password, Some(salt), Some(iv)).IsSuccess()
    requires other != password
    ensures var r := Decrypt(e, Encrypt(e, plain, password, Some(salt), Some(iv)).value, other);
      r.IsError() && r.GetErrorCode() in {AuthenticationFailed, DecryptionFailed}
    ensures var r := Decrypt(e, Encrypt(e, plain, password, Some(salt), Some(iv)).value, other);
      e.deriveKey(other, salt, PBKDF2_ITERATIONS).Some?
      && e.mac(e.deriveKey(other, salt, PBKDF2_ITERATIONS).value, salt + iv + CiphertextOf(
           Encrypt(e, plain, password, Some(salt), Some(iv)).value)).Some?
      ==> r.GetErrorCode() == AuthenticationFailed || r.GetErrorMessage() == "HMAC computation failed"
  {
    var c := Encrypt(e, plain, password, Some(salt), Some(iv)).value;
    EncryptLayout(e, plain, password, salt, iv);
    EncryptLength(e, plain, password, salt, iv);
    FrameOfSlices(c);
    ForeignKeyRejected(e, c, password, other);
  }

  /** A frame whose tag is the MAC under the key of `password` is rejected
      under any other password: with binding primitives the other key's
      MAC cannot equal the stored tag. */
  lemma ForeignKeyRejected(e: Engine, c: seq<byte>, password: string, other: string)
    requires Binding(e) && |c| >= MIN_SIZE && other != password
    requires e.deriveKey(password, SaltOf(c), PBKDF2_ITERATIONS).Some?
    requires e.mac(e.deriveKey(password, SaltOf(c), PBKDF2_ITERATIONS).value, c[..|c| - HMAC_SIZE])
          == Some(TagOf(c))
    ensures Decrypt(e, c, other).IsError()
    ensures Decrypt(e, c, other).GetErrorCode() in {AuthenticationFailed, DecryptionFailed}
    ensures e.deriveKey(other, SaltOf(c), PBKDF2_ITERATIONS).Some?
            && e.mac(e.deriveKey(other, SaltOf(c), PBKDF2_ITERATIONS).value, c[..|c| - HMAC_SIZE]).Some?
            ==> Decrypt(e, c, other).GetErrorCode() == AuthenticationFailed
                || Decrypt(e, c, other).GetErrorMessage() == "HMAC computation failed"
  {
    FrameOfSlices(c);
    var k2 := e.deriveKey(other, SaltOf(c), PBKDF2_ITERATIONS);
    if k2.Some? {
      var key := e.deriveKey(password, SaltOf(c), PBKDF2_ITERATIONS).value;
      assert k2.value != key;
      var d := c[..|c| - HMAC_SIZE];
      if e.mac(k2.value, d).Some? {
        assert e.mac(k2.value, d) != e.mac(key, d);
      }
    }
  }
}
