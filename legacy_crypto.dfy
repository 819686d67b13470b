/** The earlier, unauthenticated encryption: the frame is `salt ‖ iv ‖ ct`
    with no tag, failures are reported as `false`, and the output parameter
    is written only when every step has succeeded.  A C++ reference
    parameter is modelled as an input together with the value it holds on
    return. */
module LegacyCryptoModule {
  import opened Errors
  import opened Frame
  import opened CryptoModule

  /** The iteration count both directions pass to PBKDF2. */
  const ITERATIONS: nat := 10000

  /** Salt and IV, the fixed head of a frame and the shortest accepted input. */
  const HEAD_SIZE: nat := SALT_SIZE + IV_SIZE

  /** What an encryption yields, `None` standing for `false`.  The steps run
      in the order salt draw, key derivation, IV draw, cipher. */
  function Encrypt(e: Engine, plain: seq<byte>, password: string,
                   saltDraw: Option<seq<byte>>, ivDraw: Option<seq<byte>>): Option<seq<byte>>
    requires saltDraw.Some? ==> |saltDraw.value| == SALT_SIZE
    requires ivDraw.Some? ==> |ivDraw.value| == IV_SIZE
  {
    if saltDraw.None? then None
    else
      var key := e.deriveKey(password, saltDraw.value, ITERATIONS);
      if key.None? || ivDraw.None? then None
      else
        match e.encrypt(key.value, ivDraw.value, plain)
        case CipherFailed(_) => None
        case Ciphered(ct) => Some(saltDraw.value + ivDraw.value + ct)
  }

  /** What a decryption yields. */
  function Decrypt(e: Engine, c: seq<byte>, password: string): Option<seq<byte>>
  {
    if |c| < HEAD_SIZE then None
    else
      var key := e.deriveKey(password, c[..SALT_SIZE], ITERATIONS);
      if key.None? then None
      else
        match e.decrypt(key.value, c[SALT_SIZE .. HEAD_SIZE], c[HEAD_SIZE..])
        case CipherFailed(_) => None
        case Ciphered(p) => Some(p)
  }

  /** Encrypts `plainData`; `encryptedData` is the caller's vector, returned
      as `encryptedOut`: untouched on failure, replaced by the frame on success. */
  method EncryptData(e: Engine, plainData: seq<byte>, password: string,
                     saltDraw: Option<seq<byte>>, ivDraw: Option<seq<byte>>, encryptedData: seq<byte>)
    returns (ok: bool, encryptedOut: seq<byte>, trace: seq<Call>)
    requires saltDraw.Some? ==> |saltDraw.value| == SALT_SIZE
    requires ivDraw.Some? ==> |ivDraw.value| == IV_SIZE
    ensures ok <==> Encrypt(e, plainData, password, saltDraw, ivDraw).Some?
    ensures ok ==> encryptedOut == Encrypt(e, plainData, password, saltDraw, ivDraw).value
    ensures !ok ==> encryptedOut == encryptedData
    ensures saltDraw.None? ==> trace == [RandomBytes(SALT_SIZE)]
    ensures saltDraw.Some? ==>
      |trace| >= 2 && trace[0] == RandomBytes(SALT_SIZE)
      && trace[1] == DeriveKey(password, saltDraw.value, ITERATIONS)
    ensures saltDraw.Some? && e.deriveKey(password, saltDraw.value, ITERATIONS).None? ==> |trace| == 2
  {
    encryptedOut := encryptedData;
    trace := [RandomBytes(SALT_SIZE)];
    if saltDraw.None? {
      return false, encryptedOut, trace;
    }
    var salt := saltDraw.value;

    trace := trace + [DeriveKey(password, salt, ITERATIONS)];
    var key := e.deriveKey(password, salt, ITERATIONS);
    if key.None? {
      return false, encryptedOut, trace;
    }

    trace := trace + [RandomBytes(IV_SIZE)];
    if ivDraw.None? {
      return false, encryptedOut, trace;
    }
    var iv := ivDraw.value;

    trace := trace + [Encipher(key.value, iv)];
    var outcome := e.encrypt(key.value, iv, plainData);
    if outcome.CipherFailed? {
      return false, encryptedOut, trace;
    }

    encryptedOut := [];
    encryptedOut := encryptedOut + salt;
    encryptedOut := encryptedOut + iv;
    encryptedOut := encryptedOut + outcome.output;
    assert encryptedOut == salt + iv + outcome.output;
    return true, encryptedOut, trace;
  }

  /** Decrypts `encryptedData`; `plainData` is the caller's vector, returned
      as `plainOut`: untouched on failure, replaced by the plaintext on success. */
  method DecryptData(e: Engine, encryptedData: seq<byte>, password: string, plainData: seq<byte>)
    returns (ok: bool, plainOut: seq<byte>, trace: seq<Call>)
    ensures ok <==> Decrypt(e, encryptedData, password).Some?
    ensures ok ==> plainOut == Decrypt(e, encryptedData, password).value
    ensures !ok ==> plainOut == plainData
    ensures |encryptedData| < HEAD_SIZE ==> trace == []
    ensures |encryptedData| >= HEAD_SIZE ==>
      |trace| >= 1 && trace[0] == DeriveKey(password, encryptedData[..SALT_SIZE], ITERATIONS)
  {
    plainOut := plainData;
    trace := [];
    if |encryptedData| < HEAD_SIZE {
      return false, plainOut, trace;
    }

    var salt := encryptedData[..SALT_SIZE];
    var iv := encryptedData[SALT_SIZE .. SALT_SIZE + IV_SIZE];
    var ciphertext := encryptedData[SALT_SIZE + IV_SIZE ..];

    trace := trace + [DeriveKey(password, salt, ITERATIONS)];
    var key := e.deriveKey(password, salt, ITERATIONS);
    if key.None? {
      return false, plainOut, trace;
    }

    trace := trace + [Decipher(key.value, iv)];
    var outcome := e.decrypt(key.value, iv, ciphertext);
    if outcome.CipherFailed? {
      return false, plainOut, trace;
    }
    plainOut := outcome.output;
    return true, plainOut, trace;
  }

  /** The frame is `salt ‖ iv ‖ ct`, in that order and with no tag: slicing
      it at 16 and 32 gives the fields back. */
  lemma EncryptLayout(e: Engine, plain: seq<byte>, password: string, salt: seq<byte>, iv: seq<byte>)
    requires |salt| == SALT_SIZE && |iv| == IV_SIZE
    requires Encrypt(e, plain, password, Some(salt), Some(iv)).Some?
    ensures var c := Encrypt(e, plain, password, Some(salt), Some(iv)).value;
      var key := e.deriveKey(password, salt, ITERATIONS);
      |c| >= HEAD_SIZE && key.Some?
      && c[..SALT_SIZE] == salt && c[SALT_SIZE .. HEAD_SIZE] == iv
      && e.encrypt(key.value, iv, plain) == Ciphered(c[HEAD_SIZE..])
  {
    var c := Encrypt(e, plain, password, Some(salt), Some(iv)).value;
    var key := e.deriveKey(password, salt, ITERATIONS).value;
    var ct := e.encrypt(key, iv, plain).output;
    assert c == salt + iv + ct;
    assert c[..SALT_SIZE] == salt;
    assert c[SALT_SIZE .. HEAD_SIZE] == iv;
    assert c[HEAD_SIZE..] == ct;
  }

  /** Under the cipher laws, an encryption is `32 + 16 * (n / 16 + 1)` bytes
      long and decrypts with the same password to the plaintext, empty
      plaintexts included. */
  lemma DecryptEncrypt(e: Engine, plain: seq<byte>, password: string, salt: seq<byte>, iv: seq<byte>)
    requires Sound(e)
    requires |salt| == SALT_SIZE && |iv| == IV_SIZE
    requires Encrypt(e, plain, password, Some(salt), Some(iv)).Some?
    ensures |Encrypt(e, plain, password, Some(salt), Some(iv)).value| == HEAD_SIZE + CipherLength(|plain|)
    ensures Decrypt(e, Encrypt(e, plain, password, Some(salt), Some(iv)).value, password) == Some(plain)
  {
    EncryptLayout(e, plain, password, salt, iv);
    var key := e.deriveKey(password, salt, ITERATIONS).value;
    assert e.decrypt(key, iv, e.encrypt(key, iv, plain).output) == Ciphered(plain);
  }
}
