/**
 * The encryption envelope of src/usecase/crypto/crypto.go: GUID(16) ++ salt(32) ++ nonce(12)
 * ++ sealed data. Argon2id (RFC 9106) and AES-256-GCM (NIST SP 800-38D) are uninterpreted
 * functions, and the random salt and nonce are parameters.
 */
module Crypto {
  import opened Wrappers
  import opened Bytes

  datatype CryptoError =
    | InvalidData          // ErrInvalidData: shorter than the fixed header
    | UnknownFormat        // ErrUnknownFormat: the header is not GUID
    | RandomSourceFailed   // crypto/rand could not fill the salt or the nonce
    | AuthenticationFailed // AES-GCM refused the ciphertext

  /** Version 1 format identifier: AES-256-GCM with an Argon2id key. */
  const GUID: seq<byte> := [
    0x01, 0x00, 0x00, 0x00,
    0xAE, 0x5C, 0xBC, 0x00,
    0xA2, 0x9D, 0x1D, 0x00,
    0x00, 0x00, 0x00, 0x01 ]

  const GUID_SIZE: nat := 16
  const SALT_SIZE: nat := 32
  const NONCE_SIZE: nat := 12

  /** The fixed header: GUID, salt and nonce. */
  const MIN_DATA_SIZE: nat := GUID_SIZE + SALT_SIZE + NONCE_SIZE

  /**
   * The foreign primitives: the key derivation from password and salt, and AES-GCM sealing
   * and opening under a key and nonce.
   */
  datatype Primitives = Primitives(
    kdf: (string, seq<byte>) -> seq<byte>,
    seal: (seq<byte>, seq<byte>, seq<byte>) -> seq<byte>,
    open: (seq<byte>, seq<byte>, seq<byte>) -> Option<seq<byte>>)

  /** The AEAD contract: opening with the sealing key and nonce recovers the message. */
  ghost predicate OpensSealed(p: Primitives) {
    forall key, nonce, msg :: p.open(key, nonce, p.seal(key, nonce, msg)) == Some(msg)
  }

  /** The authentication contract: a ciphertext sealed under one key does not open under another. */
  ghost predicate RejectsForeignKey(p: Primitives) {
    forall k1, k2, nonce, msg :: k1 != k2 ==> p.open(k2, nonce, p.seal(k1, nonce, msg)).None?
  }

  /** ValidateEncryptedData: the length is checked first, then every byte of the GUID. */
  function Validate(data: seq<byte>): (r: Outcome<CryptoError>)
    ensures r == Fail(InvalidData) <==> |data| < MIN_DATA_SIZE
    ensures r == Fail(UnknownFormat) <==>
      |data| >= MIN_DATA_SIZE && exists i :: 0 <= i < GUID_SIZE && data[i] != GUID[i]
    ensures r == Pass <==> |data| >= MIN_DATA_SIZE && data[..GUID_SIZE] == GUID
  {
    if |data| < MIN_DATA_SIZE then Fail(InvalidData)
    else if data[..GUID_SIZE] != GUID then
      assert exists i :: 0 <= i < GUID_SIZE && data[i] != GUID[i];
      Fail(UnknownFormat)
    else Pass
  }

  /** The salt field of a header, bytes [16, 48). */
  function Salt(data: seq<byte>): (s: seq<byte>)
    requires |data| >= MIN_DATA_SIZE
    ensures |s| == SALT_SIZE
  {
    data[GUID_SIZE..GUID_SIZE + SALT_SIZE]
  }

  /** The nonce field of a header, bytes [48, 60). */
  function Nonce(data: seq<byte>): (n: seq<byte>)
    requires |data| >= MIN_DATA_SIZE
    ensures |n| == NONCE_SIZE
  {
    data[GUID_SIZE + SALT_SIZE..MIN_DATA_SIZE]
  }

  /**
   * Encrypt with the random draws as parameters: None stands for a failed read of the random
   * source, Some for the bytes it gave, exactly as many as were asked for.
   */
  function Encrypt(p: Primitives, password: string, plain: seq<byte>,
                   saltDraw: Option<seq<byte>>, nonceDraw: Option<seq<byte>>)
    : (r: Result<seq<byte>, CryptoError>)
    requires saltDraw.Some? ==> |saltDraw.value| == SALT_SIZE
    requires nonceDraw.Some? ==> |nonceDraw.value| == NONCE_SIZE
    ensures r.Failure? <==> saltDraw.None? || nonceDraw.None?
    ensures r.Failure? ==> r.error == RandomSourceFailed
    ensures r.Success? ==>
      var sealed := p.seal(p.kdf(password, saltDraw.value), nonceDraw.value, plain);
      && |r.value| == MIN_DATA_SIZE + |sealed|
      && r.value[..GUID_SIZE] == GUID
      && r.value[MIN_DATA_SIZE..] == sealed
  {
    match (saltDraw, nonceDraw)
    case (Some(salt), Some(nonce)) =>
      var key := p.kdf(password, salt);
      var sealed := p.seal(key, nonce, plain);
      var out := GUID + salt + nonce + sealed;
      assert out[..GUID_SIZE] == GUID;
      assert out[MIN_DATA_SIZE..] == sealed;
      Success(out)
    case _ => Failure(RandomSourceFailed)
  }

  /** Decrypt: validation errors are returned unchanged, before any key is derived. */
  function Decrypt(p: Primitives, password: string, data: seq<byte>): (r: Result<seq<byte>, CryptoError>)
    ensures Validate(data).Fail? ==> r == Failure(Validate(data).error)
    ensures Validate(data).Pass? ==>
      var unsealed := p.open(p.kdf(password, Salt(data)), Nonce(data), data[MIN_DATA_SIZE..]);
      && (r.Success? <==> unsealed.Some?)
      && (r.Success? ==> r.value == unsealed.value)
      && (r.Failure? ==> r.error == AuthenticationFailed)
  {
    match Validate(data)
    case Fail(e) => Failure(e)
    case Pass =>
      var key := p.kdf(password, Salt(data));
      match p.open(key, Nonce(data), data[MIN_DATA_SIZE..])
      case None => Failure(AuthenticationFailed)
      case Some(plain) => Success(plain)
  }

  // ---------------------------------------------------------------------------
  // Properties.

  /** The header size is 16 + 32 + 12 bytes, and the GUID has 16 bytes. */
  lemma HeaderSizes()
    ensures MIN_DATA_SIZE == 60 && |GUID| == GUID_SIZE
  {
  }

  /** An Encrypt output validates, and its header fields hold exactly the salt and nonce drawn. */
  lemma EncryptLayout(p: Primitives, password: string, plain: seq<byte>, salt: seq<byte>, nonce: seq<byte>)
    requires |salt| == SALT_SIZE && |nonce| == NONCE_SIZE
    ensures var r := Encrypt(p, password, plain, Some(salt), Some(nonce));
      && r.Success? && Validate(r.value) == Pass
      && Salt(r.value) == salt && Nonce(r.value) == nonce
  {
    var out := Encrypt(p, password, plain, Some(salt), Some(nonce)).value;
    assert out == GUID + salt + nonce + p.seal(p.kdf(password, salt), nonce, plain);
    assert Salt(out) == salt;
    assert Nonce(out) == nonce;
  }

  /** Decrypting with the password that encrypted gives back the plaintext. */
  lemma DecryptEncrypt(p: Primitives, password: string, plain: seq<byte>, salt: seq<byte>, nonce: seq<byte>)
    requires OpensSealed(p)
    requires |salt| == SALT_SIZE && |nonce| == NONCE_SIZE
    ensures Decrypt(p, password, Encrypt(p, password, plain, Some(salt), Some(nonce)).value) == Success(plain)
  {
    EncryptLayout(p, password, plain, salt, nonce);
  }

  /** With a password whose derived key differs, decryption fails and yields no plaintext. */
  lemma DecryptWrongPassword(p: Primitives, password: string, wrong: string, plain: seq<byte>,
                             salt: seq<byte>, nonce: seq<byte>)
    requires RejectsForeignKey(p)
    requires |salt| == SALT_SIZE && |nonce| == NONCE_SIZE
    requires p.kdf(password, salt) != p.kdf(wrong, salt)
    ensures Decrypt(p, wrong, Encrypt(p, password, plain, Some(salt), Some(nonce)).value) == Failure(AuthenticationFailed)
  {
    EncryptLayout(p, password, plain, salt, nonce);
  }
}
