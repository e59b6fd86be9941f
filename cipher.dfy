/** The cipher layer of `encrypt_message` and `decrypt_message`: PKCS#7 padding to 16-byte
    blocks (section 6.3 of RFC 5652), AES in CBC mode under a caller-supplied IV, and the wire
    format `IV || ciphertext`. The block cipher and the text encoding are library code; they
    are taken as parameters, with the properties the layer relies on stated as predicates. */
module Cipher {
  import opened Wrappers
  import opened Bits

  /** The AES block size in bytes, which is also the PKCS#7 block (`PKCS7(128)`) and the IV. */
  const BlockSize: nat := 16

  datatype CipherError =
    | InvalidKeySize   // AES accepts 128-, 192- and 256-bit keys in CBC mode
    | InvalidIvSize    // the IV is not one block long
    | NotBlockAligned  // the ciphertext is not a whole number of blocks
    | InvalidPadding   // the unpadder rejects the decrypted bytes
    | InvalidText      // the unpadded bytes do not decode as text

  /** AES-CBC: `encrypt(key, iv, data)` and `decrypt(key, iv, data)`. */
  datatype BlockCipher = BlockCipher(
    encrypt: (seq<byte>, seq<byte>, seq<byte>) -> seq<byte>,
    decrypt: (seq<byte>, seq<byte>, seq<byte>) -> seq<byte>)

  /** What CBC mode guarantees on whole blocks: both directions keep the length, and
      decryption under the same key and IV undoes encryption. */
  ghost predicate IsCbc(c: BlockCipher)
  {
    && (forall key, iv, data :: |data| % BlockSize == 0 ==>
         |c.encrypt(key, iv, data)| == |data| && c.decrypt(key, iv, c.encrypt(key, iv, data)) == data)
    && (forall key, iv, data :: |data| % BlockSize == 0 ==> |c.decrypt(key, iv, data)| == |data|)
  }

  /** `str.encode()` and `bytes.decode()`, the second failing on bytes that are not text. */
  datatype TextCoding = TextCoding(encode: string -> seq<byte>, decode: seq<byte> -> Option<string>)

  /** Key lengths the AES implementation accepts in CBC mode. */
  predicate ValidKeySize(key: seq<byte>)
  {
    |key| == 16 || |key| == 24 || |key| == 32
  }

  // ---------------------------------------------------------------------------------------
  // PKCS#7 padding

  /** The PKCS#7 padder: append `k` bytes of value `k`, where `k` (1 to 16) brings the length
      to the next multiple of the block size. */
  function Pad(m: seq<byte>): (r: seq<byte>)
    ensures |r| % BlockSize == 0 && |r| == BlockSize * (|m| / BlockSize + 1)
    ensures r[..|m|] == m
    ensures 1 <= |r| - |m| <= BlockSize
    ensures forall i :: |m| <= i < |r| ==> r[i] == |r| - |m|
  {
    var k := BlockSize - |m| % BlockSize;
    m + seq(k, _ => k)
  }

  /** The PKCS#7 unpadder: the data must be a non-empty whole number of blocks whose last byte
      `k` is between 1 and 16, and whose last `k` bytes all equal `k`; those bytes are dropped. */
  function Unpad(d: seq<byte>): (r: Result<seq<byte>, CipherError>)
    ensures r.Success? ==> Pad(r.value) == d
    ensures r.Failure? ==> r.error == InvalidPadding
  {
    if |d| == 0 || |d| % BlockSize != 0 then Failure(InvalidPadding)
    else
      var k := d[|d| - 1];
      if k == 0 || k > BlockSize then Failure(InvalidPadding)
      else if exists i :: |d| - k <= i < |d| && d[i] != k then Failure(InvalidPadding)
      else
        var m := d[..|d| - k];
        assert Pad(m) == d by {
          assert |m| % BlockSize == BlockSize - k;
        }
        Success(m)
  }

  /** Unpadding undoes padding. */
  lemma UnpadPad(m: seq<byte>)
    ensures Unpad(Pad(m)) == Success(m)
  {
    var d := Pad(m);
    var k := d[|d| - 1];
    assert k == |d| - |m|;
    assert d[..|d| - k] == m;
  }

  /** Unpadding succeeds on exactly the padded messages: `Unpad(d) == Success(m)` holds if and
      only if `d == Pad(m)`. */
  lemma UnpadExact(d: seq<byte>, m: seq<byte>)
    ensures Unpad(d) == Success(m) <==> d == Pad(m)
  {
    if d == Pad(m) {
      UnpadPad(m);
    }
  }

  // ---------------------------------------------------------------------------------------
  // Framing

  /** `iv + ciphertext`. */
  function Frame(iv: seq<byte>, ciphertext: seq<byte>): (r: seq<byte>)
    ensures |r| == |iv| + |ciphertext|
    ensures r[..|iv|] == iv && r[|iv|..] == ciphertext
  {
    iv + ciphertext
  }

  /** `(blob[:16], blob[16:])`, with Python's clipping of slices past the end. */
  function Split(blob: seq<byte>): (r: (seq<byte>, seq<byte>))
    ensures Frame(r.0, r.1) == blob
    ensures |r.0| == if |blob| < BlockSize then |blob| else BlockSize
  {
    if |blob| < BlockSize then (blob, []) else (blob[..BlockSize], blob[BlockSize..])
  }

  /** Splitting at the block size inverts the framing. */
  lemma SplitFrame(iv: seq<byte>, ciphertext: seq<byte>)
    requires |iv| == BlockSize
    ensures Split(Frame(iv, ciphertext)) == (iv, ciphertext)
  {
    assert Frame(iv, ciphertext)[..BlockSize] == iv;
    assert Frame(iv, ciphertext)[BlockSize..] == ciphertext;
  }

  // ---------------------------------------------------------------------------------------
  // Encryption and decryption

  /** `encrypt_message(message, key)` with the IV that `os.urandom(16)` returned. */
  function EncryptMessage(c: BlockCipher, text: TextCoding, message: string, key: seq<byte>, iv: seq<byte>)
    : (r: Result<seq<byte>, CipherError>)
    requires |iv| == BlockSize
    ensures r.Success? <==> ValidKeySize(key)
    ensures r.Failure? ==> r.error == InvalidKeySize
    ensures r.Success? ==> Split(r.value).0 == iv
  {
    if !ValidKeySize(key) then Failure(InvalidKeySize)
    else
      var blob := Frame(iv, c.encrypt(key, iv, Pad(text.encode(message))));
      SplitFrame(iv, c.encrypt(key, iv, Pad(text.encode(message))));
      Success(blob)
  }

  /** The blob of an `m`-byte message is one IV and `m / 16 + 1` whole blocks long. */
  lemma BlobLength(c: BlockCipher, text: TextCoding, message: string, key: seq<byte>, iv: seq<byte>)
    requires IsCbc(c) && |iv| == BlockSize && ValidKeySize(key)
    ensures |EncryptMessage(c, text, message, key, iv).value|
      == BlockSize + BlockSize * (|text.encode(message)| / BlockSize + 1)
  {
    var padded := Pad(text.encode(message));
    assert |c.encrypt(key, iv, padded)| == |padded|;
  }

  /** `decrypt_message(blob, key)`: split off the IV, decrypt, unpad and decode. The errors come
      in the order the library raises them. */
  function DecryptMessage(c: BlockCipher, text: TextCoding, blob: seq<byte>, key: seq<byte>)
    : (r: Result<string, CipherError>)
    ensures r.Success? ==> ValidKeySize(key)
    ensures IsCbc(c) && r.Success? ==> |blob| >= 2 * BlockSize && |blob| % BlockSize == 0
  {
    var (iv, ciphertext) := Split(blob);
    if !ValidKeySize(key) then Failure(InvalidKeySize)
    else if |iv| != BlockSize then Failure(InvalidIvSize)
    else if |ciphertext| % BlockSize != 0 then Failure(NotBlockAligned)
    else
      match Unpad(c.decrypt(key, iv, ciphertext))
      case Failure(e) => Failure(e)
      case Success(m) =>
        match text.decode(m)
        case None => Failure(InvalidText)
        case Some(s) => Success(s)
  }

  /** Decryption under the same key inverts encryption, whatever the IV. */
  lemma CipherRoundTrip(c: BlockCipher, text: TextCoding, message: string, key: seq<byte>, iv: seq<byte>)
    requires IsCbc(c) && |iv| == BlockSize && ValidKeySize(key)
    requires text.decode(text.encode(message)) == Some(message)
    ensures DecryptMessage(c, text, EncryptMessage(c, text, message, key, iv).value, key) == Success(message)
  {
    var padded := Pad(text.encode(message));
    var ciphertext := c.encrypt(key, iv, padded);
    assert |ciphertext| == |padded|;
    SplitFrame(iv, ciphertext);
    UnpadPad(text.encode(message));
  }
}
