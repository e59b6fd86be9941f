/** The two paths the application runs: the key field is normalised, the message is encrypted
    and the blob embedded ("Embed Message"); later the same key field is normalised, the blob
    extracted from the image and decrypted ("Extract Message"). */
module Pipeline {
  import opened Wrappers
  import opened Bits
  import opened Stego
  import opened Cipher
  import opened KeyInput

  /** The text comes back from the image when the key field is the same on both paths, the
      blob fits the image, and the blob avoids the two sentinel collisions. */
  lemma FullRoundTrip(c: BlockCipher, text: TextCoding, message: string, keyInput: string,
                      iv: seq<byte>, image: seq<byte>)
    requires IsCbc(c) && |iv| == BlockSize
    requires text.decode(text.encode(message)) == Some(message)
    requires NormaliseKey(keyInput, text.encode).Success?
    requires var key := NormaliseKey(keyInput, text.encode).value;
      var blob := EncryptMessage(c, text, message, key, iv).value;
      Fits(|image|, |blob|) && NoOnesRun(BitsOf(blob)) && !EndsInFF(blob)
    ensures var key := NormaliseKey(keyInput, text.encode).value;
      var blob := EncryptMessage(c, text, message, key, iv).value;
      DecryptMessage(c, text, Extracted(Embedded(image, Stream(blob))), key) == Success(message)
  {
    var key := NormaliseKey(keyInput, text.encode).value;
    var blob := EncryptMessage(c, text, message, key, iv).value;
    RoundTripExact(image, blob);
    CipherRoundTrip(c, text, message, key, iv);
  }

  /** A two-byte message gives a 32-byte blob: one IV and one padded block. A 4 by 4 RGB image
      (48 channel bytes) fails the capacity check, and a 64 by 64 one has room for it. */
  lemma TwoByteMessage(c: BlockCipher, text: TextCoding, message: string, key: seq<byte>, iv: seq<byte>)
    requires IsCbc(c) && |iv| == BlockSize && |key| == KeyLength
    requires |text.encode(message)| == 2
    ensures var blob := EncryptMessage(c, text, message, key, iv).value;
      |blob| == 32 && !CheckPasses(4 * 4 * 3, |blob|) && Fits(64 * 64 * 3, |blob|)
  {
    BlobLength(c, text, message, key, iv);
  }
}
