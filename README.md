# LSB steganography with an encrypted payload: a verified model

This project models the core of a small tool that hides an encrypted message in the
least-significant bits of an image's channel bytes, and gets it back given the key.

- **Codec** (`stego.dfy`, module `Stego`). `embed_message` treats the image as the flat
  sequence of its RGB channel bytes. It checks the capacity, serialises the payload most
  significant bit first, appends sixteen 1-bits, and overwrites bit 0 of successive bytes of a
  copy of the image. `extract_message` collects bit 0 of successive bytes until the last
  sixteen collected are all 1, or the image ends. Say it read `L` bits. It then regroups them
  into eight-bit groups starting at bits 0, 8, 16, … below `L - 16`, so the last group may
  reach into the final sixteen bits. The write
  loop is a method over an `array` copy of the image. The read loop is a method with a
  `while` loop and an early `break`. The serialisation and the regrouping are functions.
- **Bits** (`bits.dfy`). `format(byte, '08b')` and `int(s, 2)` as functions, with both
  round trips proved.
- **Cipher layer** (`cipher.dfy`). PKCS#7 padding to 16-byte blocks (section 6.3 of RFC 5652)
  and the unpadder's checks, modelled concretely. The wire format is `IV || ciphertext`, split
  again at byte 16. `EncryptMessage` takes the IV as a parameter, where `encrypt_message` draws it from `os.urandom(16)`. `decrypt_message` splits
  it off the front of the blob. Both raise their errors in the order the library raises them. AES-CBC and the text encoding are
  function-valued parameters (`BlockCipher`, `TextCoding`). `IsCbc` states what CBC mode
  guarantees: whole blocks keep their length, and decryption undoes encryption.
- **Key input** (`keyinput.dfy`). The rule that `embed` and `extract` each apply to the key
  field, written once as `NormaliseKey`. A 64-character hexadecimal string is decoded pairwise
  to 32 bytes. Anything else is taken as its encoded bytes, which must be exactly 32 long. The
  module also models `bytes.hex()`, which displays a generated key.
- **Pipeline** (`pipeline.dfy`). The end-to-end round trip: normalise the key, encrypt, embed,
  extract, decrypt.

Bytes are integers in 0..255. The source's `(b & 0xFE) | bit` is written `b - b % 2 + bit`,
and `b & 1` is written `b % 2`. The contract of `Stego.SetLow` states what the mask does:
bit 0 of the result is `bit`, and bits 7..1 (`r / 2`) are those of `b`.

The central result is `Stego.RoundTripExact`. Suppose the payload's bits and the terminator fit
in the image. Then extraction returns the whole payload if and only if two things hold: the
payload's bit string contains no run of sixteen 1-bits, and its last byte is not `0xFF`.
In every case the result is a prefix of the payload (`Stego.ExtractedPrefix`). A payload that
ends in `0xFF`, and whose bits hold no run of sixteen 1s, loses exactly its last byte
(`Stego.TrailingFFDropped`).

## Model

| member | source | states |
|---|---|---|
| `Bits.ToBits` | app.py:42 | `format(v, '0wb')` yields exactly `w` bits |
| `Bits.FromBits` | app.py:61 | `int(s, 2)` of an `n`-bit string is below `2^n`, so eight bits make a byte |
| `Bits.FromBitsToBits` | app.py:42-61 | reading back the `w` bits of any `v < 2^w` gives `v` |
| `Bits.ToBitsFromBits` | app.py:42-61 | writing out the value of a bit string at its own width gives the same bits |
| `Bits.ByteOfByteBits` | app.py:42-61 | regrouping a byte's eight serialised bits gives the byte back |
| `Bits.ByteBitsByteOf` | app.py:42-61 | serialising the byte value of any eight bits gives those bits back |
| `Bits.AllOnesByte` | app.py:42-61 | eight bits are worth `0xFF` if and only if every one of them is 1 |
| `Bits.ByteBits` | app.py:42 | `format(b, '08b')` has eight bits, and the last is bit 0 of `b` |
| `Bits.ByteOf` | app.py:61 | `int(s, 2)` of eight bits is a byte whose bit 0 is the last bit |
| `Bits.BitsOf` | app.py:42 | the payload's bit string has eight bits per payload byte |
| `Bits.BitsOfGroup` | app.py:42 | bits `8j` to `8j+8` of the bit string are byte `j`'s eight bits, most significant first |
| `Stego.SetLow` | app.py:46 | clearing bit 0 of `b` with `0xFE` and or-ing in `bit` makes bit 0 equal to `bit` and keeps bits 7..1 of `b` |
| `Stego.LowBit` | app.py:58 | `b & 1` is the bit that, written back with `SetLow`, leaves `b` unchanged |
| `Stego.Stream` | app.py:42-43 | the stream is `8n + 16` bits: the payload's bits, then sixteen 1s |
| `Stego.CheckPasses` | app.py:38-41 | the check `n <= size // 8` passes exactly when the payload's `8n` bits fit, ignoring the terminator |
| `Stego.Capacity` | app.py:38-41 | for `size >= 16`, `Capacity(size)` is the largest `n` with `8n + 16 <= size`; it is 0 below 16 |
| `Stego.Embedded` | app.py:44-46 | the embedded image has the same length, its first low bits are the stream, and every byte after the stream is unchanged |
| `Stego.CheckAdmitsOverflow` | app.py:38-41 | the check `n <= size // 8` admits a payload of `size // 8` bytes, which never fits; for `size >= 16` it admits exactly the payloads of up to two bytes more than fit |
| `Stego.CapacityExact` | app.py:38-46 | a payload fits (`8n + 16 <= size`) if and only if `size >= 16` and `n <= (size - 16) / 8` |
| `Stego.EmbedMessage` | app.py:38-46 | fails with `CapacityExceeded` when `n > size // 8`; fails with `IndexOutOfRange` when the check passes but `8n + 16 > size`; otherwise keeps the length, gives byte `i < 8n + 16` the same bits 7..1 and bit 0 equal to stream bit `i`, and leaves every later byte unchanged |
| `Stego.Last16` | app.py:59 | `s[-16:]` is the last sixteen elements of `s`, or all of `s` when it is shorter |
| `Stego.Last16Terminator` | app.py:59 | `binary_message[-16:] == '1' * 16` holds exactly when at least sixteen bits were read and the last sixteen are all 1 |
| `Stego.StopFrom` | app.py:56-60 | scanning from `k`, the stop point is the first `L >= k` whose last sixteen bits are all 1, or the end of the bits |
| `Stego.StopPoint` | app.py:56-60 | extraction reads up to the smallest `L >= 16` whose last sixteen bits are all 1, or all bits when there is none |
| `Stego.GroupCount` | app.py:61 | `len(range(0, L - 16, 8))` is 0 for `L <= 16`, and otherwise the least `r` with `8r >= L - 16` |
| `Stego.Regroup` | app.py:61 | regrouping `L` bits gives the ceiling of `(L - 16) / 8` bytes (none when `L <= 16`); byte `j` is the value of bits `8j` to `8j+8`, which always lie within the bits read |
| `Stego.Extracted` | app.py:55-62 | extraction gives `GroupCount(L)` bytes for the stop point `L`, byte `j` being the value of the low bits of channel bytes `8j` to `8j+8` |
| `Stego.ExtractMessage` | app.py:55-62 | the extracted blob has `GroupCount(L)` bytes for the stop point `L`, and byte `j` is the value of the low bits of channel bytes `8j` to `8j+8` |
| `Stego.EmbeddedLowBits` | app.py:42-46 | the low bits of an embedded image start with the payload's bits followed by the terminator |
| `Stego.WindowInPayload` | app.py:42-59 | inside the payload's bits, sixteen 1s in the image's low bits are sixteen 1s in the payload |
| `Stego.TerminatorInLowBits` | app.py:43-46 | the sixteen low bits after the payload's bits in an embedded image are all 1 |
| `Stego.StopWithinStream` | app.py:43-60 | the terminator stops extraction at the latest where it ends, after `8n + 16` bits |
| `Stego.StopPastPayload` | app.py:56-60 | with no run of sixteen 1s in the payload, extraction reads more than its `8n` bits |
| `Stego.WindowAfterPayload` | app.py:43-60 | sixteen 1s ending within eight bits after the payload force the last byte to be `0xFF` |
| `Stego.StopPastLastByte` | app.py:43-60 | with no run in the payload and a last byte other than `0xFF`, extraction reads more than `8n + 8` bits |
| `Stego.StopAtFF` | app.py:43-60 | a payload ending in `0xFF` stops extraction by bit `8n + 8` |
| `Stego.GroupInStream` | app.py:42-61 | in an embedded image, group `j` of the low bits is worth payload byte `j` |
| `Stego.RegroupStream` | app.py:42-61 | regrouping low bits that stop within the stream yields the first `GroupCount(L)` payload bytes |
| `Stego.ExtractedPrefix` | app.py:42-61 | from a fitting embed, extraction always returns a prefix of the payload, of length `GroupCount(L)` |
| `Stego.StopInTerminator` | app.py:43-61 | with no run of sixteen 1s and no final `0xFF`, extraction stops inside the last eight terminator bits and regroups exactly the payload's bytes |
| `Stego.RoundTrip` | app.py:42-61 | a fitting payload whose bits hold no run of sixteen 1s and that does not end in `0xFF` is extracted whole |
| `Stego.RoundTripExact` | app.py:42-61 | for a payload that fits, extraction returns it whole if and only if its bits hold no run of sixteen 1s and it does not end in `0xFF` |
| `Stego.TrailingFFDropped` | app.py:42-61 | a payload that ends in `0xFF`, with no run of sixteen 1s, comes back without its last byte |
| `Stego.EarlySentinel` | app.py:56-61 | a run of sixteen 1s ending at payload bit `k` truncates the result to a prefix of at most `GroupCount(k)` bytes, fewer than the payload |
| `Stego.NoTerminatorReadsAll` | app.py:56-61 | with no sixteen 1s anywhere, the whole image is read and regrouped, and no error is raised |
| `Cipher.Pad` | app.py:18-19 | PKCS#7 appends 1 to 16 bytes, each equal to the pad length, keeps the message as a prefix, and gives length `16 * (m / 16 + 1)` |
| `Cipher.Unpad` | app.py:30-31 | whenever the unpadder accepts `d`, padding its result gives `d` back; every rejection is `InvalidPadding` |
| `Cipher.UnpadPad` | app.py:18-31 | unpadding undoes padding |
| `Cipher.UnpadExact` | app.py:18-31 | `Unpad(d) == Success(m)` if and only if `d == Pad(m)` |
| `Cipher.Frame` | app.py:21 | `iv + ciphertext` has the IV as its first bytes and the ciphertext as the rest |
| `Cipher.Split` | app.py:25-26 | `blob[:16]` and `blob[16:]` concatenate back to the blob; the IV part is 16 bytes unless the blob is shorter |
| `Cipher.SplitFrame` | app.py:21-26 | splitting `iv + ciphertext` at 16 gives back the IV and the ciphertext |
| `Cipher.EncryptMessage` | app.py:13-21 | encryption succeeds exactly for 16-, 24- and 32-byte keys, and the blob starts with the IV |
| `Cipher.BlobLength` | app.py:15-21 | the blob of an `m`-byte encoded message is `16 + 16 * (m / 16 + 1)` bytes long |
| `Cipher.DecryptMessage` | app.py:23-32 | decryption fails for an unusable key; for a CBC cipher it fails for any blob shorter than two blocks or not a whole number of blocks |
| `Cipher.CipherRoundTrip` | app.py:13-32 | decrypting the blob under the same key gives the message back, for any IV |
| `KeyInput.HexValue` | app.py:137-138 | a hexadecimal digit has a value below 16 |
| `KeyInput.HexValueDigit` | app.py:137-138 | every digit, upper or lower case, has the value of the lower-case digit `bytes.hex()` writes for it, so `A`..`F` read as `a`..`f` |
| `KeyInput.HexDigit` | app.py:114 | the digit written for a value below 16 is a hexadecimal digit that reads back as that value |
| `KeyInput.FromHex` | app.py:138 | `bytes.fromhex` gives one byte per digit pair, worth 16 times the first digit plus the second |
| `KeyInput.ToHex` | app.py:114 | `bytes.hex()` writes two hexadecimal digits per byte |
| `KeyInput.FromHexToHex` | app.py:114-138 | reading a key's hexadecimal rendering back gives the key |
| `KeyInput.IsHexKey` | app.py:137 | a string that selects hexadecimal decoding is a sequence of digit pairs that decodes to 32 bytes |
| `KeyInput.NormaliseKey` | app.py:137-143 | a 64-digit hexadecimal string is always decoded pairwise; any other input is accepted if and only if its encoding is 32 bytes, and is then used as is; every accepted key is 32 bytes |
| `KeyInput.DisplayedKeyReadsBack` | app.py:112-143 | a 32-byte key displayed as hexadecimal is read back from the key field as the same key |
| `Pipeline.FullRoundTrip` | app.py:128-171 | with the same key field on both paths, a blob that fits and that avoids both sentinel collisions decrypts back to the message |
| `Pipeline.TwoByteMessage` | app.py:13-41 | a two-byte message gives a 32-byte blob, which a 4 by 4 image refuses and a 64 by 64 image holds |

## Findings

| source | as written | input that shows it | evidently intended | confidence | as-written member | corrected member |
|---|---|---|---|---|---|---|
| app.py:38-46 | the capacity check `len(payload) > size // 8` ignores the 16 terminator bits, so the reported "Max capacity" overstates the room by two bytes | a 48-byte image (4 by 4 RGB) and a 6-byte payload: the check passes (6 <= 6), but 64 bits must be written into 48 bytes, so the write loop indexes past the end and numpy raises an index error instead of "Message too large" | refuse the payload when `8 * n + 16 > size`, so the capacity is `(size - 16) // 8` bytes | high (not executed) | `Stego.CheckAdmitsOverflow` | `Stego.CapacityExact` |

`Stego.EmbedMessage` models the code as written. It keeps both failure paths and succeeds
exactly when `Fits` holds. The round-trip lemmas take `Fits` as their hypothesis.

## Behaviour of the code worth knowing

- Capacity: the check counts only the payload's `8n` bits. A payload that passes it but
  needs more than `size` bits, once the terminator is counted, fails in the write loop (the
  finding above).
- Regrouping: the code takes `range(0, L - 16, 8)` with slices clipped at `L`, not at
  `L - 16`. So every group is eight bits long, and the last one may take bits from the final
  sixteen. The result has `ceil((L - 16) / 8)` bytes.
- Missing terminator: no error is raised. The code returns whatever the whole image's low
  bits regroup to (`Stego.NoTerminatorReadsAll`).
- Codec round trip: it holds only under the two conditions of `Stego.RoundTripExact`.
- Key length: the library accepts 16-, 24- and 32-byte keys in CBC mode. In the application
  only 32-byte keys reach it, because of `NormaliseKey`.
- Blob size: a two-byte message gives a blob of 16 + 16 = 32 bytes (`Pipeline.TwoByteMessage`).

## Left out

- The tkinter window, file dialogs, message boxes and clipboard calls (app.py:74-176) are user
  interface. Only the key-normalisation rule is taken from them. The "please select an
  image" and "please enter a message" checks are left out too.
- Image loading, RGB conversion, reshaping and saving (app.py:36-37, 47-49, 53-55) are file
  I/O. The image is its flat sequence of channel bytes.
- The AES block cipher and CBC chaining are library code. `BlockCipher` stands for them. The
  only properties used are those in `IsCbc`, so nothing is said about wrong-key decryption.
- `os.urandom(16)` and `secrets.token_bytes(32)` are randomness. The IV is a parameter, and
  `generate_key` is not modelled beyond displaying its key (`ToHex`).
- UTF-8 encoding and decoding are library code. `TextCoding` stands for them, and the round
  trip assumes `decode(encode(m)) == Some(m)`.
- Cipher.DecryptMessage: the length bound on accepted blobs is stated only for ciphers
  satisfying `IsCbc`, because an abstract cipher says nothing about the length of what it
  decrypts.
- Stego.EmbedMessage: on the `IndexOutOfRange` path the source partly overwrites its own copy
  of the pixels before raising. The model returns the error without that partial copy,
  because the copy is discarded and no image is saved.
