/** How the key typed into the key field is turned into key bytes, the rule that `embed` and
    `extract` each apply before calling the cipher layer: a 64-character hexadecimal string is
    decoded pairwise (`bytes.fromhex`); anything else is taken as its encoded bytes, which must
    be exactly 32 long. Also the hexadecimal rendering of a generated key (`bytes.hex()`). */
module KeyInput {
  import opened Wrappers
  import opened Bits

  /** The key length both `embed` and `extract` insist on. */
  const KeyLength: nat := 32

  datatype KeyError = WrongKeyLength   // "Key must be exactly 32 bytes."

  /** Membership in '0123456789abcdefABCDEF'. */
  predicate IsHexDigit(c: char)
  {
    ('0' <= c <= '9') || ('a' <= c <= 'f') || ('A' <= c <= 'F')
  }

  /** The test that selects hexadecimal decoding: 64 characters, each a hexadecimal digit. */
  predicate IsHexKey(s: string)
    ensures IsHexKey(s) ==>
      |s| % 2 == 0 && (forall i :: 0 <= i < |s| ==> IsHexDigit(s[i])) && |FromHex(s)| == KeyLength
  {
    |s| == 2 * KeyLength && forall i :: 0 <= i < |s| ==> IsHexDigit(s[i])
  }

  function HexValue(c: char): (v: nat)
    requires IsHexDigit(c)
    ensures v < 16
  {
    if '0' <= c <= '9' then c as int - '0' as int
    else if 'a' <= c <= 'f' then c as int - 'a' as int + 10
    else c as int - 'A' as int + 10
  }

  /** The lower-case digit `bytes.hex()` writes for `v`. */
  function HexDigit(v: nat): (c: char)
    requires v < 16
    ensures IsHexDigit(c) && HexValue(c) == v
  {
    if v < 10 then ('0' as int + v) as char else ('a' as int + v - 10) as char
  }

  /** What `bytes.fromhex` makes of each digit: the value of the lower-case digit for the same
      letter, so upper and lower case read alike. */
  lemma HexValueDigit(c: char)
    requires IsHexDigit(c)
    ensures HexDigit(HexValue(c)) == if 'A' <= c <= 'F' then (c as int - 'A' as int + 'a' as int) as char else c
  {
  }

  /** `bytes.fromhex(s)` on a string of hexadecimal digit pairs. */
  function FromHex(s: string): (r: seq<byte>)
    requires |s| % 2 == 0 && forall i :: 0 <= i < |s| ==> IsHexDigit(s[i])
    ensures |r| == |s| / 2
    ensures forall j :: 0 <= j < |r| ==> r[j] == 16 * HexValue(s[2 * j]) + HexValue(s[2 * j + 1])
  {
    if s == [] then []
    else [16 * HexValue(s[0]) + HexValue(s[1])] + FromHex(s[2..])
  }

  /** `bytes.hex()`: two lower-case digits per byte, high nibble first. */
  function ToHex(k: seq<byte>): (r: string)
    ensures |r| == 2 * |k|
    ensures forall i :: 0 <= i < |r| ==> IsHexDigit(r[i])
  {
    if k == [] then [] else [HexDigit(k[0] / 16), HexDigit(k[0] % 16)] + ToHex(k[1..])
  }

  /** The two digits written for a byte are worth that byte. */
  lemma HexPairValue(b: byte)
    ensures 16 * HexValue(HexDigit(b / 16)) + HexValue(HexDigit(b % 16)) == b
  {
  }

  /** Reading back a key's hexadecimal rendering gives the key. */
  lemma {:induction false} FromHexToHex(k: seq<byte>)
    ensures FromHex(ToHex(k)) == k
  {
    if k != [] {
      var h, t := ToHex(k), ToHex(k[1..]);
      assert h[2..] == t;
      HexPairValue(k[0]);
      FromHexToHex(k[1..]);
      assert FromHex(h) == [k[0]] + FromHex(t);
    }
  }

  /** The normalisation in `embed` and `extract`, with `encode` standing for `str.encode()`. */
  function NormaliseKey(input: string, encode: string -> seq<byte>): (r: Result<seq<byte>, KeyError>)
    ensures r.Success? ==> |r.value| == KeyLength
    ensures IsHexKey(input) ==> r == Success(FromHex(input))
    ensures !IsHexKey(input) ==> (r.Success? <==> |encode(input)| == KeyLength)
    ensures !IsHexKey(input) && r.Success? ==> r.value == encode(input)
  {
    if IsHexKey(input) then Success(FromHex(input))
    else
      var key := encode(input);
      if |key| != KeyLength then Failure(WrongKeyLength) else Success(key)
  }

  /** A key shown as hexadecimal by "Generate Key" is read back as the same key, whatever the
      text encoding would have made of the string. */
  lemma DisplayedKeyReadsBack(k: seq<byte>, encode: string -> seq<byte>)
    requires |k| == KeyLength
    ensures NormaliseKey(ToHex(k), encode) == Success(k)
  {
    FromHexToHex(k);
  }
}
