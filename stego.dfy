/** The least-significant-bit codec of `embed_message` and `extract_message`. The image is the
    flat sequence of its channel bytes, in the row-major, channel-minor order that
    `convert('RGB')` followed by `flatten()` gives; loading and saving the image file is not
    part of this model. */
module Stego {
  import opened Wrappers
  import opened Bits

  datatype StegoError =
    | CapacityExceeded   // the "Message too large" check
    | IndexOutOfRange    // the write loop runs past the last channel byte

  /** The sixteen one-bits appended after the payload's bits. */
  const Terminator: seq<bit> := [1, 1, 1, 1, 1, 1, 1, 1, 1, 1, 1, 1, 1, 1, 1, 1]

  /** `(b & 0xFE) | x`: clear bit 0 of `b`, then set it to `x`. */
  function SetLow(b: byte, x: bit): (r: byte)
    ensures r % 2 == x && r / 2 == b / 2
  {
    b - b % 2 + x
  }

  /** `b & 1`: bit 0 of `b`. */
  function LowBit(b: byte): (r: bit)
    ensures SetLow(b, r) == b
  {
    b % 2
  }

  /** The bit stream embed writes: the payload's bits, then the terminator. */
  function Stream(payload: seq<byte>): (r: seq<bit>)
    ensures |r| == 8 * |payload| + 16
    ensures r[..8 * |payload|] == BitsOf(payload)
    ensures forall i :: 8 * |payload| <= i < |r| ==> r[i] == 1
  {
    BitsOf(payload) + Terminator
  }

  // ---------------------------------------------------------------------------------------
  // Capacity

  /** The check embed makes before writing: `len(payload) <= img_array.size // 8`. */
  predicate CheckPasses(size: nat, n: nat)
    ensures CheckPasses(size, n) <==> 8 * n <= size
  {
    n <= size / 8
  }

  /** A payload of `n` bytes fits when its `8 * n` bits and the 16 terminator bits do. */
  predicate Fits(size: nat, n: nat)
  {
    8 * n + 16 <= size
  }

  /** The largest payload, in bytes, that fits in `size` channel bytes. */
  function Capacity(size: nat): (r: nat)
    ensures size >= 16 ==> 8 * r + 16 <= size < 8 * r + 24
    ensures size < 16 ==> r == 0
  {
    if size < 16 then 0 else (size - 16) / 8
  }

  lemma CapacityExact(size: nat, n: nat)
    ensures Fits(size, n) <==> size >= 16 && n <= Capacity(size)
  {
    if size >= 16 {
      var q := (size - 16) / 8;
      assert 8 * q <= size - 16 < 8 * q + 8;
      if n > q {
        assert 8 * n >= 8 * q + 8;
      }
    }
  }

  /** The check does not count the terminator: the largest payload it admits never fits, and
      it admits every payload of up to two bytes more than fit. */
  lemma CheckAdmitsOverflow(size: nat, n: nat)
    ensures CheckPasses(size, size / 8) && !Fits(size, size / 8)
    ensures size >= 16 ==> (CheckPasses(size, n) <==> n <= Capacity(size) + 2)
  {
    var q := size / 8;
    assert 8 * q <= size < 8 * q + 8;
    if size >= 16 {
      assert (size - 16) / 8 == q - 2;
    }
  }

  // ---------------------------------------------------------------------------------------
  // Embedding

  /** The image after overwriting bit 0 of its first `|s|` channel bytes with the bits of `s`. */
  function Embedded(image: seq<byte>, s: seq<bit>): (r: seq<byte>)
    requires |s| <= |image|
    ensures |r| == |image|
    ensures LowBits(r)[..|s|] == s
    ensures r[|s|..] == image[|s|..]
  {
    var r := seq(|image|, i requires 0 <= i < |image| => if i < |s| then SetLow(image[i], s[i]) else image[i]);
    assert LowBits(r)[..|s|] == s by {
      forall i | 0 <= i < |s| ensures LowBits(r)[i] == s[i] {
      }
    }
    r
  }

  /** `embed_message` on the flat channel bytes: check the capacity, serialise the payload and
      the terminator, and overwrite bit 0 of successive bytes of a copy of the image. The
      caller's image is a value and is never changed. */
  method EmbedMessage(image: seq<byte>, payload: seq<byte>) returns (r: Result<seq<byte>, StegoError>)
    ensures !CheckPasses(|image|, |payload|) ==> r == Failure(CapacityExceeded)
    ensures CheckPasses(|image|, |payload|) && !Fits(|image|, |payload|) ==> r == Failure(IndexOutOfRange)
    ensures Fits(|image|, |payload|) ==> r == Success(Embedded(image, Stream(payload)))
    ensures r.Success? <==> Fits(|image|, |payload|)
    ensures r.Success? ==> |r.value| == |image|
    ensures r.Success? ==> forall i :: 0 <= i < 8 * |payload| + 16 ==>
      r.value[i] / 2 == image[i] / 2 && LowBit(r.value[i]) == Stream(payload)[i]
    ensures r.Success? ==> forall i :: 8 * |payload| + 16 <= i < |image| ==> r.value[i] == image[i]
  {
    if !CheckPasses(|image|, |payload|) {
      return Failure(CapacityExceeded);
    }
    var stream := BitsOf(payload) + Terminator;
    var flat := new byte[|image|](i requires 0 <= i < |image| => image[i]);
    for i := 0 to |stream|
      invariant forall k :: 0 <= k < i && k < flat.Length ==> flat[k] == SetLow(image[k], stream[k])
      invariant forall k :: i <= k < flat.Length ==> flat[k] == image[k]
      invariant i <= flat.Length
    {
      if i >= flat.Length {
        return Failure(IndexOutOfRange);
      }
      flat[i] := SetLow(flat[i], stream[i]);
    }
    r := Success(flat[..]);
    assert flat[..] == Embedded(image, stream);
  }

  // ---------------------------------------------------------------------------------------
  // Extraction

  /** Bit 0 of every channel byte, in order. */
  function LowBits(image: seq<byte>): (r: seq<bit>)
  {
    seq(|image|, i requires 0 <= i < |image| => LowBit(image[i]))
  }

  /** The last sixteen of the first `k` bits are all ones. */
  predicate WindowAt(bits: seq<bit>, k: nat)
  {
    16 <= k <= |bits| && forall i :: k - 16 <= i < k ==> bits[i] == 1
  }

  /** Python's `s[-16:]`: the last sixteen elements, or all of a shorter sequence. */
  function Last16(s: seq<bit>): (r: seq<bit>)
    ensures |r| == if |s| < 16 then |s| else 16
    ensures r == s[|s| - |r|..]
  {
    if |s| < 16 then s else s[|s| - 16..]
  }

  /** The loop's test `binary_message[-16:] == '1111111111111111'` holds exactly when the
      last sixteen bits read are all ones. */
  lemma Last16Terminator(bits: seq<bit>)
    ensures Last16(bits) == Terminator <==> WindowAt(bits, |bits|)
  {
    if WindowAt(bits, |bits|) {
      var t := Last16(bits);
      forall j | 0 <= j < 16 ensures t[j] == Terminator[j] {
        assert t[j] == bits[|bits| - 16 + j];
      }
    }
    if Last16(bits) == Terminator {
      forall i | |bits| - 16 <= i < |bits| ensures bits[i] == 1 {
        assert bits[i] == Last16(bits)[i - (|bits| - 16)];
      }
    }
  }

  /** The first point at or after `k` where extraction stops reading. */
  function StopFrom(bits: seq<bit>, k: nat): (stop: nat)
    requires k <= |bits|
    ensures k <= stop <= |bits|
    ensures stop == |bits| || WindowAt(bits, stop)
    ensures forall j :: k <= j < stop ==> !WindowAt(bits, j)
    decreases |bits| - k
  {
    if k == |bits| || WindowAt(bits, k) then k else StopFrom(bits, k + 1)
  }

  /** The number of bits extraction reads: the smallest `L` for which the last 16 bits read
      are all ones, or all of them when there is no such `L`. */
  function StopPoint(bits: seq<bit>): (stop: nat)
    ensures stop <= |bits|
    ensures stop == |bits| || WindowAt(bits, stop)
    ensures forall j :: 0 <= j < stop ==> !WindowAt(bits, j)
  {
    StopFrom(bits, 0)
  }

  /** The number of groups `range(0, L - 16, 8)` yields: the ceiling of `(L - 16) / 8`. */
  function GroupCount(bitsRead: nat): (r: nat)
    ensures bitsRead <= 16 ==> r == 0
    ensures bitsRead > 16 ==> 8 * r - 8 < bitsRead - 16 <= 8 * r
  {
    if bitsRead <= 16 then 0 else (bitsRead - 16 + 7) / 8
  }

  /** `[int(b[i:i+8], 2) for i in range(0, len(b) - 16, 8)]`. Every group is a full eight
      bits, and the last one may reach into the final sixteen bits. */
  function Regroup(bits: seq<bit>): (r: seq<byte>)
    ensures |r| == GroupCount(|bits|)
    ensures forall j :: 0 <= j < |r| ==> 8 * j + 8 <= |bits| - 9 && r[j] == ByteOf(bits[8 * j..8 * j + 8])
  {
    var n := GroupCount(|bits|);
    seq(n, j requires 0 <= j < n => ByteOf(bits[8 * j..8 * j + 8]))
  }

  /** What extraction returns for an image. */
  function Extracted(image: seq<byte>): (r: seq<byte>)
    ensures |r| == GroupCount(StopPoint(LowBits(image)))
    ensures forall j :: 0 <= j < |r| ==> r[j] == ByteOf(LowBits(image)[8 * j..8 * j + 8])
  {
    var lb := LowBits(image);
    var bits := lb[..StopPoint(lb)];
    assert forall j :: 0 <= j < GroupCount(|bits|) ==> bits[8 * j..8 * j + 8] == lb[8 * j..8 * j + 8];
    Regroup(bits)
  }

  /** `extract_message` on the flat channel bytes: collect bit 0 of successive bytes until the
      last sixteen collected are all ones (or the image ends), then regroup them into bytes. */
  method ExtractMessage(image: seq<byte>) returns (blob: seq<byte>)
    ensures blob == Extracted(image)
    ensures |blob| == GroupCount(StopPoint(LowBits(image)))
    ensures forall j :: 0 <= j < |blob| ==> blob[j] == ByteOf(LowBits(image)[8 * j..8 * j + 8])
  {
    ghost var lb := LowBits(image);
    var bits: seq<bit> := [];
    var i := 0;
    while i < |image|
      invariant i <= |image|
      invariant bits == lb[..i]
      invariant forall j :: 0 <= j <= i ==> !WindowAt(lb, j)
    {
      bits := bits + [LowBit(image[i])];
      i := i + 1;
      assert bits == lb[..i];
      Last16Terminator(bits);
      if Last16(bits) == Terminator {
        assert WindowAt(lb, i);
        break;
      }
      assert !WindowAt(lb, i);
    }
    assert bits == lb[..StopPoint(lb)];
    blob := Regroup(bits);
    assert blob == Extracted(image);
  }

  // ---------------------------------------------------------------------------------------
  // What extraction recovers from an embedded image

  /** The payload's bit string contains no run of sixteen one-bits. */
  predicate NoOnesRun(bits: seq<bit>)
  {
    forall k :: 0 <= k <= |bits| ==> !WindowAt(bits, k)
  }

  /** The payload's last byte is 0xFF. */
  predicate EndsInFF(p: seq<byte>)
  {
    |p| > 0 && p[|p| - 1] == 255
  }

  /** The bits `lb` begin with the stream of payload `p`. */
  predicate StartsWithStream(lb: seq<bit>, p: seq<byte>)
  {
    |Stream(p)| <= |lb| && lb[..|Stream(p)|] == Stream(p)
  }

  /** The low bits of an embedded image begin with the stream written into it. */
  lemma EmbeddedLowBits(image: seq<byte>, p: seq<byte>)
    requires Fits(|image|, |p|)
    ensures |LowBits(Embedded(image, Stream(p)))| == |image|
    ensures StartsWithStream(LowBits(Embedded(image, Stream(p))), p)
  {
  }

  /** Two bit strings that agree on the sixteen bits before `k` agree on a window there. */
  lemma WindowAgree(x: seq<bit>, y: seq<bit>, k: nat)
    requires k <= |x| && k <= |y|
    requires forall i :: 0 <= i < k ==> x[i] == y[i]
    ensures WindowAt(x, k) <==> WindowAt(y, k)
  {
  }

  /** Within the payload's bits, a window of the low bits is a window of the payload's bits. */
  lemma WindowInPayload(lb: seq<bit>, p: seq<byte>, k: nat)
    requires StartsWithStream(lb, p) && k <= 8 * |p|
    ensures WindowAt(lb, k) <==> WindowAt(BitsOf(p), k)
  {
    var b := BitsOf(p);
    var s := Stream(p);
    forall i | 0 <= i < k ensures lb[i] == b[i] {
      assert lb[..|s|][i] == s[i] == b[i];
    }
    WindowAgree(lb, b, k);
  }

  /** The sixteen low bits after the payload's bits are the terminator's ones. */
  lemma TerminatorInLowBits(lb: seq<bit>, p: seq<byte>)
    requires StartsWithStream(lb, p)
    ensures forall i :: 8 * |p| <= i < 8 * |p| + 16 ==> lb[i] == 1
  {
    var n := |p|;
    var s := Stream(p);
    forall i | 8 * n <= i < 8 * n + 16 ensures lb[i] == 1 {
      assert lb[..|s|][i] == s[i] == Terminator[i - 8 * n];
    }
  }

  /** The terminator always stops extraction, at the latest, where it ends. */
  lemma StopWithinStream(lb: seq<bit>, p: seq<byte>)
    requires StartsWithStream(lb, p)
    ensures StopPoint(lb) <= 8 * |p| + 16
  {
    TerminatorInLowBits(lb, p);
    assert WindowAt(lb, 8 * |p| + 16);
  }

  /** With no run of sixteen ones in the payload, extraction reads past all of its bits. */
  lemma StopPastPayload(lb: seq<bit>, p: seq<byte>)
    requires StartsWithStream(lb, p) && NoOnesRun(BitsOf(p))
    ensures 16 <= StopPoint(lb) && 8 * |p| < StopPoint(lb)
  {
    forall k | 0 <= k <= 8 * |p| ensures !WindowAt(lb, k) {
      WindowInPayload(lb, p, k);
    }
    StopWithinStream(lb, p);
  }

  /** A window ending inside the terminator but at most eight bits after the payload covers
      the payload's last byte, which is then 0xFF. */
  lemma WindowAfterPayload(lb: seq<bit>, p: seq<byte>, k: nat)
    requires StartsWithStream(lb, p)
    requires |p| > 0 && 8 * |p| < k <= 8 * |p| + 8 && WindowAt(lb, k)
    ensures EndsInFF(p)
  {
    var n := |p|;
    var last := lb[8 * n - 8..8 * n];
    forall j | 0 <= j < 8 ensures last[j] == 1 {
      assert last[j] == lb[8 * n - 8 + j];
    }
    GroupInStream(lb, p, n - 1);
    AllOnesByte(last);
  }

  /** Unless the payload ends in 0xFF, no window ends within eight bits after the payload. */
  lemma StopPastLastByte(lb: seq<bit>, p: seq<byte>)
    requires StartsWithStream(lb, p) && NoOnesRun(BitsOf(p)) && !EndsInFF(p)
    ensures 8 * |p| + 8 < StopPoint(lb)
  {
    StopPastPayload(lb, p);
    StopWithinStream(lb, p);
    var stop := StopPoint(lb);
    if stop <= 8 * |p| + 8 {
      WindowAfterPayload(lb, p, stop);
    }
  }

  /** A payload ending in 0xFF puts twenty-four one-bits in a row at the end of the stream. */
  lemma StopAtFF(lb: seq<bit>, p: seq<byte>)
    requires StartsWithStream(lb, p) && EndsInFF(p)
    ensures StopPoint(lb) <= 8 * |p| + 8
  {
    var n := |p|;
    var last := lb[8 * n - 8..8 * n];
    GroupInStream(lb, p, n - 1);
    AllOnesByte(last);
    forall i | 8 * n - 8 <= i < 8 * n ensures lb[i] == 1 {
      assert lb[i] == last[i - (8 * n - 8)];
    }
    TerminatorInLowBits(lb, p);
    assert WindowAt(lb, 8 * n + 8);
  }

  /** Group `j` of the low bits is worth payload byte `j`. */
  lemma GroupInStream(lb: seq<bit>, p: seq<byte>, j: nat)
    requires StartsWithStream(lb, p) && j < |p|
    ensures ByteOf(lb[8 * j..8 * j + 8]) == p[j]
  {
    var s := Stream(p);
    assert lb[..|s|][8 * j..8 * j + 8] == lb[8 * j..8 * j + 8];
    assert s[8 * j..8 * j + 8] == BitsOf(p)[8 * j..8 * j + 8];
    BitsOfGroup(p, j);
    ByteOfByteBits(p[j]);
  }

  /** Regrouping the first `stop` low bits, for a stop point within the stream, gives the first
      `GroupCount(stop)` bytes of the payload. */
  lemma RegroupStream(lb: seq<bit>, p: seq<byte>, stop: nat)
    requires StartsWithStream(lb, p) && stop <= 8 * |p| + 16
    ensures GroupCount(stop) <= |p|
    ensures Regroup(lb[..stop]) == p[..GroupCount(stop)]
  {
    var r := Regroup(lb[..stop]);
    forall j | 0 <= j < |r| ensures r[j] == p[j] {
      assert lb[..stop][8 * j..8 * j + 8] == lb[8 * j..8 * j + 8];
      GroupInStream(lb, p, j);
    }
  }

  /** Whatever stops extraction, it returns a prefix of the embedded payload: group `j` of the
      bits read is byte `j` of the payload as long as it lies within the stream. */
  lemma ExtractedPrefix(image: seq<byte>, p: seq<byte>)
    requires Fits(|image|, |p|)
    ensures var lb := LowBits(Embedded(image, Stream(p)));
      StartsWithStream(lb, p) &&
      GroupCount(StopPoint(lb)) <= |p| &&
      Extracted(Embedded(image, Stream(p))) == p[..GroupCount(StopPoint(lb))]
  {
    var lb := LowBits(Embedded(image, Stream(p)));
    EmbeddedLowBits(image, p);
    StopWithinStream(lb, p);
    RegroupStream(lb, p, StopPoint(lb));
  }

  /** Stopping within the last eight bits of the terminator regroups exactly `n` bytes. */
  lemma GroupCountFull(stop: nat, n: nat)
    requires (n == 0 && stop == 16) || (8 * n + 9 <= stop <= 8 * n + 16)
    ensures GroupCount(stop) == n
  {
  }

  /** Without a run of sixteen ones and a final 0xFF, extraction stops within the last eight
      terminator bits, and so regroups exactly the payload's bytes. */
  lemma StopInTerminator(lb: seq<bit>, p: seq<byte>)
    requires StartsWithStream(lb, p) && NoOnesRun(BitsOf(p)) && !EndsInFF(p)
    ensures GroupCount(StopPoint(lb)) == |p|
  {
    StopPastPayload(lb, p);
    StopPastLastByte(lb, p);
    StopWithinStream(lb, p);
    GroupCountFull(StopPoint(lb), |p|);
  }

  /** The round trip: a payload that fits, whose bits hold no run of sixteen ones and whose
      last byte is not 0xFF, is extracted whole. */
  lemma RoundTrip(image: seq<byte>, p: seq<byte>)
    requires Fits(|image|, |p|)
    requires NoOnesRun(BitsOf(p)) && !EndsInFF(p)
    ensures Extracted(Embedded(image, Stream(p))) == p
  {
    var lb := LowBits(Embedded(image, Stream(p)));
    ExtractedPrefix(image, p);
    StopInTerminator(lb, p);
    assert Extracted(Embedded(image, Stream(p))) == p[..|p|];
  }

  /** The exact round-trip condition: extraction returns the whole embedded payload if and only
      if the payload's bits hold no run of sixteen ones and its last byte is not 0xFF. */
  lemma RoundTripExact(image: seq<byte>, p: seq<byte>)
    requires Fits(|image|, |p|)
    ensures Extracted(Embedded(image, Stream(p))) == p <==> NoOnesRun(BitsOf(p)) && !EndsInFF(p)
  {
    if NoOnesRun(BitsOf(p)) && !EndsInFF(p) {
      RoundTrip(image, p);
    } else if !NoOnesRun(BitsOf(p)) {
      var k :| 0 <= k <= |BitsOf(p)| && WindowAt(BitsOf(p), k);
      EarlySentinel(image, p, k);
    } else {
      TrailingFFDropped(image, p);
    }
  }

  /** A payload that ends in 0xFF, with no earlier run of sixteen ones, comes back without its
      last byte: the sentinel fires eight bits early. */
  lemma TrailingFFDropped(image: seq<byte>, p: seq<byte>)
    requires Fits(|image|, |p|)
    requires NoOnesRun(BitsOf(p)) && EndsInFF(p)
    ensures Extracted(Embedded(image, Stream(p))) == p[..|p| - 1]
  {
    var lb := LowBits(Embedded(image, Stream(p)));
    ExtractedPrefix(image, p);
    StopPastPayload(lb, p);
    StopAtFF(lb, p);
    assert GroupCount(StopPoint(lb)) == |p| - 1;
  }

  /** A run of sixteen one-bits ending at bit `k` of the payload stops extraction there, so at
      most the first `GroupCount(k)` bytes come back. */
  lemma EarlySentinel(image: seq<byte>, p: seq<byte>, k: nat)
    requires Fits(|image|, |p|)
    requires WindowAt(BitsOf(p), k)
    ensures |Extracted(Embedded(image, Stream(p)))| <= GroupCount(k) < |p|
    ensures Extracted(Embedded(image, Stream(p))) == p[..|Extracted(Embedded(image, Stream(p)))|]
  {
    var lb := LowBits(Embedded(image, Stream(p)));
    ExtractedPrefix(image, p);
    WindowInPayload(lb, p, k);
  }

  /** Without a terminator the whole image is read and regrouped: the result is the low bits
      of every channel byte, less the last sixteen, as bytes. */
  lemma NoTerminatorReadsAll(image: seq<byte>)
    requires NoOnesRun(LowBits(image))
    ensures |Extracted(image)| == GroupCount(|image|)
    ensures forall j :: 0 <= j < |Extracted(image)| ==>
      Extracted(image)[j] == ByteOf(LowBits(image)[8 * j..8 * j + 8])
  {
    var lb := LowBits(image);
    assert StopPoint(lb) == |image|;
    assert lb[..|image|] == lb;
  }
}
