/** The JPEG sanity filter of internal/utils/validation.go, which main.go repeats verbatim as
    isValidJPEG. The marker codes are those of ITU-T T.81 (JPEG), Annex B.1.1.3:
    SOI = FF D8 and EOI = FF D9. */
module Jpeg {
  import opened Bytes

  const MinLength: nat := 10
  const MinFrameSize: nat := 1000

  /** The buffer begins with the start-of-image marker. */
  predicate HasSOI(data: seq<byte>) {
    |data| >= 2 && data[0] == 0xFF && data[1] == 0xD8
  }

  /** The buffer ends with the end-of-image marker. */
  predicate HasEOI(data: seq<byte>) {
    |data| >= 2 && data[|data| - 2] == 0xFF && data[|data| - 1] == 0xD9
  }

  /** The checks in the source's order, each an early rejection; every index is guarded by the
      length check that comes first. The result is exactly "at least 1000 bytes, framed by SOI
      and EOI", so the first length check never decides anything the last one would not. */
  function IsValidJPEG(data: seq<byte>): (ok: bool)
    ensures ok <==> |data| >= MinFrameSize && HasSOI(data) && HasEOI(data)
    ensures |data| < MinLength ==> !ok
    ensures !HasSOI(data) ==> !ok
    ensures !HasEOI(data) ==> !ok
  {
    if |data| < MinLength then false
    else if data[0] != 0xFF || data[1] != 0xD8 then false
    else if data[|data| - 2] != 0xFF || data[|data| - 1] != 0xD9 then false
    else if |data| < MinFrameSize then false
    else true
  }

  /** The verdict looks at the length and at the first two and the last two bytes only: two
      buffers that agree there get the same verdict, whatever lies in between. */
  lemma InteriorIrrelevant(a: seq<byte>, b: seq<byte>)
    requires |a| == |b| >= 2
    requires a[..2] == b[..2] && a[|a| - 2..] == b[|b| - 2..]
    ensures IsValidJPEG(a) == IsValidJPEG(b)
  {
    assert a[0] == a[..2][0] && a[1] == a[..2][1];
    assert b[0] == b[..2][0] && b[1] == b[..2][1];
    assert a[|a| - 2] == a[|a| - 2..][0] && a[|a| - 1] == a[|a| - 2..][1];
    assert b[|b| - 2] == b[|b| - 2..][0] && b[|b| - 1] == b[|b| - 2..][1];
  }

  /** A buffer of n bytes that carries both markers and zeros elsewhere. */
  function Framed(n: nat): (s: seq<byte>)
    requires n >= 4
    ensures |s| == n && HasSOI(s) && HasEOI(s)
  {
    [0xFF, 0xD8] + seq(n - 4, _ => 0) + [0xFF, 0xD9]
  }

  /** The size heuristic rejects a correctly marked 500-byte buffer and accepts a correctly
      marked buffer of 1000 bytes or more. */
  lemma SizeThreshold(n: nat)
    requires n >= 4
    ensures IsValidJPEG(Framed(n)) <==> n >= MinFrameSize
  {
  }
}
