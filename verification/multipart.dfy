/** One body part of the multipart/x-mixed-replace stream (boundary "frame"), as main.go builds it
    at lines 239-255 and 348-367: the delimiter line "--frame" (RFC 2046, section 5.1.1), a
    Content-Type and a Content-Length header, a blank line, the JPEG bytes, and CRLF. */
module Multipart {
  import opened Bytes
  import opened Decimal
  import opened Wrappers

  /** "--frame" CRLF: the delimiter line for the boundary "frame". */
  const BoundaryLine: seq<byte> := [45, 45, 102, 114, 97, 109, 101, 13, 10]
  /** "Content-Type: image/jpeg" CRLF. */
  const ContentTypeLine: seq<byte> :=
    [67, 111, 110, 116, 101, 110, 116, 45, 84, 121, 112, 101, 58, 32,
     105, 109, 97, 103, 101, 47, 106, 112, 101, 103, 13, 10]
  /** "Content-Length: ", the field name the length digits follow. */
  const ContentLengthName: seq<byte> :=
    [67, 111, 110, 116, 101, 110, 116, 45, 76, 101, 110, 103, 116, 104, 58, 32]

  /** The fixed text in front of the length digits (51 bytes). */
  function HeaderPrefix(): (p: seq<byte>)
    ensures |p| == 51
  {
    BoundaryLine + ContentTypeLine + ContentLengthName
  }

  const CRLF: seq<byte> := [13, 10]
  const BlankLine: seq<byte> := [13, 10, 13, 10]

  /** The header buffer for a payload of n bytes: prefix, `%d` of n, then CRLF CRLF. It opens
      with the delimiter line and closes with the blank line that ends the part's headers. */
  function Header(n: nat): seq<byte>
  {
    HeaderPrefix() + Digits(n) + BlankLine
  }

  /** Everything one emitted frame puts on the wire, in the order of the three writes: it
      opens with the delimiter line, ends with CRLF, and holds the payload unchanged just
      before that CRLF. */
  function Part(data: seq<byte>): seq<byte>
  {
    Header(|data|) + data + CRLF
  }

  /** The number of digits at the front of s. */
  function DigitRun(s: seq<byte>): (k: nat)
    ensures k <= |s|
    ensures AllDigits(s[..k])
    ensures k < |s| ==> !IsDigit(s[k])
  {
    if s == [] || !IsDigit(s[0]) then 0
    else
      var k := 1 + DigitRun(s[1..]);
      assert s[..k] == [s[0]] + s[1..][..k - 1];
      k
  }

  /** The digit run of digits followed by a non-digit is exactly those digits. */
  lemma {:induction false} DigitRunOfDigits(d: seq<byte>, t: seq<byte>)
    requires AllDigits(d) && |t| >= 1 && !IsDigit(t[0])
    ensures DigitRun(d + t) == |d|
    decreases |d|
  {
    var s := d + t;
    if d == [] {
      assert s == t;
    } else {
      assert s[0] == d[0] && IsDigit(d[0]);
      assert s[1..] == d[1..] + t;
      DigitRunOfDigits(d[1..], t);
    }
  }

  /** A reader of one part: check the prefix, read the Content-Length digits up to the blank
      line, take that many payload bytes and expect the closing CRLF with nothing after it. */
  function ParsePart(b: seq<byte>): (r: Option<seq<byte>>)
    ensures r.Some? ==> Part(r.value) == b
  {
    var p := HeaderPrefix();
    if |b| < |p| || b[..|p|] != p then None
    else
      var rest := b[|p|..];
      var k := DigitRun(rest);
      if k == 0 || (rest[0] == '0' as int && k > 1) then None
      else if |rest| < k + 4 || rest[k..k + 4] != BlankLine then None
      else
        var n := Value(rest[..k]);
        var tail := rest[k + 4..];
        if |tail| != n + 2 || tail[n..] != CRLF then None
        else
          var data := tail[..n];
          PartOfPieces(b, p, rest[..k], tail, data);
          Some(data)
  }

  /** The reassembly step of ParsePart: pieces read off in order make up a part. */
  lemma PartOfPieces(b: seq<byte>, p: seq<byte>, d: seq<byte>, tail: seq<byte>, data: seq<byte>)
    requires p == HeaderPrefix() && |b| >= |p| && b[..|p|] == p
    requires Canonical(d) && |b| >= |p| + |d| + 4 && b[|p|..][..|d|] == d
    requires b[|p|..][|d|..|d| + 4] == BlankLine && tail == b[|p|..][|d| + 4..]
    requires |data| == Value(d) && tail == data + CRLF
    ensures Part(data) == b
  {
    Reassemble(b, p, d, BlankLine, tail);
    DigitsOfValue(d);
    assert b == (p + d + BlankLine) + (data + CRLF);
    assert Part(data) == (p + d + BlankLine) + (data + CRLF);
  }

  /** A buffer whose consecutive slices are p, d and m is p, d, m and the rest. */
  lemma Reassemble(b: seq<byte>, p: seq<byte>, d: seq<byte>, m: seq<byte>, tail: seq<byte>)
    requires |b| >= |p| + |d| + |m| && b[..|p|] == p
    requires b[|p|..][..|d|] == d && b[|p|..][|d|..|d| + |m|] == m
    requires tail == b[|p|..][|d| + |m|..]
    ensures b == (p + d + m) + tail
  {
    var rest := b[|p|..];
    assert rest == d + m + tail;
    assert b == p + rest;
  }

  /** The layout of a part: the prefix first, then the decimal digits of the payload length,
      then the blank line, the payload, and CRLF last. */
  lemma PartLayout(data: seq<byte>)
    ensures var d := Digits(|data|);
      && Part(data)[..51] == HeaderPrefix()
      && Part(data)[51..51 + |d|] == d
      && Part(data)[51 + |d|..55 + |d|] == BlankLine
      && Part(data)[55 + |d|..55 + |d| + |data|] == data
      && Part(data)[55 + |d| + |data|..] == CRLF
  {
  }

  /** A reader recovers the payload from an emitted part; in particular the Content-Length it
      reads is exactly the payload's length. */
  lemma ParsePartOfPart(data: seq<byte>)
    ensures ParsePart(Part(data)) == Some(data)
  {
    var p := HeaderPrefix();
    var d := Digits(|data|);
    var b := Part(data);
    var t := BlankLine + data + CRLF;
    assert b == p + (d + t);
    assert |b| >= |p| && b[..|p|] == p;
    var rest := b[|p|..];
    assert rest == d + t;
    DigitRunOfDigits(d, t);
    var k := DigitRun(rest);
    assert k == |d| && rest[..k] == d;
    assert rest[0] == d[0];
    ValueOfDigits(|data|);
    assert rest[k..] == t;
    assert rest[k..k + 4] == t[..4] == BlankLine;
    var tail := rest[k + 4..];
    assert tail == t[4..];
    assert t == BlankLine + (data + CRLF);
    assert tail == data + CRLF;
    assert tail[..|data|] == data && tail[|data|..] == CRLF;
  }
}
