/**
 * Image format detection from magic numbers (`detectImageTypeFromBuffer`,
 * present identically in both server variants). Content alone decides: the
 * URL, the HTTP content type and any caller-supplied name play no part.
 */
module Sniffer {
  import opened Common

  datatype ImageType = Jpeg | Png | Gif | Webp | Bmp | Svg
  {
    /** The `ext` field of the detected type. */
    function Ext(): (e: string)
      ensures |e| > 0 && forall i :: 0 <= i < |e| ==> 'a' <= e[i] <= 'z'
    {
      match this
      case Jpeg => "jpg"
      case Png => "png"
      case Gif => "gif"
      case Webp => "webp"
      case Bmp => "bmp"
      case Svg => "svg"
    }
  }

  /** Buffers shorter than this are never classified. */
  const MinLength := 12

  /** At most this many leading bytes are searched for SVG markup. */
  const SvgWindow := 100

  /** Lower-case an ASCII letter byte; every other byte is left alone. */
  function LowerByte(b: bv8): bv8
  {
    if 0x41 <= b <= 0x5A then b + 0x20 else b
  }

  function LowerBytes(s: seq<bv8>): (r: seq<bv8>)
    ensures |r| == |s|
    ensures forall i :: 0 <= i < |s| ==> r[i] == LowerByte(s[i])
  {
    if s == [] then [] else [LowerByte(s[0])] + LowerBytes(s[1..])
  }

  /** `<svg` and `<?xml` as ASCII bytes. */
  const SvgTag: seq<bv8> := [0x3C, 0x73, 0x76, 0x67]
  const XmlDecl: seq<bv8> := [0x3C, 0x3F, 0x78, 0x6D, 0x6C]

  /** The lower-cased text of the first (at most) 100 bytes mentions `<svg` or `<?xml`. */
  predicate LooksLikeSvg(buf: seq<bv8>)
    ensures LooksLikeSvg(buf) ==> |buf| >= |SvgTag|
  {
    var head := LowerBytes(buf[..Min(SvgWindow, |buf|)]);
    Contains(head, SvgTag) || Contains(head, XmlDecl)
  }

  /** Markup after the first 100 bytes plays no part in the SVG test. */
  lemma LooksLikeSvgWindow(buf: seq<bv8>, tail: seq<bv8>)
    requires |buf| >= SvgWindow
    ensures LooksLikeSvg(buf + tail) == LooksLikeSvg(buf)
  {
    assert (buf + tail)[..SvgWindow] == buf[..SvgWindow];
  }

  /** The chain of checks of `detectImageTypeFromBuffer`, in source order. */
  function DetectImageType(buf: seq<bv8>): (r: Option<ImageType>)
    ensures |buf| < MinLength ==> r == None
    ensures r.Some? ==> HasSignature(r.value, buf)
  {
    if |buf| < MinLength then None
    else if buf[0] == 0xFF && buf[1] == 0xD8 then Some(Jpeg)
    else if buf[0] == 0x89 && buf[1] == 0x50 && buf[2] == 0x4E && buf[3] == 0x47 then Some(Png)
    else if buf[0] == 0x47 && buf[1] == 0x49 && buf[2] == 0x46 then Some(Gif)
    else if buf[8] == 0x57 && buf[9] == 0x45 && buf[10] == 0x42 && buf[11] == 0x50 then Some(Webp)
    else if buf[0] == 0x42 && buf[1] == 0x4D then Some(Bmp)
    else if LooksLikeSvg(buf) then Some(Svg)
    else None
  }

  // ---------------------------------------------------------------------------
  // Reference definition: each format's signature as a byte string at an
  // offset, tried in a fixed priority order; the first one that matches wins.

  /** The bytes that identify a format, and where they must sit. */
  function Signature(t: ImageType): (seq<bv8>, nat)
    requires t != Svg
  {
    match t
    case Jpeg => ([0xFF, 0xD8], 0)
    case Png => ([0x89, 0x50, 0x4E, 0x47], 0)   // "\x89PNG"
    case Gif => ([0x47, 0x49, 0x46], 0)         // "GIF"
    case Webp => ([0x57, 0x45, 0x42, 0x50], 8)  // "WEBP"; the "RIFF" tag at 0 is not required
    case Bmp => ([0x42, 0x4D], 0)               // "BM"
  }

  predicate HasSignature(t: ImageType, buf: seq<bv8>)
  {
    if t == Svg then LooksLikeSvg(buf)
    else OccursAt(buf, Signature(t).0, Signature(t).1)
  }

  const Priority: seq<ImageType> := [Jpeg, Png, Gif, Webp, Bmp, Svg]

  /** The first format of `order` whose signature `buf` carries. */
  function FirstMatch(order: seq<ImageType>, buf: seq<bv8>): Option<ImageType>
  {
    if order == [] then None
    else if HasSignature(order[0], buf) then Some(order[0])
    else FirstMatch(order[1..], buf)
  }

  /** The signature tests, restated byte by byte. */
  lemma SignatureBytes(buf: seq<bv8>)
    requires |buf| >= MinLength
    ensures HasSignature(Jpeg, buf) <==> buf[0] == 0xFF && buf[1] == 0xD8
    ensures HasSignature(Png, buf) <==> buf[0] == 0x89 && buf[1] == 0x50 && buf[2] == 0x4E && buf[3] == 0x47
    ensures HasSignature(Gif, buf) <==> buf[0] == 0x47 && buf[1] == 0x49 && buf[2] == 0x46
    ensures HasSignature(Webp, buf) <==> buf[8] == 0x57 && buf[9] == 0x45 && buf[10] == 0x42 && buf[11] == 0x50
    ensures HasSignature(Bmp, buf) <==> buf[0] == 0x42 && buf[1] == 0x4D
  {
    assert buf[..2] == [buf[0], buf[1]];
    assert buf[..3] == [buf[0], buf[1], buf[2]];
    assert buf[..4] == [buf[0], buf[1], buf[2], buf[3]];
    assert buf[8..12] == [buf[8], buf[9], buf[10], buf[11]];
  }

  /** Unfolding of `FirstMatch` over the priority list. */
  lemma FirstMatchPriority(buf: seq<bv8>)
    ensures FirstMatch(Priority, buf) ==
      if HasSignature(Jpeg, buf) then Some(Jpeg)
      else if HasSignature(Png, buf) then Some(Png)
      else if HasSignature(Gif, buf) then Some(Gif)
      else if HasSignature(Webp, buf) then Some(Webp)
      else if HasSignature(Bmp, buf) then Some(Bmp)
      else if HasSignature(Svg, buf) then Some(Svg)
      else None
  {
    var p1 := [Png, Gif, Webp, Bmp, Svg];
    var p2 := [Gif, Webp, Bmp, Svg];
    var p3 := [Webp, Bmp, Svg];
    var p4 := [Bmp, Svg];
    var p5 := [Svg];
    assert p5[1..] == [];
    assert FirstMatch(p5, buf) == if HasSignature(Svg, buf) then Some(Svg) else None;
    assert p4[1..] == p5;
    assert FirstMatch(p4, buf) == if HasSignature(Bmp, buf) then Some(Bmp) else FirstMatch(p5, buf);
    assert p3[1..] == p4;
    assert FirstMatch(p3, buf) == if HasSignature(Webp, buf) then Some(Webp) else FirstMatch(p4, buf);
    assert p2[1..] == p3;
    assert FirstMatch(p2, buf) == if HasSignature(Gif, buf) then Some(Gif) else FirstMatch(p3, buf);
    assert p1[1..] == p2;
    assert FirstMatch(p1, buf) == if HasSignature(Png, buf) then Some(Png) else FirstMatch(p2, buf);
    assert Priority[1..] == p1;
  }

  /** The detector is exactly "first signature in priority order", below 12 bytes nothing. */
  lemma DetectIsFirstMatch(buf: seq<bv8>)
    ensures DetectImageType(buf) == if |buf| < MinLength then None else FirstMatch(Priority, buf)
  {
    FirstMatchPriority(buf);
    if |buf| >= MinLength {
      SignatureBytes(buf);
    }
  }

  /** A JPEG start wins over everything, even a "WEBP" tag at bytes 8 to 11. */
  lemma JpegWinsOverWebp(buf: seq<bv8>)
    requires |buf| >= MinLength && buf[0] == 0xFF && buf[1] == 0xD8
    ensures DetectImageType(buf) == Some(Jpeg)
  {
  }

  /**
   * "WEBP" at bytes 8 to 11 is enough for WebP once JPEG, PNG and GIF have been
   * ruled out, whatever bytes 0 to 3 hold: the RIFF container tag is not checked.
   */
  lemma WebpIgnoresRiffTag(buf: seq<bv8>, head: seq<bv8>)
    requires |buf| >= MinLength && |head| == 4
    requires buf[8] == 0x57 && buf[9] == 0x45 && buf[10] == 0x42 && buf[11] == 0x50
    requires !HasSignature(Jpeg, head + buf[4..])
    requires !HasSignature(Png, head + buf[4..])
    requires !HasSignature(Gif, head + buf[4..])
    ensures DetectImageType(head + buf[4..]) == Some(Webp)
  {
    var b := head + buf[4..];
    assert b[8..12] == buf[8..12];
    SignatureBytes(b);
  }

  /** A known format is reported only for a buffer that is long enough. */
  lemma DetectedMeansLongEnough(buf: seq<bv8>, t: ImageType)
    requires DetectImageType(buf) == Some(t)
    ensures |buf| >= MinLength
  {
  }

  /** SVG is reported only when none of the binary signatures matched. */
  lemma SvgOnlyAfterBinaryFormats(buf: seq<bv8>)
    requires DetectImageType(buf) == Some(Svg)
    ensures forall t :: t != Svg ==> !HasSignature(t, buf)
  {
    SignatureBytes(buf);
  }
}
