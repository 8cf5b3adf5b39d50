/**
 * Naming of archive entries and downloads: `fixFilename` and the alt-name rule
 * of the two server handlers, `guessExtensionFromUrl`, and the name of the zip
 * file itself.
 */
module Naming {
  import opened Common
  import opened Sniffer
  import opened Url

  /** `image_${index + 1}`: the generated name for the item at zero-based `index`. */
  function IndexedName(index: nat): (r: string)
    ensures StartsWith(r, "image_")
    ensures '.' !in r && NoReserved(r)
  {
    var digits := NatToString(index + 1);
    DigitsAreClean(digits);
    "image_" + digits
  }

  /** The detected extension, or `jpg` when nothing was detected. */
  function ExtOrJpg(detected: Option<ImageType>): (e: string)
    ensures |e| > 0 && forall i :: 0 <= i < |e| ==> 'a' <= e[i] <= 'z'
  {
    match detected
    case Some(t) => t.Ext()
    case None => "jpg"
  }

  // ---------------------------------------------------------------------------
  // fixFilename

  /** The regex `/\.[^/.]+$/` matches `name` at index `p`: a dot, then one or more characters up to the end, none a dot or a slash. */
  predicate ExtensionAt(name: string, p: nat)
  {
    p + 1 < |name| && name[p] == '.' && forall k :: p < k < |name| ==> name[k] != '.' && name[k] != '/'
  }

  /** `name.replace(/\.[^/.]+$/, '')`: drop the final extension, if there is one. */
  function StripExtension(name: string): (r: string)
    ensures StartsWith(name, r)
    ensures r == name || ExtensionAt(name, |r|)
    ensures forall p :: ExtensionAt(name, p) ==> |r| == p
  {
    match LastIndexOf(name, '.')
    case None => name
    case Some(p) =>
      if p + 1 < |name| && '/' !in name[p + 1..] then name[..p] else name
  }

  /** A name without a dot has no extension to strip. */
  lemma StripExtensionNoDot(name: string)
    requires '.' !in name
    ensures StripExtension(name) == name
  {
  }

  /** The last path segment of the URL, or `image_{index+1}` when that segment is empty. */
  function BaseName(u: ParsedUrl, index: nat): (r: string)
    ensures r != [] && '/' !in r
  {
    var segment := LastSegment(u.pathname);
    if segment == [] then IndexedName(index) else segment
  }

  /** Appending a clean extension commutes with the reserved-character replacement. */
  lemma SanitizeWithExt(stem: string, ext: string)
    requires forall i :: 0 <= i < |ext| ==> 'a' <= ext[i] <= 'z'
    ensures Sanitize(stem + "." + ext) == Sanitize(stem) + "." + ext
  {
    SanitizeConcat(stem, "." + ext);
    SanitizeKeepsClean("." + ext);
  }

  /** `${stem}.${ext}` after the reserved-character replacement. */
  function SafeWithExt(stem: string, ext: string): (r: string)
    requires |ext| > 0 && forall i :: 0 <= i < |ext| ==> 'a' <= ext[i] <= 'z'
    ensures r == Sanitize(stem) + "." + ext
    ensures NoReserved(r) && '.' in r && EndsWith(r, "." + ext)
  {
    SanitizeWithExt(stem, ext);
    assert (Sanitize(stem) + "." + ext)[|stem|] == '.';
    Sanitize(stem + "." + ext)
  }

  /** The replacement never touches a dot. */
  lemma SanitizeKeepsDot(s: string)
    requires '.' in s
    ensures '.' in Sanitize(s)
  {
    var k :| 0 <= k < |s| && s[k] == '.';
    assert Sanitize(s)[k] == '.';
  }

  /** The steps of `fixFilename` after the last path segment `filename` is known. */
  function NameFromSegment(filename: string, detected: Option<ImageType>): (r: string)
    ensures NoReserved(r)
    ensures '.' in r
    ensures detected.Some? ==> EndsWith(r, "." + detected.value.Ext())
  {
    var stem := StripExtension(filename);
    if detected.Some? then SafeWithExt(stem, detected.value.Ext())
    else if '.' in filename then SanitizeKeepsDot(filename); Sanitize(filename)
    else SafeWithExt(stem, "jpg")
  }

  /**
   * `fixFilename(originalUrl, detectedType, index)`; `parsed` is the outcome of
   * `new URL(originalUrl)`, `None` where it throws.
   */
  function FixFilename(parsed: Option<ParsedUrl>, detected: Option<ImageType>, index: nat): (r: string)
    ensures NoReserved(r)
    ensures '.' in r
    ensures detected.Some? ==> EndsWith(r, "." + detected.value.Ext())
  {
    match parsed
    case None =>
      var name := IndexedName(index);
      SanitizeKeepsClean(name);
      SafeWithExt(name, ExtOrJpg(detected))
    case Some(u) => NameFromSegment(BaseName(u, index), detected)
  }

  /** With a detected type: the segment minus its last extension, then the detected extension. */
  lemma FixFilenameDetected(u: ParsedUrl, t: ImageType, index: nat)
    ensures FixFilename(Some(u), Some(t), index)
         == Sanitize(StripExtension(BaseName(u, index))) + "." + t.Ext()
  {
    SanitizeWithExt(StripExtension(BaseName(u, index)), t.Ext());
  }

  /** Without a detected type: a dotted name is kept as it is, any other gets `.jpg`. */
  lemma FixFilenameUndetected(u: ParsedUrl, index: nat)
    ensures var base := BaseName(u, index);
      && ('.' in base ==> FixFilename(Some(u), None, index) == Sanitize(base))
      && ('.' !in base ==> FixFilename(Some(u), None, index) == Sanitize(base) + ".jpg")
  {
    var base := BaseName(u, index);
    if '.' !in base {
      StripExtensionNoDot(base);
      assert FixFilename(Some(u), None, index) == Sanitize(base) + "." + "jpg";
      assert "." + "jpg" == ".jpg";
      AppendAssoc(Sanitize(base), ".", "jpg");
    }
  }

  /**
   * An unparseable URL, and equally a URL whose last path segment is empty,
   * yields exactly `image_{index+1}.{ext or jpg}`.
   */
  lemma FixFilenameFallback(parsed: Option<ParsedUrl>, detected: Option<ImageType>, index: nat)
    requires parsed.None? || LastSegment(parsed.value.pathname) == []
    ensures FixFilename(parsed, detected, index) == IndexedName(index) + "." + ExtOrJpg(detected)
  {
    if parsed.Some? {
      var name := IndexedName(index);
      assert BaseName(parsed.value, index) == name;
      StripExtensionNoDot(name);
      SanitizeWithExt(name, ExtOrJpg(detected));
      SanitizeKeepsClean(name);
    }
  }

  /** The replacement has already been applied: applying it again changes nothing. */
  lemma FixFilenameIsSanitized(parsed: Option<ParsedUrl>, detected: Option<ImageType>, index: nat)
    ensures Sanitize(FixFilename(parsed, detected, index)) == FixFilename(parsed, detected, index)
  {
    SanitizeKeepsClean(FixFilename(parsed, detected, index));
  }

  /** Where the regex matches, the stripped name is everything before the dot. */
  lemma StripExtensionAt(name: string, p: nat)
    requires ExtensionAt(name, p)
    ensures StripExtension(name) == name[..p]
  {
  }

  /**
   * Content beats the URL: a URL ending in `/stem.urlExt` whose bytes are of
   * type `t` is stored as `stem.{t's extension}`, whatever `urlExt` says.
   */
  lemma SniffedTypeBeatsUrlExtension(u: ParsedUrl, dir: string, stem: string, urlExt: string, t: ImageType, index: nat)
    requires u.pathname == dir + "/" + stem + "." + urlExt
    requires NoReserved(stem) && '.' !in urlExt && '/' !in urlExt && urlExt != []
    ensures FixFilename(Some(u), Some(t), index) == stem + "." + t.Ext()
  {
    var name := stem + "." + urlExt;
    assert u.pathname[|dir| + 1..] == name;
    assert '/' !in stem by {
      assert forall i :: 0 <= i < |stem| ==> !IsReserved(stem[i]);
    }
    LastSegmentAfterSlash(u.pathname, |dir|);
    assert BaseName(u, index) == name;
    assert ExtensionAt(name, |stem|) by {
      assert forall k :: |stem| < k < |name| ==> name[k] == urlExt[k - |stem| - 1];
    }
    StripExtensionAt(name, |stem|);
    assert name[..|stem|] == stem;
    SanitizeKeepsClean(stem);
    FixFilenameDetected(u, t, index);
  }

  // ---------------------------------------------------------------------------
  // The alt-name rule of the handlers

  /**
   * A non-empty alt name is used verbatim when it contains a dot, even when its
   * extension contradicts the detected type; otherwise the detected extension
   * (or `jpg`) is appended.
   */
  function AltFilename(alt: string, detected: Option<ImageType>): (r: string)
    ensures StartsWith(r, alt) && '.' in r
    ensures '.' in alt ==> r == alt
    ensures '.' !in alt ==> r[|alt|..] == "." + ExtOrJpg(detected)
  {
    if '.' !in alt then
      var r := alt + "." + ExtOrJpg(detected);
      assert r[|alt|] == '.';
      r
    else alt
  }

  /** The name under which a fetched image is stored: the alt name when one is given and non-empty, else `fixFilename`. */
  function ResolveName(parsed: Option<ParsedUrl>, alt: Option<string>, detected: Option<ImageType>, index: nat): (r: string)
    ensures '.' in r
    ensures alt.Some? && alt.value != [] ==> StartsWith(r, alt.value)
    ensures alt.None? || alt.value == [] ==> NoReserved(r)
  {
    if alt.Some? && alt.value != [] then AltFilename(alt.value, detected)
    else FixFilename(parsed, detected, index)
  }

  /** The alt name wins over the URL: only the alt text and the detected type matter. */
  lemma AltNameIgnoresUrl(p1: Option<ParsedUrl>, p2: Option<ParsedUrl>, alt: string, detected: Option<ImageType>, i1: nat, i2: nat)
    requires alt != []
    ensures ResolveName(p1, Some(alt), detected, i1) == ResolveName(p2, Some(alt), detected, i2)
  {
  }

  // ---------------------------------------------------------------------------
  // guessExtensionFromUrl

  const ImageExtensions: seq<string> := ["jpg", "jpeg", "png", "gif", "webp", "bmp", "svg"]

  /** Index of the first extension `e` of `exts` such that `.e` occurs in `lowerUrl`. */
  function FirstListed(lowerUrl: string, exts: seq<string>): (r: Option<nat>)
    ensures r.Some? ==> r.value < |exts| && Contains(lowerUrl, "." + exts[r.value])
    ensures r.Some? ==> forall j :: 0 <= j < r.value ==> !Contains(lowerUrl, "." + exts[j])
    ensures r.None? ==> forall j :: 0 <= j < |exts| ==> !Contains(lowerUrl, "." + exts[j])
  {
    if exts == [] then None
    else if Contains(lowerUrl, "." + exts[0]) then Some(0)
    else
      match FirstListed(lowerUrl, exts[1..])
      case None => None
      case Some(k) => Some(k + 1)
  }

  /** `guessExtensionFromUrl(url)` */
  function GuessExtension(url: string): (r: string)
    ensures r in ImageExtensions
    ensures r == "jpg" || Contains(LowerAscii(url), "." + r)
  {
    match FirstListed(LowerAscii(url), ImageExtensions)
    case Some(k) => ImageExtensions[k]
    case None => "jpg"
  }

  /** The guess is the first listed extension found in the lower-cased URL, and `jpg` when none is. */
  lemma GuessExtensionIsFirstListed(url: string, k: nat)
    requires k < |ImageExtensions| && Contains(LowerAscii(url), "." + ImageExtensions[k])
    requires forall j :: 0 <= j < k ==> !Contains(LowerAscii(url), "." + ImageExtensions[j])
    ensures GuessExtension(url) == ImageExtensions[k]
  {
    var r := FirstListed(LowerAscii(url), ImageExtensions);
    assert r.Some?;
    if r.value < k {
    } else if r.value > k {
    }
  }

  lemma GuessExtensionDefault(url: string)
    requires forall j :: 0 <= j < |ImageExtensions| ==> !Contains(LowerAscii(url), "." + ImageExtensions[j])
    ensures GuessExtension(url) == "jpg"
  {
  }

  /** The `for (const ext of imageExtensions)` loop, returning at the first extension found. */
  method GuessExtensionFromUrl(url: string) returns (ext: string)
    ensures ext == GuessExtension(url)
  {
    var lowerUrl := LowerAscii(url);
    for k := 0 to |ImageExtensions|
      invariant forall j :: 0 <= j < k ==> !Contains(lowerUrl, "." + ImageExtensions[j])
    {
      if Contains(lowerUrl, "." + ImageExtensions[k]) {
        GuessExtensionIsFirstListed(url, k);
        return ImageExtensions[k];
      }
    }
    GuessExtensionDefault(url);
    return "jpg";
  }

  // ---------------------------------------------------------------------------
  // The archive's own name

  /** `s.replace(/[:.]/g, '-')` */
  function DashForColonDot(s: string): (r: string)
    ensures |r| == |s|
    ensures forall i :: 0 <= i < |s| ==> r[i] == if s[i] == ':' || s[i] == '.' then '-' else s[i]
  {
    if s == [] then [] else [if s[0] == ':' || s[0] == '.' then '-' else s[0]] + DashForColonDot(s[1..])
  }

  /**
   * `images_${iso.replace(/[:.]/g, '-').slice(0, 19)}.zip` for the ISO-8601 time
   * `isoTimestamp`: no colon anywhere, and the one dot is that of `.zip`.
   */
  function ZipFilename(isoTimestamp: string): (r: string)
    ensures StartsWith(r, "images_") && EndsWith(r, ".zip")
    ensures ':' !in r
    ensures forall i :: 0 <= i < |r| && r[i] == '.' ==> i == |r| - 4
    ensures |r| <= 30
    ensures |r| == 11 + Min(19, |isoTimestamp|)
    ensures forall i :: 0 <= i < Min(19, |isoTimestamp|) ==>
      r[7 + i] == if isoTimestamp[i] == ':' || isoTimestamp[i] == '.' then '-' else isoTimestamp[i]
  {
    var stamp := DashForColonDot(isoTimestamp);
    var r := "images_" + stamp[..Min(19, |stamp|)] + ".zip";
    assert forall i :: 7 <= i < |r| - 4 ==> r[i] == stamp[i - 7];
    r
  }
}
