/**
 * What the downloader uses of WHATWG URL parsing (`new URL(s)`): whether the
 * string parses at all, and then its `protocol` and `pathname`. The parser
 * itself is not modelled; every operation that parses takes the parser's
 * result, or the parser as a function, as an argument.
 */
module Url {
  import opened Common

  datatype ParsedUrl = ParsedUrl(protocol: string, pathname: string)

  /** `s => new URL(s)`, with `None` where the constructor throws. */
  type Parser = string -> Option<ParsedUrl>

  /** `isValidUrl`: the string parses and its scheme is http or https. */
  predicate IsValidUrl(parsed: Option<ParsedUrl>)
    ensures IsValidUrl(parsed) <==> parsed.Some? && parsed.value.protocol in {"http:", "https:"}
  {
    parsed.Some? && (parsed.value.protocol == "http:" || parsed.value.protocol == "https:")
  }

  /** Validity depends on the scheme alone: the path plays no part, and a string that does not parse is never valid. */
  lemma IsValidUrlIgnoresPath(protocol: string, p1: string, p2: string)
    ensures IsValidUrl(Some(ParsedUrl(protocol, p1))) == IsValidUrl(Some(ParsedUrl(protocol, p2)))
    ensures !IsValidUrl(None)
  {
  }

  /** `pathname.substring(pathname.lastIndexOf('/') + 1)`: the text after the last slash. */
  function LastSegment(pathname: string): (r: string)
    ensures '/' !in r
    ensures EndsWith(pathname, r)
    ensures |r| < |pathname| ==> pathname[|pathname| - |r| - 1] == '/'
  {
    match LastIndexOf(pathname, '/')
    case None => pathname
    case Some(k) => pathname[k + 1..]
  }

  /** The segment after a slash that is followed by no other slash. */
  lemma LastSegmentAfterSlash(pathname: string, k: nat)
    requires k < |pathname| && pathname[k] == '/' && '/' !in pathname[k + 1..]
    ensures LastSegment(pathname) == pathname[k + 1..]
  {
  }
}
