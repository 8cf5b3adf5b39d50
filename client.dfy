/**
 * The browser side of the richer client: reading the text area (`getUrls`),
 * scanning pasted HTML for `<img>` tags (`parseHtmlImages`), cleaning alt
 * texts (`sanitizeFilename`) and naming files for direct downloads
 * (`getFilenameFromUrl`). The plain client's `getUrls` is `Tokens.PlainUrls`.
 */
module Client {
  import opened Common
  import opened Url
  import opened Naming
  import opened Pipeline
  import opened Tokens

  // ---------------------------------------------------------------------------
  // sanitizeFilename

  /** `filename.replace(/[<>:"/\\|?*]/g, '_').trim()` */
  function SanitizeFilename(name: string): (r: string)
    ensures NoReserved(r)
    ensures r == [] || (!IsSpace(r[0]) && !IsSpace(r[|r| - 1]))
    ensures |r| <= |name|
  {
    var clean := Sanitize(name);
    TrimShape(clean);
    Trim(clean)
  }

  /** Cleaning a cleaned name changes nothing. */
  lemma SanitizeFilenameIdempotent(name: string)
    ensures SanitizeFilename(SanitizeFilename(name)) == SanitizeFilename(name)
  {
    var r := SanitizeFilename(name);
    SanitizeKeepsClean(r);
    TrimIdempotent(Sanitize(name));
  }

  /** A name with no reserved character and no surrounding whitespace is kept as it is. */
  lemma SanitizeFilenameKeepsClean(name: string)
    requires NoReserved(name) && Trim(name) == name
    ensures SanitizeFilename(name) == name
  {
    SanitizeKeepsClean(name);
  }

  // ---------------------------------------------------------------------------
  // Scanning for <img> tags: the global regex /<img[^>]*>/gi

  /**
   * The text contains `<img` and `src=` exactly as written: the test that
   * chooses HTML mode. The tag scan, which ignores case, then finds an opening.
   */
  predicate HtmlMode(text: string)
    ensures HtmlMode(text) ==> FindImgOpen(text, 0).Some?
  {
    if Contains(text, "<img") then
      ImgOpenOfContains(text);
      Contains(text, "src=")
    else false
  }

  /** A lower-case `<img` anywhere is found by the case-insensitive scan. */
  lemma ImgOpenOfContains(text: string)
    requires Contains(text, "<img")
    ensures FindImgOpen(text, 0).Some?
  {
    var i: nat :| i <= |text| && OccursAt(text, "<img", i);
    assert text[i..i + 4] == "<img";
    assert LowerAscii("<img") == "<img";
    assert MatchesAt(text, i, "<img");
  }

  /** `s.indexOf(c, from)`: the first position at or after `from` holding `c`. */
  function IndexFrom(s: string, c: char, from: nat): (r: Option<nat>)
    ensures r.Some? ==> from <= r.value < |s| && s[r.value] == c
    ensures r.Some? ==> forall i :: from <= i < r.value ==> s[i] != c
    ensures r.None? ==> forall i :: from <= i < |s| ==> s[i] != c
    decreases |s| - from
  {
    if from >= |s| then None
    else if s[from] == c then Some(from)
    else IndexFrom(s, c, from + 1)
  }

  /** The first position at or after `from` where `<img` starts, in any letter case. */
  function FindImgOpen(html: string, from: nat): (r: Option<nat>)
    ensures r.Some? ==> from <= r.value && MatchesAt(html, r.value, "<img")
    ensures r.Some? ==> forall q :: from <= q < r.value ==> !MatchesAt(html, q, "<img")
    ensures r.None? ==> forall q :: from <= q ==> !MatchesAt(html, q, "<img")
    decreases |html| - from
  {
    if from + 4 > |html| then None
    else if MatchesAt(html, from, "<img") then Some(from)
    else FindImgOpen(html, from + 1)
  }

  /** The regex `/<img[^>]*>/i` matches exactly `html[p..e]`. */
  predicate TagAt(html: string, p: nat, e: nat)
  {
    && MatchesAt(html, p, "<img")
    && p + 5 <= e <= |html| && html[e - 1] == '>'
    && forall i :: p + 4 <= i < e - 1 ==> html[i] != '>'
  }

  /** A match of the tag regex, as the half-open range `[start, end)` of the text. */
  datatype Match = Match(start: nat, end: nat)

  /**
   * `imgRegex.exec(html)` with `imgRegex.lastIndex == from`: the leftmost
   * match starting at or after `from`, or `None` when there is none.
   */
  function ExecImgTag(html: string, from: nat): (r: Option<Match>)
    ensures r.Some? ==> from <= r.value.start && TagAt(html, r.value.start, r.value.end)
    ensures r.Some? ==> forall q, e :: from <= q < r.value.start ==> !TagAt(html, q, e)
    ensures r.None? ==> forall q, e :: from <= q ==> !TagAt(html, q, e)
  {
    match FindImgOpen(html, from)
    case None => None
    case Some(p) =>
      match IndexFrom(html, '>', p + 4)
      case None => None
      case Some(g) => Some(Match(p, g + 1))
  }

  /** The successive matches the `while (exec)` loop visits when `lastIndex` starts at `from`. */
  function ImgTags(html: string, from: nat): (r: seq<Match>)
    ensures forall i :: 0 <= i < |r| ==> from <= r[i].start && TagAt(html, r[i].start, r[i].end)
    ensures forall i :: 0 <= i < |r| - 1 ==> r[i].end <= r[i + 1].start
    decreases |html| - from
  {
    match ExecImgTag(html, from)
    case None => []
    case Some(m) => [m] + ImgTags(html, m.end)
  }

  /** Every `<img…>` occurrence at or after `from` is one of the matches or lies inside one: the scan skips none. */
  lemma {:induction false} ImgTagsCover(html: string, from: nat, q: nat, e: nat) returns (i: nat)
    requires from <= q && TagAt(html, q, e)
    ensures i < |ImgTags(html, from)|
    ensures ImgTags(html, from)[i].start <= q < ImgTags(html, from)[i].end
    decreases |html| - from
  {
    var m := ExecImgTag(html, from);
    assert m.Some?;
    var tags := ImgTags(html, from);
    assert tags[0] == m.value;
    if q < m.value.end {
      i := 0;
    } else {
      var j := ImgTagsCover(html, m.value.end, q, e);
      assert tags[j + 1] == ImgTags(html, m.value.end)[j];
      i := j + 1;
    }
  }

  // ---------------------------------------------------------------------------
  // Attributes: imgTag.match(/src\s*=\s*['"]([^'"]+)['"]/i) and the `alt` analogue

  predicate IsQuote(c: char)
  {
    c == '\'' || c == '"'
  }

  /** The first position at or after `i` that does not hold whitespace (`\s*` matches up to there). */
  function SkipSpaces(tag: string, i: nat): (n: nat)
    requires i <= |tag|
    ensures i <= n <= |tag|
    ensures forall x :: i <= x < n ==> IsSpace(tag[x])
    ensures n == |tag| || !IsSpace(tag[n])
    decreases |tag| - i
  {
    if i == |tag| || !IsSpace(tag[i]) then i else SkipSpaces(tag, i + 1)
  }

  /** The first position at or after `i` that holds a quote, or `|tag|` (`[^'"]*` matches up to there). */
  function NextQuote(tag: string, i: nat): (n: nat)
    requires i <= |tag|
    ensures i <= n <= |tag|
    ensures forall x :: i <= x < n ==> !IsQuote(tag[x])
    ensures n == |tag| || IsQuote(tag[n])
    decreases |tag| - i
  {
    if i == |tag| || IsQuote(tag[i]) then i else NextQuote(tag, i + 1)
  }

  lemma SkipSpacesIs(tag: string, i: nat, n: nat)
    requires i <= n <= |tag|
    requires forall x :: i <= x < n ==> IsSpace(tag[x])
    requires n == |tag| || !IsSpace(tag[n])
    ensures SkipSpaces(tag, i) == n
  {
  }

  lemma NextQuoteIs(tag: string, i: nat, n: nat)
    requires i <= n <= |tag|
    requires forall x :: i <= x < n ==> !IsQuote(tag[x])
    requires n == |tag| || IsQuote(tag[n])
    ensures NextQuote(tag, i) == n
  {
  }

  /** `\s*=\s*['"]([^'"]+)['"]` (`*` instead of `+` when `allowEmpty`) matched from `i`: the captured value. */
  function AssignedAt(tag: string, i: nat, allowEmpty: bool): (r: Option<string>)
    requires i <= |tag|
    ensures r.Some? ==> allowEmpty || r.value != []
    ensures r.Some? ==> forall x :: 0 <= x < |r.value| ==> !IsQuote(r.value[x])
  {
    var j := SkipSpaces(tag, i);
    if j == |tag| || tag[j] != '=' then None
    else
      var k := SkipSpaces(tag, j + 1);
      if k == |tag| || !IsQuote(tag[k]) then None
      else
        var m := NextQuote(tag, k + 1);
        if m == |tag| || (m == k + 1 && !allowEmpty) then None
        else Some(tag[k + 1..m])
  }

  /**
   * The capture of `/NAME\s*=\s*['"]([^'"]+)['"]/i` when the match starts at
   * `p` of `tag` (`*` instead of `+` when `allowEmpty`). The opening and the
   * closing quote need not be the same character.
   */
  function AttrAt(tag: string, p: nat, name: string, allowEmpty: bool): (r: Option<string>)
    ensures r.Some? ==> MatchesAt(tag, p, name)
    ensures r.Some? ==> allowEmpty || r.value != []
    ensures r.Some? ==> forall i :: 0 <= i < |r.value| ==> !IsQuote(r.value[i])
  {
    if !MatchesAt(tag, p, name) then None else AssignedAt(tag, p + |name|, allowEmpty)
  }

  /**
   * Conversely, a match of the attribute regex at `p` is laid out as the name,
   * blanks, `=`, blanks, a quote, the captured quote-free value and a quote.
   */
  lemma AttrAtShape(tag: string, p: nat, name: string, allowEmpty: bool) returns (j: nat, k: nat, m: nat)
    requires AttrAt(tag, p, name, allowEmpty).Some?
    ensures MatchesAt(tag, p, name)
    ensures p + |name| <= j < k < m < |tag|
    ensures forall x :: p + |name| <= x < j ==> IsSpace(tag[x])
    ensures tag[j] == '='
    ensures forall x :: j < x < k ==> IsSpace(tag[x])
    ensures IsQuote(tag[k]) && IsQuote(tag[m])
    ensures forall x :: k < x < m ==> !IsQuote(tag[x])
    ensures AttrAt(tag, p, name, allowEmpty) == Some(tag[k + 1..m])
  {
    j := SkipSpaces(tag, p + |name|);
    k := SkipSpaces(tag, j + 1);
    m := NextQuote(tag, k + 1);
  }

  /** Blanks, `=`, blanks, a quote, a quote-free text and a quote: the text is captured. */
  lemma AssignedAtLayout(tag: string, i: nat, allowEmpty: bool, j: nat, k: nat, m: nat)
    requires i <= j < k < m < |tag|
    requires forall x :: i <= x < j ==> IsSpace(tag[x])
    requires tag[j] == '='
    requires forall x :: j < x < k ==> IsSpace(tag[x])
    requires IsQuote(tag[k]) && IsQuote(tag[m])
    requires forall x :: k < x < m ==> !IsQuote(tag[x])
    requires allowEmpty || k + 1 < m
    ensures AssignedAt(tag, i, allowEmpty) == Some(tag[k + 1..m])
  {
    SkipSpacesIs(tag, i, j);
    SkipSpacesIs(tag, j + 1, k);
    NextQuoteIs(tag, k + 1, m);
  }

  /**
   * The attribute regex matches any text laid out as the name, blanks, `=`,
   * blanks, a quote, a quote-free value and a quote, and captures the value.
   */
  lemma AttrAtLayout(tag: string, p: nat, name: string, allowEmpty: bool, j: nat, k: nat, m: nat)
    requires MatchesAt(tag, p, name)
    requires p + |name| <= j < k < m < |tag|
    requires forall x :: p + |name| <= x < j ==> IsSpace(tag[x])
    requires tag[j] == '='
    requires forall x :: j < x < k ==> IsSpace(tag[x])
    requires IsQuote(tag[k]) && IsQuote(tag[m])
    requires forall x :: k < x < m ==> !IsQuote(tag[x])
    requires allowEmpty || k + 1 < m
    ensures AttrAt(tag, p, name, allowEmpty) == Some(tag[k + 1..m])
  {
    AssignedAtLayout(tag, p + |name|, allowEmpty, j, k, m);
  }

  /** `tag.match(regex)` for the attribute regex: the capture at the leftmost position, at or after `from`, where it matches. */
  function FirstAttr(tag: string, name: string, allowEmpty: bool, from: nat): (r: Option<string>)
    ensures r.Some? ==> allowEmpty || r.value != []
    ensures r.Some? ==> forall i :: 0 <= i < |r.value| ==> !IsQuote(r.value[i])
    ensures r.None? ==> forall q :: from <= q ==> AttrAt(tag, q, name, allowEmpty).None?
    decreases |tag| - from
  {
    if from > |tag| then None
    else if AttrAt(tag, from, name, allowEmpty).Some? then AttrAt(tag, from, name, allowEmpty)
    else FirstAttr(tag, name, allowEmpty, from + 1)
  }

  /** The capture comes from the leftmost position where the regex matches. */
  lemma {:induction false} FirstAttrIsLeftmost(tag: string, name: string, allowEmpty: bool, from: nat, p: nat)
    requires from <= p && AttrAt(tag, p, name, allowEmpty).Some?
    requires forall q :: from <= q < p ==> AttrAt(tag, q, name, allowEmpty).None?
    ensures FirstAttr(tag, name, allowEmpty, from) == AttrAt(tag, p, name, allowEmpty)
    decreases p - from
  {
    if from < p {
      FirstAttrIsLeftmost(tag, name, allowEmpty, from + 1, p);
    }
  }

  // ---------------------------------------------------------------------------
  // parseHtmlImages

  /** `altMatch ? altMatch[1] : ''`: the leftmost alt value, possibly empty, or empty when there is none. */
  function AltText(tag: string): (r: string)
    ensures FirstAttr(tag, "alt", true, 0).None? ==> r == []
    ensures FirstAttr(tag, "alt", true, 0).Some? ==> r == FirstAttr(tag, "alt", true, 0).value
    ensures forall i :: 0 <= i < |r| ==> !IsQuote(r[i])
  {
    match FirstAttr(tag, "alt", true, 0)
    case Some(a) => a
    case None => ""
  }

  /** The reference `parseHtmlImages` pushes for one matched tag, if any. */
  function TagItem(parse: Parser, tag: string): (r: Option<ImageItem>)
    ensures r.Some? <==> FirstAttr(tag, "src", false, 0).Some? && IsValidUrl(parse(FirstAttr(tag, "src", false, 0).value))
    ensures r.Some? ==> r.value.Described? && r.value.url == FirstAttr(tag, "src", false, 0).value
    ensures r.Some? ==> (r.value.filename.None? <==> AltText(tag) == [])
    ensures r.Some? && r.value.filename.Some? ==> r.value.filename.value == SanitizeFilename(AltText(tag))
  {
    match FirstAttr(tag, "src", false, 0)
    case None => None
    case Some(src) =>
      var alt := AltText(tag);
      if IsValidUrl(parse(src)) then
        Some(Described(src, if alt != "" then Some(SanitizeFilename(alt)) else None))
      else None
  }

  /** A reference describes an http(s) URL with a non-empty, quote-free text and a cleaned name. */
  predicate WellFormedRef(parse: Parser, item: ImageItem)
  {
    && item.Described?
    && IsValidUrl(parse(item.url))
    && item.url != []
    && (forall i :: 0 <= i < |item.url| ==> !IsQuote(item.url[i]))
    && (item.filename.Some? ==> NoReserved(item.filename.value))
  }

  /** The references found when the scan starts with `lastIndex == from`. */
  function HtmlItems(parse: Parser, html: string, from: nat): (r: seq<ImageItem>)
    ensures forall i :: 0 <= i < |r| ==> WellFormedRef(parse, r[i])
    ensures |r| <= |ImgTags(html, from)|
    decreases |html| - from
  {
    match ExecImgTag(html, from)
    case None => []
    case Some(m) => ItemOfMatch(parse, html, m) + HtmlItems(parse, html, m.end)
  }

  /** The reference of one match, as a list of at most one. */
  function ItemOfMatch(parse: Parser, html: string, m: Match): (r: seq<ImageItem>)
    requires m.start <= m.end <= |html|
    ensures |r| <= 1
  {
    match TagItem(parse, html[m.start..m.end])
    case Some(it) => [it]
    case None => []
  }

  /** The references of a list of matches, match after match: at most one per match, in list order. */
  function ItemsOfMatches(parse: Parser, html: string, ms: seq<Match>): (r: seq<ImageItem>)
    requires forall i :: 0 <= i < |ms| ==> ms[i].start <= ms[i].end <= |html|
    ensures |r| <= |ms|
  {
    if ms == [] then [] else ItemOfMatch(parse, html, ms[0]) + ItemsOfMatches(parse, html, ms[1..])
  }

  /** The scan's references are those of the matched tags, taken one tag at a time in document order. */
  lemma {:induction false} HtmlItemsInTagOrder(parse: Parser, html: string, from: nat)
    ensures HtmlItems(parse, html, from) == ItemsOfMatches(parse, html, ImgTags(html, from))
    decreases |html| - from
  {
    match ExecImgTag(html, from)
    case None =>
    case Some(m) =>
      HtmlItemsStep(parse, html, from);
      HtmlItemsInTagOrder(parse, html, m.end);
      assert ImgTags(html, from)[1..] == ImgTags(html, m.end);
  }

  /** One step of the scan: the match at `lastIndex == from`, then the scan from its end. */
  lemma HtmlItemsStep(parse: Parser, html: string, from: nat)
    requires ExecImgTag(html, from).Some?
    ensures var m := ExecImgTag(html, from).value;
      && HtmlItems(parse, html, from) == ItemOfMatch(parse, html, m) + HtmlItems(parse, html, m.end)
      && ImgTags(html, from) == [m] + ImgTags(html, m.end)
  {
  }

  /** Every reference comes from one of the matched tags, at or after its own position in the tag list. */
  lemma {:induction false} HtmlItemSource(parse: Parser, html: string, from: nat, i: nat) returns (j: nat)
    requires i < |HtmlItems(parse, html, from)|
    ensures j < |ImgTags(html, from)| && i <= j
    ensures var m := ImgTags(html, from)[j];
      TagItem(parse, html[m.start..m.end]) == Some(HtmlItems(parse, html, from)[i])
    decreases |html| - from
  {
    var m := ExecImgTag(html, from).value;
    HtmlItemsStep(parse, html, from);
    var head := ItemOfMatch(parse, html, m);
    if i < |head| {
      j := 0;
    } else {
      var j' := HtmlItemSource(parse, html, m.end, i - |head|);
      assert ImgTags(html, from)[j' + 1] == ImgTags(html, m.end)[j'];
      j := j' + 1;
    }
  }

  /** Every matched tag with a valid `src` yields a reference. */
  lemma {:induction false} HtmlItemOfTag(parse: Parser, html: string, from: nat, j: nat)
    requires j < |ImgTags(html, from)|
    requires var m := ImgTags(html, from)[j]; TagItem(parse, html[m.start..m.end]).Some?
    ensures var m := ImgTags(html, from)[j]; TagItem(parse, html[m.start..m.end]).value in HtmlItems(parse, html, from)
    decreases |html| - from
  {
    var m := ExecImgTag(html, from).value;
    HtmlItemsStep(parse, html, from);
    if j > 0 {
      assert ImgTags(html, from)[j] == ImgTags(html, m.end)[j - 1];
      HtmlItemOfTag(parse, html, m.end, j - 1);
    }
  }

  /** `parseHtmlImages(htmlText)`: one `exec` per iteration, `lastIndex` moving past each match. */
  method ParseHtmlImages(parse: Parser, htmlText: string) returns (images: seq<ImageItem>)
    ensures images == HtmlItems(parse, htmlText, 0)
  {
    images := [];
    var lastIndex := 0;
    while true
      invariant lastIndex <= |htmlText|
      invariant images + HtmlItems(parse, htmlText, lastIndex) == HtmlItems(parse, htmlText, 0)
      decreases |htmlText| - lastIndex
    {
      var found := ExecImgTag(htmlText, lastIndex);
      if found.None? {
        break;
      }
      HtmlItemsStep(parse, htmlText, lastIndex);
      var m := found.value;
      ghost var here := ItemOfMatch(parse, htmlText, m);
      ghost var later := HtmlItems(parse, htmlText, m.end);
      assert HtmlItems(parse, htmlText, lastIndex) == here + later;
      lastIndex := m.end;
      var imgTag := htmlText[m.start..m.end];
      var srcMatch := FirstAttr(imgTag, "src", false, 0);
      if srcMatch.None? {
        assert here == [];
        assert here + later == later;
        continue;
      }
      var src := srcMatch.value;
      var altMatch := FirstAttr(imgTag, "alt", true, 0);
      var alt := if altMatch.Some? then altMatch.value else "";
      if IsValidUrl(parse(src)) {
        var image := Described(src, if alt != "" then Some(SanitizeFilename(alt)) else None);
        assert here == [image];
        AppendAssoc(images, [image], later);
        images := images + [image];
      } else {
        assert here == [];
        assert here + later == later;
      }
    }
  }

  // ---------------------------------------------------------------------------
  // getUrls

  /** Plain-mode tokens, sent as bare URL strings. */
  function PlainItems(urls: seq<string>): (r: seq<ImageItem>)
    ensures |r| == |urls|
    ensures forall i :: 0 <= i < |r| ==> r[i] == Plain(urls[i])
  {
    seq(|urls|, i requires 0 <= i < |urls| => Plain(urls[i]))
  }

  /**
   * `getUrls()` of the richer client: nothing for blank input, the `<img>`
   * references when the trimmed text looks like HTML, and otherwise the
   * words of the text that are http or https URLs, in input order.
   */
  method GetUrls(parse: Parser, value: string) returns (items: seq<ImageItem>)
    ensures Trim(value) == [] ==> items == []
    ensures Trim(value) != [] && HtmlMode(Trim(value)) ==> items == HtmlItems(parse, Trim(value), 0)
    ensures Trim(value) != [] && HtmlMode(Trim(value)) ==> items == ItemsOfMatches(parse, Trim(value), ImgTags(Trim(value), 0))
    ensures !HtmlMode(Trim(value)) ==> items == PlainItems(KeepValid(parse, Words(value)))
    ensures forall i :: 0 <= i < |items| ==> IsValidUrl(parse(items[i].url))
  {
    var text := Trim(value);
    WordsOfTrim(value);
    if text == [] {
      return [];
    }
    if HtmlMode(text) {
      items := ParseHtmlImages(parse, text);
      HtmlItemsInTagOrder(parse, text, 0);
      return;
    }
    items := PlainItems(PlainUrls(parse, value));
  }

  // ---------------------------------------------------------------------------
  // getFilenameFromUrl

  /**
   * `getFilenameFromUrl(url)`, with `Date.now()` as `timestamp` and the
   * `Math.random().toString(36).substring(2, 8)` text as `randomTag`.
   */
  function FilenameFromUrl(parse: Parser, url: string, timestamp: nat, randomTag: string): (r: string)
    ensures '.' in r
  {
    match parse(url)
    case None => "image_" + NatToString(timestamp) + "_" + randomTag + ".jpg"
    case Some(u) =>
      var name := LastSegment(u.pathname);
      if name == [] || '.' !in name then "image_" + NatToString(timestamp) + "." + GuessExtension(url)
      else name
  }

  /** A dotted name after the last slash of the path is the file name, unchanged. */
  lemma FilenameKeepsDottedSegment(parse: Parser, url: string, timestamp: nat, randomTag: string, k: nat)
    requires parse(url).Some?
    requires var path := parse(url).value.pathname;
      k < |path| && path[k] == '/' && '/' !in path[k + 1..] && '.' in path[k + 1..]
    ensures FilenameFromUrl(parse, url, timestamp, randomTag) == parse(url).value.pathname[k + 1..]
  {
    LastSegmentAfterSlash(parse(url).value.pathname, k);
  }

  /** A path ending in a slash, or in a segment without a dot, gets a generated name with a listed extension. */
  lemma FilenameGeneratedForUndotted(parse: Parser, url: string, timestamp: nat, randomTag: string)
    requires parse(url).Some? && '.' !in LastSegment(parse(url).value.pathname)
    ensures var r := FilenameFromUrl(parse, url, timestamp, randomTag);
      && r == "image_" + NatToString(timestamp) + "." + GuessExtension(url)
      && StartsWith(r, "image_" + NatToString(timestamp) + ".")
      && r[|"image_" + NatToString(timestamp) + "."|..] in ImageExtensions
  {
  }

  /** An unparseable URL gets a generated `.jpg` name carrying the timestamp and the random tag. */
  lemma FilenameOnParseFailure(parse: Parser, url: string, timestamp: nat, randomTag: string)
    requires parse(url).None?
    ensures var r := FilenameFromUrl(parse, url, timestamp, randomTag);
      && r == "image_" + NatToString(timestamp) + "_" + randomTag + ".jpg"
      && StartsWith(r, "image_" + NatToString(timestamp) + "_")
      && OccursAt(r, randomTag, |NatToString(timestamp)| + 7)
      && EndsWith(r, ".jpg")
  {
  }
}
