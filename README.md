# Batch image downloader: a verified model of its core

The batch image downloader takes a list of image URLs and returns one zip archive holding them. A web page collects the URLs, either as plain text or as pasted `<img>` markup. A server downloads each image, detects its real format from its first bytes, names it and adds it to a zip archive. There are two servers:

- an Express server (`server.js`) that downloads the items one after another;
- a serverless handler (`api/server.js`) that keeps the first ten items and downloads them three at a time.

This Dafny project models the decision logic of both servers and of both page scripts, and proves what that logic promises:

- **`Sniffer`** models `detectImageTypeFromBuffer`. It is proved equal to a reference definition: each format's signature at its offset, tried in priority order.
- **`Naming`** covers:
  - `fixFilename`;
  - the handlers' rule for names taken from the `alt` text;
  - `guessExtensionFromUrl`, both as a loop method and as the function that specifies it;
  - the archive's `images_<timestamp>.zip` name.
- **`Pipeline`** covers what both handlers share:
  - the request-body validation (`images || urls`);
  - the entry appended for one item: the image, or an `error_<n>.txt` note;
  - counting successes;
  - the report listing.
- **`Archive`** is the zip archive as an append-only list of entries that is finalized once.
- **`LocalServer`** models the sequential `downloadZipHandler`. **`ApiServer`** models the capped, chunked POST `/api/download-zip` branch. Inside a chunk, downloads finish in an order that is not determined. The model picks which one finishes next nondeterministically and proves that the entries are the sequential ones rearranged within each chunk.
- **`Tokens`** models the splitting of plain text into URLs that both page scripts use (`getUrls`). The split/flatMap/filter pipeline is proved to yield exactly the whitespace-separated words of the text.
- **`Client`** models the HTML-aware page script: `getUrls`, `parseHtmlImages` (the `/<img[^>]*>/gi` scan and the `src`/`alt` attribute regexes), `sanitizeFilename` and `getFilenameFromUrl`.
- **`Url`** stands for WHATWG URL parsing. The parser is a function parameter. `Url` itself only defines `isValidUrl` and the last path segment.

The network, the clock, `Math.random` and `new URL` are parameters of the model:

- a `Fetcher` gives the outcome of each item's download;
- a `Parser` gives `new URL`'s protocol and pathname, or `None` where it throws;
- the current time comes as its `toISOString()` and `toLocaleString('zh-CN')` texts;
- the timestamp and the random tag of `getFilenameFromUrl` are passed in.

Some behaviour of the code is easy to misread. The model follows the code as written:

- HTML mode is chosen by a case-sensitive test for `<img` and `src=`. The tag scan itself ignores case.
- The servers do not sanitize an `alt` name: a dotted one is used as given, even when its extension contradicts the detected format. Only the page's `sanitizeFilename` cleans it.
- An empty `images` array is truthy in JavaScript. It therefore hides a non-empty `urls` array, and the request is refused (`Pipeline.EmptyImagesShadowUrls`).
- The `src` regex has no word boundary, so it can match inside `data-src`. The model takes the leftmost match, as the regex engine does.
- The page keeps the opening and closing quotes independent. `src="x'` therefore yields `x`.

## Model

Some members are definitions without a contract of their own. They have no row; the rows below that use them state their meaning:

- `Client.TagAt`: the span one match of `/<img[^>]*>/i` covers (public/script.js:59).
- `Sniffer.HasSignature`: one format's signature test (api/server.js:9-36).
- `Sniffer.FirstMatch`: the priority-order reference for the detector.
- `Pipeline.ImageItem.Alt`: `typeof imageData === 'object' ? imageData.filename : null` (api/server.js:168, server.js:183).
- `Pipeline.Field.IsTruthy`: the JavaScript truthiness behind `images || urls` and `!imageList` (api/server.js:124-126, server.js:143-145). `Pipeline.SelectList`, `Pipeline.ValidatedList` and `Pipeline.ValidatedListCases` state its effect.
- `ApiServer.ChunkwisePermutation`: the entries of each consecutive chunk of three rearranged among themselves. This is the completion order that `Promise.all` allows (api/server.js:160-214). `ApiServer.ChunkwiseIsPermutation` and `ApiServer.ChunkwiseKeepsChunk` state what it implies.

| member | source | states |
|---|---|---|
| Sniffer.DetectImageType | api/server.js:5-40 | fewer than 12 bytes are never classified; any detected type carries its signature |
| Sniffer.DetectIsFirstMatch | api/server.js:5-40 | detection equals the first format, in the order JPEG, PNG, GIF, WebP, BMP, SVG, whose signature the buffer carries; nothing below 12 bytes; identical in server.js:62-98 |
| Sniffer.SignatureBytes | api/server.js:9-30 | each binary signature test is exactly the byte comparison written in the source |
| Sniffer.JpegWinsOverWebp | api/server.js:9-25 | a JPEG start wins even over a WEBP tag at bytes 8 to 11 |
| Sniffer.WebpIgnoresRiffTag | api/server.js:24-26 | "WEBP" at bytes 8 to 11 suffices whatever bytes 0 to 3 hold, once JPEG, PNG and GIF are ruled out |
| Sniffer.DetectedMeansLongEnough | api/server.js:6 | a detected type implies at least 12 bytes |
| Sniffer.SvgOnlyAfterBinaryFormats | api/server.js:33-37 | SVG is reported only when no binary signature matches |
| Sniffer.LooksLikeSvg | api/server.js:34-35 | the SVG test holds only for buffers of at least 4 bytes |
| Sniffer.LowerBytes | api/server.js:34 | `toLowerCase()` of the window, byte by byte: same length, each ASCII capital lowered and every other byte kept |
| Sniffer.ImageType.Ext | api/server.js:10-36 | the `ext` string of each detected type is a non-empty lower-case word (`jpg`, `png`, `gif`, `webp`, `bmp`, `svg`) |
| Sniffer.LooksLikeSvgWindow | api/server.js:34 | markup after the first 100 bytes plays no part in the SVG test |
| Url.LastSegment | api/server.js:45-46 | the result is the text after the last slash: slash-free, a suffix of the path, preceded by a slash when shorter |
| Url.LastSegmentAfterSlash | public/script.js:283-284 | the segment after a slash with no later slash is the file name |
| Url.IsValidUrl | public/script.js:97-104 | valid exactly when the string parses and its protocol is `http:` or `https:` |
| Url.IsValidUrlIgnoresPath | script.js:50-57 | validity depends on the scheme alone, and a string that does not parse is never valid |
| Naming.IndexedName | api/server.js:48-50 | `image_{index+1}` has no dot and no reserved character |
| Naming.ExtOrJpg | api/server.js:65 | the detected extension or `jpg`: a non-empty lower-case word |
| Naming.BaseName | api/server.js:45-50 | the last path segment, or `image_{index+1}` when it is empty; never empty, never containing a slash |
| Naming.StripExtension | api/server.js:52 | the result is a prefix of the name, and it is the name itself or cut exactly where `/\.[^/.]+$/` matches |
| Naming.StripExtensionAt | server.js:112 | where the extension regex matches at p, the stripped name is the text before p |
| Naming.SafeWithExt | api/server.js:54-62 | appending a lower-case extension and then sanitizing yields the sanitized stem, a dot and the extension |
| Naming.NameFromSegment | api/server.js:52-63 | the name built from a non-empty segment has no reserved character, contains a dot, and ends with the detected extension when a type was detected |
| Naming.FixFilename | api/server.js:42-68 | every result has no reserved character and contains a dot; with a detected type it ends in `.ext`; identical in server.js:100-133 |
| Naming.FixFilenameDetected | api/server.js:52-56 | with a detected type the name is the sanitized segment minus its last extension, plus the detected extension |
| Naming.FixFilenameUndetected | server.js:115-125 | without a detected type a dotted segment is kept as sanitized, and any other segment gets `.jpg` |
| Naming.FixFilenameFallback | api/server.js:44-67 | an unparseable URL or an empty last segment gives exactly `image_{index+1}.{ext or jpg}`; the catch branch (lines 64-67) gives the same name |
| Naming.FixFilenameIsSanitized | api/server.js:62 | the name is a fixed point of the reserved-character replacement |
| Naming.SniffedTypeBeatsUrlExtension | api/server.js:52-56 | `…/stem.urlExt` holding bytes of type t is stored as `stem.{t.ext}`, whatever `urlExt` says |
| Naming.AltFilename | api/server.js:178-185 | a dotted alt name is used verbatim; any other gets `.` plus the detected extension or `jpg`; the same rule at server.js:193-200 |
| Naming.ResolveName | api/server.js:178-188 | a non-empty alt name is a prefix of the name; otherwise `fixFilename`'s clean name; always dotted |
| Naming.AltNameIgnoresUrl | server.js:193-203 | with a non-empty alt name, neither the URL nor the index changes the name |
| Naming.FirstListed | public/script.js:303-310 | the index of the first listed extension found in the lowered URL, and none is found before it |
| Naming.GuessExtension | public/script.js:302-313 | the guess is a listed extension, and it is `jpg` or occurs as `.ext` in the lower-cased URL |
| Naming.GuessExtensionFromUrl | public/script.js:302-313 | the early-return loop computes `GuessExtension`; identical copies at script.js:251-262 and server.js:48-59 |
| Naming.GuessExtensionIsFirstListed | public/script.js:306-309 | the guess is the first listed extension present, whatever later ones are present too |
| Naming.GuessExtensionDefault | public/script.js:312 | `jpg` when no listed extension occurs |
| Naming.DashForColonDot | api/server.js:139 | `replace(/[:.]/g, '-')` keeps the length and changes exactly the colons and dots |
| Naming.ZipFilename | api/server.js:139-140 | the zip name is `images_`, then the first 19 characters of the ISO time with each colon and dot turned into a dash, then `.zip`: its length is 11 plus min(19, length of the time), it has no colon, and its only dot is that of `.zip`; the same at server.js:152-153 |
| Pipeline.ValidatedListCases | api/server.js:121-129 | a request is accepted with list xs iff xs is non-empty and `images` is xs, or `images` is falsy and `urls` is xs; the same validation at server.js:140-147 |
| Pipeline.ValidatedListRejects | api/server.js:124-128 | refused iff the selected field is not an array or is empty |
| Pipeline.EmptyImagesShadowUrls | server.js:143-146 | `images: []` is truthy, hides `urls` and the request is refused |
| Pipeline.SelectList | api/server.js:124 | the JavaScript `or` of `images` and `urls` is one of the two fields, and it is truthy iff either is |
| Pipeline.ValidatedList | server.js:143-147 | an accepted list is non-empty and is the `images` or the `urls` array |
| Pipeline.ErrorName | api/server.js:203 | `error_{index+1}.txt` has no reserved character |
| Pipeline.ErrorNamesDistinct | server.js:220 | different positions get different error-note names |
| Pipeline.FailureText | api/server.js:202 | the note holds the URL and the error message at fixed places |
| Pipeline.EntryFor | server.js:185-229 | a success stores the downloaded bytes; a failure stores a text note named `error_{index+1}.txt` |
| Pipeline.EntryForShape | api/server.js:175-204 | a success stores the bytes unchanged under a dotted name; a failure stores a note named `error_{index+1}.txt` containing the URL and the message |
| Pipeline.FetchedEntryName | server.js:189-205 | a downloaded image is named by the alt rule when a non-empty alt name exists, else by `fixFilename` |
| Pipeline.ExpectedEntries | server.js:178-230 | reference definition of the sequential result: the entry for item i's download at position i, for every item |
| Pipeline.ProcessItem | server.js:180-229 | appends exactly that item's entry and reports success iff the download succeeded; the same body in the chunk callback at api/server.js:164-211 |
| Pipeline.CountImagesConcat | api/server.js:191 | the image count of a concatenation is the sum of the counts |
| Pipeline.CountImages | api/server.js:190-191 | the number of image entries is at most the number of entries |
| Pipeline.SuccessCount | server.js:205-206 | the number of successful downloads is at most the number of items |
| Pipeline.CountImagesPermutation | api/server.js:214 | the image count does not depend on the order of completion |
| Pipeline.ImagesAreSuccesses | server.js:205-206 | the images in the archive are exactly the successful downloads |
| Pipeline.AllFetchedAllImages | server.js:174-206 | when every download succeeds, every item counts as a success |
| Pipeline.ListingLine | api/server.js:235-239 | a listing line is `n. url`, followed by ` (filename)` exactly when a non-empty filename is given |
| Pipeline.Listing | server.js:248-252 | one listing line per item, numbered from one |
| Archive.ZipArchive.constructor | api/server.js:145 | a new archive is empty and open |
| Archive.ZipArchive.Append | api/server.js:190 | appending adds exactly one entry at the end |
| Archive.ZipArchive.Finalize | api/server.js:243 | finalizing closes the archive and keeps its entries |
| LocalServer.LocalReport | server.js:233-253 | the local edition's report: the total is the number of items, nothing is mentioned as capped, the success count is the number of successful downloads and the failures make up the rest, the listing is the one line per item of `Listing`, and the time is the given locale text |
| LocalServer.LocalReportCountsImages | server.js:206-237 | the report's success count equals the number of images the loop appended, and its failure count the number of error notes |
| LocalServer.LocalReportAllFetched | server.js:206-237 | when every download succeeds, the report counts every item as a success and none as a failure |
| LocalServer.DownloadSequentially | server.js:174-230 | the archive holds the expected entries in list order; the success count is the number of successful downloads; the counts add up |
| LocalServer.DownloadZipHandler | server.js:139-258 | refused with the 400 message iff the list is invalid; otherwise the zip is named from the ISO time, finalized, and holds the entries in order followed by the report |
| ApiServer.Capped | api/server.js:132 | the processed list is the first min(10, n) items |
| ApiServer.ApiReport | api/server.js:218-240 | the Vercel edition's report: the total is min(10, n); the original length is mentioned iff n exceeds 10; the success count is the number of successful downloads among the first ten items and the failures make up the rest; the listing is `Listing` of those ten; the time is the given locale text |
| ApiServer.ApiReportCountsImages | api/server.js:191-222 | whatever order each chunk's downloads complete in, the report's success count equals the number of images appended and its failure count the number of error notes |
| ApiServer.ApiReportAllFetched | api/server.js:191-222 | when every processed download succeeds, the success count is min(10, n) and the failure count 0 |
| ApiServer.ChunkwiseIsPermutation | api/server.js:161-215 | a chunkwise rearrangement is a permutation |
| ApiServer.ChunkwiseKeepsChunk | api/server.js:161-162 | a chunkwise rearrangement keeps each chunk's items within that chunk |
| ApiServer.ChunkwiseAppend | api/server.js:161-214 | appending a rearranged chunk to a chunkwise rearrangement of a multiple of three items gives a chunkwise rearrangement of the whole |
| ApiServer.PickRange | api/server.js:162 | picking the positions lo..hi-1 is the slice |
| ApiServer.PickMove | api/server.js:163-212 | moving one completed download from pending to done keeps their union |
| ApiServer.CompletionOrderKeepsCount | api/server.js:214-222 | whatever the completion order, the success count is the number of successful downloads |
| ApiServer.DownloadChunk | api/server.js:162-214 | the chunk's entries are appended, in some order, as a permutation of the expected ones; the success count is their image count |
| ApiServer.DownloadInChunks | api/server.js:156-215 | the archive holds the expected entries rearranged chunk by chunk; the counts add up to the processed length |
| ApiServer.DownloadZip | api/server.js:119-243 | refused iff the list is invalid; otherwise the entries of the capped list, rearranged chunkwise, then the report, and the archive is finalized |
| Tokens.Words | script.js:42-44 | every token is non-empty and has no whitespace |
| Tokens.SplitRuns | script.js:42-43 | `split` by a separator class gives pieces free of separators |
| Tokens.WordsOfTrim | script.js:38 | trimming changes no word |
| Tokens.WordsSplitAtSpace | public/script.js:48 | splitting at whitespace distributes over concatenation |
| Tokens.DropBlankOfSpaceSplit | public/script.js:48-49 | `split(/\s+/)` with the empty pieces dropped gives the words |
| Tokens.LineTokensAreWords | script.js:43-44 | the per-line split of trimmed lines, blanks dropped, gives the words of each line |
| Tokens.WordsOfLineSplit | script.js:42 | splitting into lines loses no word and cuts none |
| Tokens.PlainTokensAreWords | public/script.js:47-49 | the split/flatMap/filter pipeline yields exactly the words of the text |
| Tokens.KeepValid | script.js:45 | a token is in the result iff it is in the input and is a valid URL; the result is no longer than the input |
| Tokens.KeepValidConcat | public/script.js:50 | the filter keeps input order: it distributes over concatenation |
| Tokens.KeepValidSingle | script.js:45 | a single token is kept exactly when it is a valid URL |
| Tokens.DropBlank | public/script.js:49 | `filter(url => url.trim() !== '')` keeps only non-empty, non-blank tokens, all taken from its input |
| Tokens.LineTokens | public/script.js:48 | the per-line trim and `split(/\s+/)` yields only whitespace-free pieces |
| Tokens.PlainTokens | script.js:42-44 | every token of the split/flatMap/filter pipeline is non-empty and whitespace-free |
| Tokens.PlainUrls | script.js:37-48 | `getUrls` is the valid words of the text, in order, blank input included |
| Tokens.PlainUrlsAreValidTokens | script.js:42-45 | every URL returned is a non-empty, space-free, valid http(s) URL |
| Tokens.PlainUrlsKeepValidWords | script.js:42-45 | every valid word of the text is returned |
| Tokens.PlainUrlsOfBlank | script.js:38-39 | a blank text gives no URL |
| Common.Trim | public/script.js:38 | `trim()` leaves no whitespace at either end |
| Common.TrimShape | public/script.js:94 | `trim()` removes only leading and trailing whitespace |
| Common.TrimIdempotent | public/script.js:94 | trimming twice is trimming once |
| Common.Sanitize | public/script.js:91 | the replacement keeps the length, leaves no reserved character and changes exactly the reserved ones |
| Common.SanitizeIdempotent | api/server.js:62 | sanitizing twice is sanitizing once |
| Common.NatToStringInjective | api/server.js:203 | different numbers give different decimal texts |
| Common.NatToString | api/server.js:66 | the decimal text of a number is non-empty and made of digits |
| Common.LastIndexOf | public/script.js:284 | the last position holding the character, with none after it, or none when the character is absent |
| Common.LowerAscii | public/script.js:304 | lower-casing keeps the length and lower-cases each character on its own |
| Common.TrimOfBlank | public/script.js:38-39 | a blank text trims to the empty string, which `getUrls` answers with an empty list |
| Client.SanitizeFilename | public/script.js:89-95 | the cleaned name has no reserved character, no whitespace at its ends and is no longer than the input |
| Client.SanitizeFilenameIdempotent | public/script.js:89-95 | cleaning twice is cleaning once |
| Client.SanitizeFilenameKeepsClean | public/script.js:89-95 | an already clean, trimmed name is unchanged |
| Client.HtmlMode | public/script.js:42-44 | the case-sensitive test for `<img` and `src=`; when it holds, the case-insensitive tag scan finds an opening |
| Client.ImgOpenOfContains | public/script.js:42-59 | a literal `<img` anywhere is found by the `/<img/i` scan |
| Client.IndexFrom | public/script.js:59 | the first `>` at or after a position, or none; no earlier position holds one |
| Client.SkipSpaces | public/script.js:66 | the end of the `\s*` run from a position: blanks up to it, and no blank at it |
| Client.NextQuote | public/script.js:66 | the end of the `[^'"]` run from a position: no quote up to it, and a quote or the end at it |
| Client.AssignedAt | public/script.js:66-72 | a capture after `\s*=\s*` and a quote is quote-free, and non-empty for `src` |
| Client.FindImgOpen | public/script.js:59 | the leftmost case-insensitive `<img` at or after the position, or none; ASCII folding is exact, because a non-unicode `/i` regex never maps a non-ASCII character onto an ASCII one |
| Client.ExecImgTag | public/script.js:59-62 | `exec` finds the leftmost `<img[^>]*>` at or after `lastIndex`, or reports that none exists |
| Client.ImgTags | public/script.js:62 | successive matches are real tags, in order and non-overlapping |
| Client.ImgTagsCover | public/script.js:62 | every tag start lies inside one of the matches: the scan misses none |
| Client.AttrAt | public/script.js:66 | an attribute matched at p has the name at p, a value without quotes and, for `src`, a non-empty value; `AttrAtShape` and `AttrAtLayout` give both directions of the regex |
| Client.AttrAtShape | public/script.js:66-67 | any match at p is laid out as the name, blanks, `=`, blanks, a quote, the quote-free captured value and a quote, so a tag without such a `src` is skipped |
| Client.AttrAtLayout | public/script.js:66 | `name\s*=\s*` followed by a quoted value is matched with exactly that value |
| Client.FirstAttr | public/script.js:66-72 | `match` returns the leftmost attribute match, and none when no position matches |
| Client.FirstAttrIsLeftmost | public/script.js:72-73 | the value is that of the leftmost matching position |
| Client.AltText | public/script.js:72-73 | the leftmost alt capture when an alt attribute matches, else empty; it holds no quote |
| Client.TagItem | public/script.js:63-82 | a tag yields an item iff its `src` is a valid URL; the url is the src; the filename is absent iff alt is empty, else the sanitized alt |
| Client.HtmlItems | public/script.js:55-87 | every item is a valid reference with a sanitized name; at most one item per tag; `HtmlItemsInTagOrder` gives the exact list |
| Client.HtmlItemSource | public/script.js:62-82 | the i-th item is the item of some matched tag j with j >= i |
| Client.HtmlItemOfTag | public/script.js:77-82 | each tag with a valid src yields its item |
| Client.ItemsOfMatches | public/script.js:62-83 | the references of a list of matched tags, at most one per tag, joined in tag order |
| Client.HtmlItemsInTagOrder | public/script.js:59-86 | the scan's result is exactly the items of the matched tags, one tag after another in document order |
| Client.ItemOfMatch | public/script.js:63-82 | one matched tag yields at most one reference |
| Client.ParseHtmlImages | public/script.js:55-87 | the `exec` loop computes `HtmlItems` over the whole text |
| Client.PlainItems | public/script.js:47-52 | reference definition of the plain-mode result: the bare URL string at position i becomes item i |
| Client.GetUrls | public/script.js:37-53 | blank gives nothing; HTML mode gives the items of the trimmed text's tags in document order; otherwise the valid words in order; every URL is valid |
| Client.FilenameFromUrl | public/script.js:280-300 | every generated or kept name contains a dot |
| Client.FilenameKeepsDottedSegment | public/script.js:283-293 | a dotted last segment is the file name unchanged; the same at script.js:232-242 |
| Client.FilenameGeneratedForUndotted | public/script.js:287-290 | an empty or undotted segment gives exactly `image_{timestamp}.{guessExtensionFromUrl(url)}`, a listed extension |
| Client.FilenameOnParseFailure | public/script.js:294-298 | an unparseable URL gives exactly `image_{timestamp}_{random}.jpg`; the same at script.js:243-247 |

## Left out

- The HTTP transfer in `downloadImage` (axios, its timeout and headers, and the reported `content-type`, which no name depends on) is left out. A download appears only as a `Fetcher` outcome: the bytes, or the error message.
- Compression, the zip byte format, archiver's streaming to the response, its `error` event and the 500 answer are left out. The archive is an ordered list of entries.
- The interleaving of `Promise.all` is modelled only as the order in which a chunk's entries are appended. The counters are modelled as sums, which is what single-threaded JavaScript produces.
- The `处理失败` catch branch of both handlers (api/server.js:205-210, server.js:222-228) is not modelled. It is reached when an object's `filename` is truthy and has no `includes` method (a number, `true` or a plain object), so that `altFilename.includes('.')` throws after a successful download. Such items are not modelled, because `ImageItem.filename` is a string.
- The fixed free text of `download_report.txt` (title lines, feature list, platform line) is left out. Only the numbers, the time text and the listing are modelled.
- A list element that is neither a string nor an object with `url`, such as `null` or a number, is not modelled. Neither is a missing `req.body`.
- WHATWG URL parsing is a `Parser` parameter and is not modelled. `Date`, `Math.random` and `toLocaleString` enter as parameters.
- Sniffer.LooksLikeSvg: lower-cases the first 100 bytes byte by byte. UTF-8 decoding and Unicode `toLowerCase` of non-ASCII text are not modelled, and neither can create an ASCII `<svg` that the bytes do not hold.
- Naming.GuessExtension: lower-cases ASCII letters only, where `toLowerCase` is Unicode-aware. The listed extensions are ASCII, so only non-ASCII characters that lower-case to ASCII would differ.
- The `|| 'jpg'` after `guessExtensionFromUrl` in `getFilenameFromUrl` is not modelled, because the guess is never empty.
- The page UI is not modelled: DOM access, progress display, the individual-download mode, fetch calls to the server and the download of the returned blob.
- Console logging, the OPTIONS and health routes, static file serving and 404 answers are not modelled.
- `image-downloader.js` (a command-line variant) and `ecosystem.config.js` (deployment settings) are not part of this model.
