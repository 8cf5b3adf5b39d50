/**
 * What the two download-zip handlers share: reading the request body, the
 * treatment of one list item (download, name, append), the error note of a
 * failed download, the success count and the report listing.
 */
module Pipeline {
  import opened Common
  import opened Sniffer
  import opened Url
  import opened Naming
  import opened Archive

  /** An element of the request's list: a bare URL string, or an object with `url` and maybe `filename`. */
  datatype ImageItem = Plain(url: string) | Described(url: string, filename: Option<string>)
  {
    /** `typeof imageData === 'object' ? imageData.filename : null` */
    function Alt(): Option<string>
    {
      if Plain? then None else filename
    }
  }

  /**
   * A field of the JSON body, as far as `images || urls` and the validation
   * can tell: missing, present but falsy (`null`, `false`, `0`, `""`), truthy
   * but not an array, or an array.
   */
  datatype Field = Absent | Falsy | Scalar | List(items: seq<ImageItem>)
  {
    /** JavaScript truthiness; every array, even `[]`, is truthy. */
    predicate IsTruthy()
    {
      Scalar? || List?
    }
  }

  /** `images || urls` */
  function SelectList(images: Field, urls: Field): (r: Field)
    ensures r.IsTruthy() <==> images.IsTruthy() || urls.IsTruthy()
    ensures r == images || r == urls
  {
    if images.IsTruthy() then images else urls
  }

  /** The list to process, or `None` where the handler answers 400. */
  function ValidatedList(images: Field, urls: Field): (r: Option<seq<ImageItem>>)
    ensures r.Some? ==> r.value != []
    ensures r.Some? ==> images == List(r.value) || urls == List(r.value)
  {
    var list := SelectList(images, urls);
    if list.List? && |list.items| > 0 then Some(list.items) else None
  }

  /** The request is accepted with list `xs` exactly when `images` is the non-empty array `xs`, or `images` is falsy and `urls` is. */
  lemma ValidatedListCases(images: Field, urls: Field, xs: seq<ImageItem>)
    ensures ValidatedList(images, urls) == Some(xs)
        <==> xs != [] && (images == List(xs) || (!images.IsTruthy() && urls == List(xs)))
  {
  }

  /** A missing, falsy, non-array or empty list is refused. */
  lemma ValidatedListRejects(images: Field, urls: Field)
    ensures ValidatedList(images, urls).None?
        <==> var list := SelectList(images, urls); !list.List? || list.items == []
  {
  }

  /** An empty `images` array is truthy, so it hides `urls` and the request is refused. */
  lemma EmptyImagesShadowUrls(urls: Field)
    ensures ValidatedList(List([]), urls) == None
  {
  }

  /** The 400 answer's message. */
  const InvalidListMessage := "请提供有效的图片数据数组"

  datatype Response = BadRequest(error: string) | ZipStream(filename: string)

  // ---------------------------------------------------------------------------
  // Downloading and naming one item

  /** What `downloadImage(url)` reports: the bytes, or the error's message. */
  datatype FetchOutcome = Fetched(data: seq<bv8>) | FetchFailed(message: string)

  /**
   * The network, seen from the handler: the outcome of the download issued
   * for the item at the given position of the list, with the given URL.
   */
  type Fetcher = (nat, string) -> FetchOutcome

  /** `error_${index + 1}.txt` */
  function ErrorName(index: nat): (r: string)
    ensures StartsWith(r, "error_") && EndsWith(r, ".txt")
    ensures NoReserved(r)
  {
    var digits := NatToString(index + 1);
    DigitsAreClean(digits);
    var r := "error_" + digits + ".txt";
    assert r[|r| - 4..] == ".txt";
    r
  }

  /** Different positions give different error notes' names. */
  lemma ErrorNamesDistinct(i: nat, j: nat)
    requires i != j
    ensures ErrorName(i) != ErrorName(j)
  {
    if ErrorName(i) == ErrorName(j) {
      var a, b := NatToString(i + 1), NatToString(j + 1);
      assert a == ErrorName(i)[6..|ErrorName(i)| - 4];
      assert b == ErrorName(j)[6..|ErrorName(j)| - 4];
      NatToStringInjective(i + 1, j + 1);
    }
  }

  /** The body of the error note of a failed download. */
  function FailureText(url: string, message: string): (r: string)
    ensures OccursAt(r, url, 6)
    ensures OccursAt(r, message, |url| + 11)
  {
    var r := "下载失败: " + url + "\n错误: " + message + "\n";
    assert r[6..6 + |url|] == url;
    assert r[|url| + 11..|url| + 11 + |message|] == message;
    r
  }

  /** The one entry the handlers append for `item` at position `index`, given how its download went. */
  function EntryFor(item: ImageItem, index: nat, outcome: FetchOutcome, parse: Parser): (e: Entry)
    ensures outcome.Fetched? ==> e.payload == Bytes(outcome.data)
    ensures outcome.FetchFailed? ==> e.name == ErrorName(index) && e.payload.Text?
  {
    match outcome
    case Fetched(data) =>
      Entry(ResolveName(parse(item.url), item.Alt(), DetectImageType(data), index), Bytes(data))
    case FetchFailed(message) =>
      Entry(ErrorName(index), Text(FailureText(item.url, message)))
  }

  /**
   * A successful download is stored as received, under a dotted name; a
   * failed one becomes the note `error_{index+1}.txt` naming the URL and the
   * reason.
   */
  lemma EntryForShape(item: ImageItem, index: nat, outcome: FetchOutcome, parse: Parser)
    ensures var e := EntryFor(item, index, outcome, parse);
      && (e.payload.Bytes? <==> outcome.Fetched?)
      && (e.payload.Text? <==> outcome.FetchFailed?)
      && (outcome.Fetched? ==> e.payload.data == outcome.data && '.' in e.name)
      && (outcome.FetchFailed? ==>
            e.name == ErrorName(index) && Contains(e.payload.body, item.url) && Contains(e.payload.body, outcome.message))
  {
    if outcome.FetchFailed? {
      var body := FailureText(item.url, outcome.message);
      assert OccursAt(body, item.url, 6);
      assert OccursAt(body, outcome.message, |item.url| + 11);
    }
  }

  /** A downloaded image is named as `ResolveName` says: the alt rule first, else `fixFilename` on the item's URL. */
  lemma FetchedEntryName(item: ImageItem, index: nat, data: seq<bv8>, parse: Parser)
    ensures var e := EntryFor(item, index, Fetched(data), parse);
      && (item.Alt().Some? && item.Alt().value != [] ==> e.name == AltFilename(item.Alt().value, DetectImageType(data)))
      && (item.Alt().None? || item.Alt().value == [] ==> e.name == FixFilename(parse(item.url), DetectImageType(data), index))
  {
  }

  /** The entries of a list, one per item and in list order, when processed one after another. */
  function ExpectedEntries(items: seq<ImageItem>, fetch: Fetcher, parse: Parser): (r: seq<Entry>)
    ensures |r| == |items|
    ensures forall i :: 0 <= i < |items| ==> r[i] == EntryFor(items[i], i, fetch(i, items[i].url), parse)
  {
    seq(|items|, i requires 0 <= i < |items| => EntryFor(items[i], i, fetch(i, items[i].url), parse))
  }

  /** Appending one entry to the archive for `item`: the body of the handlers' loops. */
  method ProcessItem(archive: ZipArchive, item: ImageItem, index: nat, fetch: Fetcher, parse: Parser)
    returns (fetched: bool)
    requires !archive.finalized
    modifies archive
    ensures archive.entries == old(archive.entries) + [EntryFor(item, index, fetch(index, item.url), parse)]
    ensures !archive.finalized
    ensures fetched <==> fetch(index, item.url).Fetched?
    ensures fetched <==> EntryFor(item, index, fetch(index, item.url), parse).payload.Bytes?
  {
    var result := fetch(index, item.url);
    match result {
      case Fetched(data) =>
        var filename;
        var alt := item.Alt();
        var detected := DetectImageType(data);
        if alt.Some? && alt.value != [] {
          filename := AltFilename(alt.value, detected);
        } else {
          filename := FixFilename(parse(item.url), detected, index);
        }
        archive.Append(filename, Bytes(data));
        fetched := true;
      case FetchFailed(message) =>
        archive.Append(ErrorName(index), Text(FailureText(item.url, message)));
        fetched := false;
    }
  }

  // ---------------------------------------------------------------------------
  // Counting

  /** Number of images (as opposed to notes and reports) among `s`. */
  function CountImages(s: seq<Entry>): (r: nat)
    ensures r <= |s|
  {
    if s == [] then 0
    else CountImages(s[..|s| - 1]) + (if s[|s| - 1].payload.Bytes? then 1 else 0)
  }

  lemma CountImagesAppend(s: seq<Entry>, x: Entry)
    ensures CountImages(s + [x]) == CountImages(s) + if x.payload.Bytes? then 1 else 0
  {
    assert (s + [x])[..|s|] == s;
  }

  lemma {:induction false} CountImagesConcat(a: seq<Entry>, b: seq<Entry>)
    ensures CountImages(a + b) == CountImages(a) + CountImages(b)
    decreases |b|
  {
    if b != [] {
      var n := |b| - 1;
      assert (a + b)[..|a + b| - 1] == a + b[..n];
      CountImagesConcat(a, b[..n]);
    } else {
      assert a + b == a;
    }
  }

  /** The count does not depend on the order of the entries. */
  lemma {:induction false} CountImagesPermutation(a: seq<Entry>, b: seq<Entry>)
    requires multiset(a) == multiset(b)
    ensures CountImages(a) == CountImages(b)
    decreases |a|
  {
    if a == [] {
      assert |b| == |multiset(b)| == 0;
    } else {
      var n := |a| - 1;
      var x := a[n];
      assert a == a[..n] + [x];
      assert x in multiset(b);
      var j :| 0 <= j < |b| && b[j] == x;
      var rest := b[..j] + b[j + 1..];
      assert b == b[..j] + [x] + b[j + 1..];
      assert multiset(a) == multiset(a[..n]) + multiset{x};
      assert multiset(b) == multiset(b[..j]) + multiset{x} + multiset(b[j + 1..]);
      assert multiset(rest) == multiset(b[..j]) + multiset(b[j + 1..]);
      assert multiset(a[..n]) == multiset(a) - multiset{x};
      assert multiset(rest) == multiset(b) - multiset{x};
      CountImagesPermutation(a[..n], rest);
      CountImagesConcat(b[..j], [x]);
      CountImagesConcat(b[..j] + [x], b[j + 1..]);
      CountImagesConcat(b[..j], b[j + 1..]);
    }
  }

  /** Number of positions of `items` whose download succeeds. */
  function SuccessCount(items: seq<ImageItem>, fetch: Fetcher): (r: nat)
    ensures r <= |items|
  {
    if items == [] then 0
    else
      var n := |items| - 1;
      SuccessCount(items[..n], fetch) + (if fetch(n, items[n].url).Fetched? then 1 else 0)
  }

  /** The images in the archive are exactly the successful downloads. */
  lemma {:induction false} ImagesAreSuccesses(items: seq<ImageItem>, fetch: Fetcher, parse: Parser)
    ensures CountImages(ExpectedEntries(items, fetch, parse)) == SuccessCount(items, fetch)
  {
    if items != [] {
      var n := |items| - 1;
      var e := ExpectedEntries(items, fetch, parse);
      assert e[..n] == ExpectedEntries(items[..n], fetch, parse);
      ImagesAreSuccesses(items[..n], fetch, parse);
    }
  }

  /** When every download succeeds, every item is an image in the archive. */
  lemma {:induction false} AllFetchedAllImages(items: seq<ImageItem>, fetch: Fetcher)
    requires forall i :: 0 <= i < |items| ==> fetch(i, items[i].url).Fetched?
    ensures SuccessCount(items, fetch) == |items|
  {
    if items != [] {
      var n := |items| - 1;
      AllFetchedAllImages(items[..n], fetch);
    }
  }

  // ---------------------------------------------------------------------------
  // The report

  const ReportName := "download_report.txt"

  /** `${index + 1}. ${url}` followed by ` (${filename})` when the item carries a non-empty filename. */
  function ListingLine(index: nat, item: ImageItem): (r: string)
    ensures StartsWith(r, NatToString(index + 1) + ". " + item.url)
    ensures item.Alt().None? || item.Alt().value == [] ==> r == NatToString(index + 1) + ". " + item.url
    ensures item.Alt().Some? && item.Alt().value != [] ==> EndsWith(r, " (" + item.Alt().value + ")")
  {
    var head := NatToString(index + 1) + ". " + item.url;
    match item.Alt()
    case Some(alt) =>
      if alt != [] then
        var r := head + " (" + alt + ")";
        assert r[..|head|] == head;
        r
      else head
    case None => head
  }

  /** The `详细列表` section, one line per item. */
  function Listing(items: seq<ImageItem>): (r: seq<string>)
    ensures |r| == |items|
    ensures forall i :: 0 <= i < |items| ==> r[i] == ListingLine(i, items[i])
  {
    if items == [] then []
    else
      var n := |items| - 1;
      Listing(items[..n]) + [ListingLine(n, items[n])]
  }
}
