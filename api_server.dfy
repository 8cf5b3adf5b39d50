/**
 * The POST `/api/download-zip` branch of the serverless handler: validate
 * the list, keep its first ten items, download them in consecutive chunks
 * of three, append the report and close the archive.
 *
 * Within a chunk the three downloads run concurrently and each appends its
 * entry when it completes, so the order of the entries inside a chunk is
 * not determined; chunks themselves follow one another.
 */
module ApiServer {
  import opened Common
  import opened Url
  import opened Naming
  import opened Archive
  import opened Pipeline

  /** At most this many items of a request are processed. */
  const MaxImages := 10

  /** Size of the chunks downloaded together. */
  const Concurrency := 3

  /** `imageList.slice(0, 10)` */
  function Capped(items: seq<ImageItem>): (r: seq<ImageItem>)
    ensures |r| == Min(MaxImages, |items|)
    ensures StartsWith(items, r)
  {
    items[..Min(MaxImages, |items|)]
  }

  /** The report the serverless handler writes: counts over the processed items, the original length when it was capped. */
  function ApiReport(items: seq<ImageItem>, fetch: Fetcher, time: string): (r: Report)
    ensures r.total == Min(MaxImages, |items|) && r.total <= MaxImages
    ensures r.cappedFrom.Some? <==> |items| > MaxImages
    ensures r.cappedFrom.Some? ==> r.cappedFrom.value == |items|
    ensures r.edition == Vercel
    ensures r.succeeded == SuccessCount(Capped(items), fetch) && r.succeeded + r.failed == r.total
    ensures r.listing == Listing(Capped(items)) && |r.listing| == r.total
    ensures r.time == time
  {
    var limited := Capped(items);
    var ok := SuccessCount(limited, fetch);
    Report(Vercel, |limited|, if |items| > MaxImages then Some(|items|) else None, ok, |limited| - ok, time, Listing(limited))
  }

  // ---------------------------------------------------------------------------
  // Order up to permutation within consecutive chunks

  /**
   * `actual` is `expected` with the elements of each consecutive chunk of
   * `Concurrency` (the last one possibly shorter) rearranged among themselves.
   */
  ghost predicate ChunkwisePermutation<T>(actual: seq<T>, expected: seq<T>)
    decreases |expected|
  {
    if |expected| <= Concurrency then
      |actual| == |expected| && multiset(actual) == multiset(expected)
    else
      && |actual| >= Concurrency
      && multiset(actual[..Concurrency]) == multiset(expected[..Concurrency])
      && ChunkwisePermutation(actual[Concurrency..], expected[Concurrency..])
  }

  /** Adding one more (possibly short) chunk, rearranged, after whole chunks. */
  lemma {:induction false} ChunkwiseAppend<T>(a: seq<T>, e: seq<T>, ca: seq<T>, ce: seq<T>, chunks: nat)
    requires ChunkwisePermutation(a, e) && |e| == Concurrency * chunks
    requires |ce| <= Concurrency && |ca| == |ce| && multiset(ca) == multiset(ce)
    ensures ChunkwisePermutation(a + ca, e + ce)
    decreases |e|
  {
    if |e| == 0 {
      assert a + ca == ca && e + ce == ce;
    } else if |e| == Concurrency {
      if ce == [] {
        assert a + ca == a && e + ce == e;
      } else {
        assert (a + ca)[..Concurrency] == a && (e + ce)[..Concurrency] == e;
        assert (a + ca)[Concurrency..] == ca && (e + ce)[Concurrency..] == ce;
      }
    } else {
      ChunkwiseAppend(a[Concurrency..], e[Concurrency..], ca, ce, chunks - 1);
      assert (a + ca)[..Concurrency] == a[..Concurrency] && (e + ce)[..Concurrency] == e[..Concurrency];
      assert (a + ca)[Concurrency..] == a[Concurrency..] + ca && (e + ce)[Concurrency..] == e[Concurrency..] + ce;
    }
  }

  /** Rearranging chunk by chunk rearranges the whole: same length, same elements. */
  lemma {:induction false} ChunkwiseIsPermutation<T>(a: seq<T>, e: seq<T>)
    requires ChunkwisePermutation(a, e)
    ensures |a| == |e| && multiset(a) == multiset(e)
    decreases |e|
  {
    if |e| > Concurrency {
      ChunkwiseIsPermutation(a[Concurrency..], e[Concurrency..]);
      assert a == a[..Concurrency] + a[Concurrency..];
      assert e == e[..Concurrency] + e[Concurrency..];
    }
  }

  /** Each element stays inside its own chunk: `e[g]` is among the positions of chunk `g / Concurrency` of `a`. */
  lemma {:induction false} ChunkwiseKeepsChunk<T>(a: seq<T>, e: seq<T>, g: nat)
    requires ChunkwisePermutation(a, e) && g < |e|
    ensures var start := g - g % Concurrency;
      start < |a| && e[g] in a[start..Min(start + Concurrency, |a|)]
    decreases |e|
  {
    if |e| <= Concurrency {
      assert e[g] in multiset(e);
    } else if g < Concurrency {
      assert e[g] in multiset(e[..Concurrency]);
    } else {
      var a', e', g' := a[Concurrency..], e[Concurrency..], g - Concurrency;
      ChunkwiseKeepsChunk(a', e', g');
      var start := g - g % Concurrency;
      var start' := g' - g' % Concurrency;
      assert g' % Concurrency == g % Concurrency;
      assert start' == start - Concurrency;
      assert e'[g'] == e[g];
      var end', end := Min(start' + Concurrency, |a'|), Min(start + Concurrency, |a|);
      assert |a| >= Concurrency && end' + Concurrency == end;
      SliceOfDrop(a, Concurrency, start', end');
    }
  }

  /** The positions `lo, lo + 1, …, hi - 1`. */
  function Range(lo: nat, hi: nat): (r: seq<nat>)
    requires lo <= hi
    ensures |r| == hi - lo && forall k :: 0 <= k < |r| ==> r[k] == lo + k
  {
    seq(hi - lo, k requires 0 <= k < hi - lo => lo + k)
  }

  /** The elements of `s` at positions `ps`, in that order. */
  ghost function Pick<T>(s: seq<T>, ps: seq<nat>): seq<T>
    requires forall k :: 0 <= k < |ps| ==> ps[k] < |s|
  {
    seq(|ps|, k requires 0 <= k < |ps| => s[ps[k]])
  }

  lemma PickRange<T>(s: seq<T>, lo: nat, hi: nat)
    requires lo <= hi <= |s|
    ensures Pick(s, Range(lo, hi)) == s[lo..hi]
  {
  }

  /**
   * Moving the element at position `ps[p]` from the picked elements to the
   * end of `done` keeps their union, and the remaining positions in bounds.
   */
  lemma PickMove<T>(s: seq<T>, ps: seq<nat>, p: nat, done: seq<T>, lo: nat, hi: nat)
    requires forall k :: 0 <= k < |ps| ==> lo <= ps[k] < hi
    requires hi <= |s| && p < |ps|
    ensures var rest := ps[..p] + ps[p + 1..];
      && (forall k :: 0 <= k < |rest| ==> lo <= rest[k] < hi)
      && multiset(done + [s[ps[p]]]) + multiset(Pick(s, rest)) == multiset(done) + multiset(Pick(s, ps))
  {
    var rest := ps[..p] + ps[p + 1..];
    assert forall k :: 0 <= k < |rest| ==> rest[k] == if k < p then ps[k] else ps[k + 1];
    assert Pick(s, ps) == Pick(s, ps)[..p] + [s[ps[p]]] + Pick(s, ps)[p + 1..];
    assert Pick(s, rest) == Pick(s, ps)[..p] + Pick(s, ps)[p + 1..];
  }

  /** However the downloads of each chunk complete, the images appended are the successful downloads. */
  lemma CompletionOrderKeepsCount(entries: seq<Entry>, limited: seq<ImageItem>, fetch: Fetcher, parse: Parser)
    requires ChunkwisePermutation(entries, ExpectedEntries(limited, fetch, parse))
    ensures CountImages(entries) == SuccessCount(limited, fetch)
  {
    var expected := ExpectedEntries(limited, fetch, parse);
    ChunkwiseIsPermutation(entries, expected);
    CountImagesPermutation(entries, expected);
    ImagesAreSuccesses(limited, fetch, parse);
  }

  /**
   * Whatever order the downloads of each chunk complete in, the report's
   * success count is the number of images in the archive and its failure
   * count the number of error notes.
   */
  lemma ApiReportCountsImages(entries: seq<Entry>, items: seq<ImageItem>, fetch: Fetcher, parse: Parser, time: string)
    requires ChunkwisePermutation(entries, ExpectedEntries(Capped(items), fetch, parse))
    ensures ApiReport(items, fetch, time).succeeded == CountImages(entries)
    ensures ApiReport(items, fetch, time).failed == |entries| - CountImages(entries)
  {
    CompletionOrderKeepsCount(entries, Capped(items), fetch, parse);
    ChunkwiseIsPermutation(entries, ExpectedEntries(Capped(items), fetch, parse));
  }

  /** When every processed download succeeds, the report counts all processed items as successes. */
  lemma ApiReportAllFetched(items: seq<ImageItem>, fetch: Fetcher, time: string)
    requires forall i :: 0 <= i < |Capped(items)| ==> fetch(i, Capped(items)[i].url).Fetched?
    ensures ApiReport(items, fetch, time).succeeded == Min(MaxImages, |items|)
    ensures ApiReport(items, fetch, time).failed == 0
  {
    AllFetchedAllImages(Capped(items), fetch);
  }

  // ---------------------------------------------------------------------------
  // One chunk

  /**
   * `await Promise.all(batch.map(…))` for the items at positions `lo` to
   * `hi - 1`: each download appends its entry when it completes, in an order
   * that is not determined. Returns how many of them succeeded and failed.
   */
  method DownloadChunk(archive: ZipArchive, limited: seq<ImageItem>, lo: nat, hi: nat, fetch: Fetcher, parse: Parser)
    returns (succeeded: nat, failed: nat, ghost chunk: seq<Entry>)
    requires lo <= hi <= |limited| && !archive.finalized
    modifies archive
    ensures !archive.finalized
    ensures archive.entries == old(archive.entries) + chunk
    ensures |chunk| == hi - lo && multiset(chunk) == multiset(ExpectedEntries(limited, fetch, parse)[lo..hi])
    ensures succeeded == CountImages(chunk) && succeeded + failed == hi - lo
  {
    ghost var expected := ExpectedEntries(limited, fetch, parse);
    ghost var before := archive.entries;
    chunk := [];
    var pending := Range(lo, hi);
    succeeded, failed := 0, 0;
    PickRange(expected, lo, hi);
    while pending != []
      invariant forall k :: 0 <= k < |pending| ==> lo <= pending[k] < hi
      invariant !archive.finalized
      invariant archive.entries == before + chunk
      invariant |chunk| + |pending| == hi - lo
      invariant multiset(chunk) + multiset(Pick(expected, pending)) == multiset(expected[lo..hi])
      invariant succeeded == CountImages(chunk) && succeeded + failed == |chunk|
      decreases |pending|
    {
      // the download of the chunk that completes next
      var p :| 0 <= p < |pending|;
      var g := pending[p];
      var ok := ProcessItem(archive, limited[g], g, fetch, parse);
      PickMove(expected, pending, p, chunk, lo, hi);
      CountImagesAppend(chunk, expected[g]);
      chunk := chunk + [expected[g]];
      pending := pending[..p] + pending[p + 1..];
      if ok {
        succeeded := succeeded + 1;
      } else {
        failed := failed + 1;
      }
    }
  }

  /**
   * The `for (i = 0; i < n; i += concurrency)` loop over a fresh archive: one
   * chunk after another, each through `DownloadChunk`, adding up the counts.
   */
  method DownloadInChunks(archive: ZipArchive, limited: seq<ImageItem>, fetch: Fetcher, parse: Parser)
    returns (successCount: nat, failCount: nat)
    requires archive.entries == [] && !archive.finalized
    modifies archive
    ensures !archive.finalized
    ensures |archive.entries| == |limited|
    ensures ChunkwisePermutation(archive.entries, ExpectedEntries(limited, fetch, parse))
    ensures successCount == CountImages(archive.entries)
    ensures successCount + failCount == |limited|
  {
    var n := |limited|;
    ghost var expected := ExpectedEntries(limited, fetch, parse);
    successCount, failCount := 0, 0;
    var i := 0;
    ghost var chunks := 0;
    while i < n
      invariant i == Concurrency * chunks
      invariant !archive.finalized
      invariant |archive.entries| == Min(i, n)
      invariant ChunkwisePermutation(archive.entries, expected[..Min(i, n)])
      invariant successCount == CountImages(archive.entries)
      invariant successCount + failCount == |archive.entries|
    {
      var hi := Min(i + Concurrency, n);
      ghost var before := archive.entries;
      var succeeded, failed, chunk := DownloadChunk(archive, limited, i, hi, fetch, parse);
      CountImagesConcat(before, chunk);
      successCount, failCount := successCount + succeeded, failCount + failed;
      PrefixSplit(expected, i, hi);
      ChunkwiseAppend(before, expected[..i], chunk, expected[i..hi], chunks);
      i, chunks := i + Concurrency, chunks + 1;
    }
    assert expected[..n] == expected;
  }

  // ---------------------------------------------------------------------------
  // The handler

  /**
   * The branch for a POST to `/api/download-zip` with body fields `images`
   * and `urls`. `isoNow`, `localeNow`, `fetch` and `parse` are as for the
   * local handler. Each download may complete, and append, in any order
   * within its chunk; the archive's entries are therefore the sequential
   * entries of the capped list rearranged chunk by chunk, then the report.
   */
  method DownloadZip(images: Field, urls: Field, isoNow: string, localeNow: string, fetch: Fetcher, parse: Parser)
    returns (response: Response, archive: ZipArchive?)
    ensures ValidatedList(images, urls).None? <==> response == BadRequest(InvalidListMessage)
    ensures response.BadRequest? <==> archive == null
    ensures ValidatedList(images, urls).Some? ==>
      var items := ValidatedList(images, urls).value;
      var limited := Capped(items);
      && response == ZipStream(ZipFilename(isoNow))
      && archive != null && fresh(archive) && archive.finalized
      && |archive.entries| == |limited| + 1
      && ChunkwisePermutation(archive.entries[..|limited|], ExpectedEntries(limited, fetch, parse))
      && archive.entries[|limited|] == Entry(ReportName, ReportDoc(ApiReport(items, fetch, localeNow)))
  {
    var imageList := ValidatedList(images, urls);
    if imageList.None? {
      return BadRequest(InvalidListMessage), null;
    }
    var items := imageList.value;
    var limitedImages := Capped(items);
    var n := |limitedImages|;
    var zipFilename := ZipFilename(isoNow);
    archive := new ZipArchive();
    var successCount, failCount := DownloadInChunks(archive, limitedImages, fetch, parse);
    CompletionOrderKeepsCount(archive.entries, limitedImages, fetch, parse);
    var report := Report(Vercel, n, if |items| > MaxImages then Some(|items|) else None, successCount, failCount, localeNow, Listing(limitedImages));
    assert report == ApiReport(items, fetch, localeNow);
    ghost var processed := archive.entries;
    archive.Append(ReportName, ReportDoc(report));
    archive.Finalize();
    assert archive.entries[..n] == processed;
    response := ZipStream(zipFilename);
  }
}
