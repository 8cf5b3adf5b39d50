/**
 * `downloadZipHandler` of the Express server: validate the list, then
 * download the items one after another, appending one entry per item, then
 * the report, then close the archive. There is no cap on the list length.
 */
module LocalServer {
  import opened Common
  import opened Url
  import opened Naming
  import opened Archive
  import opened Pipeline

  /** The report the local handler writes for `items`. */
  function LocalReport(items: seq<ImageItem>, fetch: Fetcher, time: string): (r: Report)
    ensures r.edition == Local && r.total == |items| && r.cappedFrom == None
    ensures r.succeeded == SuccessCount(items, fetch) && r.succeeded + r.failed == r.total
    ensures r.listing == Listing(items) && |r.listing| == |items|
    ensures r.time == time
  {
    var ok := SuccessCount(items, fetch);
    Report(Local, |items|, None, ok, |items| - ok, time, Listing(items))
  }

  /** The report's success count is the number of images in the archive, the failure count the number of error notes. */
  lemma LocalReportCountsImages(items: seq<ImageItem>, fetch: Fetcher, parse: Parser, time: string)
    ensures LocalReport(items, fetch, time).succeeded == CountImages(ExpectedEntries(items, fetch, parse))
    ensures LocalReport(items, fetch, time).failed == |items| - CountImages(ExpectedEntries(items, fetch, parse))
  {
    ImagesAreSuccesses(items, fetch, parse);
  }

  /** When every download succeeds, the report lists every item as a success and none as a failure. */
  lemma LocalReportAllFetched(items: seq<ImageItem>, fetch: Fetcher, time: string)
    requires forall i :: 0 <= i < |items| ==> fetch(i, items[i].url).Fetched?
    ensures LocalReport(items, fetch, time).succeeded == |items|
    ensures LocalReport(items, fetch, time).failed == 0
  {
    AllFetchedAllImages(items, fetch);
  }

  /**
   * The `for (let i = 0; i < imageList.length; i++)` loop over a fresh
   * archive: item `i` is downloaded, and its entry appended, after item
   * `i - 1`'s.
   */
  method DownloadSequentially(archive: ZipArchive, items: seq<ImageItem>, fetch: Fetcher, parse: Parser)
    returns (successCount: nat, failCount: nat)
    requires archive.entries == [] && !archive.finalized
    modifies archive
    ensures !archive.finalized
    ensures archive.entries == ExpectedEntries(items, fetch, parse)
    ensures successCount == SuccessCount(items, fetch)
    ensures successCount + failCount == |items|
  {
    successCount, failCount := 0, 0;
    ghost var expected := ExpectedEntries(items, fetch, parse);
    for i := 0 to |items|
      invariant !archive.finalized
      invariant archive.entries == expected[..i]
      invariant successCount == SuccessCount(items[..i], fetch)
      invariant successCount + failCount == i
    {
      var ok := ProcessItem(archive, items[i], i, fetch, parse);
      assert items[..i + 1][..i] == items[..i];
      PrefixSplit(expected, i, i + 1);
      if ok {
        successCount := successCount + 1;
      } else {
        failCount := failCount + 1;
      }
    }
    assert items[..|items|] == items;
    assert expected[..|items|] == expected;
  }

  /**
   * The handler for a body with fields `images` and `urls`. `isoNow` and
   * `localeNow` are the current time as `toISOString()` and as
   * `toLocaleString('zh-CN')`; `fetch` and `parse` stand for the network and
   * for `new URL(...)`. The returned archive is `null` exactly when the
   * request is refused.
   */
  method DownloadZipHandler(images: Field, urls: Field, isoNow: string, localeNow: string, fetch: Fetcher, parse: Parser)
    returns (response: Response, archive: ZipArchive?)
    ensures ValidatedList(images, urls).None? <==> response == BadRequest(InvalidListMessage)
    ensures response.BadRequest? <==> archive == null
    ensures ValidatedList(images, urls).Some? ==>
      var items := ValidatedList(images, urls).value;
      && response == ZipStream(ZipFilename(isoNow))
      && archive != null && fresh(archive) && archive.finalized
      && archive.entries == ExpectedEntries(items, fetch, parse) + [Entry(ReportName, ReportDoc(LocalReport(items, fetch, localeNow)))]
  {
    var imageList := ValidatedList(images, urls);
    if imageList.None? {
      return BadRequest(InvalidListMessage), null;
    }
    var items := imageList.value;
    var zipFilename := ZipFilename(isoNow);
    archive := new ZipArchive();
    var successCount, failCount := DownloadSequentially(archive, items, fetch, parse);
    var report := Report(Local, |items|, None, successCount, failCount, localeNow, Listing(items));
    assert report == LocalReport(items, fetch, localeNow);
    archive.Append(ReportName, ReportDoc(report));
    archive.Finalize();
    response := ZipStream(zipFilename);
  }
}
