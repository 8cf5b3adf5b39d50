/**
 * The zip archive as the handlers see it: an ordered list of named entries
 * that only grows, closed once by `finalize()`. Compression, the zip
 * encoding and the streaming to the HTTP response are not modelled.
 */
module Archive {
  import opened Common

  /** Which handler wrote the report: the two differ in their header and platform lines. */
  datatype Edition = Local | Vercel

  /**
   * The content of `download_report.txt`: the numbers and lines that vary,
   * with the fixed feature list left implicit. `cappedFrom` is the original
   * list length when the list was cut down to the cap, `time` the
   * `toLocaleString('zh-CN')` rendering of the current time.
   */
  datatype Report = Report(
    edition: Edition,
    total: nat,
    cappedFrom: Option<nat>,
    succeeded: nat,
    failed: nat,
    time: string,
    listing: seq<string>)

  datatype Payload =
    | Bytes(data: seq<bv8>)     // a downloaded image, as received
    | Text(body: string)        // an error note
    | ReportDoc(report: Report) // the download report

  datatype Entry = Entry(name: string, payload: Payload)

  /** `archiver('zip', …)`: the sink the handlers append to. */
  class ZipArchive {
    var entries: seq<Entry>
    var finalized: bool

    constructor ()
      ensures entries == [] && !finalized
    {
      entries := [];
      finalized := false;
    }

    /** `archive.append(payload, { name })` */
    method Append(name: string, payload: Payload)
      requires !finalized
      modifies this
      ensures entries == old(entries) + [Entry(name, payload)]
      ensures !finalized
    {
      entries := entries + [Entry(name, payload)];
    }

    /** `archive.finalize()`: no entry can be added afterwards. */
    method Finalize()
      requires !finalized
      modifies this
      ensures finalized && entries == old(entries)
    {
      finalized := true;
    }
  }
}
