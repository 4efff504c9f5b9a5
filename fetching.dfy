/**
 * The outcome of one streamed HTTP GET to the download service, as the scripts see it,
 * and the download routine that the dashboards of src/main.py and src/streamlit.py share
 * word for word (they differ only in how they name the destination).
 */
module Fetching {
  import opened Base
  import opened FileSystem

  /** The `content-length` header: absent, a number, or text `int()` refuses. */
  datatype Header = NoLength | Length(n: int) | Malformed

  /**
   * A request either fails before any response (connection error), or yields a response
   * with a status (`statusOk` is what `raise_for_status` accepts), a header, the chunks
   * `iter_content` delivers, and whether the stream ends normally (`complete`) or breaks
   * after those chunks.
   */
  datatype Fetch =
    | Unreachable
    | Response(statusOk: bool, length: Header, chunks: seq<Bytes>, complete: bool)

  /**
   * `for chunk in r.iter_content(chunk_size=1024): if chunk: f.write(chunk)` on a file just
   * opened with `"wb"`: the file holds exactly the chunks, in order, and nothing it held before.
   */
  method WriteChunks(chunks: seq<Bytes>) returns (content: Bytes)
    ensures content == Concat(chunks)
    ensures |content| == TotalLength(chunks)
  {
    content := [];
    for i := 0 to |chunks|
      invariant content == Concat(chunks[..i])
    {
      assert chunks[..i + 1][..i] == chunks[..i];
      if chunks[i] != [] {
        content := content + chunks[i];
      }
    }
    assert chunks[..|chunks|] == chunks;
  }

  /** The response passed `raise_for_status` and streamed to its end. */
  predicate Downloaded(fetch: Fetch)
  {
    fetch.Response? && fetch.statusOk && fetch.complete
  }

  /** The file system after a completed download: the chunks written to the destination. */
  function AfterDownload(fs: Fs, dest: Path, fetch: Fetch): Fs
    requires Downloaded(fetch)
  {
    Write(fs, dest, Concat(fetch.chunks))
  }

  /**
   * The body of `download_audio` once the destination is named: the destination is
   * cleared first (a directory there raises, since that `unlink` is outside the `try`);
   * then the response's chunks are written to it. The path is returned only when the
   * request, the status check and the stream all succeed; a stream that breaks leaves
   * the chunks received so far in the file.
   */
  method DownloadTo(fs: Fs, dest: Path, fetch: Fetch) returns (fs': Fs, r: Outcome<Option<Path>>)
    ensures r == Raised <==> dest in fs.dirs && dest !in fs.files
    ensures r == Raised ==> fs' == fs
    ensures r.Return? ==> SameExcept(fs, fs', {dest})
    ensures r == Return(Some(dest)) <==> r.Return? && Downloaded(fetch)
    ensures r.Return? ==> r.value == None || r.value == Some(dest)
    ensures r.Return? && fetch.Response? && fetch.statusOk ==>
      dest in fs'.files && fs'.files[dest] == Concat(fetch.chunks)
    ensures r.Return? && !(fetch.Response? && fetch.statusOk) ==> dest !in fs'.files
    ensures r == Return(Some(dest)) ==> fs' == AfterDownload(fs, dest, fetch)
  {
    fs' := fs;
    if Exists(fs', dest) {
      if dest !in fs'.files {
        return fs, Raised;
      }
      fs' := Unlink(fs', dest);
    }
    match fetch
    case Unreachable =>
      r := Return(None);
    case Response(statusOk, _, chunks, complete) =>
      if !statusOk {
        r := Return(None);
      } else {
        var content := WriteChunks(chunks);
        fs' := Write(fs', dest, content);
        r := if complete then Return(Some(dest)) else Return(None);
      }
  }
}
