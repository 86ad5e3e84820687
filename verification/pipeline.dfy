/** The page-level pipeline (`fetch_images`): fetch the listing, extract the
    posts, build one resolution task per post, run the tasks, and write each
    outcome back into the post at the same index. The GET request is the oracle
    `get`, which gives the status and, for a 200, the page's containers as the
    HTML parser finds them; the HEAD request is the oracle `headOk`. */
module Pipeline {
  import opened Wrappers
  import opened Extract
  import opened Resolve

  /** The listing page as fetched: its status and the `div.col thumb`
      containers of its HTML, in document order. */
  datatype Response = Response(status: int, containers: seq<Container>)

  /** The `HTTPException` raised for a failed fetch or an empty listing. */
  datatype HttpError = HttpError(status: int, detail: string)

  const FetchFailed := "Failed to fetch HTML content."
  const NoResults := "No results found."
  const NotFound := 404
  const Ok := 200

  /** One entry of `image_data`. `baseUrl` is `None` once the key is deleted;
      `fileUrl` is `None` until resolution and when nothing resolved. */
  datatype Record = Record(id: string, title: string, fileUrl: Option<string>,
                           baseUrl: Option<string>, isVideo: bool)

  /** One `try_extensions` call waiting to run: the base URL and the candidates. */
  datatype Task = Task(base: string, exts: seq<string>)

  /** `fetch_html`: the page's containers, or an error carrying the status
      when the answer is anything but 200. */
  function FetchHtml(url: string, get: string -> Response): (r: Result<seq<Container>, HttpError>)
    ensures r.Failure? <==> get(url).status != Ok
    ensures r.Failure? ==> r.error == HttpError(get(url).status, FetchFailed)
    ensures r.Success? ==> r.value == get(url).containers
  {
    var resp := get(url);
    if resp.status != Ok then Failure(HttpError(resp.status, FetchFailed))
    else Success(resp.containers)
  }

  /** The record appended for a post, before resolution. */
  function Pending(p: Post): Record
  {
    Record(p.id, p.title, None, Some(p.baseUrl), p.isVideo)
  }

  /** The record of a post once its resolution is merged in. */
  function Resolved(p: Post, headOk: string -> bool): Record
  {
    Record(p.id, p.title, Resolution(p.baseUrl, ExtensionOrder(p.isVideo), headOk), None, p.isVideo)
  }

  /** The extraction loop of `fetch_images`: in document order, append a
      pending record for every container that yields a post. */
  method ExtractAll(divs: seq<Container>) returns (imageData: seq<Record>)
    ensures |imageData| == |Extracted(divs)|
    ensures forall k :: 0 <= k < |imageData| ==> imageData[k] == Pending(Extracted(divs)[k])
  {
    imageData := [];
    var i := 0;
    while i < |divs|
      invariant 0 <= i <= |divs|
      invariant |imageData| == |Extracted(divs[..i])|
      invariant forall k :: 0 <= k < |imageData| ==> imageData[k] == Pending(Extracted(divs[..i])[k])
    {
      assert divs[..i + 1][..i] == divs[..i];
      match ExtractPost(divs[i]) {
        case None =>
        case Some(p) =>
          imageData := imageData + [Pending(p)];
      }
      i := i + 1;
    }
    assert divs[..i] == divs;
  }

  /** The task loop: one resolution task per record, with the candidates for
      its kind. */
  method BuildTasks(imageData: seq<Record>) returns (tasks: seq<Task>)
    requires forall k :: 0 <= k < |imageData| ==> imageData[k].baseUrl.Some?
    ensures |tasks| == |imageData|
    ensures forall k :: 0 <= k < |tasks| ==>
              tasks[k] == Task(imageData[k].baseUrl.value, ExtensionOrder(imageData[k].isVideo))
  {
    tasks := [];
    for j := 0 to |imageData|
      invariant |tasks| == j
      invariant forall k :: 0 <= k < j ==>
                  tasks[k] == Task(imageData[k].baseUrl.value, ExtensionOrder(imageData[k].isVideo))
    {
      var item := imageData[j];
      var extOrder := if item.isVideo then [VideoExtension] else ValidExtensions;
      tasks := tasks + [Task(item.baseUrl.value, extOrder)];
    }
  }

  /** `asyncio.gather` over the tasks: the tasks share nothing, so running them
      one after another gives the same outcomes, listed in task order. */
  method Gather(tasks: seq<Task>, headOk: string -> bool) returns (results: seq<Option<string>>)
    ensures |results| == |tasks|
    ensures forall k :: 0 <= k < |tasks| ==> results[k] == Resolution(tasks[k].base, tasks[k].exts, headOk)
  {
    results := [];
    for j := 0 to |tasks|
      invariant |results| == j
      invariant forall k :: 0 <= k < j ==> results[k] == Resolution(tasks[k].base, tasks[k].exts, headOk)
    {
      var validUrl: Option<string>;
      ghost var probed: seq<string>;
      validUrl, probed := TryExtensions(tasks[j].base, tasks[j].exts, headOk);
      results := results + [validUrl];
    }
  }

  /** The indexed merge: outcome `idx` becomes the file URL of record `idx`,
      whose base URL is deleted; nothing else in any record changes. */
  method MergeResults(imageData: seq<Record>, results: seq<Option<string>>) returns (merged: seq<Record>)
    requires |results| == |imageData|
    ensures |merged| == |imageData|
    ensures forall k :: 0 <= k < |merged| ==>
              merged[k] == imageData[k].(fileUrl := results[k], baseUrl := None)
  {
    merged := imageData;
    for idx := 0 to |results|
      invariant |merged| == |imageData|
      invariant forall k :: 0 <= k < idx ==> merged[k] == imageData[k].(fileUrl := results[k], baseUrl := None)
      invariant forall k :: idx <= k < |merged| ==> merged[k] == imageData[k]
    {
      merged := merged[idx := merged[idx].(fileUrl := results[idx], baseUrl := None)];
    }
  }

  /** `fetch_images`. A failed fetch raises with the fetch's status; a page
      with no containers raises 404 "No results found."; otherwise the
      result has one record per extracted post, in the same order, each with
      the post's id, title and kind, the resolution of its base URL over the
      candidates for its kind, and no base URL left. */
  method FetchImages(url: string, get: string -> Response, headOk: string -> bool)
    returns (r: Result<seq<Record>, HttpError>)
    ensures get(url).status != Ok ==> r == Failure(HttpError(get(url).status, FetchFailed))
    ensures get(url).status == Ok && get(url).containers == [] ==> r == Failure(HttpError(NotFound, NoResults))
    ensures get(url).status == Ok && get(url).containers != [] ==>
              && r.Success?
              && |r.value| == |Extracted(get(url).containers)|
              && forall k :: 0 <= k < |r.value| ==>
                   r.value[k] == Resolved(Extracted(get(url).containers)[k], headOk)
  {
    var html := FetchHtml(url, get);
    if html.Failure? {
      return Failure(html.error);
    }
    var divs := html.value;
    if |divs| == 0 {
      return Failure(HttpError(NotFound, NoResults));
    }
    var imageData := ExtractAll(divs);
    var tasks := BuildTasks(imageData);
    var results := Gather(tasks, headOk);
    var merged := MergeResults(imageData, results);
    return Success(merged);
  }

  /** A resolved record keeps its post's identity, has no base URL, and its
      file URL, when present, is an address whose probe succeeded, formed from
      the post's base URL and one of the candidates for its kind; for a video
      that can only be the `.webm` address. */
  lemma ResolvedRecord(p: Post, headOk: string -> bool)
    ensures var rec := Resolved(p, headOk);
      && rec.id == p.id && rec.title == p.title && rec.isVideo == p.isVideo
      && rec.baseUrl.None?
      && (rec.fileUrl.Some? ==> headOk(rec.fileUrl.value))
      && (rec.fileUrl.Some? ==>
            exists j :: 0 <= j < |ExtensionOrder(p.isVideo)| &&
                        rec.fileUrl.value == p.baseUrl + "." + ExtensionOrder(p.isVideo)[j])
      && (p.isVideo && rec.fileUrl.Some? ==> rec.fileUrl.value == p.baseUrl + ".webm")
  {
    var exts := ExtensionOrder(p.isVideo);
    var rec := Resolved(p, headOk);
    if rec.fileUrl.Some? {
      var k := FirstHit(p.baseUrl, exts, headOk);
      assert rec.fileUrl.value == p.baseUrl + "." + exts[k];
    }
  }
}
