# realbooru listing scraper — Dafny model

The scraper turns one realbooru listing page into an ordered list of posts.
It builds the listing address from the search tags and the page number, then
fetches the page. From each `div.col thumb` container it takes the post id,
the title, the content hash and the two storage folders found in the
thumbnail address. Each post is classified as image or video, and a HEAD
request is sent for each candidate file extension in turn. The first one that
answers 200 becomes the post's file URL.

The model has these modules:

- `Wrappers`: `Option` and `Result`.
- `Text`: substring and character-class helpers, and Python's `str()` of an integer.
- `Listing`: `build_base_url`.
- `Patterns`: the two regular expressions used on the thumbnail address.
  - Each is written twice. One form is a ghost predicate saying what a match
    at a position is. The other is the greedy scan that implements it.
  - The lemmas prove that the scan returns the groups of the leftmost match,
    and fails exactly when there is no match.
- `Extract`: the rules applied to one container, as a function returning
  `Option<Post>`, and the order-preserving filter the extraction loop
  performs.
- `Resolve`: `try_extensions`, as a loop with early return, proved against a
  first-success specification.
- `Pipeline`: `fetch_images`, with its extraction loop, task loop, gather and
  indexed merge as methods, each proved against the specification functions.
- `Scenarios`: one image post and one video post, followed from container to
  record.

The network is replaced by two parameters:

- `get: string -> Response` stands for `fetch_html`'s GET. It gives the status
  and, for a page, the containers the HTML parser finds, in document order.
- `headOk: string -> bool` stands for the HEAD request answering status 200.

## Model

| member | source | states |
|---|---|---|
| Listing.Pid | main.py:12 | for page ≥ 1 the offset is non-negative, a multiple of 42, and `(page-1)` pages of 42 |
| Listing.BuildBaseUrl | main.py:11-13 | the listing URL starts with the fixed `index.php?page=post&s=list&tags=` prefix |
| Listing.ListingUrlFields | main.py:11-13 | the URL is exactly prefix, tags verbatim, `&pid=`, then the offset exactly as Python's `str` writes it: the digits of `(page-1)*42`, with no leading zero, for page ≥ 1, and a minus sign followed by the magnitude below page 1 |
| Listing.ListingUrlInjective | main.py:11-13 | different pages (both ≥ 1) of the same tags give different URLs |
| Text.NatToString | main.py:13 | Python's `str(n)`: a non-empty digit string with no leading zero whose decimal value is `n` |
| Text.NatToStringInjective | main.py:13 | distinct offsets render differently |
| Extract.PostId | main.py:40-41 | a missing id gives `""`; an id starting with `s` is `s` followed by the result; any other id is returned unchanged |
| Extract.ExtractPost | main.py:39-80 | a produced post has its anchor, img and src present. Its id is the stripped raw id and its title defaults to `""`. It is a video exactly when `style` is not `Some("")`, so an absent style counts as video. Its base URL is the host for that kind, `/images/`, both folder groups and the hash group |
| Extract.ExtractPostAccepts | main.py:43-64 | a post is produced exactly when there are an anchor and an img, and a non-empty src that contains `thumbnail_` and matches both regexes |
| Patterns.FindHashFrom | main.py:57 | the scan returns the first position from `from` where the hash pattern matches, and `None` only when none does |
| Patterns.ExtractHash | main.py:57-61 | a hash group is a non-empty run of hex digits |
| Patterns.HashGreedyIsRegex | main.py:57 | at a given position, `thumbnail_<hex>+.jpg` matches only with the maximal hex run, so the greedy scan agrees with the regex |
| Patterns.ExtractHashIsLeftmostMatch | main.py:54-61 | `ExtractHash` fails exactly when the regex matches nowhere, and otherwise returns the group of the leftmost match. A match implies that `thumbnail_` occurs |
| Patterns.FindFoldersFrom | main.py:62 | the scan returns the first position from `from` where the folder pattern matches, and `None` only when none does |
| Patterns.ExtractFolders | main.py:62-65 | both folder groups are non-empty and contain no `/` |
| Patterns.FolderGreedyIsRegex | main.py:62 | at a given position, `/thumbnails/([^/]+)/([^/]+)/` matches only with the maximal segments |
| Patterns.ExtractFoldersIsLeftmostMatch | main.py:62-65 | `ExtractFolders` fails exactly when the regex matches nowhere (`findall` is empty), and otherwise returns both groups of the leftmost match (`findall(...)[0]`) |
| Patterns.ThumbnailPathRoundTrip | main.py:57-65 | a path `/thumbnails/f1/f2/thumbnail_<hash>.jpg` gives back exactly `hash`, `f1` and `f2`, for non-empty folders without `/` or `_` and a non-empty hex hash |
| Extract.Survivors | main.py:39-80 | the kept positions are strictly increasing, in range, and are exactly those where the rule yields a value |
| Extract.KeepIsFilter | main.py:39-80 | the k-th kept value is what the rule gives the k-th surviving element |
| Extract.KeepAppend | main.py:39-80 | each container is handled independently: the extracted list of a concatenation is the concatenation of the extracted lists |
| Extract.ExtractedIsFilter | main.py:39-80 | the extracted list holds one post per accepted container, in document order, and nothing from the other containers |
| Extract.SkippedContainerIsInvisible | main.py:43-64 | removing a container that is not accepted leaves the extracted list unchanged |
| Resolve.ExtensionOrder | main.py:84 | the candidates are exactly `["webm"]` for a video and `["png","jpeg","gif","jpg","webm"]` otherwise |
| Resolve.FirstHit | main.py:22-26 | the position of the first successful probe: every earlier probe fails and the one there succeeds |
| Resolve.Resolution | main.py:21-27 | the result is `None` exactly when every probe fails. Otherwise it is a probed-successfully address `base.ext` for the first successful extension |
| Resolve.TryExtensions | main.py:21-27 | the loop returns the first-success resolution. The HEAD requests issued are the candidates in order up to and including the first success, and all of them when none succeeds |
| Resolve.VideoResolution | main.py:21-27 | a video resolves to `base.webm` when that probe succeeds and to nothing otherwise |
| Resolve.ImageResolution | main.py:21-27 | an image resolves to the first of png, jpeg, gif, jpg, webm whose probe succeeds, even when a later one would too |
| Pipeline.FetchHtml | main.py:15-19 | a status other than 200 raises with that status and "Failed to fetch HTML content."; a 200 gives the page |
| Pipeline.ExtractAll | main.py:37-80 | the loop builds one pending record per extracted post, in order, with the file URL unset and the base URL kept |
| Pipeline.BuildTasks | main.py:82-85 | one task per record, in order: its base URL and the candidates for its kind |
| Pipeline.Gather | main.py:87 | one outcome per task, in task order, each the resolution of that task |
| Pipeline.MergeResults | main.py:88-90 | outcome `idx` becomes record `idx`'s file URL and its base URL is deleted; nothing else changes |
| Pipeline.FetchImages | main.py:29-92 | a failed fetch raises with its status, and an empty listing raises 404 "No results found.". Otherwise there is one record per extracted post, in the same order, each with the post's id, title and kind, the resolution of its base URL over the candidates for its kind, and no base URL |
| Pipeline.ResolvedRecord | main.py:84-90 | a final record keeps its post's identity and has no base URL. A present file URL answered 200 and is the base URL with one of the kind's extensions, and always `.webm` for a video |
| Scenarios.SrcGroups | main.py:57-65 | `/thumbnails/ab/cd/thumbnail_deadbeef.jpg` yields hash `deadbeef` and folders `ab`, `cd` |
| Scenarios.ExamplePost | main.py:39-80 | a container with id `s123`, title `sample` and such an address yields post `123` titled `sample`, a video exactly when its style is non-empty |
| Scenarios.ImagePostScenario | main.py:67-72 | with `style=""` the post is an image on `https://realbooru.com/images/ab/cd/deadbeef`, and `.jpg` is its file URL when it is the first extension answering 200 |
| Scenarios.VideoPostScenario | main.py:67-69 | with a non-empty style the post is a video on the video CDN, and its file URL is the `.webm` address when that answers 200 and absent otherwise |

## Left out

- index.js is not part of this model: it is an HTTP proxy around a headless browser, with no logic to state.
- The FastAPI route `/search` and its `Query` validation (main.py:94-99), and the `aiohttp.ClientSession` lifecycle: these are framework wiring and resource management.
- Real HTTP. The GET of `fetch_html` is the parameter `get`, which gives a status and the parsed containers. The HEAD of `try_extensions` is the parameter `headOk`. Network exceptions and timeouts are not modelled.
- BeautifulSoup parsing (main.py:31-32, 43, 46, 50-52). The parser's output is taken as a sequence of `Container` records in document order: an optional `id`, and an optional anchor holding an optional img with optional `src`, `style` and `title`. HTML text itself is not modelled.
- `asyncio.gather` concurrency (main.py:87). The tasks share no state and gather keeps task order, so `Pipeline.Gather` runs them one after another. Interleaving and the order in which HEAD requests are issued across posts are not modelled.
- Python's full `re` semantics. Only the two patterns used are modelled, as scans over the string with regex-level reference predicates.
- The records are Python dicts in the source. Here they are values of `Record`, where deleting `base_url` sets `baseUrl` to `None`, and the list is rebuilt rather than mutated in place, so aliasing of the dicts is not modelled.
- Pipeline.FetchHtml: success is a status of exactly 200, as the code tests (main.py:17). Other 2xx answers are errors too.
- Pipeline.BuildTasks: requires every record to still carry its base URL. In the source every record built by the extraction loop has one. A record without one would raise `KeyError`, which is not modelled.
- Extract.ExtractPost: the separate `"thumbnail_" in img_src` test (main.py:54) is kept, even though `Patterns.ExtractHashIsLeftmostMatch` shows it never rejects a src that the hash regex accepts.
