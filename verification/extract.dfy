/** Post extraction: the body of the `for div in divs` loop of `fetch_images`
    as a function from one parsed container to an optional post, and the loop
    itself as the order-preserving filter of the containers. */
module Extract {
  import opened Text
  import opened Wrappers
  import opened Patterns

  /** The `<img>` inside a post's anchor: the three attributes the extractor
      reads, each absent or present (possibly empty). */
  datatype Img = Img(src: Option<string>, style: Option<string>, title: Option<string>)

  /** The first `<a>` of a container, with its first `<img>` if it has one. */
  datatype Anchor = Anchor(img: Option<Img>)

  /** One `div.col thumb` of the listing page: its `id` attribute and its
      first `<a>`, if any. */
  datatype Container = Container(id: Option<string>, anchor: Option<Anchor>)

  /** An extracted post before extension resolution. */
  datatype Post = Post(id: string, title: string, baseUrl: string, isVideo: bool)

  /** The marker that opens the `id` of some containers. */
  const IdMarker := "s"

  const ImageHost := "https://realbooru.com"
  const VideoHost := "https://video-cdn.realbooru.com"

  /** The post id: the raw `id` (`""` when absent) without a leading `s`. */
  function PostId(raw: Option<string>): (id: string)
    ensures raw.None? ==> id == ""
    ensures raw.Some? && StartsWith(raw.value, IdMarker) ==> raw.value == IdMarker + id
    ensures raw.Some? && !StartsWith(raw.value, IdMarker) ==> id == raw.value
  {
    var idRaw := if raw.Some? then raw.value else "";
    if StartsWith(idRaw, IdMarker) then idRaw[1..] else idRaw
  }

  /** The CDN host for a post of the given kind. */
  function Host(isVideo: bool): string
  {
    if isVideo then VideoHost else ImageHost
  }

  /** The media address of a post without its extension. */
  function MediaBase(isVideo: bool, folder1: string, folder2: string, hash: string): string
  {
    Host(isVideo) + "/images/" + folder1 + "/" + folder2 + "/" + hash
  }

  /** What a container must have to yield a post, stated with the regexes
      themselves rather than with the scans that implement them. */
  ghost predicate Accepts(c: Container)
  {
    && c.anchor.Some?
    && c.anchor.value.img.Some?
    && var src := c.anchor.value.img.value.src;
       && src.Some? && src.value != ""
       && Contains(src.value, Thumb)
       && (exists i: nat, k: nat :: HashRegexAt(src.value, i, k))
       && (exists i: nat, a: nat, b: nat :: FolderRegexAt(src.value, i, a, b))
  }

  /** The rules applied to one container. When a post is produced, its id is
      the stripped raw id, its title defaults to `""`, and it is a video unless
      `style` is present and empty (an absent `style` is not `""`, so it counts
      as video). The base URL joins the host of that kind, the two folder
      groups and the hash group (see `ExtractPostAccepts` for when a post is
      produced at all). */
  function ExtractPost(c: Container): (r: Option<Post>)
    ensures r.Some? ==> c.anchor.Some? && c.anchor.value.img.Some? && c.anchor.value.img.value.src.Some?
    ensures r.Some? ==>
      var img := c.anchor.value.img.value;
      var src := img.src.value;
      && r.value.id == PostId(c.id)
      && r.value.title == (if img.title.Some? then img.title.value else "")
      && (r.value.isVideo <==> img.style != Some(""))
      && ExtractHash(src).Some? && ExtractFolders(src).Some?
      && r.value.baseUrl == MediaBase(r.value.isVideo, ExtractFolders(src).value.0,
                                      ExtractFolders(src).value.1, ExtractHash(src).value)
  {
    var postId := PostId(c.id);
    if c.anchor.None? || c.anchor.value.img.None? then None
    else
      var img := c.anchor.value.img.value;
      var title := if img.title.Some? then img.title.value else "";
      if img.src.None? || img.src.value == "" || !Contains(img.src.value, Thumb) then None
      else
        var src := img.src.value;
        match ExtractHash(src)
        case None => None
        case Some(hash) =>
          match ExtractFolders(src)
          case None => None
          case Some((folder1, folder2)) =>
            var isVideo := img.style != Some("");
            Some(Post(postId, title, MediaBase(isVideo, folder1, folder2, hash), isVideo))
  }

  /** A post is produced exactly when the container has an anchor with an
      image whose non-empty `src` contains `thumbnail_` and matches both
      regexes; every other container is skipped. */
  lemma ExtractPostAccepts(c: Container)
    ensures ExtractPost(c).Some? <==> Accepts(c)
  {
    if c.anchor.Some? && c.anchor.value.img.Some? {
      var src := c.anchor.value.img.value.src;
      if src.Some? {
        ExtractHashIsLeftmostMatch(src.value);
        ExtractFoldersIsLeftmostMatch(src.value);
      }
    }
  }

  /** The order-preserving filter-map the extraction loop performs: each
      element in turn, keeping the values `f` produces and dropping the rest. */
  function Keep<T, U>(xs: seq<T>, f: T -> Option<U>): seq<U>
  {
    if xs == [] then []
    else
      var n := |xs| - 1;
      Keep(xs[..n], f) + (if f(xs[n]).Some? then [f(xs[n]).value] else [])
  }

  /** The positions of the elements `f` keeps, in increasing order. */
  function Survivors<T, U>(xs: seq<T>, f: T -> Option<U>): (idx: seq<nat>)
    ensures forall k :: 0 <= k < |idx| ==> idx[k] < |xs|
    ensures forall k1, k2 :: 0 <= k1 < k2 < |idx| ==> idx[k1] < idx[k2]
    ensures forall j :: 0 <= j < |xs| ==> (f(xs[j]).Some? <==> j in idx)
  {
    if xs == [] then []
    else
      var n := |xs| - 1;
      var front := Survivors(xs[..n], f);
      assert forall j :: 0 <= j < n ==> xs[..n][j] == xs[j];
      if f(xs[n]).Some? then front + [n] else front
  }

  /** `Keep` is the order-preserving filter: its k-th value is what `f` gives
      the k-th kept element, and nothing else is in it. */
  lemma {:induction false} KeepIsFilter<T, U>(xs: seq<T>, f: T -> Option<U>)
    ensures |Keep(xs, f)| == |Survivors(xs, f)|
    ensures forall k :: 0 <= k < |Keep(xs, f)| ==>
              f(xs[Survivors(xs, f)[k]]) == Some(Keep(xs, f)[k])
  {
    if xs != [] {
      var n := |xs| - 1;
      var front, idx := Keep(xs[..n], f), Survivors(xs[..n], f);
      KeepIsFilter(xs[..n], f);
      var tail := if f(xs[n]).Some? then [f(xs[n]).value] else [];
      assert Keep(xs, f) == front + tail;
      assert Survivors(xs, f) == idx + (if f(xs[n]).Some? then [n] else []);
      forall k | 0 <= k < |Keep(xs, f)|
        ensures f(xs[Survivors(xs, f)[k]]) == Some(Keep(xs, f)[k])
      {
        if k < |front| {
          assert Survivors(xs, f)[k] == idx[k] && Keep(xs, f)[k] == front[k];
          assert xs[..n][idx[k]] == xs[idx[k]];
        }
      }
    }
  }

  /** Elements are handled independently: splitting the input anywhere splits
      the output at the same place. */
  lemma {:induction false} KeepAppend<T, U>(a: seq<T>, b: seq<T>, f: T -> Option<U>)
    ensures Keep(a + b, f) == Keep(a, f) + Keep(b, f)
  {
    if b == [] {
      assert a + b == a;
    } else {
      var n := |b| - 1;
      var ab := a + b;
      assert ab[..|ab| - 1] == a + b[..n];
      assert ab[|ab| - 1] == b[n];
      KeepAppend(a, b[..n], f);
    }
  }

  /** The list the extraction loop builds from the page's containers. */
  function Extracted(cs: seq<Container>): seq<Post>
  {
    Keep(cs, ExtractPost)
  }

  /** Every extracted post comes from an accepted container, in document
      order, and every accepted container contributes exactly one post. */
  lemma ExtractedIsFilter(cs: seq<Container>)
    ensures |Extracted(cs)| == |Survivors(cs, ExtractPost)|
    ensures forall k :: 0 <= k < |Extracted(cs)| ==>
              ExtractPost(cs[Survivors(cs, ExtractPost)[k]]) == Some(Extracted(cs)[k])
    ensures forall j :: 0 <= j < |cs| ==> (Accepts(cs[j]) <==> j in Survivors(cs, ExtractPost))
  {
    KeepIsFilter(cs, ExtractPost);
    forall j | 0 <= j < |cs| ensures Accepts(cs[j]) <==> j in Survivors(cs, ExtractPost) {
      ExtractPostAccepts(cs[j]);
    }
  }

  /** A malformed container changes nothing for its siblings: removing it
      leaves the extracted list as it was. */
  lemma SkippedContainerIsInvisible(a: seq<Container>, c: Container, b: seq<Container>)
    requires !Accepts(c)
    ensures Extracted(a + [c] + b) == Extracted(a + b)
  {
    ExtractPostAccepts(c);
    KeepAppend(a + [c], b, ExtractPost);
    KeepAppend(a, [c], ExtractPost);
    KeepAppend(a, b, ExtractPost);
    assert [c][..0] == [];
  }
}
