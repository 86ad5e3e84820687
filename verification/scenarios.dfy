/** Worked examples: one image post and one video post, from the container
    to the resolved record. */
module Scenarios {
  import opened Wrappers
  import opened Text
  import opened Patterns
  import opened Extract
  import opened Resolve
  import opened Pipeline

  /** The thumbnail path of the example post. */
  function Src(): string
  {
    ThumbnailPath("ab", "cd", "deadbeef")
  }

  /** The example path yields hash `deadbeef` and folders `ab`, `cd`. */
  lemma SrcGroups()
    ensures ExtractHash(Src()) == Some("deadbeef")
    ensures ExtractFolders(Src()) == Some(("ab", "cd"))
    ensures Contains(Src(), Thumb)
  {
    assert '/' !in "ab" && '_' !in "ab";
    assert '/' !in "cd" && '_' !in "cd";
    assert forall j :: 0 <= j < |"deadbeef"| ==> IsHexDigit("deadbeef"[j]);
    ThumbnailPathRoundTrip("ab", "cd", "deadbeef");
    ExtractHashIsLeftmostMatch(Src());
  }

  /** A container with id "s123", title "sample", the given thumbnail
      address and the given style. */
  function Example(src: string, style: string): Container
  {
    Container(Some("s123"), Some(Anchor(Some(Img(Some(src), Some(style), Some("sample"))))))
  }

  /** Any container of that shape whose address carries hash `deadbeef`
      under folders `ab`/`cd` yields post 123 titled "sample", a video
      exactly when its style is not empty. */
  lemma ExamplePost(src: string, style: string)
    requires ExtractHash(src) == Some("deadbeef") && ExtractFolders(src) == Some(("ab", "cd"))
    ensures ExtractPost(Example(src, style)) ==
            Some(Post("123", "sample", MediaBase(style != "", "ab", "cd", "deadbeef"), style != ""))
  {
    assert Contains(src, Thumb) by { ExtractHashIsLeftmostMatch(src); }
    assert PostId(Some("s123")) == "123";
  }

  const ImageBase := "https://realbooru.com/images/ab/cd/deadbeef"
  const VideoBase := "https://video-cdn.realbooru.com/images/ab/cd/deadbeef"

  /** The two media addresses of the example post, written out. */
  lemma ExampleBases()
    ensures MediaBase(false, "ab", "cd", "deadbeef") == ImageBase
    ensures MediaBase(true, "ab", "cd", "deadbeef") == VideoBase
  {
  }

  /** With an empty style the container is an image post on the main host;
      when `.jpg` is the first extension that answers 200, that is its file
      URL. */
  lemma ImagePostScenario(headOk: string -> bool)
    requires !headOk(ImageBase + ".png") && !headOk(ImageBase + ".jpeg") && !headOk(ImageBase + ".gif")
    requires headOk(ImageBase + ".jpg")
    ensures ExtractPost(Example(Src(), "")) == Some(Post("123", "sample", ImageBase, false))
    ensures Resolved(ExtractPost(Example(Src(), "")).value, headOk).fileUrl == Some(ImageBase + ".jpg")
  {
    SrcGroups();
    ExamplePost(Src(), "");
    ExampleBases();
    ImageResolution(ImageBase, headOk);
  }

  /** With a non-empty style the container is a video post on the video
      host; only `.webm` is probed, so the file URL is absent exactly when
      that probe fails. */
  lemma VideoPostScenario(headOk: string -> bool)
    ensures ExtractPost(Example(Src(), "display:block")) == Some(Post("123", "sample", VideoBase, true))
    ensures Resolved(ExtractPost(Example(Src(), "display:block")).value, headOk).fileUrl ==
            (if headOk(VideoBase + ".webm") then Some(VideoBase + ".webm") else None)
  {
    SrcGroups();
    ExamplePost(Src(), "display:block");
    ExampleBases();
    VideoResolution(VideoBase, headOk);
  }
}
