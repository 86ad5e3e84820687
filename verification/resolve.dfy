/** Extension resolution (`try_extensions`): probe `base.ext` for each
    candidate extension in order and keep the first address whose HEAD request
    answers 200. The HEAD request is the oracle `headOk`. */
module Resolve {
  import opened Wrappers

  /** The candidates for a post that is not a video, in probing order. */
  const ValidExtensions: seq<string> := ["png", "jpeg", "gif", "jpg", "webm"]

  /** The only candidate for a video post. */
  const VideoExtension := "webm"

  /** The candidate list `fetch_images` hands to `try_extensions`. */
  function ExtensionOrder(isVideo: bool): (exts: seq<string>)
    ensures isVideo ==> exts == [VideoExtension]
    ensures !isVideo ==> exts == ValidExtensions
  {
    if isVideo then [VideoExtension] else ValidExtensions
  }

  /** The address probed for one extension. */
  function Candidate(base: string, ext: string): string
  {
    base + "." + ext
  }

  /** The position of the first candidate whose probe succeeds, or `|exts|`
      when none does: every earlier probe fails, and the one there succeeds. */
  function FirstHit(base: string, exts: seq<string>, headOk: string -> bool): (k: nat)
    ensures k <= |exts|
    ensures forall j :: 0 <= j < k ==> !headOk(Candidate(base, exts[j]))
    ensures k < |exts| ==> headOk(Candidate(base, exts[k]))
  {
    if exts == [] then 0
    else if headOk(Candidate(base, exts[0])) then 0
    else 1 + FirstHit(base, exts[1..], headOk)
  }

  /** What `try_extensions` returns: the first candidate address whose probe
      succeeds, or `None` exactly when every probe fails. */
  function Resolution(base: string, exts: seq<string>, headOk: string -> bool): (r: Option<string>)
    ensures r.None? <==> forall j :: 0 <= j < |exts| ==> !headOk(Candidate(base, exts[j]))
    ensures r.Some? ==> headOk(r.value) && r.value == Candidate(base, exts[FirstHit(base, exts, headOk)])
  {
    var k := FirstHit(base, exts, headOk);
    if k < |exts| then Some(Candidate(base, exts[k])) else None
  }

  /** The addresses probed when the search stops after `n` candidates. */
  function Probes(base: string, exts: seq<string>, n: nat): (urls: seq<string>)
    requires n <= |exts|
    ensures |urls| == n
    ensures forall j :: 0 <= j < n ==> urls[j] == Candidate(base, exts[j])
  {
    if n == 0 then [] else Probes(base, exts, n - 1) + [Candidate(base, exts[n - 1])]
  }

  /** The loop of `try_extensions`, returning early at the first probe that
      answers 200. `probed` records the HEAD requests issued, in order: the
      candidates up to and including the first success, or all of them. */
  method TryExtensions(base: string, exts: seq<string>, headOk: string -> bool)
    returns (r: Option<string>, ghost probed: seq<string>)
    ensures r == Resolution(base, exts, headOk)
    ensures r.Some? ==> probed == Probes(base, exts, FirstHit(base, exts, headOk) + 1)
    ensures r.None? ==> probed == Probes(base, exts, |exts|)
  {
    probed := [];
    var i := 0;
    while i < |exts|
      invariant 0 <= i <= |exts|
      invariant forall j :: 0 <= j < i ==> !headOk(Candidate(base, exts[j]))
      invariant probed == Probes(base, exts, i)
    {
      var fullUrl := Candidate(base, exts[i]);
      probed := probed + [fullUrl];
      if headOk(fullUrl) {
        return Some(fullUrl), probed;
      }
      i := i + 1;
    }
    return None, probed;
  }

  /** A video post probes only `base.webm` and resolves to it or to nothing. */
  lemma VideoResolution(base: string, headOk: string -> bool)
    ensures Resolution(base, ExtensionOrder(true), headOk) ==
            (if headOk(base + ".webm") then Some(base + ".webm") else None)
  {
    assert Candidate(base, ExtensionOrder(true)[0]) == base + ".webm";
  }

  /** An image post resolves to the first of png, jpeg, gif, jpg, webm that
      exists, even when a later one exists too. */
  lemma ImageResolution(base: string, headOk: string -> bool)
    ensures Resolution(base, ExtensionOrder(false), headOk) ==
            if headOk(base + ".png") then Some(base + ".png")
            else if headOk(base + ".jpeg") then Some(base + ".jpeg")
            else if headOk(base + ".gif") then Some(base + ".gif")
            else if headOk(base + ".jpg") then Some(base + ".jpg")
            else if headOk(base + ".webm") then Some(base + ".webm")
            else None
  {
    var exts := ExtensionOrder(false);
    assert Candidate(base, exts[0]) == base + ".png";
    assert Candidate(base, exts[1]) == base + ".jpeg";
    assert Candidate(base, exts[2]) == base + ".gif";
    assert Candidate(base, exts[3]) == base + ".jpg";
    assert Candidate(base, exts[4]) == base + ".webm";
  }
}
