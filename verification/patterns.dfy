/** The two regular expressions applied to a thumbnail `src`:
      `thumbnail_([a-fA-F0-9]+)\.jpg`            (searched once), and
      `/thumbnails/([^/]+)/([^/]+)/`              (first of all matches).
    Each is given twice: as a ghost predicate that says what a regex match at a
    position is (any run length that fits), and as a greedy left-to-right scan.
    The lemmas show the scan finds the leftmost match and its groups. */
module Patterns {
  import opened Text
  import opened Wrappers

  const Thumb := "thumbnail_"
  const Jpg := ".jpg"
  const ThumbDir := "/thumbnails/"

  /** The position of the only `_` in `thumbnail_`: its last character. */
  const UnderscoreAt := |Thumb| - 1

  // ---------------------------------------------------------------------
  // thumbnail_([a-fA-F0-9]+)\.jpg

  /** The hash regex matches at `i` with a group of length `k`. */
  ghost predicate HashRegexAt(s: string, i: nat, k: nat)
  {
    && IsPrefixAt(s, i, Thumb)
    && 1 <= k
    && i + |Thumb| + k <= |s|
    && AllIn(s, i + |Thumb|, i + |Thumb| + k, IsHexDigit)
    && IsPrefixAt(s, i + |Thumb| + k, Jpg)
  }

  /** `(i, k)` is the match `re.search` reports: no match starts further left. */
  ghost predicate LeftmostHash(s: string, i: nat, k: nat)
  {
    HashRegexAt(s, i, k) && forall j: nat, k': nat :: j < i ==> !HashRegexAt(s, j, k')
  }

  /** The greedy test at `i`: take the maximal hex run, then require `.jpg`. */
  predicate HashMatchAt(s: string, i: nat)
  {
    && i + |Thumb| <= |s|
    && IsPrefixAt(s, i, Thumb)
    && var k := RunLen(s, i + |Thumb|, IsHexDigit);
       k >= 1 && IsPrefixAt(s, i + |Thumb| + k, Jpg)
  }

  /** Since `.` is not a hex digit, the regex can match only with the maximal
      run: greedy matching and the regex agree, group included. */
  lemma HashGreedyIsRegex(s: string, i: nat, k: nat)
    ensures HashRegexAt(s, i, k) <==>
            (HashMatchAt(s, i) && k == RunLen(s, i + |Thumb|, IsHexDigit))
  {
    var p := i + |Thumb|;
    if HashRegexAt(s, i, k) {
      assert s[p + k] == s[p + k..p + k + |Jpg|][0] == '.';
      RunLenUnique(s, p, k, IsHexDigit);
    }
  }

  /** Scans positions `from`, `from + 1`, ... for the first greedy match. */
  function FindHashFrom(s: string, from: nat): (r: Option<nat>)
    requires from <= |s|
    decreases |s| - from
    ensures r.Some? ==> from <= r.value && HashMatchAt(s, r.value)
    ensures r.Some? ==> forall j: nat :: from <= j < r.value ==> !HashMatchAt(s, j)
    ensures r.None? ==> forall j: nat :: from <= j ==> !HashMatchAt(s, j)
  {
    if HashMatchAt(s, from) then Some(from)
    else if from == |s| then None
    else FindHashFrom(s, from + 1)
  }

  /** `match.group(1)` of `re.search(r"thumbnail_([a-fA-F0-9]+)\.jpg", s)`,
      or `None` when the search fails. */
  function ExtractHash(s: string): (r: Option<string>)
    ensures r.Some? ==> |r.value| >= 1 && forall j :: 0 <= j < |r.value| ==> IsHexDigit(r.value[j])
  {
    match FindHashFrom(s, 0)
    case None => None
    case Some(i) =>
      var k := RunLen(s, i + |Thumb|, IsHexDigit);
      Some(s[i + |Thumb|..i + |Thumb| + k])
  }

  /** `ExtractHash` fails exactly when the regex matches nowhere, and
      otherwise returns the group of the leftmost match. A match also means
      `thumbnail_` occurs in `s`, so the source's separate substring test
      never rejects a `src` that the regex would accept. */
  lemma ExtractHashIsLeftmostMatch(s: string)
    ensures ExtractHash(s).None? <==> forall i: nat, k: nat :: !HashRegexAt(s, i, k)
    ensures ExtractHash(s).Some? ==>
              exists i: nat, k: nat :: LeftmostHash(s, i, k) && ExtractHash(s).value == s[i + |Thumb|..i + |Thumb| + k]
    ensures ExtractHash(s).Some? ==> Contains(s, Thumb)
  {
    match FindHashFrom(s, 0)
    case None =>
      forall i: nat, k: nat ensures !HashRegexAt(s, i, k) {
        HashGreedyIsRegex(s, i, k);
      }
    case Some(i) =>
      var k := RunLen(s, i + |Thumb|, IsHexDigit);
      HashGreedyIsRegex(s, i, k);
      forall j: nat, k': nat | j < i ensures !HashRegexAt(s, j, k') {
        HashGreedyIsRegex(s, j, k');
      }
      assert LeftmostHash(s, i, k);
      assert IsPrefixAt(s, i, Thumb);
  }

  // ---------------------------------------------------------------------
  // /thumbnails/([^/]+)/([^/]+)/

  /** `([^/]+)/` matches at `p` with a group of length `a`. */
  ghost predicate SegmentAt(s: string, p: nat, a: nat)
  {
    1 <= a && p + a < |s| && AllIn(s, p, p + a, IsNotSlash) && s[p + a] == '/'
  }

  /** The folder regex matches at `i` with groups of lengths `a` and `b`. */
  ghost predicate FolderRegexAt(s: string, i: nat, a: nat, b: nat)
  {
    && IsPrefixAt(s, i, ThumbDir)
    && SegmentAt(s, i + |ThumbDir|, a)
    && SegmentAt(s, i + |ThumbDir| + a + 1, b)
  }

  /** `(i, a, b)` is the first element `re.findall` returns. */
  ghost predicate LeftmostFolders(s: string, i: nat, a: nat, b: nat)
  {
    FolderRegexAt(s, i, a, b) && forall j: nat, a': nat, b': nat :: j < i ==> !FolderRegexAt(s, j, a', b')
  }

  /** The greedy test for `([^/]+)/` at `p`: the maximal non-slash run is
      non-empty and something (necessarily `/`) follows it. */
  predicate GreedySegmentAt(s: string, p: nat)
  {
    p <= |s| && 1 <= RunLen(s, p, IsNotSlash) && p + RunLen(s, p, IsNotSlash) < |s|
  }

  /** Since the group is closed by the one character it excludes, the greedy
      run is the only one the segment can match with. */
  lemma SegmentGreedy(s: string, p: nat, a: nat)
    ensures SegmentAt(s, p, a) <==> (GreedySegmentAt(s, p) && a == RunLen(s, p, IsNotSlash))
  {
    if SegmentAt(s, p, a) {
      RunLenUnique(s, p, a, IsNotSlash);
    }
  }

  /** The greedy test at `i`: `/thumbnails/`, then two greedy segments. */
  predicate FolderMatchAt(s: string, i: nat)
  {
    && IsPrefixAt(s, i, ThumbDir)
    && GreedySegmentAt(s, i + |ThumbDir|)
    && GreedySegmentAt(s, i + |ThumbDir| + RunLen(s, i + |ThumbDir|, IsNotSlash) + 1)
  }

  /** Greedy matching and the regex agree, groups included. */
  lemma FolderGreedyIsRegex(s: string, i: nat, a: nat, b: nat)
    ensures FolderRegexAt(s, i, a, b) <==>
            (&& FolderMatchAt(s, i)
             && a == RunLen(s, i + |ThumbDir|, IsNotSlash)
             && b == RunLen(s, i + |ThumbDir| + a + 1, IsNotSlash))
  {
    var p := i + |ThumbDir|;
    SegmentGreedy(s, p, a);
    SegmentGreedy(s, p + a + 1, b);
  }

  /** Scans positions `from`, `from + 1`, ... for the first greedy match. */
  function FindFoldersFrom(s: string, from: nat): (r: Option<nat>)
    requires from <= |s|
    decreases |s| - from
    ensures r.Some? ==> from <= r.value && FolderMatchAt(s, r.value)
    ensures r.Some? ==> forall j: nat :: from <= j < r.value ==> !FolderMatchAt(s, j)
    ensures r.None? ==> forall j: nat :: from <= j ==> !FolderMatchAt(s, j)
  {
    if FolderMatchAt(s, from) then Some(from)
    else if from == |s| then None
    else FindFoldersFrom(s, from + 1)
  }

  /** The two groups of a match at `i`, found greedily. */
  function FolderGroups(s: string, i: nat): (string, string)
    requires FolderMatchAt(s, i)
  {
    var p := i + |ThumbDir|;
    var a := RunLen(s, p, IsNotSlash);
    var b := RunLen(s, p + a + 1, IsNotSlash);
    (s[p..p + a], s[p + a + 1..p + a + 1 + b])
  }

  /** `re.findall(r"/thumbnails/([^/]+)/([^/]+)/", s)[0]`, or `None` when the
      list is empty. */
  function ExtractFolders(s: string): (r: Option<(string, string)>)
    ensures r.Some? ==> |r.value.0| >= 1 && forall j :: 0 <= j < |r.value.0| ==> r.value.0[j] != '/'
    ensures r.Some? ==> |r.value.1| >= 1 && forall j :: 0 <= j < |r.value.1| ==> r.value.1[j] != '/'
  {
    match FindFoldersFrom(s, 0)
    case None => None
    case Some(i) => Some(FolderGroups(s, i))
  }

  /** Where the scan finds nothing, the regex matches nowhere. */
  lemma NoFolderMatch(s: string)
    requires FindFoldersFrom(s, 0).None?
    ensures forall i: nat, a: nat, b: nat :: !FolderRegexAt(s, i, a, b)
  {
    forall i: nat, a: nat, b: nat ensures !FolderRegexAt(s, i, a, b) {
      FolderGreedyIsRegex(s, i, a, b);
    }
  }

  /** A leftmost folder match is where the scan stops. */
  lemma ScanStopsAtLeftmost(s: string, i: nat, a: nat, b: nat)
    requires LeftmostFolders(s, i, a, b)
    ensures FindFoldersFrom(s, 0) == Some(i)
  {
    FolderGreedyIsRegex(s, i, a, b);
    var i0 := FindFoldersFrom(s, 0).value;
    var p0 := i0 + |ThumbDir|;
    var a0 := RunLen(s, p0, IsNotSlash);
    FolderGreedyIsRegex(s, i0, a0, RunLen(s, p0 + a0 + 1, IsNotSlash));
  }

  /** A leftmost folder match determines what `ExtractFolders` returns. */
  lemma ExtractFoldersOfLeftmost(s: string, i: nat, a: nat, b: nat)
    requires LeftmostFolders(s, i, a, b)
    ensures var p := i + |ThumbDir|;
            ExtractFolders(s) == Some((s[p..p + a], s[p + a + 1..p + a + 1 + b]))
  {
    ScanStopsAtLeftmost(s, i, a, b);
    FolderGroupsOfMatch(s, i, a, b);
  }

  /** The groups of a regex match are the greedy ones. */
  lemma FolderGroupsOfMatch(s: string, i: nat, a: nat, b: nat)
    requires FolderRegexAt(s, i, a, b)
    ensures FolderMatchAt(s, i)
    ensures var p := i + |ThumbDir|;
            FolderGroups(s, i) == (s[p..p + a], s[p + a + 1..p + a + 1 + b])
  {
    FolderGreedyIsRegex(s, i, a, b);
  }

  /** Where the scan stops, the regex has its leftmost match. */
  lemma FirstFolderMatch(s: string, i: nat)
    requires FindFoldersFrom(s, 0) == Some(i)
    ensures var p := i + |ThumbDir|;
            var a := RunLen(s, p, IsNotSlash);
            LeftmostFolders(s, i, a, RunLen(s, p + a + 1, IsNotSlash))
  {
    var p := i + |ThumbDir|;
    var a := RunLen(s, p, IsNotSlash);
    var b := RunLen(s, p + a + 1, IsNotSlash);
    FolderGreedyIsRegex(s, i, a, b);
    forall j: nat, a': nat, b': nat | j < i ensures !FolderRegexAt(s, j, a', b') {
      FolderGreedyIsRegex(s, j, a', b');
    }
  }

  /** The leftmost match behind a successful `ExtractFolders`. */
  lemma LeftmostFoldersOf(s: string) returns (i: nat, a: nat, b: nat)
    requires ExtractFolders(s).Some?
    ensures LeftmostFolders(s, i, a, b)
    ensures ExtractFolders(s) == Some((s[i + |ThumbDir|..i + |ThumbDir| + a],
                                       s[i + |ThumbDir| + a + 1..i + |ThumbDir| + a + 1 + b]))
  {
    i := FindFoldersFrom(s, 0).value;
    a := RunLen(s, i + |ThumbDir|, IsNotSlash);
    b := RunLen(s, i + |ThumbDir| + a + 1, IsNotSlash);
    FirstFolderMatch(s, i);
    ExtractFoldersOfLeftmost(s, i, a, b);
  }

  /** `ExtractFolders` fails exactly when the regex matches nowhere, and
      otherwise returns both groups of the leftmost match. */
  lemma ExtractFoldersIsLeftmostMatch(s: string)
    ensures ExtractFolders(s).None? <==> forall i: nat, a: nat, b: nat :: !FolderRegexAt(s, i, a, b)
    ensures ExtractFolders(s).Some? ==>
              exists i: nat, a: nat, b: nat ::
                && LeftmostFolders(s, i, a, b)
                && ExtractFolders(s) == Some((s[i + |ThumbDir|..i + |ThumbDir| + a],
                                              s[i + |ThumbDir| + a + 1..i + |ThumbDir| + a + 1 + b]))
  {
    if ExtractFolders(s).None? {
      NoFolderMatch(s);
    } else {
      var i, a, b := LeftmostFoldersOf(s);
    }
  }

  // ---------------------------------------------------------------------
  // Round trip

  /** The thumbnail path the site uses for a post stored under
      `folder1/folder2` with content hash `hash`. */
  function ThumbnailPath(folder1: string, folder2: string, hash: string): string
  {
    ThumbDir + folder1 + "/" + folder2 + "/" + Thumb + hash + Jpg
  }

  /** A thumbnail path whose folders are non-empty and free of `/` and `_` and
      whose hash is non-empty hex gives back exactly its folders and hash. */
  lemma {:induction false} ThumbnailPathRoundTrip(folder1: string, folder2: string, hash: string)
    requires |folder1| >= 1 && '/' !in folder1 && '_' !in folder1
    requires |folder2| >= 1 && '/' !in folder2 && '_' !in folder2
    requires |hash| >= 1 && forall j :: 0 <= j < |hash| ==> IsHexDigit(hash[j])
    ensures ExtractHash(ThumbnailPath(folder1, folder2, hash)) == Some(hash)
    ensures ExtractFolders(ThumbnailPath(folder1, folder2, hash)) == Some((folder1, folder2))
  {
    var s := ThumbnailPath(folder1, folder2, hash);
    PathFolders(folder1, folder2, hash);
    PathHash(folder1, folder2, hash);
  }

  /** A leftmost hash match is where the scan stops. */
  lemma ScanStopsAtLeftmostHash(s: string, i: nat, k: nat)
    requires LeftmostHash(s, i, k)
    ensures FindHashFrom(s, 0) == Some(i)
  {
    HashGreedyIsRegex(s, i, k);
    var i0 := FindHashFrom(s, 0).value;
    HashGreedyIsRegex(s, i0, RunLen(s, i0 + |Thumb|, IsHexDigit));
  }

  /** A leftmost hash match determines what `ExtractHash` returns. */
  lemma ExtractHashOfLeftmost(s: string, i: nat, k: nat)
    requires LeftmostHash(s, i, k)
    ensures ExtractHash(s) == Some(s[i + |Thumb|..i + |Thumb| + k])
  {
    ScanStopsAtLeftmostHash(s, i, k);
    HashGreedyIsRegex(s, i, k);
  }

  lemma PathFolders(folder1: string, folder2: string, hash: string)
    requires |folder1| >= 1 && '/' !in folder1
    requires |folder2| >= 1 && '/' !in folder2
    ensures ExtractFolders(ThumbnailPath(folder1, folder2, hash)) == Some((folder1, folder2))
  {
    PathFolderPieces(folder1, folder2, hash);
    FoldersFromPieces(ThumbnailPath(folder1, folder2, hash), folder1, folder2);
  }

  /** A string that opens with `/thumbnails/f1/f2/` yields `(f1, f2)`. */
  lemma FoldersFromPieces(s: string, folder1: string, folder2: string)
    requires |folder1| >= 1 && '/' !in folder1
    requires |folder2| >= 1 && '/' !in folder2
    requires var p, a, b := |ThumbDir|, |folder1|, |folder2|;
             && p + a + 1 + b + 1 <= |s|
             && s[..p] == ThumbDir
             && s[p..p + a] == folder1
             && s[p + a] == '/'
             && s[p + a + 1..p + a + 1 + b] == folder2
             && s[p + a + 1 + b] == '/'
    ensures ExtractFolders(s) == Some((folder1, folder2))
  {
    var p, a, b := |ThumbDir|, |folder1|, |folder2|;
    assert FolderRegexAt(s, 0, a, b) by {
      assert IsPrefixAt(s, 0, ThumbDir);
      forall j | p <= j < p + a ensures IsNotSlash(s[j]) {
        assert s[j] == s[p..p + a][j - p] == folder1[j - p];
      }
      forall j | p + a + 1 <= j < p + a + 1 + b ensures IsNotSlash(s[j]) {
        assert s[j] == s[p + a + 1..p + a + 1 + b][j - (p + a + 1)] == folder2[j - (p + a + 1)];
      }
    }
    assert LeftmostFolders(s, 0, a, b);
    ExtractFoldersOfLeftmost(s, 0, a, b);
  }

  /** Where the pieces of a thumbnail path sit. */
  lemma PathFolderPieces(folder1: string, folder2: string, hash: string)
    ensures var s := ThumbnailPath(folder1, folder2, hash);
            var p, a, b := |ThumbDir|, |folder1|, |folder2|;
            && p + a + 1 + b + 1 <= |s|
            && s[..p] == ThumbDir
            && s[p..p + a] == folder1
            && s[p + a] == '/'
            && s[p + a + 1..p + a + 1 + b] == folder2
            && s[p + a + 1 + b] == '/'
  {
    var s := ThumbnailPath(folder1, folder2, hash);
    var rest := Thumb + hash + Jpg;
    assert s == ThumbDir + folder1 + "/" + folder2 + "/" + rest;
  }

  lemma PathHashPieces(folder1: string, folder2: string, hash: string)
    ensures var s := ThumbnailPath(folder1, folder2, hash);
            var q := |ThumbDir + folder1 + "/" + folder2 + "/"|;
            var h := |hash|;
            && q + |Thumb| + h + |Jpg| == |s|
            && s[..q + UnderscoreAt] == ThumbDir + folder1 + "/" + folder2 + "/" + "thumbnail"
            && s[q..q + |Thumb|] == Thumb
            && s[q + |Thumb|..q + |Thumb| + h] == hash
            && s[q + |Thumb| + h..q + |Thumb| + h + |Jpg|] == Jpg
  {
    var s := ThumbnailPath(folder1, folder2, hash);
    var front := ThumbDir + folder1 + "/" + folder2 + "/";
    assert s == front + Thumb + hash + Jpg;
    assert Thumb == "thumbnail" + "_";
  }

  lemma ThumbEndsInUnderscore(s: string, i: nat)
    requires IsPrefixAt(s, i, Thumb)
    ensures s[i + UnderscoreAt] == '_'
  {
    assert s[i + UnderscoreAt] == s[i..i + |Thumb|][UnderscoreAt];
  }

  lemma PathHash(folder1: string, folder2: string, hash: string)
    requires '_' !in folder1 && '_' !in folder2
    requires |hash| >= 1 && forall j :: 0 <= j < |hash| ==> IsHexDigit(hash[j])
    ensures ExtractHash(ThumbnailPath(folder1, folder2, hash)) == Some(hash)
  {
    var s := ThumbnailPath(folder1, folder2, hash);
    var under := ThumbDir + folder1 + "/" + folder2 + "/" + "thumbnail";
    var q, h := |ThumbDir + folder1 + "/" + folder2 + "/"|, |hash|;
    PathHashPieces(folder1, folder2, hash);
    assert HashRegexAt(s, q, h) by {
      forall j | q + |Thumb| <= j < q + |Thumb| + h ensures IsHexDigit(s[j]) {
        assert s[j] == s[q + |Thumb|..q + |Thumb| + h][j - (q + |Thumb|)] == hash[j - (q + |Thumb|)];
      }
    }
    assert '_' !in under by {
      assert '_' !in ThumbDir && '_' !in "thumbnail";
    }
    forall i: nat, k: nat | i < q ensures !HashRegexAt(s, i, k) {
      assert s[i + UnderscoreAt] == s[..q + UnderscoreAt][i + UnderscoreAt] == under[i + UnderscoreAt] != '_';
      if HashRegexAt(s, i, k) {
        ThumbEndsInUnderscore(s, i);
        assert false;
      }
    }
    assert LeftmostHash(s, q, h);
    ExtractHashOfLeftmost(s, q, h);
  }
}
