/** The listing-page address (`build_base_url`). */
module Listing {
  import opened Text

  /** Everything of the listing URL that comes before the tags. */
  const ListingPrefix := "https://realbooru.com/index.php?page=post&s=list&tags="

  /** The separator between the tags and the post offset. */
  const PidKey := "&pid="

  /** Posts per listing page on the site; `pid` counts posts, not pages. */
  const PageSize := 42

  /** The offset of the first post shown on `page`. */
  function Pid(page: int): (pid: int)
    ensures page >= 1 ==> pid >= 0 && pid % PageSize == 0
    ensures page >= 1 ==> pid / PageSize == page - 1
  {
    (page - 1) * PageSize
  }

  /** The listing URL for `tags` and `page`; the tags go in verbatim and the
      offset is rendered the way Python's `str` renders an integer. */
  function BuildBaseUrl(tags: string, page: int): (url: string)
    ensures StartsWith(url, ListingPrefix)
  {
    ListingPrefix + tags + PidKey + IntToString(Pid(page))
  }

  /** The URL splits into the fixed prefix, the tags unchanged, the `&pid=`
      key and the decimal offset as Python's `str` writes it: for every valid
      page the digits of `(page - 1) * 42`, with no leading zero; below page 1
      a minus sign followed by the magnitude. */
  lemma ListingUrlFields(tags: string, page: int)
    ensures var url := BuildBaseUrl(tags, page);
            var t := |ListingPrefix|;
            var p := t + |tags| + |PidKey|;
            && |url| > p
            && url[..t] == ListingPrefix
            && url[t..t + |tags|] == tags
            && url[t + |tags|..p] == PidKey
            && (page >= 1 ==> url[p..] == NatToString((page - 1) * PageSize))
            && (page < 1 ==> url[p..] == "-" + NatToString((1 - page) * PageSize))
  {
    var url := BuildBaseUrl(tags, page);
    var t := |ListingPrefix|;
    var p := t + |tags| + |PidKey|;
    var digits := IntToString(Pid(page));
    assert url == (ListingPrefix + tags + PidKey) + digits;
    assert url[p..] == digits;
    assert url[..t] == ListingPrefix;
    assert url[t..t + |tags|] == tags;
    assert url[t + |tags|..p] == PidKey;
    if page < 1 {
      assert -Pid(page) == (1 - page) * PageSize;
    }
  }

  /** Different pages of the same tags give different URLs. */
  lemma ListingUrlInjective(tags: string, page1: int, page2: int)
    requires page1 >= 1 && page2 >= 1
    requires BuildBaseUrl(tags, page1) == BuildBaseUrl(tags, page2)
    ensures page1 == page2
  {
    var p := |ListingPrefix| + |tags| + |PidKey|;
    ListingUrlFields(tags, page1);
    ListingUrlFields(tags, page2);
    assert BuildBaseUrl(tags, page1)[p..] == BuildBaseUrl(tags, page2)[p..];
  }
}
