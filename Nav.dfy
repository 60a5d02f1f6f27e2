/** The active-link marking of the navigation script (nav.js): after the
    navigation fragment is in the document, the page name is taken from the
    location path and every navigation link whose normalised href equals it
    is given the `nav_active` class. The links are their href strings; whether
    each one carries `nav_active` is a flag in an array beside them. */
module Nav {
  import opened Text

  /** The page assumed when the path ends in `/` (or is empty). */
  const HomePage: string := "index.html"

  /** The text after the last `/` of a path, or the whole path when it has
      none: the last element of `path.split("/")`. */
  function LastSegment(path: string): (r: string)
    ensures '/' !in r
    ensures EndsWith(path, r)
    ensures |r| < |path| ==> path[|path| - |r| - 1] == '/'
    decreases |path|
  {
    if path == [] || path[|path| - 1] == '/' then []
    else
      var init := path[..|path| - 1];
      SplitLast(path);
      SegmentSnoc(init, LastSegment(init), path[|path| - 1]);
      LastSegment(init) + [path[|path| - 1]]
  }

  /** Appending a character other than `/` to a path extends its final
      segment by that character. */
  lemma SegmentSnoc(init: string, last: string, c: char)
    requires '/' !in last && EndsWith(init, last)
    requires |last| < |init| ==> init[|init| - |last| - 1] == '/'
    requires c != '/'
    ensures '/' !in last + [c]
    ensures EndsWith(init + [c], last + [c])
    ensures |last + [c]| < |init + [c]| ==> (init + [c])[|init + [c]| - |last + [c]| - 1] == '/'
  {
    EndsWithSnoc(init, last, c);
  }

  /** The current page: the last path segment, or `index.html` when that
      segment is empty. */
  function CurrentPage(currentPath: string): (r: string)
    ensures r != [] && '/' !in r
    ensures currentPath == [] || currentPath[|currentPath| - 1] == '/' ==> r == HomePage
    ensures currentPath != [] && currentPath[|currentPath| - 1] != '/' ==>
              EndsWith(currentPath, r) &&
              (|r| == |currentPath| || currentPath[|currentPath| - |r| - 1] == '/')
  {
    var last := LastSegment(currentPath);
    if last == [] then HomePage else last
  }

  /** The two-step normalisation of an href (or of the page name): remove a
      leading `/p/`, then remove one leading `/` from what is left. */
  function Normalize(href: string): (r: string)
    ensures |href| - 4 <= |r| <= |href|
  {
    var withoutPrefix :=
      if |href| >= 3 && href[0] == '/' && href[1] == 'p' && href[2] == '/' then href[3..] else href;
    if |withoutPrefix| >= 1 && withoutPrefix[0] == '/' then withoutPrefix[1..] else withoutPrefix
  }

  /** The two steps spelled out: a leading `/p//` loses four characters, any
      other leading `/p/` three, any other leading `/` one, and an href with
      none of these is its own normal form. */
  lemma NormalizeSteps(href: string)
    ensures StartsWith(href, "/p//") ==> Normalize(href) == href[4..]
    ensures StartsWith(href, "/p/") && !StartsWith(href, "/p//") ==> Normalize(href) == href[3..]
    ensures !StartsWith(href, "/p/") && StartsWith(href, "/") ==> Normalize(href) == href[1..]
    ensures !StartsWith(href, "/") ==> Normalize(href) == href
  {
  }

  /** Normalisation only removes a prefix, and a name without `/` is left as
      it is. */
  lemma NormalizeSuffix(href: string)
    ensures EndsWith(href, Normalize(href))
    ensures '/' !in href ==> Normalize(href) == href
  {
    if href != [] {
      assert href[0] in href;
    }
  }

  /** Every href is its normal form behind nothing, `/`, `/p/` or `/p//`. */
  lemma NormalizeCases(href: string)
    ensures var n := Normalize(href);
            href == n || href == "/" + n || href == "/p/" + n || href == "/p//" + n
  {
    var n := Normalize(href);
    if |href| >= 3 && href[0] == '/' && href[1] == 'p' && href[2] == '/' {
      var rest := href[3..];
      assert href == "/p/" + rest;
      if |rest| >= 1 && rest[0] == '/' {
        assert n == rest[1..];
        assert rest == "/" + n;
        assert href == "/p//" + n;
      } else {
        assert n == rest;
      }
    } else if |href| >= 1 && href[0] == '/' {
      assert n == href[1..];
      assert href == "/" + n;
    }
  }

  /** A page name without `/` normalises to itself in each of its four
      spellings. */
  lemma NormalizeSpellings(page: string)
    requires '/' !in page
    ensures Normalize(page) == page
    ensures Normalize("/" + page) == page
    ensures Normalize("/p/" + page) == page
    ensures Normalize("/p//" + page) == page
  {
    if page != [] {
      assert page[0] in page;
    }
    if |page| >= 2 {
      assert page[1] in page;
    }
    var slashed := "/" + page;
    assert slashed[1..] == page;
    var prefixed := "/p/" + page;
    assert prefixed[3..] == page;
    var doubled := "/p//" + page;
    assert doubled[3..] == slashed;
  }

  /** The hrefs that normalise to a page name without `/` are exactly the name
      itself, the name after `/`, after `/p/`, and after `/p//`. */
  lemma NormalizeMatches(href: string, page: string)
    requires '/' !in page
    ensures Normalize(href) == page <==>
              href == page || href == "/" + page || href == "/p/" + page || href == "/p//" + page
  {
    NormalizeCases(href);
    NormalizeSpellings(page);
  }

  /** A link counts as the current page's link when both normalise alike. */
  predicate IsActive(href: string, currentPage: string)
  {
    Normalize(href) == Normalize(currentPage)
  }

  /** The current page is unchanged by normalisation, so a link is active
      exactly when its href is the page name, optionally behind `/`, `/p/` or
      `/p//`. */
  lemma ActiveLinkSpellings(href: string, currentPath: string)
    ensures var page := CurrentPage(currentPath);
            Normalize(page) == page &&
            (IsActive(href, page) <==>
               href == page || href == "/" + page || href == "/p/" + page || href == "/p//" + page)
  {
    NormalizeSuffix(CurrentPage(currentPath));
    NormalizeMatches(href, CurrentPage(currentPath));
  }

  /** The segment after a `/` is the last segment when it holds no `/`. */
  lemma LastSegmentAfterSlash(dir: string, name: string)
    requires '/' !in name
    ensures LastSegment(dir + "/" + name) == name
  {
    var path := dir + "/" + name;
    var r := LastSegment(path);
    assert path[|path| - |name|..] == name;
    assert path[|path| - |name| - 1] == '/';
    assert r == path[|path| - |r|..];
  }

  /** On `/pages/about.html` the current page is `about.html`. */
  lemma AboutPageName()
    ensures CurrentPage("/pages/about.html") == "about.html"
  {
    var name := "about.html";
    assert forall k :: 0 <= k < |name| ==> name[k] != '/';
    assert "/pages/about.html" == "/pages" + "/" + name;
    LastSegmentAfterSlash("/pages", name);
  }

  /** On a page served at `dir/name` (as `/pages/about.html`), the link
      `/p/name` (as `/p/about.html`) is the active one. */
  lemma PrefixedLinkActive(dir: string, name: string)
    requires name != [] && '/' !in name
    ensures CurrentPage(dir + "/" + name) == name
    ensures IsActive("/p/" + name, CurrentPage(dir + "/" + name))
  {
    LastSegmentAfterSlash(dir, name);
    NormalizeSpellings(name);
  }

  /** The marking loop: each link is given `nav_active` exactly when its
      normalised href equals the normalised current page; a link that does not
      match keeps whatever it had, and no class is removed. */
  method MarkActiveLinks(currentPath: string, hrefs: seq<string>, active: array<bool>)
    requires active.Length == |hrefs|
    modifies active
    ensures forall i :: 0 <= i < active.Length ==>
              active[i] == (old(active[i]) || IsActive(hrefs[i], CurrentPage(currentPath)))
  {
    var currentPage := CurrentPage(currentPath);
    var i := 0;
    while i < |hrefs|
      invariant 0 <= i <= |hrefs|
      invariant forall k :: 0 <= k < i ==> active[k] == (old(active[k]) || IsActive(hrefs[k], currentPage))
      invariant forall k :: i <= k < |hrefs| ==> active[k] == old(active[k])
    {
      var link := hrefs[i];
      var normalizedLink := Normalize(link);
      var normalizedPage := Normalize(currentPage);
      var isMatch := normalizedLink == normalizedPage;
      assert isMatch == IsActive(link, currentPage);
      if isMatch {
        active[i] := true;
      }
      i := i + 1;
    }
  }
}
