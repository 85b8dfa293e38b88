/** Active-nav marking: each navigation link whose target file name is the
    current page's file name gets `aria-current="page"`; every other link
    loses the attribute. */
module ActiveNav {
  import opened Wrappers
  import opened JsStrings
  import opened Dom

  const DefaultPage := "index.html"
  const HrefAttr := "href"
  const CurrentAttr := "aria-current"
  const CurrentValue := "page"

  /** `path.split("/").pop() || "index.html"`: the text after the final
      `/`, or the home page when that text is empty. */
  function FileName(path: string): (r: string)
    ensures r != "" && '/' !in r
    ensures path == "" || Last(path) == '/' ==> r == DefaultPage
    ensures path != "" && Last(path) != '/' ==> IsLastField(path, r, '/')
  {
    SplitLastField(path, '/');
    var last := Last(Split(path, '/'));
    if last == "" then DefaultPage else last
  }

  /** A non-empty name without `/` is its own file name. */
  lemma FileNameOfPlain(s: string)
    requires s != "" && '/' !in s
    ensures FileName(s) == s
  {
    assert IsLastField(s, s, '/');
    LastFieldUnique(s, s, FileName(s), '/');
  }

  /** The link's target file name; a missing `href` reads as "" and so
      names the home page. */
  function LinkTarget(a: Element): (r: string)
    ensures r != "" && '/' !in r
    ensures GetAttribute(a, HrefAttr).None? ==> r == DefaultPage
    ensures GetAttribute(a, HrefAttr).Some? ==>
      var href := GetAttribute(a, HrefAttr).value;
      href != "" && Last(href) != '/' ==> IsLastField(href, r, '/')
  {
    FileName(GetAttribute(a, HrefAttr).GetOr(""))
  }

  predicate IsCurrent(pathname: string, a: Element) {
    LinkTarget(a) == FileName(pathname)
  }

  /** The loop body for one link, given the page's file name: the marker is
      set when the link's target is the page and removed otherwise. */
  function MarkLink(page: string, a: Element): (b: Element)
    ensures GetAttribute(b, CurrentAttr) == (if LinkTarget(a) == page then Some(CurrentValue) else None)
    ensures SameExcept(a, b, {CurrentAttr})
  {
    if LinkTarget(a) == page then SetAttribute(a, CurrentAttr, CurrentValue) else RemoveAttribute(a, CurrentAttr)
  }

  /** `highlightActiveNav`: one pass over the links, in order. */
  method HighlightActiveNav(pathname: string, links: seq<Element>) returns (marked: seq<Element>)
    ensures |marked| == |links|
    ensures forall i :: 0 <= i < |links| ==>
      GetAttribute(marked[i], CurrentAttr) == (if IsCurrent(pathname, links[i]) then Some(CurrentValue) else None)
    ensures forall i :: 0 <= i < |links| ==> SameExcept(links[i], marked[i], {CurrentAttr})
  {
    var page := FileName(pathname);
    marked := [];
    var i := 0;
    while i < |links|
      invariant 0 <= i <= |links| && |marked| == i
      invariant forall j :: 0 <= j < i ==> marked[j] == MarkLink(page, links[j])
    {
      marked := marked + [MarkLink(page, links[i])];
      i := i + 1;
    }
  }

  /** Whether a link is current depends only on its `href`, which the pass
      does not touch: a second pass over marked links marks the same ones. */
  lemma IsCurrentIgnoresMarker(pathname: string, a: Element, b: Element)
    requires SameExcept(a, b, {CurrentAttr})
    ensures IsCurrent(pathname, a) <==> IsCurrent(pathname, b)
  {
    assert GetAttribute(a, HrefAttr) == GetAttribute(b, HrefAttr);
  }

  /** A link without `href`, with an empty one, or with one ending in `/`
      points at the home page. */
  lemma HomeLinks(pathname: string, a: Element)
    requires GetAttribute(a, HrefAttr).None? || GetAttribute(a, HrefAttr) == Some("")
      || (GetAttribute(a, HrefAttr).Some? && GetAttribute(a, HrefAttr).value != "" && Last(GetAttribute(a, HrefAttr).value) == '/')
    ensures IsCurrent(pathname, a) <==> FileName(pathname) == DefaultPage
  {
  }

  /** The file name of a path is its last field when that is not empty. */
  lemma FileNameOfLastField(path: string, t: string)
    requires t != "" && IsLastField(path, t, '/')
    ensures FileName(path) == t
  {
    LastFieldUnique(path, t, FileName(path), '/');
  }

  /** Directories in front of a file name do not change it. */
  lemma FileNameIgnoresDirectory(dir: string, f: string)
    requires f != "" && '/' !in f
    ensures FileName(dir + "/" + f) == f
  {
    var p := dir + "/" + f;
    assert p[|p| - |f|..] == f;
    assert p[|p| - |f| - 1] == '/';
    FileNameOfLastField(p, f);
  }

  /** Only file names are compared, so every link naming the page's file,
      whatever directory its `href` gives, is current: the pass does not
      keep the marker unique. A link naming another file is not current. */
  lemma SeveralCurrent(dir: string, otherDir: string, f: string, g: string, a: Element, b: Element, c: Element)
    requires f != "" && '/' !in f && g != "" && '/' !in g && f != g
    requires GetAttribute(a, HrefAttr) == Some(f)
    requires GetAttribute(b, HrefAttr) == Some(otherDir + "/" + f)
    requires GetAttribute(c, HrefAttr) == Some(g)
    ensures IsCurrent(dir + "/" + f, a) && IsCurrent(dir + "/" + f, b) && !IsCurrent(dir + "/" + f, c)
  {
    FileNameIgnoresDirectory(dir, f);
    FileNameIgnoresDirectory(otherDir, f);
    FileNameOfPlain(f);
    FileNameOfPlain(g);
  }
}
