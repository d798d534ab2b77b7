/** initNavigation: the current page is the last '/'-separated segment of the location's path
    (`pathname.split('/').pop() || 'index.html'`), and every `nav a` whose href equals it gets `active`. */
module Navigation {
  import opened Wrappers

  const DefaultPage: string := "index.html"

  /** `s.split(sep)` for a one-character separator: the pieces between separators, in order, with an
      empty piece wherever two separators meet or one stands at either end. Built from the end of the
      string: a separator opens a new, empty last piece; any other character extends the last piece. */
  function Split(s: string, sep: char): (parts: seq<string>)
    ensures |parts| >= 1
    ensures forall i :: 0 <= i < |parts| ==> sep !in parts[i]
  {
    if s == [] then [[]]
    else
      var init := Split(s[..|s| - 1], sep);
      var c := s[|s| - 1];
      if c == sep then init + [[]]
      else init[..|init| - 1] + [init[|init| - 1] + [c]]
  }

  /** `parts.join(sep)`, the inverse of Split. */
  function Join(parts: seq<string>, sep: char): string
    requires |parts| >= 1
  {
    if |parts| == 1 then parts[0] else Join(parts[..|parts| - 1], sep) + [sep] + parts[|parts| - 1]
  }

  /** Splitting loses nothing: joining the pieces back with the separator gives the string again. */
  lemma {:induction false} JoinSplit(s: string, sep: char)
    ensures Join(Split(s, sep), sep) == s
  {
    if s != [] {
      var prefix := s[..|s| - 1];
      var c := s[|s| - 1];
      var init := Split(prefix, sep);
      var parts := Split(s, sep);
      JoinSplit(prefix, sep);
      assert prefix + [c] == s;
      if c == sep {
        assert parts[..|parts| - 1] == init;
      } else if |init| > 1 {
        assert parts[..|parts| - 1] == init[..|init| - 1];
        assert Join(init, sep) == Join(init[..|init| - 1], sep) + [sep] + init[|init| - 1];
      }
    }
  }

  /** `pathname.split('/').pop() || 'index.html'`: the last piece, unless it is the empty string. The page
      is never empty and never holds a '/', and it is either "index.html" or a tail of the path. */
  function CurrentPage(pathname: string): (page: string)
    ensures page != [] && '/' !in page
    ensures page == DefaultPage || (|page| <= |pathname| && page == pathname[|pathname| - |page|..])
  {
    SplitLastPiece(pathname, '/');
    var parts := Split(pathname, '/');
    var last := parts[|parts| - 1];
    if last == [] then DefaultPage else last
  }

  /** The last piece of a split is the longest suffix free of the separator: it holds no separator, and
      either it is the whole string or a separator stands right before it. */
  lemma {:induction false} SplitLastPiece(s: string, sep: char)
    ensures var parts := Split(s, sep); var last := parts[|parts| - 1];
      |last| <= |s| && last == s[|s| - |last|..] && sep !in last &&
      (|last| < |s| ==> s[|s| - |last| - 1] == sep)
  {
    if s != [] {
      var prefix := s[..|s| - 1];
      var c := s[|s| - 1];
      SplitLastPiece(prefix, sep);
      var init := Split(prefix, sep);
      var l := init[|init| - 1];
      if c != sep {
        assert Split(s, sep)[|Split(s, sep)| - 1] == l + [c];
        assert prefix[|prefix| - |l|..] + [c] == s[|s| - |l| - 1..];
        if |l| < |prefix| {
          assert s[|s| - |l| - 2] == prefix[|prefix| - |l| - 1];
        }
      }
    }
  }

  /** The current page is the text after the last '/' of the path, or "index.html" when that text is empty
      (a path that ends in '/', or an empty path); `k` is the position of the last '/', or -1. */
  lemma CurrentPageIsTextAfterLastSlash(pathname: string, k: int)
    requires -1 <= k < |pathname|
    requires k >= 0 ==> pathname[k] == '/'
    requires forall j :: k < j < |pathname| ==> pathname[j] != '/'
    ensures CurrentPage(pathname) == if k + 1 == |pathname| then DefaultPage else pathname[k + 1..]
    ensures '/' !in CurrentPage(pathname)
  {
    SplitLastPiece(pathname, '/');
    var parts := Split(pathname, '/');
    var last := parts[|parts| - 1];
    assert |pathname| - |last| - 1 == k;
  }

  lemma CurrentPageExample()
    ensures CurrentPage("/shop/products.html") == "products.html"
  {
    CurrentPageIsTextAfterLastSlash("/shop/products.html", 5);
  }

  /** A `nav a` element: its href attribute (None when absent: getAttribute gives null) and its class. */
  datatype NavLink = NavLink(href: Option<string>, active: bool)

  /** The links after highlighting `page`: matching links gain `active`; the class is never removed. */
  function Highlighted(links: seq<NavLink>, page: string): (r: seq<NavLink>)
    ensures |r| == |links|
  {
    seq(|links|, i requires 0 <= i < |links| => links[i].(active := links[i].active || links[i].href == Some(page)))
  }

  /** `initNavigation()` for the location whose path is `pathname`. */
  method InitNavigation(links: array<NavLink>, pathname: string)
    modifies links
    ensures links[..] == Highlighted(old(links[..]), CurrentPage(pathname))
  {
    var currentPage := CurrentPage(pathname);
    for i := 0 to links.Length
      invariant forall k :: 0 <= k < i ==>
        links[k] == old(links[k]).(active := old(links[k]).active || old(links[k]).href == Some(currentPage))
      invariant forall k :: i <= k < links.Length ==> links[k] == old(links[k])
    {
      var linkPage := links[i].href;
      if linkPage == Some(currentPage) {
        links[i] := links[i].(active := true);
      }
    }
  }

  /** A link is active afterwards iff its href is the current page or it already was active; hrefs are
      untouched; highlighting again changes nothing; and on a page with no link marked beforehand the
      active links are exactly those pointing at the current page. */
  lemma HighlightOnlyAdds(links: seq<NavLink>, page: string)
    ensures forall i :: 0 <= i < |links| ==>
      (Highlighted(links, page)[i].active <==> links[i].active || links[i].href == Some(page)) &&
      Highlighted(links, page)[i].href == links[i].href
    ensures Highlighted(Highlighted(links, page), page) == Highlighted(links, page)
    ensures (forall i :: 0 <= i < |links| ==> !links[i].active) ==>
      forall i :: 0 <= i < |links| ==> (Highlighted(links, page)[i].active <==> links[i].href == Some(page))
  {
  }
}
