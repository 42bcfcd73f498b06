/** The header navigation list: which link is highlighted for the current
    pathname, and how the configured navigation items become list entries.
    The pathname (read from the router) and the configured item list are
    parameters. */
module NavItems {
  import opened JsString

  /** The href of the home link, which is matched exactly. */
  const Root: string := "/"

  /** The href that is rendered as the search trigger instead of a link. */
  const SearchHref: string := "/search"

  /** One configured navigation item. */
  datatype NavItem = NavItem(href: string, text: string)

  /** One rendered list entry: the search trigger, or a link carrying its
      href, its label and whether it gets the highlight class. */
  datatype Entry = SearchTrigger | NavLink(href: string, text: string, active: bool)

  /** Whether the link to `href` is highlighted on `pathname`: the home link
      only on the home page itself, every other link whenever the pathname
      begins with its href. */
  function IsActive(href: string, pathname: string): (r: bool)
    ensures href == Root ==> (r <==> pathname == Root)
    ensures href != Root ==> (r <==> IsPrefixSlice(pathname, href))
  {
    if href == Root then pathname == Root
    else
      StartsWithIffPrefixSlice(pathname, href);
      StartsWith(pathname, href)
  }

  /** A stock detail page never highlights the home link. */
  lemma RootInactiveOnStockPage()
    ensures !IsActive(Root, "/stocks/AAPL")
  {
  }

  /** Every link is highlighted on the page it points to. */
  lemma ActiveReflexive(href: string)
    ensures IsActive(href, href)
  {
    if href != Root {
      StartsWithReflexive(href);
      StartsWithIffPrefixSlice(href, href);
    }
  }

  /** A highlighted non-home link stays highlighted on every deeper pathname. */
  lemma ActiveMonotone(href: string, pathname: string, suffix: string)
    requires href != Root && IsActive(href, pathname)
    ensures IsActive(href, pathname + suffix)
  {
    StartsWithIffPrefixSlice(pathname, href);
    StartsWithAppend(pathname, suffix, href);
    StartsWithIffPrefixSlice(pathname + suffix, href);
  }

  /** The home link is the exception to monotonicity: highlighted on "/",
      not on "/stocks". */
  lemma RootNotMonotone()
    ensures IsActive(Root, Root) && !IsActive(Root, Root + "stocks")
  {
  }

  /** Matching is on raw characters, not on path segments: "/watch" is
      highlighted on "/watchlist". */
  lemma PrefixNotSegmentAware()
    ensures IsActive("/watch", "/watchlist")
  {
  }

  /** An empty href begins every string, so its link is always highlighted. */
  lemma EmptyHrefAlwaysActive(pathname: string)
    ensures IsActive("", pathname)
  {
  }

  /** On the home page exactly the links to "" and "/" are highlighted. */
  lemma ActiveOnRootPage(href: string)
    ensures IsActive(href, Root) <==> href == "" || href == Root
  {
  }

  /** When one href begins another, the shorter non-home link is highlighted
      whenever the longer one is, so nested links light up together. */
  lemma {:induction false} NestedLinksActive(outer: string, inner: string, pathname: string)
    requires outer != Root && StartsWith(inner, outer) && IsActive(inner, pathname)
    ensures IsActive(outer, pathname)
  {
    if inner == Root {
      assert pathname == inner;
    } else {
      StartsWithIffPrefixSlice(pathname, inner);
    }
    StartsWithTransitive(pathname, inner, outer);
    StartsWithIffPrefixSlice(pathname, outer);
  }

  /** The entry for one item: the search trigger for "/search", otherwise a
      link with the item's own href and label, highlighted exactly when the
      link is active. */
  function RenderItem(item: NavItem, pathname: string): (e: Entry)
    ensures e.SearchTrigger? <==> item.href == SearchHref
    ensures e.NavLink? ==> e.href == item.href && e.text == item.text
    ensures e.NavLink? ==> (e.active <==> IsActive(item.href, pathname))
  {
    if item.href == SearchHref then SearchTrigger
    else NavLink(item.href, item.text, IsActive(item.href, pathname))
  }

  /** The whole list: one entry per configured item, in the same order. */
  function Render(items: seq<NavItem>, pathname: string): (r: seq<Entry>)
    ensures |r| == |items|
    ensures forall i :: 0 <= i < |items| ==> r[i] == RenderItem(items[i], pathname)
    decreases items
  {
    if items == [] then []
    else [RenderItem(items[0], pathname)] + Render(items[1..], pathname)
  }

  /** The hrefs of the links in a rendered list, in order. */
  function LinkHrefs(entries: seq<Entry>): seq<string>
    decreases entries
  {
    if entries == [] then []
    else if entries[0].NavLink? then [entries[0].href] + LinkHrefs(entries[1..])
    else LinkHrefs(entries[1..])
  }

  /** The hrefs of the configured items other than the search item, in order. */
  function NonSearchHrefs(items: seq<NavItem>): seq<string>
    decreases items
  {
    if items == [] then []
    else if items[0].href != SearchHref then [items[0].href] + NonSearchHrefs(items[1..])
    else NonSearchHrefs(items[1..])
  }

  /** The links of the rendered list are exactly the non-search items, in
      their configured order. */
  lemma {:induction false} RenderLinksInOrder(items: seq<NavItem>, pathname: string)
    ensures LinkHrefs(Render(items, pathname)) == NonSearchHrefs(items)
    decreases items
  {
    if items != [] {
      var r := Render(items, pathname);
      assert r[1..] == Render(items[1..], pathname);
      RenderLinksInOrder(items[1..], pathname);
    }
  }

  /** An entry is a highlighted link exactly when its item is not the search
      item and its href is active on the pathname. */
  lemma ActiveLinkIff(items: seq<NavItem>, pathname: string, i: nat)
    requires i < |items|
    ensures (Render(items, pathname)[i].NavLink? && Render(items, pathname)[i].active)
        <==> (items[i].href != SearchHref && IsActive(items[i].href, pathname))
  {
  }

  /** The search trigger carries no activity state: its entry is the same on
      every pathname. */
  lemma SearchTriggerIgnoresPath(items: seq<NavItem>, p1: string, p2: string, i: nat)
    requires i < |items| && items[i].href == SearchHref
    ensures Render(items, p1)[i] == SearchTrigger && Render(items, p2)[i] == SearchTrigger
  {
  }

  /** No rendered link ever points at "/search". */
  lemma NoLinkToSearch(items: seq<NavItem>, pathname: string)
    ensures forall e :: e in Render(items, pathname) && e.NavLink? ==> e.href != SearchHref
  {
  }

  /** Each item is rendered independently of its neighbours: rendering a
      concatenation renders the two parts one after the other. */
  lemma RenderConcat(a: seq<NavItem>, b: seq<NavItem>, pathname: string)
    ensures Render(a + b, pathname) == Render(a, pathname) + Render(b, pathname)
  {
  }
}
