# Navigation items of the Signalist header

This project models the navigation list in the header of the Signalist
stock dashboard (`components/NavItems.tsx`). It covers two behaviours:

- **Which link is highlighted.** `isActive` decides this for the current
  pathname. The home link `/` is highlighted only when the pathname is
  exactly `/`. Every other link is highlighted whenever the pathname begins
  with its href. This is JavaScript's `startsWith`, a raw character test
  with no path-segment boundary.
- **How the configured items become list entries.** Each configured item
  produces exactly one entry, in the same order. The `/search` item becomes
  the search trigger. Every other item becomes a link that keeps its href
  and label. A link gets the highlight class exactly when `isActive(href)`
  holds.

The pathname comes from the router hook. The list of items comes from a
constants module that is not part of this model. Both are parameters here:
`pathname: string` and `items: seq<NavItem>`.

Files:

- `js_string.dfy`, module `JsString`: `StartsWith`, the character-by-character
  prefix test that `String.prototype.startsWith` performs. It is proved
  equivalent to an independent slice definition, `IsPrefixSlice`. The file
  also proves that the test is reflexive and transitive and that it survives
  appending characters.
- `nav_items.dfy`, module `NavItems`: `IsActive`, `RenderItem` and `Render`,
  with lemmas about highlighting and about the rendered list.

The item's `label` field is called `text` here, because `label` is a
reserved word in Dafny.

## Model

| member | source | states |
|---|---|---|
| `NavItems.IsActive` | components/NavItems.tsx:11-15 | For href `/`, active if and only if the pathname is exactly `/`. For any other href, active if and only if the href is no longer than the pathname and equals the pathname's slice of the same length. |
| `NavItems.RootInactiveOnStockPage` | components/NavItems.tsx:12 | The home link is not active on `/stocks/AAPL`. |
| `NavItems.RootNotMonotone` | components/NavItems.tsx:12 | The home link is active on `/` but not on the deeper `/stocks`. The root special case breaks monotonicity. |
| `NavItems.ActiveReflexive` | components/NavItems.tsx:11-15 | Every href, `/` included, is active when the pathname equals it. |
| `NavItems.ActiveMonotone` | components/NavItems.tsx:14 | A non-root href that is active on `p` stays active on `p + s` for every suffix `s`. |
| `NavItems.PrefixNotSegmentAware` | components/NavItems.tsx:14 | Matching is not segment-aware: `/watch` is active on `/watchlist`. |
| `NavItems.EmptyHrefAlwaysActive` | components/NavItems.tsx:14 | An empty href is active on every pathname, because the empty string begins every string. |
| `NavItems.ActiveOnRootPage` | components/NavItems.tsx:11-15 | On pathname `/`, an href is active if and only if it is `""` or `/`. |
| `NavItems.NestedLinksActive` | components/NavItems.tsx:14 | If non-root `outer` begins `inner` and `inner` is active, then `outer` is active too. Nested links are highlighted together. |
| `NavItems.RenderItem` | components/NavItems.tsx:20-39 | An item becomes the search trigger if and only if its href is `/search`. Otherwise it becomes a link with the item's own href and label, active if and only if `IsActive(href, pathname)`. |
| `NavItems.Render` | components/NavItems.tsx:19-42 | One entry per item: the result has the item list's length, and entry `i` is the rendering of item `i`. |
| `NavItems.RenderLinksInOrder` | components/NavItems.tsx:19-42 | The hrefs of the rendered links, in order, are exactly the hrefs of the non-search items, in their configured order. |
| `NavItems.ActiveLinkIff` | components/NavItems.tsx:34-36 | Entry `i` is a highlighted link if and only if item `i` is not `/search` and its href is active. |
| `NavItems.SearchTriggerIgnoresPath` | components/NavItems.tsx:20-28 | A `/search` item renders as the search trigger on every pathname. It carries no activity state. |
| `NavItems.NoLinkToSearch` | components/NavItems.tsx:20-39 | No rendered link has the href `/search`. |
| `NavItems.RenderConcat` | components/NavItems.tsx:19-42 | Rendering `a + b` gives the rendering of `a` followed by that of `b`. Each item is rendered independently of its neighbours. |
| `JsString.StartsWith` | components/NavItems.tsx:14 | JavaScript's begins-with test `pathname.startsWith(path)`, compared one character at a time. When it holds, the prefix is no longer than the string and agrees with it at every index of the prefix. The converse is `StartsWithIffPrefixSlice`. |
| `JsString.StartsWithIffPrefixSlice` | components/NavItems.tsx:14 | The character-by-character `startsWith` test agrees with the slice definition in both directions. |
| `JsString.StartsWithReflexive` | components/NavItems.tsx:14 | Every string begins with itself. |
| `JsString.StartsWithAppend` | components/NavItems.tsx:14 | A string that begins with `prefix` still begins with it after any suffix is appended. |
| `JsString.StartsWithTransitive` | components/NavItems.tsx:14 | If `s` begins with `mid` and `mid` begins with `prefix`, then `s` begins with `prefix`. |

## Left out

- Markup and styling: the `<ul>`/`<li>` elements, the Tailwind class strings and the responsive layout. An entry keeps only the fact that drives the highlight class (`active`).
- React keys (`search-trigger`, and the href for links). The model does not check that hrefs are unique, which React would need for distinct keys.
- The search trigger's props: the `"Search"` label, the `renderAs="text"` mode and the `initialStocks` passed through from the header. `SearchTrigger` has no fields. The stock list is only forwarded, never inspected.
- `usePathname`, `Link` and `SearchCommand` are framework or foreign components. The pathname is a plain string parameter, and the rendered pieces are `Entry` constructors.
- The contents of `NAV_ITEMS` live in `lib/constants`, which is not part of this model. The item list is an arbitrary sequence parameter.
- Strings are sequences of Unicode scalar values, while JavaScript compares UTF-16 code units. A lone surrogate cannot be written in a Dafny string, so the model covers only well-formed strings. On well-formed strings, a prefix test on code units and one on scalar values give the same answer.
- `components/Header.tsx` is an async server component. It awaits the external `searchStocks()` call and arranges the logo, the navigation and the user dropdown. It is I/O plus layout, with no logic of its own.
- `app/(root)/layout.tsx` makes the session redirect decision by calling an external auth service. This is outside the navigation list.
- `app/(root)/stocks/[symbol]/page.tsx` declares the symbol page's widget configuration. The widget script loading and teardown code (`TradingViewWidget`, `lib/constants`) is not part of this model, so the widget lifecycle is not modelled.
