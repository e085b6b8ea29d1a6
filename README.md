# Series menu and works gallery, modelled in Dafny

The site has two scripts with real logic. This project models both.

- `assets/js/series-menu.js` builds the series menu from the catalog of works.
  Each work gets one label: its trimmed `series` name, or `Unsorted`. The
  labels are deduplicated in order of first appearance. They are sorted with
  `Unsorted` forced last. Each label becomes a link
  `works.html#<encodeURIComponent(slugify(label))>`.
- `assets/js/works.js` drives the works page. The page has a hero image,
  three caption texts, one thumbnail button per work with an `active` class,
  and the URL fragment. `setWork` writes all of them. The page opens on the
  work named by the fragment. It follows later fragment changes. Clicking a
  thumbnail selects its work.

Modules, one concern each:

- `Options` (options.dfy): the `Option` type.
- `JsText` (js_text.dfy): `trim`, the `\s` class, `toLowerCase`, and
  `replace` with a string pattern.
- `Uri`, `UriRoundTrip` (uri.dfy): `encodeURIComponent` and
  `decodeURIComponent` over full UTF-8, and their round trip.
- `Slug` (slug.dfy): `slugify`, stage by stage.
- `Catalog` (catalog.dfy): the `Work` record.
- `SeriesMenu` (series_menu.dfy): labels, deduplication, the in-place sort
  and the links.
- `Gallery` (gallery.dfy): fragment resolution, and the page as a class
  `Page`. The strip is an array of `Thumb` records. The other fields are
  strings and the `hash`.
- `MenuTargets` (menu_targets.dfy): what a menu link does on the works page.

One fact follows from the two scripts together. A menu link puts a series
slug in the fragment. `works.js` reads the fragment as a work id. So the
link selects a work only if some work id equals the slug. Otherwise the page
opens on the first work of the catalog (`MenuTargets.MenuLinkOpens`). If the
page is already open, the fragment changes but the selection does not
(`MenuTargets.MenuLinkWhileOpen`).

`localeCompare(b, 'ko')` is a parameter `leq`. It may be any total preorder
on strings. The sort facts hold for every such order.

## Model

| member | source | states |
|---|---|---|
| JsText.Trim | assets/js/series-menu.js:11 | the result has no white space at either end; a string with no white space at its ends is returned as is |
| JsText.TrimIsInnerSlice | assets/js/series-menu.js:11 | the result is a slice `s[a..b]` of the input with only white space before `a` and after `b`: nothing inside is removed |
| JsText.ToLower | assets/js/series-menu.js:12 | same length; each character is lowered on its own, and no upper-case ASCII letter is left |
| JsText.LowerChar | assets/js/series-menu.js:12 | the result is never upper-case ASCII; any other character is unchanged |
| JsText.RemoveFirst | assets/js/works.js:41 | `replace('#', '')` leaves a string without `#` as it is, and otherwise drops exactly the first `#` and keeps every other character in order |
| Uri.Encode | assets/js/series-menu.js:47 | the output uses only unescaped characters and `%`; a string of unescaped characters is left as it is |
| Uri.Decode | assets/js/works.js:41 | a successful decode is never longer than its input |
| UriRoundTrip.DecodeEncode | assets/js/works.js:26 | decoding the encoding of any string gives the string back |
| UriRoundTrip.DecodePlain | assets/js/works.js:47 | a fragment without `%` decodes to itself |
| UriRoundTrip.BadEscapeFails | assets/js/works.js:41 | after any decodable text, a `%` without two hexadecimal digits after it makes decoding fail (the thrown URIError) |
| Slug.ExpandAmpersands | assets/js/series-menu.js:13 | no `&` is left |
| Slug.ExpandChar | assets/js/series-menu.js:13 | a single `&` becomes `and`; any other single character stays |
| Slug.ExpandAppend | assets/js/series-menu.js:13 | the rewrite distributes over concatenation, so with `ExpandChar` each `&` becomes `and` in place and every other character stays, in order |
| Slug.ExpandIdentity | assets/js/series-menu.js:13 | text without `&` is unchanged |
| Slug.ExpandKeepsLowerCase | assets/js/series-menu.js:13 | spelling out `&` brings in no upper case |
| Slug.CollapseRuns | assets/js/series-menu.js:14 | the first character becomes the replacement if it matches and stays otherwise; every character is the replacement or does not match; no two neighbours match; empty exactly when the input is |
| Slug.CollapseRunsKeepsOthers | assets/js/series-menu.js:14 | every character that neither matches nor is the replacement survives, in order |
| Slug.KeepOnly | assets/js/series-menu.js:15 | only characters of `[\w\-가-힣]` remain; lower case is kept |
| Slug.KeepOnlyChar | assets/js/series-menu.js:15 | a single character is kept exactly when it is in `[\w\-가-힣]`, and dropped otherwise |
| Slug.KeepOnlyAppend | assets/js/series-menu.js:15 | the filter distributes over concatenation, so with `KeepOnlyChar` every kept character of any input survives, in order |
| Slug.KeepOnlyIdentity | assets/js/series-menu.js:15 | a string of kept characters passes the filter unchanged |
| Slug.CollapseRunsFixed | assets/js/series-menu.js:16 | a string whose runs are already single replacement characters is unchanged |
| Slug.Slugify | assets/js/series-menu.js:9-17 | the slug uses only ASCII letters, digits, `_`, `-` and Hangul syllables, has no upper case and never contains `--` |
| Slug.SlugifyValue | assets/js/series-menu.js:10 | null, undefined and the empty string all give the empty slug |
| Slug.SlugIsFixed | assets/js/series-menu.js:9-17 | every string in the slug alphabet without `--` is its own slug |
| Slug.SlugifyIdempotent | assets/js/series-menu.js:9-17 | slugifying a slug changes nothing |
| Slug.AmpersandBecomesAnd | assets/js/series-menu.js:13-14 | `x & y` for word characters x, y becomes `x-and-y` in lower case, so `A & B` gives `a-and-b` |
| SeriesMenu.SeriesLabel | assets/js/series-menu.js:34 | the label is the trimmed series name, or `Unsorted`; it is never empty and has no white space at its ends |
| SeriesMenu.Labels | assets/js/series-menu.js:33-34 | one label per work, in catalog order |
| SeriesMenu.Dedupe | assets/js/series-menu.js:36 | no repeats, and exactly the names of the input |
| SeriesMenu.DedupeKeepsFirstOccurrenceOrder | assets/js/series-menu.js:36 | the names come in the order of their first appearance in the input |
| SeriesMenu.MenuOrder | assets/js/series-menu.js:39-43 | the comparator: `Unsorted` goes after every other label, and any other label before `Unsorted`; two other labels are ordered by the collation |
| SeriesMenu.MenuOrderTotal | assets/js/series-menu.js:39-43 | the comparator orders any two labels one way or the other |
| SeriesMenu.MenuOrderTransitive | assets/js/series-menu.js:39-43 | the comparator is transitive |
| SeriesMenu.SortLabels | assets/js/series-menu.js:39-43 | the array ends sorted by the comparator and is a permutation of what it held |
| SeriesMenu.InsertLast | assets/js/series-menu.js:39-43 | one insertion step: a sorted prefix grows by one element, the contents are a permutation of the old ones, and every element after the inserted one is left where it was |
| SeriesMenu.UnsortedLast | assets/js/series-menu.js:39-43 | in a sorted list without repeats, `Unsorted` is last if present and appears nowhere else |
| SeriesMenu.PermutedLabels | assets/js/series-menu.js:36-43 | any rearrangement of the unique labels has exactly the labels of the catalog, each once |
| SeriesMenu.MenuLink | assets/js/series-menu.js:46-47 | the link's text is the name; its href is `works.html#` followed by text that decodes to the slug of the name |
| SeriesMenu.BuildSeriesMenu | assets/js/series-menu.js:33-48 | one link per unique label, sorted, labels exactly those of the catalog without repeats, `Unsorted` last, href `works.html#` plus the encoded slug of its label |
| Gallery.FindById | assets/js/works.js:42 | the index of the first work with the id, or None exactly when no work has it |
| Gallery.InitialIndex | assets/js/works.js:41-42 | the first work whose id is the decoded fragment, else the first work; nothing when decoding fails or the catalog is empty |
| Gallery.HandlerTarget | assets/js/works.js:47-49 | the first work whose id is the decoded fragment; nothing when decoding fails or no id matches |
| Gallery.FragmentId | assets/js/works.js:41 | a fragment without `#` is percent-decoded as it stands |
| Gallery.FragmentDropsFirstHash | assets/js/works.js:41 | a fragment `#` + s reads as the percent-decoding of s: only the first `#` is removed and later ones stay in the id |
| Gallery.FragmentWithoutHash | assets/js/works.js:47 | a fragment with neither `#` nor `%` is read as the id itself |
| Gallery.CanonicalFragment | assets/js/works.js:26 | the fragment `setWork` writes decodes back to the id |
| Gallery.CanonicalHashReselects | assets/js/works.js:41-42 | re-reading the fragment written for a work selects the first work with its id, at or before it, and the work itself when ids are unique |
| Gallery.TruncatedEscapeSelectsNothing | assets/js/works.js:41 | a decodable fragment followed by a stray `%` selects nothing, at start-up or later |
| Gallery.ThumbOf | assets/js/works.js:31-35 | a button carries the work's id as `data-id`, its thumbnail, and the alt text `title thumbnail` |
| Gallery.Page.constructor | assets/js/works.js:30-38 | one inactive button per work, in catalog order, with the work's id, thumbnail and alt text |
| Gallery.Page.SetWork | assets/js/works.js:14-27 | hero src and alt, `title, year` (with `undefined` for a missing year), medium and size are the work's; a button is active iff its id is the work's; the fragment is `#` plus the encoded id |
| Gallery.Page.Click | assets/js/works.js:36 | clicking button i shows work i |
| Gallery.Page.Init | assets/js/works.js:40-43 | the page shows the initial work and the listener is registered; where decoding fails or the catalog is empty, nothing changes |
| Gallery.Page.OnHashChange | assets/js/works.js:46-50 | a matching id shows that work; otherwise the fields, the active flags and the fragment are unchanged |
| Gallery.Page.Navigate | assets/js/works.js:46-50 | moving to the current fragment changes nothing; moving to a new one sets the fragment, then the listener (if registered) selects a matching work; otherwise only the fragment changed |
| Gallery.ExactlyOneActive | assets/js/works.js:21-23 | with unique ids, exactly the shown work's button is active |
| MenuTargets.LinkFragment | assets/js/series-menu.js:47 | the link's href is `works.html` plus this fragment, and the fragment decodes to the slug |
| MenuTargets.MenuLinkOpens | assets/js/works.js:41-42 | a menu link opens the first work whose id is the slug, or the first work when none is |
| MenuTargets.MenuLinkWhileOpen | assets/js/works.js:46-49 | on the open page a menu link selects something iff some work id equals the slug |
| MenuTargets.Reopen | assets/js/works.js:40-43 | a new page opened on the fragment of the shown work shows the same work, when ids are unique |

## Left out

- Fetching `data/works.json` and parsing it is network I/O. The catalog is an input sequence of `Work` records. The catch branch that clears the menu holder is left out for the same reason.
- The menu's `innerHTML` markup and the thumbnail's `<img>` markup are not built. HTML escaping is not modelled. A link is a pair of href and text. A thumbnail button is its id, image, alt text and `active` flag.
- `history.replaceState` is an assignment to the `hash` field. `location.hash` is that field.
- The early returns when a page element is missing are not modelled. `buildSeriesMenu` returns at once when there is no `#seriesMenu` holder; the menu is assumed to have one. The works page is assumed to have all five of its elements.
- The hero and caption texts before the first selection are modelled as empty strings. The page's own initial markup is not part of this model.
- SeriesMenu.SortLabels: `localeCompare(b, 'ko')` is the parameter `leq`, assumed to be a total preorder. Korean collation itself is not modelled, and the result is proved sorted only by `leq`. The sort is an insertion sort; the browser's own sort algorithm is not modelled. For labels without repeats any correct sort gives the same order up to `leq`-equal labels.
- JsText.ToLower, JsText.LowerChar: only ASCII letters are lowered. Non-ASCII letters are kept as they are. The slug filter removes them anyway, except the few that lower to ASCII (the Kelvin sign U+212A, and U+0130, which lowers to two characters).
- Strings are sequences of Unicode scalar values. JavaScript strings are UTF-16 and may hold lone surrogates; `encodeURIComponent` throws on those. That case is not modelled.
- Every display field of a work (`id`, `title`, `medium`, `size`, `image`, `thumb`) is assumed present as a string. `year` and `series` may be missing. A `null` or non-string value in any field is not modelled; nor is `String(...)` on such values, nor what `hero.src` does with a missing image.
- Slug.CollapseRuns: the contract says no two neighbours match, what the result starts with, and (in `Slug.CollapseRunsKeepsOthers`) that all other characters survive in order. It does not count the replacement characters, so that each run yields exactly one is not stated on its own.
- `Navigate` compares fragments as plain strings; how a browser normalises a typed fragment before comparing is not modelled.
- The browser's own percent-encoding of characters typed into the address bar is not modelled. The fragment reaches the page as given.
- The order and timing of listeners are not modelled. This covers `menu:loaded` versus `DOMContentLoaded` and the menu being built twice. `Navigate` fires `hashchange` synchronously.
- Gallery.Page.Init: on an empty catalog `setWork(undefined)` throws before it writes anything. The model says nothing changes and no listener is registered. The same holds when decoding the initial fragment throws.
- assets/js/menu-loader.js and assets/js/main.js are not part of this model. They only inject markup and toggle CSS classes.
