# Chicago landmarks map: filter and marker bookkeeping

This project models the page logic of a small map of Chicago landmarks (`app.js`):

- a fixed catalog of five places;
- a Knockout view model that lists them and filters the list by name;
- one Google Maps marker per place;
- one Wikipedia-summary info window per marker.

The model covers three pieces and proves their properties in Dafny:

- **The name filter.** An empty filter yields the whole list. Otherwise the filter keeps, in
  list order, the locations whose upper-cased name contains the upper-cased filter text.
- **Marker reconciliation.** Each filter change first hides every marker and closes its
  window. It then shows the markers titled with a filtered location's name and reopens
  their windows. An empty filter shows every marker and reopens every held window.
- **The info-window lifecycle.** `makeInfoWindow` on a marker without a window attaches a
  new one and issues exactly one summary request. On a marker that holds a window, it only
  reopens that window. The window's close click makes the marker forget the window.

Layout, one module per file:

- `wrappers.dfy`: `Option`.
- `catalog.dfy`: the `loc` catalog and `indexOf`.
- `text.dfy`: ASCII upper-casing and substring search.
- `filter.dfy`: the filter as pure functions, with its lemmas.
- `scenarios.dfy`: the filter applied to the real catalog.
- `popup.dfy`: the request URL, the fetch outcome and the popup content.
- `app.dfy`: the `Marker` and `ViewModel` classes.

Knockout observables are plain fields. The `filteredObjects` computed is the method
`ViewModel.Recompute`; `SetSearchFilter` runs it when the filter text changes. The page
globals `loc` and `markers` are fields of the single `ViewModel`. So is `requests`, a log
of the summary URLs requested so far. The network answer is a parameter
`fetch: string -> FetchOutcome`, applied as soon as the request is issued.

A marker's info window is a value field, `infoWindow: Option<InfoWindow>` (`None` is the
source's `null`). In `app.js` the window object is shared by the marker, its close
handler, and the `$.getJSON` success and failure callbacks (app.js:185-197). The model
applies the answer in the same step as the request, so no callback runs after another
event has touched the window. Under that ordering, a value field behaves like the shared
object.

Behaviour of the code worth noting:

- Filtering by "house" gives Hull House and Civic Opera House. "Chicago Union Station"
  does not contain "house", so it is filtered out (`Scenarios.HouseScenario`).
- Several windows can be open at once, because each marker owns its own window
  (`App.TwoWindowsOpen`). Nothing enforces "at most one open popup".
- Hiding a marker by filtering closes its window but keeps the reference. Only the close
  click clears it (`App.ViewModel.Recompute`, `App.Marker.CloseClick`).
- Some answers are valid JSON without `content_urls.desktop`. On those, the success
  callback throws before it fills or opens the window. The window stays attached, empty and
  closed (`Popup.FetchOutcome.NoPageUrl`); it is not a failure popup.

## Model

| member | source | states |
|---|---|---|
| `Catalog.CatalogWellFormed` | app.js:10-35 | the catalog has five entries with distinct names, so its entries are distinct |
| `Catalog.IndexOf` | app.js:57 | the result is -1 exactly when the location is absent, else the first position holding it |
| `Catalog.IndexOfDistinct` | app.js:57 | in a list without duplicates, `indexOf` finds each entry at its own position |
| `Text.UpperChar` | app.js:86 | upper-casing leaves no lower-case letter, keeps every other character, and shifts a-z by 32 |
| `Text.Upper` | app.js:86 | `toUpperCase` keeps the length, turns each lower-case letter into its capital (32 code points down), and keeps every other character in place |
| `Text.Includes` | app.js:86 | `includes` never finds a needle longer than the text, and between equal lengths it answers true exactly for equal strings |
| `Text.UpperIdempotent` | app.js:86 | upper-casing an upper-cased string changes nothing |
| `Text.IncludesIff` | app.js:86 | the `includes` scan answers true exactly when the needle occurs at some position |
| `Text.IncludesEmpty` | app.js:86 | the empty text is included in every string |
| `Filter.MatchesIffStretch` | app.js:86 | the filter test `Matches` (upper-cased name includes upper-cased filter) holds exactly when some stretch of the name equals the filter up to case |
| `Filter.FilteredObjects` | app.js:72-87 | the computed's value: the list itself for an empty filter; otherwise a location is in it iff it is in the list and its name matches the filter |
| `Filter.Select` | app.js:85-87 | the filtered list is no longer than the list, and everything in it is in the list and matches |
| `Filter.SelectMembership` | app.js:85-87 | a location is in the filtered list if and only if it is in the list and its upper-cased name contains the upper-cased filter |
| `Filter.SelectIsSubsequence` | app.js:85-87 | the filtered list keeps the list order (it is a subsequence) |
| `Filter.SelectDistinct` | app.js:85-87 | filtering a list without duplicates gives a list without duplicates |
| `Filter.SelectConcat` | app.js:85-87 | filtering a concatenation is the concatenation of the filtered parts |
| `Filter.SelectIdempotent` | app.js:85-87 | filtering the filtered list again with the same text changes nothing |
| `Filter.EmptyFilterSelectsAll` | app.js:72-81 | the empty filter yields the list unchanged, and the general selection agrees with that shortcut |
| `Filter.MatchesIgnoresCase` | app.js:86 | matching a name and a filter is the same as matching their upper-cased forms |
| `Filter.NameSelectedIffMatches` | app.js:97-106 | some filtered location carries the name of list entry i if and only if that name matches the filter |
| `Scenarios.HouseScenario` | app.js:10-35 | filtering the catalog by "house" yields exactly Hull House and Civic Opera House, in that order |
| `Scenarios.NoMatchScenario` | app.js:85-87 | filtering the catalog by "zzz" yields the empty list |
| `Popup.SummaryUrl` | app.js:183 | the request URL is the summary prefix followed by exactly the page title |
| `Popup.SuccessContent` | app.js:189 | the success popup opens with the place name in bold and closes the page link at its end |
| `Popup.FailureContent` | app.js:194 | the failure popup is the place name followed by the fixed failure message |
| `Popup.WindowAfter` | app.js:185-197 | the window after the answer, by `FetchOutcome`: open iff a callback completed (`Page` or `Failed`); an opened window names its place; a window left closed by a throwing success callback is still empty |
| `Popup.SummaryUrlInjective` | app.js:183 | distinct page titles give distinct request URLs |
| `Popup.SummaryUrlShape` | app.js:183 | the request URL starts with the summary prefix and contains the page title |
| `Popup.SuccessContentMentions` | app.js:189 | the success popup contains the marker title and the page URL |
| `Popup.FailureContentMentions` | app.js:194 | the failure popup contains the marker title |
| `Popup.OpenedWindowNamesPlace` | app.js:185-197 | whatever the outcome, an opened window names its place, and a successful one links the page |
| `Popup.SuccessContentInjective` | app.js:189 | the success content determines the page URL it links |
| `Popup.SuccessIsNotFailure` | app.js:189-194 | no success content equals any failure content |
| `Popup.OpenedWindowDeterminesOutcome` | app.js:185-197 | the content of an opened window determines the fetch outcome behind it |
| `App.Marker.constructor` | app.js:142-149 | a new marker has the given title, id and position, is visible, and holds no window |
| `App.Marker.SetVisible` | app.js:75 | sets visibility and leaves the window alone |
| `App.Marker.CloseWindow` | app.js:91-93 | closes the held window, keeps it attached with its content, and leaves visibility alone |
| `App.Marker.Reshow` | app.js:206-210 | closes and reopens the held window: same content, now open |
| `App.Marker.CloseClick` | app.js:200-203 | after the close click the marker holds no window; visibility is unchanged |
| `App.ViewModel.constructor` | app.js:42-52 | the list is the catalog, the first entry is selected, the filter is empty, the computed yields the whole list, and there are no markers yet |
| `App.ViewModel.Recompute` | app.js:69-109 | the filtered list is the list for an empty filter and the selection otherwise; a marker is visible iff the filter is empty or a filtered location carries its title; every window reference and its content survive; a window is open iff its marker is visible |
| `App.ViewModel.ShowAll` | app.js:73-80 | every marker becomes visible and every held window is reopened with its content |
| `App.ViewModel.HideAll` | app.js:89-94 | every marker becomes hidden and every held window is closed but kept |
| `App.ViewModel.ShowTitled` | app.js:98-105 | the markers titled with the given name become visible and their windows open; the others keep their state |
| `App.ViewModel.ShowNamed` | app.js:97-106 | after the second pass a marker is visible iff some filtered location carries its title, and a held window is open iff its marker is visible |
| `App.ViewModel.VisibleIffTitleMatches` | app.js:89-106 | when marker i belongs to location i, after a non-empty filter a marker is visible iff its title matches the filter |
| `App.ViewModel.SetSearchFilter` | app.js:66-70 | the filter text is stored; the markers are reconciled only when the text changes, and are otherwise untouched |
| `App.ViewModel.MakeInfoWindow` | app.js:173-210 | with no window: one new request for the summary prefix plus `loc[id].pageTitle`, and the window the outcome produces; with a window: no request, same content, reopened |
| `App.ViewModel.SetLocation` | app.js:55-63 | the location becomes selected; it completes iff its index has a marker, showing that marker's window and touching no other; with correlated markers it completes iff the location is listed, and a first request fetches that location's page title |
| `App.ViewModel.GenMap` | app.js:133-156 | one fresh marker per location, in order: marker i has id i, the location's name and position, is visible, holds no window; from no markers this gives the index correlation |
| `App.CloseThenReopen` | app.js:200-203 | after the close click, the next request for the marker issues a fresh summary request and builds a new window |
| `App.FilterThenClear` | app.js:72-106 | a non-empty filter followed by the empty one leaves every marker visible, and every window it held still held, with its content, and open |
| `App.TwoWindowsOpen` | app.js:177-197 | two markers can hold open windows at the same time |

## Left out

- Google Maps rendering is not modelled: map construction, `setMap`, the marker icon,
  drop animation and `setAnimation(4)`, and the `LatLngBounds`/`fitBounds` framing. These
  are calls into a foreign library.
- Coordinates are carried as opaque `real` pairs. Nothing computes with them.
- `$.getJSON` is not modelled as I/O. Its answer is the `fetch` parameter, applied in the
  same step as the request. The order in which concurrent fetches complete is not modelled.
- Reading `data.content_urls.desktop.page` is reduced to the three outcomes of
  `FetchOutcome`. A JSON answer whose `page` field alone is missing is the `Page` outcome
  with the URL text "undefined".
- Knockout dependency tracking and `ko.applyBindings` are replaced by explicit fields and
  the `SetSearchFilter`/`Recompute` methods.
- The second view-model instance created inside `genMap` is not modelled. It reads the same
  global `markers` and its filter never changes, so there is a single `ViewModel`.
- `mapFailed`'s DOM write, `console.log`, and the no-op `marker.Animation` statements are
  not modelled.
- `toUpperCase` is ASCII upper-casing only. The catalog names are ASCII, but the filter
  text is typed by the user: JavaScript upper-cases "ſ" to "S" and "ı" to "I", so on the page
  "ſhedd" matches Shedd Aquarium, while in the model it matches nothing.
- `Catalog.IndexOf` compares locations by value, while `indexOf` at app.js:57 compares
  object identity. At the only caller the list binding passes the list's own objects, and
  the catalog entries are distinct, so both give the same index.
- A `$.getJSON` answer that arrives late is not modelled. On the page, an answer that
  comes after a filter hid the marker opens the window on a hidden marker (app.js:191 and 196 do
  not check visibility), which breaks the "window open iff marker visible" invariant
  (`OpenIffVisible`). An answer that comes after the close click finds the window variable
  set to `null` (app.js:202), so the callback throws.
- The `position` argument that `setLocation` computes and passes to `makeInfoWindow` is not
  modelled, because `makeInfoWindow` ignores it.
- `App.ViewModel.MakeInfoWindow` requires the marker to be one of the page's markers, whose
  id indexes `loc`. The source has no other caller.
- `App.Marker.CloseClick` requires an open window, because the close button exists only on
  an open window.
