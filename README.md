# Vendor list view rules of the admin panel, in Dafny

This project models the logic of the food-vendor admin panel that can be stated
exactly, and proves properties of it:

- **Time-of-day formatting** (`formatTime`, lib/utils.ts): a vendor's 24-hour
  opening or closing time "HH:MM" is shown as a 12-hour time and an "AM"/"PM"
  suffix; a missing time shows "N/A".
- **Query-state transforms of the vendor list**: the toolbar's search box and
  status filter (components/vendor-management/vendor-toolbar.tsx) and the
  table's page links (`createPageURL`, components/vendor-management/vendor-table.tsx)
  copy the current URL query parameters, `set` or `delete` one of them and reset
  or replace `page`. The parameters are the ordered name-value list of a
  `URLSearchParams` object, with `get`, `getAll`, `set`, `delete` and `toString`
  as section 6.2 of the WHATWG URL Standard defines them, and `toString` as the
  application/x-www-form-urlencoded serializer of its section 5.2.
- **Vendor table view rules** (components/vendor-management/vendor-table.tsx):
  the case-insensitive status badge, the serial numbers across pages, the
  trim-or-"N/A" cells, the placeholder row of an empty list, when the pagination
  bar and its "Previous"/"Next" links appear, and the detail link.

Modules, one per source file plus two shared ones:

| file | module | models |
|---|---|---|
| wrappers.dfy | `Wrappers` | `Option`, for JavaScript's `null`/`undefined` |
| js_text.dfy | `JsText` | the JavaScript string built-ins used: `trim`, `split`, the digits `parseInt(_, 10)` reads, `toString`, `padStart`, `toLowerCase` |
| time_format.dfy | `TimeFormat` | lib/utils.ts `formatTime` |
| url_search_params.dfy | `UrlSearchParams` | the `URLSearchParams` list, its algorithms and its serialization; class `Params` is the object whose `Set` and `Delete` update its list in place |
| vendor_toolbar.dfy | `VendorToolbar` | the toolbar's initial values and its two handlers |
| vendor_table.dfy | `VendorTable` | `statusVariant`, the cells, serials, body, pagination bar, `createPageURL` and the detail link |

The toolbar handlers and `createPageURL` are methods that build a fresh `Params`
from the current list, update it in place and return the new list and URL, as the
source does; each is proved equal to a function (`AfterSearch`,
`AfterStatusChange`, `PageURL`) about which the properties are lemmas. The table
is a function `RenderTable` returning a `TableView` record: its body (one `Row` of
cell texts per vendor, or the placeholder) and its optional pagination bar with
link targets.

The status Select offers "all" and the four statuses
(components/vendor-management/vendor-toolbar.tsx:57-61), but the handler stores any
non-empty value other than "all" (lines 35-36) and the toolbar starts on any stored
value (line 20); the model follows the handler and the initial value, not the menu. Of the two vendor-table files in the repository the model follows
components/vendor-management/vendor-table.tsx.

## Model

| member | source | states |
|---|---|---|
| `TimeFormat.FormatTime` | lib/utils.ts:8-21 | a null, undefined or empty time gives exactly ("N/A", ""), and only those do; any other gives two digits with value 1..12, then ':', and the suffix "AM" or "PM" |
| `TimeFormat.ParseInt` | lib/utils.ts:13 | `parseInt(_, 10)` of the hour segment is NaN exactly when the segment is empty or does not start with a digit; otherwise the value of its leading digits |
| `TimeFormat.ClockHour` | lib/utils.ts:16 | `hours % 12 \|\| 12` is always in 1..12 |
| `TimeFormat.HourTextIsPaddedNumeral` | lib/utils.ts:16 | the two hour characters are what `toString().padStart(2, "0")` gives |
| `TimeFormat.HourText` | lib/utils.ts:16 | the padded clock hour; `HourTextIsPaddedNumeral` ties it to `toString().padStart(2, "0")`, `HourTextValue` to its value |
| `TimeFormat.HourTextValue` | lib/utils.ts:16 | the shown hour is two digits whose decimal value is the clock hour |
| `TimeFormat.MinutesText` | lib/utils.ts:14-18 | `parts[1]` as the template literal shows it; stated by `MinutesCopied` and `MissingMinutes` |
| `TimeFormat.Period` | lib/utils.ts:15 | the suffix; stated by `PeriodOfParsedHour` and `UnparsableHour` |
| `TimeFormat.ShownParts` | lib/utils.ts:12-19 | the shown hour is the clock hour of the parsed first ':'-segment, the text after "HH:" is the minutes text, the suffix is that of the parsed hour |
| `TimeFormat.PeriodOfParsedHour` | lib/utils.ts:13-15 | for a parsed hour h the suffix is "PM" iff h >= 12 and "AM" iff h < 12 |
| `TimeFormat.UnparsableHour` | lib/utils.ts:13-16 | an hour segment without a leading digit (NaN) shows "12" with "AM" |
| `TimeFormat.MidnightAndNoon` | lib/utils.ts:15-16 | hour 0 shows "12" "AM", hour 12 shows "12" "PM" |
| `TimeFormat.RoundTrip24` | lib/utils.ts:15-16 | for h in 0..23, shown hour mod 12 plus 12 when "PM" equals h |
| `TimeFormat.SplitHourMinutes` | lib/utils.ts:12 | splitting "H:M" followed by nothing or by ':'-segments gives H first and M second |
| `TimeFormat.MinutesCopied` | lib/utils.ts:12-18 | the minutes segment is copied verbatim after "HH:" and later segments such as seconds are dropped |
| `TimeFormat.MissingMinutes` | lib/utils.ts:14-18 | a time without ':' shows "undefined" in place of the minutes |
| `TimeFormat.ExampleAfternoon` | lib/utils.ts:8-21 | "14:30" and "14:30:00" both give ("02:30", "PM") |
| `TimeFormat.ExampleMidnightAndMissing` | lib/utils.ts:8-21 | "00:05" gives ("12:05", "AM"); null gives ("N/A", "") |
| `JsText.Trim` | components/vendor-management/vendor-table.tsx:88-92 | `trim()` gives an infix of the input with only white space around it that neither starts nor ends with white space; it is empty iff the input is all white space |
| `JsText.DigitPrefix` | lib/utils.ts:13 | the digits `parseInt` reads: the longest all-digit prefix |
| `JsText.DecimalValueOfNatToString` | components/vendor-management/vendor-table.tsx:49 | reading the decimal numeral of n back gives n |
| `JsText.IntToString` | components/vendor-management/vendor-table.tsx:49 | `toString()` of an integer is non-empty digits, with a leading '-' when negative |
| `JsText.PadStart` | lib/utils.ts:16 | `padStart` keeps the string as the suffix, fills the front with the fill character, and has the requested width when the string was shorter |
| `JsText.ToLowerIdempotent` | components/vendor-management/vendor-table.tsx:54 | lower-casing twice is lower-casing once |
| `JsText.Split` | lib/utils.ts:12 | `split(":")` gives at least one piece and no piece contains the separator; `JoinSplit` and `SplitJoin` make it the inverse of `join` |
| `JsText.NatToString` | components/vendor-management/vendor-table.tsx:49 | `toString()` of a non-negative integer: non-empty digits, one digit iff below 10, two iff 10..99, no leading zero; `DecimalValueOfNatToString` reads it back |
| `JsText.ToLower` | components/vendor-management/vendor-table.tsx:54 | `toLowerCase()` keeps the length; `ToLowerIdempotent` and `LowerOfLowerCase` state the rest |
| `JsText.JoinSplit` | lib/utils.ts:12 | joining the pieces of `split(":")` with ':' gives the string back |
| `JsText.SplitJoin` | lib/utils.ts:12 | splitting a ':'-join of ':'-free pieces gives the pieces back |
| `UrlSearchParams.Values` | components/vendor-management/vendor-toolbar.tsx:19-20 | `getAll(name)`: at most one value per pair; its behaviour under `set` and `delete` is stated by `UpdatedValues` and `RemovedValues`, its emptiness by `ValuesEmpty` |
| `UrlSearchParams.ValuesEmpty` | components/vendor-management/vendor-toolbar.tsx:19-20 | a name has no values exactly when no pair carries it |
| `UrlSearchParams.ValuesAppend` | components/vendor-management/vendor-toolbar.tsx:19-20 | the values of a concatenation are those of the parts, in order |
| `UrlSearchParams.Removed` | components/vendor-management/vendor-toolbar.tsx:27 | `delete(name)`: the result is shorter by exactly the number of pairs with that name; what remains is stated by `RemovedValues`, `RemovedAbsent`, `RemovedTwice`, `RemovedCommutes` |
| `UrlSearchParams.Get` | components/vendor-management/vendor-toolbar.tsx:19-20 | `get(name)` is the first of `getAll(name)`, or null when there is none |
| `UrlSearchParams.FirstIndex` | components/vendor-management/vendor-toolbar.tsx:25 | the index where `set` replaces: a pair with the name and none before it |
| `UrlSearchParams.RemovedValues` | components/vendor-management/vendor-toolbar.tsx:27 | after `delete(name)` the name has no value left and every other name keeps all its values in order |
| `UrlSearchParams.RemovedAbsent` | components/vendor-management/vendor-toolbar.tsx:27 | `delete` of a name that is not there changes nothing |
| `UrlSearchParams.RemovedTwice` | components/vendor-management/vendor-toolbar.tsx:27 | deleting twice is deleting once |
| `UrlSearchParams.RemovedCommutes` | components/vendor-management/vendor-toolbar.tsx:27 | deleting two names gives the same list in either order |
| `UrlSearchParams.Updated` | components/vendor-management/vendor-toolbar.tsx:25 | `set(name, value)`: appends the pair when the name is absent; what it does otherwise is stated by `UpdatedValues`, `UpdatedRemoved` and `UpdatedInPlace` |
| `UrlSearchParams.UpdatedValues` | components/vendor-management/vendor-toolbar.tsx:25 | after `set(name, value)`, `getAll(name)` is exactly [value] (the name occurs once) and every other name keeps all its values, in order |
| `UrlSearchParams.UpdatedRemoved` | components/vendor-management/vendor-toolbar.tsx:25 | apart from pairs of the set name, the list after `set` is the list before, order included |
| `UrlSearchParams.UpdatedSame` | components/vendor-management/vendor-toolbar.tsx:25 | `set` of the one value a name already has changes nothing |
| `UrlSearchParams.UpdatedIdempotent` | components/vendor-management/vendor-toolbar.tsx:25 | setting the same pair twice is setting it once |
| `UrlSearchParams.UpdatedInPlace` | components/vendor-management/vendor-toolbar.tsx:25 | when the name occurs, `set` overwrites its first pair in place: the pairs before it are unchanged and the new pair stands at the first match's index |
| `UrlSearchParams.ReplaceFirstConcat` | components/vendor-management/vendor-toolbar.tsx:25 | helper of `Params.Set`: pairs after the first match are kept, except those of the set name, which are dropped |
| `UrlSearchParams.ReplaceFirstAppend` | components/vendor-management/vendor-toolbar.tsx:25 | loop-step helper of `Params.Set`: one more scanned pair after the first match is dropped if it has the name and kept otherwise |
| `UrlSearchParams.ReplaceFirstAtEnd` | components/vendor-management/vendor-toolbar.tsx:25 | loop-step helper of `Params.Set`: when the first match is the pair just scanned, it is replaced at the end of the scanned part (the general case is `UpdatedInPlace`) |
| `UrlSearchParams.Params.constructor` | components/vendor-management/vendor-toolbar.tsx:23 | `new URLSearchParams(searchParams)` copies the current list |
| `UrlSearchParams.Params.Set` | components/vendor-management/vendor-toolbar.tsx:25 | the object's list becomes `Updated` of its old list |
| `UrlSearchParams.Params.Delete` | components/vendor-management/vendor-toolbar.tsx:27 | the object's list becomes `Removed` of its old list |
| `UrlSearchParams.FormEncode` | components/vendor-management/vendor-toolbar.tsx:30 | an encoded name or value never contains '&' or '=' |
| `UrlSearchParams.FormEncodeUnreserved` | components/vendor-management/vendor-toolbar.tsx:30 | names and values of ASCII alphanumerics, '*', '-', '.', '_' are written unchanged |
| `UrlSearchParams.Serialize` | components/vendor-management/vendor-toolbar.tsx:30 | `toString()`: the encoded pairs joined by '&'; its properties are `SerializeEmpty` and `SerializeSplits` |
| `UrlSearchParams.SerializeEmpty` | components/vendor-management/vendor-table.tsx:102-104 | `toString()` is empty iff the list is |
| `UrlSearchParams.SerializeSplits` | components/vendor-management/vendor-toolbar.tsx:30 | the query string splits at '&' into one piece per pair, in order, and each piece at '=' into the encoded name and value |
| `VendorToolbar.InitialSearch` | components/vendor-management/vendor-toolbar.tsx:19 | the initial search is the stored "search" value, or "" when there is none or it is empty |
| `VendorToolbar.InitialStatus` | components/vendor-management/vendor-toolbar.tsx:20 | the initial status is never empty; it is "all" iff "status" is absent, empty or "all", and otherwise the stored value |
| `VendorToolbar.InitialDefaults` | components/vendor-management/vendor-toolbar.tsx:19-20 | without parameters the search is "" and the status "all" |
| `VendorToolbar.AfterSearch` | components/vendor-management/vendor-toolbar.tsx:23-29 | the list a search produces; its properties are `SearchStoresTermAndResetsPage`, `SearchKeepsOthers`, `SearchKeepsOrder`, `SearchIdempotent`, `SearchRoundTrip` |
| `VendorToolbar.AfterStatusChange` | components/vendor-management/vendor-toolbar.tsx:34-40 | the list a status change produces; its properties are `StatusStoresChoiceAndResetsPage`, `StatusKeepsOthers`, `StatusKeepsOrder`, `StatusIdempotent`, `StatusRoundTrip` |
| `VendorToolbar.HandleSearch` | components/vendor-management/vendor-toolbar.tsx:22-31 | the new list is `AfterSearch` of the current one: "page" is exactly ["1"], "search" is [term] for a non-empty term and absent otherwise; the URL is pathname, '?', the query string |
| `VendorToolbar.HandleStatusChange` | components/vendor-management/vendor-toolbar.tsx:33-42 | the new list is `AfterStatusChange` of the current one: "page" is exactly ["1"], "status" is [status] unless the choice is "" or "all", when it is absent; the URL is pathname, '?', the query string |
| `VendorToolbar.SearchStoresTermAndResetsPage` | components/vendor-management/vendor-toolbar.tsx:24-29 | after a search "page" is exactly "1"; a non-empty term is the only "search" value, an empty one leaves no "search" |
| `VendorToolbar.StatusStoresChoiceAndResetsPage` | components/vendor-management/vendor-toolbar.tsx:35-40 | after a status change "page" is exactly "1"; "" and "all" leave no "status", any other choice is the only "status" value |
| `VendorToolbar.SearchKeepsOthers` | components/vendor-management/vendor-toolbar.tsx:23-29 | a search leaves the values of every name other than "search" and "page" unchanged |
| `VendorToolbar.StatusKeepsOthers` | components/vendor-management/vendor-toolbar.tsx:34-40 | a status change leaves the values of every name other than "status" and "page" unchanged |
| `VendorToolbar.SearchKeepsOrder` | components/vendor-management/vendor-toolbar.tsx:23-29 | without "search" and "page", the list after a search is the list before it, order included |
| `VendorToolbar.StatusKeepsOrder` | components/vendor-management/vendor-toolbar.tsx:34-40 | without "status" and "page", the list after a status change is the list before it, order included |
| `VendorToolbar.SearchIdempotent` | components/vendor-management/vendor-toolbar.tsx:22-31 | searching twice for a term gives the list of searching once |
| `VendorToolbar.StatusIdempotent` | components/vendor-management/vendor-toolbar.tsx:33-42 | choosing a status twice gives the list of choosing it once |
| `VendorToolbar.SearchRoundTrip` | components/vendor-management/vendor-toolbar.tsx:19-31 | the search box read back from the list after a search shows the term searched for |
| `VendorToolbar.StatusRoundTrip` | components/vendor-management/vendor-toolbar.tsx:20-42 | the filter read back from the list after a status change shows that status ("all" for "") |
| `VendorTable.StatusVariant` | components/vendor-management/vendor-table.tsx:53-66 | total: each of success, secondary, destructive, blocked is chosen iff the lower-cased status is approved, pending, rejected, blocked; everything else, a missing status included, gets outline |
| `VendorTable.StatusVariantIgnoresCase` | components/vendor-management/vendor-table.tsx:54 | lower-casing the status first does not change the badge |
| `VendorTable.StatusVariantOfApprovedAndPending` | components/vendor-management/vendor-table.tsx:55-58 | "approved" gives success and "pending" secondary |
| `VendorTable.StatusVariantOfRejectedAndBlocked` | components/vendor-management/vendor-table.tsx:59-62 | "rejected" gives destructive and "blocked" blocked |
| `VendorTable.StatusVariantOfCapitalised` | components/vendor-management/vendor-table.tsx:54-56 | "Approved" gives success |
| `VendorTable.LowerOfLowerCase` | components/vendor-management/vendor-table.tsx:54 | lower-casing lower-case ASCII letters changes nothing |
| `VendorTable.CellText` | components/vendor-management/vendor-table.tsx:88-92 | a cell is never empty: "N/A" for a missing or all-white-space field, otherwise the field's trimmed infix, which neither starts nor ends with white space |
| `VendorTable.CellTextOfTrimmed` | components/vendor-management/vendor-table.tsx:88 | a non-empty field without surrounding white space is shown as it is |
| `VendorTable.Serial` | components/vendor-management/vendor-table.tsx:86 | the serial of a row; its properties are `SerialsConsecutive`, `SerialBounds`, `PagesDoNotOverlap` |
| `VendorTable.SerialsConsecutive` | components/vendor-management/vendor-table.tsx:86 | serials of rows i <= j differ by j - i: consecutive and strictly increasing |
| `VendorTable.SerialBounds` | components/vendor-management/vendor-table.tsx:86 | on page p >= 1 with at most `limit` rows the serials lie in [(p-1)*limit+1, p*limit] |
| `VendorTable.PagesDoNotOverlap` | components/vendor-management/vendor-table.tsx:86 | every serial of an earlier page is below every serial of a later page |
| `VendorTable.MulMonotone` | components/vendor-management/vendor-table.tsx:86 | arithmetic helper of `PagesDoNotOverlap`: multiplying by the page size keeps the order of page numbers |
| `VendorTable.PageURL` | components/vendor-management/vendor-table.tsx:47-51 | the URL `createPageURL` builds; its parameters are stated by `PageLinkParams` |
| `VendorTable.CreatePageURL` | components/vendor-management/vendor-table.tsx:47-51 | the URL is "/vendor-management?" and the query string of the current list with "page" set to the number's decimal text |
| `VendorTable.PageLinkParams` | components/vendor-management/vendor-table.tsx:47-51 | in a page link "page" is exactly the number's text, which reads back as the number (for a negative number, the digits after its '-' read back as its absolute value), and every other parameter keeps its values and order |
| `VendorTable.DetailHref` | components/vendor-management/vendor-table.tsx:101-105 | the detail link is "/vendor-management/{id}", followed by '?' and a non-empty query string exactly when there are parameters |
| `VendorTable.RowFor` | components/vendor-management/vendor-table.tsx:85-112 | one vendor's row; stated by `RowsOfVendors` |
| `VendorTable.BodyFor` | components/vendor-management/vendor-table.tsx:83-120 | rows or the placeholder; stated by `RowsOfVendors` and `EmptyListPlaceholder` |
| `VendorTable.PaginationFor` | components/vendor-management/vendor-table.tsx:124-142 | the optional pagination bar; stated by `PaginationRules` and `SinglePageHasNoBar` |
| `VendorTable.RenderTable` | components/vendor-management/vendor-table.tsx:82-142 | the table view: body and pagination bar; stated by `EmptyListPlaceholder`, `RowsOfVendors`, `PaginationRules` |
| `VendorTable.EmptyListPlaceholder` | components/vendor-management/vendor-table.tsx:114-120 | an empty list renders a single placeholder row spanning 6 columns |
| `VendorTable.RowsOfVendors` | components/vendor-management/vendor-table.tsx:83-113 | a non-empty list renders one row per vendor, in order, with serial (p-1)*limit+i+1, its cell texts, the status as badge label with its variant, and detail link |
| `VendorTable.PaginationRules` | components/vendor-management/vendor-table.tsx:124-142 | the bar appears iff currentPage > 1 or hasNextPage; "Previous" iff currentPage > 1, to page currentPage-1; "Next" iff hasNextPage, to page currentPage+1; it shows the current page |
| `VendorTable.SinglePageHasNoBar` | components/vendor-management/vendor-table.tsx:124 | page 1 without a next page has no pagination bar |

## Left out

- JSX rendering, styling and the UI components (Table, Badge, Pagination, Select, Input): presentation only; the table is a record of cell texts and link targets. The row `key` is not modelled.
- The 500 ms debounce of the search handler: timing behaviour; `HandleSearch` models the call that fires after it.
- `router.replace` and `Link` navigation: framework I/O; the handlers return the URL they navigate to, and the pathname is a parameter.
- `cn` (lib/utils.ts:4-6): a wrapper over the foreign `clsx` and `tailwind-merge` libraries.
- The vendor context, the list view, the Supabase client, the login page, the sidebar, the order chart and the menu data: React state plumbing, an external service, static data and rendering.
- The list fetch (`limit + 1` rows at an offset) and the moderation calls: backend RPCs; `hasNextPage`, `currentPage` and `limit` are inputs.
- TimeFormat.FormatTime: requires that the hour segment does not start with white space, '+' or '-' and has at most 15 leading digits, because `parseInt`'s skipping of white space, its signs and double rounding of longer numbers are not modelled.
- JsText.ToLower: maps only ASCII capitals and KELVIN SIGN, because only the comparison with the four lower-case ASCII status words is observed; for that comparison it agrees with `toLowerCase`.
- JsText.IntToString: exact up to 2^53 - 1; double rounding of larger page numbers and serials is not modelled, nor JavaScript's exponent notation from 1e21 on or non-integer page numbers.
- VendorTable.Serial: exact up to 2^53 - 1; double rounding of larger page numbers and serials is not modelled (there, serials can coincide, so `SerialsConsecutive` holds only below that bound), nor fractional `currentPage` or `limit`.
- VendorTable.PaginationFor: exact up to 2^53 - 1; double rounding of larger page numbers and serials is not modelled: its links (and `PaginationRules`) use the exact integers `currentPage - 1` and `currentPage + 1`, whereas the source rounds them to doubles above that bound.
- UrlSearchParams.Serialize: the query string is serialized with the urlencoded percent-encoding; parsing it back (percent-decoding and UTF-8 decoding) is not modelled, only that it splits back into the same pairs of encoded names and values.
- Lone UTF-16 surrogates: Dafny characters are Unicode scalar values, so strings holding them (which `URLSearchParams` would replace by U+FFFD) cannot occur.
