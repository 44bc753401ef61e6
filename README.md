# Artwork table: selection and paging model

A Dafny model of the state logic of the `App` component of a browser table
over a public artwork catalogue. The component shows one page of artwork
records, lets the user tick rows one by one, tick or untick a whole page from
the header checkbox, or tick the first N rows of the page via a
"Custom Select" dialog. The set of ticked record ids survives page changes.
Paging goes through Prev/Next buttons that are disabled at the boundaries.

The model consists of these files:

- `wrappers.dfy`: `Option`. `None` stands for NaN.
- `js_int.dfy` (module `JsInt`): the JavaScript number semantics the
  custom select depends on.
  - `parseInt` with no radix, as section 19.2.5 of ECMA-262 defines it:
    leading white space, one sign, the `0x` prefix, the longest digit run,
    NaN when there is no digit.
  - The end index that `Array.prototype.slice(0, end)` computes from its
    argument.
- `selection.dfy` (module `Selection`): the selection updates.
  - Each update is a specification function on a `set<int>`.
  - The two `forEach` loops of the updater callbacks
    (`prev => { const newset = new Set(prev); ...; return newset }`) are
    methods that take `prev` and return the new set. Each is proved against
    a membership specification.
  - Lemmas prove the properties of the updates.
- `paging.dfy` (module `Paging`): the `disabled` predicates of Prev and Next
  and the page a click requests.
- `app.dfy` (module `AppState`): class `App`, which holds the component's
  state variables as fields: `artworks` (the ids of the page's rows),
  `currentPage`, `totalPages`, `loading`, `selectedIds`, `showOverlay` and
  `selectCount`.
  - Each handler is a method whose `ensures` give the whole new state.
  - The asynchronous `fetchdata` is split at its `await`: `StartFetch(page)`
    and `ApplyResponse(rows, page, total)`.

The records' other fields (title, place, artist, inscriptions, dates) play
no part in the logic. A page is therefore the sequence of its ids.

## Model

| member | source | states |
|---|---|---|
| `Selection.Ids` | src/App.tsx:73-76 | the set of ids of a page's rows |
| `Selection.NoneSelected` | src/App.tsx:67-80 | no id of the page is selected; the hypothesis under which two header clicks restore the selection |
| `Selection.AllSelected` | src/App.tsx:68 | `every` over the page: each row's id is selected, true on an empty page |
| `Selection.HeaderChecked` | src/App.tsx:189-191 | the header checkbox's `checked` value: a non-empty page, all selected |
| `Selection.Toggled` | src/App.tsx:56-64 | exactly `id` changes membership; every other id keeps its membership |
| `Selection.ToggleTwice` | src/App.tsx:56-64 | toggling the same row twice gives back the original selection |
| `Selection.ToggleSize` | src/App.tsx:56-64 | the "Selected" count goes down by one if the id was selected and up by one otherwise |
| `Selection.ToggledTimes` | src/App.tsx:56-64 | the selection after n clicks on one row's checkbox |
| `Selection.ToggleParity` | src/App.tsx:56-64 | after n clicks on one row the selection is the original when n is even and a single toggle when n is odd |
| `Selection.ApplyToPage` | src/App.tsx:70-79 | the updater loop: page ids end up selected exactly when `allSelected` was false; ids not on the page keep their membership |
| `Selection.SelectAllPage` | src/App.tsx:67-80 | the selection after a header click: the page's ids removed if all were selected, added otherwise; its meaning is stated by the lemmas below |
| `Selection.SelectAllMembership` | src/App.tsx:67-80 | the header click removes every page id when all were selected and adds every page id otherwise; ids not on the page keep their membership |
| `Selection.SelectAllEmptyPage` | src/App.tsx:67-80 | on an empty page the header click leaves the selection unchanged |
| `Selection.SelectAllTwice` | src/App.tsx:67-80 | when none or all of the page is selected, two header clicks restore the selection |
| `Selection.SelectAllTwicePartial` | src/App.tsx:67-80 | when part of the page is selected, two header clicks deselect exactly the page's ids |
| `Selection.SelectAllFlipsHeader` | src/App.tsx:189-193 | a header click flips the checkbox's checked state, except on an empty page, where it stays unchecked |
| `Selection.HeaderCheckedMeaning` | src/App.tsx:189-191 | the header checkbox is checked iff the page is non-empty and all its ids are in the selection |
| `Selection.AddRows` | src/App.tsx:85-93 | the updater loop: the new set is the previous set plus exactly the given rows' ids |
| `Selection.FirstRows` | src/App.tsx:88 | `slice(0, count)` takes no more rows than the page has |
| `Selection.CustomSelected` | src/App.tsx:82-93 | the selection after the custom select: the previous one plus the ids of the rows `slice(0, count)` keeps; its meaning is stated by the lemmas below |
| `Selection.CustomSelectAdditive` | src/App.tsx:82-93 | the custom select removes nothing and adds only ids of the current page |
| `Selection.CustomSelectFirstN` | src/App.tsx:82-93 | a count n with 0 <= n <= page length adds exactly the ids of the first n rows |
| `Selection.CustomSelectWholePage` | src/App.tsx:82-93 | a count at or above the page length adds the whole page |
| `Selection.CustomSelectNaN` | src/App.tsx:82-93 | an unparsable count adds nothing |
| `Selection.CustomSelectNegative` | src/App.tsx:82-93 | a negative count k adds the first max(length + k, 0) rows |
| `Selection.IdsSize` | src/App.tsx:88-90 | the rows the custom select adds have no more distinct ids than rows; used for the count bound |
| `Selection.CustomSelectSize` | src/App.tsx:82-93 | the count grows by at most the number of rows the slice keeps |
| `Selection.ScenarioToggleAndSelectAll` | src/App.tsx:56-80 | page [101, 102]: toggle 101, then two header clicks; the count goes 1, 2, 0 |
| `Selection.ScenarioCustomSelect` | src/App.tsx:82-93 | page [1..5]: the text "3" selects {1, 2, 3}; the text "abc" changes nothing |
| `JsInt.IsStrWhiteSpace` | src/App.tsx:83 | the white-space code points `parseInt` skips: ECMA-262's StrWhiteSpaceChar (WhiteSpace and LineTerminator) |
| `JsInt.DigitValue` | src/App.tsx:83 | the value of a character as a radix-36 digit, 36 for a non-digit; below 10 exactly for `0`-`9` |
| `JsInt.IsDigit` | src/App.tsx:83 | the radix-R digit test that decides where `parseInt` stops reading |
| `JsInt.TrimStart` | src/App.tsx:83 | the result is no longer than the input and is empty or starts with a non-space character |
| `JsInt.TrimStartRemovesWhiteSpace` | src/App.tsx:83 | the trimmed string is a suffix of the input, and every character removed before it is white space |
| `JsInt.DigitPrefixLength` | src/App.tsx:83 | the length of the longest run of leading digits: every character in it is a digit and the next one is not |
| `JsInt.DecimalString` | src/App.tsx:83 | the reference decimal numeral for the parseInt round trip (the component never renders numbers this way): non-empty, all decimal digits, no leading zero unless the value is 0 |
| `JsInt.IntString` | src/App.tsx:83 | the reference numeral of any integer, a minus sign before a negative one; `ParseIntRoundTrip` parses it back |
| `JsInt.DigitsValue` | src/App.tsx:83 | the value of a digit string, most significant digit first; `DecimalStringValue` shows it inverts `DecimalString` |
| `JsInt.ParseUnsigned` | src/App.tsx:83 | the digits after the sign: radix 16 after `0x`/`0X`, else radix 10, the longest digit run, NaN when there is no digit |
| `JsInt.ParseSigned` | src/App.tsx:83 | one optional sign, `-` negating the unsigned value |
| `JsInt.ParseInt` | src/App.tsx:83 | `parseInt(selectcount)` as section 19.2.5 of ECMA-262 defines it; the lemmas below state its behaviour |
| `JsInt.ParseIntRoundTrip` | src/App.tsx:83 | `parseInt` of an integer's decimal numeral gives back the integer |
| `JsInt.ParseIntIgnoresTail` | src/App.tsx:83 | a numeral followed by a character that cannot continue it parses to the numeral's value |
| `JsInt.ParseIntSkipsWhiteSpace` | src/App.tsx:83 | leading white space does not change the result |
| `JsInt.ParseIntNonNumeric` | src/App.tsx:83 | text whose first non-space character is neither a sign nor a digit is NaN |
| `JsInt.ParseIntExamples` | src/App.tsx:83 | "abc" and "" are NaN; "3" is 3; "1.5" is 1; "-7" is -7 |
| `JsInt.ParseIntHexExample` | src/App.tsx:83 | "0x1A" is 26; "0x" alone is NaN |
| `JsInt.ParseIntWhiteSpaceExample` | src/App.tsx:83 | "  -12px" is -12 |
| `JsInt.SliceEnd` | src/App.tsx:88 | the slice end is at most the length; NaN gives 0; a count in range is kept; a larger one is clamped to the length; a negative one counts back from the length and stops at 0 |
| `Paging.PrevDisabled` | src/App.tsx:242 | Prev is disabled exactly when the current page is 1 |
| `Paging.NextDisabled` | src/App.tsx:262 | Next is disabled exactly when the current page equals the total |
| `Paging.PrevTarget` | src/App.tsx:242-243 | Prev requests nothing exactly when the current page is 1 and otherwise requests the page before |
| `Paging.NextTarget` | src/App.tsx:262-263 | Next requests nothing exactly when the current page equals the total and otherwise requests the page after |
| `Paging.NavigationStaysInRange` | src/App.tsx:242-263 | with 1 <= current <= total, a page that Prev or Next requests lies in 1..total |
| `AppState.App.constructor` | src/App.tsx:23-30 | no rows, page 1 of 1, not loading, nothing selected, dialog closed, empty count text |
| `AppState.App.StartFetch` | src/App.tsx:32-37 | sets `loading` and requests the page it was given; nothing else changes |
| `AppState.App.ApplyResponse` | src/App.tsx:41-45 | rows, current page and total pages become the response's values and `loading` is cleared; the selection and the dialog are untouched |
| `AppState.App.Mount` | src/App.tsx:48-50 | the mount effect requests page 1 and sets `loading` |
| `AppState.App.ChangePage` | src/App.tsx:52-54 | starts a fetch of the given page; the selection is untouched |
| `AppState.App.ClickPrev` | src/App.tsx:242-243 | does nothing while Prev is disabled; otherwise fetches the previous page |
| `AppState.App.ClickNext` | src/App.tsx:262-263 | does nothing while Next is disabled; otherwise fetches the next page |
| `AppState.App.SelectedCount` | src/App.tsx:160 | the "Selected: n" counter is the size of the selection |
| `AppState.App.IsHeaderChecked` | src/App.tsx:189-191 | the header checkbox's state on the current rows and selection |
| `AppState.App.ToggleRow` | src/App.tsx:56-64 | the selection becomes `Toggled` of the old one; the rest of the state is unchanged |
| `AppState.App.SelectAllCurrentPage` | src/App.tsx:67-80 | the selection becomes `SelectAllPage` of the old one and the current rows; the rest of the state is unchanged |
| `AppState.App.OpenOverlay` | src/App.tsx:164 | opens the dialog and keeps the count text |
| `AppState.App.EditCount` | src/App.tsx:301-302 | the count text becomes what was typed |
| `AppState.App.CancelOverlay` | src/App.tsx:319 | closes the dialog and keeps the count text and the selection |
| `AppState.App.CustomSelect` | src/App.tsx:82-97 | adds the first `parseInt(text)` rows the way `slice` reads the count, then closes the dialog and resets the text to "" |
| `AppState.NavigateAndReturn` | src/App.tsx:32-54 | leaving a page and coming back keeps the whole selection, so the selections on the original page survive |
| `AppState.CancelThenReopen` | src/App.tsx:164 | cancelling and reopening the dialog shows the previously typed text |
| `AppState.InitialButtonsDisabled` | src/App.tsx:242-263 | on a fresh component (page 1 of 1, from the initial state at lines 24-25) clicks on Prev and Next request nothing |
| `AppState.ScenarioOnApp` | src/App.tsx:56-80 | page 1 of 5 with rows 101 and 102: toggle 101, then two header clicks; the displayed counts are 1, 2, 0 |

## Left out

- The HTTP request, decoding the JSON answer and building the URL (src/App.tsx:35-39) are network I/O. The decoded rows and counters are the arguments of `ApplyResponse`. The requested page is what `StartFetch` returns.
- A failed fetch leaves `loading` set forever in the component. The model has no failure path because the component has none.
- Responses that overlap or arrive out of order are not modelled. Each `StartFetch` is followed by its own `ApplyResponse`.
- React's state batching is not modelled. The state is one sequential value.
- The header handler reads `allselected` from the rendered selection while the update applies to `prev`. Under the sequential state these are the same set.
- The rendering, the inline styles, the loading screen, the row checkboxes' `checked` display and the `?? "-"` placeholders are presentation only.
- The browser's sanitising of `type="number"` input is not modelled. `EditCount` accepts any text.
- `JsInt.ParseInt` returns a mathematical integer. JavaScript rounds very large results to a double and gives -0 for "-0". Neither changes the end index `slice` computes, because that index is clamped to the page length and -0 converts to 0.
- `JsInt.IsStrWhiteSpace` lists the white-space code points ECMA-262 names, with the Zs category written out as of Unicode 15. It does not follow later Unicode versions.
