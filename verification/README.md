# Movie client core, modelled in Dafny

A model of the decision logic inside a small React movie browser (TMDB-style
API, Spanish UI). The model covers the filter store, the listing page's state
machine, the request paths and cache tags of the API slice, the paginator and
the detail page. The UI, the HTTP transport and the query cache are not
modelled. Query results enter the model as inputs: their data and their
loading, error and fetching flags.

Modules, one per source file plus the JavaScript and web-platform pieces the
code leans on:

- `Wrappers` (wrappers.dfy): `Option`.
- `Text` (text.dfy): `String.prototype.trim` with the whitespace set of
  ECMA-262, `String(n)` for integers, the signed-decimal-integer subset of `Number(s)`,
  `slice(0, n)`, `join`, and `split` on one character or on a longer separator.
- `Percent` (percent.dfy): UTF-8 and percent-encoding. It covers
  `encodeURIComponent` and the application/x-www-form-urlencoded serializer
  of the WHATWG URL Standard, with a decoder as the round-trip partner.
- `SearchParams` (searchparams.dfy): `URLSearchParams.set` and `toString`,
  with a parser as the round-trip partner.
- `Filters` (filters.dfy): the filter slice and its reducer.
- `MoviesApi` (movies_api.dfy): every endpoint's path builder and tag
  list. It proves what a server reads back from each path.
- `Paginator` (paginator.dfy): the navigator's disabled flags, the
  displayed count and the "updating" line.
- `Listing` (listing.dfy): the listing page. It covers the derived values,
  the skip flags and the mode, every event as a pure step with its enabling
  condition, the effect on filter changes, the rendered body, and an
  invariant kept along any run of events.
- `Detail` (detail.dfy): the detail page. It covers the id guard, render
  precedence, director, cast, runtime, year and image URLs, and the round
  trip from a card's link to the detail request.

Behaviour of the code that is easy to misread (the model follows the code):

- A route id of only whitespace (e.g. `" "`) reads as `Number(" ") == 0`.
  It is requested as movie 0, not rejected as invalid (`Detail.SkipIffNoNumber`).
- The poster and profile fallbacks test the path for truthiness. An empty
  path also gives the placeholder, not only a missing one (`Detail.ImageUrl`).
- A filter change resets the page only while the new record counts as
  filtered. Clearing the last filter keeps the page (`Listing.UnfilterKeepsPage`).
- The clear button leaves the filter record alone (`Listing.HandleClear`).
- The search button is disabled while fetching, but Enter in the search box
  is not (`Listing.Enabled`).
- The navigator decides its disabled flags from the server's `page`. The
  handlers step the page's own `page` state. So Next can leave the current
  page only up to the result's page count, while Prev never moves forward
  (`Listing.NextInRange`, `Listing.PrevInRange`).
- "Both buttons are disabled when there is at most one page" holds only on
  page 1. A server page past a single-page total leaves Prev enabled
  (`Paginator.SinglePageBothDisabled`, `Paginator.PastTheEndPrevEnabled`).
- With filters set, the unfiltered list (trending or search) is still
  requested beside the filtered one, because the skip flags are not
  exclusive (`Listing.Running`).
- The empty-result notice quotes the committed term outside the filtered
  mode, even on the trending list, where that term is blank
  (`Listing.EmptyNotice`).

## Model

| member | source | states |
|---|---|---|
| Filters.Reduce | src/features/filters/filtersSlice.ts:21-37 | A setter stores its payload, unchecked, in its own field and leaves the other three alone. A reset makes every field null. |
| Filters.InitialAllNull | src/features/filters/filtersSlice.ts:11-16 | The initial record has all four fields null, and it is what a reset of a fully set record yields. |
| Filters.ResetIdempotent | src/features/filters/filtersSlice.ts:34-36 | A reset yields the initial record from any state, and two resets equal one. |
| Filters.LastWriteWins | src/features/filters/filtersSlice.ts:22-33 | Of two writes to one field, the second wins. |
| Filters.SettersCommute | src/features/filters/filtersSlice.ts:22-33 | Writes to different fields commute. |
| Filters.FieldAfterActions | src/features/filters/filtersSlice.ts:21-37 | After any run of actions, each field holds what the last action touching it wrote, or its old value if none did. |
| Text.Trim | src/pages/Home.tsx:30 | The trim is the input minus a whitespace-only prefix and suffix, and neither starts nor ends with whitespace. |
| Text.TrimEmptyIff | src/pages/Home.tsx:30 | A string trims to empty exactly when it is all whitespace. |
| Text.TrimIdempotent | src/pages/Home.tsx:75 | Trimming twice is trimming once. |
| Text.TrimmedIff | src/pages/Home.tsx:75 | `trim` leaves a string unchanged exactly when it neither starts nor ends with whitespace. |
| Text.Take | src/pages/Home.tsx:234 | `slice(0, n)` is the first min(n, length) elements. |
| Text.IntToString | src/features/api/moviesApi.ts:99 | `String(n)` of an integer, read as an unbounded integer, is digits with a leading minus exactly for negative n. |
| Text.NatToStringRoundTrip | src/features/api/moviesApi.ts:99-106 | Reading the numeral of a natural number back gives the number. |
| Text.NatToStringInjective | src/features/api/moviesApi.ts:99-106 | Distinct numbers have distinct numerals. |
| Text.JsNumberOfIntToString | src/pages/MoviesDetail.tsx:7 | `Number(String(n)) == n` for every integer. |
| Text.JsNumberOfBlank | src/pages/MoviesDetail.tsx:7 | A blank or whitespace-only string reads as 0, not NaN. |
| Text.SplitJoin | src/features/api/moviesApi.ts:108 | Splitting a `&`-join recovers the parts when no part holds `&`. |
| Text.SplitOnJoin | src/pages/MoviesDetail.tsx:49 | Splitting a join on a multi-character separator recovers the parts, provided the separator holds a marker character exactly once and no part holds it. |
| Text.SplitIsSplitOn | src/features/api/moviesApi.ts:108 | Splitting on one character is the one-character case of the general split. |
| Percent.Encode | src/features/api/moviesApi.ts:72 | Encoded text uses only kept characters, `%`, hex digits and (form flavour) `+`. Text needing no escape is unchanged. |
| Percent.EncodedHasNoDelimiters | src/features/api/moviesApi.ts:72 | Encoded text holds no `&`, `=`, `#` or space, so it cannot break the query. |
| Percent.Utf8RoundTrip | src/features/api/moviesApi.ts:72 | Decoding the UTF-8 bytes of a string gives the string back. |
| Percent.EncodeRoundTrip | src/features/api/moviesApi.ts:72 | Decoding `encodeURIComponent(s)` or its form-encoded counterpart gives `s` back, for any text. |
| SearchParams.Set | src/features/api/moviesApi.ts:99-106 | After `set(n, v)` exactly one pair is named n and holds v. The pairs with other names keep their order, and a new name is appended. |
| SearchParams.ReplaceFirstSlot | src/features/api/moviesApi.ts:99-106 | Replacing the first pair of a name that the pairs before it do not hold gives those pairs, then the new pair, then the later pairs without that name. |
| SearchParams.SetKeepsSlot | src/features/api/moviesApi.ts:99-106 | Setting a name already present puts the new pair in the slot of its first old pair. The pairs before it are unchanged, and the later pairs of that name are removed. |
| SearchParams.SetAllFresh | src/features/api/moviesApi.ts:98-106 | `set` calls on distinct new names append the pairs in call order. |
| SearchParams.SerializeRoundTrip | src/features/api/moviesApi.ts:108 | Parsing `toString()` gives back the same pairs in the same order. |
| MoviesApi.TrendingPathReadBack | src/features/api/moviesApi.ts:61 | The trending path has route `/trending/movie/week` and the single parameter `page`, defaulting to 1, which reads back as that number. |
| MoviesApi.TrendingPathInjective | src/features/api/moviesApi.ts:61 | Two trending paths coincide exactly when their effective pages do. |
| MoviesApi.SearchPathReadBack | src/features/api/moviesApi.ts:71-72 | The search path has route `/search/movie`. Its query reads back as the typed text (whatever it holds), then the page (default 1), then `include_adult=false`. |
| MoviesApi.SearchPathInjective | src/features/api/moviesApi.ts:71-72 | Two search paths coincide exactly when their texts and effective pages do. |
| MoviesApi.GenresPathReadBack | src/features/api/moviesApi.ts:82 | The genres path has route `/genre/movie/list`. Past the stray `&` it reads back as `language=es-ES` alone. |
| MoviesApi.AppliedNames | src/features/api/moviesApi.ts:103-106 | A conditional parameter is present exactly when one of its lines' tests passes. |
| MoviesApi.DiscoverParamsShape | src/features/api/moviesApi.ts:97-106 | The discover parameters are `page`, `include_adult=false` and `sort_by=popularity.desc`, then each conditional parameter whose test passes, in source order. |
| MoviesApi.DiscoverParamNames | src/features/api/moviesApi.ts:98-106 | The first three parameters are the fixed ones. `with_genres` and `primary_release_year` appear iff their value is truthy, and the two rating bounds iff their value is not null (0 included). |
| MoviesApi.DiscoverHasName | src/features/api/moviesApi.ts:103-106 | Each conditional name is present iff its own test passes. |
| MoviesApi.DiscoverParamValues | src/features/api/moviesApi.ts:103-106 | Each present conditional parameter carries `String` of its value. |
| MoviesApi.DiscoverHasOptional | src/features/api/moviesApi.ts:103-106 | The query carries more than the three fixed parameters iff some conditional test passes. |
| MoviesApi.DiscoverPathReadBack | src/features/api/moviesApi.ts:97-108 | The discover path has route `/discover/movie`, and its query parses back to exactly the parameters set. |
| MoviesApi.MovieFullPathReadBack | src/features/api/moviesApi.ts:121 | The detail path's route is `/movie/` and the id's numeral. Its query reads back as `append_to_response=credits` and `language=es-ES`. |
| MoviesApi.ListTags | src/features/api/moviesApi.ts:62-68 | A list's tags are its collection tag followed, on success, by one movie tag per result in result order (1 + n tags), and on failure by nothing. |
| MoviesApi.MovieTags | src/features/api/moviesApi.ts:66 | One movie tag per movie, in order. |
| MoviesApi.MovieFullTags | src/features/api/moviesApi.ts:122 | A detail request is tagged with exactly its own movie id. |
| MoviesApi.DetailTagInListing | src/features/api/moviesApi.ts:110-122 | Every movie of a successful list result carries the tag of its own detail request. |
| Paginator.Fetching | src/components/paginator.tsx:14 | An omitted `isFetching` counts as false. |
| Paginator.ShownTotal | src/components/paginator.tsx:35 | The displayed page count is at least 1, and is the real count whenever that is at least 1. |
| Paginator.Render | src/components/paginator.tsx:18-51 | Prev is disabled iff page ≤ 1 or fetching. Next is disabled iff page ≥ max(1, total) or fetching. The indicator shows iff fetching. |
| Paginator.OmittedFetchingIsFalse | src/components/paginator.tsx:14 | Omitting `isFetching` renders exactly like passing false. |
| Paginator.SinglePageBothDisabled | src/components/paginator.tsx:18-41 | On page 1 with at most one page, both buttons are disabled. |
| Paginator.PastTheEndPrevEnabled | src/components/paginator.tsx:18-27 | Page 2 of a one-page result keeps Prev enabled while idle, and Next disabled. |
| Paginator.IdleButtonsFollowRange | src/components/paginator.tsx:18-41 | While idle, each button is enabled exactly when its step stays within [1, max(1, total)]. |
| Paginator.FetchingDisablesBoth | src/components/paginator.tsx:27-49 | While fetching, both buttons are disabled and the indicator shows. |
| Listing.IsSearchingIff | src/pages/Home.tsx:30 | The page is searching iff the committed term holds a non-whitespace character. |
| Listing.ZeroFilters | src/pages/Home.tsx:35-39 | For every filter record: a genre or year of 0 counts exactly as an unset one, and a rating bound of 0 makes the record filtered. The initial record filters nothing. |
| Listing.ModeOf | src/pages/Home.tsx:52 | The mode is discover iff filtered, search iff searching and not filtered, trending otherwise. |
| Listing.SelectedNeverSkipped | src/pages/Home.tsx:32-52 | The query the mode selects is never skipped. Exactly one of the trending and search queries runs. |
| Listing.Running | src/pages/Home.tsx:32-49 | Two list queries run while filtered, one otherwise. |
| Listing.HiddenRequestIsFallback | src/pages/Home.tsx:32-52 | While filtered, the extra query that runs is the one the mode would select without filters. |
| Listing.DiscoverRequestMatchesHasFilters | src/pages/Home.tsx:35-50 | The filtered request reads back as the page's discover parameters, and it has an optional parameter iff the page counts as filtered. |
| Listing.SearchRequestCarriesTerm | src/pages/Home.tsx:33 | The search request reads back as the committed term and the current page. |
| Listing.TrendingRequestCarriesPage | src/pages/Home.tsx:32 | The trending request reads back as the current page. |
| Listing.FilterPayload | src/pages/Home.tsx:134 | An empty control dispatches null. A whitespace-only one dispatches 0. |
| Listing.FilterPayloadOfNumeral | src/pages/Home.tsx:150 | A control holding a number's numeral dispatches that number. |
| Listing.HandleSearch | src/pages/Home.tsx:74-78 | Submitting commits the trimmed draft and goes to page 1, leaving draft and filters unchanged. The result searches iff the draft has a non-whitespace character. |
| Listing.HandleClear | src/pages/Home.tsx:80-84 | Clearing empties draft and term, goes to page 1, keeps the filters, and falls back to discover or trending. |
| Listing.FilterEffect | src/pages/Home.tsx:86-88 | The effect leaves the page alone when the filter record is unchanged. On a change it goes to page 1 iff the new record counts as filtered. |
| Listing.SubmitIdempotent | src/pages/Home.tsx:74-78 | Submitting twice equals submitting once. |
| Listing.BlankSubmitIsClear | src/pages/Home.tsx:74-84 | Submitting a blank draft ends the search, with the same term, page and mode as clearing. |
| Listing.SetFilterPage | src/pages/Home.tsx:86-88 | Picking a filter value writes it through the reducer. A change that leaves the page filtered goes to page 1. Re-picking the current value changes nothing. |
| Listing.UnfilterKeepsPage | src/pages/Home.tsx:86-88 | Nulling a filter so that nothing is filtered keeps the page. |
| Listing.ResetFiltersStep | src/pages/Home.tsx:185-189 | "Clear filters" empties the record, goes to page 1, and keeps the search, so the mode leaves discover. |
| Listing.PrevInRange | src/pages/Home.tsx:250 | An enabled Prev moves to `max(1, page - 1)`, and a disabled one changes nothing. So Prev never goes below page 1 or forward. |
| Listing.NextInRange | src/pages/Home.tsx:251 | An enabled Next moves to `min(total_pages ?? 1, page + 1)`, and a disabled one changes nothing. Next never goes below page 1, and never past `total_pages` (default 1) when it moves. |
| Listing.GoodSearchIsTrimmed | src/pages/Home.tsx:75 | In a state meeting the invariant, trimming the committed term again changes nothing. |
| Listing.StartIsGood | src/pages/Home.tsx:22-24 | The initial state has page 1 and a trimmed (empty) term. |
| Listing.StepKeepsGood | src/pages/Home.tsx:74-251 | Every event keeps the page at least 1 and the committed term trimmed. |
| Listing.RunKeepsGood | src/pages/Home.tsx:22-251 | The same holds after any run of events. |
| Listing.Cards | src/pages/Home.tsx:234 | At most 18 cards are shown: the first results, in order. |
| Listing.FailureMessageDistinct | src/pages/Home.tsx:208-216 | Each list (filtered, search, trending) fails with its own text. |
| Listing.EmptyNotice | src/pages/Home.tsx:223-230 | The filtered list's notice is fixed text. Every other notice is the fixed prefix, then the committed term verbatim, then the closing quote. |
| Listing.Render | src/pages/Home.tsx:194-254 | Exactly one of skeleton (while loading), failure (error and not loading) and results shows. A failure shows its mode's text. Results show the selected query's first 18 results, the paginator for that query's page and count, and an empty notice, quoting the term as `EmptyNotice` gives, iff the server reports zero results. |
| Listing.NavMatchesEnabled | src/pages/Home.tsx:246-252 | The navigator shown with the results enables exactly the steps the model takes. |
| Detail.MovieId | src/pages/MoviesDetail.tsx:7 | A missing parameter is NaN. A whitespace-only one reads as 0. |
| Detail.SkipIffNoNumber | src/pages/MoviesDetail.tsx:8 | A request goes out iff the parameter is present, non-empty and numeric. A blank non-empty one requests movie 0. |
| Detail.NonNumeralSkipped | src/pages/MoviesDetail.tsx:7-8 | Under the integer-only reading of `Number`, a parameter ending in a character that is neither a digit nor whitespace is skipped. |
| Detail.Render | src/pages/MoviesDetail.tsx:12-15 | Invalid id beats loading, loading beats error, error beats content. Each page shows exactly under its condition. |
| Detail.InvalidIgnoresQuery | src/pages/MoviesDetail.tsx:10-12 | A skipped id renders the invalid page whatever the query reports. |
| Detail.ImageUrl | src/pages/MoviesDetail.tsx:25-28 | A non-empty path gives base + size + path, each recoverable from the URL. A missing or empty path gives `/placeholder.jpg`. |
| Detail.ImageUrlInjective | src/pages/MoviesDetail.tsx:70-74 | Distinct paths give distinct URLs, and no real path gives the placeholder. |
| Detail.Year | src/pages/MoviesDetail.tsx:38 | The year is the first four characters of the date (all of a shorter one), and absent with the date. |
| Detail.JsRem60 | src/pages/MoviesDetail.tsx:43 | JavaScript's `% 60`: the remainder has the dividend's sign, is below 60 in size, and differs from it by a multiple of 60. |
| Detail.Runtime | src/pages/MoviesDetail.tsx:41-45 | The intended runtime slot: the line shows iff the runtime is present and non-zero, so a runtime of 0 shows nothing. |
| Detail.RuntimeAsWritten | src/pages/MoviesDetail.tsx:41-45 | The runtime slot as written: empty for a missing runtime, the number 0 for a runtime of 0, and otherwise the same line as `Detail.Runtime`. |
| Detail.ZeroRuntimeShowsStrayZero | src/pages/MoviesDetail.tsx:41 | A runtime of 0 puts a stray 0 on the page where the intended slot is empty. For every other runtime the two agree on whether the line shows. |
| Detail.RuntimeSplit | src/pages/MoviesDetail.tsx:43 | For a positive runtime, hours × 60 + minutes is the runtime, with 0 ≤ minutes < 60. |
| Detail.NegativeRuntimeSplit | src/pages/MoviesDetail.tsx:43 | For a negative runtime that is not a whole number of hours, the two parts add up to an hour less than the runtime. |
| Detail.GenresLine | src/pages/MoviesDetail.tsx:47-51 | The genres line shows iff the list is present (even empty). One genre shows as its name. |
| Detail.GenresLineSplits | src/pages/MoviesDetail.tsx:49 | For any non-empty list whose names hold no `•`, splitting the line on `" • "` gives back every genre name in order. |
| Detail.Overview | src/pages/MoviesDetail.tsx:53 | The synopsis is never empty: a missing or empty overview gives the fallback text. |
| Detail.FirstDirector | src/pages/MoviesDetail.tsx:17 | Finds the index of the first crew entry whose job is exactly "Director", or reports that there is none. |
| Detail.DirectorLine | src/pages/MoviesDetail.tsx:17 | A shown director is the non-empty name of the first "Director" entry. None is shown when there is no such entry or its name is empty. |
| Detail.CastCards | src/pages/MoviesDetail.tsx:18 | The cast cards are the first min(6, n) cast entries in order, and none when credits or cast are missing. |
| Detail.MatchMovieRoute | src/App.tsx:14 | A matched `/movie/:id` path is `/movie/` followed by the non-empty, slash-free parameter. |
| Detail.MatchMovieRouteOfSegment | src/App.tsx:14 | Conversely, every `/movie/` path followed by a non-empty, slash-free segment matches, and the parameter is that segment. |
| Detail.CardLinkRoundTrip | src/components/movieCard.tsx:16 | A card's link routes to the detail page with its numeral. The page reads back the card's id, does not skip it, and requests that movie's tag. |
| Detail.CardLinkInjective | src/components/movieCard.tsx:16 | Distinct movies have distinct links. |

## Left out

- JSX, CSS classes, the skeleton markup and DOM events are presentation. Only the values they consume are modelled.
- RTK Query's cache, request deduplication, hooks and fetch lifecycle (src/features/api/apiSlice.ts) are library code. Each query's data, `isLoading`, `isError` and `isFetching` are inputs, and the retry button's `refetch` is not modelled.
- The header setup in src/features/api/apiSlice.ts (base URL, credential, and its `Barer` typo) is configuration and not part of this model.
- The routing table in src/App.tsx is framework wiring. Only the `/movie/:id` match is modelled (`Detail.MatchMovieRoute`), without react-router's percent-decoding, trailing-slash handling or case-insensitive matching: react-router also opens `/Movie/5` as movie 5, while the model matches only the lower-case `/movie/` prefix.
- src/components/movieCard.tsx is modelled only for its link. Its rating formatting (`toFixed`, `Number.isFinite`) is float formatting.
- Ratings and vote averages are integers. Fractional ratings are left out, although they are the ordinary input of the rating controls, which step by 0.1 (src/pages/Home.tsx:164,178). `String(x)` is modelled for integers only, and the rating line of the detail page (`toFixed(1)`) is left out.
- The listing page's titles and the genre `<select>` options are static text and data display.
- The filter effect runs as a synchronous step right after each event. React's render and effect scheduling is not modelled.
- Text.IntToString: numbers are unbounded integers. JavaScript's `String` switches to exponent form at 10^21 (`"1e+21"`), and integers above 2^53 lose precision. Neither is modelled, so the numeral and round-trip lemmas that rely on it (`Text.JsNumberOfIntToString`, `MoviesApi.*PathReadBack`, `Detail.CardLinkRoundTrip`) hold for every integer in the model but describe JavaScript only for safe integers, whose magnitude is at most 2^53 - 1.
- Detail.Render: the shown page uses the corrected runtime slot (`Detail.Runtime`), so a runtime of 0 shows nothing. The page as written shows a stray 0 there (`Detail.RuntimeAsWritten`; see "## Findings").
- Text.JsNumber: reads only optionally signed decimal integers. Fractions, exponents, hex, `Infinity` and NaN all come out as `None`.
- Detail.MovieId: a fractional id such as `"1.5"`, which JavaScript would request as 1.5, is treated as not a number and skipped.
- Detail.NonNumeralSkipped: holds only for the integer-only `Text.JsNumber`. JavaScript's `Number` reads `"1."` as 1, `"0xA"` as 10 and `"Infinity"` as Infinity, so the page requests those ids, while the model skips them.
- Listing.FilterPayload: a control text that is not an integer numeral gives `None`. NaN cannot be stored in the integer filter record. Number inputs and the genre select hand over empty strings or numerals.
- Percent.Encode: strings are sequences of Unicode scalar values, so the lone surrogates on which `encodeURIComponent` throws cannot occur.
- SearchParams.Parse: the partner parser is checked only on serializer output. It does not model the full WHATWG parser on arbitrary input.
- Detail.FirstDirector: the crew entry's optional `job` is a plain string. An absent job behaves like any job other than "Director".

## Findings

| source | as written | input that shows it | evidently intended | confidence | as-written member | corrected member |
|---|---|---|---|---|---|---|
| src/pages/MoviesDetail.tsx:41 | `{data?.runtime && (…)}` evaluates to the number 0 for a runtime of 0, and React renders that number as text | a movie whose `runtime` is 0 | nothing shown when the runtime is 0, as for a missing runtime | high; not executed | Detail.RuntimeAsWritten, Detail.ZeroRuntimeShowsStrayZero | Detail.Runtime |
