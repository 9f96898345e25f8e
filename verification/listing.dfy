/** The listing view (src/pages/Home.tsx): its local state (page, search
    draft, committed search term) next to the filter store's record, the
    values derived from them (searching, filtered, which request runs),
    the events the page reacts to, and what it renders. The three list
    queries are not run here: their loading, error and fetching flags and
    their data are inputs. */
module Listing {
  import opened Wrappers
  import Text
  import Filters
  import SearchParams
  import MoviesApi
  import Paginator

  /** `page`, `query` (the text typed in the search box) and `search` (the
      term last submitted), plus the filter record the page reads from the
      store. */
  datatype State = State(page: int, draft: string, search: string, filters: Filters.FiltersState)

  /** The state on mount with an untouched store. */
  const Start: State := State(1, "", "", Filters.Initial)

  // ---------------------------------------------------------------------------
  // Derived values

  /** `search.trim().length > 0`. */
  predicate IsSearching(search: string) {
    |Text.Trim(search)| > 0
  }

  /** A term searches exactly when it holds a character other than
      whitespace. */
  lemma IsSearchingIff(search: string)
    ensures IsSearching(search) <==> exists i :: 0 <= i < |search| && !Text.IsWhitespace(search[i])
  {
    Text.TrimEmptyIff(search);
  }

  /** A genre or a year counts when truthy, a rating bound when not null. */
  predicate HasFilters(f: Filters.FiltersState) {
    Filters.Truthy(f.genreId) || Filters.Truthy(f.year) || f.ratingMin.Some? || f.ratingMax.Some?
  }

  /** A genre or year of 0 counts as no filter at all, while a rating
      bound of 0 is one; the store's initial record filters nothing. */
  lemma ZeroFilters(f: Filters.FiltersState)
    ensures f.genreId == Some(0) ==> (HasFilters(f) <==> HasFilters(f.(genreId := None)))
    ensures f.year == Some(0) ==> (HasFilters(f) <==> HasFilters(f.(year := None)))
    ensures f.ratingMin == Some(0) || f.ratingMax == Some(0) ==> HasFilters(f)
    ensures !HasFilters(Filters.Initial)
  {
  }

  /** The list the page shows. */
  datatype Mode = Discover | Search | Trending

  /** Filters win over a search term, a search term over the trending
      list. */
  function ModeOf(st: State): (m: Mode)
    ensures m == Discover <==> HasFilters(st.filters)
    ensures m == Search <==> !HasFilters(st.filters) && IsSearching(st.search)
    ensures m == Trending <==> !HasFilters(st.filters) && !IsSearching(st.search)
  {
    if HasFilters(st.filters) then Discover
    else if IsSearching(st.search) then Search
    else Trending
  }

  /** The `skip` option of each of the three list queries. */
  datatype Skips = Skips(trending: bool, search: bool, discover: bool)

  function SkipsOf(st: State): Skips {
    Skips(IsSearching(st.search), !IsSearching(st.search), !HasFilters(st.filters))
  }

  function Skipped(k: Skips, m: Mode): bool {
    match m
    case Discover => k.discover
    case Search => k.search
    case Trending => k.trending
  }

  /** The list the page shows is always requested, and exactly one of the
      trending and search queries runs. */
  lemma SelectedNeverSkipped(st: State)
    ensures !Skipped(SkipsOf(st), ModeOf(st))
    ensures Skipped(SkipsOf(st), Trending) != Skipped(SkipsOf(st), Search)
  {
  }

  /** The number of list requests that run: the skip flags are not
      exclusive, so with filters set a second list is fetched beside the
      filtered one, and never shown. */
  function Running(st: State): (n: nat)
    ensures n == (if HasFilters(st.filters) then 2 else 1)
  {
    var k := SkipsOf(st);
    (if k.trending then 0 else 1) + (if k.search then 0 else 1) + (if k.discover then 0 else 1)
  }

  /** With filters set, the hidden second request is the one the mode
      would pick if the filters were cleared. */
  lemma HiddenRequestIsFallback(st: State)
    requires HasFilters(st.filters)
    ensures !Skipped(SkipsOf(st), ModeOf(st.(filters := Filters.Initial)))
  {
  }

  // ---------------------------------------------------------------------------
  // Requests

  /** The arguments the page passes to `discoverMovies`. */
  function DiscoverArgsOf(st: State): MoviesApi.DiscoverArgs {
    MoviesApi.DiscoverArgs(Some(st.page), st.filters.genreId, st.filters.year,
                           st.filters.ratingMin, st.filters.ratingMax)
  }

  /** The path each list query requests for the current state. */
  function RequestPath(st: State, m: Mode): string {
    match m
    case Discover => MoviesApi.DiscoverPath(DiscoverArgsOf(st))
    case Search => MoviesApi.SearchPath(st.search, Some(st.page))
    case Trending => MoviesApi.TrendingPath(Some(st.page))
  }

  /** The filtered request carries an optional parameter exactly when the
      page counts as filtered: the two truthiness/null tests agree. */
  lemma DiscoverRequestMatchesHasFilters(st: State)
    ensures MoviesApi.RouteOf(RequestPath(st, Discover)) == "/discover/movie"
    ensures SearchParams.Parse(MoviesApi.QueryOf(RequestPath(st, Discover)))
            == Some(MoviesApi.DiscoverParams(DiscoverArgsOf(st)))
    ensures |MoviesApi.DiscoverParams(DiscoverArgsOf(st))| > 3 <==> HasFilters(st.filters)
  {
    MoviesApi.DiscoverPathReadBack(DiscoverArgsOf(st));
    MoviesApi.DiscoverHasOptional(DiscoverArgsOf(st));
  }

  /** The search request carries the committed term and the current page. */
  lemma SearchRequestCarriesTerm(st: State)
    ensures MoviesApi.RouteOf(RequestPath(st, Search)) == "/search/movie"
    ensures SearchParams.Parse(MoviesApi.QueryOf(RequestPath(st, Search)))
            == Some([MoviesApi.P("query", st.search), MoviesApi.P("page", Text.IntToString(st.page)),
                     MoviesApi.P("include_adult", "false")])
  {
    MoviesApi.SearchPathReadBack(st.search, Some(st.page));
  }

  /** The trending request carries the current page. */
  lemma TrendingRequestCarriesPage(st: State)
    ensures MoviesApi.RouteOf(RequestPath(st, Trending)) == "/trending/movie/week"
    ensures SearchParams.Parse(MoviesApi.QueryOf(RequestPath(st, Trending)))
            == Some([MoviesApi.P("page", Text.IntToString(st.page))])
  {
    MoviesApi.TrendingPathReadBack(Some(st.page));
  }

  // ---------------------------------------------------------------------------
  // Query results (inputs)

  /** What one list query reports. */
  datatype QueryState = QueryState(
    data: Option<MoviesApi.Paged<MoviesApi.Movie>>,
    isLoading: bool,
    isError: bool,
    isFetching: bool)

  /** The three list queries. */
  datatype Env = Env(trending: QueryState, searching: QueryState, discover: QueryState)

  /** The flags and data of the query `mode` picks. */
  function Selected(env: Env, m: Mode): QueryState {
    match m
    case Discover => env.discover
    case Search => env.searching
    case Trending => env.trending
  }

  /** The server numbers pages from 1. */
  predicate PagesFromOne(q: QueryState) {
    q.data.Some? ==> q.data.value.page >= 1
  }

  /** Each of the three queries numbers its pages from 1. */
  predicate AllFromOne(env: Env) {
    PagesFromOne(env.trending) && PagesFromOne(env.searching) && PagesFromOne(env.discover)
  }

  /** `data?.total_pages ?? 1`. */
  function TotalOr1(q: QueryState): int {
    if q.data.Some? then q.data.value.totalPages else 1
  }

  /** The navigator's props: `data?.page ?? 1`, `data?.total_pages ?? 1`
      and the selected query's fetching flag. */
  function NavProps(q: QueryState): Paginator.Props {
    Paginator.Props(if q.data.Some? then q.data.value.page else 1, TotalOr1(q), Some(q.isFetching))
  }

  // ---------------------------------------------------------------------------
  // Events

  /** What the user can do: type in the search box, submit it with Enter
      or with the button, press "clear", pick a filter value, press "clear
      filters", or step to the previous or next page. */
  datatype Event =
    | TypeDraft(text: string)
    | SubmitEnter
    | SubmitButton
    | Clear
    | SetFilter(field: Filters.Field, payload: Option<int>)
    | ResetFilters
    | Prev
    | Next

  /** The payload a filter control dispatches for the text it holds: null
      for an empty control, `Number(text)` otherwise. `None` is a text that
      is not an integer numeral (NaN or a fraction), which the model's
      integer filters cannot hold. */
  function FilterPayload(text: string): (r: Option<Option<int>>)
    ensures text == "" ==> r == Some(None)
    ensures text != "" && Text.AllWhitespace(text) ==> r == Some(Some(0))
  {
    if text == "" then Some(None)
    else
      Text.JsNumberOfBlank(if Text.AllWhitespace(text) then text else "");
      match Text.JsNumber(text)
      case None => None
      case Some(n) => Some(Some(n))
  }

  /** A control holding the numeral of a number dispatches that number. */
  lemma FilterPayloadOfNumeral(n: int)
    ensures FilterPayload(Text.IntToString(n)) == Some(Some(n))
  {
    Text.JsNumberOfIntToString(n);
  }

  /** The clear button is on screen while searching or filtered. */
  predicate ClearShown(st: State) {
    IsSearching(st.search) || HasFilters(st.filters)
  }

  /** The navigator is on screen once the selected query neither loads nor
      failed. */
  predicate NavShown(q: QueryState) {
    !q.isLoading && !q.isError
  }

  /** Whether an event can happen: the search, clear and clear-filters
      buttons are disabled while the selected query fetches (Enter in the
      box is not), and the navigator's buttons follow its own rules. */
  predicate Enabled(st: State, q: QueryState, e: Event) {
    match e
    case TypeDraft(_) => true
    case SubmitEnter => true
    case SubmitButton => !q.isFetching
    case Clear => ClearShown(st) && !q.isFetching
    case SetFilter(_, _) => true
    case ResetFilters => !q.isFetching
    case Prev => NavShown(q) && !Paginator.Render(NavProps(q)).prevDisabled
    case Next => NavShown(q) && !Paginator.Render(NavProps(q)).nextDisabled
  }

  /** `handleSearch`: commits the trimmed draft and goes back to page 1;
      the draft and the filters stay as they are. */
  function HandleSearch(st: State): (r: State)
    ensures r.page == 1 && r.draft == st.draft && r.filters == st.filters
    ensures r.search == Text.Trim(st.draft)
    ensures IsSearching(r.search) <==> !Text.AllWhitespace(st.draft)
  {
    Text.TrimEmptyIff(st.draft);
    st.(page := 1, search := Text.Trim(st.draft))
  }

  /** `handleClear`: empties the draft and the term and goes back to page
      1; the filters are the store's and stay as they are. */
  function HandleClear(st: State): (r: State)
    ensures r.page == 1 && r.draft == [] && r.search == [] && r.filters == st.filters
    ensures ModeOf(r) == (if HasFilters(st.filters) then Discover else Trending)
  {
    State(1, "", "", st.filters)
  }

  /** The effect on the four filter fields: when a render sees a filter
      record different from the previous render's and the new one counts
      as filtered, the page goes back to 1. */
  function FilterEffect(before: Filters.FiltersState, st: State): (r: State)
    ensures r.filters == st.filters && r.draft == st.draft && r.search == st.search
    ensures before == st.filters ==> r.page == st.page
    ensures before != st.filters ==> r.page == (if HasFilters(st.filters) then 1 else st.page)
  {
    if before != st.filters && HasFilters(st.filters) then st.(page := 1) else st
  }

  /** The handler of an enabled event, before the effect runs. */
  function Handle(st: State, q: QueryState, e: Event): State {
    match e
    case TypeDraft(t) => st.(draft := t)
    case SubmitEnter => HandleSearch(st)
    case SubmitButton => HandleSearch(st)
    case Clear => HandleClear(st)
    case SetFilter(f, p) => st.(filters := Filters.Reduce(st.filters, Filters.Set(f, p)))
    case ResetFilters => st.(filters := Filters.Reduce(st.filters, Filters.Reset), page := 1)
    case Prev => st.(page := if st.page - 1 < 1 then 1 else st.page - 1)
    case Next => st.(page := if TotalOr1(q) < st.page + 1 then TotalOr1(q) else st.page + 1)
  }

  /** One event: nothing happens when it is disabled; otherwise its handler
      runs, then the filter effect. */
  function Step(st: State, env: Env, e: Event): State {
    var q := Selected(env, ModeOf(st));
    if Enabled(st, q, e) then FilterEffect(st.filters, Handle(st, q, e)) else st
  }

  /** Submitting twice in a row is submitting once. */
  lemma SubmitIdempotent(st: State)
    ensures HandleSearch(HandleSearch(st)) == HandleSearch(st)
  {
    Text.TrimIdempotent(st.draft);
  }

  /** Submitting a blank draft ends a search just as clearing does, except
      that the draft is kept. */
  lemma BlankSubmitIsClear(st: State)
    requires Text.AllWhitespace(st.draft)
    ensures HandleSearch(st).search == HandleClear(st).search
    ensures HandleSearch(st).page == HandleClear(st).page
    ensures ModeOf(HandleSearch(st)) == ModeOf(HandleClear(st))
  {
    Text.TrimEmptyIff(st.draft);
  }

  /** Picking a filter value that changes the record while the result is
      filtered goes back to page 1; picking the value already there changes
      nothing at all. */
  lemma SetFilterPage(st: State, env: Env, f: Filters.Field, p: Option<int>)
    ensures var r := Step(st, env, SetFilter(f, p));
            r.filters == Filters.Reduce(st.filters, Filters.Set(f, p))
            && r.draft == st.draft && r.search == st.search
    ensures var r := Step(st, env, SetFilter(f, p));
            r.filters != st.filters && HasFilters(r.filters) ==> r.page == 1
    ensures Filters.Get(st.filters, f) == p ==> Step(st, env, SetFilter(f, p)) == st
  {
    var nf := Filters.Reduce(st.filters, Filters.Set(f, p));
    SetFilterUnfolds(st, env, f, p);
    if Filters.Get(st.filters, f) == p {
      Filters.FieldsDetermineState(nf, st.filters);
    }
  }

  /** A filter pick is always enabled: the step is the reducer followed by
      the effect. */
  lemma SetFilterUnfolds(st: State, env: Env, f: Filters.Field, p: Option<int>)
    ensures Step(st, env, SetFilter(f, p))
            == FilterEffect(st.filters, st.(filters := Filters.Reduce(st.filters, Filters.Set(f, p))))
  {
  }

  /** Clearing a filter so that nothing is filtered keeps the page. */
  lemma UnfilterKeepsPage(st: State, env: Env, f: Filters.Field)
    requires !HasFilters(Filters.Reduce(st.filters, Filters.Set(f, None)))
    ensures Step(st, env, SetFilter(f, None)).page == st.page
  {
  }

  /** "Clear filters", when enabled, empties the record, returns to page 1
      and leaves the search alone, so the page falls back to the search or
      the trending list. */
  lemma ResetFiltersStep(st: State, env: Env)
    requires !Selected(env, ModeOf(st)).isFetching
    ensures var r := Step(st, env, ResetFilters);
            r.filters == Filters.Initial && r.page == 1 && r.search == st.search
            && r.draft == st.draft && ModeOf(r) != Discover
  {
    Filters.ResetIdempotent(st.filters);
  }

  /** The previous button, when enabled, steps back one page with a floor
      of 1; when disabled it does nothing. It never leaves page 1 behind,
      and never moves forward. */
  lemma PrevInRange(st: State, env: Env)
    requires st.page >= 1
    ensures var q := Selected(env, ModeOf(st));
            Enabled(st, q, Prev) ==>
              Step(st, env, Prev).page == (if st.page - 1 < 1 then 1 else st.page - 1)
    ensures !Enabled(st, Selected(env, ModeOf(st)), Prev) ==> Step(st, env, Prev) == st
    ensures 1 <= Step(st, env, Prev).page <= st.page
  {
  }

  /** The next button, when enabled, steps forward one page with a ceiling
      of the result's page count (1 when unknown); when disabled it does
      nothing. From a page at least 1 it never yields a page below 1 (the
      server numbering its pages from 1). */
  lemma NextInRange(st: State, env: Env)
    requires st.page >= 1 && PagesFromOne(Selected(env, ModeOf(st)))
    ensures var q := Selected(env, ModeOf(st));
            Enabled(st, q, Next) ==>
              Step(st, env, Next).page == (if TotalOr1(q) < st.page + 1 then TotalOr1(q) else st.page + 1)
    ensures !Enabled(st, Selected(env, ModeOf(st)), Next) ==> Step(st, env, Next) == st
    ensures var r := Step(st, env, Next);
            r.page >= 1 && (r.page == st.page || r.page <= TotalOr1(Selected(env, ModeOf(st))))
  {
  }

  /** The invariant every reachable state keeps: a positive page and a
      committed term that is already trimmed. */
  predicate Good(st: State) {
    st.page >= 1 && Text.Trimmed(st.search)
  }

  /** The invariant's term is one `trim` leaves unchanged. */
  lemma GoodSearchIsTrimmed(st: State)
    requires Good(st)
    ensures Text.Trim(st.search) == st.search
  {
    Text.TrimmedIff(st.search);
  }

  lemma StartIsGood()
    ensures Good(Start)
  {
  }

  /** An event commits the trimmed draft, the empty term, or nothing new. */
  lemma StepSearch(st: State, env: Env, e: Event)
    ensures var r := Step(st, env, e);
            r.search == st.search || r.search == Text.Trim(st.draft) || r.search == ""
  {
  }

  /** No event takes the page below 1 when the server numbers its pages
      from 1. */
  lemma StepPage(st: State, env: Env, e: Event)
    requires st.page >= 1 && PagesFromOne(Selected(env, ModeOf(st)))
    ensures Step(st, env, e).page >= 1
  {
    if e.Next? {
      NextInRange(st, env);
    }
  }

  /** Every event, enabled or not, keeps the invariant when the server
      numbers pages from 1. */
  lemma StepKeepsGood(st: State, env: Env, e: Event)
    requires Good(st) && AllFromOne(env)
    ensures Good(Step(st, env, e))
  {
    StepSearch(st, env, e);
    StepPage(st, env, e);
  }

  /** Runs events one after another, each against the query results of its
      own moment. */
  function Run(st: State, trace: seq<(Env, Event)>): State
    decreases |trace|
  {
    if trace == [] then st else Run(Step(st, trace[0].0, trace[0].1), trace[1..])
  }

  /** No run of events leaves page 1 behind or commits an untrimmed term. */
  lemma {:induction false} RunKeepsGood(st: State, trace: seq<(Env, Event)>)
    requires Good(st)
    requires forall i :: 0 <= i < |trace| ==> AllFromOne(trace[i].0)
    ensures Good(Run(st, trace))
    decreases |trace|
  {
    if trace != [] {
      var env, e := trace[0].0, trace[0].1;
      assert AllFromOne(env);
      StepKeepsGood(st, env, e);
      RunTail(st, trace);
      RunKeepsGood(Step(st, env, e), trace[1..]);
    }
  }

  lemma RunTail(st: State, trace: seq<(Env, Event)>)
    requires trace != []
    requires forall i :: 0 <= i < |trace| ==> AllFromOne(trace[i].0)
    ensures Run(st, trace) == Run(Step(st, trace[0].0, trace[0].1), trace[1..])
    ensures forall i :: 0 <= i < |trace[1..]| ==> AllFromOne(trace[1..][i].0)
  {
  }

  // ---------------------------------------------------------------------------
  // Rendering

  /** At most this many cards are shown. */
  const MaxCards: nat := 18

  /** What the body of the page shows: twelve placeholder cards, a failure
      box with a retry button, or the results. */
  datatype Body =
    | Skeleton(cells: nat)
    | Failure(message: string)
    | Results(notice: Option<string>, cards: seq<MoviesApi.Movie>, nav: Paginator.View)

  /** `data?.results.slice(0, 18)`. */
  function Cards(data: Option<MoviesApi.Paged<MoviesApi.Movie>>): (r: seq<MoviesApi.Movie>)
    ensures data.None? ==> r == []
    ensures data.Some? ==> |r| == (if |data.value.results| < MaxCards then |data.value.results| else MaxCards)
    ensures data.Some? ==> r == data.value.results[..|r|]
  {
    if data.None? then [] else Text.Take(data.value.results, MaxCards)
  }

  /** The failure text of each list. */
  function FailureMessage(m: Mode): string {
    match m
    case Discover => "No fue posible cargar los resultados con filtros."
    case Search => "No fue posible cargar los resultados."
    case Trending => "Hubo un problema al cargar las tendencias."
  }

  /** Each list fails with its own text. */
  lemma FailureMessageDistinct(m1: Mode, m2: Mode)
    ensures FailureMessage(m1) == FailureMessage(m2) <==> m1 == m2
  {
  }

  const FilteredNotice: string := "No se encontraron películas con esos filtros."
  const QuotePrefix: string := "No se encontraron películas para “"
  const QuoteSuffix: string := "”."

  /** The notice for an empty result. Outside the filtered list it quotes
      the committed term, even on the trending list where that term is
      blank. */
  function EmptyNotice(m: Mode, search: string): (r: string)
    ensures m == Discover ==> r == FilteredNotice
    ensures m != Discover ==>
              |r| == |QuotePrefix| + |search| + |QuoteSuffix|
              && r[..|QuotePrefix|] == QuotePrefix
              && r[|QuotePrefix|..|QuotePrefix| + |search|] == search
              && r[|QuotePrefix| + |search|..] == QuoteSuffix
  {
    if m == Discover then FilteredNotice
    else QuotePrefix + search + QuoteSuffix
  }

  /** The page body. Loading wins over failure, failure over results; an
      empty notice appears when the server reports zero results. */
  function Render(st: State, env: Env): (b: Body)
    ensures var q := Selected(env, ModeOf(st));
            (b.Skeleton? <==> q.isLoading)
            && (b.Failure? <==> q.isError && !q.isLoading)
            && (b.Results? <==> !q.isLoading && !q.isError)
    ensures b.Skeleton? ==> b.cells == 12
    ensures b.Results? ==> |b.cards| <= MaxCards
    ensures var q := Selected(env, ModeOf(st));
            b.Results? ==> (b.notice.Some? <==> q.data.Some? && q.data.value.totalResults == 0)
    ensures var q := Selected(env, ModeOf(st));
            b.Results? ==> b.cards == Cards(q.data) && b.nav == Paginator.Render(NavProps(q))
    ensures b.Failure? ==> b.message == FailureMessage(ModeOf(st))
    ensures b.Results? && b.notice.Some? ==> b.notice.value == EmptyNotice(ModeOf(st), st.search)
  {
    var m := ModeOf(st);
    var q := Selected(env, m);
    if q.isLoading then Skeleton(12)
    else if q.isError then Failure(FailureMessage(m))
    else
      var notice := if q.data.Some? && q.data.value.totalResults == 0
                    then Some(EmptyNotice(m, st.search)) else None;
      Results(notice, Cards(q.data), Paginator.Render(NavProps(q)))
  }

  /** The navigator shown with the results lets the user click exactly the
      steps `Step` performs. */
  lemma NavMatchesEnabled(st: State, env: Env)
    requires Render(st, env).Results?
    ensures !Render(st, env).nav.prevDisabled <==> Enabled(st, Selected(env, ModeOf(st)), Prev)
    ensures !Render(st, env).nav.nextDisabled <==> Enabled(st, Selected(env, ModeOf(st)), Next)
  {
  }
}
