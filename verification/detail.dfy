/** The detail view (src/pages/MoviesDetail.tsx) and the link that leads to
    it from a card (src/components/movieCard.tsx): how the `:id` segment
    becomes a request or an "invalid id" page, which of the four pages is
    shown, and what the movie page derives from the response. The request
    itself is not run here: its loading and error flags and its data are
    inputs. */
module Detail {
  import opened Wrappers
  import Text
  import MoviesApi

  // ---------------------------------------------------------------------------
  // The response

  datatype Genre = Genre(id: int, name: string)

  datatype CastMember = CastMember(id: int, name: string, character: string, profilePath: Option<string>)

  datatype CrewMember = CrewMember(id: int, name: string, job: string)

  /** `credits`: the cast list may be missing, the crew list may not. */
  datatype Credits = Credits(cast: Option<seq<CastMember>>, crew: seq<CrewMember>)

  /** The `getMovieFull` response; every field the view reads through
      optional chaining is optional here. `voteAverage` is left out: it is
      a float and only shown through `toFixed`. */
  datatype MovieFull = MovieFull(
    id: int,
    title: Option<string>,
    posterPath: Option<string>,
    releaseDate: Option<string>,
    runtime: Option<int>,
    genres: Option<seq<Genre>>,
    overview: Option<string>,
    credits: Option<Credits>)

  /** What the detail query reports. */
  datatype Query = Query(data: Option<MovieFull>, isLoading: bool, isError: bool)

  // ---------------------------------------------------------------------------
  // The id guard

  /** `Number(id)` for the route parameter; `None` (NaN) when the parameter
      is absent or is not a numeral. */
  function MovieId(id: Option<string>): (r: Option<int>)
    ensures id.None? ==> r.None?
    ensures id.Some? && Text.AllWhitespace(id.value) ==> r == Some(0)
  {
    if id.None? then None
    else
      Text.JsNumberOfBlank(if Text.AllWhitespace(id.value) then id.value else "");
      Text.JsNumber(id.value)
  }

  /** `!id || Number.isNaN(Number(id))`: an absent or empty parameter, or
      one that is not a number, skips the request. */
  predicate Skip(id: Option<string>) {
    id.None? || id.value == "" || MovieId(id).None?
  }

  /** A request goes out exactly when the parameter reads as a number; a
      blank but non-empty parameter reads as 0 and is requested. */
  lemma SkipIffNoNumber(id: Option<string>)
    ensures !Skip(id) <==> (id.Some? && id.value != "" && MovieId(id).Some?)
    ensures id.Some? && id.value != "" && Text.AllWhitespace(id.value) ==> !Skip(id) && MovieId(id) == Some(0)
  {
  }

  /** Under the integer-only reading of `Number` (`Text.JsNumber`), a
      parameter that ends in something other than a digit or whitespace
      is not a number, so it is skipped. */
  lemma NonNumeralSkipped(id: string)
    requires id != [] && !Text.IsDigit(id[|id| - 1]) && !Text.IsWhitespace(id[|id| - 1])
    ensures Skip(Some(id))
  {
    var t := Text.Trim(id);
    if t != [] {
      // The trim keeps the last character, which is not a digit.
      assert t[|t| - 1] == id[|id| - 1] by {
        var k :| 0 <= k <= |id| - |t| && t == id[k..k + |t|]
                 && Text.AllWhitespace(id[..k]) && Text.AllWhitespace(id[k + |t|..]);
        if k + |t| < |id| {
          assert id[k + |t|..][|id| - 1 - (k + |t|)] == id[|id| - 1];
        }
      }
    }
  }

  // ---------------------------------------------------------------------------
  // The page

  /** The movie page: poster URL, title, year, runtime split into hours
      and minutes, genre list, synopsis, director and the first cast
      cards. An absent part is `None`. */
  datatype MoviePage = MoviePage(
    poster: string,
    title: Option<string>,
    year: Option<string>,
    runtime: Option<(int, int)>,
    genres: Option<string>,
    overview: string,
    director: Option<string>,
    cast: seq<CastCard>)

  datatype CastCard = CastCard(name: string, character: string, image: string)

  /** The four pages the view can show. */
  datatype Page = Invalid | Loading | Failed | Shown(movie: MoviePage)

  /** An invalid id wins over everything, then loading, then failure. */
  function Render(id: Option<string>, q: Query): (p: Page)
    ensures p.Invalid? <==> Skip(id)
    ensures p.Loading? <==> !Skip(id) && q.isLoading
    ensures p.Failed? <==> !Skip(id) && !q.isLoading && q.isError
    ensures p.Shown? <==> !Skip(id) && !q.isLoading && !q.isError
    ensures p.Shown? ==> p.movie == MoviePageOf(q.data)
  {
    if Skip(id) then Invalid
    else if q.isLoading then Loading
    else if q.isError then Failed
    else Shown(MoviePageOf(q.data))
  }

  /** A skipped id shows the same page whatever the query reports. */
  lemma InvalidIgnoresQuery(id: Option<string>, q1: Query, q2: Query)
    requires Skip(id)
    ensures Render(id, q1) == Render(id, q2) == Invalid
  {
  }

  /** The shown movie. The runtime slot is the corrected one: a runtime of
      0 shows nothing, where the code as written shows a stray 0
      (`RuntimeAsWritten`). */
  function MoviePageOf(data: Option<MovieFull>): MoviePage {
    var credits := if data.Some? then data.value.credits else None;
    MoviePage(
      ImageUrl("w500", if data.Some? then data.value.posterPath else None),
      if data.Some? then data.value.title else None,
      Year(if data.Some? then data.value.releaseDate else None),
      Runtime(if data.Some? then data.value.runtime else None),
      GenresLine(if data.Some? then data.value.genres else None),
      Overview(if data.Some? then data.value.overview else None),
      DirectorLine(credits),
      CastCards(credits))
  }

  // ---------------------------------------------------------------------------
  // Derived parts

  /** The base of every image URL. */
  const ImageBase: string := "https://image.tmdb.org/t/p/"

  const Placeholder: string := "/placeholder.jpg"

  /** `path ? base + size + path : "/placeholder.jpg"`: a missing or empty
      path falls back to the placeholder. */
  function ImageUrl(size: string, path: Option<string>): (r: string)
    ensures path.Some? && path.value != "" ==>
              |r| == |ImageBase| + |size| + |path.value| && r[..|ImageBase|] == ImageBase
              && r[|ImageBase|..|ImageBase| + |size|] == size && r[|ImageBase| + |size|..] == path.value
    ensures path.None? || path.value == "" ==> r == Placeholder
  {
    if path.Some? && path.value != "" then ImageBase + size + path.value else Placeholder
  }

  /** The size and the path come back out of an image URL, so distinct
      paths give distinct URLs and no real path gives the placeholder. */
  lemma ImageUrlInjective(size: string, a: string, b: string)
    requires a != "" && b != ""
    ensures ImageUrl(size, Some(a)) == ImageUrl(size, Some(b)) <==> a == b
    ensures ImageUrl(size, Some(a)) != Placeholder
  {
    var u := ImageUrl(size, Some(a));
    assert u[..|ImageBase|] == ImageBase;
  }

  /** `release_date?.slice(0, 4)`: the first four characters, or all of a
      shorter date. */
  function Year(date: Option<string>): (r: Option<string>)
    ensures r.Some? <==> date.Some?
    ensures date.Some? ==> |r.value| == (if |date.value| < 4 then |date.value| else 4)
                           && r.value == date.value[..|r.value|]
  {
    if date.None? then None else Some(Text.Take(date.value, 4))
  }

  /** JavaScript's `a % 60`: the remainder takes the sign of the dividend. */
  function JsRem60(a: int): (r: int)
    ensures a >= 0 ==> 0 <= r < 60
    ensures a < 0 ==> -60 < r <= 0
    ensures (a - r) % 60 == 0
  {
    if a >= 0 then a % 60 else -((-a) % 60)
  }

  /** `Math.floor(r / 60)` and `r % 60`, shown only for a runtime that is
      present and non-zero: the intended page, where a runtime of 0 shows
      nothing (`RuntimeAsWritten` is the page as written). */
  function Runtime(runtime: Option<int>): (r: Option<(int, int)>)
    ensures r.Some? <==> runtime.Some? && runtime.value != 0
  {
    if runtime.Some? && runtime.value != 0 then
      Some((runtime.value / 60, JsRem60(runtime.value)))
    else None
  }

  /** What `{runtime && (<line>)}` puts on the page: nothing for a missing
      runtime, the line for a non-zero one, and for a runtime of 0 the
      number 0 itself, which React renders as text. */
  datatype RuntimeSlot = Empty | Stray(number: int) | Line(hours: int, minutes: int)

  /** The runtime slot as the page renders it. */
  function RuntimeAsWritten(runtime: Option<int>): (r: RuntimeSlot)
    ensures r.Empty? <==> runtime.None?
    ensures r.Stray? <==> runtime == Some(0)
    ensures r.Stray? ==> r.number == 0
    ensures r.Line? ==> Runtime(runtime) == Some((r.hours, r.minutes))
  {
    if runtime.None? then Empty
    else if runtime.value == 0 then Stray(0)
    else Line(runtime.value / 60, JsRem60(runtime.value))
  }

  /** A runtime of 0 puts a stray "0" on the page, where the intended page
      (`Runtime`) shows nothing; every other runtime renders alike. */
  lemma ZeroRuntimeShowsStrayZero(runtime: Option<int>)
    ensures RuntimeAsWritten(Some(0)) == Stray(0) && Runtime(Some(0)) == None
    ensures runtime != Some(0) ==>
              (RuntimeAsWritten(runtime).Line? <==> Runtime(runtime).Some?)
  {
  }

  /** For a positive runtime the two numbers are exact hours and the
      minutes left over. */
  lemma RuntimeSplit(minutes: int)
    requires minutes > 0
    ensures var (h, m) := Runtime(Some(minutes)).value;
            h * 60 + m == minutes && 0 <= m < 60 && h >= 0
  {
  }

  /** For a negative runtime that is not a whole number of hours, floor
      division and a truncating remainder do not add back up: the sum is
      an hour short. */
  lemma NegativeRuntimeSplit(minutes: int)
    requires minutes < 0 && minutes % 60 != 0
    ensures var (h, m) := Runtime(Some(minutes)).value;
            h * 60 + m == minutes - 60 && -60 < m < 0
  {
    var h := minutes / 60;
    var q := (-minutes) / 60;
    var rr := (-minutes) % 60;
    assert -minutes == q * 60 + rr && 0 < rr < 60;
    assert minutes == (-q - 1) * 60 + (60 - rr);
    assert h == -q - 1;
  }

  /** `genres.map(g => g.name).join(" • ")`, shown whenever the list is
      present, even when it is empty. */
  function GenresLine(genres: Option<seq<Genre>>): (r: Option<string>)
    ensures r.Some? <==> genres.Some?
    ensures genres.Some? && genres.value == [] ==> r == Some("")
    ensures genres.Some? && |genres.value| == 1 ==> r == Some(genres.value[0].name)
  {
    if genres.None? then None else Some(Text.Join(Names(genres.value), " • "))
  }

  /** Every genre name can be read back from the line by splitting it on
      the separator, provided no name holds the bullet. */
  lemma GenresLineSplits(genres: seq<Genre>)
    requires genres != []
    requires forall i :: 0 <= i < |genres| ==> '•' !in genres[i].name
    ensures var parts := Text.SplitOn(GenresLine(Some(genres)).value, " • ");
            |parts| == |genres| && forall i :: 0 <= i < |genres| ==> parts[i] == genres[i].name
  {
    assert Text.MarkedAt(" • ", '•', 1);
    Text.SplitOnJoin(Names(genres), " • ", '•', 1);
  }

  function Names(gs: seq<Genre>): (r: seq<string>)
    ensures |r| == |gs| && forall i :: 0 <= i < |gs| ==> r[i] == gs[i].name
  {
    if gs == [] then [] else [gs[0].name] + Names(gs[1..])
  }

  const NoOverview: string := "Sin sinopsis disponible."

  /** `overview || "Sin sinopsis disponible."`: never empty. */
  function Overview(overview: Option<string>): (r: string)
    ensures r != ""
    ensures overview.Some? && overview.value != "" ==> r == overview.value
    ensures overview.None? || overview.value == "" ==> r == NoOverview
  {
    if overview.Some? && overview.value != "" then overview.value else NoOverview
  }

  /** The first crew member whose job is exactly "Director", if any. */
  function FirstDirector(crew: seq<CrewMember>): (r: Option<nat>)
    ensures r.None? ==> forall i :: 0 <= i < |crew| ==> crew[i].job != "Director"
    ensures r.Some? ==> r.value < |crew| && crew[r.value].job == "Director"
                        && forall i :: 0 <= i < r.value ==> crew[i].job != "Director"
    decreases |crew|
  {
    if crew == [] then None
    else if crew[0].job == "Director" then Some(0)
    else match FirstDirector(crew[1..])
      case None => None
      case Some(i) => Some(i + 1)
  }

  /** `credits?.crew.find(c => c.job === "Director")?.name`, shown only
      when that name is non-empty. */
  function DirectorLine(credits: Option<Credits>): (r: Option<string>)
    ensures r.Some? ==> (r.value != "" && credits.Some?
            && exists i :: 0 <= i < |credits.value.crew| && credits.value.crew[i].job == "Director"
                           && credits.value.crew[i].name == r.value
                           && forall j :: 0 <= j < i ==> credits.value.crew[j].job != "Director")
    ensures r.None? && credits.Some? ==>
              forall i :: 0 <= i < |credits.value.crew| && credits.value.crew[i].job == "Director" ==>
                (exists j :: 0 <= j <= i && credits.value.crew[j].job == "Director"
                             && credits.value.crew[j].name == "")
  {
    if credits.None? then None
    else match FirstDirector(credits.value.crew)
      case None => None
      case Some(i) =>
        var name := credits.value.crew[i].name;
        if name == "" then None else Some(name)
  }

  /** The number of cast cards shown at most. */
  const MaxCast: nat := 6

  /** `credits?.cast?.slice(0, 6) || []`, each with its profile image. */
  function CastCards(credits: Option<Credits>): (r: seq<CastCard>)
    ensures credits.None? || credits.value.cast.None? ==> r == []
    ensures credits.Some? && credits.value.cast.Some? ==>
              var cast := credits.value.cast.value;
              |r| == (if |cast| < MaxCast then |cast| else MaxCast)
              && forall i :: 0 <= i < |r| ==> r[i] == Card(cast[i])
  {
    if credits.None? || credits.value.cast.None? then []
    else Cards(Text.Take(credits.value.cast.value, MaxCast))
  }

  function Card(c: CastMember): CastCard {
    CastCard(c.name, c.character, ImageUrl("w185", c.profilePath))
  }

  function Cards(cs: seq<CastMember>): (r: seq<CastCard>)
    ensures |r| == |cs| && forall i :: 0 <= i < |cs| ==> r[i] == Card(cs[i])
  {
    if cs == [] then [] else [Card(cs[0])] + Cards(cs[1..])
  }

  // ---------------------------------------------------------------------------
  // From a card to the detail page

  /** The link of a card: `/movie/{id}`. */
  function CardLink(id: int): string {
    "/movie/" + Text.IntToString(id)
  }

  /** The route `/movie/:id`: a path made of `/movie/` and one non-empty
      segment yields that segment as the parameter. */
  function MatchMovieRoute(path: string): (r: Option<string>)
    ensures r.Some? ==> path == "/movie/" + r.value && r.value != "" && '/' !in r.value
  {
    if |path| > 7 && path[..7] == "/movie/" && '/' !in path[7..] then Some(path[7..]) else None
  }

  /** Every `/movie/` path with one non-empty segment matches, and the
      parameter is that segment. */
  lemma MatchMovieRouteOfSegment(seg: string)
    requires seg != "" && '/' !in seg
    ensures MatchMovieRoute("/movie/" + seg) == Some(seg)
  {
  }

  /** Following a card's link opens the detail page of that very movie: the
      route yields the numeral, the view reads it back as the card's id,
      does not skip it, and requests that movie under its own tag. */
  lemma CardLinkRoundTrip(id: int)
    ensures MatchMovieRoute(CardLink(id)) == Some(Text.IntToString(id))
    ensures !Skip(MatchMovieRoute(CardLink(id)))
    ensures MovieId(MatchMovieRoute(CardLink(id))) == Some(id)
    ensures MoviesApi.MovieFullTags(MovieId(MatchMovieRoute(CardLink(id))).value)
            == [MoviesApi.MovieTag(id)]
  {
    var s := Text.IntToString(id);
    var link := CardLink(id);
    assert link[..7] == "/movie/" && link[7..] == s;
    Text.JsNumberOfIntToString(id);
  }

  /** Distinct movies have distinct links. */
  lemma CardLinkInjective(a: int, b: int)
    ensures CardLink(a) == CardLink(b) <==> a == b
  {
    if CardLink(a) == CardLink(b) {
      CardLinkRoundTrip(a);
      CardLinkRoundTrip(b);
    }
  }
}
