/** The movie endpoints (src/features/api/moviesApi.ts): the request path
    each `query` builder produces and the cache tags each `providesTags`
    attaches. The HTTP transport and the cache itself are not modelled. */
module MoviesApi {
  import opened Wrappers
  import Text
  import Percent
  import SearchParams
  import Filters

  /** A movie as listings return it. `voteAverage` is kept as an opaque
      integer: the model does no floating point. */
  datatype Movie = Movie(
    id: int,
    title: string,
    posterPath: Option<string>,
    voteAverage: int,
    releaseDate: Option<string>)

  /** One page of results. */
  datatype Paged<T> = Paged(page: int, results: seq<T>, totalPages: int, totalResults: int)

  /** A cache tag: `{type: 'Movies', id: <collection>}` or
      `{type: 'Movie', id: <movie id>}`. */
  datatype Tag = Collection(name: string) | MovieTag(id: int)

  // ---------------------------------------------------------------------------
  // Request paths

  /** The part of a path after its first `?` (empty when there is none). */
  function QueryOf(path: string): string {
    match Text.IndexOf(path, '?')
    case None => ""
    case Some(i) => path[i + 1..]
  }

  /** The part of a path before its first `?`. */
  function RouteOf(path: string): string {
    match Text.IndexOf(path, '?')
    case None => path
    case Some(i) => path[..i]
  }

  lemma SplitAtQuestionMark(route: string, query: string)
    requires '?' !in route
    ensures RouteOf(route + "?" + query) == route
    ensures QueryOf(route + "?" + query) == query
  {
    Text.IndexOfAfter(route, '?', query);
    var p := route + "?" + query;
    assert p[..|route|] == route && p[|route| + 1..] == query;
  }

  /** `getTrending({page})`; the page defaults to 1. */
  function TrendingPath(page: Option<int>): string {
    "/trending/movie/week?page=" + Text.IntToString(page.GetOr(1))
  }

  /** `searchMovies({query, page})`; the page defaults to 1. */
  function SearchPath(query: string, page: Option<int>): string {
    "/search/movie?query=" + Percent.EncodeUriComponent(query)
    + "&page=" + Text.IntToString(page.GetOr(1)) + "&include_adult=false"
  }

  /** `getGenres()`: a fixed path, with a stray `&` before its one parameter. */
  const GenresPath: string := "/genre/movie/list?&language=es-ES"

  /** `getMovieFull(id)`. */
  function MovieFullPath(id: int): string {
    "/movie/" + Text.IntToString(id) + "?append_to_response=credits&language=es-ES"
  }

  /** The arguments of `discoverMovies`: every field may be absent. */
  datatype DiscoverArgs = DiscoverArgs(
    page: Option<int>,
    genreId: Option<int>,
    year: Option<int>,
    ratingMin: Option<int>,
    ratingMax: Option<int>)

  function P(n: string, v: string): SearchParams.Param {
    SearchParams.Param(n, v)
  }

  /** The three parameters every discover query sets first. */
  function FixedParams(page: Option<int>): seq<SearchParams.Param> {
    [P("page", Text.IntToString(page.GetOr(1))), P("include_adult", "false"),
     P("sort_by", "popularity.desc")]
  }

  /** One `if (test) params.set(name, String(value))` line of the builder. */
  datatype Conditional = Conditional(applies: bool, name: string, value: Option<int>)

  /** The builder's four conditional lines, in order: `with_genres` and
      `primary_release_year` test their value for truthiness,
      `vote_average.gte` and `vote_average.lte` test it against null. */
  function Conditionals(a: DiscoverArgs): seq<Conditional> {
    [Conditional(Filters.Truthy(a.genreId), "with_genres", a.genreId),
     Conditional(Filters.Truthy(a.year), "primary_release_year", a.year),
     Conditional(a.ratingMin.Some?, "vote_average.gte", a.ratingMin),
     Conditional(a.ratingMax.Some?, "vote_average.lte", a.ratingMax)]
  }

  /** The parameter a conditional line sets when its test passes. */
  function SetBy(c: Conditional): SearchParams.Param {
    P(c.name, Text.IntToString(c.value.GetOr(0)))
  }

  /** The `set` calls the conditional lines make, in order. */
  function Applied(cs: seq<Conditional>): seq<SearchParams.Param> {
    if cs == [] then []
    else (if cs[0].applies then [SetBy(cs[0])] else []) + Applied(cs[1..])
  }

  /** A name is set by the conditional lines exactly when one of the lines
      carrying it applies. */
  lemma {:induction false} AppliedNames(cs: seq<Conditional>, n: string)
    ensures n in SearchParams.Names(Applied(cs))
            <==> exists i :: 0 <= i < |cs| && cs[i].applies && cs[i].name == n
  {
    if cs != [] {
      var head := if cs[0].applies then [SetBy(cs[0])] else [];
      AppliedNames(cs[1..], n);
      SearchParams.NamesConcat(head, Applied(cs[1..]));
      if exists i :: 0 <= i < |cs| && cs[i].applies && cs[i].name == n {
        var i :| 0 <= i < |cs| && cs[i].applies && cs[i].name == n;
        if i > 0 {
          assert cs[1..][i - 1] == cs[i];
        }
      }
      if exists i :: 0 <= i < |cs[1..]| && cs[1..][i].applies && cs[1..][i].name == n {
        var i :| 0 <= i < |cs[1..]| && cs[1..][i].applies && cs[1..][i].name == n;
        assert cs[i + 1] == cs[1..][i];
      }
    }
  }

  /** Every line that applies contributes its parameter. */
  lemma {:induction false} AppliedHas(cs: seq<Conditional>, i: int)
    requires 0 <= i < |cs| && cs[i].applies
    ensures SetBy(cs[i]) in Applied(cs)
  {
    if i > 0 {
      assert cs[1..][i - 1] == cs[i];
      AppliedHas(cs[1..], i - 1);
    }
  }

  /** The conditional lines set nothing exactly when none applies. */
  lemma {:induction false} AppliedEmpty(cs: seq<Conditional>)
    ensures Applied(cs) == [] <==> forall i :: 0 <= i < |cs| ==> !cs[i].applies
  {
    if cs != [] {
      AppliedEmpty(cs[1..]);
      if !cs[0].applies && Applied(cs[1..]) == [] {
        forall i | 0 <= i < |cs|
          ensures !cs[i].applies
        {
          if i > 0 {
            assert cs[i] == cs[1..][i - 1];
          }
        }
      }
    }
  }

  /** Lines with distinct names set distinct names. */
  lemma {:induction false} AppliedDistinct(cs: seq<Conditional>)
    requires forall i, j :: 0 <= i < j < |cs| ==> cs[i].name != cs[j].name
    ensures SearchParams.Distinct(SearchParams.Names(Applied(cs)))
  {
    if cs != [] {
      var head := if cs[0].applies then [SetBy(cs[0])] else [];
      var rest := Applied(cs[1..]);
      forall i, j | 0 <= i < j < |cs[1..]|
        ensures cs[1..][i].name != cs[1..][j].name
      {
        assert cs[1..][i] == cs[i + 1] && cs[1..][j] == cs[j + 1];
      }
      AppliedDistinct(cs[1..]);
      AppliedNames(cs[1..], cs[0].name);
      forall i | 0 <= i < |cs[1..]|
        ensures cs[1..][i].name != cs[0].name
      {
        assert cs[1..][i] == cs[i + 1];
      }
      SearchParams.NamesConcat(head, rest);
      SearchParams.DistinctConcat(SearchParams.Names(head), SearchParams.Names(rest));
    }
  }

  /** Every `set` call the discover builder makes, in order. */
  function DiscoverSets(a: DiscoverArgs): seq<SearchParams.Param> {
    FixedParams(a.page) + Applied(Conditionals(a))
  }

  /** The `URLSearchParams` the discover builder fills: its `set` calls run
      on an empty list. */
  function DiscoverParams(a: DiscoverArgs): seq<SearchParams.Param> {
    SearchParams.SetAll([], DiscoverSets(a))
  }

  /** A line that carries a name no other line carries sets it exactly
      when it applies. */
  lemma AppliedNameAt(cs: seq<Conditional>, k: int)
    requires 0 <= k < |cs|
    requires forall i :: 0 <= i < |cs| && i != k ==> cs[i].name != cs[k].name
    ensures cs[k].name in SearchParams.Names(Applied(cs)) <==> cs[k].applies
  {
    AppliedNames(cs, cs[k].name);
  }

  lemma ConditionalsDistinct(a: DiscoverArgs)
    ensures forall i, j :: 0 <= i < j < |Conditionals(a)| ==>
              Conditionals(a)[i].name != Conditionals(a)[j].name
  {
  }

  /** None of the fixed names is set by a conditional line. */
  lemma FixedNotApplied(a: DiscoverArgs, n: string)
    requires n == "page" || n == "include_adult" || n == "sort_by"
    ensures n !in SearchParams.Names(Applied(Conditionals(a)))
  {
    var cs := Conditionals(a);
    AppliedNames(cs, n);
    assert forall i :: 0 <= i < |cs| ==> cs[i].name != n;
  }

  /** No name is set twice by the discover builder. */
  lemma DiscoverSetsDistinct(a: DiscoverArgs)
    ensures SearchParams.Distinct(SearchParams.Names(DiscoverSets(a)))
  {
    var fixed := SearchParams.Names(FixedParams(a.page));
    var applied := SearchParams.Names(Applied(Conditionals(a)));
    assert fixed == ["page", "include_adult", "sort_by"];
    ConditionalsDistinct(a);
    AppliedDistinct(Conditionals(a));
    FixedNotApplied(a, "page");
    FixedNotApplied(a, "include_adult");
    FixedNotApplied(a, "sort_by");
    SearchParams.DistinctConcat(fixed, applied);
    SearchParams.NamesConcat(FixedParams(a.page), Applied(Conditionals(a)));
  }

  /** Every `set` call names a parameter not set before, so each one
      appends: the list is the three fixed parameters followed by the
      conditional ones that apply, in call order. */
  lemma DiscoverParamsShape(a: DiscoverArgs)
    ensures DiscoverParams(a) == FixedParams(a.page) + Applied(Conditionals(a))
  {
    DiscoverSetsDistinct(a);
    SearchParams.SetAllDistinct(DiscoverSets(a));
  }

  /** Which parameters the discover query carries: `page`,
      `include_adult=false` and `sort_by=popularity.desc` first, in that
      order; `with_genres` and `primary_release_year` only for a truthy
      value (so not for 0); `vote_average.gte` and `vote_average.lte` for
      any non-null value (0 included). */
  lemma DiscoverParamNames(a: DiscoverArgs)
    ensures |DiscoverParams(a)| >= 3 && DiscoverParams(a)[..3] == FixedParams(a.page)
    ensures "with_genres" in SearchParams.Names(DiscoverParams(a)) <==> Filters.Truthy(a.genreId)
    ensures "primary_release_year" in SearchParams.Names(DiscoverParams(a)) <==> Filters.Truthy(a.year)
    ensures "vote_average.gte" in SearchParams.Names(DiscoverParams(a)) <==> a.ratingMin.Some?
    ensures "vote_average.lte" in SearchParams.Names(DiscoverParams(a)) <==> a.ratingMax.Some?
  {
    DiscoverParamsShape(a);
    assert (FixedParams(a.page) + Applied(Conditionals(a)))[..3] == FixedParams(a.page);
    DiscoverHasName(a, 0);
    DiscoverHasName(a, 1);
    DiscoverHasName(a, 2);
    DiscoverHasName(a, 3);
  }

  /** The discover query carries the name of a conditional line exactly
      when that line applies. */
  lemma DiscoverHasName(a: DiscoverArgs, k: int)
    requires 0 <= k < 4
    ensures Conditionals(a)[k].name in SearchParams.Names(DiscoverParams(a))
            <==> Conditionals(a)[k].applies
  {
    var cs := Conditionals(a);
    DiscoverParamsShape(a);
    SearchParams.NamesConcat(FixedParams(a.page), Applied(cs));
    assert SearchParams.Names(FixedParams(a.page)) == ["page", "include_adult", "sort_by"];
    ConditionalsDistinct(a);
    AppliedNameAt(cs, k);
  }

  /** Each conditional parameter present carries `String` of its value. */
  lemma DiscoverParamValues(a: DiscoverArgs)
    ensures Filters.Truthy(a.genreId) ==> P("with_genres", Text.IntToString(a.genreId.value)) in DiscoverParams(a)
    ensures Filters.Truthy(a.year) ==> P("primary_release_year", Text.IntToString(a.year.value)) in DiscoverParams(a)
    ensures a.ratingMin.Some? ==> P("vote_average.gte", Text.IntToString(a.ratingMin.value)) in DiscoverParams(a)
    ensures a.ratingMax.Some? ==> P("vote_average.lte", Text.IntToString(a.ratingMax.value)) in DiscoverParams(a)
  {
    var cs := Conditionals(a);
    DiscoverParamsShape(a);
    if cs[0].applies { AppliedHas(cs, 0); }
    if cs[1].applies { AppliedHas(cs, 1); }
    if cs[2].applies { AppliedHas(cs, 2); }
    if cs[3].applies { AppliedHas(cs, 3); }
  }

  /** The query carries a conditional parameter exactly when one of the
      four values passes the builder's own test. */
  lemma DiscoverHasOptional(a: DiscoverArgs)
    ensures |DiscoverParams(a)| > 3 <==>
      Filters.Truthy(a.genreId) || Filters.Truthy(a.year) || a.ratingMin.Some? || a.ratingMax.Some?
  {
    var cs := Conditionals(a);
    DiscoverParamsShape(a);
    AppliedEmpty(cs);
    if !cs[0].applies && !cs[1].applies && !cs[2].applies && !cs[3].applies {
      assert forall i :: 0 <= i < |cs| ==> !cs[i].applies;
    }
  }

  /** A route followed by `?` and a serialized parameter list. */
  function WithQuery(route: string, ps: seq<SearchParams.Param>): string {
    route + "?" + SearchParams.Serialize(ps)
  }

  /** `discoverMovies(args)`. */
  function DiscoverPath(a: DiscoverArgs): string {
    WithQuery("/discover/movie", DiscoverParams(a))
  }

  // ---------------------------------------------------------------------------
  // What the server reads back from each path

  /** The server reads the trending page back from the path. */
  lemma TrendingPathReadBack(page: Option<int>)
    ensures RouteOf(TrendingPath(page)) == "/trending/movie/week"
    ensures SearchParams.Parse(QueryOf(TrendingPath(page)))
            == Some([P("page", Text.IntToString(page.GetOr(1)))])
    ensures Text.JsNumber(Text.IntToString(page.GetOr(1))) == Some(page.GetOr(1))
  {
    var s := Text.IntToString(page.GetOr(1));
    TrendingShape(s);
    SplitAtQuestionMark("/trending/movie/week", "page" + "=" + s);
    TrendingQueryParse(s);
    NumeralIsPlain(page.GetOr(1));
    Text.JsNumberOfIntToString(page.GetOr(1));
  }

  lemma TrendingShape(s: string)
    ensures "/trending/movie/week?page=" + s == "/trending/movie/week" + "?" + ("page" + "=" + s)
  {
    assert "/trending/movie/week?page=" == "/trending/movie/week" + "?" + "page" + "=";
  }

  lemma TrendingQueryParse(s: string)
    requires '&' !in s && Percent.KeepsAll(Percent.FormUrlencoded, s)
    ensures SearchParams.Parse("page" + "=" + s) == Some([P("page", s)])
  {
    PlainPair("page", s);
    ParseOne("page" + "=" + s, P("page", s));
  }

  /** Trending paths coincide exactly when their effective pages do. */
  lemma TrendingPathInjective(a: Option<int>, b: Option<int>)
    ensures TrendingPath(a) == TrendingPath(b) <==> a.GetOr(1) == b.GetOr(1)
  {
    if TrendingPath(a) == TrendingPath(b) {
      TrendingPathReadBack(a);
      TrendingPathReadBack(b);
    }
  }

  lemma NumeralIsPlain(n: int)
    ensures Percent.KeepsAll(Percent.FormUrlencoded, Text.IntToString(n))
    ensures '&' !in Text.IntToString(n) && '=' !in Text.IntToString(n)
  {
  }

  /** The server reads back the search text exactly as typed (whatever
      characters it holds), then the page, then `include_adult=false`. */
  lemma SearchPathReadBack(query: string, page: Option<int>)
    ensures RouteOf(SearchPath(query, page)) == "/search/movie"
    ensures SearchParams.Parse(QueryOf(SearchPath(query, page)))
            == Some([P("query", query), P("page", Text.IntToString(page.GetOr(1))),
                     P("include_adult", "false")])
  {
    var enc := Percent.EncodeUriComponent(query);
    var s := Text.IntToString(page.GetOr(1));
    var q := ("query" + "=" + enc) + "&" + ("page" + "=" + s) + "&" + IncludeAdult;
    SearchPathShape(enc, s);
    SplitAtQuestionMark("/search/movie", q);
    Percent.EncodedHasNoDelimiters(Percent.UriComponent, query);
    Percent.EncodeRoundTrip(Percent.UriComponent, query);
    NumeralIsPlain(page.GetOr(1));
    IncludeAdultSegment();
    SearchQueryParse(query, enc, s, IncludeAdult);
  }

  lemma SearchQueryParse(query: string, enc: string, s: string, t: string)
    requires '&' !in enc && Percent.Decode(enc) == Some(query)
    requires '&' !in s && Percent.KeepsAll(Percent.FormUrlencoded, s)
    requires t != "" && '&' !in t && SearchParams.ParseSegment(t) == Some(P("include_adult", "false"))
    ensures SearchParams.Parse(("query" + "=" + enc) + "&" + ("page" + "=" + s) + "&" + t)
            == Some([P("query", query), P("page", s), P("include_adult", "false")])
  {
    PlainSegment("query", enc, query);
    PlainPair("page", s);
    ParseThree("query" + "=" + enc, "page" + "=" + s, t,
               P("query", query), P("page", s), P("include_adult", "false"));
  }

  const IncludeAdult: string := "include_adult" + "=" + "false"

  lemma IncludeAdultSegment()
    ensures IncludeAdult != "" && '&' !in IncludeAdult
    ensures SearchParams.ParseSegment(IncludeAdult) == Some(P("include_adult", "false"))
  {
    PlainPair("include_adult", "false");
  }

  /** The search template, regrouped as a route and three runs. */
  lemma SearchPathShape(enc: string, s: string)
    ensures "/search/movie?query=" + enc + "&page=" + s + "&include_adult=false"
            == "/search/movie" + "?" + (("query" + "=" + enc) + "&" + ("page" + "=" + s) + "&" + IncludeAdult)
  {
    assert "/search/movie?query=" == "/search/movie" + "?" + "query" + "=";
    assert "&page=" == "&" + "page" + "=";
    assert "&include_adult=false" == "&" + IncludeAdult;
    Regroup("/search/movie", "query", enc, "page", s, IncludeAdult);
  }

  lemma Regroup(r: string, n1: string, e1: string, n2: string, e2: string, t: string)
    ensures (r + "?" + n1 + "=") + e1 + ("&" + n2 + "=") + e2 + ("&" + t)
            == r + "?" + ((n1 + "=" + e1) + "&" + (n2 + "=" + e2) + "&" + t)
  {
  }

  /** A run `n=e` whose name needs no decoding and whose value decodes to
      `v` is read as the pair `(n, v)`. */
  lemma PlainSegment(n: string, e: string, v: string)
    requires '=' !in n && Percent.KeepsAll(Percent.FormUrlencoded, n)
    requires Percent.Decode(e) == Some(v)
    ensures SearchParams.ParseSegment(n + "=" + e) == Some(P(n, v))
  {
    SearchParams.ParsePlainSegment(n, e);
    SearchParams.PlainDecodes(n);
  }

  /** A run `n=v` where neither side needs escaping is read as `(n, v)`. */
  lemma PlainPair(n: string, v: string)
    requires '=' !in n && Percent.KeepsAll(Percent.FormUrlencoded, n)
    requires '&' !in v && Percent.KeepsAll(Percent.FormUrlencoded, v)
    ensures n + "=" + v != "" && '&' !in n + "=" + v
    ensures SearchParams.ParseSegment(n + "=" + v) == Some(P(n, v))
  {
    SearchParams.PlainDecodes(v);
    PlainSegment(n, v, v);
  }

  lemma ParseOne(x: string, p: SearchParams.Param)
    requires '&' !in x && x != ""
    requires SearchParams.ParseSegment(x) == Some(p)
    ensures SearchParams.Parse(x) == Some([p])
  {
    Text.SplitJoin([x], '&');
    SearchParams.ParseSegmentsCons(x, [], p, []);
    assert [x] + [] == [x] && [p] + [] == [p];
  }

  lemma ParseTwo(x: string, y: string, p: SearchParams.Param, q: SearchParams.Param)
    requires '&' !in x && '&' !in y && y != ""
    requires SearchParams.ParseSegment(y) == Some(q)
    ensures x != "" && SearchParams.ParseSegment(x) == Some(p) ==>
              SearchParams.Parse(x + "&" + y) == Some([p, q])
    ensures x == "" ==> SearchParams.Parse(x + "&" + y) == Some([q])
  {
    var segs := [x, y];
    assert segs[1..] == [y];
    assert Text.Join(segs, "&") == x + "&" + y;
    Text.SplitJoin(segs, '&');
    SearchParams.ParseSegmentsCons(y, [], q, []);
    assert [y] + [] == [y] && [q] + [] == [q];
    if x != "" && SearchParams.ParseSegment(x) == Some(p) {
      SearchParams.ParseSegmentsCons(x, [y], p, [q]);
      assert [x] + [y] == segs && [p] + [q] == [p, q];
    }
  }

  lemma ParseThree(x: string, y: string, z: string, p: SearchParams.Param,
                   q: SearchParams.Param, r: SearchParams.Param)
    requires '&' !in x && '&' !in y && '&' !in z
    requires x != "" && y != "" && z != ""
    requires SearchParams.ParseSegment(x) == Some(p)
    requires SearchParams.ParseSegment(y) == Some(q)
    requires SearchParams.ParseSegment(z) == Some(r)
    ensures SearchParams.Parse(x + "&" + y + "&" + z) == Some([p, q, r])
  {
    JoinThree(x, y, z);
    Text.SplitJoin([x, y, z], '&');
    ParseSegmentsThree(x, y, z, p, q, r);
  }

  lemma JoinThree(x: string, y: string, z: string)
    ensures Text.Join([x, y, z], "&") == x + "&" + y + "&" + z
  {
    assert [x, y, z][1..] == [y, z] && [y, z][1..] == [z];
    assert Text.Join([y, z], "&") == y + "&" + z;
    assert Text.Join([x, y, z], "&") == x + "&" + (y + "&" + z);
  }

  lemma ParseSegmentsThree(x: string, y: string, z: string, p: SearchParams.Param,
                           q: SearchParams.Param, r: SearchParams.Param)
    requires x != "" && y != "" && z != ""
    requires SearchParams.ParseSegment(x) == Some(p)
    requires SearchParams.ParseSegment(y) == Some(q)
    requires SearchParams.ParseSegment(z) == Some(r)
    ensures SearchParams.ParseSegments([x, y, z]) == Some([p, q, r])
  {
    SearchParams.ParseSegmentsCons(z, [], r, []);
    assert [z] + [] == [z] && [r] + [] == [r];
    SearchParams.ParseSegmentsCons(y, [z], q, [r]);
    assert [y] + [z] == [y, z] && [q] + [r] == [q, r];
    SearchParams.ParseSegmentsCons(x, [y, z], p, [q, r]);
    assert [x] + [y, z] == [x, y, z] && [p] + [q, r] == [p, q, r];
  }

  /** Search paths coincide exactly when the search text and the effective
      page do. */
  lemma SearchPathInjective(q1: string, p1: Option<int>, q2: string, p2: Option<int>)
    ensures SearchPath(q1, p1) == SearchPath(q2, p2) <==> q1 == q2 && p1.GetOr(1) == p2.GetOr(1)
  {
    if SearchPath(q1, p1) == SearchPath(q2, p2) {
      SearchPathReadBack(q1, p1);
      SearchPathReadBack(q2, p2);
      Text.JsNumberOfIntToString(p1.GetOr(1));
      Text.JsNumberOfIntToString(p2.GetOr(1));
    }
  }

  /** The server reads back exactly the parameters the builder set. */
  lemma DiscoverPathReadBack(a: DiscoverArgs)
    ensures RouteOf(DiscoverPath(a)) == "/discover/movie"
    ensures SearchParams.Parse(QueryOf(DiscoverPath(a))) == Some(DiscoverParams(a))
  {
    var ps := DiscoverParams(a);
    WithQueryReadBack("/discover/movie", ps);
    assert DiscoverPath(a) == WithQuery("/discover/movie", ps);
  }

  /** The route and the parameters of a path built by `WithQuery` are read
      back unchanged. */
  lemma WithQueryReadBack(route: string, ps: seq<SearchParams.Param>)
    requires '?' !in route
    ensures RouteOf(WithQuery(route, ps)) == route
    ensures SearchParams.Parse(QueryOf(WithQuery(route, ps))) == Some(ps)
  {
    SplitAtQuestionMark(route, SearchParams.Serialize(ps));
    SearchParams.SerializeRoundTrip(ps);
  }

  /** The movie id sits alone in the route and the credits are embedded. */
  lemma MovieFullPathReadBack(id: int)
    ensures RouteOf(MovieFullPath(id)) == "/movie/" + Text.IntToString(id)
    ensures SearchParams.Parse(QueryOf(MovieFullPath(id)))
            == Some([P("append_to_response", "credits"), P("language", "es-ES")])
  {
    var route := "/movie/" + Text.IntToString(id);
    MovieFullQuery();
    assert MovieFullPath(id) == route + "?" + (AppendCredits + "&" + LanguageEs);
    SplitAtQuestionMark(route, AppendCredits + "&" + LanguageEs);
    AppendCreditsSegment();
    LanguageSegment();
    ParseTwo(AppendCredits, LanguageEs, P("append_to_response", "credits"), P("language", "es-ES"));
  }

  /** The literal tail of the detail path, regrouped as `?` and two runs. */
  lemma MovieFullQuery()
    ensures "?append_to_response=credits&language=es-ES" == "?" + (AppendCredits + "&" + LanguageEs)
  {
    MovieFullQueryHalves();
    MovieFullQueryFirst();
    MovieFullQuerySecond();
    Regroup2("?", AppendCredits, "&", LanguageEs);
  }

  lemma MovieFullQueryHalves()
    ensures "?append_to_response=credits&language=es-ES"
            == "?append_to_response=credits" + "&language=es-ES"
  {
  }

  lemma MovieFullQueryFirst()
    ensures "?append_to_response=credits" == "?" + AppendCredits
  {
    assert "append_to_response=credits" == AppendCredits;
  }

  lemma MovieFullQuerySecond()
    ensures "&language=es-ES" == "&" + LanguageEs
  {
    assert "language=es-ES" == LanguageEs;
  }

  lemma Regroup2(q: string, x: string, amp: string, y: string)
    ensures (q + x) + (amp + y) == q + (x + amp + y)
  {
  }

  const AppendCredits: string := "append_to_response" + "=" + "credits"
  const LanguageEs: string := "language" + "=" + "es-ES"

  lemma AppendCreditsSegment()
    ensures AppendCredits != "" && '&' !in AppendCredits
    ensures SearchParams.ParseSegment(AppendCredits) == Some(P("append_to_response", "credits"))
  {
    PlainPair("append_to_response", "credits");
  }

  lemma LanguageSegment()
    ensures LanguageEs != "" && '&' !in LanguageEs
    ensures SearchParams.ParseSegment(LanguageEs) == Some(P("language", "es-ES"))
  {
    PlainPair("language", "es-ES");
  }

  /** The stray `&` in the genres path is an empty run the parser skips. */
  lemma GenresPathReadBack()
    ensures RouteOf(GenresPath) == "/genre/movie/list"
    ensures SearchParams.Parse(QueryOf(GenresPath)) == Some([P("language", "es-ES")])
  {
    assert GenresPath == "/genre/movie/list" + "?" + ("" + "&" + LanguageEs);
    SplitAtQuestionMark("/genre/movie/list", "" + "&" + LanguageEs);
    LanguageSegment();
    ParseTwo("", LanguageEs, P("language", "es-ES"), P("language", "es-ES"));
  }

  // ---------------------------------------------------------------------------
  // Cache tags

  /** The tags of a list endpoint: its collection tag, then on success one
      `Movie` tag per result in result order; on failure the collection
      tag alone. */
  function ListTags(collection: string, result: Option<Paged<Movie>>): (r: seq<Tag>)
    ensures |r| >= 1 && r[0] == Collection(collection)
    ensures result.None? ==> |r| == 1
    ensures result.Some? ==> |r| == 1 + |result.value.results|
    ensures result.Some? ==> forall i :: 0 <= i < |result.value.results| ==>
              r[i + 1] == MovieTag(result.value.results[i].id)
  {
    [Collection(collection)] + (if result.Some? then MovieTags(result.value.results) else [])
  }

  function MovieTags(ms: seq<Movie>): (r: seq<Tag>)
    ensures |r| == |ms|
    ensures forall i :: 0 <= i < |ms| ==> r[i] == MovieTag(ms[i].id)
  {
    if ms == [] then [] else [MovieTag(ms[0].id)] + MovieTags(ms[1..])
  }

  function TrendingTags(result: Option<Paged<Movie>>): seq<Tag> {
    ListTags("TRENDING", result)
  }

  function SearchTags(result: Option<Paged<Movie>>): seq<Tag> {
    ListTags("SEARCH", result)
  }

  function DiscoverTags(result: Option<Paged<Movie>>): seq<Tag> {
    ListTags("DISCOVER", result)
  }

  const GenresTags: seq<Tag> := [Collection("GENRES")]

  /** `getMovieFull(id)` is tagged with its id alone, whether it succeeded
      or failed. */
  function MovieFullTags(id: int): (r: seq<Tag>)
    ensures |r| == 1 && r[0].MovieTag? && r[0].id == id
  {
    [MovieTag(id)]
  }

  /** A detail request shares its tag with the listing entry of that movie:
      every movie of a successful list result carries the tag of its own
      `getMovieFull`. */
  lemma DetailTagInListing(collection: string, page: Paged<Movie>, i: int)
    requires 0 <= i < |page.results|
    ensures MovieFullTags(page.results[i].id)[0] in ListTags(collection, Some(page))
  {
    assert ListTags(collection, Some(page))[i + 1] == MovieTag(page.results[i].id);
  }
}
