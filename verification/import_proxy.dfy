/** The `tmdb-import` edge function (supabase/functions/tmdb-import/index.ts):
    answers CORS preflights, checks that the provider key is configured, then
    either forwards a title search to the movie database unchanged or imports
    one title by fetching its details and videos and inserting a movie row.
    The provider's and the database's answers are inputs of the model. */
module ImportProxy {
  import opened Basics
  import opened Text
  import opened Rows

  const PosterBase: string := "https://image.tmdb.org/t/p/w500"
  const BannerBase: string := "https://image.tmdb.org/t/p/original"
  const WatchBase: string := "https://www.youtube.com/watch?v="
  const MissingKeyMessage: string := "TMDB API key not configured"
  const InvalidActionMessage: string := "Invalid action"

  /** Headers every response carries: any origin may call the function. */
  const CorsHeaders: map<string, string> := map[
    "Access-Control-Allow-Origin" := "*",
    "Access-Control-Allow-Headers" := "authorization, x-client-info, apikey, content-type"]

  const JsonHeaders: map<string, string> := CorsHeaders["Content-Type" := "application/json"]

  // ---------------------------------------------------------------------------
  // Provider records (the fields the code reads)

  /** One entry of the provider's search results. */
  datatype SearchHit = SearchHit(
    id: int,
    title: string,
    overview: string,
    posterPath: Option<string>,
    releaseDate: Option<string>,
    voteAverage: Option<real>)

  /** The provider's search answer; `results` may be missing. */
  datatype SearchPayload = SearchPayload(results: Option<seq<SearchHit>>)

  /** The provider's detail record of one title. */
  datatype Detail = Detail(
    title: Option<string>,
    overview: Option<string>,
    posterPath: Option<string>,
    backdropPath: Option<string>,
    releaseDate: Option<string>,
    voteAverage: Option<real>,
    runtime: Option<int>)

  datatype Video = Video(kind: string, site: string, key: string)

  datatype VideoList = VideoList(results: Option<seq<Video>>)

  // ---------------------------------------------------------------------------
  // Requests, calls and responses

  datatype RequestBody = RequestBody(
    action: Option<string>,
    query: Option<string>,
    movieId: Option<int>,
    categoryId: Option<string>)

  /** An incoming request; `body` is a `Failure` when it is not valid JSON. */
  datatype Request = Request(verb: string, body: Result<RequestBody, Thrown>)

  /** The calls made to the provider, in order. */
  datatype ProviderCall =
    | SearchMovies(query: Option<string>)
    | MovieDetails(movieId: Option<int>)
    | MovieVideos(movieId: Option<int>)

  /** What the provider answers to each kind of call; a network or JSON
      failure is a `Failure`. */
  datatype Provider = Provider(
    search: Result<SearchPayload, Thrown>,
    detail: Result<Detail, Thrown>,
    videos: Result<VideoList, Thrown>)

  /** The row the import inserts into `movies`. */
  datatype MovieInsert = MovieInsert(
    title: Option<string>,
    description: Option<string>,
    posterUrl: Option<string>,
    bannerUrl: Option<string>,
    year: Option<nat>,
    rating: Option<real>,
    duration: Option<int>,
    trailerUrl: Option<string>,
    categoryId: Option<string>)

  datatype Body = NoBody | SearchJson(payload: SearchPayload) | RowJson(row: Movie) | ErrorJson(error: string)

  datatype Response = Response(status: int, headers: map<string, string>, body: Body)

  /** Everything one request causes: the response, the provider calls made and
      the insert issued, if any. */
  datatype Exchange = Exchange(response: Response, calls: seq<ProviderCall>, insert: Option<MovieInsert>)

  // ---------------------------------------------------------------------------
  // Row mapping

  /** JavaScript truthiness of an optional string. */
  predicate Present(s: Option<string>) { s.Some? && s.value != "" }

  /** An image URL: the base followed by the path, or null without a path. */
  function ImageUrl(base: string, path: Option<string>): (url: Option<string>)
    ensures url.Some? <==> Present(path)
    ensures url.Some? ==> |url.value| >= |base| && url.value[..|base|] == base && url.value[|base|..] == path.value
  {
    if Present(path) then Some(base + path.value) else None
  }

  predicate IsYouTubeTrailer(v: Video) { v.kind == "Trailer" && v.site == "YouTube" }

  /** `results.find(...)`: the first YouTube trailer, if there is one. */
  function FirstTrailer(vs: seq<Video>): (t: Option<Video>)
    ensures t.None? <==> forall i :: 0 <= i < |vs| ==> !IsYouTubeTrailer(vs[i])
    ensures t.Some? ==> exists i :: 0 <= i < |vs| && vs[i] == t.value && IsYouTubeTrailer(vs[i])
                                    && forall j :: 0 <= j < i ==> !IsYouTubeTrailer(vs[j])
  {
    if |vs| == 0 then None
    else if IsYouTubeTrailer(vs[0]) then Some(vs[0])
    else
      var t := FirstTrailer(vs[1..]);
      assert forall i :: 1 <= i < |vs| ==> vs[i] == vs[1..][i - 1];
      t
  }

  /** The trailer URL of the insert: the watch URL of the first YouTube
      trailer, null when there is none or the video list is missing. */
  function TrailerUrl(videos: VideoList): (url: Option<string>)
    ensures url.Some? <==> videos.results.Some? && FirstTrailer(videos.results.value).Some?
    ensures url.Some? ==> url.value == WatchBase + FirstTrailer(videos.results.value).value.key
  {
    match videos.results
    case None => None
    case Some(vs) =>
      match FirstTrailer(vs)
      case None => None
      case Some(v) => Some(WatchBase + v.key)
  }

  /** The release year: `parseInt` of the part of the date before the first
      hyphen, null without a date. A segment that does not start with a digit
      parses to `NaN`, which the JSON body carries as null. */
  function ReleaseYear(date: Option<string>): (year: Option<nat>)
    ensures !Present(date) ==> year.None?
    ensures Present(date) ==> year == ParseLeadingNat(BeforeHyphen(date.value))
  {
    if Present(date) then ParseLeadingNat(BeforeHyphen(date.value)) else None
  }

  /** A date that starts with a year numeral and a hyphen yields that year. */
  lemma ReleaseYearOfDate(year: nat, rest: string)
    ensures ReleaseYear(Some(NatToString(year) + "-" + rest)) == Some(year)
  {
    var digits := NatToString(year);
    assert '-' !in digits;
    BeforeHyphenOf(digits, rest);
    assert digits + "-" + rest == digits + ['-'] + rest;
    ParseLeadingNatRoundTrip(year, "");
    assert digits + "" == digits;
  }

  /** The insert payload an import builds from the provider's records. */
  function BuildRow(detail: Detail, videos: VideoList, categoryId: Option<string>): (row: MovieInsert)
    ensures row.title == detail.title && row.description == detail.overview
    ensures row.rating == detail.voteAverage && row.duration == detail.runtime
    ensures row.posterUrl.Some? <==> Present(detail.posterPath)
    ensures row.posterUrl.Some? ==> row.posterUrl.value == PosterBase + detail.posterPath.value
    ensures row.bannerUrl.Some? <==> Present(detail.backdropPath)
    ensures row.bannerUrl.Some? ==> row.bannerUrl.value == BannerBase + detail.backdropPath.value
    ensures row.year == ReleaseYear(detail.releaseDate)
    ensures row.trailerUrl == TrailerUrl(videos)
    ensures row.categoryId.Some? <==> Present(categoryId)
    ensures row.categoryId.Some? ==> row.categoryId == categoryId
  {
    MovieInsert(
      title := detail.title,
      description := detail.overview,
      posterUrl := ImageUrl(PosterBase, detail.posterPath),
      bannerUrl := ImageUrl(BannerBase, detail.backdropPath),
      year := ReleaseYear(detail.releaseDate),
      rating := detail.voteAverage,
      duration := detail.runtime,
      trailerUrl := TrailerUrl(videos),
      categoryId := if Present(categoryId) then categoryId else None)
  }

  // ---------------------------------------------------------------------------
  // Dispatch

  function JsonResponse(status: int, body: Body): Response
  {
    Response(status, JsonHeaders, body)
  }

  /** The 500 response the catch block builds from a thrown value. */
  function Failed(t: Thrown): Response
  {
    JsonResponse(500, ErrorJson(MessageOf(t)))
  }

  predicate IsAction(body: RequestBody, name: string) { body.action == Some(name) }

  /** The import action: details, then videos, then one insert. A failing
      provider call stops the action before anything is inserted; the
      response is the stored row when the insert succeeds and a 500 with the
      thrown message otherwise. */
  function Import(body: RequestBody, provider: Provider, inserted: Result<Movie, Thrown>): (x: Exchange)
    ensures provider.detail.Failure? ==> x.calls == [MovieDetails(body.movieId)]
    ensures provider.detail.Success? ==> x.calls == [MovieDetails(body.movieId), MovieVideos(body.movieId)]
    ensures x.insert.Some? <==> provider.detail.Success? && provider.videos.Success?
    ensures x.insert.Some? ==> x.insert.value == BuildRow(provider.detail.value, provider.videos.value, body.categoryId)
    ensures x.response.status == 200 || x.response.status == 500
    ensures x.response.status == 200 <==> x.insert.Some? && inserted.Success?
    ensures x.response.status == 200 ==> x.response.body == RowJson(inserted.value)
    ensures provider.detail.Failure? ==> x.response == Failed(provider.detail.error)
    ensures provider.detail.Success? && provider.videos.Failure? ==> x.response == Failed(provider.videos.error)
    ensures x.insert.Some? && inserted.Failure? ==> x.response == Failed(inserted.error)
  {
    var detailCall := MovieDetails(body.movieId);
    var videosCall := MovieVideos(body.movieId);
    match provider.detail
    case Failure(e) => Exchange(Failed(e), [detailCall], None)
    case Success(detail) =>
      match provider.videos
      case Failure(e) => Exchange(Failed(e), [detailCall, videosCall], None)
      case Success(videos) =>
        var row := BuildRow(detail, videos, body.categoryId);
        match inserted
        case Failure(e) => Exchange(Failed(e), [detailCall, videosCall], Some(row))
        case Success(movie) => Exchange(JsonResponse(200, RowJson(movie)), [detailCall, videosCall], Some(row))
  }

  /** One request to the function. `apiKey` is the configured provider key,
      `provider` the provider's answers and `inserted` the database's answer
      to the insert (the stored row, or the error it throws). */
  function Serve(req: Request, apiKey: Option<string>, provider: Provider, inserted: Result<Movie, Thrown>): (x: Exchange)
    // Every response allows cross-origin callers.
    ensures forall k :: k in CorsHeaders ==> k in x.response.headers && x.response.headers[k] == CorsHeaders[k]
    ensures x.response.status == 200 || x.response.status == 400 || x.response.status == 500
    // A preflight is answered before anything else happens.
    ensures req.verb == "OPTIONS" ==> x == Exchange(Response(200, CorsHeaders, NoBody), [], None)
    // A body that is not JSON fails with the parser's error.
    ensures req.verb != "OPTIONS" && req.body.Failure? ==>
              x == Exchange(Failed(req.body.error), [], None)
    // Without a key nothing is called, whatever the action.
    ensures req.verb != "OPTIONS" && req.body.Success? && !Present(apiKey) ==>
              x == Exchange(JsonResponse(500, ErrorJson(MissingKeyMessage)), [], None)
    // Only the two known actions do anything.
    ensures req.verb != "OPTIONS" && req.body.Success? && Present(apiKey)
            && !IsAction(req.body.value, "search") && !IsAction(req.body.value, "import") ==>
              x == Exchange(JsonResponse(400, ErrorJson(InvalidActionMessage)), [], None)
    // A search forwards the query and returns the provider's answer unchanged.
    ensures req.verb != "OPTIONS" && req.body.Success? && Present(apiKey) && IsAction(req.body.value, "search") ==>
              && x.calls == [SearchMovies(req.body.value.query)]
              && x.insert.None?
              && (provider.search.Success? ==> x.response == JsonResponse(200, SearchJson(provider.search.value)))
              && (provider.search.Failure? ==> x.response == Failed(provider.search.error))
    // An import inserts exactly the mapped row once both provider calls succeed.
    ensures req.verb != "OPTIONS" && req.body.Success? && Present(apiKey) && IsAction(req.body.value, "import") ==>
              && (x.insert.Some? <==> provider.detail.Success? && provider.videos.Success?)
              && (x.insert.Some? ==> x.insert.value == BuildRow(provider.detail.value, provider.videos.value, req.body.value.categoryId))
              && (x.insert.Some? && inserted.Success? ==> x.response == JsonResponse(200, RowJson(inserted.value)))
              && (x.insert.Some? && inserted.Failure? ==> x.response == Failed(inserted.error))
    // Nothing but an import writes to the table.
    ensures x.insert.Some? ==> req.verb != "OPTIONS" && req.body.Success? && IsAction(req.body.value, "import")
    ensures x.response.status == 200 && x.insert.Some? ==> x.response.body == RowJson(inserted.value)
  {
    if req.verb == "OPTIONS" then Exchange(Response(200, CorsHeaders, NoBody), [], None)
    else
      match req.body
      case Failure(e) => Exchange(Failed(e), [], None)
      case Success(body) =>
        if !Present(apiKey) then Exchange(JsonResponse(500, ErrorJson(MissingKeyMessage)), [], None)
        else if IsAction(body, "search") then
          var call := SearchMovies(body.query);
          match provider.search
          case Success(payload) => Exchange(JsonResponse(200, SearchJson(payload)), [call], None)
          case Failure(e) => Exchange(Failed(e), [call], None)
        else if IsAction(body, "import") then Import(body, provider, inserted)
        else Exchange(JsonResponse(400, ErrorJson(InvalidActionMessage)), [], None)
  }

  /** A release date of "2020-05-01" is stored as the year 2020. */
  lemma ReleaseYearExample()
    ensures ReleaseYear(Some("2020-05-01")) == Some(2020)
  {
    ReleaseYearOfDate(2020, "05-01");
    NumeralOf2020();
    assert "2020" + "-" + "05-01" == "2020-05-01";
  }

  /** `(2020).toString()`, one digit at a time. */
  lemma NumeralOf2020()
    ensures NatToString(2020) == "2020"
  {
    assert NatToString(2) == "2";
    assert NatToString(20) == NatToString(2) + "0";
    assert NatToString(202) == NatToString(20) + "2";
    assert NatToString(2020) == NatToString(202) + "0";
  }
}
