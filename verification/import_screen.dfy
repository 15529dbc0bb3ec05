/** The two front ends of the import function: the "Import from TMDB" page
    (src/pages/admin/Import.tsx) and the dialog of the same name
    (src/components/admin/TMDBImportDialog.tsx). Both keep a query, the last
    search results, the chosen category and whether a search or an import is
    in flight; they differ only in what a successful import clears and in
    two pieces of display. */
module ImportScreen {
  import opened Basics
  import opened Text
  import opened Rows
  import opened ImportProxy

  /** Which front end. */
  datatype Variant = Page | Dialog

  datatype Toast = Toast(title: string, description: Option<string>, destructive: bool)

  datatype ImportState = ImportState(
    query: string,
    results: seq<SearchHit>,
    selectedCategory: string,
    isSearching: bool,
    importPending: bool,
    toast: Option<Toast>)

  const Initial := ImportState("", [], "", false, false, None)

  /** A call of the import function, with the JSON body it carries. */
  datatype Invocation = SearchCall(query: string) | ImportCall(movieId: int, categoryId: string)

  function BodyOf(call: Invocation): (body: RequestBody)
    ensures call.SearchCall? ==> body == RequestBody(Some("search"), Some(call.query), None, None)
    ensures call.ImportCall? ==> body == RequestBody(Some("import"), None, Some(call.movieId), Some(call.categoryId))
  {
    match call
    case SearchCall(q) => RequestBody(Some("search"), Some(q), None, None)
    case ImportCall(id, c) => RequestBody(Some("import"), None, Some(id), Some(c))
  }

  /** `functions.invoke` posts the body. */
  function RequestOf(call: Invocation): Request
  {
    Request("POST", Success(BodyOf(call)))
  }

  /** What `functions.invoke` reports for a response that is not a success. */
  const NonSuccessMessage: string := "Edge Function returned a non-2xx status code"

  /** The search answer as the screen receives it: the payload of a 200
      response, an error otherwise. The error is the client's own: the
      `error` text of the function's answer never reaches the screen. */
  function SearchAnswer(r: Response): (a: Result<SearchPayload, Thrown>)
    ensures a.Success? <==> r.status == 200 && r.body.SearchJson?
    ensures a.Success? ==> a.value == r.body.payload
    ensures a.Failure? ==> a.error == ErrorObject(NonSuccessMessage)
  {
    if r.status == 200 && r.body.SearchJson? then Success(r.body.payload)
    else Failure(ErrorObject(NonSuccessMessage))
  }

  /** The import answer as the screen receives it: nothing for a 200
      response, the client's own error otherwise. */
  function ImportAnswer(r: Response): (failure: Option<Thrown>)
    ensures failure.None? <==> r.status == 200
    ensures failure.Some? ==> failure.value == ErrorObject(NonSuccessMessage)
  {
    if r.status == 200 then None else Some(ErrorObject(NonSuccessMessage))
  }

  // ---------------------------------------------------------------------------
  // Searching

  /** The search input's `onChange`: the query becomes the text as typed,
      and nothing else changes. */
  function TypeQuery(s: ImportState, q: string): (t: ImportState)
    ensures t.query == q
    ensures t.results == s.results && t.selectedCategory == s.selectedCategory
    ensures t.isSearching == s.isSearching && t.importPending == s.importPending && t.toast == s.toast
  {
    s.(query := q)
  }

  /** Whatever was typed before, the search sends the last text typed, as
      typed, exactly when it holds a character that is not white space. */
  lemma LastTypedQueryIsSent(s: ImportState, earlier: string, q: string)
    requires !s.isSearching
    ensures var out := SubmitSearch(TypeQuery(TypeQuery(s, earlier), q)).1;
            && (out.Some? <==> exists i :: 0 <= i < |q| && !IsJsSpace(q[i]))
            && (out.Some? ==> out.value == SearchCall(q))
  {
    TrimEmptyIffBlank(q);
  }

  /** Submitting the search form. The button is disabled while a search runs;
      otherwise a query that trims to nothing is ignored, and any other query
      is sent as typed, untrimmed, and marks the screen as searching. */
  function SubmitSearch(s: ImportState): (out: (ImportState, Option<Invocation>))
    ensures s.isSearching ==> out == (s, None)
    ensures !s.isSearching ==> (out.1.Some? <==> Trim(s.query) != "")
    ensures out.1.Some? ==> out.1.value == SearchCall(s.query) && out.0 == s.(isSearching := true)
    ensures out.1.None? ==> out.0 == s
  {
    if s.isSearching || Trim(s.query) == "" then (s, None)
    else (s.(isSearching := true), Some(SearchCall(s.query)))
  }

  /** A search goes out exactly when the query holds a character that is not
      white space. */
  lemma SearchIffNotBlank(s: ImportState)
    requires !s.isSearching
    ensures SubmitSearch(s).1.Some? <==> exists i :: 0 <= i < |s.query| && !IsJsSpace(s.query[i])
  {
    TrimEmptyIffBlank(s.query);
  }

  /** The search's outcome. Success shows the payload's results, or none when
      the payload has no list; failure keeps the old results and shows the
      error. Either way the screen stops searching. */
  function SearchSettled(s: ImportState, answer: Result<SearchPayload, Thrown>): (t: ImportState)
    ensures !t.isSearching
    ensures t.query == s.query && t.selectedCategory == s.selectedCategory && t.importPending == s.importPending
    ensures answer.Success? ==> t.results == answer.value.results.GetOr([]) && t.toast == s.toast
    ensures answer.Failure? ==> t.results == s.results
    ensures answer.Failure? ==> t.toast == Some(Toast("Search failed", Some(MessageOf(answer.error)), true))
  {
    match answer
    case Success(payload) => s.(results := payload.results.GetOr([]), isSearching := false)
    case Failure(e) => s.(isSearching := false, toast := Some(Toast("Search failed", Some(MessageOf(e)), true)))
  }

  /** A search end to end: the function receives the query as typed, and the
      screen ends up showing exactly the provider's results. */
  lemma SearchShowsProviderResults(s: ImportState, apiKey: Option<string>, provider: Provider, inserted: Result<Movie, Thrown>)
    requires !s.isSearching && Trim(s.query) != ""
    requires Present(apiKey) && provider.search.Success?
    ensures var (waiting, call) := SubmitSearch(s);
            var x := Serve(RequestOf(call.value), apiKey, provider, inserted);
            && x.calls == [SearchMovies(Some(s.query))]
            && x.insert.None?
            && SearchSettled(waiting, SearchAnswer(x.response)).results == provider.search.value.results.GetOr([])
  {
  }

  // ---------------------------------------------------------------------------
  // Importing

  /** The category select's `onValueChange`: the chosen id replaces the
      previous choice, and nothing else changes. */
  function SelectCategory(s: ImportState, id: string): (t: ImportState)
    ensures t.selectedCategory == id
    ensures t.query == s.query && t.results == s.results
    ensures t.isSearching == s.isSearching && t.importPending == s.importPending && t.toast == s.toast
  {
    s.(selectedCategory := id)
  }

  /** An import sends the category chosen last, and is refused for the empty
      choice the screen starts with. */
  lemma LastChosenCategoryIsSent(s: ImportState, earlier: string, id: string, movieId: int)
    requires !s.importPending
    ensures var out := RequestImport(SelectCategory(SelectCategory(s, earlier), id), movieId).1;
            && (out.Some? <==> id != "")
            && (out.Some? ==> out.value == ImportCall(movieId, id))
    ensures RequestImport(SelectCategory(Initial, ""), movieId).1.None?
  {
  }

  /** An import button. The buttons are disabled while an import runs;
      without a chosen category a toast asks for one and nothing is sent;
      otherwise the import of that title into the chosen category starts. */
  function RequestImport(s: ImportState, movieId: int): (out: (ImportState, Option<Invocation>))
    ensures s.importPending ==> out == (s, None)
    ensures !s.importPending ==> (out.1.Some? <==> s.selectedCategory != "")
    ensures out.1.Some? ==> out.1.value == ImportCall(movieId, s.selectedCategory) && out.0 == s.(importPending := true)
    ensures !s.importPending && out.1.None? ==> out.0 == s.(toast := Some(Toast("Please select a category", None, true)))
  {
    if s.importPending then (s, None)
    else if s.selectedCategory == "" then (s.(toast := Some(Toast("Please select a category", None, true))), None)
    else (s.(importPending := true), Some(ImportCall(movieId, s.selectedCategory)))
  }

  /** The import's outcome. The import is no longer pending and a toast
      reports the outcome; after a success the dialog also empties its results
      and its query, while the page keeps both. */
  function ImportSettled(v: Variant, s: ImportState, failure: Option<Thrown>): (t: ImportState)
    ensures !t.importPending
    ensures t.selectedCategory == s.selectedCategory && t.isSearching == s.isSearching
    ensures failure.None? ==> t.toast == Some(Toast("Movie imported successfully", None, false))
    ensures failure.Some? ==> t.toast == Some(Toast("Import failed", Some(MessageOf(failure.value)), true))
    ensures failure.None? && v == Dialog ==> t.results == [] && t.query == ""
    ensures failure.Some? || v == Page ==> t.results == s.results && t.query == s.query
  {
    match failure
    case Some(e) => s.(importPending := false, toast := Some(Toast("Import failed", Some(MessageOf(e)), true)))
    case None =>
      var done := s.(importPending := false, toast := Some(Toast("Movie imported successfully", None, false)));
      if v == Dialog then done.(results := [], query := "") else done
  }

  /** An import end to end: once both provider calls succeed, the function
      inserts the mapped row under the category chosen on the screen. */
  lemma ImportUsesChosenCategory(s: ImportState, movieId: int, apiKey: Option<string>, provider: Provider, inserted: Result<Movie, Thrown>)
    requires !s.importPending && s.selectedCategory != ""
    requires Present(apiKey) && provider.detail.Success? && provider.videos.Success?
    ensures var (_, call) := RequestImport(s, movieId);
            var x := Serve(RequestOf(call.value), apiKey, provider, inserted);
            && x.calls == [MovieDetails(Some(movieId)), MovieVideos(Some(movieId))]
            && x.insert.Some?
            && x.insert.value.categoryId == Some(s.selectedCategory)
  {
  }

  /** After a successful import the dialog is ready for a new search, and
      "No movies found" cannot appear on it: an empty query does not search. */
  lemma DialogResetsAfterImport(s: ImportState)
    ensures var t := ImportSettled(Dialog, s, None);
            !ShowsResults(t) && SubmitSearch(t.(isSearching := false)).1.None?
  {
    var t := ImportSettled(Dialog, s, None);
    assert t.query == "";
    assert TrimStart("") == "";
    assert TrimEnd("") == "";
    assert Trim(t.query) == "";
  }

  /** Without the provider key the function answers 500 with its own
      message, but both screens toast the client's generic text instead: the
      missing key is never named on screen. */
  lemma MissingKeyToastsGenericMessage(v: Variant, s: ImportState, movieId: int, apiKey: Option<string>, provider: Provider, inserted: Result<Movie, Thrown>)
    requires !Present(apiKey)
    ensures var (waiting, call) := SubmitSearch(s);
            call.Some? ==>
              SearchSettled(waiting, SearchAnswer(Serve(RequestOf(call.value), apiKey, provider, inserted).response)).toast
              == Some(Toast("Search failed", Some(NonSuccessMessage), true))
    ensures var (waiting, call) := RequestImport(s, movieId);
            call.Some? ==>
              ImportSettled(v, waiting, ImportAnswer(Serve(RequestOf(call.value), apiKey, provider, inserted).response)).toast
              == Some(Toast("Import failed", Some(NonSuccessMessage), true))
    ensures NonSuccessMessage != MissingKeyMessage
  {
    forall call: Invocation ensures Serve(RequestOf(call), apiKey, provider, inserted).response.status == 500 {
      assert RequestOf(call).body.Success?;
    }
  }

  // ---------------------------------------------------------------------------
  // What is shown

  /** The category selector and the result grid. */
  predicate ShowsResults(s: ImportState) { |s.results| > 0 }

  /** When a search ends, the selector and the grid appear exactly when the
      search succeeded with a non-empty list of results, or it failed while
      they were already shown. */
  lemma ShowsResultsAfterSearch(s: ImportState, answer: Result<SearchPayload, Thrown>)
    ensures ShowsResults(SearchSettled(s, answer)) <==>
              || (answer.Success? && answer.value.results.Some? && |answer.value.results.value| > 0)
              || (answer.Failure? && ShowsResults(s))
  {
  }

  /** "No movies found": only the page has it, for a non-empty query with no
      results once no search is running. */
  function ShowsNoMovies(v: Variant, s: ImportState): (shown: bool)
    ensures shown <==> v == Page && s.query != "" && |s.results| == 0 && !s.isSearching
  {
    v == Page && s.query != "" && |s.results| == 0 && !s.isSearching
  }

  /** The import buttons are enabled exactly while no import is pending. */
  function ImportButtonsEnabled(s: ImportState): (enabled: bool)
    ensures enabled <==> !s.importPending
  {
    !s.importPending
  }

  /** The search button's label. */
  function SearchLabel(s: ImportState): (text: string)
    ensures s.isSearching <==> text == "Searching..."
    ensures !s.isSearching <==> text == "Search"
  {
    if s.isSearching then "Searching..." else "Search"
  }

  /** The year shown on a result: the release date up to its first hyphen,
      nothing without a date. */
  function DisplayYear(hit: SearchHit): (year: Option<string>)
    ensures year.Some? <==> hit.releaseDate.Some?
    ensures year.Some? ==> '-' !in year.value
    ensures year.Some? ==> year.value <= hit.releaseDate.value
    ensures year.Some? && |year.value| < |hit.releaseDate.value| ==> hit.releaseDate.value[|year.value|] == '-'
  {
    match hit.releaseDate
    case None => None
    case Some(d) => Some(BeforeHyphen(d))
  }

  /** The shown year of a result dated "YYYY-…" is the year the import stores. */
  lemma DisplayYearMatchesStoredYear(year: nat, rest: string, hit: SearchHit)
    requires hit.releaseDate == Some(NatToString(year) + "-" + rest)
    ensures DisplayYear(hit) == Some(NatToString(year))
    ensures ReleaseYear(hit.releaseDate) == Some(year)
  {
    var digits := NatToString(year);
    assert '-' !in digits;
    BeforeHyphenOf(digits, rest);
    assert digits + "-" + rest == digits + ['-'] + rest;
    ReleaseYearOfDate(year, rest);
  }

  /** The poster thumbnail: 500 pixels wide on the page, 200 in the dialog,
      none for a result without a poster path. */
  function Thumbnail(v: Variant, hit: SearchHit): (url: Option<string>)
    ensures url.Some? <==> Present(hit.posterPath)
    ensures url.Some? && v == Page ==> url.value == "https://image.tmdb.org/t/p/w500" + hit.posterPath.value
    ensures url.Some? && v == Dialog ==> url.value == "https://image.tmdb.org/t/p/w200" + hit.posterPath.value
  {
    ImageUrl(if v == Page then PosterBase else "https://image.tmdb.org/t/p/w200", hit.posterPath)
  }
}
