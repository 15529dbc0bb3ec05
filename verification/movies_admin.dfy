/** The movie admin screen (src/pages/admin/Movies.tsx): the newest-first
    table with its display fallbacks, and the add/edit form prefilled from a
    row, edited one input at a time and saved by id or as a new row. */
module MoviesAdmin {
  import opened Basics
  import opened Rows
  import opened AdminCrud

  /** What an input of the form holds. Prefilled inputs hold the row's value
      as the row has it (a number for the number columns); every keystroke
      stores the input's text. */
  datatype FormValue = Text(s: string) | Int(i: int) | Decimal(r: real)

  /** JavaScript's falsy values among the form values. */
  predicate Falsy(v: FormValue)
  {
    v == Text("") || v == Int(0) || v == Decimal(0.0)
  }

  datatype FormField =
    | Title | Description | PosterUrl | BannerUrl | Year | Rating | Duration
    | DownloadUrl | TrailerUrl | CategoryId

  /** `formData`: one value per input. */
  datatype MovieForm = MovieForm(
    title: FormValue,
    description: FormValue,
    posterUrl: FormValue,
    bannerUrl: FormValue,
    year: FormValue,
    rating: FormValue,
    duration: FormValue,
    downloadUrl: FormValue,
    trailerUrl: FormValue,
    categoryId: FormValue)

  function Get(f: MovieForm, field: FormField): FormValue
  {
    match field
    case Title => f.title
    case Description => f.description
    case PosterUrl => f.posterUrl
    case BannerUrl => f.bannerUrl
    case Year => f.year
    case Rating => f.rating
    case Duration => f.duration
    case DownloadUrl => f.downloadUrl
    case TrailerUrl => f.trailerUrl
    case CategoryId => f.categoryId
  }

  /** An input's `onChange` (`{ ...formData, field: value }`): that field takes
      the typed text and every other field keeps its value. */
  function EditField(f: MovieForm, field: FormField, typed: string): (g: MovieForm)
    ensures Get(g, field) == Text(typed)
    ensures forall other :: other != field ==> Get(g, other) == Get(f, other)
  {
    var v := Text(typed);
    match field
    case Title => f.(title := v)
    case Description => f.(description := v)
    case PosterUrl => f.(posterUrl := v)
    case BannerUrl => f.(bannerUrl := v)
    case Year => f.(year := v)
    case Rating => f.(rating := v)
    case Duration => f.(duration := v)
    case DownloadUrl => f.(downloadUrl := v)
    case TrailerUrl => f.(trailerUrl := v)
    case CategoryId => f.(categoryId := v)
  }

  /** Two edits of different inputs commute. */
  lemma EditsOfDifferentFieldsCommute(f: MovieForm, a: FormField, x: string, b: FormField, y: string)
    requires a != b
    ensures EditField(EditField(f, a, x), b, y) == EditField(EditField(f, b, y), a, x)
  {
    var g := EditField(EditField(f, a, x), b, y);
    var h := EditField(EditField(f, b, y), a, x);
    forall field ensures Get(g, field) == Get(h, field) {
    }
    assert g.title == Get(g, Title) && g.description == Get(g, Description);
    assert g.year == Get(g, Year) && g.categoryId == Get(g, CategoryId);
  }

  // ---------------------------------------------------------------------------
  // Prefill

  /** A column of a row as the form reads it: `null` is `None`. */
  function Column(m: Movie, field: FormField): Option<FormValue>
  {
    match field
    case Title => Some(Text(m.title))
    case Description => if m.description.Some? then Some(Text(m.description.value)) else None
    case PosterUrl => if m.posterUrl.Some? then Some(Text(m.posterUrl.value)) else None
    case BannerUrl => if m.bannerUrl.Some? then Some(Text(m.bannerUrl.value)) else None
    case Year => if m.year.Some? then Some(Int(m.year.value)) else None
    case Rating => if m.rating.Some? then Some(Decimal(m.rating.value)) else None
    case Duration => if m.duration.Some? then Some(Int(m.duration.value)) else None
    case DownloadUrl => if m.downloadUrl.Some? then Some(Text(m.downloadUrl.value)) else None
    case TrailerUrl => if m.trailerUrl.Some? then Some(Text(m.trailerUrl.value)) else None
    case CategoryId => if m.categoryId.Some? then Some(Text(m.categoryId.value)) else None
  }

  /** `movie?.x || ""` for one value. */
  function OrEmpty(v: Option<FormValue>): FormValue
  {
    if v.Some? && !Falsy(v.value) then v.value else Text("")
  }

  /** The form's first state, written input by input as the component does:
      a new movie starts blank; an edited one starts from its row, where a
      falsy value (null, empty text, a zero) prefills as empty text. */
  function Prefill(movie: Option<Movie>): (f: MovieForm)
    ensures movie.None? ==> forall field :: Get(f, field) == Text("")
    ensures movie.Some? ==> forall field :: Get(f, field) == OrEmpty(Column(movie.value, field))
  {
    match movie
    case None => MovieForm(Text(""), Text(""), Text(""), Text(""), Text(""), Text(""), Text(""), Text(""), Text(""), Text(""))
    case Some(m) =>
      var f := MovieForm(
        title := Text(m.title),
        description := Text(m.description.GetOr("")),
        posterUrl := Text(m.posterUrl.GetOr("")),
        bannerUrl := Text(m.bannerUrl.GetOr("")),
        year := if m.year.Some? && m.year.value != 0 then Int(m.year.value) else Text(""),
        rating := if m.rating.Some? && m.rating.value != 0.0 then Decimal(m.rating.value) else Text(""),
        duration := if m.duration.Some? && m.duration.value != 0 then Int(m.duration.value) else Text(""),
        downloadUrl := Text(m.downloadUrl.GetOr("")),
        trailerUrl := Text(m.trailerUrl.GetOr("")),
        categoryId := Text(m.categoryId.GetOr("")));
      assert forall field :: Get(f, field) == OrEmpty(Column(m, field)) by {
        forall field ensures Get(f, field) == OrEmpty(Column(m, field)) {
          assert field.Title? || field.Description? || field.PosterUrl? || field.BannerUrl? || field.Year?
            || field.Rating? || field.Duration? || field.DownloadUrl? || field.TrailerUrl? || field.CategoryId?;
        }
      }
      f
  }

  /** A stored year or rating of zero comes back as an empty input, so saving
      the form unchanged sends empty text where the row had a zero. */
  lemma ZeroPrefillsAsEmpty(m: Movie)
    requires m.year == Some(0) || m.rating == Some(0.0)
    ensures Get(Prefill(Some(m)), Year) == Text("") || Get(Prefill(Some(m)), Rating) == Text("")
    ensures m.year == Some(0) ==> Get(Prefill(Some(m)), Year) != Column(m, Year).value
  {
  }

  /** Every truthy column is prefilled exactly as stored. */
  lemma PrefillKeepsTruthyColumns(m: Movie, field: FormField)
    requires Column(m, field).Some? && !Falsy(Column(m, field).value)
    ensures Get(Prefill(Some(m)), field) == Column(m, field).value
  {
  }

  // ---------------------------------------------------------------------------
  // Dialog and saving

  type Dialog = EditDialog<Movie>

  /** Submitting: the title input is `required`, so an empty title sends
      nothing; otherwise the form's values as they stand update the edited
      movie's id, or are inserted when no movie is edited. */
  function Submit(editing: Option<Movie>, f: MovieForm): (w: Option<Write<MovieForm>>)
    ensures w.Some? <==> f.title != Text("")
    ensures w.Some? ==> w.value.data == f
    ensures w.Some? ==> (w.value.UpdateWhere? <==> editing.Some?)
    ensures w.Some? && w.value.UpdateWhere? ==> w.value.id == editing.value.id
  {
    SaveRequest(if editing.Some? then Some(editing.value.id) else None, f, f.title != Text(""))
  }

  /** Opening a row and saving at once sends an update of that row's id
      carrying its prefilled values, whatever the dialog held before. */
  lemma EditThenSaveTargetsThatRow(d: Dialog, m: Movie)
    requires m.title != ""
    ensures var e := EditClicked(d, m);
            Submit(e.editing, Prefill(e.editing)) == Some(UpdateWhere(m.id, Prefill(Some(m))))
  {
  }

  // ---------------------------------------------------------------------------
  // Table

  /** A table cell: text, or a number as stored. */
  datatype Cell = TextCell(text: string) | IntCell(number: int) | RealCell(decimal: real)

  const NotAvailable := TextCell("N/A")

  /** `categories(name)`: the name of the category the row points to. */
  function JoinedCategoryName(m: Movie, categories: seq<Category>): (name: Option<string>)
    ensures name.None? <==> m.categoryId.None? || forall i :: 0 <= i < |categories| ==> categories[i].id != m.categoryId.value
    ensures name.Some? ==> exists i :: 0 <= i < |categories| && categories[i].id == m.categoryId.value && categories[i].name == name.value
    decreases |categories|
  {
    if m.categoryId.None? || |categories| == 0 then None
    else if categories[0].id == m.categoryId.value then Some(categories[0].name)
    else
      var rest := JoinedCategoryName(m, categories[1..]);
      assert forall i :: 1 <= i < |categories| ==> categories[i] == categories[1..][i - 1];
      if rest.Some? then
        ghost var k :| 0 <= k < |categories[1..]| && categories[1..][k].id == m.categoryId.value && categories[1..][k].name == rest.value;
        assert categories[k + 1] == categories[1..][k];
        rest
      else rest
  }

  /** One line of the table. */
  datatype TableRow = TableRow(movie: Movie, title: string, category: Cell, year: Cell, rating: Cell, views: int)

  /** The cells of a movie's line, with the screen's fallbacks: a missing or
      empty category name, a missing or zero year and a missing or zero
      rating show "N/A"; missing views show 0. */
  function RowView(m: Movie, categories: seq<Category>): (r: TableRow)
    ensures r.movie == m && r.title == m.title
    ensures r.category == NotAvailable <==> (JoinedCategoryName(m, categories).None? || JoinedCategoryName(m, categories).value == "" || JoinedCategoryName(m, categories).value == "N/A")
    ensures r.category != NotAvailable ==> r.category == TextCell(JoinedCategoryName(m, categories).value)
    ensures r.year == NotAvailable <==> m.year.None? || m.year.value == 0
    ensures r.year != NotAvailable ==> r.year == IntCell(m.year.value)
    ensures r.rating == NotAvailable <==> m.rating.None? || m.rating.value == 0.0
    ensures r.rating != NotAvailable ==> r.rating == RealCell(m.rating.value)
    ensures r.views == ViewsOrZero(m)
  {
    var name := JoinedCategoryName(m, categories);
    TableRow(
      m,
      m.title,
      if name.Some? && name.value != "" then TextCell(name.value) else NotAvailable,
      if m.year.Some? && m.year.value != 0 then IntCell(m.year.value) else NotAvailable,
      if m.rating.Some? && m.rating.value != 0.0 then RealCell(m.rating.value) else NotAvailable,
      ViewsOrZero(m))
  }

  /** The movies a table shows, in display order. */
  function MoviesOf(rows: seq<TableRow>): (ms: seq<Movie>)
    ensures |ms| == |rows|
    ensures forall i :: 0 <= i < |rows| ==> ms[i] == rows[i].movie
  {
    seq(|rows|, i requires 0 <= i < |rows| => rows[i].movie)
  }

  /** The table: every movie once, newest first, each with its cells. */
  function AdminTable(table: seq<Movie>, categories: seq<Category>): (rows: seq<TableRow>)
    ensures |rows| == |table|
    ensures multiset(MoviesOf(rows)) == multiset(table)
    ensures NewestFirst(MoviesOf(rows))
    ensures forall i :: 0 <= i < |rows| ==> rows[i] == RowView(rows[i].movie, categories)
  {
    var sorted := SortNewestFirst(table);
    var rows := seq(|sorted|, i requires 0 <= i < |sorted| => RowView(sorted[i], categories));
    assert MoviesOf(rows) == sorted;
    rows
  }
}
