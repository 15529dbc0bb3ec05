/** The "Add New Movie" form (src/pages/admin/AddMovie.tsx): required-field
    validation, the insert payload built from the fields, and what a
    successful or failed insert does to the form. */
module AddMovie {
  import opened Basics

  /** The inputs of the form. Text inputs hold strings (empty when blank);
      the three number inputs hold a number or nothing when blank. The
      category is whatever the select last stored, if anything. */
  datatype MovieInput = MovieInput(
    title: string,
    description: string,
    posterUrl: string,
    bannerUrl: string,
    trailerUrl: string,
    downloadUrl: string,
    categoryId: Option<string>,
    year: Option<int>,
    rating: Option<real>,
    duration: Option<int>)

  /** The form as `reset()` leaves it: every input blank. */
  const EmptyInput := MovieInput("", "", "", "", "", "", None, None, None, None)

  datatype Field =
    | Title | Description | PosterUrl | BannerUrl | TrailerUrl | DownloadUrl
    | CategoryId | Year | Rating | Duration

  /** The fields registered with `required: true`. Banner, trailer and
      category carry no rule. */
  const RequiredFields: set<Field> := {Title, Description, PosterUrl, DownloadUrl, Year, Rating, Duration}

  /** An input the browser hands over as blank. */
  predicate Blank(input: MovieInput, f: Field)
  {
    match f
    case Title => input.title == ""
    case Description => input.description == ""
    case PosterUrl => input.posterUrl == ""
    case BannerUrl => input.bannerUrl == ""
    case TrailerUrl => input.trailerUrl == ""
    case DownloadUrl => input.downloadUrl == ""
    case CategoryId => input.categoryId.None?
    case Year => input.year.None?
    case Rating => input.rating.None?
    case Duration => input.duration.None?
  }

  /** The error line shown under a field that failed its rule. */
  function ErrorMessage(f: Field): string
  {
    match f
    case Title => "Title is required"
    case Description => "Description is required"
    case PosterUrl => "Poster URL is required"
    case DownloadUrl => "Download URL is required"
    case Year => "Valid year is required"
    case Rating => "Valid rating is required"
    case Duration => "Valid duration is required"
    case BannerUrl => ""
    case TrailerUrl => ""
    case CategoryId => "Category is required"
  }

  /** The error lines shown under the fields, one for each field in `errors`. */
  function ErrorLines(errors: set<Field>): (lines: set<string>)
    ensures forall f :: f in RequiredFields ==> (ErrorMessage(f) in lines <==> f in errors)
  {
    ErrorMessagesDistinct();
    set f | f in errors :: ErrorMessage(f)
  }

  /** No two fields share an error line, except the two optional URL fields
      that show none. */
  lemma ErrorMessagesDistinct()
    ensures forall f, g :: ErrorMessage(f) == ErrorMessage(g) && ErrorMessage(f) != "" ==> f == g
  {
    forall f, g | ErrorMessage(f) == ErrorMessage(g) && ErrorMessage(f) != "" ensures f == g {
      assert ErrorMessage(f)[0] == ErrorMessage(g)[0];
      assert |ErrorMessage(f)| == |ErrorMessage(g)|;
    }
  }

  /** The fields that fail validation, checked one rule at a time in the
      order the form lists them: exactly the required fields left blank. */
  function Missing(input: MovieInput): (errors: set<Field>)
    ensures forall f :: f in errors <==> f in RequiredFields && Blank(input, f)
  {
    (if input.title == "" then {Title} else {})
    + (if input.description == "" then {Description} else {})
    + (if input.posterUrl == "" then {PosterUrl} else {})
    + (if input.downloadUrl == "" then {DownloadUrl} else {})
    + (if input.year.None? then {Year} else {})
    + (if input.rating.None? then {Rating} else {})
    + (if input.duration.None? then {Duration} else {})
  }

  /** Fields without a rule never block a submission. */
  lemma OptionalFieldsNeverBlock(input: MovieInput, banner: string, trailer: string, category: Option<string>)
    ensures Missing(input.(bannerUrl := banner, trailerUrl := trailer, categoryId := category)) == Missing(input)
  {
  }

  /** The row sent to `insert`: the form's fields, with the three number
      inputs as numbers. */
  datatype NewMovie = NewMovie(
    title: string,
    description: string,
    posterUrl: string,
    bannerUrl: string,
    trailerUrl: string,
    downloadUrl: string,
    categoryId: Option<string>,
    year: int,
    rating: real,
    duration: int)

  /** `handleSubmit(onSubmit)`: the insert payload when every rule passes,
      otherwise the set of failing fields. */
  function Validate(input: MovieInput): (r: Result<NewMovie, set<Field>>)
    ensures r.Failure? <==> Missing(input) != {}
    ensures r.Failure? ==> r.error == Missing(input)
    ensures r.Success? ==>
      && r.value.title == input.title && r.value.description == input.description
      && r.value.posterUrl == input.posterUrl && r.value.bannerUrl == input.bannerUrl
      && r.value.trailerUrl == input.trailerUrl && r.value.downloadUrl == input.downloadUrl
      && r.value.categoryId == input.categoryId
      && Some(r.value.year) == input.year && Some(r.value.rating) == input.rating
      && Some(r.value.duration) == input.duration
  {
    var errors := Missing(input);
    if errors != {} then Failure(errors)
    else
      assert Year !in errors && Rating !in errors && Duration !in errors;
      Success(NewMovie(
        input.title, input.description, input.posterUrl, input.bannerUrl,
        input.trailerUrl, input.downloadUrl, input.categoryId,
        input.year.value, input.rating.value, input.duration.value))
  }

  /** The form filled in from a row. */
  function InputOf(m: NewMovie): MovieInput
  {
    MovieInput(m.title, m.description, m.posterUrl, m.bannerUrl, m.trailerUrl,
               m.downloadUrl, m.categoryId, Some(m.year), Some(m.rating), Some(m.duration))
  }

  /** Any row whose required text fields are filled in is exactly what the
      form submits when its inputs hold that row. */
  lemma ValidateInputOf(m: NewMovie)
    requires m.title != "" && m.description != "" && m.posterUrl != "" && m.downloadUrl != ""
    ensures Validate(InputOf(m)) == Success(m)
  {
    assert Missing(InputOf(m)) == {};
  }

  /** What the toast says. */
  datatype Toast = Toast(destructive: bool, title: string, description: string)

  /** The screen: the inputs, whether an insert is in flight, the field
      errors on display, and the last toast. */
  datatype Screen = Screen(input: MovieInput, isSubmitting: bool, errors: set<Field>, toast: Option<Toast>)

  /** A multiple of 0.1: the values the rating input (`type="number"`,
      `step="0.1"`, no `min` and no `value`, so its step base is 0) accepts. */
  predicate WholeTenths(r: real)
  {
    (r * 10.0).Floor as real == r * 10.0
  }

  /** The browser's own check of the number inputs before it lets the form
      submit: a rating that is not a multiple of 0.1 is a step mismatch. The
      year and duration inputs have the default step 1, which their integer
      type already enforces. */
  predicate StepMismatch(input: MovieInput)
  {
    input.rating.Some? && !WholeTenths(input.rating.value)
  }

  /** Submitting: ignored while an insert is in flight (the button is
      disabled), and blocked by the browser on a step mismatch before the
      form's handler runs; with a failing rule the errors are shown and
      nothing is sent; otherwise the insert starts with that payload. */
  function Submit(s: Screen): (out: (Screen, Option<NewMovie>))
    ensures s.isSubmitting || StepMismatch(s.input) ==> out == (s, None)
    ensures !s.isSubmitting && !StepMismatch(s.input) ==> (out.1.Some? <==> Missing(s.input) == {})
    ensures out.1.Some? ==> out.0.isSubmitting && out.0.input == s.input && Validate(s.input) == Success(out.1.value)
    ensures out.1.Some? ==> WholeTenths(out.1.value.rating)
    ensures !s.isSubmitting && !StepMismatch(s.input) && out.1.None? ==> out.0 == s.(errors := Missing(s.input))
  {
    if s.isSubmitting || StepMismatch(s.input) then (s, None)
    else match Validate(s.input)
      case Failure(errors) => (s.(errors := errors), None)
      case Success(row) => (s.(isSubmitting := true, errors := {}), Some(row))
  }

  /** A submission the rules refuse shows exactly the error lines of the
      required fields left blank. */
  lemma RefusedSubmitShowsMissingFields(s: Screen)
    requires !s.isSubmitting && !StepMismatch(s.input) && Missing(s.input) != {}
    ensures Submit(s).1.None?
    ensures forall f :: f in RequiredFields ==> (ErrorMessage(f) in ErrorLines(Submit(s).0.errors) <==> Blank(s.input, f))
  {
  }

  /** "Rating (e.g., 7.5)" goes through the browser's check; 7.55 does not. */
  lemma RatingStepExamples()
    ensures WholeTenths(7.5) && WholeTenths(8.0)
    ensures !WholeTenths(7.55)
  {
    assert 7.5 * 10.0 == 75.0;
    assert 7.55 * 10.0 == 75.5;
    assert (75.5).Floor == 75;
  }

  /** The insert's outcome. Success empties the form and says so; a failure
      keeps every input and reports the database's message. Either way the
      form is no longer submitting. */
  function Settle(s: Screen, failure: Option<string>): (t: Screen)
    ensures !t.isSubmitting
    ensures failure.None? ==> t.input == EmptyInput && t.toast == Some(Toast(false, "Success", "Movie added successfully."))
    ensures failure.Some? ==> t.input == s.input && t.toast == Some(Toast(true, "Error", failure.value))
  {
    match failure
    case None => s.(input := EmptyInput, isSubmitting := false, toast := Some(Toast(false, "Success", "Movie added successfully.")))
    case Some(message) => s.(isSubmitting := false, toast := Some(Toast(true, "Error", message)))
  }

  /** A failed insert can be retried at once: the same payload goes out again. */
  lemma RetryAfterFailure(s: Screen, message: string)
    requires !s.isSubmitting && Missing(s.input) == {}
    ensures var first := Submit(s);
            Submit(Settle(first.0, Some(message))).1 == first.1
  {
  }
}
