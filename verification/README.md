# flick-flow-manage, modelled in Dafny

flick-flow-manage is a movie catalogue. It has two parts:

- a public listing page, which filters, orders and pages the `movies` table;
- an admin area with these screens:
  - categories, whose slug is derived from the category name;
  - movies;
  - an "Add New Movie" form;
  - a dashboard;
  - a page and a dialog that import titles from The Movie Database (TMDB) through the `tmdb-import` edge function.

This project models the sequential logic under those screens as pure Dafny functions over immutable rows, and proves properties about it. The screens' event handlers become state-transition functions. The database and the provider are modelled by the answers they give. Those answers are parameters: `Result` values that either carry the data or the thrown error.

Modules, one per source file, plus shared ones:

| module | file | models |
|---|---|---|
| `Basics` | basics.dfy | `Option`, `Result`, thrown values, order-preserving `Filter` |
| `Text` | text.dfy | ASCII lower-casing, `parseInt`/`toString` on digits, `trim`, `split("-")[0]`, case-insensitive substring |
| `Rows` | rows.dfy | `movies` and `categories` rows, newest-first order, `views \|\| 0` |
| `Slug` | slug.dfy | `generateSlug` of the category form |
| `CategoriesAdmin` | categories_admin.dfy | category form, save and table update |
| `AdminCrud` | admin_crud.dfy | add/edit dialog, update-or-insert, confirmed delete (shared by the two admin tables) |
| `MoviesAdmin` | movies_admin.dfy | movie form prefill and edits, save, the admin table and its fallbacks |
| `AddMovie` | add_movie.dfy | required-field validation, payload, submit/settle |
| `Catalog` | catalog.dfy | filter composition, genre resolution, window, page count, URL handlers, pager |
| `ImportProxy` | import_proxy.dfy | the edge function: preflight, key check, dispatch, row mapping |
| `ImportScreen` | import_screen.dfy | the import page and dialog state machines, end to end with the edge function |
| `Dashboard` | dashboard.dfy | the views total and the three figures |

## Model

| member | source | states |
|---|---|---|
| `Basics.MessageOf` | supabase/functions/tmdb-import/index.ts:93 | A thrown `Error` reports its own message; any other thrown value reports "Unknown error". |
| `Text.Lower` | src/pages/admin/Categories.tsx:188 | Lower-casing keeps the length, maps each character independently and leaves no ASCII capital. |
| `Text.LeadingDigits` | supabase/functions/tmdb-import/index.ts:66 | The digits `parseInt` reads form the longest all-digit prefix: the next character, if any, is not a digit. |
| `Text.ParseLeadingNat` | src/pages/Index.tsx:24 | `parseInt` is NaN exactly when the text does not start with a digit; otherwise it is the value of the leading digits. |
| `Text.ParseWholeNumber` | src/pages/Index.tsx:62-64 | A year parameter is a number exactly when it is non-empty and all digits. |
| `Text.NatToString` | src/pages/Index.tsx:111 | `toString` writes a non-empty digit string without leading zeros that denotes the number. |
| `Text.ParseLeadingNatRoundTrip` | src/pages/Index.tsx:24 | Reading a page number that `toString` wrote gives the number back, whatever non-digit text follows it. |
| `Text.Trim` | src/pages/admin/Import.tsx:89 | The trimmed query is the slice of the query that starts right after its leading white space; only white space follows it, and it neither starts nor ends with white space. |
| `Text.TrimEmptyIffBlank` | src/components/admin/TMDBImportDialog.tsx:88 | A query trims to nothing exactly when every character of it is white space. |
| `Text.BeforeHyphen` | supabase/functions/tmdb-import/index.ts:66 | `split("-")[0]` is the longest hyphen-free prefix; a hyphen or the end of the text follows it. |
| `Text.BeforeHyphenOf` | src/pages/admin/Import.tsx:170 | For a hyphen-free head followed by a hyphen, `split("-")[0]` returns exactly that head. |
| `Rows.SortNewestFirst` | src/pages/admin/Movies.tsx:44 | Ordering by `created_at` descending gives the same rows, as a multiset, with creation times non-increasing. |
| `Rows.InsertByDateKeepsRows` | src/pages/admin/Movies.tsx:44 | Placing a row into the order adds exactly that row and keeps every other. |
| `Rows.InsertByDateKeepsOrder` | src/pages/admin/Movies.tsx:44 | Placing a row into a newest-first list keeps it newest first. |
| `Rows.ViewsOrZero` | src/pages/admin/Movies.tsx:130 | `views \|\| 0` is the stored count when there is one, and 0 when it is missing. |
| `Slug.CollapseRuns` | src/pages/admin/Categories.tsx:189 | The output uses only `a-z`, `0-9` and `-`, never has two hyphens in a row, and ends with a hyphen exactly when the input ends with a separator. |
| `Slug.CollapseRunsKeepsLettersAndDigits` | src/pages/admin/Categories.tsx:189 | Without its hyphens, the collapsed text is exactly the input's letters and digits, in order. |
| `Slug.TrimEdgeHyphensMakesSlug` | src/pages/admin/Categories.tsx:190 | Dropping the edge hyphens of collapsed text gives a well-formed slug. |
| `Slug.TrimEdgeHyphensKeepsLettersAndDigits` | src/pages/admin/Categories.tsx:190 | Dropping the edge hyphens removes nothing but hyphens. |
| `Slug.GenerateSlug` | src/pages/admin/Categories.tsx:186-191 | Every slug is well-formed: only `a-z`, `0-9` and `-`, no doubled hyphen, no hyphen at either end. Removing its hyphens gives the lower-cased name's letters and digits in their original order. |
| `Slug.CollapseRunsKeepsSlugText` | src/pages/admin/Categories.tsx:189 | Collapsing leaves text unchanged when it is over the slug alphabet and has no doubled hyphens. |
| `Slug.CollapseRunsAppendAlnum` | src/pages/admin/Categories.tsx:189 | Letters and digits pass through the collapsing unchanged. |
| `Slug.CollapseRunsAppendSeparators` | src/pages/admin/Categories.tsx:189 | A whole run of separators after a letter or digit becomes exactly one hyphen. |
| `Slug.GenerateSlugKeepsSlugs` | src/pages/admin/Categories.tsx:186-191 | A well-formed slug is its own slug. |
| `Slug.GenerateSlugIdempotent` | src/pages/admin/Categories.tsx:186-191 | Deriving the slug of a slug changes nothing. |
| `Slug.GenerateSlugFixedPoints` | src/pages/admin/Categories.tsx:186-191 | The strings that slug derivation leaves unchanged are exactly the well-formed slugs. |
| `Slug.SlugInOnePass` | src/pages/admin/Categories.tsx:186-191 | One left-to-right pass with a pending-separator flag computes the same slug as the three chained steps. |
| `Slug.GenerateSlugExample` | src/pages/admin/Categories.tsx:186-191 | "Sci-Fi & Fantasy" becomes "sci-fi-fantasy". |
| `CategoriesAdmin.OpenForm` | src/pages/admin/Categories.tsx:148-151 | The form starts from the edited category's name and slug, or blank when adding. |
| `CategoriesAdmin.EditName` | src/pages/admin/Categories.tsx:200-206 | Typing a name stores it and replaces the slug with a well-formed slug made from that name's letters and digits. |
| `CategoriesAdmin.EditSlug` | src/pages/admin/Categories.tsx:212 | Typing in the slug field stores the slug as typed; the name is unchanged. |
| `CategoriesAdmin.NameEditDiscardsManualSlug` | src/pages/admin/Categories.tsx:200-206 | A slug typed by hand does not survive a later name edit. |
| `CategoriesAdmin.SlugEditAfterNameEdit` | src/pages/admin/Categories.tsx:212 | A slug typed after the name is kept as typed, next to that name. |
| `CategoriesAdmin.Submit` | src/pages/admin/Categories.tsx:156-184 | A submit sends something exactly when both required fields are non-empty. It sends the form's data, as an update of the edited category's id when editing and an insert otherwise. |
| `CategoriesAdmin.ApplyWrite` | src/pages/admin/Categories.tsx:158-167 | An update rewrites name and slug of the rows with that id; every other row and every id stay unchanged. An insert appends one row and leaves the existing rows alone. |
| `CategoriesAdmin.SavedFormReopens` | src/pages/admin/Categories.tsx:148-167 | After a save, reopening the saved row (the edited id, or the new row) shows exactly the saved name and slug. |
| `AdminCrud.AddClicked` | src/pages/admin/Categories.tsx:72 | "Add" opens the dialog with nothing being edited. |
| `AdminCrud.EditClicked` | src/pages/admin/Movies.tsx:135-138 | The pencil button opens the dialog on that row. |
| `AdminCrud.FormClosed` | src/pages/admin/Movies.tsx:102-105 | Closing the form both closes the dialog and clears the edited row. |
| `AdminCrud.OpenChanged` | src/pages/admin/Categories.tsx:69 | The dialog's own open/close requests only toggle `open` and keep the edited row. |
| `AdminCrud.AddAfterEditCreates` | src/pages/admin/Movies.tsx:86 | After any edit, "Add" opens in create mode, and so does reopening after a close. |
| `AdminCrud.DialogTexts` | src/pages/admin/Categories.tsx:83 | The title reads "Edit <noun>" exactly when a row is edited and "Add New <noun>" exactly when none is; the submit button reads "Update" and "Create" in the same two cases (Movies.tsx lines 96 and 331 follow the same rule). |
| `AdminCrud.SaveRequest` | src/pages/admin/Movies.tsx:184-196 | A save writes only when the required inputs are filled. It carries the form's data: an update of the edited row's id exactly when a row is edited, an insert otherwise. |
| `AdminCrud.SaveSettled` | src/pages/admin/Categories.tsx:169-178 | Only a successful save closes the dialog and shows a toast ("… updated" when editing, "… added" otherwise). A failed save changes nothing. |
| `AdminCrud.DeleteRequest` | src/pages/admin/Movies.tsx:70-74 | A delete is issued exactly when the prompt is confirmed, and it targets exactly that id. |
| `AdminCrud.DeleteRemovesExactlyThatId` | src/pages/admin/Movies.tsx:59-63 | After `delete().eq("id", id)` no row has that id, every row with another id is still there, and each such row occurs exactly as often as before. |
| `AdminCrud.DeleteSettled` | src/pages/admin/Categories.tsx:44-59 | An unconfirmed or failed delete leaves the table and the toasts alone. A confirmed one that succeeds leaves the table as `delete().eq("id", id)` does, removing exactly the rows with that id, and shows "… deleted successfully". |
| `AddMovie.Missing` | src/pages/admin/AddMovie.tsx:61-99 | The failing fields are exactly the blank required ones: title, description, poster, download, year, rating and duration. |
| `AddMovie.ErrorLines` | src/pages/admin/AddMovie.tsx:62-98 | The line of a required field is shown exactly when that field is among the errors. |
| `AddMovie.ErrorMessagesDistinct` | src/pages/admin/AddMovie.tsx:62-112 | No two fields share a non-empty error line. |
| `AddMovie.OptionalFieldsNeverBlock` | src/pages/admin/AddMovie.tsx:74-113 | Banner, trailer and category never affect validation. |
| `AddMovie.Validate` | src/pages/admin/AddMovie.tsx:38-46 | Validation fails exactly when a required field is blank, and reports those fields. Otherwise the payload equals the form field by field, with year, rating and duration as numbers. |
| `AddMovie.ValidateInputOf` | src/pages/admin/AddMovie.tsx:41-46 | A row with its required text filled in is exactly what the form submits when its inputs hold that row. |
| `AddMovie.Submit` | src/pages/admin/AddMovie.tsx:38-60 | A submit does nothing while another is in flight, nor when the rating is not a multiple of 0.1 (the browser blocks the form). With a failing rule it only shows the errors. Otherwise it starts the insert of the validated payload, whose rating is a multiple of 0.1, and marks the form as submitting. |
| `AddMovie.RefusedSubmitShowsMissingFields` | src/pages/admin/AddMovie.tsx:60-98 | A submission the rules refuse sends nothing and shows the line of a required field exactly when that field is blank. |
| `AddMovie.RatingStepExamples` | src/pages/admin/AddMovie.tsx:93 | The rating input accepts 7.5 and 8.0, and refuses 7.55. |
| `AddMovie.Settle` | src/pages/admin/AddMovie.tsx:47-54 | Only a success resets the form, with the success toast. A failure keeps every input and reports the error's message. Both end the submission. |
| `AddMovie.RetryAfterFailure` | src/pages/admin/AddMovie.tsx:50-53 | After a failed insert, submitting again sends the same payload. |
| `MoviesAdmin.EditField` | src/pages/admin/Movies.tsx:212-324 | An input's change sets that field to the typed text; every other field keeps its value. |
| `MoviesAdmin.EditsOfDifferentFieldsCommute` | src/pages/admin/Movies.tsx:226-228 | Edits of two different inputs give the same form in either order. |
| `MoviesAdmin.Prefill` | src/pages/admin/Movies.tsx:168-179 | Each input starts from the edited row's value when that value is truthy, and from `""` otherwise (null, empty text, zero). All inputs start blank when adding. |
| `MoviesAdmin.ZeroPrefillsAsEmpty` | src/pages/admin/Movies.tsx:173-174 | A stored year or rating of 0 prefills as `""`, not as the stored value. |
| `MoviesAdmin.PrefillKeepsTruthyColumns` | src/pages/admin/Movies.tsx:168-179 | Every truthy column is prefilled exactly as stored. |
| `MoviesAdmin.Submit` | src/pages/admin/Movies.tsx:184-209 | A save is sent exactly when the required title is non-empty. It carries the form as it stands: an update by the edited movie's id, or an insert. |
| `MoviesAdmin.EditThenSaveTargetsThatRow` | src/pages/admin/Movies.tsx:186-190 | Opening a row and saving at once updates that row's id with its prefilled values. |
| `MoviesAdmin.JoinedCategoryName` | src/pages/admin/Movies.tsx:43 | The joined name is absent exactly when the row has no category id or no category has it. Otherwise it is the name of a category with that id. |
| `MoviesAdmin.RowView` | src/pages/admin/Movies.tsx:126-130 | These cells show "N/A":<br>• category, exactly when the joined name is missing or empty;<br>• year, exactly when it is missing or 0;<br>• rating, exactly when it is missing or 0.<br>Any other cell shows the stored value. Views show the count, or 0 when missing. |
| `MoviesAdmin.AdminTable` | src/pages/admin/Movies.tsx:38-48 | The table lists every movie once, as a permutation of the table, newest first, each with its cells. |
| `ImportScreen.BodyOf` | src/pages/admin/Import.tsx:46-48 | A search call carries action "search" and the query. An import call carries action "import", the movie id and the category. |
| `ImportScreen.SearchAnswer` | src/pages/admin/Import.tsx:46-50 | The screen receives the payload exactly for a 200 search response. Otherwise it receives the client's error "Edge Function returned a non-2xx status code", never the function's own `error` text. |
| `ImportScreen.ImportAnswer` | src/pages/admin/Import.tsx:68-72 | An import succeeds on screen exactly for a 200 response. Otherwise the screen receives the client's generic non-2xx error. |
| `ImportScreen.MissingKeyToastsGenericMessage` | supabase/functions/tmdb-import/index.ts:17-20 | Without the provider key, a search toasts "Search failed" and an import toasts "Import failed". Both carry the client's generic message, which differs from "TMDB API key not configured". |
| `ImportScreen.TypeQuery` | src/pages/admin/Import.tsx:124 | Typing sets the query to the text as typed and changes nothing else. |
| `ImportScreen.LastTypedQueryIsSent` | src/components/admin/TMDBImportDialog.tsx:123 | A search sends the last text typed, as typed, exactly when it holds a non-white-space character. |
| `ImportScreen.SubmitSearch` | src/pages/admin/Import.tsx:87-93 | A search is ignored while another runs. Otherwise it is sent exactly when the trimmed query is non-empty. The query goes out untrimmed, and the screen is marked as searching. |
| `ImportScreen.SearchIffNotBlank` | src/components/admin/TMDBImportDialog.tsx:86-92 | A search is sent exactly when the query holds a non-white-space character. |
| `ImportScreen.SearchSettled` | src/pages/admin/Import.tsx:52-63 | A success shows `data.results`, or `[]` without a list. A failure keeps the results and shows "Search failed" with the message. Both end the search. |
| `ImportScreen.SearchShowsProviderResults` | src/components/admin/TMDBImportDialog.tsx:41-51 | End to end with the edge function: the provider gets the typed query and nothing is inserted. The screen then shows exactly the provider's results. |
| `ImportScreen.SelectCategory` | src/pages/admin/Import.tsx:137 | Choosing a category replaces the previous choice and changes nothing else. |
| `ImportScreen.LastChosenCategoryIsSent` | src/components/admin/TMDBImportDialog.tsx:136 | An import sends the category chosen last, and is refused while the choice is still the initial empty one. |
| `ImportScreen.RequestImport` | src/pages/admin/Import.tsx:95-104 | While an import is pending nothing happens. With no category chosen, a toast asks for one and nothing is sent. Otherwise exactly the movie id and the chosen category are sent. |
| `ImportScreen.ImportSettled` | src/components/admin/TMDBImportDialog.tsx:71-84 | Both outcomes end the pending import and show a toast. A success in the dialog clears results and query; the page, or a failure, keeps them. |
| `ImportScreen.ImportUsesChosenCategory` | src/pages/admin/Import.tsx:66-73 | End to end: once both provider calls succeed, the inserted row has the category chosen on the screen. |
| `ImportScreen.DialogResetsAfterImport` | src/components/admin/TMDBImportDialog.tsx:74-75 | After a successful import the dialog shows no results, and its empty query does not search. |
| `ImportScreen.ShowsResultsAfterSearch` | src/pages/admin/Import.tsx:133 | When a search ends, the category selector and the result grid appear exactly when it succeeded with a non-empty list. After a failed search they stay as they were. The dialog has the same condition at src/components/admin/TMDBImportDialog.tsx:132. |
| `ImportScreen.ShowsNoMovies` | src/pages/admin/Import.tsx:188 | "No movies found" shows only on the page, and exactly when the query is non-empty, there are no results and no search runs. |
| `ImportScreen.ImportButtonsEnabled` | src/components/admin/TMDBImportDialog.tsx:177 | The import buttons are enabled exactly when no import is pending. |
| `ImportScreen.SearchLabel` | src/pages/admin/Import.tsx:127-129 | The button reads "Searching..." exactly while a search runs. |
| `ImportScreen.DisplayYear` | src/pages/admin/Import.tsx:170 | The shown year is the release date's prefix up to its first hyphen, or nothing without a date. |
| `ImportScreen.DisplayYearMatchesStoredYear` | src/components/admin/TMDBImportDialog.tsx:169 | For a date "YYYY-…" the shown year is the numeral the import stores as `year`. |
| `ImportScreen.Thumbnail` | src/components/admin/TMDBImportDialog.tsx:156-162 | A thumbnail exists exactly when the poster path is non-empty. It is the w200 URL in the dialog and the w500 URL on the page. |
| `ImportProxy.ImageUrl` | supabase/functions/tmdb-import/index.ts:60-65 | An image URL exists exactly when the path is non-empty, and it is the base followed by the path. |
| `ImportProxy.FirstTrailer` | supabase/functions/tmdb-import/index.ts:47 | The trailer is the first video of type "Trailer" on "YouTube", and is absent exactly when no video matches. |
| `ImportProxy.TrailerUrl` | supabase/functions/tmdb-import/index.ts:69 | The trailer URL is the watch URL plus the first trailer's key. It is null when the list is missing or has no trailer. |
| `ImportProxy.ReleaseYear` | supabase/functions/tmdb-import/index.ts:66 | The year is `parseInt` of the date before its first hyphen, and null for a missing or empty date. |
| `ImportProxy.ReleaseYearOfDate` | supabase/functions/tmdb-import/index.ts:66 | A date made of a year numeral, a hyphen and anything yields that year. |
| `ImportProxy.ReleaseYearExample` | supabase/functions/tmdb-import/index.ts:66 | "2020-05-01" yields 2020. |
| `ImportProxy.BuildRow` | supabase/functions/tmdb-import/index.ts:55-71 | The insert payload:<br>• copies title, overview, rating and runtime;<br>• prefixes poster (w500) and backdrop (original), each only when its path is non-empty;<br>• takes the release year and the first trailer's URL;<br>• sets the category only when it is non-empty. |
| `ImportProxy.Import` | supabase/functions/tmdb-import/index.ts:35-83 | The details are fetched first, then the videos, and a failing call stops the action with a 500 carrying its message. A row is inserted exactly when both calls succeed, and it is the mapped row. The response is 200 with the stored row exactly when the insert succeeds, and 500 otherwise. |
| `ImportProxy.Serve` | supabase/functions/tmdb-import/index.ts:9-99 | Every response carries the CORS headers and has status 200, 400 or 500. The branches:<br>• OPTIONS gets an empty 200 before anything else;<br>• a body that is not JSON fails;<br>• a missing key gives 500 "TMDB API key not configured" for every action, with no provider call;<br>• an unknown action gives 400 "Invalid action";<br>• a search forwards the query and returns the payload unchanged;<br>• an import inserts exactly the mapped row once both provider calls succeed, and a failed insert gives 500.<br>Only an import ever inserts. |
| `Catalog.Active` | src/pages/Index.tsx:20-23 | A parameter counts exactly when it is present and non-empty. |
| `Catalog.CriteriaOf` | src/pages/Index.tsx:20-23 | Search, featured, genre and year are each on exactly when their parameter is present and non-empty, and then hold the parameter's text. |
| `Catalog.CurrentPage` | src/pages/Index.tsx:24 | A missing or empty `page` is page 1. Otherwise the page is NaN exactly when the text does not start with a digit, and is the value of its leading digits when it does. |
| `Catalog.ResolveGenre` | src/pages/Index.tsx:55-60 | The genre resolves to the id of a category with that slug, the first one; it is absent exactly when no category has the slug. |
| `Catalog.Compose` | src/pages/Index.tsx:47-69 | Each filter is on exactly when its parameter is active, and carries its value: the search term, the minimum rating 8, the resolved category, the year text. The window starts at (page-1)·10, spans exactly 10 positions, and selects page `page` of any row list. |
| `Catalog.Range` | src/pages/Index.tsx:69 | `range(from, to)` returns the rows at positions `from` to `to` that exist, in order. |
| `Catalog.Execute` | src/pages/Index.tsx:43-76 | The read fails exactly when the year is not a whole number, or when the window starts beyond the last matching row. Because the exact count is requested, the database refuses such a range. Otherwise the count is the number of matching rows, and a 10-position window holds at most 10 matching table rows, newest first. |
| `Catalog.RunListing` | src/pages/Index.tsx:40-79 | The read is disabled exactly when there are no categories. A loaded page:<br>• is exactly the current page of the matching rows, newest first;<br>• therefore has at most 10 rows, all from the table, each satisfying every active filter;<br>• counts all matching rows.<br>A NaN page fails the read. With categories, a page number, a numeric year and no gateway failure, the page loads exactly when it does not start beyond the last matching row. A range error occurs only for such a page. |
| `Catalog.LoadedPageNonEmptyIffInRange` | src/pages/Index.tsx:81-83 | On a loaded page, rows appear exactly when the page number is between 1 and the page count of the matching rows. |
| `Catalog.PageListed` | src/pages/Index.tsx:66-75 | The link to page k shows page k of the ordered matching rows. Past the end the read fails, which shows nothing, and that page is empty too. |
| `Catalog.WindowFacts` | src/pages/Index.tsx:66-73 | The window of the ordered matching rows has at most 10 rows, is newest first, and holds only matching rows of the table. |
| `Catalog.WindowOfOrdered` | src/pages/Index.tsx:69-73 | A 10-position window of a newest-first list is newest first and holds rows of that list. |
| `Catalog.EligibleRows` | src/pages/Index.tsx:47-64 | Every eligible row is a table row that satisfies all composed filters. |
| `Catalog.NoFilterKeepsEveryRow` | src/pages/Index.tsx:47-64 | With no active filter every row is eligible. |
| `Catalog.MoreFiltersFewerRows` | src/pages/Index.tsx:47-64 | Activating more filters keeps a subsequence of the wider result, never longer. |
| `Catalog.UnknownGenreIsIgnored` | src/pages/Index.tsx:55-60 | An unknown genre slug gives the same read as no genre at all. |
| `Catalog.PageCount` | src/pages/Index.tsx:83 | The page count is the ceiling of count / 10: the least n with 10·n ≥ count. |
| `Catalog.PageWindowSlice` | src/pages/Index.tsx:66-69 | Page p is the slice from (p-1)·10 to p·10, cut at the end of the rows. |
| `Catalog.PagesTile` | src/pages/Index.tsx:66-69 | The first k pages laid end to end are exactly the first 10·k rows: no gap, no overlap. |
| `Catalog.AllPagesCoverRows` | src/pages/Index.tsx:66-69 | Pages 1 to the page count together return every row exactly once. |
| `Catalog.PageNonEmptyIffInRange` | src/pages/Index.tsx:66-83 | A page has rows exactly when its number is between 1 and the page count. |
| `Catalog.CreatePageUrl` | src/pages/Index.tsx:109-113 | The link's page reads back as n, and every other parameter is preserved. |
| `Catalog.PageUrlKeepsCriteria` | src/pages/Index.tsx:109-113 | A page link keeps the search, featured, genre and year filters of the current page. |
| `Catalog.SetOrDeleteResettingPage` | src/pages/Index.tsx:86-94 | The key is set to a non-empty value or deleted for an empty one. `page` is deleted. Every other key is unchanged. |
| `Catalog.HandleSearch` | src/pages/Index.tsx:85-95 | Typing a search changes only the search criterion and returns to page 1; every other key is unchanged. |
| `Catalog.HandleSelectCategory` | src/pages/Index.tsx:97-107 | Picking a category changes only the genre criterion, with null clearing it, and returns to page 1; every other key is unchanged. |
| `Catalog.PageLinks` | src/pages/Index.tsx:161-173 | Links are numbered 1 to the page count. Each leads to `createPageUrl` of its own number, which reads back that page, and exactly the current one is active. |
| `Catalog.PagerFor` | src/pages/Index.tsx:149-178 | Controls appear exactly when there are more than one page:<br>• links 1 to the page count, each to `createPageUrl` of its number, the current one active;<br>• Previous exactly when the current page is above 1;<br>• Next exactly when it is below the page count, each leading to `createPageUrl` of the page one away. |
| `Catalog.PagerKeepsCriteria` | src/pages/Index.tsx:149-178 | Previous, Next and every numbered link keep the search, featured, genre and year filters of the current page. |
| `Catalog.ViewOf` | src/pages/Index.tsx:134-148 | The spinner shows exactly while loading. The grid shows exactly the fetched movies when there are any, with a pager exactly when the page count exceeds 1. |
| `Catalog.NextIffMoreRows` | src/pages/Index.tsx:174-178 | On page p, Next appears exactly when more than 10·p rows match. |
| `Catalog.EligibleIgnoresPage` | src/pages/Index.tsx:47-69 | The page number does not change which rows match; only the window moves. |
| `Catalog.ListedThroughPages` | src/pages/Index.tsx:161-173 | The rows shown by following page links 1 to k are the first k pages of the matching rows. |
| `Catalog.PagingShowsEveryMatchOnce` | src/pages/Index.tsx:161-173 | Following every page link from 1 to the page count shows each matching row exactly once, newest first. |
| `Rows.NewestFirstIsUnique` | src/pages/Index.tsx:71-73 | When no two different rows share a creation time, two newest-first arrangements of the same rows are equal. |
| `Catalog.AnyNewestFirstAnswerIsTheModels` | src/pages/Index.tsx:71-73 | When creation times identify the table's rows, any newest-first answer of the database for a query equals the model's order. |
| `Dashboard.TotalViews` | src/pages/admin/Dashboard.tsx:36 | The views total of no rows is 0, and the total of non-negative counts is non-negative. |
| `Dashboard.TotalViewsAppend` | src/pages/admin/Dashboard.tsx:36 | The total of two lists laid end to end is the sum of their totals. |
| `Dashboard.TotalViewsPermutation` | src/pages/admin/Dashboard.tsx:36 | The total does not depend on the order of the rows. |
| `Dashboard.MissingViewsCountZero` | src/pages/admin/Dashboard.tsx:36 | Rows without a view count add nothing to the total. |
| `Dashboard.ShownCount` | src/pages/admin/Dashboard.tsx:7-16 | A count shows as the returned count, and as 0 when the count is null or the query failed. |
| `Dashboard.ShownViews` | src/pages/admin/Dashboard.tsx:29-38 | The views figure is the total once the rows arrive, and 0 otherwise. |
| `Dashboard.Stats` | src/pages/admin/Dashboard.tsx:40-62 | There are exactly three figures, titled "Total Movies", "Categories" and "Total Views" in that order, each with its value. |

## Left out

- The Supabase client, PostgREST and the database engine are not modelled.
  - Tables are sequences.
  - A read returns its rows in the order the query asks for.
  - Every gateway or provider answer is an input (`Result`) instead of a network call.
  - JSON payloads are reduced to the fields the code reads.
- react-query is reduced to the settled outcome of each call. Left out:
  - caching, stale data, invalidation keys, retries;
  - the order in which concurrent responses arrive.
- `Catalog.ListedThroughPages`, `Catalog.PagingShowsEveryMatchOnce`: every page read is taken to order rows with equal `created_at` in the same way, the one `Rows.SortNewestFirst` gives. The source orders by `created_at` alone, and PostgreSQL does not promise a consistent order among equal keys across separate LIMIT/OFFSET reads. So when rows share a creation time, paging may show one of them twice and skip another. When creation times identify rows, `Catalog.AnyNewestFirstAnswerIsTheModels` shows the order is forced, and both lemmas then hold whatever the database does with ties.
- The listing query that is disabled (no categories yet) is taken to be "not loading", as in react-query v5. The page then shows "No movies found".
- `Catalog.RunListing`: the title filter is a plain case-insensitive substring test. `%`, `_` and `*` in the search term are not treated as `ilike` wildcards.
- `Text.Lower`: only ASCII `A`-`Z` are lower-cased. Unicode case mapping is not modelled: characters such as the Kelvin sign lower-case to ASCII in JavaScript.
- `Text.ParseLeadingNat`: reads digit-prefixed text only. `parseInt`'s leading white space and signs are not modelled; such text is treated as NaN.
- `Catalog.RunListing`: a year parameter that is not all digits makes the read fail, and a NaN page does the same. The database's own cast rules, such as signs or surrounding white space, are not modelled.
- `Catalog.Range`: negative offsets (page 0 or below) are clipped to the start of the rows. What the database does with a negative offset is not modelled.
- `Catalog.RunListing`: categories are taken as given. The `order("name")` of the category read is not modelled, so "first category with the slug" means first in the given list.
- `ImportProxy.ReleaseYear`: the source calls `parseInt` without a radix, so a segment starting with `0x` or `0X` is read as hexadecimal (`"0x7E4-01-01"` gives 2020). The model reads decimal digits only and gives 0 for such a segment. Dates from the provider are `YYYY-MM-DD` or empty. A segment that does not start with a digit gives NaN in the source, which JSON carries as null; the model gives null directly.
- Formatting is not modelled:
  - `toFixed(1)` of the vote average;
  - `toLocaleString` of the views total (the figure is the number);
  - URL serialisation of the parameters (parameters are a map).
- `AddMovie.Submit`: the category select of the "Add New Movie" form stores its value through `control.setValue`, whose behaviour lives in the form library. The category is therefore an input of the model that the form passes through unchanged.
- `AddMovie.Validate`: number inputs are modelled as whole numbers (year, duration) or reals (rating). The form library's rules fail only on a blank required input. The browser's own `step="0.1"` check of the rating is modelled in `AddMovie.Submit`, before validation runs. The browser's other checks are not modelled: fractional years and durations (the integer type excludes them) and its NaN for unparsable text.
- `MoviesAdmin.Submit`: the form's values go out as they stand, text and numbers mixed. How the database coerces them, or rejects `""` for a number column, is not modelled.
- Presentation, routing and layout are not modelled: navigation bar, sidebar, cards, about and contact pages.
- Toast timing and dismissal are not modelled; the last toast is kept in the state.
