/** The category admin screen (src/pages/admin/Categories.tsx): a table of
    categories with an add/edit dialog whose form derives the slug from the
    name, a save that updates by id or inserts, and a confirmed delete. */
module CategoriesAdmin {
  import opened Basics
  import opened Rows
  import opened Slug
  import opened AdminCrud

  /** The two fields of the category form. */
  datatype CategoryForm = CategoryForm(name: string, slug: string)

  /** The form's first state: the edited category's name and slug, or two
      empty fields when adding. */
  function OpenForm(editing: Option<Category>): (f: CategoryForm)
    ensures editing.None? ==> f.name == "" && f.slug == ""
    ensures editing.Some? ==> f.name == editing.value.name && f.slug == editing.value.slug
  {
    match editing
    case None => CategoryForm("", "")
    case Some(c) => CategoryForm(c.name, c.slug)
  }

  /** Typing in the name field: the slug is derived again from the new name,
      whatever was in the slug field before. */
  function EditName(f: CategoryForm, name: string): (g: CategoryForm)
    ensures g.name == name
    ensures IsSlug(g.slug)
    ensures Filter(g.slug, NotHyphen) == Filter(Text.Lower(name), Text.IsLowerAlnum)
  {
    CategoryForm(name, GenerateSlug(name))
  }

  /** Typing in the slug field: only the slug changes, and it is taken as typed. */
  function EditSlug(f: CategoryForm, slug: string): (g: CategoryForm)
    ensures g.name == f.name
    ensures g.slug == slug
  {
    f.(slug := slug)
  }

  /** A manual slug does not survive a later change of the name: the form
      after a name edit does not depend on what the form held before. */
  lemma NameEditDiscardsManualSlug(f: CategoryForm, slug: string, name: string)
    ensures EditName(EditSlug(f, slug), name) == EditName(f, name)
  {
  }

  /** A slug typed after the name is kept as typed, next to that name. */
  lemma SlugEditAfterNameEdit(f: CategoryForm, name: string, slug: string)
    ensures EditSlug(EditName(f, name), slug) == CategoryForm(name, slug)
  {
  }

  /** Both inputs are `required`: the browser submits the form only when
      neither field is empty. */
  predicate CanSubmit(f: CategoryForm)
  {
    f.name != "" && f.slug != ""
  }

  // ---------------------------------------------------------------------------
  // Saving

  /** Submitting the form: nothing while a required field is empty,
      otherwise the update of the edited category's id or an insert. */
  function Submit(editing: Option<Category>, f: CategoryForm): (w: Option<Write<CategoryForm>>)
    ensures w.Some? <==> f.name != "" && f.slug != ""
    ensures w.Some? ==> w.value.data == f
    ensures w.Some? ==> (w.value.UpdateWhere? <==> editing.Some?)
    ensures w.Some? && w.value.UpdateWhere? ==> w.value.id == editing.value.id
  {
    SaveRequest(if editing.Some? then Some(editing.value.id) else None, f, CanSubmit(f))
  }

  /** The table after the write. An update rewrites name and slug of every
      row with the id and leaves the others alone; an insert adds one row,
      whose id the database assigns. */
  function ApplyWrite(table: seq<Category>, w: Write<CategoryForm>, newId: string): (r: seq<Category>)
    ensures w.UpdateWhere? ==> |r| == |table|
    ensures w.UpdateWhere? ==> forall i :: 0 <= i < |table| ==>
      && r[i].id == table[i].id
      && (table[i].id == w.id ==> r[i].name == w.data.name && r[i].slug == w.data.slug)
      && (table[i].id != w.id ==> r[i] == table[i])
    ensures w.InsertRow? ==> |r| == |table| + 1 && r[..|table|] == table
    ensures w.InsertRow? ==> r[|table|] == Category(newId, w.data.name, w.data.slug)
  {
    match w
    case UpdateWhere(id, data) =>
      seq(|table|, i requires 0 <= i < |table| =>
        if table[i].id == id then table[i].(name := data.name, slug := data.slug) else table[i])
    case InsertRow(data) => table + [Category(newId, data.name, data.slug)]
  }

  /** Save, then edit again: the row the dialog reopens on shows the name and
      slug that were saved, both when the row was edited and when it was new. */
  lemma SavedFormReopens(table: seq<Category>, editing: Option<Category>, f: CategoryForm, newId: string)
    requires CanSubmit(f)
    requires editing.Some? ==> exists i :: 0 <= i < |table| && table[i].id == editing.value.id
    ensures var r := ApplyWrite(table, Submit(editing, f).value, newId);
            exists i :: 0 <= i < |r| && OpenForm(Some(r[i])) == f
              && (editing.Some? ==> r[i].id == editing.value.id)
              && (editing.None? ==> r[i].id == newId)
  {
    var w := Submit(editing, f).value;
    var r := ApplyWrite(table, w, newId);
    if editing.Some? {
      var i :| 0 <= i < |table| && table[i].id == editing.value.id;
      assert OpenForm(Some(r[i])) == f;
    } else {
      assert OpenForm(Some(r[|table|])) == f;
    }
  }
}
