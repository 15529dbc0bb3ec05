/** What the two admin tables (src/pages/admin/Categories.tsx and
    src/pages/admin/Movies.tsx) share: the add/edit dialog, the choice
    between updating by id and inserting, how a save ends, and the
    confirmed delete. Both screens follow the same rules word for word,
    so they are stated once, for any kind of row. */
module AdminCrud {
  import opened Basics

  /** The add/edit dialog: whether it is open and which row it edits. */
  datatype EditDialog<T> = EditDialog(open: bool, editing: Option<T>)

  /** The "Add" button: the dialog opens with no row being edited. */
  function AddClicked<T>(d: EditDialog<T>): (e: EditDialog<T>)
    ensures e.open && e.editing.None?
  {
    EditDialog(true, None)
  }

  /** The pencil button of a table row: the dialog opens on that row. */
  function EditClicked<T>(d: EditDialog<T>, row: T): (e: EditDialog<T>)
    ensures e.open && e.editing == Some(row)
  {
    EditDialog(true, Some(row))
  }

  /** The form's `onClose` (Cancel, or a successful save): the dialog closes
      and forgets the edited row. */
  function FormClosed<T>(d: EditDialog<T>): (e: EditDialog<T>)
    ensures !e.open && e.editing.None?
  {
    EditDialog(false, None)
  }

  /** The dialog's own open/close requests (overlay click, Escape) only
      toggle `open`; the edited row is left as it is. */
  function OpenChanged<T>(d: EditDialog<T>, open: bool): (e: EditDialog<T>)
    ensures e.open == open
    ensures e.editing == d.editing
  {
    d.(open := open)
  }

  /** Whichever row was edited before, "Add" opens the form in create mode,
      and a closed form never leaves a row behind for the next opening. */
  lemma AddAfterEditCreates<T>(d: EditDialog<T>, row: T)
    ensures AddClicked(EditClicked(d, row)).editing.None?
    ensures OpenChanged(FormClosed(EditClicked(d, row)), true).editing.None?
  {
  }

  /** The dialog's title and its submit button's label, for rows called
      `noun`: "Edit …" and "Update" while a row is edited, "Add New …" and
      "Create" otherwise. */
  function DialogTexts<T>(d: EditDialog<T>, noun: string): (texts: (string, string))
    ensures d.editing.Some? <==> texts.0 == "Edit " + noun
    ensures d.editing.None? <==> texts.0 == "Add New " + noun
    ensures d.editing.Some? <==> texts.1 == "Update"
    ensures d.editing.None? <==> texts.1 == "Create"
  {
    if d.editing.Some? then
      assert ("Add New " + noun)[0] != ("Edit " + noun)[0];
      ("Edit " + noun, "Update")
    else
      assert ("Add New " + noun)[0] != ("Edit " + noun)[0];
      ("Add New " + noun, "Create")
  }

  // ---------------------------------------------------------------------------
  // Saving

  /** The write a form sends: an update of the rows with the edited row's
      id, or an insert of a new row, carrying the form's data as it stands. */
  datatype Write<F> = UpdateWhere(id: string, data: F) | InsertRow(data: F)

  /** Submitting a form whose browser-checked `required` inputs are `filled`:
      nothing when one is empty, otherwise an update of the edited row's id
      or, when no row is edited, an insert. */
  function SaveRequest<F>(editingId: Option<string>, data: F, filled: bool): (w: Option<Write<F>>)
    ensures w.Some? <==> filled
    ensures w.Some? ==> w.value.data == data
    ensures w.Some? ==> (w.value.UpdateWhere? <==> editingId.Some?)
    ensures w.Some? && w.value.UpdateWhere? ==> w.value.id == editingId.value
  {
    if !filled then None
    else match editingId
      case Some(id) => Some(UpdateWhere(id, data))
      case None => Some(InsertRow(data))
  }

  /** How a save ends. On success the dialog closes and a toast says whether
      the `noun` was updated or added; on failure the dialog stays as it is
      and no toast appears. */
  function SaveSettled<T>(d: EditDialog<T>, editing: bool, noun: string, failure: Option<Thrown>): (out: (EditDialog<T>, Option<string>))
    ensures failure.Some? ==> out == (d, None)
    ensures failure.None? ==> !out.0.open && out.0.editing.None?
    ensures failure.None? && editing ==> out.1 == Some(noun + " updated successfully")
    ensures failure.None? && !editing ==> out.1 == Some(noun + " added successfully")
  {
    if failure.Some? then (d, None)
    else (FormClosed(d), Some(noun + (if editing then " updated successfully" else " added successfully")))
  }

  // ---------------------------------------------------------------------------
  // Deleting

  /** The trash button: a delete of exactly that id once the confirmation
      prompt is accepted, nothing otherwise. */
  function DeleteRequest(confirmed: bool, id: string): (target: Option<string>)
    ensures target.Some? <==> confirmed
    ensures target.Some? ==> target.value == id
  {
    if confirmed then Some(id) else None
  }

  /** The table after `delete().eq("id", id)`. */
  function ApplyDelete<T>(table: seq<T>, idOf: T -> string, id: string): (r: seq<T>)
    ensures |r| <= |table|
  {
    Filter(table, (x: T) => idOf(x) != id)
  }

  /** A delete removes every row with the id and keeps every other row. */
  lemma DeleteRemovesExactlyThatId<T>(table: seq<T>, idOf: T -> string, id: string)
    ensures forall i :: 0 <= i < |ApplyDelete(table, idOf, id)| ==>
      ApplyDelete(table, idOf, id)[i] in table && idOf(ApplyDelete(table, idOf, id)[i]) != id
    ensures forall i :: 0 <= i < |table| && idOf(table[i]) != id ==> table[i] in ApplyDelete(table, idOf, id)
    // Each surviving row is kept as often as the table holds it.
    ensures forall x :: multiset(ApplyDelete(table, idOf, id))[x] == if idOf(x) != id then multiset(table)[x] else 0
  {
    FilterMembers(table, (x: T) => idOf(x) != id);
    FilterCounts(table, (x: T) => idOf(x) != id);
  }

  /** How the trash button ends: without confirmation, or when the delete
      fails, the table stays as it was and no toast appears; otherwise the
      rows with that id are gone and a toast says the `noun` was deleted. */
  function DeleteSettled<T>(table: seq<T>, idOf: T -> string, confirmed: bool, id: string, noun: string, failure: Option<Thrown>): (out: (seq<T>, Option<string>))
    ensures !confirmed || failure.Some? ==> out == (table, None)
    ensures confirmed && failure.None? ==> out.1 == Some(noun + " deleted successfully")
    ensures confirmed && failure.None? ==> out.0 == ApplyDelete(table, idOf, id)
    ensures confirmed && failure.None? ==> forall i :: 0 <= i < |out.0| ==> out.0[i] in table && idOf(out.0[i]) != id
    ensures confirmed && failure.None? ==> forall i :: 0 <= i < |table| && idOf(table[i]) != id ==> table[i] in out.0
  {
    match DeleteRequest(confirmed, id)
    case None => (table, None)
    case Some(target) =>
      if failure.Some? then (table, None)
      else
        DeleteRemovesExactlyThatId(table, idOf, target);
        (ApplyDelete(table, idOf, target), Some(noun + " deleted successfully"))
  }
}
