/**
  The summary page of src/app/summary/page.tsx: it opens on the latest saved
  form, shows the selected record, and deletes the selected form and moves
  on to the new latest one. Its selector is the same menu and label rule as
  `FormSelector`. `getFormById` is a parameter; the list `getAllSavedForms`
  returns after a deletion is an input.
*/
module SummaryPage {
  import opened Wrappers
  import opened FormTypes
  import opened Storage
  import opened FormSelector

  datatype SummaryState = SummaryState(savedForms: seq<SavedForm>, selectedFormId: string)

  /** The two lazy initialisers: the saved list, and its last form's id or
      "" when there is none. */
  function Open(forms: seq<SavedForm>): (r: SummaryState)
    ensures r.savedForms == forms
    ensures |forms| > 0 ==> r.selectedFormId == forms[|forms| - 1].id
    ensures |forms| == 0 ==> r.selectedFormId == ""
  {
    SummaryState(forms, LatestId(forms))
  }

  /** The memoised record: none without a selection, otherwise whatever
      `getFormById` returns for the selected id. */
  function Displayed(st: SummaryState, lookup: string -> Option<FormData>): (r: Option<FormData>)
    ensures st.selectedFormId == "" ==> r.None?
    ensures st.selectedFormId != "" ==> r == lookup(st.selectedFormId)
  {
    if st.selectedFormId == "" then None else lookup(st.selectedFormId)
  }

  /** `handleFormSelected`: a cleared selection is stored as "". */
  function HandleFormSelected(st: SummaryState, value: Option<string>): (r: SummaryState)
    ensures r.savedForms == st.savedForms
    ensures r.selectedFormId == NormaliseSelection(value)
  {
    st.(selectedFormId := NormaliseSelection(value))
  }

  /** A cleared selection shows no record, whatever the lookup holds. */
  lemma ClearedSelectionShowsNothing(st: SummaryState, lookup: string -> Option<FormData>)
    ensures Displayed(HandleFormSelected(st, None), lookup).None?
  {
  }

  /** `handleDeleteForm`: with nothing selected, nothing happens and nothing
      is deleted. Otherwise the selected id goes to `deleteFormById`, the
      page takes the re-read list `after`, and selects its last form or "".
      The second component is the id handed to `deleteFormById`. */
  function HandleDelete(st: SummaryState, after: seq<SavedForm>): (r: (SummaryState, Option<string>))
    ensures st.selectedFormId == "" ==> r == (st, None)
    ensures st.selectedFormId != "" ==> r.1 == Some(st.selectedFormId) && r.0 == Open(after)
  {
    if st.selectedFormId == "" then (st, None)
    else (SummaryState(after, LatestId(after)), Some(st.selectedFormId))
  }

  /** The page keeps its selection among the saved forms: opening, choosing
      from the menu and deleting all preserve it. */
  predicate Invariant(st: SummaryState) {
    SelectionValid(st.savedForms, st.selectedFormId)
  }

  lemma OpenKeepsInvariant(forms: seq<SavedForm>)
    ensures Invariant(Open(forms))
  {
    LatestIdValid(forms);
  }

  lemma SelectKeepsInvariant(st: SummaryState, value: Option<string>, localDate: string -> string)
    requires value.Some? ==> MenuOffers(Menu(st.savedForms, localDate), value.value)
    ensures Invariant(HandleFormSelected(st, value))
  {
    MenuChoiceValid(st.savedForms, localDate, value);
  }

  lemma DeleteKeepsInvariant(st: SummaryState, after: seq<SavedForm>)
    requires Invariant(st)
    ensures Invariant(HandleDelete(st, after).0)
  {
    LatestIdValid(after);
  }

  /** Hence the trigger label's `find(...)!` always finds a form. */
  lemma InvariantGivesCaption(st: SummaryState, localDate: string -> string)
    requires Invariant(st)
    ensures TriggerCaption(st.savedForms, st.selectedFormId, localDate).Some?
  {
    ValidSelectionHasCaption(st.savedForms, st.selectedFormId, localDate);
  }

  /** Once the deleted form is gone from the re-read list, the page never
      stays on it: it moves to another form or to no selection. */
  lemma DeleteLeavesDeletedForm(st: SummaryState, after: seq<SavedForm>)
    requires st.selectedFormId != ""
    requires !Offered(after, st.selectedFormId)
    ensures HandleDelete(st, after).0.selectedFormId != st.selectedFormId
    ensures Invariant(HandleDelete(st, after).0)
  {
    LatestIdValid(after);
  }

  /** The delete button renders only with a selection, so the no-op branch
      is reached only by a direct call. */
  function ShowsDeleteButton(st: SummaryState): (b: bool)
    ensures b <==> HandleDelete(st, st.savedForms).1.Some?
  {
    st.selectedFormId != ""
  }
}
