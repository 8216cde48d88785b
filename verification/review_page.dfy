/**
  The review page of src/app/review/page.tsx: it lists the saved forms,
  selects the latest on mount, loads the selected record into the shared
  form state, and sends the edited form to `updateFormById`. The saved-form
  collection is an abstract sequence; `getFormById` is a parameter and the
  outcome of `updateFormById` is an input.
*/
module ReviewPage {
  import opened Wrappers
  import opened FormTypes
  import opened Storage
  import opened FormContext
  import opened FormSelector
  import opened FormRequirements

  /** `getFormById`, left uninterpreted. */
  type FormLookup = string -> Option<FormData>

  /** The page's own state and the context session it drives. */
  datatype ReviewState = ReviewState(savedForms: seq<SavedForm>, selectedFormId: string, session: Session)

  /** The load effect: with an id selected and a record found for it, load
      that record into the form; otherwise leave everything as it is. */
  function LoadSelected(st: ReviewState, lookup: FormLookup): (r: ReviewState)
    ensures r.savedForms == st.savedForms && r.selectedFormId == st.selectedFormId
    ensures r.session.(form := st.session.form) == st.session
    ensures st.selectedFormId != "" && lookup(st.selectedFormId).Some? ==> r.session.form == lookup(st.selectedFormId).value
    ensures st.selectedFormId == "" || lookup(st.selectedFormId).None? ==> r == st
  {
    if st.selectedFormId == "" then st
    else
      match lookup(st.selectedFormId)
      case None => st
      case Some(d) =>
        LoadWholeRecord(st.session, d);
        st.(session := LoadFormData(st.session, Whole(d)))
  }

  /** `setSelectedFormId`: the effect keyed on the id runs only when the id
      actually changes. */
  function Select(st: ReviewState, id: string, lookup: FormLookup): (r: ReviewState)
    ensures r.savedForms == st.savedForms && r.selectedFormId == id
    ensures id == st.selectedFormId ==> r == st
    ensures id != st.selectedFormId ==> r == LoadSelected(st.(selectedFormId := id), lookup)
  {
    if id == st.selectedFormId then st else LoadSelected(st.(selectedFormId := id), lookup)
  }

  /** The mount effect on a fresh page: take the saved list and select its
      last form; with an empty list the selection stays "". */
  function Mount(session: Session, forms: seq<SavedForm>, lookup: FormLookup): (r: ReviewState)
    ensures r.savedForms == forms && r.selectedFormId == LatestId(forms)
  {
    var st := ReviewState(forms, "", session);
    if |forms| > 0 then Select(st, forms[|forms| - 1].id, lookup) else st
  }

  /** On mount the page shows the latest record when `getFormById` finds it,
      and leaves the form alone otherwise. */
  lemma MountLoadsLatest(session: Session, forms: seq<SavedForm>, lookup: FormLookup)
    ensures SelectionValid(forms, Mount(session, forms, lookup).selectedFormId)
    ensures LatestId(forms) != "" && lookup(LatestId(forms)).Some? ==> Mount(session, forms, lookup).session.form == lookup(LatestId(forms)).value
    ensures LatestId(forms) == "" || lookup(LatestId(forms)).None? ==> Mount(session, forms, lookup).session == session
  {
    LatestIdValid(forms);
  }

  /** `handleFormSelect`, fed by the selector's `value || ""`. */
  function HandleFormSelect(st: ReviewState, value: Option<string>, lookup: FormLookup): (r: ReviewState)
    ensures r.savedForms == st.savedForms && r.selectedFormId == NormaliseSelection(value)
    ensures value.None? ==> r.selectedFormId == "" && r.session == st.session
    ensures var id := NormaliseSelection(value);
            id != st.selectedFormId && id != "" && lookup(id).Some? ==> r.session.form == lookup(id).value
  {
    Select(st, NormaliseSelection(value), lookup)
  }

  /** Choosing from the menu keeps the selection among the saved forms, so
      the selector's trigger always finds a form to label. */
  lemma FormSelectKeepsSelectionValid(st: ReviewState, value: Option<string>, lookup: FormLookup, localDate: string -> string)
    requires value.Some? ==> MenuOffers(Menu(st.savedForms, localDate), value.value)
    ensures SelectionValid(HandleFormSelect(st, value, lookup).savedForms, HandleFormSelect(st, value, lookup).selectedFormId)
    ensures TriggerCaption(HandleFormSelect(st, value, lookup).savedForms, HandleFormSelect(st, value, lookup).selectedFormId, localDate).Some?
  {
    MenuChoiceValid(st.savedForms, localDate, value);
  }

  /** Picking the form already selected reloads nothing: edits made since
      survive. */
  lemma ReselectKeepsEdits(st: ReviewState, lookup: FormLookup)
    ensures HandleFormSelect(st, Some(st.selectedFormId), lookup) == st
  {
  }

  /** What `updateFormById` threw: an `Error` with its message, or any other
      value. */
  datatype Thrown = ErrorObject(message: string) | OtherThrown

  const NoSelectionMessage: string := "Please select a form to update"
  const UpdatedMessage: string := "Form updated successfully"
  const UpdateFailedMessage: string := "Failed to update form"

  /** The text an error toast shows for a throw. */
  function ThrownMessage(t: Thrown): (m: string)
    ensures t.ErrorObject? ==> m == t.message
    ensures t.OtherThrown? ==> m == UpdateFailedMessage
  {
    match t
    case ErrorObject(msg) => msg
    case OtherThrown => UpdateFailedMessage
  }

  /** What `handleUpdate` did: the `updateFormById` call it made, if any,
      and the toast it raised. */
  datatype UpdateReport = UpdateReport(call: Option<(string, FormData)>, toast: Toast)

  /** `handleUpdate`: with no selection report it and call nothing;
      otherwise send the current form under the selected id, and report
      success or the caught throw. `outcome` is what the call would do:
      `None` when it returns, `Some(t)` when it throws `t`. */
  function HandleUpdate(st: ReviewState, outcome: Option<Thrown>): (r: UpdateReport)
    ensures r.call.Some? <==> st.selectedFormId != ""
    ensures r.call.Some? ==> r.call.value == (st.selectedFormId, st.session.form)
    ensures r.toast.Success? <==> r.call.Some? && outcome.None?
    ensures st.selectedFormId == "" ==> r.toast == Error(NoSelectionMessage)
    ensures r.call.Some? && outcome.Some? ==> r.toast == Error(ThrownMessage(outcome.value))
  {
    if st.selectedFormId == "" then UpdateReport(None, Error(NoSelectionMessage))
    else
      var call := Some((st.selectedFormId, st.session.form));
      match outcome
      case None => UpdateReport(call, Success(UpdatedMessage))
      case Some(t) => UpdateReport(call, Error(ThrownMessage(t)))
  }

  /** Without a selection the update is never attempted, so what it would
      have done cannot matter. */
  lemma UpdateWithoutSelectionIgnoresOutcome(st: ReviewState, o1: Option<Thrown>, o2: Option<Thrown>)
    requires st.selectedFormId == ""
    ensures HandleUpdate(st, o1) == HandleUpdate(st, o2)
  {
  }

  /** Every throw becomes an error toast; none escapes the handler. */
  lemma UpdateThrowsAreReported(st: ReviewState, t: Thrown)
    ensures HandleUpdate(st, Some(t)).toast.Error?
    ensures HandleUpdate(st, Some(t)).toast.message != UpdatedMessage || t == ErrorObject(UpdatedMessage)
  {
  }

  /** Which of the two conditional blocks the page renders. */
  datatype PageView = PageView(showsReviewForm: bool, showsEmptyMessage: bool)

  /** The review form needs a selection; the empty message needs no
      selection and no saved forms. */
  function Render(st: ReviewState): (r: PageView)
    ensures r.showsReviewForm <==> st.selectedFormId != ""
    ensures r.showsEmptyMessage <==> st.selectedFormId == "" && |st.savedForms| == 0
    ensures !(r.showsReviewForm && r.showsEmptyMessage)
  {
    PageView(st.selectedFormId != "", st.selectedFormId == "" && |st.savedForms| == 0)
  }

  /** After mount the empty message shows exactly when nothing is saved, and
      a saved latest form with an id brings up the review form. */
  lemma MountRenders(session: Session, forms: seq<SavedForm>, lookup: FormLookup)
    ensures Render(Mount(session, forms, lookup)).showsEmptyMessage <==> |forms| == 0
    ensures Render(Mount(session, forms, lookup)).showsReviewForm <==> LatestId(forms) != ""
  {
  }
}
