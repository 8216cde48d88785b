/**
  The entry form of src/components/form-requirements.tsx: the checkbox
  toggle (shared with the review form), the media selection handler, the
  submit guard and the submit button's enablement, each over the provider
  session and the browser state.
*/
module FormRequirements {
  import opened Wrappers
  import opened FormTypes
  import opened Cookies
  import opened Storage
  import opened FormContext
  import opened Media
  import opened UploadField

  /** The three options the checkbox group offers. */
  const Options: seq<string> := ["Option A", "Option B", "Option C"]

  /** `xs.filter(item => item !== x)`. */
  function Without(xs: seq<string>, x: string): (r: seq<string>)
    ensures x !in r
    ensures forall y :: y != x ==> multiset(r)[y] == multiset(xs)[y]
    ensures IsSubsequence(r, xs)
    decreases |xs|
  {
    if |xs| == 0 then []
    else if xs[0] == x then
      var rest := Without(xs[1..], x);
      assert xs == [xs[0]] + xs[1..];
      SubsequenceDrop(rest, xs);
      rest
    else
      var rest := Without(xs[1..], x);
      assert xs == [xs[0]] + xs[1..];
      assert ([xs[0]] + rest)[1..] == rest;
      [xs[0]] + rest
  }

  /** `r` is `xs` with some elements left out, the rest in their order. */
  predicate IsSubsequence(r: seq<string>, xs: seq<string>)
    decreases |xs|
  {
    if |r| == 0 then true
    else if |xs| == 0 then false
    else if r[0] == xs[0] then IsSubsequence(r[1..], xs[1..])
    else IsSubsequence(r, xs[1..])
  }

  lemma SubsequenceDrop(r: seq<string>, xs: seq<string>)
    requires |xs| > 0 && IsSubsequence(r, xs[1..])
    ensures IsSubsequence(r, xs)
    decreases |xs|, 0
  {
    if |r| > 0 && r[0] == xs[0] {
      SubsequenceTail(r, xs[1..]);
    }
  }

  lemma SubsequenceTail(r: seq<string>, xs: seq<string>)
    requires |r| > 0 && IsSubsequence(r, xs)
    ensures IsSubsequence(r[1..], xs)
    decreases |xs|, 1
  {
    if r[0] == xs[0] {
      SubsequenceDrop(r[1..], xs);
    } else {
      SubsequenceTail(r, xs[1..]);
      SubsequenceDrop(r[1..], xs);
    }
  }

  /** `onCheckedChange` of one option: checking appends it at the end,
      unchecking removes every copy and keeps the others in order. */
  function ToggleOption(selected: seq<string>, option: string, checked: bool): (r: seq<string>)
    ensures checked ==> |r| == |selected| + 1 && r[..|selected|] == selected && r[|selected|] == option
    ensures !checked ==> option !in r && IsSubsequence(r, selected)
    ensures !checked ==> forall y :: y != option ==> multiset(r)[y] == multiset(selected)[y]
  {
    if checked then selected + [option] else Without(selected, option)
  }

  /** Removing what is absent changes nothing. */
  lemma {:induction false} WithoutAbsent(xs: seq<string>, x: string)
    requires x !in xs
    ensures Without(xs, x) == xs
    decreases |xs|
  {
    if |xs| > 0 {
      assert xs[0] != x;
      WithoutAbsent(xs[1..], x);
      assert xs == [xs[0]] + xs[1..];
    }
  }

  /** Removal distributes over concatenation. */
  lemma {:induction false} WithoutAppend(xs: seq<string>, ys: seq<string>, x: string)
    ensures Without(xs + ys, x) == Without(xs, x) + Without(ys, x)
    decreases |xs|
  {
    if |xs| == 0 {
      assert xs + ys == ys;
    } else {
      assert (xs + ys)[0] == xs[0];
      assert (xs + ys)[1..] == xs[1..] + ys;
      WithoutAppend(xs[1..], ys, x);
    }
  }

  /** Checking an unchecked option and unchecking it again restores the
      selection exactly. */
  lemma ToggleRoundTrip(selected: seq<string>, option: string)
    requires option !in selected
    ensures ToggleOption(ToggleOption(selected, option, true), option, false) == selected
  {
    WithoutAppend(selected, [option], option);
    WithoutAbsent(selected, option);
    assert Without([option], option) == [] by {
      assert [option][1..] == [];
    }
  }

  /** Unchecking twice is unchecking once. */
  lemma UncheckIdempotent(selected: seq<string>, option: string)
    ensures ToggleOption(ToggleOption(selected, option, false), option, false)
         == ToggleOption(selected, option, false)
  {
    WithoutAbsent(Without(selected, option), option);
  }

  /** The two media fields. */
  datatype MediaSlot = ImageSlot | VideoSlot

  /** The field update for a media slot. */
  function MediaValue(slot: MediaSlot, m: Option<MediaFile>): (v: FieldValue)
    ensures KeyOf(v) == (if slot == ImageSlot then ImageKey else VideoKey)
  {
    match slot
    case ImageSlot => Image(m)
    case VideoSlot => Video(m)
  }

  /** The media a slot holds. */
  function SlotMedia(f: FormData, slot: MediaSlot): Option<MediaFile> {
    match slot
    case ImageSlot => f.image
    case VideoSlot => f.video
  }

  /** What `handleFileSelect` did: the session it leaves and the error toast
      it raised, if any. */
  datatype SelectResult = SelectResult(session: Session, toast: Option<string>)

  /** `handleFileSelect`: convert the file and store it in its slot; a
      rejected conversion is reported by toast and caught, so the returned
      promise always resolves. */
  function HandleFileSelect(s: Session, f: File, read: ReadOutcome, slot: MediaSlot): (r: SelectResult)
    ensures FileToMediaFile(f, read).Ok? ==>
              SlotMedia(r.session.form, slot) == Some(FileToMediaFile(f, read).value) && r.toast.None?
    ensures FileToMediaFile(f, read).Ok? ==>
              && (forall k :: k != KeyOf(MediaValue(slot, None)) ==> Get(r.session.form, k) == Get(s.form, k))
              && r.session.(form := s.form) == s
    ensures FileToMediaFile(f, read).Err? ==> r.session == s && r.toast == Some(FileToMediaFile(f, read).error)
  {
    match FileToMediaFile(f, read)
    case Ok(m) => SelectResult(UpdateField(s, MediaValue(slot, Some(m))), None)
    case Err(message) => SelectResult(s, Some(message))
  }

  /** The `fileName` prop the widget of a slot receives: `formData.image?.name`. */
  function FileNameProp(f: FormData, slot: MediaSlot): Option<string> {
    match SlotMedia(f, slot)
    case None => None
    case Some(m) => Some(m.name)
  }

  /** One upload through a slot's widget as written: `processFile` awaits
      `handleFileSelect`, which always resolves, and the sync effect runs if
      the stored file's name changed the prop. `draws` are the progress
      ticks that fire meanwhile. */
  function UploadAsWritten(s: Session, w: Widget, f: File, draws: seq<Draw>, read: ReadOutcome, slot: MediaSlot): (r: (Session, Widget))
    ensures r.0 == HandleFileSelect(s, f, read, slot).session
    ensures FileToMediaFile(f, read).Err? ==> r.1.status == Completed
  {
    var s' := HandleFileSelect(s, f, read, slot).session;
    var w' := ProcessFile(w, f, draws, true);
    (s', PropChange(w', FileNameProp(s.form, slot), FileNameProp(s'.form, slot)))
  }

  /** As written, a file the guard rejects still leaves the widget showing
      "Upload complete" while the slot keeps its old value: an 11 MiB image
      dropped on an empty image field is one such input. */
  lemma UploadAsWrittenShowsRejectedFileComplete(s: Session, w: Widget, name: string, mimeType: string, draws: seq<Draw>, url: string)
    requires s.form.image.None?
    ensures var f := File(name, mimeType, 11 * 1024 * 1024);
            var r := UploadAsWritten(s, w, f, draws, Loaded(url), ImageSlot);
            r.1.status == Completed && r.1.currentName == Some(name) && r.0.form.image.None?
  {
  }

  /** `handleFileSelect` with the rejection passed on to the widget after
      the toast, so that `processFile` sees the failure. */
  function UploadPropagating(s: Session, w: Widget, f: File, draws: seq<Draw>, read: ReadOutcome, slot: MediaSlot): (r: (Session, Widget))
    ensures r.0 == HandleFileSelect(s, f, read, slot).session
  {
    var ok := FileToMediaFile(f, read).Ok?;
    var s' := HandleFileSelect(s, f, read, slot).session;
    var w' := ProcessFile(w, f, draws, ok);
    (s', PropChange(w', FileNameProp(s.form, slot), FileNameProp(s'.form, slot)))
  }

  /** With the failure passed on, the widget completes exactly when the file
      was stored in its slot, and shows the error state otherwise; the file
      it names is the one in the slot. */
  lemma UploadPropagatingAgrees(s: Session, w: Widget, f: File, draws: seq<Draw>, read: ReadOutcome, slot: MediaSlot)
    requires f.name != ""
    ensures var r := UploadPropagating(s, w, f, draws, read, slot);
            && (r.1.status == Completed <==> FileToMediaFile(f, read).Ok?)
            && (r.1.status == Completed ==> FileNameProp(r.0.form, slot) == r.1.currentName)
            && (r.1.status != Completed ==> r.1.status == Failed && r.0 == s)
  {
  }

  /** `disabled={!isFormValid || !isChecked || isLoading}`. */
  function SubmitDisabled(s: Session, isChecked: bool): (r: bool)
    ensures s.form == Initial ==> r
    ensures !r <==> IsFormValid(s.form) && isChecked && !s.isLoading
  {
    InitialInvalid();
    !IsFormValid(s.form) || !isChecked || s.isLoading
  }

  /** The page's own state besides the provider: the terms checkbox. */
  datatype Page = Page(session: Session, browser: Browser, isChecked: bool)

  datatype Toast = Success(message: string) | Error(message: string)

  const SubmittedMessage: string := "Form submitted successfully"
  const IncompleteMessage: string := "Please fill all required fields"

  /** `handleSubmit` as written: when the form is valid and the terms are
      accepted, submit, announce success, reset the form without clearing
      storage and uncheck the terms; otherwise only an error toast. */
  function HandleSubmit(p: Page, c: Codecs, expires: string): (r: (Page, Toast))
    ensures !(IsFormValid(p.session.form) && p.isChecked) ==> r == (p, Error(IncompleteMessage))
    ensures IsFormValid(p.session.form) && p.isChecked ==>
              && r.1 == Success(SubmittedMessage)
              && r.0.session.form == Initial
              && !r.0.isChecked
  {
    if IsFormValid(p.session.form) && p.isChecked then
      var (s1, b1, _) := Submit(p.session, p.browser, c, expires);
      var (s2, b2) := Reset(s1, b1, false);
      (Page(s2, b2, false), Success(SubmittedMessage))
    else
      (p, Error(IncompleteMessage))
  }

  /** An enabled button always passes the guard, and a guard that passes
      always writes storage as `submit` does: when that write succeeds, the
      form that was on the page is in every slot the browser offers, although
      the page itself now shows the blank form. */
  lemma EnabledButtonSubmits(p: Page, c: Codecs, expires: string)
    requires !SubmitDisabled(p.session, p.isChecked)
    ensures HandleSubmit(p, c, expires).1 == Success(SubmittedMessage)
    ensures HandleSubmit(p, c, expires).0.browser == Submit(p.session, p.browser, c, expires).1
    ensures Lawful(c) && WellFormed(p.browser.jar) && Submit(p.session, p.browser, c, expires).2.Saved? ==>
              && (p.browser.hasWindow ==> LoadFromLocalStorage(HandleSubmit(p, c, expires).0.browser, c) == Some(Whole(p.session.form)))
              && (p.browser.hasDocument ==> LoadFromCookie(HandleSubmit(p, c, expires).0.browser, c) == Some(Whole(p.session.form)))
  {
    if Lawful(c) && WellFormed(p.browser.jar) && Submit(p.session, p.browser, c, expires).2.Saved? {
      SubmitStoresBoth(p.session, p.browser, c, expires);
    }
  }

  /** A page with a valid form, the terms checked and no submit in flight
      has an enabled button, and a click on it announces success. */
  lemma ReadyPageSubmits(p: Page, c: Codecs, expires: string)
    requires IsFormValid(p.session.form) && p.isChecked && !p.session.isLoading
    ensures !SubmitDisabled(p.session, p.isChecked)
    ensures HandleSubmit(p, c, expires).1 == Success(SubmittedMessage)
    ensures HandleSubmit(p, c, expires).0.session.form == Initial
  {
    EnabledButtonSubmits(p, c, expires);
  }

  /** As written, a submit whose localStorage write throws still announces
      success and resets the form, and nothing was stored: with a quota of
      zero the valid form is gone from both the page and storage. */
  lemma HandleSubmitLosesFormOnQuota(p: Page, c: Codecs, expires: string)
    requires Lawful(c) && p.browser.hasWindow && p.browser.quota == 0
    requires IsFormValid(p.session.form) && p.isChecked
    ensures HandleSubmit(p, c, expires).1 == Success(SubmittedMessage)
    ensures HandleSubmit(p, c, expires).0.session.form == Initial
    ensures HandleSubmit(p, c, expires).0.browser == p.browser
  {
  }

  const SaveFailedMessage: string := "Failed to save form data"

  /** `handleSubmit` with the outcome of `submit` checked: only a submit that
      stored the form announces success and resets; a failed one keeps the
      fields and the terms box and reports the failure. */
  function HandleSubmitChecked(p: Page, c: Codecs, expires: string): (r: (Page, Toast))
    ensures !(IsFormValid(p.session.form) && p.isChecked) ==> r == (p, Error(IncompleteMessage))
  {
    if IsFormValid(p.session.form) && p.isChecked then
      var (s1, b1, outcome) := Submit(p.session, p.browser, c, expires);
      match outcome
      case Saved =>
        var (s2, b2) := Reset(s1, b1, false);
        (Page(s2, b2, false), Success(SubmittedMessage))
      case SaveFailed(_) =>
        (Page(s1, b1, p.isChecked), Error(SaveFailedMessage))
    else
      (p, Error(IncompleteMessage))
  }

  /** With the outcome checked, a submit never loses the form: either the
      page still holds it, or a fresh provider restores it from storage. */
  lemma HandleSubmitCheckedKeepsForm(p: Page, c: Codecs, expires: string)
    requires Lawful(c) && WellFormed(p.browser.jar) && p.browser.hasWindow
    ensures var r := HandleSubmitChecked(p, c, expires);
            || r.0.session.form == p.session.form
            || HydrateOnMount(InitialSession, r.0.browser, c).form == p.session.form
    ensures HandleSubmitChecked(p, c, expires).1 == Success(SubmittedMessage) ==>
              HydrateOnMount(InitialSession, HandleSubmitChecked(p, c, expires).0.browser, c).form == p.session.form
  {
    if IsFormValid(p.session.form) && p.isChecked && Submit(p.session, p.browser, c, expires).2.Saved? {
      SubmitThenRemount(p.session, p.browser, c, expires);
    }
  }

  /** `onFileClear` of a slot's widget: the slot becomes empty, the other
      fields stay, and the widget returns to its idle drop zone. */
  lemma ClearSlot(s: Session, w: Widget, slot: MediaSlot)
    ensures SlotMedia(UpdateField(s, MediaValue(slot, None)).form, slot).None?
    ensures forall k :: k != KeyOf(MediaValue(slot, None)) ==>
              Get(UpdateField(s, MediaValue(slot, None)).form, k) == Get(s.form, k)
    ensures HandleClear(w).status == Idle && !ShowsFileInfo(HandleClear(w))
  {
    var r := UpdateField(s, MediaValue(slot, None));
    assert Get(r.form, KeyOf(MediaValue(slot, None))) == MediaValue(slot, None);
  }
}
