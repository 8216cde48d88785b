/**
  The form provider of src/context/form-context.tsx: the reducer that owns
  the one form record, the validity flag derived from it, and the provider's
  operations (hydrate on mount, update a field, load a record, submit,
  reset), each a step from one session and browser state to the next.
*/
module FormContext {
  import opened Wrappers
  import opened Text
  import opened FormTypes
  import opened Cookies
  import opened Storage

  /** The four reducer actions. */
  datatype Action =
    | SetFieldAction(value: FieldValue)
    | SetAll(data: FormData)
    | ResetAction
    | HydrateAction(data: FormData)

  /** `formReducer`. */
  function Reduce(state: FormData, a: Action): (r: FormData)
    ensures a.SetFieldAction? ==> Get(r, KeyOf(a.value)) == a.value
    ensures a.SetFieldAction? ==> forall k :: k != KeyOf(a.value) ==> Get(r, k) == Get(state, k)
    ensures a.SetAll? || a.HydrateAction? ==> r == a.data
    ensures a.ResetAction? ==> r == Initial
  {
    match a
    case SetFieldAction(v) => SetField(state, v)
    case SetAll(data) => data
    case HydrateAction(data) => data
    case ResetAction => Initial
  }

  /** Setting the same key twice keeps only the second value. */
  lemma SetFieldLastWins(f: FormData, v: FieldValue, w: FieldValue)
    requires KeyOf(v) == KeyOf(w)
    ensures Reduce(Reduce(f, SetFieldAction(v)), SetFieldAction(w)) == Reduce(f, SetFieldAction(w))
  {
    var lhs, rhs := Reduce(Reduce(f, SetFieldAction(v)), SetFieldAction(w)), Reduce(f, SetFieldAction(w));
    forall k ensures Get(lhs, k) == Get(rhs, k) {
    }
    FormExtensionality(lhs, rhs);
  }

  /** Updates of two different keys can be applied in either order. */
  lemma SetFieldCommutes(f: FormData, v: FieldValue, w: FieldValue)
    requires KeyOf(v) != KeyOf(w)
    ensures Reduce(Reduce(f, SetFieldAction(v)), SetFieldAction(w))
         == Reduce(Reduce(f, SetFieldAction(w)), SetFieldAction(v))
  {
    var lhs := Reduce(Reduce(f, SetFieldAction(v)), SetFieldAction(w));
    var rhs := Reduce(Reduce(f, SetFieldAction(w)), SetFieldAction(v));
    forall k ensures Get(lhs, k) == Get(rhs, k) {
    }
    FormExtensionality(lhs, rhs);
  }

  /** Writing back a key's own value changes nothing. */
  lemma SetFieldOwnValue(f: FormData, k: Field)
    ensures Reduce(f, SetFieldAction(Get(f, k))) == f
  {
    var r := Reduce(f, SetFieldAction(Get(f, k)));
    forall j ensures Get(r, j) == Get(f, j) {
    }
    FormExtensionality(r, f);
  }

  /** The validity flag: the three text fields hold a visible character, both
      media are present, a priority is chosen and a status is set. */
  function IsFormValid(f: FormData): (b: bool)
    ensures b <==> && !AllWhitespace(f.name)
                   && !AllWhitespace(f.email)
                   && !AllWhitespace(f.description)
                   && f.image.Some? && f.video.Some?
                   && f.radioSingleSelection != Unset
                   && f.status != ""
  {
    && Trim(f.name) != ""
    && Trim(f.email) != ""
    && Trim(f.description) != ""
    && f.image.Some?
    && f.video.Some?
    && PriorityLabel(f.radioSingleSelection) != ""
    && f.status != ""
  }

  /** The blank form is never valid. */
  lemma InitialInvalid()
    ensures !IsFormValid(Initial)
  {
  }

  /** The due date and the checkbox options take no part in validity. */
  lemma ValidityIgnoresOptionalFields(f: FormData, v: FieldValue)
    requires KeyOf(v) == DueDateKey || KeyOf(v) == MultiCheckboxesKey
    ensures IsFormValid(SetField(f, v)) == IsFormValid(f)
  {
  }

  /** Surrounding whitespace in the name never changes validity: a name of
      spaces alone counts as missing. */
  lemma ValidityIgnoresPadding(f: FormData, a: string, b: string)
    requires AllWhitespace(a) && AllWhitespace(b)
    ensures IsFormValid(f.(name := a + Trim(f.name) + b)) == IsFormValid(f)
  {
    TrimOfPadded(a, Trim(f.name), b);
  }

  /** The provider's state: the form, whether the mount-time hydration has
      run, and the submit-in-progress flag. */
  datatype Session = Session(form: FormData, isHydrated: bool, isLoading: bool)

  const InitialSession: Session := Session(Initial, false, false)

  /** The mount effect: a stored form, completed with the initial values for
      any key it lacks, replaces the form; in every case the session is
      marked hydrated. */
  function HydrateOnMount(s: Session, b: Browser, c: Codecs): (r: Session)
    ensures r.isHydrated && r.isLoading == s.isLoading
    ensures HydrateFromStorage(b, c).None? ==> r.form == s.form
    ensures HydrateFromStorage(b, c).Some? ==>
              forall k :: Get(r.form, k) == PartialGet(HydrateFromStorage(b, c).value, k).GetOr(Get(Initial, k))
  {
    match HydrateFromStorage(b, c)
    case Some(stored) => s.(form := Reduce(s.form, HydrateAction(Merge(Initial, stored))), isHydrated := true)
    case None => s.(isHydrated := true)
  }

  /** `updateField`. */
  function UpdateField(s: Session, v: FieldValue): (r: Session)
    ensures Get(r.form, KeyOf(v)) == v
    ensures forall k :: k != KeyOf(v) ==> Get(r.form, k) == Get(s.form, k)
    ensures r.(form := s.form) == s
  {
    s.(form := Reduce(s.form, SetFieldAction(v)))
  }

  /** `loadFormData`: the record, completed with initial values for missing
      keys, replaces the whole form. */
  function LoadFormData(s: Session, data: PartialForm): (r: Session)
    ensures forall k :: Get(r.form, k) == PartialGet(data, k).GetOr(Get(Initial, k))
    ensures r.(form := s.form) == s
  {
    s.(form := Reduce(s.form, SetAll(Merge(Initial, data))))
  }

  /** Loading a complete record makes it the form, whatever came before. */
  lemma LoadWholeRecord(s: Session, d: FormData)
    ensures LoadFormData(s, Whole(d)).form == d
  {
    MergeWhole(Initial, d);
  }

  /** How a submit ended: both slots written, or localStorage threw and the
      cookie was never written. */
  datatype SubmitOutcome = Saved | SaveFailed(error: StorageError)

  /** `submit`: write localStorage, then the cookie; a throw from the first
      write skips the second and is caught. The loading flag is back to
      false when the handler returns and the form is untouched. The read-back
      after the writes only feeds the console and is not modelled. */
  function Submit(s: Session, b: Browser, c: Codecs, expires: string): (r: (Session, Browser, SubmitOutcome))
    ensures r.0 == s.(isLoading := false)
    ensures r.2.SaveFailed? <==> b.hasWindow && |c.stringify(s.form)| > b.quota
    ensures r.2.SaveFailed? ==> r.1 == b
  {
    match SaveToLocalStorage(b, c, s.form)
    case Err(e) => (s.(isLoading := false), b, SaveFailed(e))
    case Ok(b1) => (s.(isLoading := false), SaveToCookie(b1, c, s.form, expires), Saved)
  }

  /** A successful submit leaves the whole form in every slot the browser
      offers: under `storage_form_key` in localStorage when there is a window,
      and in the `cookie_form_key` cookie when there is a document. Nothing
      else about the browser changes. */
  lemma SubmitStoresBoth(s: Session, b: Browser, c: Codecs, expires: string)
    requires Lawful(c) && WellFormed(b.jar)
    requires Submit(s, b, c, expires).2.Saved?
    ensures b.hasWindow ==> LoadFromLocalStorage(Submit(s, b, c, expires).1, c) == Some(Whole(s.form))
    ensures b.hasDocument ==> LoadFromCookie(Submit(s, b, c, expires).1, c) == Some(Whole(s.form))
    ensures Submit(s, b, c, expires).1.(local := b.local, jar := b.jar) == b
  {
    var b1 := SaveToLocalStorage(b, c, s.form).value;
    var b2 := Submit(s, b, c, expires).1;
    assert b2 == SaveToCookie(b1, c, s.form, expires);
    if b.hasWindow {
      LocalSaveLoad(b, c, s.form);
      assert b2.local == b1.local && b2.hasWindow;
    }
    if b.hasDocument {
      CookieSaveLoad(b1, c, s.form, expires);
    }
  }

  /** A successful submit persists the form: a fresh provider mounting on the
      resulting browser state hydrates to exactly the submitted form. */
  lemma SubmitThenRemount(s: Session, b: Browser, c: Codecs, expires: string)
    requires Lawful(c) && WellFormed(b.jar)
    requires b.hasWindow || b.hasDocument
    requires Submit(s, b, c, expires).2.Saved?
    ensures HydrateOnMount(InitialSession, Submit(s, b, c, expires).1, c).form == s.form
  {
    HydrateAfterSave(b, c, s.form, expires);
    MergeWhole(Initial, s.form);
  }

  /** `reset`: the form returns to the initial record; with `clearStorage`
      both slots are cleared as well. */
  function Reset(s: Session, b: Browser, clearStorage: bool): (r: (Session, Browser))
    ensures r.0 == s.(form := Initial)
    ensures !clearStorage ==> r.1 == b
    ensures clearStorage ==> r.1.(local := b.local, jar := b.jar) == b
    ensures clearStorage && b.hasWindow ==> StorageKey !in r.1.local
    ensures clearStorage && b.hasDocument ==> Lookup(r.1.jar, CookieName).None?
    ensures clearStorage ==> forall k :: k != StorageKey ==> (k in r.1.local <==> k in b.local)
    ensures clearStorage ==> forall k :: k in r.1.local ==> k in b.local && r.1.local[k] == b.local[k]
    ensures clearStorage && !b.hasWindow ==> r.1.local == b.local
    ensures clearStorage && b.hasDocument ==> forall n :: n != CookieName ==> Lookup(r.1.jar, n) == Lookup(b.jar, n)
    ensures clearStorage && !b.hasDocument ==> r.1.jar == b.jar
  {
    if clearStorage then (s.(form := Initial), ClearCookie(ClearLocalStorage(b)))
    else (s.(form := Initial), b)
  }

  /** After a clearing reset, a fresh provider mounts with the blank form;
      after a reset that keeps storage it mounts with what was stored. */
  lemma ResetThenRemount(s: Session, b: Browser, c: Codecs, clearStorage: bool)
    requires WellFormed(b.jar)
    ensures clearStorage ==> HydrateOnMount(InitialSession, Reset(s, b, clearStorage).1, c).form == Initial
    ensures !clearStorage ==> HydrateOnMount(InitialSession, Reset(s, b, clearStorage).1, c) == HydrateOnMount(InitialSession, b, c)
  {
    if clearStorage {
      HydrateAfterClear(b, c);
    }
  }
}
