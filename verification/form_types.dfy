/**
  The form record: nine fields, always all present, with an uploaded file
  held as a media descriptor or explicitly absent. Also the per-field view of
  the record that the reducer's `SET_FIELD` and the object spread
  `{ ...initialFormData, ...stored }` work on.
*/
module FormTypes {
  import opened Wrappers

  /** An uploaded file: its name, MIME type, size in bytes and its content
      as a base64 data URL. */
  datatype MediaFile = MediaFile(name: string, mimeType: string, size: nat, dataUrl: string)

  /** The single-selection radio value: "low", "medium", "high" or "". */
  datatype Priority = Unset | Low | Medium | High

  /** The string a priority is stored and compared as. */
  function PriorityLabel(p: Priority): (s: string)
    ensures s in {"low", "medium", "high", ""}
    ensures s == "" <==> p == Unset
  {
    match p
    case Unset => ""
    case Low => "low"
    case Medium => "medium"
    case High => "high"
  }

  /** The four labels are distinct, so a stored label names one priority. */
  lemma PriorityLabelInjective(p: Priority, q: Priority)
    requires PriorityLabel(p) == PriorityLabel(q)
    ensures p == q
  {
  }

  datatype FormData = FormData(
    name: string,
    email: string,
    description: string,
    image: Option<MediaFile>,
    video: Option<MediaFile>,
    radioSingleSelection: Priority,
    multiCheckboxes: seq<string>,
    status: string,
    dueDate: string)

  /** The empty form every session starts from and every reset returns to. */
  const Initial: FormData :=
    FormData("", "", "", None, None, Unset, [], "", "")

  /** The initial form is blank: empty text, no media, no priority, no options. */
  lemma InitialIsBlank()
    ensures Initial.name == "" && Initial.email == "" && Initial.description == ""
    ensures Initial.status == "" && Initial.dueDate == ""
    ensures Initial.image.None? && Initial.video.None?
    ensures PriorityLabel(Initial.radioSingleSelection) == ""
    ensures |Initial.multiCheckboxes| == 0
  {
  }

  /** The keys of the form record. */
  datatype Field =
    | NameKey | EmailKey | DescriptionKey | ImageKey | VideoKey
    | RadioSingleSelectionKey | MultiCheckboxesKey | StatusKey | DueDateKey

  /** A key together with a value of that key's type. */
  datatype FieldValue =
    | Name(string)
    | Email(string)
    | Description(string)
    | Image(Option<MediaFile>)
    | Video(Option<MediaFile>)
    | RadioSingleSelection(Priority)
    | MultiCheckboxes(seq<string>)
    | Status(string)
    | DueDate(string)

  function KeyOf(v: FieldValue): Field {
    match v
    case Name(_) => NameKey
    case Email(_) => EmailKey
    case Description(_) => DescriptionKey
    case Image(_) => ImageKey
    case Video(_) => VideoKey
    case RadioSingleSelection(_) => RadioSingleSelectionKey
    case MultiCheckboxes(_) => MultiCheckboxesKey
    case Status(_) => StatusKey
    case DueDate(_) => DueDateKey
  }

  /** `form[key]`: every key of every form has a value of that key's type. */
  function Get(f: FormData, k: Field): (v: FieldValue)
    ensures KeyOf(v) == k
  {
    match k
    case NameKey => Name(f.name)
    case EmailKey => Email(f.email)
    case DescriptionKey => Description(f.description)
    case ImageKey => Image(f.image)
    case VideoKey => Video(f.video)
    case RadioSingleSelectionKey => RadioSingleSelection(f.radioSingleSelection)
    case MultiCheckboxesKey => MultiCheckboxes(f.multiCheckboxes)
    case StatusKey => Status(f.status)
    case DueDateKey => DueDate(f.dueDate)
  }

  /** Two forms that agree on every key are the same form. */
  lemma FormExtensionality(a: FormData, b: FormData)
    requires forall k :: Get(a, k) == Get(b, k)
    ensures a == b
  {
    assert Get(a, NameKey) == Get(b, NameKey);
    assert Get(a, EmailKey) == Get(b, EmailKey);
    assert Get(a, DescriptionKey) == Get(b, DescriptionKey);
    assert Get(a, ImageKey) == Get(b, ImageKey);
    assert Get(a, VideoKey) == Get(b, VideoKey);
    assert Get(a, RadioSingleSelectionKey) == Get(b, RadioSingleSelectionKey);
    assert Get(a, MultiCheckboxesKey) == Get(b, MultiCheckboxesKey);
    assert Get(a, StatusKey) == Get(b, StatusKey);
    assert Get(a, DueDateKey) == Get(b, DueDateKey);
  }

  /** `{ ...f, [key]: value }`: the named key takes the value and every other
      key keeps its value. */
  function SetField(f: FormData, v: FieldValue): (r: FormData)
    ensures Get(r, KeyOf(v)) == v
    ensures forall k :: k != KeyOf(v) ==> Get(r, k) == Get(f, k)
  {
    match v
    case Name(s) => f.(name := s)
    case Email(s) => f.(email := s)
    case Description(s) => f.(description := s)
    case Image(m) => f.(image := m)
    case Video(m) => f.(video := m)
    case RadioSingleSelection(p) => f.(radioSingleSelection := p)
    case MultiCheckboxes(xs) => f.(multiCheckboxes := xs)
    case Status(s) => f.(status := s)
    case DueDate(s) => f.(dueDate := s)
  }

  /** A form as `JSON.parse` may return it from older stored data: any key
      may be missing. A present media key may still hold `null`. */
  datatype PartialForm = PartialForm(
    name: Option<string>,
    email: Option<string>,
    description: Option<string>,
    image: Option<Option<MediaFile>>,
    video: Option<Option<MediaFile>>,
    radioSingleSelection: Option<Priority>,
    multiCheckboxes: Option<seq<string>>,
    status: Option<string>,
    dueDate: Option<string>)

  /** The object with no keys at all. */
  const NoFields: PartialForm :=
    PartialForm(None, None, None, None, None, None, None, None, None)

  /** The value a partial form holds under `k`, if the key is present. */
  function PartialGet(p: PartialForm, k: Field): (r: Option<FieldValue>)
    ensures r.Some? ==> KeyOf(r.value) == k
  {
    match k
    case NameKey => if p.name.Some? then Some(Name(p.name.value)) else None
    case EmailKey => if p.email.Some? then Some(Email(p.email.value)) else None
    case DescriptionKey => if p.description.Some? then Some(Description(p.description.value)) else None
    case ImageKey => if p.image.Some? then Some(Image(p.image.value)) else None
    case VideoKey => if p.video.Some? then Some(Video(p.video.value)) else None
    case RadioSingleSelectionKey =>
      if p.radioSingleSelection.Some? then Some(RadioSingleSelection(p.radioSingleSelection.value)) else None
    case MultiCheckboxesKey =>
      if p.multiCheckboxes.Some? then Some(MultiCheckboxes(p.multiCheckboxes.value)) else None
    case StatusKey => if p.status.Some? then Some(Status(p.status.value)) else None
    case DueDateKey => if p.dueDate.Some? then Some(DueDate(p.dueDate.value)) else None
  }

  /** A complete form seen as an object carrying all nine keys. */
  function Whole(d: FormData): (p: PartialForm)
    ensures forall k :: PartialGet(p, k) == Some(Get(d, k))
  {
    PartialForm(Some(d.name), Some(d.email), Some(d.description), Some(d.image), Some(d.video),
                Some(d.radioSingleSelection), Some(d.multiCheckboxes), Some(d.status), Some(d.dueDate))
  }

  /** `{ ...base, ...p }`: each key present in `p` wins, each missing key
      keeps the value it has in `base`. */
  function Merge(base: FormData, p: PartialForm): (r: FormData)
    ensures forall k :: Get(r, k) == PartialGet(p, k).GetOr(Get(base, k))
  {
    FormData(
      p.name.GetOr(base.name),
      p.email.GetOr(base.email),
      p.description.GetOr(base.description),
      p.image.GetOr(base.image),
      p.video.GetOr(base.video),
      p.radioSingleSelection.GetOr(base.radioSingleSelection),
      p.multiCheckboxes.GetOr(base.multiCheckboxes),
      p.status.GetOr(base.status),
      p.dueDate.GetOr(base.dueDate))
  }

  /** Spreading a complete form over any base gives back that form. */
  lemma MergeWhole(base: FormData, d: FormData)
    ensures Merge(base, Whole(d)) == d
  {
    forall k ensures Get(Merge(base, Whole(d)), k) == Get(d, k) {
    }
    FormExtensionality(Merge(base, Whole(d)), d);
  }

  /** Spreading an object with no keys leaves the base unchanged. */
  lemma MergeNoFields(base: FormData)
    ensures Merge(base, NoFields) == base
  {
    forall k ensures Get(Merge(base, NoFields), k) == Get(base, k) {
    }
    FormExtensionality(Merge(base, NoFields), base);
  }

  /** Spreading the same object twice is the same as spreading it once. */
  lemma MergeIdempotent(base: FormData, p: PartialForm)
    ensures Merge(Merge(base, p), p) == Merge(base, p)
  {
    forall k ensures Get(Merge(Merge(base, p), p), k) == Get(Merge(base, p), k) {
    }
    FormExtensionality(Merge(Merge(base, p), p), Merge(base, p));
  }
}
