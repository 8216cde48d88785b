/**
  The review form of src/components/review/review-form.tsx: where its
  update button goes, its own file reader with no size ceiling, the unit
  its size caption picks, and its media clear buttons. Its checkbox group
  behaves exactly as the entry form's (`FormRequirements.ToggleOption`).
*/
module ReviewForm {
  import opened Wrappers
  import opened Text
  import opened FormTypes
  import opened FormContext
  import opened Media
  import opened FormRequirements

  /** Where `handleUpdate` sends the click. */
  datatype UpdateTarget = CallOnUpdate | CallSubmit

  /** `handleUpdate`: the `onUpdate` prop when given, `submit` otherwise.
      The local "submitted at" stamp is a clock reading and is left out. */
  function HandleUpdate(hasOnUpdate: bool): (r: UpdateTarget)
    ensures r == CallOnUpdate <==> hasOnUpdate
    ensures r == CallSubmit <==> !hasOnUpdate
  {
    if hasOnUpdate then CallOnUpdate else CallSubmit
  }

  /** `UpdateFile`: read the file and describe it, at any size; a reader
      error rejects. */
  function UpdateFile(f: File, read: ReadOutcome): (r: Option<MediaFile>)
    ensures r.Some? <==> read.Loaded?
    ensures r.Some? ==> FileOf(r.value) == f && r.value.dataUrl == read.dataUrl
  {
    match read
    case Loaded(url) => Some(MediaFile(f.name, f.mimeType, f.size, url))
    case ReadFailed => None
  }

  /** The review reader agrees with the entry form's conversion on every file
      the size guard admits, and also accepts the larger ones. */
  lemma UpdateFileExtendsGuard(f: File, read: ReadOutcome)
    ensures f.size <= MaxFileSize && FileToMediaFile(f, read).Ok? ==> UpdateFile(f, read) == Some(FileToMediaFile(f, read).value)
    ensures f.size > MaxFileSize && read.Loaded? ==> UpdateFile(f, read).Some? && FileToMediaFile(f, read).Err?
  {
  }

  /** The unit `ShowFileSize` chooses. The two-decimal figures for KB and MB
      are floating point and are left out. */
  datatype SizeCaption = InBytes(text: string) | InKilobytes | InMegabytes

  const Kibi: nat := 1024

  /** `ShowFileSize`: bytes below 1 KiB, kilobytes below 1 MiB, megabytes
      from there on. */
  function ShowFileSize(bytes: nat): (r: SizeCaption)
    ensures r.InBytes? <==> bytes < Kibi
    ensures r.InKilobytes? <==> Kibi <= bytes < Kibi * Kibi
    ensures r.InMegabytes? <==> Kibi * Kibi <= bytes
    ensures r.InBytes? ==> EndsWith(r.text, " Bytes")
  {
    if bytes < Kibi then InBytes(DecimalString(bytes) + " Bytes")
    else if bytes < Kibi * Kibi then InKilobytes
    else InMegabytes
  }

  function UnitRank(c: SizeCaption): nat {
    match c
    case InBytes(_) => 0
    case InKilobytes => 1
    case InMegabytes => 2
  }

  /** A larger file never gets a smaller unit. */
  lemma ShowFileSizeMonotone(a: nat, b: nat)
    requires a <= b
    ensures UnitRank(ShowFileSize(a)) <= UnitRank(ShowFileSize(b))
  {
  }

  /** A byte caption names the exact size: its digits read back as the
      number of bytes. */
  lemma BytesCaptionReadsBack(bytes: nat)
    requires bytes < Kibi
    ensures var t := ShowFileSize(bytes).text;
            IsDigits(t[..|t| - 6]) && DecimalValue(t[..|t| - 6]) == bytes
  {
    var t := ShowFileSize(bytes).text;
    assert t[..|t| - 6] == DecimalString(bytes);
    DecimalRoundTrip(bytes);
  }

  /** The clear button of a media field empties that field only. */
  function ClearMedia(s: Session, slot: MediaSlot): (r: Session)
    ensures SlotMedia(r.form, slot).None?
    ensures forall k :: k != KeyOf(MediaValue(slot, None)) ==> Get(r.form, k) == Get(s.form, k)
  {
    var r := UpdateField(s, MediaValue(slot, None));
    assert Get(r.form, KeyOf(MediaValue(slot, None))) == MediaValue(slot, None);
    r
  }

  /** A media field's `onFileSelect`: a file that was read replaces the
      field; a read error rejects and the field keeps its value. */
  function SelectMedia(s: Session, f: File, read: ReadOutcome, slot: MediaSlot): (r: Result<Session, ()>)
    ensures r.Ok? <==> read.Loaded?
    ensures r.Ok? ==> SlotMedia(r.value.form, slot) == UpdateFile(f, read)
    ensures r.Ok? ==> forall k :: k != KeyOf(MediaValue(slot, None)) ==> Get(r.value.form, k) == Get(s.form, k)
    ensures r.Ok? ==> r.value.(form := s.form) == s
  {
    match UpdateFile(f, read)
    case None => Err(())
    case Some(m) =>
      var r := UpdateField(s, MediaValue(slot, Some(m)));
      assert Get(r.form, KeyOf(MediaValue(slot, Some(m)))) == MediaValue(slot, Some(m));
      Ok(r)
  }

  /** Selecting a file and then clearing its field is clearing the field:
      the selection leaves no trace in any other field or flag. */
  lemma SelectThenClear(s: Session, f: File, read: ReadOutcome, slot: MediaSlot)
    requires SelectMedia(s, f, read, slot).Ok?
    ensures ClearMedia(SelectMedia(s, f, read, slot).value, slot) == ClearMedia(s, slot)
  {
    var a := ClearMedia(SelectMedia(s, f, read, slot).value, slot);
    var b := ClearMedia(s, slot);
    forall k ensures Get(a.form, k) == Get(b.form, k) {
      if k == KeyOf(MediaValue(slot, None)) {
        assert slot == ImageSlot ==> a.form.image.None? && b.form.image.None?;
        assert slot == VideoSlot ==> a.form.video.None? && b.form.video.None?;
      }
    }
    FormExtensionality(a.form, b.form);
  }
}
