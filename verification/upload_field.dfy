/**
  The upload widget of src/components/ui/file-upload-field.tsx: the default
  accept and type tables, the MIME matcher a drop goes through, and the
  idle / uploading / completed / error status machine. Each handler is one
  atomic step; the outcome of the `onFileSelect` callback is a parameter, and
  so are the `Math.random()` draws of the progress ticks that fire while the
  callback is pending.
*/
module UploadField {
  import opened Wrappers
  import opened Text
  import opened Media

  /** The `type` prop. */
  datatype FileType = ImageType | VideoType | AnyFileType

  /** The `type` prop as the component sees it: "file" when not given. */
  function TypeOrDefault(typeProp: Option<FileType>): (r: FileType)
    ensures typeProp.Some? ==> r == typeProp.value
    ensures typeProp.None? ==> r == AnyFileType
  {
    typeProp.GetOr(AnyFileType)
  }

  /** `defaultAccepts`: a wildcard for the major type of an image or video
      field, and "*" for a plain file field. */
  function DefaultAccept(t: FileType): (r: string)
    ensures t == ImageType ==> r == "image/*"
    ensures t == VideoType ==> r == "video/*"
    ensures t == AnyFileType ==> r == "*"
  {
    match t
    case ImageType => "image/*"
    case VideoType => "video/*"
    case AnyFileType => "*"
  }

  /** `accept ?? defaultAccepts[type]`: an explicit accept string, even an
      empty one, wins over the table. */
  function AcceptType(typeProp: Option<FileType>, accept: Option<string>): (r: string)
    ensures accept.Some? ==> r == accept.value
    ensures accept.None? && typeProp == Some(ImageType) ==> r == "image/*"
    ensures accept.None? && typeProp == Some(VideoType) ==> r == "video/*"
    ensures accept.None? && (typeProp.None? || typeProp == Some(AnyFileType)) ==> r == "*"
  {
    accept.GetOr(DefaultAccept(TypeOrDefault(typeProp)))
  }

  // One trimmed accept entry against a MIME type: an entry ending in "/*"
  // is a prefix pattern, with its first "/*" turned into "/"; any other
  // entry must equal the type.
  function EntryMatches(mimeType: string, entry: string): (r: bool)
    ensures !EndsWith(entry, "/*") ==> (r <==> mimeType == entry)
  {
    if EndsWith(entry, "/*") then StartsWith(mimeType, ReplaceFirst(entry, "/*", "/"))
    else mimeType == entry
  }

  /** `entries.map(t => t.trim()).some(...)`. */
  function SomeEntryMatches(mimeType: string, entries: seq<string>): (r: bool)
    ensures r <==> exists i :: 0 <= i < |entries| && EntryMatches(mimeType, Trim(entries[i]))
    decreases |entries|
  {
    if |entries| == 0 then false
    else if EntryMatches(mimeType, Trim(entries[0])) then true
    else
      var rest := SomeEntryMatches(mimeType, entries[1..]);
      assert rest ==> exists i :: 0 <= i < |entries| && EntryMatches(mimeType, Trim(entries[i])) by {
        if rest {
          var j :| 0 <= j < |entries[1..]| && EntryMatches(mimeType, Trim(entries[1..][j]));
          assert entries[1..][j] == entries[j + 1];
        }
      }
      assert (exists i :: 0 <= i < |entries| && EntryMatches(mimeType, Trim(entries[i]))) ==> rest by {
        if exists i :: 0 <= i < |entries| && EntryMatches(mimeType, Trim(entries[i])) {
          var i :| 0 <= i < |entries| && EntryMatches(mimeType, Trim(entries[i]));
          assert i != 0;
          assert entries[i] == entries[1..][i - 1];
        }
      }
      rest
  }

  /** The drop-time type check: "*" admits everything; otherwise the accept
      string is split on ',' and a file is admitted iff some trimmed entry
      matches its type. */
  function Accepts(acceptType: string, mimeType: string): (r: bool)
    ensures acceptType == "*" ==> r
  {
    acceptType == "*" || SomeEntryMatches(mimeType, Split(acceptType, ','))
  }

  // A wildcard entry t + "/*" whose major type t holds no '/' admits
  // exactly the types that start with t + "/".
  lemma WildcardEntry(t: string, mimeType: string)
    requires '/' !in t
    ensures EntryMatches(mimeType, t + "/*") <==> StartsWith(mimeType, t + "/")
  {
    var e := t + "/*";
    assert EndsWith(e, "/*") by {
      assert e[|e| - 2..] == "/*";
    }
    assert OccursAt(e, "/*", |t|) by {
      assert e[|t|..|t| + 2] == "/*";
    }
    assert forall k :: 0 <= k < |t| ==> !OccursAt(e, "/*", k) by {
      forall k | 0 <= k < |t| ensures !OccursAt(e, "/*", k) {
        assert e[k..k + 2][0] == e[k] == t[k];
      }
    }
    var found := FirstOccurrence(e, "/*");
    assert found.Some?;
    assert found.value == |t|;
    assert ReplaceFirst(e, "/*", "/") == t + "/" by {
      assert e[..|t|] == t;
      assert e[|t| + 2..] == [];
    }
  }

  /** A single entry with no ',' and no surrounding whitespace is the whole
      accept list. */
  lemma SingleEntryList(entry: string, mimeType: string)
    requires entry != "*" && ',' !in entry && IsTrimmed(entry)
    ensures Accepts(entry, mimeType) <==> EntryMatches(mimeType, entry)
  {
    SplitAbsent(entry, ',');
    TrimOfPadded([], entry, []);
    assert [] + entry + [] == entry;
  }

  /** The accept list holding the one wildcard entry for a major type. */
  lemma MajorWildcard(t: string, mimeType: string)
    requires t != "" && forall i :: 0 <= i < |t| ==> t[i] != '/' && t[i] != ',' && !IsWhitespace(t[i])
    ensures Accepts(t + "/*", mimeType) <==> StartsWith(mimeType, t + "/")
  {
    var e := t + "/*";
    assert '/' !in t;
    WildcardEntry(t, mimeType);
    assert e != "*" by { assert |e| >= 3; }
    assert ',' !in e by {
      forall i | 0 <= i < |e| ensures e[i] != ',' {
        if i < |t| { assert e[i] == t[i]; }
      }
    }
    assert IsTrimmed(e) by {
      assert e[0] == t[0] && e[|e| - 1] == '*';
    }
    SingleEntryList(e, mimeType);
  }

  /** The default for an image field admits exactly the `image/...` types. */
  lemma DefaultAcceptImage(mimeType: string)
    ensures Accepts(DefaultAccept(ImageType), mimeType) <==> StartsWith(mimeType, "image/")
  {
    assert DefaultAccept(ImageType) == "image" + "/*" && "image/" == "image" + "/";
    MajorWildcard("image", mimeType);
  }

  /** The default for a video field admits exactly the `video/...` types. */
  lemma DefaultAcceptVideo(mimeType: string)
    ensures Accepts(DefaultAccept(VideoType), mimeType) <==> StartsWith(mimeType, "video/")
  {
    assert DefaultAccept(VideoType) == "video" + "/*" && "video/" == "video" + "/";
    MajorWildcard("video", mimeType);
  }

  /** Without an `accept` prop, what a drop admits follows the `type` prop:
      `image/...` types for an image field, `video/...` types for a video
      field, and everything for a file field or when no type is given. */
  lemma DefaultAcceptAdmits(typeProp: Option<FileType>, mimeType: string)
    ensures typeProp == Some(ImageType) ==> (Accepts(AcceptType(typeProp, None), mimeType) <==> StartsWith(mimeType, "image/"))
    ensures typeProp == Some(VideoType) ==> (Accepts(AcceptType(typeProp, None), mimeType) <==> StartsWith(mimeType, "video/"))
    ensures typeProp.None? || typeProp == Some(AnyFileType) ==> Accepts(AcceptType(typeProp, None), mimeType)
  {
    DefaultAcceptImage(mimeType);
    DefaultAcceptVideo(mimeType);
  }

  lemma SomeEntryMatchesAppend(mimeType: string, p: seq<string>, q: seq<string>)
    ensures SomeEntryMatches(mimeType, p + q) <==> SomeEntryMatches(mimeType, p) || SomeEntryMatches(mimeType, q)
  {
    var pq := p + q;
    if SomeEntryMatches(mimeType, pq) {
      var i :| 0 <= i < |pq| && EntryMatches(mimeType, Trim(pq[i]));
      if i < |p| { assert pq[i] == p[i]; } else { assert pq[i] == q[i - |p|]; }
    }
    if SomeEntryMatches(mimeType, p) {
      var i :| 0 <= i < |p| && EntryMatches(mimeType, Trim(p[i]));
      assert pq[i] == p[i];
    }
    if SomeEntryMatches(mimeType, q) {
      var i :| 0 <= i < |q| && EntryMatches(mimeType, Trim(q[i]));
      assert pq[|p| + i] == q[i];
    }
  }

  /** Joining two accept lists with ',' admits exactly what either admits. */
  lemma AcceptsUnion(a: string, b: string, mimeType: string)
    requires a != "*" && b != "*"
    ensures Accepts(a + "," + b, mimeType) <==> Accepts(a, mimeType) || Accepts(b, mimeType)
  {
    assert a + "," + b != "*" by {
      assert |a + "," + b| == |a| + 1 + |b|;
      if |a| + 1 + |b| == 1 { assert (a + "," + b)[0] == ','; }
    }
    assert a + "," + b == a + [','] + b;
    SplitConcat(a, b, ',');
    SomeEntryMatchesAppend(mimeType, Split(a, ','), Split(b, ','));
  }

  /** The widget's status. */
  datatype Status = Idle | Uploading | Completed | Failed

  /** The widget's state: status, progress percentage, the shown file name
      and whether a drag hovers over the drop zone. */
  datatype Widget = Widget(status: Status, progress: real, currentName: Option<string>, isDragging: bool)

  const InitialWidget: Widget := Widget(Idle, 0.0, None, false)

  /** The progress at which the simulated ticks stop. */
  const TickCeiling: real := 95.0

  /** The bound the progress stays below: a last tick starts under 95 and
      adds under 20. */
  const ProgressBound: real := 115.0

  /** The shapes the widget can be in: idle shows nothing and no progress,
      a completed upload is at 100%, every non-idle state names a file, and
      the progress is never negative and stays below 115, which can be more
      than 100. */
  predicate Consistent(w: Widget) {
    && 0.0 <= w.progress < ProgressBound
    && (w.status == Idle ==> w.progress == 0.0 && w.currentName.None?)
    && (w.status == Completed ==> w.progress == 100.0)
    && (w.status != Idle ==> w.currentName.Some?)
  }

  /** A value of `Math.random()`. */
  type Draw = r: real | 0.0 <= r < 1.0

  /** One tick of `simulateProgress`: from 95 on the interval is cleared and
      the progress kept; below it the progress grows by `draw * 15 + 5`. */
  function Tick(p: real, draw: Draw): (r: real)
    ensures p >= TickCeiling ==> r == p
    ensures p < TickCeiling ==> p + 5.0 <= r < p + 20.0
    ensures 0.0 <= p < ProgressBound ==> 0.0 <= r < ProgressBound
  {
    if p >= TickCeiling then p else p + draw * 15.0 + 5.0
  }

  /** The ticks that fire, one per draw, while `onFileSelect` is pending. */
  function Ticks(p: real, draws: seq<Draw>): (r: real)
    ensures r >= p
    ensures 0.0 <= p < ProgressBound ==> 0.0 <= r < ProgressBound
    ensures p >= TickCeiling ==> r == p
    decreases |draws|
  {
    if |draws| == 0 then p else Ticks(Tick(p, draws[0]), draws[1..])
  }

  /** The view: file details while uploading or completed, the drop zone
      otherwise, including after an error. */
  predicate ShowsFileInfo(w: Widget) {
    w.status == Uploading || w.status == Completed
  }

  /** The first half of `processFile`: name the file, start uploading and
      restart the progress bar. */
  function BeginUpload(w: Widget, f: File): (r: Widget)
    ensures r.status == Uploading && r.currentName == Some(f.name) && r.progress == 0.0
    ensures r.isDragging == w.isDragging
    ensures Consistent(r)
  {
    w.(status := Uploading, currentName := Some(f.name), progress := 0.0)
  }

  /** The widget while `onFileSelect` is pending, after the ticks drawn so
      far: still uploading, the progress only grown. */
  function Midway(w: Widget, draws: seq<Draw>): (r: Widget)
    ensures r.(progress := w.progress) == w
    ensures r.progress >= w.progress
    ensures w.status == Uploading && Consistent(w) ==> Consistent(r)
  {
    w.(progress := Ticks(w.progress, draws))
  }

  /** The second half of `processFile`, once `onFileSelect` settles. */
  function Settle(w: Widget, ok: bool): (r: Widget)
    ensures ok ==> r.status == Completed && r.progress == 100.0
    ensures !ok ==> r.status == Failed && r.progress == w.progress
    ensures r.currentName == w.currentName && r.isDragging == w.isDragging
    ensures w.status == Uploading && Consistent(w) ==> Consistent(r)
  {
    if ok then w.(progress := 100.0, status := Completed) else w.(status := Failed)
  }

  /** `processFile`: `draws` are the ticks that fire before the
      `onFileSelect` promise settles, `ok` says whether it resolved. A failed
      upload keeps the progress the ticks reached. */
  function ProcessFile(w: Widget, f: File, draws: seq<Draw>, ok: bool): (r: Widget)
    ensures r.status == (if ok then Completed else Failed)
    ensures r.currentName == Some(f.name)
    ensures !ok ==> r.progress == Ticks(0.0, draws)
    ensures Consistent(r) && ShowsFileInfo(r) == ok
  {
    Settle(Midway(BeginUpload(w, f), draws), ok)
  }

  /** Each tick below 95 adds at least 5, so ticks from a valid progress
      either reach 95 or add at least 5 per draw, and 19 of them always
      stop the interval. */
  lemma {:induction false} TicksAdvance(p: real, draws: seq<Draw>)
    requires 0.0 <= p
    ensures Ticks(p, draws) >= TickCeiling || Ticks(p, draws) >= p + 5.0 * |draws| as real
    ensures |draws| >= 19 ==> Ticks(p, draws) >= TickCeiling
    decreases |draws|
  {
    if |draws| > 0 {
      TicksAdvance(Tick(p, draws[0]), draws[1..]);
    }
  }

  /** The bar can pass 100% while uploading: six draws of 0.9 take it from
      0 through 18.5, 37, 55.5, 74 and 92.5 to 111, so "Uploading... 111%"
      is shown. */
  lemma ProgressOvershoots(w: Widget, f: File)
    ensures var u := Midway(BeginUpload(w, f), [0.9, 0.9, 0.9, 0.9, 0.9, 0.9]);
            u.status == Uploading && u.progress == 111.0 && ShowsFileInfo(u)
  {
    var d: Draw := 0.9;
    assert Tick(0.0, d) == 18.5 && Tick(18.5, d) == 37.0 && Tick(37.0, d) == 55.5;
    assert Tick(55.5, d) == 74.0 && Tick(74.0, d) == 92.5 && Tick(92.5, d) == 111.0;
  }

  /** `files?.[0]`. */
  function FirstFile(files: seq<File>): (r: Option<File>)
    ensures r.Some? <==> |files| > 0
    ensures r.Some? ==> r.value == files[0]
  {
    if |files| == 0 then None else Some(files[0])
  }

  /** `handleChange`: process the first chosen file, if any. */
  function HandleChange(w: Widget, files: seq<File>, draws: seq<Draw>, ok: bool): (r: Widget)
    ensures |files| == 0 ==> r == w
    ensures |files| > 0 ==> r.currentName == Some(files[0].name) && r.status == (if ok then Completed else Failed)
  {
    match FirstFile(files)
    case None => w
    case Some(f) => ProcessFile(w, f, draws, ok)
  }

  /** The file a drop hands to `processFile`: the first dropped file, if the
      accept list admits its type. */
  function DroppedFile(acceptType: string, files: seq<File>): (r: Option<File>)
    ensures r.Some? <==> |files| > 0 && Accepts(acceptType, files[0].mimeType)
    ensures r.Some? ==> r.value == files[0]
  {
    match FirstFile(files)
    case None => None
    case Some(f) => if acceptType != "*" && !Accepts(acceptType, f.mimeType) then None else Some(f)
  }

  /** `handleDrop`: the drag ends; a missing or rejected file leaves the
      status, progress and name as they were. */
  function HandleDrop(w: Widget, acceptType: string, files: seq<File>, draws: seq<Draw>, ok: bool): (r: Widget)
    ensures !r.isDragging
    ensures DroppedFile(acceptType, files).None? ==> r == w.(isDragging := false)
    ensures DroppedFile(acceptType, files).Some? ==>
              r.currentName == Some(files[0].name) && r.status == (if ok then Completed else Failed)
  {
    var w' := w.(isDragging := false);
    match DroppedFile(acceptType, files)
    case None => w'
    case Some(f) => ProcessFile(w', f, draws, ok)
  }

  /** `handleClear`: back to the empty drop zone. The `onFileClear` callback
      it then invokes is modelled by the forms that pass it. */
  function HandleClear(w: Widget): (r: Widget)
    ensures r.status == Idle && r.progress == 0.0 && r.currentName.None?
    ensures r.isDragging == w.isDragging && Consistent(r)
  {
    w.(currentName := None, status := Idle, progress := 0.0)
  }

  /** The `fileName` prop is truthy: defined and non-empty. */
  predicate Truthy(fileName: Option<string>) {
    fileName.Some? && fileName.value != ""
  }

  /** The sync effect, run when the `fileName` prop takes a new value: a
      truthy name forces a completed upload of that name; a falsy one resets
      a completed widget and leaves any other status alone. */
  function SyncFileName(w: Widget, fileName: Option<string>): (r: Widget)
    ensures Truthy(fileName) ==> r.status == Completed && r.progress == 100.0 && r.currentName == fileName
    ensures !Truthy(fileName) && w.status == Completed ==> r.status == Idle && r.progress == 0.0 && r.currentName.None?
    ensures !Truthy(fileName) && w.status != Completed ==> r == w
    ensures r.isDragging == w.isDragging
    ensures Consistent(w) ==> Consistent(r)
  {
    if Truthy(fileName) then w.(currentName := fileName, status := Completed, progress := 100.0)
    else if w.status == Completed then w.(currentName := None, status := Idle, progress := 0.0)
    else w
  }

  /** Running the sync effect twice with the same prop is running it once. */
  lemma SyncIdempotent(w: Widget, fileName: Option<string>)
    ensures SyncFileName(SyncFileName(w, fileName), fileName) == SyncFileName(w, fileName)
  {
  }

  /** React re-runs the effect only when the prop changes. */
  function PropChange(w: Widget, before: Option<string>, after: Option<string>): (r: Widget)
    ensures before == after ==> r == w
    ensures before != after ==> r == SyncFileName(w, after)
  {
    if before == after then w else SyncFileName(w, after)
  }

  /** The events a widget reacts to. */
  datatype Event =
    | DragEnter
    | DragLeave
    | DragOver
    | Change(files: seq<File>, draws: seq<Draw>, ok: bool)
    | Drop(files: seq<File>, draws: seq<Draw>, ok: bool)
    | Clear
    | FileNameProp(fileName: Option<string>)

  /** One handler run. The drag handlers touch only the hover flag. */
  function Step(w: Widget, acceptType: string, e: Event): (r: Widget)
    ensures e.DragEnter? || e.DragLeave? || e.DragOver? ==> r.(isDragging := w.isDragging) == w
    ensures e.DragEnter? ==> r.isDragging
    ensures e.DragLeave? || e.Drop? ==> !r.isDragging
  {
    match e
    case DragEnter => w.(isDragging := true)
    case DragLeave => w.(isDragging := false)
    case DragOver => w
    case Change(files, draws, ok) => HandleChange(w, files, draws, ok)
    case Drop(files, draws, ok) => HandleDrop(w, acceptType, files, draws, ok)
    case Clear => HandleClear(w)
    case FileNameProp(fileName) => SyncFileName(w, fileName)
  }

  /** The handlers run in order over a sequence of events. */
  function Run(w: Widget, acceptType: string, es: seq<Event>): Widget
    decreases |es|
  {
    if |es| == 0 then w else Run(Step(w, acceptType, es[0]), acceptType, es[1..])
  }

  /** Every handler keeps the widget in one of its consistent shapes. */
  lemma StepConsistent(w: Widget, acceptType: string, e: Event)
    requires Consistent(w)
    ensures Consistent(Step(w, acceptType, e))
  {
  }

  /** Whatever sequence of events a fresh widget receives, it stays
      consistent: completed always shows 100%, idle never names a file, and
      the progress stays in [0, 115). */
  lemma {:induction false} RunConsistent(w: Widget, acceptType: string, es: seq<Event>)
    requires Consistent(w)
    ensures Consistent(Run(w, acceptType, es))
    decreases |es|
  {
    if |es| > 0 {
      StepConsistent(w, acceptType, es[0]);
      RunConsistent(Step(w, acceptType, es[0]), acceptType, es[1..]);
    }
  }

  /** Running two batches of events one after the other is running them as
      one sequence. */
  lemma {:induction false} RunAppend(w: Widget, acceptType: string, es: seq<Event>, fs: seq<Event>)
    ensures Run(w, acceptType, es + fs) == Run(Run(w, acceptType, es), acceptType, fs)
    decreases |es|
  {
    if |es| > 0 {
      assert (es + fs)[0] == es[0] && (es + fs)[1..] == es[1..] + fs;
      RunAppend(Step(w, acceptType, es[0]), acceptType, es[1..], fs);
    } else {
      assert es + fs == fs;
    }
  }
}
