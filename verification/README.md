# Form state of the multi-step request form, in Dafny

This project models the client-side form-state logic of a Next.js/React form application. The browser and React layers are removed. What remains:

- **The form record.** `FormData` has nine fields. There is a blank initial record, and a field-wise view (`Get`, `SetField`). A possibly incomplete stored record (`PartialForm`) is merged over defaults the way `{ ...initialFormData, ...stored }` does (`FormTypes`).
- **The provider.** This covers the pure reducer (`SET_FIELD`, `SET_ALL`, `HYDRATE`, `RESET`), the validity predicate, the hydrate-on-mount effect, `updateField`, `loadFormData`, `submit` and `reset` (`FormContext`).
- **Two-slot persistence.** The first slot is one localStorage entry under `storage_form_key`. The second is one cookie `cookie_form_key` holding the URI-encoded JSON of the form. Hydration reads the cookie first and falls back to localStorage (`Storage`).
  - Cookies live in a jar, a sequence of name/value pairs.
  - Writing a cookie reads the name-value pair out of the assignment string with the steps of section 5.2 of RFC 6265: the pair ends at the first ';' and splits at its first '='. Spaces and tabs are stripped from both halves, and a pair without '=' or with an empty name is ignored. The attributes are not interpreted.
  - Reading goes through the exact `split(";")` / `trim()` / `split("=")` loop over the rendered `document.cookie` header (`Cookies`).
  - JSON and `encodeURIComponent` are an abstract codec with the laws the code relies on.
- **The JavaScript string operations the code uses** (`Text`):
  - `trim` with the ECMAScript whitespace set;
  - `split` on one character;
  - `startsWith` and `endsWith`;
  - `replace` of the first occurrence;
  - decimal rendering of a number.
- **The media size guard and descriptor** (`Media`).
- **The upload widget** (`UploadField`):
  - the default type and accept tables;
  - the accept-list matcher used on drop;
  - the idle/uploading/completed/error status machine driven by change, drop, clear and the `fileName` prop, with the simulated progress ticks.
- **The entry page** (`FormRequirements`):
  - the checkbox toggle;
  - the file-select handler;
  - the submit guard, the submit button's enablement and the media clear buttons.
- **The review form** (`ReviewForm`):
  - the update dispatch;
  - the size-unconstrained file reader;
  - the size caption's unit;
  - media select and clear.
- **The saved-form pages** (`FormSelector`, `ReviewPage`, `SummaryPage`):
  - the label rule;
  - the newest-first menu;
  - the trigger caption;
  - the selection normalisation;
  - the latest-form selection on open and after delete;
  - load-on-select, the update guard and the conditional blocks.

The saved-form collection API (`getAllSavedForms`, `getFormById`, `updateFormById`, `deleteFormById`) is not defined in src/lib/storage.ts. Here it stays uninterpreted:
- the list is a sequence of `SavedForm(id, data, submittedAt)`;
- a lookup is a function parameter;
- what `updateFormById` throws is an input;
- the list re-read after a delete is an input.

Every handler is treated as one atomic step.

## Model

| member | source | states |
|---|---|---|
| FormTypes.PriorityLabel | src/types/form.ts:14 | The priority's text is one of "low", "medium", "high" or "", and it is "" exactly for the unset priority. |
| FormTypes.PriorityLabelInjective | src/types/form.ts:14 | Distinct priorities have distinct texts, so the four-valued datatype is exactly the string union. |
| FormTypes.InitialIsBlank | src/types/form.ts:33-43 | The initial record has every text field empty, no image and no video, no priority, and no checked options. |
| FormTypes.Get | src/types/form.ts:1-24 | Reading a field yields a value of that field's kind: every record carries all nine fields. |
| FormTypes.FormExtensionality | src/types/form.ts:1-24 | Two records that agree on all nine fields are equal. |
| FormTypes.SetField | src/context/form-context.tsx:48 | `{ ...state, [field]: value }` sets the named field and leaves the other eight as they were. |
| FormTypes.Whole | src/context/form-context.tsx:94 | A complete record seen as stored data supplies every field. |
| FormTypes.Merge | src/context/form-context.tsx:80 | `{ ...defaults, ...stored }` takes each field from the stored data when present, otherwise from the defaults. |
| FormTypes.MergeWhole | src/context/form-context.tsx:94 | Merging a complete record over any defaults gives that record. |
| FormTypes.MergeNoFields | src/context/form-context.tsx:80 | Merging stored data with no fields leaves the defaults. |
| FormTypes.MergeIdempotent | src/context/form-context.tsx:80 | Merging the same stored data twice is the same as merging it once. |
| Text.Trim | src/context/form-context.tsx:66-68 | `trim` never lengthens, leaves no whitespace at either end, and is empty exactly when the input is all whitespace. |
| Text.TrimOfPadded | src/context/form-context.tsx:66-68 | Trimming whitespace padding around an already trimmed text gives that text back. |
| Text.TrimIdempotent | src/components/ui/file-upload-field.tsx:152 | Trimming twice is trimming once. |
| Text.Split | src/lib/storage.ts:40-42 | `split` on one character yields at least one part, and no part contains the separator. |
| Text.JoinSplit | src/lib/storage.ts:40-42 | Joining the parts of a split with the separator restores the text: splitting loses nothing. |
| Text.SplitJoin | src/lib/storage.ts:40-42 | Splitting a join of separator-free parts restores those parts. |
| Text.SplitConcat | src/components/review/form-selector.tsx:23 | Splitting `a + sep + b` gives the parts of `a` followed by the parts of `b`. |
| Text.FirstOccurrence | src/components/ui/file-upload-field.tsx:155 | The position `replace` rewrites is an occurrence of the pattern, with no occurrence before it; none is reported only when there is none. |
| Text.ReplaceFirst | src/components/ui/file-upload-field.tsx:155 | Without an occurrence of the pattern the string is unchanged. Otherwise the earliest occurrence, and only that one, is replaced. |
| Text.DecimalString | src/components/review/review-form.tsx:55 | A number's decimal text is a non-empty run of digits with no leading zero except for 0 itself. |
| Text.DecimalRoundTrip | src/components/review/review-form.tsx:55 | Reading back a number's decimal text gives the number. |
| Cookies.Put | src/lib/storage.ts:33 | Setting a cookie makes its name read back the new value, leaves every other name alone, and keeps the jar well formed. |
| Cookies.Remove | src/lib/storage.ts:53-55 | Expiring a cookie makes its name absent, leaves every other name alone, and keeps the jar well formed. |
| Cookies.AssignmentRecovered | src/lib/storage.ts:33 | The browser's parse of `name=value; attributes` recovers exactly the name and value the code wrote. |
| Cookies.StripWsp | src/lib/storage.ts:33 | The stripped name or value neither starts nor ends with a space or tab, is no longer than the original, and a string without spaces or tabs is left as it is. |
| Cookies.PairShape | src/lib/storage.ts:40-42 | A stored `name=value` pair has no ';', no surrounding blanks, and splits on '=' into the name followed by the value's pieces. |
| Cookies.ReadHeader | src/lib/storage.ts:40-47 | The `split(";")`, `trim()`, `split("=")` loop over the rendered cookie header finds, for any valid name, exactly the value the jar holds under that name (the first '='-piece of it), and nothing when the name is absent or that piece is empty. |
| Storage.SaveToLocalStorage | src/lib/storage.ts:8-11 | The write throws exactly when a window exists and the serialised record exceeds the quota. Otherwise, with a window, the one entry under `storage_form_key` is set to the serialised record, and nothing else changes. |
| Storage.LoadFromLocalStorage | src/lib/storage.ts:14-18 | A record is returned exactly when a window exists and the slot holds a non-empty value. |
| Storage.LoadFromCookie | src/lib/storage.ts:37-48 | Without a document nothing is loaded, and a loaded record is always the parse of a decoded cookie value. Which value is read is stated by `Storage.CookieLoad`. |
| Storage.ClearLocalStorage | src/lib/storage.ts:20-24 | With a window the entry under `storage_form_key` is gone, and every other entry and the rest of the browser are unchanged. |
| Storage.SaveToCookie | src/lib/storage.ts:27-34 | Only the jar changes. With a document and a valid encoded value, `cookie_form_key` holds the encoded record and every other cookie is unchanged. |
| Storage.ClearCookie | src/lib/storage.ts:51-56 | Clearing changes only the jar. With a document, `cookie_form_key` is gone from it, every other cookie reads back as before, and a well-formed jar stays well formed. |
| Storage.HydrateFromStorage | src/lib/storage.ts:59-65 | The cookie's record wins when there is one; localStorage is consulted only when the cookie yields nothing. |
| Storage.LocalSaveLoad | src/lib/storage.ts:8-18 | After a successful save, loading returns the saved record, every field included. |
| Storage.LocalSaveOverwrites | src/lib/storage.ts:8-11 | A second save fully replaces the first. |
| Storage.LocalClearLoad | src/lib/storage.ts:14-24 | After a clear, loading returns nothing. |
| Storage.CookieLoad | src/lib/storage.ts:37-48 | Loading from a well-formed jar decodes exactly the value stored under `cookie_form_key`, ignores every other cookie, and yields nothing when that value is absent or empty. |
| Storage.EncodedValueShape | src/lib/storage.ts:32 | The encoded record is a non-empty cookie value with no ';' and no '=', so the read-side split cannot cut it. |
| Storage.CookieSaveLoad | src/lib/storage.ts:27-47 | Saving to the cookie and loading back gives the saved record, media data URLs included, and the jar stays well formed. |
| Storage.CookieClearLoad | src/lib/storage.ts:37-56 | After the cookie is cleared, loading from it returns nothing. |
| Storage.NoBrowserGlobals | src/lib/storage.ts:9 | Without window and document, saves and clears change nothing and every load, hydration included, returns nothing. |
| Storage.HydrateAfterSave | src/lib/storage.ts:59-65 | After the two writes `submit` performs, hydration returns the saved record. |
| Storage.HydrateAfterClear | src/lib/storage.ts:59-65 | After both slots are cleared, hydration returns nothing. |
| FormContext.Reduce | src/context/form-context.tsx:45-57 | `SET_FIELD` changes exactly the named field; `SET_ALL` and `HYDRATE` replace the whole state; `RESET` gives the initial record. |
| FormContext.SetFieldLastWins | src/context/form-context.tsx:47-48 | Two writes to the same field leave only the second. |
| FormContext.SetFieldCommutes | src/context/form-context.tsx:47-48 | Writes to different fields can be made in either order. |
| FormContext.SetFieldOwnValue | src/context/form-context.tsx:47-48 | Writing a field's own value back changes nothing. |
| FormContext.IsFormValid | src/context/form-context.tsx:65-73 | Valid exactly when name, email and description are not all whitespace, image and video are present, a priority is chosen and the status is non-empty. |
| FormContext.InitialInvalid | src/context/form-context.tsx:65-73 | The initial record is not valid. |
| FormContext.ValidityIgnoresOptionalFields | src/context/form-context.tsx:65-73 | Changing the due date or the checked options never changes validity. |
| FormContext.ValidityIgnoresPadding | src/context/form-context.tsx:66 | Padding the name with whitespace never changes validity. |
| FormContext.HydrateOnMount | src/context/form-context.tsx:76-83 | The session is hydrated afterwards; with nothing stored the form is unchanged, otherwise each field comes from the stored data or the defaults. |
| FormContext.UpdateField | src/context/form-context.tsx:85-90 | The named field takes the value, the other fields and the flags are unchanged. |
| FormContext.LoadFormData | src/context/form-context.tsx:92-95 | Each field comes from the given data when present, otherwise from the initial record; the flags are unchanged. |
| FormContext.LoadWholeRecord | src/context/form-context.tsx:92-95 | Loading a complete record makes it the form, whatever came before. |
| FormContext.Submit | src/context/form-context.tsx:97-111 | Loading ends false and the form is untouched. The submit fails exactly when the localStorage write throws, and then the cookie is not written and storage is unchanged. |
| FormContext.SubmitStoresBoth | src/context/form-context.tsx:97-111 | After a successful submit, localStorage holds the whole form when there is a window, and the `cookie_form_key` cookie holds it when there is a document. Nothing else about the browser changes. |
| FormContext.SubmitThenRemount | src/context/form-context.tsx:97-111 | After a successful submit, a freshly mounted provider hydrates the submitted form. |
| FormContext.Reset | src/context/form-context.tsx:113-119 | The form becomes initial. `reset()` leaves storage alone. `reset(true)` removes `storage_form_key` when there is a window and `cookie_form_key` when there is a document. Every other localStorage key and every other cookie is kept as it was, and a slot the browser lacks is untouched. |
| FormContext.ResetThenRemount | src/context/form-context.tsx:113-119 | After `reset(true)` a fresh provider starts from the initial record. After `reset()` it hydrates whatever it would have before. |
| Media.FileToMediaFile | src/lib/media.ts:2-22 | A descriptor results exactly when the size is at most 10 MiB and the read succeeds, and it copies name, type and size. Otherwise the rejection carries "File size exceeds 10MB" or "Failed to read file". |
| Media.OversizeIgnoresReader | src/lib/media.ts:5-8 | An oversized file is rejected whatever the reader would deliver: the guard runs before any read. |
| Media.GuardBoundary | src/lib/media.ts:5 | Exactly 10 MiB passes and one byte more fails: the comparison is strict. |
| UploadField.TypeOrDefault | src/components/ui/file-upload-field.tsx:53 | A given `type` prop is kept; a missing one is "file". |
| UploadField.DefaultAccept | src/components/ui/file-upload-field.tsx:44-48 | Image fields default to "image/*", video fields to "video/*", file fields to "*". |
| UploadField.AcceptType | src/components/ui/file-upload-field.tsx:44-70 | An explicit `accept` wins, even an empty one. Without one, an image field takes "image/*", a video field "video/*", and a file field or an untyped one "*". |
| UploadField.DefaultAcceptAdmits | src/components/ui/file-upload-field.tsx:44-70 | Without `accept`, an image field admits exactly the `image/` types, a video field exactly the `video/` types, and a file or untyped field every type. |
| UploadField.SomeEntryMatches | src/components/ui/file-upload-field.tsx:152-158 | A MIME type is admitted exactly when some trimmed entry of the list matches it. |
| UploadField.EntryMatches | src/components/ui/file-upload-field.tsx:154-157 | An entry that does not end in "/*" admits exactly the MIME type equal to it. The wildcard half is stated by `UploadField.WildcardEntry`. |
| UploadField.Accepts | src/components/ui/file-upload-field.tsx:150 | An accept value of "*" admits every file without looking at its type. |
| UploadField.WildcardEntry | src/components/ui/file-upload-field.tsx:154-155 | An entry `t/*` matches exactly the MIME types starting with `t/`. |
| UploadField.MajorWildcard | src/components/ui/file-upload-field.tsx:150-157 | The accept value `t/*`, for a major type `t` without '/', ',' or whitespace, admits exactly the types starting with `t/`. |
| UploadField.SingleEntryList | src/components/ui/file-upload-field.tsx:150-158 | A one-entry accept list admits exactly what that entry matches. |
| UploadField.DefaultAcceptImage | src/components/ui/file-upload-field.tsx:44-48 | The image widget's default list admits exactly the `image/` types. |
| UploadField.DefaultAcceptVideo | src/components/ui/file-upload-field.tsx:44-48 | The video widget's default list admits exactly the `video/` types. |
| UploadField.SomeEntryMatchesAppend | src/components/ui/file-upload-field.tsx:153 | Some entry of a concatenated list matches exactly when some entry of either part does. |
| UploadField.AcceptsUnion | src/components/ui/file-upload-field.tsx:150-158 | `a,b` admits exactly what `a` or `b` admits. |
| UploadField.BeginUpload | src/components/ui/file-upload-field.tsx:100-103 | Starting an upload names the file, sets uploading and restarts progress at 0. |
| UploadField.Tick | src/components/ui/file-upload-field.tsx:88-93 | From 95 on, a tick keeps the progress. Below 95 it adds at least 5 and less than 20, so a progress in [0, 115) stays in [0, 115). |
| UploadField.Ticks | src/components/ui/file-upload-field.tsx:85-97 | Ticks never lower the progress, keep it in [0, 115), and change nothing once it has reached 95. |
| UploadField.TicksAdvance | src/components/ui/file-upload-field.tsx:88-93 | Each tick below 95 adds at least 5, so after 19 ticks the interval has always stopped. |
| UploadField.Midway | src/components/ui/file-upload-field.tsx:99-104 | While the callback is pending, only the progress moves, and only upwards, and an uploading widget stays consistent. |
| UploadField.ProgressOvershoots | src/components/ui/file-upload-field.tsx:88-93 | Six draws of 0.9 take the progress to 111 while uploading, above the 100 shown on completion. |
| UploadField.Settle | src/components/ui/file-upload-field.tsx:105-113 | Success completes with progress 100. Failure goes to error and keeps the progress the ticks reached. |
| UploadField.ProcessFile | src/components/ui/file-upload-field.tsx:99-114 | The widget ends completed or in error as the select callback resolves or throws, naming the file, and shows file details exactly on success. A failed upload keeps the progress the ticks reached. |
| UploadField.FirstFile | src/components/ui/file-upload-field.tsx:118 | A file is taken exactly when the list is non-empty, and it is the first one. |
| UploadField.HandleChange | src/components/ui/file-upload-field.tsx:117-121 | No file means no change; otherwise the first file is processed. |
| UploadField.DroppedFile | src/components/ui/file-upload-field.tsx:146-163 | A dropped file is taken exactly when there is one and the accept list admits its type; it is the first. |
| UploadField.HandleDrop | src/components/ui/file-upload-field.tsx:141-167 | Dragging ends; a rejected or missing file leaves the status untouched and never reaches `processFile`. |
| UploadField.HandleClear | src/components/ui/file-upload-field.tsx:169-177 | Clearing gives idle, progress 0 and no name. |
| UploadField.SyncFileName | src/components/ui/file-upload-field.tsx:73-83 | A non-empty `fileName` forces completed at 100 with that name. Emptying it while completed returns to idle at 0. Otherwise nothing changes. |
| UploadField.SyncIdempotent | src/components/ui/file-upload-field.tsx:73-83 | Running the sync twice with the same prop is running it once. |
| UploadField.PropChange | src/components/ui/file-upload-field.tsx:83 | The sync runs only when the prop changed. |
| UploadField.Step | src/components/ui/file-upload-field.tsx:123-144 | The drag handlers change only the hover flag: enter sets it, leave and drop clear it. |
| UploadField.StepConsistent | src/components/ui/file-upload-field.tsx:73-177 | Every handler keeps the widget consistent: progress in [0, 115), idle means no name and no progress, completed means 100, and busy states name a file. |
| UploadField.RunConsistent | src/components/ui/file-upload-field.tsx:73-177 | Any sequence of events keeps the widget consistent. |
| UploadField.RunAppend | src/components/ui/file-upload-field.tsx:73-177 | Handling two batches of events one after the other is handling them as one sequence. |
| FormRequirements.Without | src/components/form-requirements.tsx:150-152 | Filtering an option out removes every occurrence, keeps the count of every other option, and keeps their order. |
| FormRequirements.ToggleOption | src/components/form-requirements.tsx:141-154 | Checking appends the option at the end. Unchecking removes every occurrence and keeps the other options, in order. The review form's checkboxes, src/components/review/review-form.tsx:166-185, do the same. |
| FormRequirements.WithoutAbsent | src/components/form-requirements.tsx:150-152 | Filtering out an absent option changes nothing. |
| FormRequirements.WithoutAppend | src/components/form-requirements.tsx:150-152 | Filtering distributes over concatenation. |
| FormRequirements.ToggleRoundTrip | src/components/form-requirements.tsx:141-154 | Checking an unchecked option and unchecking it again restores the list. |
| FormRequirements.UncheckIdempotent | src/components/form-requirements.tsx:147-154 | Unchecking twice is unchecking once. |
| FormRequirements.MediaValue | src/components/form-requirements.tsx:91-102 | The image slot writes the image field and the video slot the video field. |
| FormRequirements.HandleFileSelect | src/components/form-requirements.tsx:28-35 | A converted file fills its slot with no toast, and every other field and the session flags stay as they were. A rejected one leaves the session unchanged and toasts the rejection's message. |
| FormRequirements.UploadAsWritten | src/components/form-requirements.tsx:28-35 | As written, a rejected file still leaves the widget completed. |
| FormRequirements.UploadAsWrittenShowsRejectedFileComplete | src/components/ui/file-upload-field.tsx:99-114 | An 11 MiB image on an empty image field: the widget says completed while the field stays empty. |
| FormRequirements.UploadPropagating | src/components/form-requirements.tsx:28-35 | The corrected handler stores the same session as the original. |
| FormRequirements.UploadPropagatingAgrees | src/components/ui/file-upload-field.tsx:99-114 | With the failure passed on, the widget completes exactly when the file was stored, names the stored file, and otherwise shows the error with the session unchanged. |
| FormRequirements.HandleSubmit | src/components/form-requirements.tsx:37-48 | With an invalid form or unchecked terms, only an error toast results. Otherwise success is announced, the form is reset and the terms are unchecked. |
| FormRequirements.SubmitDisabled | src/components/form-requirements.tsx:204 | The button is enabled exactly when the form is valid, the terms are checked and no submit is in flight, so the blank form can never be submitted. |
| FormRequirements.ReadyPageSubmits | src/components/form-requirements.tsx:37-48 | A page with a valid form, checked terms and no submit in flight has an enabled button, and a click on it announces success and resets the form. |
| FormRequirements.EnabledButtonSubmits | src/components/form-requirements.tsx:37-48 | A click on an enabled button announces success and performs exactly `submit`'s storage writes, which `reset(false)` keeps. When the write succeeds, every slot the browser offers holds the form that was on the page. |
| FormRequirements.HandleSubmitLosesFormOnQuota | src/context/form-context.tsx:97-111 | As written, a valid submit whose localStorage write throws still toasts success, resets the form and stores nothing. |
| FormRequirements.HandleSubmitChecked | src/components/form-requirements.tsx:37-48 | The corrected handler keeps the same guard and error toast for an invalid form or unchecked terms. |
| FormRequirements.HandleSubmitCheckedKeepsForm | src/components/form-requirements.tsx:37-48 | With the outcome checked, the form is never lost: the page keeps it or a fresh provider restores it, and a success toast always means it was stored. |
| FormRequirements.ClearSlot | src/components/form-requirements.tsx:92-102 | A media clear empties that slot only and returns the widget to its idle drop zone. |
| ReviewForm.HandleUpdate | src/components/review/review-form.tsx:29-36 | The click goes to `onUpdate` exactly when it is given and to `submit` exactly when it is not, never both. |
| ReviewForm.UpdateFile | src/components/review/review-form.tsx:38-52 | Any successfully read file, at any size, becomes a descriptor copying name, type and size. |
| ReviewForm.UpdateFileExtendsGuard | src/components/review/review-form.tsx:38-52 | Below the ceiling the review reader agrees with the entry form's conversion, and above it the review reader still accepts. |
| ReviewForm.ShowFileSize | src/components/review/review-form.tsx:54-58 | Bytes below 1024, kilobytes below 1024×1024, megabytes from there; the byte caption ends " Bytes". |
| ReviewForm.ShowFileSizeMonotone | src/components/review/review-form.tsx:54-58 | A larger file never gets a smaller unit. |
| ReviewForm.BytesCaptionReadsBack | src/components/review/review-form.tsx:55 | The digits of a byte caption read back as the exact size. |
| ReviewForm.ClearMedia | src/components/review/review-form.tsx:98 | A media clear empties that field and leaves every other field. |
| ReviewForm.SelectMedia | src/components/review/review-form.tsx:94-97 | A read file replaces the field with its descriptor, and every other field and the session flags stay as they were. A read error rejects. |
| ReviewForm.SelectThenClear | src/components/review/review-form.tsx:94-98 | Selecting a file and then clearing its field is the same as clearing the field: the selection leaves no other trace. |
| FormSelector.DisplayNamePart | src/components/review/form-selector.tsx:23 | The label's name part is the trimmed text before the first ',' of the name, or "Unnamed" when that is blank; it is never empty and holds no ','. |
| FormSelector.DisplayNameIgnoresAfterComma | src/components/review/form-selector.tsx:23 | Whatever follows the first comma never shows. |
| FormSelector.DisplayNameOfPlainName | src/components/review/form-selector.tsx:23 | A trimmed name without a comma labels itself. |
| FormSelector.DisplayName | src/components/review/form-selector.tsx:22-26 | The label starts with the name part and " - ", and ends with the rendered date. |
| FormSelector.Reverse | src/components/review/form-selector.tsx:44-46 | The reversed copy has the same length, with element i taken from position n-1-i. |
| FormSelector.Menu | src/components/review/form-selector.tsx:42-57 | No forms gives the single disabled placeholder. Otherwise there is one item per form, newest first. |
| FormSelector.LatestId | src/app/review/page.tsx:25-27 | The latest id is the last form's id, or "" when none is saved. |
| FormSelector.MenuOffersSavedIds | src/components/review/form-selector.tsx:43-56 | The menu offers exactly the saved forms' ids, and its first item is the latest form. |
| FormSelector.NormaliseSelection | src/components/review/form-selector.tsx:31 | A cleared selection becomes "", and any other value is passed on. |
| FormSelector.Find | src/components/review/form-selector.tsx:37 | `find` returns a form exactly when one has the id. What it returns is the first form of the list with that id. |
| FormSelector.TriggerCaption | src/components/review/form-selector.tsx:34-39 | No selection shows the prompt. The caption crashes exactly when the selected id is not in the list, and otherwise starts with that form's name part. |
| FormSelector.LatestIdValid | src/app/summary/page.tsx:32-35 | Selecting the latest form keeps the selection among the saved forms. |
| FormSelector.MenuChoiceValid | src/components/review/form-selector.tsx:31 | Whatever the menu hands back, normalised, keeps the selection among the saved forms. |
| ReviewPage.LoadSelected | src/app/review/page.tsx:31-38 | With an id selected and a record found, that record becomes the form; otherwise nothing changes. |
| ReviewPage.Select | src/app/review/page.tsx:40-42 | The selection takes the id, and the load effect runs only when the id changed. |
| ReviewPage.HandleFormSelect | src/app/review/page.tsx:40-42 | The selection becomes the chosen id, or "" when cleared. A cleared selection keeps the form, and a new id whose record is found loads that record. |
| ReviewPage.Mount | src/app/review/page.tsx:21-29 | Mounting takes the saved list and selects its latest id, or stays "" when it is empty. |
| ReviewPage.MountLoadsLatest | src/app/review/page.tsx:21-38 | After mount the selection is valid. The latest record is loaded when it is found, and otherwise the session is untouched. |
| ReviewPage.FormSelectKeepsSelectionValid | src/app/review/page.tsx:64-68 | Choosing from the menu keeps the selection among the saved forms, so the trigger always finds a form to label. |
| ReviewPage.ReselectKeepsEdits | src/app/review/page.tsx:40-42 | Picking the already selected form reloads nothing. |
| ReviewPage.ThrownMessage | src/app/review/page.tsx:56-58 | An `Error`'s own message is shown; anything else shows "Failed to update form". |
| ReviewPage.HandleUpdate | src/app/review/page.tsx:44-60 | With no selection the handler only shows an error and calls nothing. Otherwise it sends the current form under the selected id. Success is toasted exactly when the call returns, and a throw is reported. |
| ReviewPage.UpdateWithoutSelectionIgnoresOutcome | src/app/review/page.tsx:45-48 | Without a selection the update's outcome cannot matter: it is never attempted. |
| ReviewPage.UpdateThrowsAreReported | src/app/review/page.tsx:50-59 | Every throw becomes an error toast; none escapes the handler. |
| ReviewPage.Render | src/app/review/page.tsx:69-80 | The review form shows exactly with a selection. The empty message shows exactly with no selection and no forms. The two never show together. |
| ReviewPage.MountRenders | src/app/review/page.tsx:21-29 | After mount the empty message shows exactly when nothing is saved, and the review form exactly when the latest form has an id. |
| SummaryPage.Open | src/app/summary/page.tsx:29-35 | The page opens on the saved list with the last form's id selected, or "" when there is none. |
| SummaryPage.Displayed | src/app/summary/page.tsx:37-42 | No record is shown without a selection; otherwise the shown record is whatever the lookup gives. |
| SummaryPage.HandleFormSelected | src/app/summary/page.tsx:44-46 | A selection change keeps the list and stores the normalised value. |
| SummaryPage.ClearedSelectionShowsNothing | src/app/summary/page.tsx:37-46 | A cleared selection shows no record, whatever the lookup holds. |
| SummaryPage.HandleDelete | src/app/summary/page.tsx:48-60 | With nothing selected nothing happens and nothing is deleted. Otherwise the selected id is deleted, the page takes the re-read list and selects its last form or "". |
| SummaryPage.OpenKeepsInvariant | src/app/summary/page.tsx:29-35 | The page opens with a selection among its saved forms. |
| SummaryPage.SelectKeepsInvariant | src/app/summary/page.tsx:72-75 | Choosing from the menu keeps the selection among the saved forms. |
| SummaryPage.DeleteKeepsInvariant | src/app/summary/page.tsx:48-60 | A delete keeps the selection among the saved forms, whatever the re-read list is. |
| SummaryPage.InvariantGivesCaption | src/app/summary/page.tsx:77-83 | Under the selection invariant the trigger's `find(...)!` always finds a form. |
| SummaryPage.DeleteLeavesDeletedForm | src/app/summary/page.tsx:48-60 | Once the deleted form is gone from the re-read list, the page moves to another form or to no selection, never staying on it. |
| SummaryPage.ShowsDeleteButton | src/app/summary/page.tsx:102-111 | The delete button shows exactly when a click on it would delete something. |

## Left out

- JSON and `encodeURIComponent`/`decodeURIComponent` are foreign calls. They are a `Codecs` parameter whose `Lawful` laws are assumed:
  - parse undoes stringify;
  - decode undoes encode;
  - stringify is never empty;
  - the encoding stays within the unreserved URI alphabet and is non-empty.

  The throws of `JSON.parse` and `decodeURIComponent` on corrupt data are not modelled, because decode and parse are total here. A stored `null` is likewise not modelled: stored data is a record whose fields may be missing.
- Storage.SaveToLocalStorage: the browser's quota is approximated. `setItem` throws exactly when the serialised record is longer than a `quota` number, because real quotas are browser-specific and count UTF-16 units of key and value.
- Cookie expiry, the clock, `Date`, `toUTCString` and `toLocaleDateString` are left out. The expiry text is a parameter that never reaches the jar's name/value pairs. Expired cookies are modelled as removed, and the date half of a display name is a `localDate` function parameter.
- Browser cookie size limits (about 4 KB per cookie) are not modelled, so a large record round-trips through the cookie here even where a browser would drop it. Every valid form carries two media data URLs, so in practice a browser usually drops the cookie write and hydration falls back to localStorage. `Storage.HydrateAfterSave`'s cookie branch therefore describes the less common case of a record small enough to fit.
- Cookies.WellFormed assumes one cookie per name, as one path and one domain give. A real `document.cookie` can carry two `cookie_form_key` cookies set under different paths or domains, and the read loop would take the first.
- Cookie attributes (`expires`, `path`, `SameSite`) are not interpreted beyond the expiry's effect: an assignment at the epoch removes the cookie, and any other one stores it.
- `simulateProgress` runs on a 100 ms timer with `Math.random`. Its ticks are modelled as a sequence of draws in [0, 1) that fire while the select callback is pending. Ticks stop once the progress reaches 95, and the last one can overshoot to just below 115. The timer's timing, and ticks interleaved with other handlers, are left out. `Math.round` of the shown percentage is not modelled.
- The two-decimal KB/MB figures of `ShowFileSize` are floating point and left out. Only the unit is modelled.
- Async interleaving of file reads, state updates and effects is left out. Each handler is one atomic step, and React's batching is not modelled.
- The bodies of `getAllSavedForms`, `getFormById`, `updateFormById` and `deleteFormById` are not in the modelled sources. They are parameters and inputs, and no id generation or migration is assumed.
- The summary page's two lazy initialisers each call `getAllSavedForms`. They are modelled as reading the same list.
- The review form's local "submitted at" stamp is a clock reading and is left out. The console read-back after `submit` is also left out.
- `useFormContext` throwing outside its provider is left out. So are the drag-over hint, icons, hints, toasts' styling and all JSX beyond which blocks render. src/components/preview.tsx, src/components/header.tsx, src/components/ui/badge.tsx and src/app/page.tsx are presentation only and are not part of this model.
- The `type` field of a media descriptor is named `mimeType` here, because `type` is a Dafny keyword.
- The `"Upload failed"` fallback of `handleFileSelect` is unreachable: `fileToMediaFile` only ever rejects with an `Error`. It is not modelled.
- UploadField.Accepts: its own contract states only the "*" case. The matcher's meaning for other lists is stated by `SomeEntryMatches`, `SingleEntryList`, `WildcardEntry` and `AcceptsUnion`, because a single closed form over `split` is costly to prove.
- FormRequirements.UploadPropagatingAgrees: it requires a non-empty file name. An empty name is falsy as a `fileName` prop, so the sync effect would reset even a stored upload to idle.

## Findings

| source | as written | input that shows it | evidently intended | confidence | as-written member | corrected member |
|---|---|---|---|---|---|---|
| src/components/form-requirements.tsx:28-35 | `handleFileSelect` catches the rejection of `fileToMediaFile` and resolves, so `processFile` (src/components/ui/file-upload-field.tsx:99-114) marks the upload completed although nothing was stored | an 11 MiB image dropped on an empty image field: the widget shows the file as uploaded, the image field stays empty | the widget shows the error state for a rejected file and completes only when the file was stored | medium, not executed | FormRequirements.UploadAsWrittenShowsRejectedFileComplete | FormRequirements.UploadPropagatingAgrees |
| src/context/form-context.tsx:97-111 | `submit` swallows a storage failure and returns normally, and `handleSubmit` (src/components/form-requirements.tsx:37-48) then announces success and resets the form | a valid form submitted when the localStorage write throws (quota exhausted): "Form submitted successfully" is shown, the fields are cleared, and neither slot holds the form | success is announced and the form reset only when it was stored; otherwise the fields are kept and a failure is reported | medium, not executed | FormRequirements.HandleSubmitLosesFormOnQuota | FormRequirements.HandleSubmitCheckedKeepsForm |
