# Enrolment form (ficha de matrícula): a Dafny model

This project models the logic behind a single-page school enrolment form (ficha de matrícula). It has four parts.

- **Chilean identifiers (RUT/RUN).** Typed text is cleaned, shown with thousands separators and a hyphen, and checked with the modulo-11 check digit. This covers `limpiarRut`, `formatearRut`, `calcularDV` and `validarRut`. The module also models the decision the input mask takes on every keystroke and when the field loses focus.
- **Records in the browser.** The form is a record that maps field names to texts or checkbox states. There are two directions between the form and a record: taking a snapshot (`obtenerDatosFormulario`) and loading a record back (`cargarDatosFormulario`). Local storage has two modelled slots: the draft of the current form, and the list of saved records. The operations on it are:
  - saving with validation;
  - loading by id, deleting by id, and a confirmed new record;
  - the list order, the counter and the export guard;
  - the autosave write.
- **Autosave debounce.** A one-timer state machine driven by edit and clock-tick events.
- **Guardian auto-fill.** The mother and father checkboxes exclude each other. Checking one copies that parent's data into the guardian fields, and unchecking clears them.

Three small pure mappings are modelled as well: the row sent to the cloud spreadsheet, the birth date printed on the receipt, and the receipt's file name.

Modules:

| file | module | contents |
|---|---|---|
| common.dfy | Common | `Option`, `Result`, regrouping a concatenation |
| rut.dfy | Rut | cleaning, formatting, check digit, validity |
| rut_examples.dfy | RutExamples | concrete identifiers worked through the definitions |
| rut_mask.dfy | RutMask | keystroke and blur decisions of the identifier inputs |
| form.dfy | Form | field names, snapshot and load |
| store.dfy | RecordStore | draft slot and saved list |
| autosave.dfy | Autosave | debounce timer |
| guardian.dfy | Guardian | guardian auto-fill |
| mappings.dfy | Mappings | cloud row, birth date, receipt file name |

The form's field names come in two kinds: text fields (`.value`) and checkboxes (`.checked`). They are grouped in a `Layout`, and `Snapshot` and `Load` are stated for any valid layout. `Form.FormLayout` is the form's own layout: 48 text fields and 4 checkboxes, with the timestamp `fechaGuardado` kept apart.

Behaviour of the script worth knowing:

- A cleaned identifier may contain `K` anywhere, not only as its last character. A `K` in the base makes `parseInt` give NaN, so `calcularDV` returns the text `"NaN"` and the identifier is never valid (`Rut.CheckDigit`, `Rut.IsValid`).
- Saving checks only that the name and the RUN are non-empty and that the RUN checks. There is no minimum length at save time (`RecordStore.ShortRunSaved`).
- The check digit of an empty base is `'0'`: the sum is 0, so 11 − 0 = 11 maps to `'0'`.
- Record ids are the clock reading at save time. Nothing makes them unique or increasing, and the model assumes neither.

## Model

| member | source | states |
|---|---|---|
| Rut.Clean | script.js:49-51 | the result holds only digits and 'K', and is no longer than the input |
| Rut.CleanAppend | script.js:49-51 | cleaning distributes over concatenation (the global replace works character by character) |
| Rut.CleanKeepsRutChars | script.js:49-51 | text made only of digits and k/K keeps its length; text with none of them cleans to "" |
| Rut.CleanFromInput | script.js:49-51 | every cleaned character comes from the input, possibly upper-cased from 'k' |
| Rut.CleanOfClean | script.js:49-51 | already clean text is a fixed point |
| Rut.CleanIdempotent | script.js:49-51 | cleaning twice equals cleaning once |
| Rut.Base | script.js:57-58 | the base is the cleaned text without its last character, and that character completes it |
| Rut.Group | script.js:60-70 | grouping never shortens the base digits |
| Rut.GroupCons | script.js:63-70 | a digit in front of the base joins the leftmost group, or opens a new group after '.' when the rest is a whole number of groups of three |
| Rut.CleanGroup | script.js:60-70 | the grouped base cleans back to the base digits |
| Rut.GroupShape | script.js:60-70 | the grouped base has one '.' per full group of three beyond the first, at every fourth position from the right |
| Rut.Format | script.js:53-73 | formatting keeps the cleaned text; short input gives the cleaned text; otherwise the result ends in '-' and the check character |
| Rut.FormatIdempotent | script.js:53-73 | formatting a formatted identifier changes nothing |
| Rut.FormatGroupsThousands | script.js:57-72 | the part before the hyphen is exactly the base digits with a '.' before every group of three from the right |
| Rut.FormatRut | script.js:53-73 | the right-to-left loop with a counter that resets at 3 computes the grouping definition |
| Rut.FormatLoopStep | script.js:62-69 | one pass of the loop puts the next digit in front of the grouped suffix, after a '.' exactly when the counter shows a full group, and advances the counter |
| Rut.SinceSeparator | script.js:62-69 | the loop's counter reaches 3 exactly after each full group of placed digits |
| Rut.CheckDigit | script.js:75-93 | for an all-digit base the result is one character, '0'-'9' or 'K', whose value completes the weighted sum to a multiple of 11; otherwise it is "NaN" |
| Rut.ComputeCheckDigit | script.js:75-93 | the loop with the multiplier cycling 2..7 computes the same check digit as the closed-form weighted sum |
| Rut.WeightStep | script.js:84 | the closed-form weight of each position follows calcularDV's multiplier update (7 is followed by 2) |
| Rut.IsValid | script.js:95-104 | fewer than two cleaned characters is never valid; a valid identifier has an all-digit base |
| Rut.CheckCharUnique | script.js:87-92 | at most one check character completes a given sum to a multiple of 11 |
| Rut.ValidSatisfiesRelation | script.js:95-104 | a valid identifier satisfies the check relation on its cleaned text |
| Rut.RelationMakesValid | script.js:95-104 | the check relation on the cleaned text makes the identifier valid |
| Rut.IsValidIff | script.js:95-104 | validity holds exactly when the check relation holds on the cleaned text |
| Rut.IsValidOfClean | script.js:95-104 | validity depends only on the cleaned text |
| RutExamples.ExampleSum | script.js:79-85 | the weighted sum of base 12345678 is 138 |
| RutExamples.KnownVectorPlain | script.js:75-104 | "123456785" is valid and its check digit is "5" |
| RutExamples.KnownVectorWrongDigit | script.js:95-104 | "12345678-4" is not valid |
| RutExamples.CleanExample | script.js:49-51 | "12.345.678-5" cleans to "123456785" |
| RutExamples.KnownVectorFormatted | script.js:95-104 | "12.345.678-5" is valid, so punctuation does not change the verdict |
| RutMask.SameCleanSameValidity | script.js:95-104 | texts with equal cleaned forms have the same validity |
| RutMask.OnInput | script.js:110-143 | a keystroke keeps the cleaned text; from two cleaned characters the field shows exactly `formatearRut`'s output, with the hyphen before the last character, and below two the typed text is left as it is; and it is unchecked below seven, valid or invalid from seven exactly as validity says, with the matching message |
| RutMask.OnBlur | script.js:146-152 | leaving the field warns exactly for a long enough, non-checking identifier, and otherwise changes nothing |
| RutMask.OnInputIdempotent | script.js:110-143 | typing the text the mask already shows changes nothing |
| RutMask.OnBlurIdempotent | script.js:146-152 | leaving the field twice equals leaving it once |
| RutMask.BlurWarnsIffInvalid | script.js:127-152 | after a keystroke, blur warns exactly when the keystroke marked the field invalid |
| RutMask.ShortValidLeftUnchecked | script.js:127-142 | "1-9" is valid but is left unclassified, because it has fewer than seven cleaned characters |
| Form.FormLayoutValid | script.js:266-322 | the form's text fields and checkboxes are disjoint, and neither includes the timestamp key |
| Form.OrEmpty | script.js:325-374 | `value \|\| ''` is non-empty exactly when the stored value is truthy, and it is the stored text when there is one |
| Form.Snapshot | script.js:266-322 | the record has exactly the form's fields plus the timestamp; text fields hold their text, checkboxes hold their state |
| Form.Load | script.js:324-377 | loading yields a well-formed form: text fields get the stored value or "", checkboxes get its truthiness |
| Form.SnapshotTextOf | script.js:266-322 | a snapshot reads each text field as the form holds it |
| Form.LoadSnapshot | script.js:266-377 | loading a snapshot of a well-formed form gives the same form back |
| RecordStore.OrDefault | script.js:397-398 | a non-empty field keeps its text; an empty one gives the default label |
| RecordStore.Save | script.js:395-422 | refused (with its reason) exactly when name or RUN is empty or the RUN does not check, leaving the store unchanged; otherwise exactly one entry is appended with the given id, labels, time and data, and everything earlier is untouched |
| RecordStore.SaveChecksForm | script.js:395-410 | saving the form's snapshot succeeds exactly when the form's own name and RUN are filled in and the RUN checks |
| RecordStore.ShortRunSaved | script.js:400-410 | a two-character RUN that checks is accepted at save time |
| RecordStore.FindFirst | script.js:837 | None exactly when no entry carries the id; otherwise the first entry that does |
| RecordStore.LoadSaved | script.js:835-845 | an absent id leaves the form as it is; otherwise the form is loaded from the data of the first entry with the id, text fields by `\|\| ''` and checkboxes by truthiness |
| RecordStore.FindFirstIsFirst | script.js:837 | the entry found is the one at the first index carrying the id, even when later entries repeat it |
| RecordStore.SaveThenLoad | script.js:395-422 | loading by the id of a fresh save gives the saved form back |
| RecordStore.RemoveId | script.js:850 | an entry survives exactly when it was there and carries a different id |
| RecordStore.RemoveIdAppend | script.js:850 | filtering distributes over concatenation, so order is kept |
| RecordStore.RemoveAbsentId | script.js:850 | removing an absent id leaves the list unchanged |
| RecordStore.RemoveIdIdempotent | script.js:850 | removing twice equals removing once |
| RecordStore.RemoveIdCount | script.js:850 | exactly the entries carrying the id are dropped |
| RecordStore.Delete | script.js:847-855 | without confirmation nothing changes; with it, exactly the entries with the id go; the draft is never touched |
| RecordStore.SaveThenDelete | script.js:395-422 | deleting a freshly saved entry with a fresh id restores the store |
| RecordStore.Display | script.js:815 | entries are shown newest first, position i showing the i-th from the end |
| RecordStore.DisplayInvolution | script.js:815 | reversing the display order gives the storage order back |
| RecordStore.NewestDisplayedFirst | script.js:815 | the entry just saved is shown first |
| RecordStore.Counter | script.js:861-864 | the counter equals the number of entries the list shows, and is zero exactly when the export has nothing to write |
| RecordStore.CounterAfterSave | script.js:861-864 | the counter grows by one on a successful save and is unchanged on a refused one |
| RecordStore.CounterAfterDelete | script.js:861-864 | a confirmed delete lowers the counter by the number of entries carrying the id |
| RecordStore.Export | script.js:877-883 | the export fails exactly when there is nothing saved, and otherwise is the whole list |
| RecordStore.NewRecord | script.js:866-871 | a confirmed new record removes the draft and nothing else; unconfirmed, nothing changes |
| RecordStore.AutoSave | script.js:260-264 | the draft becomes the snapshot without validation, and the saved list is untouched |
| RecordStore.RestoreDraft | script.js:379-385 | with no draft the form is unchanged; with one, every text field takes the draft's value by `\|\| ''` and every checkbox the draft value's truthiness |
| RecordStore.AutoSaveThenRestore | script.js:260-264 | restoring an autosaved draft gives the form back |
| RecordStore.NewRecordRestoresNothing | script.js:866-871 | after a confirmed new record, loading the page restores nothing |
| Autosave.Step | script.js:250-258 | an edit sets the single timer to now + 2000 and leaves the store alone; a tick at or after the deadline clears the timer and writes its snapshot to the draft; any other tick changes nothing |
| Autosave.FiringsBounded | script.js:250-258 | firings plus the timer left pending never exceed edits plus the timer pending at the start |
| Autosave.RunKeepsSaved | script.js:250-264 | editing and autosaving never touch the saved list |
| Autosave.RunAppend | script.js:250-258 | running two event sequences in turn equals running them joined |
| Autosave.EarlyTicksIdle | script.js:253-256 | ticks before the deadline change nothing |
| Autosave.LastEditWins | script.js:252-256 | after an edit, earlier deadlines are gone: the timer is due 2000 after the last edit and the draft is unchanged until then |
| Guardian.Assign | script.js:202-227 | assigning a list of fields touches only those fields |
| Guardian.AssignAll | script.js:202-227 | with distinct names, each field ends holding its assigned value |
| Guardian.NamesApart | script.js:164-227 | the six written fields are distinct and apart from the parent fields and the checkboxes |
| Guardian.ParentFieldsApart | script.js:164-174 | the mother's and father's fields are different fields |
| Guardian.CopyParent | script.js:202-218 | each of the five guardian fields holds exactly the text of the parent's matching field, the relationship field holds "Madre"/"Padre", and no other field changes |
| Guardian.ClearGuardian | script.js:220-227 | the six guardian fields become ""; no other field changes |
| Guardian.SetBox | script.js:183-199 | the box takes its new state; checking unchecks the other box and puts the parent's exact texts and the relationship into the guardian fields; unchecking sets the six guardian fields to "" and leaves the other box; nothing else changes |
| Guardian.TakeGuardian | script.js:183-199 | the checked branch of either handler: the box holds true, the other box false, the guardian fields hold the parent's texts and the relationship, and nothing else changes |
| Guardian.ReleaseGuardian | script.js:183-199 | the unchecked branch of either handler: the box holds false, the other box is untouched, the six guardian fields hold "", and nothing else changes |
| Guardian.EditParent | script.js:163-181 | the edited field holds the text its earlier input listeners left there (for a RUN field, the identifier mask's text); with the parent's box checked the guardian mirrors the parent, and otherwise nothing else changes |
| Guardian.SetBoxKeepsCoherent | script.js:183-227 | flipping a box keeps at most one box checked, with a checked parent mirrored |
| Guardian.EditParentKeepsCoherent | script.js:163-227 | editing a parent field keeps the form coherent |
| Guardian.MaskedRunCopied | script.js:238-244 | the mask on a parent's RUN is set up before the auto-fill, so typing there leaves `formatearRut`'s output from two identifier characters on (the typed text below that) in the parent's RUN, and, with the box checked, in the guardian's RUN too |
| Guardian.FormLayoutFitsGuardian | script.js:164-227 | every field the auto-fill reads or writes, and both checkboxes, are fields of the form, of the right kind |
| Guardian.SetBoxKeepsWellFormed | script.js:183-227 | flipping a box keeps every text field a text and every checkbox a flag |
| Guardian.EditParentKeepsWellFormed | script.js:163-227 | typing into a parent field keeps the form well formed |
| Guardian.CopyParentKeepsWellFormed | script.js:202-218 | copying a parent keeps the form well formed |
| Mappings.Phone | script.js:18 | the phone column is the mobile when it is truthy, and otherwise the home phone (or "") |
| Mappings.ToCloudRow | script.js:10-24 | the row is stamped with the local time, the phone column falls back from mobile to home phone, and each of the other eleven columns takes its record field with `\|\| ''` |
| Mappings.CloudRowOfSnapshot | script.js:10-24 | for a snapshot of the form, the row holds the name and RUN as typed, and the mobile or, failing that, the home phone |
| Mappings.PhoneFallsBack | script.js:18 | for text-valued fields, the mobile when non-empty, else the home phone |
| Mappings.Split | script.js:481 | splitting gives at least one piece, and no piece contains the separator |
| Mappings.JoinSplit | script.js:481 | joining the split pieces with the separator gives the text back |
| Mappings.SplitJoin | script.js:481 | splitting separator-free pieces joined by the separator gives the pieces back |
| Mappings.SplitNoSep | script.js:481 | text without the separator splits into itself |
| Mappings.BirthDateShown | script.js:479-485 | an empty date stays empty; a date that does not split into three parts is unchanged |
| Mappings.BirthDateOfIso | script.js:479-485 | Y-M-D is printed D/M/Y |
| Mappings.SkipSpaces | script.js:488 | dropping leading whitespace gives a suffix of the input that does not start with whitespace, and everything dropped is whitespace |
| Mappings.Underscored | script.js:488 | after replacing whitespace runs, no whitespace is left and the text is no longer |
| Mappings.UnderscoredNoSpace | script.js:488 | text without whitespace is unchanged |
| Mappings.UnderscoredIdempotent | script.js:488 | replacing twice equals replacing once |
| Mappings.UnderscoredRun | script.js:488 | a run of whitespace of any length between two whitespace-free words becomes a single underscore |
| Mappings.SkipSpacesOverRun | script.js:488 | a whitespace run is consumed up to the next non-whitespace character and no further |
| Mappings.UnderscoredLeadingRun | script.js:488 | a leading whitespace run becomes one underscore in front of the rest |
| Mappings.UnderscoredKeepsFirst | script.js:488 | a non-whitespace first character is kept in front |
| Mappings.UnderscoredWordRun | script.js:488 | a whitespace-free word followed by a whitespace run of any length: the word is kept, the run becomes one underscore, and the rest is replaced in turn |
| Mappings.UnderscoredThreeWords | script.js:488 | three whitespace-free words separated by whitespace runs are joined by single underscores |
| Mappings.UnderscoredSplit | script.js:488 | two whitespace-free words joined by a space become the words joined by an underscore |
| Mappings.ReceiptNameOfTwoWords | script.js:487-488 | a two-word student name appears in the file name with its words joined by an underscore |
| Mappings.ReceiptFileName | script.js:487-488 | the file name has no whitespace when the stamp has none; with no student name it uses "Sin_nombre" |

## Left out

- The spreadsheet upload (the POST to the cloud endpoint and its response handling, script.js:26-42) is network I/O. Only the row mapping is modelled.
- DOM reads and writes are replaced by the form record. Alerts, notifications, the modal, `window.open`, printing and `location.reload` are UI. Confirmation dialogs become a `confirmed` parameter.
- The cursor adjustment after reformatting (script.js:115-123) depends on the browser's selection state.
- File downloads and the receipt's HTML template (script.js:477-802, 885-894) are browser APIs and markup.
- JSON serialisation and `localStorage` are represented directly by the `Store` datatype. Storage failures and malformed stored JSON are not modelled.
- Clocks (`Date.now()`, `toISOString`, `toLocaleString`) are parameters. Nothing about their values is assumed, so id uniqueness is not modelled, because the code does not ensure it.
- The page-load setup (today's date in the enrolment-date fields, wiring the listeners, script.js:231-248) is DOM glue. The one consequence of the wiring order the model keeps is that the mask runs before the auto-fill on a parent's RUN (`Guardian.MaskedRunCopied`).
- `imprimirComprobante` (script.js:911-925): its name check is a UI alert, and it stores the snapshot under a third local-storage key, `'fichaActual'` (script.js:921), for the receipt page. That key differs from the draft key `'ficha_actual'` (script.js:2). The model has no slot for it, because only the receipt page reads it.
- Autosave.Step: the form snapshot taken when the timer fires is carried by the tick event rather than read from a live form, because the page's form is not part of this model.
- Guardian.EditParent: the model covers one edit of a parent field while the form changes in no other way. Typing into other fields, and programmatic checkbox changes (which fire no change event), are not modelled.
  Its value parameter is the text the field holds once its earlier listeners have run. For a parent's RUN, that is the identifier mask's text, which `Guardian.MaskedRunCopied` composes in.
- Mappings.ReceiptFileName: the model states only the whitespace-free shape and the "Sin_nombre" fallback. The decimal text of the clock is a parameter.
- Mappings.BirthDateShown: a missing birth date (`undefined`) is modelled as the empty text.
