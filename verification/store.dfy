/**
 * The browser's local store of enrolment records: one slot for the draft of
 * the form being filled in, and the list of saved records in the order they
 * were saved. The clock readings a save takes are parameters.
 */
module RecordStore {
  import opened Common
  import opened Form
  import Rut
  import RutMask

  /** A saved record: its id, the labels shown in the list, when it was saved, and the form data. */
  datatype Entry = Entry(
    id: int,
    nombreAlumno: string,
    numeroRegistro: string,
    fechaGuardado: string,
    datos: Record)

  /** The draft slot and the saved list. */
  datatype Store = Store(draft: Option<Record>, saved: seq<Entry>)

  /** Why a save was refused. */
  datatype SaveError = MissingRequiredField | InvalidRun

  /** The store after a save, and the reason it was refused if it was. */
  datatype SaveOutcome = SaveOutcome(store: Store, error: Option<SaveError>)

  /** Why an export produced nothing. */
  datatype ExportError = NothingToExport

  /** The list labels used when the student name or the register number is empty. */
  const NoName: string := "Sin nombre"
  const NoNumber: string := "Sin número"

  /** The fields a save reads are text fields of the form. */
  lemma KeyFieldsAreText()
    ensures "nombreAlumno" in FormLayout.texts
    ensures "run" in FormLayout.texts
    ensures "numeroRegistro" in FormLayout.texts
  {
  }

  /** The text of `k`, or `default` when it is empty. */
  function OrDefault(data: Record, k: string, default: string): (r: string)
    ensures r != "" ==> r == TextOf(data, k) || r == default
    ensures TextOf(data, k) != "" ==> r == TextOf(data, k)
    ensures TextOf(data, k) == "" ==> r == default
  {
    if TextOf(data, k) != "" then TextOf(data, k) else default
  }

  // ---------------------------------------------------------------------------
  // Saving (guardarFicha)
  // ---------------------------------------------------------------------------

  /**
   * Saves the snapshot `data` the form produced: refuses it when the student
   * name or the student RUN is empty or when the RUN does not check, and
   * otherwise appends one entry with id `now`.
   */
  function Save(s: Store, data: Record, now: int, localNow: string): (o: SaveOutcome)
    ensures o.error == Some(MissingRequiredField) <==>
      TextOf(data, "nombreAlumno") == "" || TextOf(data, "run") == ""
    ensures o.error == Some(InvalidRun) <==>
      TextOf(data, "nombreAlumno") != "" && TextOf(data, "run") != "" && !Rut.IsValid(TextOf(data, "run"))
    ensures o.error.Some? ==> o.store == s
    ensures o.error.None? ==>
      && o.store.draft == s.draft
      && |o.store.saved| == |s.saved| + 1
      && o.store.saved[..|s.saved|] == s.saved
      && var e := o.store.saved[|s.saved|];
      && e.id == now
      && e.datos == data
      && e.nombreAlumno == TextOf(data, "nombreAlumno")
      && e.numeroRegistro == (if TextOf(data, "numeroRegistro") == "" then NoNumber else TextOf(data, "numeroRegistro"))
      && e.fechaGuardado == localNow
  {
    var name := OrDefault(data, "nombreAlumno", NoName);
    var number := OrDefault(data, "numeroRegistro", NoNumber);
    if TextOf(data, "nombreAlumno") == "" || TextOf(data, "run") == "" then
      SaveOutcome(s, Some(MissingRequiredField))
    else if !Rut.IsValid(TextOf(data, "run")) then
      SaveOutcome(s, Some(InvalidRun))
    else
      var e := Entry(now, name, number, localNow, data);
      SaveOutcome(s.(saved := s.saved + [e]), None)
  }

  /** A save of the form's snapshot checks the form's own name and RUN fields. */
  lemma SaveChecksForm(s: Store, form: Record, now: int, isoNow: string, localNow: string)
    ensures FormLayout.Valid()
    ensures var o := Save(s, Snapshot(FormLayout, form, isoNow), now, localNow);
      o.error.None? <==>
        TextOf(form, "nombreAlumno") != "" && TextOf(form, "run") != "" && Rut.IsValid(TextOf(form, "run"))
  {
    FormLayoutValid();
    KeyFieldsAreText();
    SnapshotTextOf(FormLayout, form, isoNow, "nombreAlumno");
    SnapshotTextOf(FormLayout, form, isoNow, "run");
  }

  /** There is no minimum length at save time: a two-character RUN that checks is accepted. */
  lemma ShortRunSaved(s: Store, data: Record, now: int, localNow: string)
    requires TextOf(data, "nombreAlumno") != "" && TextOf(data, "run") == "1-9"
    ensures Save(s, data, now, localNow).error.None?
  {
    RutMask.ShortValidLeftUnchecked("1-9");
  }

  // ---------------------------------------------------------------------------
  // Finding, loading and deleting saved entries
  // ---------------------------------------------------------------------------

  /** The first saved entry with the given id, if any (Array.prototype.find). */
  function FindFirst(saved: seq<Entry>, id: int): (r: Option<Entry>)
    ensures r.None? <==> forall i :: 0 <= i < |saved| ==> saved[i].id != id
    ensures r.Some? ==>
      r.value.id == id &&
      exists i :: 0 <= i < |saved| && saved[i] == r.value && (forall j :: 0 <= j < i ==> saved[j].id != id)
  {
    if saved == [] then None
    else if saved[0].id == id then Some(saved[0])
    else
      var r := FindFirst(saved[1..], id);
      if r.Some? then
        ghost var i :| 0 <= i < |saved[1..]| && saved[1..][i] == r.value &&
          (forall j :: 0 <= j < i ==> saved[1..][j].id != id);
        assert saved[i + 1] == r.value;
        r
      else r
  }

  /**
   * Loading a saved entry into the form (cargarFichaGuardada): the form of the
   * first entry with the id, or the current form when there is none.
   */
  function LoadSaved(s: Store, id: int, form: Record): (f: Record)
    ensures (forall i :: 0 <= i < |s.saved| ==> s.saved[i].id != id) ==> f == form
    ensures (exists i :: 0 <= i < |s.saved| && s.saved[i].id == id) ==> WellFormed(FormLayout, f)
    ensures forall i :: FirstWithId(s.saved, id, i) ==>
      && (forall k :: k in FormLayout.texts ==> f[k] == Text(OrEmpty(s.saved[i].datos, k)))
      && (forall k :: k in FormLayout.boxes ==> f[k] == Flag(Truthy(s.saved[i].datos, k)))
  {
    FormLayoutValid();
    FindFirstIsFirst(s.saved, id);
    match FindFirst(s.saved, id)
    case None => form
    case Some(e) => Load(FormLayout, e.datos)
  }

  /** Entry `i` carries the id and no earlier entry does. */
  predicate FirstWithId(saved: seq<Entry>, id: int, i: int)
  {
    0 <= i < |saved| && saved[i].id == id && forall j :: 0 <= j < i ==> saved[j].id != id
  }

  /** The entry found for an id is the one at the first index carrying it. */
  lemma FindFirstIsFirst(saved: seq<Entry>, id: int)
    ensures forall i :: FirstWithId(saved, id, i) ==> FindFirst(saved, id) == Some(saved[i])
  {
    forall i | FirstWithId(saved, id, i)
      ensures FindFirst(saved, id) == Some(saved[i])
    {
      var r := FindFirst(saved, id);
      var i0 :| 0 <= i0 < |saved| && saved[i0] == r.value && (forall j :: 0 <= j < i0 ==> saved[j].id != id);
      assert !(i < i0) by {
        assert saved[i].id == id;
      }
    }
  }

  /** Saving the form then loading the new entry by its id gives the form back, when no earlier entry has that id. */
  lemma SaveThenLoad(s: Store, form: Record, now: int, isoNow: string, localNow: string)
    requires WellFormed(FormLayout, form)
    requires forall i :: 0 <= i < |s.saved| ==> s.saved[i].id != now
    requires FormLayout.Valid() && Save(s, Snapshot(FormLayout, form, isoNow), now, localNow).error.None?
    ensures LoadSaved(Save(s, Snapshot(FormLayout, form, isoNow), now, localNow).store, now, form) == form
  {
    var t := Save(s, Snapshot(FormLayout, form, isoNow), now, localNow).store;
    var r := FindFirst(t.saved, now);
    assert t.saved[|s.saved|].id == now;
    assert r.value == t.saved[|s.saved|];
    LoadSnapshot(FormLayout, form, isoNow);
  }

  /** The saved list without the entries carrying the id, in their original order. */
  function RemoveId(saved: seq<Entry>, id: int): (r: seq<Entry>)
    ensures |r| <= |saved|
    ensures forall e :: e in r <==> e in saved && e.id != id
  {
    if saved == [] then []
    else (if saved[0].id == id then [] else [saved[0]]) + RemoveId(saved[1..], id)
  }

  /** Removing by id from two lists joined is removing from each. */
  lemma {:induction false} RemoveIdAppend(a: seq<Entry>, b: seq<Entry>, id: int)
    ensures RemoveId(a + b, id) == RemoveId(a, id) + RemoveId(b, id)
    decreases |a|
  {
    if a == [] {
      assert a + b == b;
    } else {
      assert (a + b)[1..] == a[1..] + b;
      RemoveIdAppend(a[1..], b, id);
    }
  }

  /** Removing an id no entry carries leaves the list unchanged. */
  lemma {:induction false} RemoveAbsentId(saved: seq<Entry>, id: int)
    requires forall i :: 0 <= i < |saved| ==> saved[i].id != id
    ensures RemoveId(saved, id) == saved
    decreases |saved|
  {
    if saved != [] {
      RemoveAbsentId(saved[1..], id);
    }
  }

  /** Removing the same id twice is removing it once. */
  lemma RemoveIdIdempotent(saved: seq<Entry>, id: int)
    ensures RemoveId(RemoveId(saved, id), id) == RemoveId(saved, id)
  {
    var r := RemoveId(saved, id);
    forall i | 0 <= i < |r|
      ensures r[i].id != id
    {
      assert r[i] in r;
    }
    RemoveAbsentId(r, id);
  }

  /** How many saved entries carry the id. */
  function Occurrences(saved: seq<Entry>, id: int): nat
  {
    if saved == [] then 0 else (if saved[0].id == id then 1 else 0) + Occurrences(saved[1..], id)
  }

  /** Removal drops exactly the entries carrying the id. */
  lemma {:induction false} RemoveIdCount(saved: seq<Entry>, id: int)
    ensures |RemoveId(saved, id)| == |saved| - Occurrences(saved, id)
    decreases |saved|
  {
    if saved != [] {
      RemoveIdCount(saved[1..], id);
    }
  }

  /** Deleting a saved entry (eliminarFicha), which happens only once the user confirms. */
  function Delete(s: Store, id: int, confirmed: bool): (t: Store)
    ensures t.draft == s.draft
    ensures !confirmed ==> t == s
    ensures confirmed ==> forall e :: e in t.saved <==> e in s.saved && e.id != id
  {
    if confirmed then s.(saved := RemoveId(s.saved, id)) else s
  }

  /** Deleting the id of the entry just saved gives back the list as it was, when no earlier entry had it. */
  lemma SaveThenDelete(s: Store, data: Record, now: int, localNow: string)
    requires forall i :: 0 <= i < |s.saved| ==> s.saved[i].id != now
    requires Save(s, data, now, localNow).error.None?
    ensures Delete(Save(s, data, now, localNow).store, now, true) == s
  {
    var t := Save(s, data, now, localNow).store;
    var e := t.saved[|s.saved|];
    assert t.saved == s.saved + [e];
    RemoveIdAppend(s.saved, [e], now);
    RemoveAbsentId(s.saved, now);
    assert RemoveId([e], now) == [];
  }

  // ---------------------------------------------------------------------------
  // Listing, counting and exporting
  // ---------------------------------------------------------------------------

  /** The order of the saved list on screen (mostrarGuardadas): newest first. */
  function Display(saved: seq<Entry>): (r: seq<Entry>)
    ensures |r| == |saved|
    ensures forall i :: 0 <= i < |r| ==> r[i] == saved[|saved| - 1 - i]
  {
    if saved == [] then [] else Display(saved[1..]) + [saved[0]]
  }

  /** Reversing the display order gives the saved order back. */
  lemma DisplayInvolution(saved: seq<Entry>)
    ensures Display(Display(saved)) == saved
  {
  }

  /** The entry just saved is the first one displayed. */
  lemma NewestDisplayedFirst(s: Store, data: Record, now: int, localNow: string)
    requires Save(s, data, now, localNow).error.None?
    ensures var t := Save(s, data, now, localNow).store;
      Display(t.saved)[0] == t.saved[|s.saved|] && Display(t.saved)[0].id == now
  {
  }

  /** The number shown in the saved-records counter (actualizarContador). */
  function Counter(s: Store): (c: nat)
    ensures c == |Display(s.saved)|
    ensures c == 0 <==> Export(s).Failure?
  {
    |s.saved|
  }

  /** A successful save adds one to the counter, a refused one leaves it unchanged. */
  lemma CounterAfterSave(s: Store, data: Record, now: int, localNow: string)
    ensures var o := Save(s, data, now, localNow);
      Counter(o.store) == Counter(s) + (if o.error.None? then 1 else 0)
  {
  }

  /** A confirmed delete lowers the counter by the number of entries carrying the id. */
  lemma CounterAfterDelete(s: Store, id: int)
    ensures Counter(Delete(s, id, true)) == Counter(s) - Occurrences(s.saved, id)
  {
    RemoveIdCount(s.saved, id);
  }

  /** The records an export writes (exportarTodasJSON): the whole saved list, or nothing when it is empty. */
  function Export(s: Store): (r: Result<seq<Entry>, ExportError>)
    ensures r.Failure? <==> s.saved == []
    ensures r.Success? ==> r.value == s.saved && |r.value| > 0
  {
    if |s.saved| == 0 then Failure(NothingToExport) else Success(s.saved)
  }

  // ---------------------------------------------------------------------------
  // The draft slot
  // ---------------------------------------------------------------------------

  /** Starting a new record (nuevaFicha): once confirmed, drops the draft and nothing else. */
  function NewRecord(s: Store, confirmed: bool): (t: Store)
    ensures t.saved == s.saved
    ensures t.draft.None? <==> confirmed || s.draft.None?
    ensures t.draft.Some? ==> t == s
  {
    if confirmed then s.(draft := None) else s
  }

  /**
   * Writing the draft (autoGuardar): the snapshot `data` the form produced
   * replaces the draft, whatever it holds, and the saved list is untouched.
   */
  function AutoSave(s: Store, data: Record): (t: Store)
    ensures t.saved == s.saved
    ensures t.draft == Some(data)
  {
    s.(draft := Some(data))
  }

  /** Restoring the draft on page load (cargarFichaActual): the form from the draft, if there is one. */
  function RestoreDraft(s: Store, form: Record): (f: Record)
    ensures s.draft.None? ==> f == form
    ensures s.draft.Some? ==> WellFormed(FormLayout, f)
    ensures s.draft.Some? ==> forall k :: k in FormLayout.texts ==> f[k] == Text(OrEmpty(s.draft.value, k))
    ensures s.draft.Some? ==> forall k :: k in FormLayout.boxes ==> f[k] == Flag(Truthy(s.draft.value, k))
  {
    FormLayoutValid();
    if s.draft.Some? then Load(FormLayout, s.draft.value) else form
  }

  /** Restoring a draft the autosave wrote gives the form back. */
  lemma AutoSaveThenRestore(s: Store, form: Record, isoNow: string, other: Record)
    requires WellFormed(FormLayout, form)
    ensures FormLayout.Valid()
    ensures RestoreDraft(AutoSave(s, Snapshot(FormLayout, form, isoNow)), other) == form
  {
    FormLayoutValid();
    LoadSnapshot(FormLayout, form, isoNow);
  }

  /** After a confirmed new record, page load restores nothing: the form stays as it is. */
  lemma NewRecordRestoresNothing(s: Store, form: Record)
    ensures RestoreDraft(NewRecord(s, true), form) == form
  {
  }
}
