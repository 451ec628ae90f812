/**
 * The enrolment form as data. The browser form is a set of named inputs;
 * here it is a record mapping each field name to a text or a checkbox state.
 * Taking a snapshot of the form (what is persisted) and loading a stored
 * record back into the form are the two directions between them.
 */
module Form {

  /** The value of one field: the text of an input, select or textarea, or a checkbox state. */
  datatype Value = Text(s: string) | Flag(b: bool)

  /** A form snapshot or stored record: field name to value. Missing keys are allowed. */
  type Record = map<string, Value>

  /** Enrolment date and register number. */
  const EnrolmentFields: set<string> := {"diaFecha", "mesFecha", "anoFecha", "numeroRegistro"}

  /** The student's identity, address and phones. */
  const StudentFields: set<string> := {"nombreAlumno", "fechaNacimiento", "edad", "run", "cursoIngresa", "repitente", "cursoRepetido", "domicilio", "comuna", "fonoCasa", "celular", "otroFono"}

  /** The student's schooling, health and household. */
  const BackgroundFields: set<string> := {"procedenciaEscolar", "enfermedades", "informePsico", "programaPIE", "programaGobierno", "perteneceEtnia", "cualEtnia", "personasVive"}

  /** The mother's data. */
  const MotherFields: set<string> := {"nombreMadre", "edadMadre", "runMadre", "escolaridadMadre", "trabajoMadre"}

  /** The father's data. */
  const FatherFields: set<string> := {"nombrePadre", "edadPadre", "runPadre", "escolaridadPadre", "trabajoPadre"}

  /** The guardian's data. */
  const GuardianFields: set<string> := {"nombreApoderado", "edadApoderado", "runApoderado", "escolaridadApoderado", "trabajoApoderado", "parentesco", "telefonoApoderado"}

  /** Transport, commitment, official e-mail and pick-up authorisation. */
  const ClosingFields: set<string> := {"movilizacionParticular", "movilizacionEscolar", "nombreCompromisoApo", "emailOficial", "nombreApoderadoRetiro", "nombrePersonaRetiro", "rutPersonaRetiro"}

  /** The text inputs, selects and textareas the form reads and writes. */
  const TextFields: set<string> :=
    EnrolmentFields + StudentFields + BackgroundFields + MotherFields + FatherFields + GuardianFields + ClosingFields

  /** The checkboxes the form reads and writes. */
  const CheckboxFields: set<string> := {"reciboMano", "reciboCorreo", "madreApoderado", "padreApoderado"}

  /** The key under which a snapshot records the moment it was taken. */
  const SavedAtKey: string := "fechaGuardado"

  /**
   * Which names are text fields and which are checkboxes. A valid layout
   * keeps the two apart and does not use the timestamp key.
   */
  datatype Layout = Layout(texts: set<string>, boxes: set<string>)
  {
    function Fields(): set<string> { texts + boxes }

    predicate Valid()
    {
      texts !! boxes && SavedAtKey !in texts && SavedAtKey !in boxes
    }
  }

  /** The enrolment form's layout. */
  const FormLayout: Layout := Layout(TextFields, CheckboxFields)

  /** No section of text fields holds a checkbox name or the timestamp key. */
  predicate Apart(section: set<string>)
  {
    section !! CheckboxFields && SavedAtKey !in section
  }

  lemma EnrolmentApart()
    ensures Apart(EnrolmentFields)
  {
  }

  lemma StudentApart()
    ensures Apart(StudentFields)
  {
  }

  lemma BackgroundApart()
    ensures Apart(BackgroundFields)
  {
  }

  lemma MotherApart()
    ensures Apart(MotherFields)
  {
  }

  lemma FatherApart()
    ensures Apart(FatherFields)
  {
  }

  lemma GuardianApart()
    ensures Apart(GuardianFields)
  {
  }

  lemma ClosingApart()
    ensures Apart(ClosingFields)
  {
  }

  /** The form's field sets are disjoint and do not contain the timestamp key. */
  lemma FormLayoutValid()
    ensures FormLayout.Valid()
  {
    EnrolmentApart();
    StudentApart();
    BackgroundApart();
    MotherApart();
    FatherApart();
    GuardianApart();
    ClosingApart();
  }


  /** A record that has exactly the layout's fields, each holding a value of its kind. */
  predicate WellFormed(l: Layout, f: Record)
  {
    && f.Keys == l.Fields()
    && (forall k :: k in f && k in l.texts ==> f[k].Text?)
    && (forall k :: k in f && k in l.boxes ==> f[k].Flag?)
  }

  /** The text of a field as the form holds it; an absent or non-text field reads as "". */
  function TextOf(r: Record, k: string): string
  {
    if k in r && r[k].Text? then r[k].s else ""
  }

  /** The state of a checkbox as the form holds it; an absent or non-checkbox field reads as unchecked. */
  predicate Checked(r: Record, k: string)
  {
    k in r && r[k].Flag? && r[k].b
  }

  /** JavaScript truthiness of a stored field: absent, the empty text and false are falsy. */
  predicate Truthy(r: Record, k: string)
  {
    k in r && match r[k] case Text(s) => s != "" case Flag(b) => b
  }

  /** The text shown when a stored value is put into a text input (string conversion). */
  function Shown(v: Value): string
  {
    match v
    case Text(s) => s
    case Flag(b) => if b then "true" else "false"
  }

  /** A stored value put where text is expected with `|| ''`: the value as text if truthy, otherwise "". */
  function OrEmpty(data: Record, k: string): (r: string)
    ensures r != "" <==> Truthy(data, k)
    ensures k in data && data[k].Text? ==> r == data[k].s
  {
    if Truthy(data, k) then Shown(data[k]) else ""
  }

  /**
   * The record the form produces (obtenerDatosFormulario): the text of every
   * text field, the state of every checkbox, and the moment of the snapshot
   * under the timestamp key.
   */
  function Snapshot(l: Layout, form: Record, savedAt: string): (r: Record)
    requires l.Valid()
    ensures r.Keys == l.Fields() + {SavedAtKey}
    ensures r[SavedAtKey] == Text(savedAt)
    ensures forall k :: k in l.texts ==> r[k] == Text(TextOf(form, k))
    ensures forall k :: k in l.boxes ==> r[k] == Flag(Checked(form, k))
  {
    map k | k in l.Fields() + {SavedAtKey} ::
      if k == SavedAtKey then Text(savedAt)
      else if k in l.boxes then Flag(Checked(form, k))
      else Text(TextOf(form, k))
  }

  /**
   * Loading a stored record into the form (cargarDatosFormulario): every text
   * field gets the stored value if it is truthy and "" otherwise, and every
   * checkbox is checked exactly when the stored value is truthy. The
   * timestamp is not loaded.
   */
  function Load(l: Layout, data: Record): (f: Record)
    requires l.Valid()
    ensures WellFormed(l, f)
    ensures forall k :: k in l.texts ==> f[k] == Text(OrEmpty(data, k))
    ensures forall k :: k in l.boxes ==> f[k] == Flag(Truthy(data, k))
  {
    map k | k in l.Fields() ::
      if k in l.boxes then Flag(Truthy(data, k))
      else Text(OrEmpty(data, k))
  }

  /** A snapshot reads a text field as the form holds it. */
  lemma SnapshotTextOf(l: Layout, form: Record, savedAt: string, k: string)
    requires l.Valid() && k in l.texts
    ensures TextOf(Snapshot(l, form, savedAt), k) == TextOf(form, k)
  {
  }

  /** Loading a snapshot of a well-formed form gives the same form back. */
  lemma LoadSnapshot(l: Layout, form: Record, savedAt: string)
    requires l.Valid() && WellFormed(l, form)
    ensures Load(l, Snapshot(l, form, savedAt)) == form
  {
    var f := Load(l, Snapshot(l, form, savedAt));
    forall k | k in l.Fields()
      ensures f[k] == form[k]
    {
      if k in l.boxes {
        assert form[k].Flag?;
      } else {
        assert form[k].Text?;
      }
    }
  }
}
