/**
 * Small pure mappings applied to a saved record: the row sent to the cloud
 * spreadsheet, the birth date as printed on the receipt, and the receipt's
 * file name.
 */
module Mappings {
  import Common
  import opened Form

  // ---------------------------------------------------------------------------
  // The cloud spreadsheet row (guardarEnGoogleSheets)
  // ---------------------------------------------------------------------------

  /** The spreadsheet row, one field per column, in column order. */
  datatype CloudRow = CloudRow(
    fechaHora: string,           // 'Fecha y Hora'
    nombreAlumno: string,        // 'Nombre Alumno'
    run: string,                 // 'RUN'
    fechaNacimiento: string,     // 'Fecha Nacimiento'
    edad: string,                // 'Edad'
    curso: string,               // 'Curso'
    domicilio: string,           // 'Domicilio'
    comuna: string,              // 'Comuna'
    telefono: string,            // 'Teléfono'
    email: string,               // 'Email'
    nombreApoderado: string,     // 'Nombre Apoderado'
    runApoderado: string,        // 'RUN Apoderado'
    telefonoApoderado: string)   // 'Teléfono Apoderado'

  /** The phone column: the mobile if there is one, else the home phone, else "". */
  function Phone(data: Record): (r: string)
    ensures Truthy(data, "celular") ==> r == OrEmpty(data, "celular")
    ensures !Truthy(data, "celular") ==> r == OrEmpty(data, "fonoCasa")
  {
    if Truthy(data, "celular") then Shown(data["celular"])
    else if Truthy(data, "fonoCasa") then Shown(data["fonoCasa"])
    else ""
  }

  /** The row for a record, stamped with the local time `localNow`. */
  function ToCloudRow(data: Record, localNow: string): (row: CloudRow)
    ensures row.fechaHora == localNow
    ensures row.nombreAlumno == OrEmpty(data, "nombreAlumno") && row.run == OrEmpty(data, "run")
    ensures row.curso == OrEmpty(data, "cursoIngresa") && row.email == OrEmpty(data, "emailOficial")
    ensures row.telefono == Phone(data)
    ensures row.fechaNacimiento == OrEmpty(data, "fechaNacimiento") && row.edad == OrEmpty(data, "edad")
    ensures row.domicilio == OrEmpty(data, "domicilio") && row.comuna == OrEmpty(data, "comuna")
    ensures row.nombreApoderado == OrEmpty(data, "nombreApoderado")
    ensures row.runApoderado == OrEmpty(data, "runApoderado")
    ensures row.telefonoApoderado == OrEmpty(data, "telefonoApoderado")
  {
    CloudRow(
      localNow,
      OrEmpty(data, "nombreAlumno"),
      OrEmpty(data, "run"),
      OrEmpty(data, "fechaNacimiento"),
      OrEmpty(data, "edad"),
      OrEmpty(data, "cursoIngresa"),
      OrEmpty(data, "domicilio"),
      OrEmpty(data, "comuna"),
      Phone(data),
      OrEmpty(data, "emailOficial"),
      OrEmpty(data, "nombreApoderado"),
      OrEmpty(data, "runApoderado"),
      OrEmpty(data, "telefonoApoderado"))
  }

  /** Field `k` is absent or holds text, as every text field of a snapshot does. */
  predicate HoldsText(data: Record, k: string)
  {
    k !in data || data[k].Text?
  }

  /** For text-valued phone fields, the phone column is the mobile when it is non-empty and the home phone otherwise. */
  lemma PhoneFallsBack(data: Record)
    requires HoldsText(data, "celular") && HoldsText(data, "fonoCasa")
    ensures Phone(data) == if TextOf(data, "celular") != "" then TextOf(data, "celular") else TextOf(data, "fonoCasa")
  {
  }

  /**
   * The row for a snapshot of the form carries the form's own texts: the
   * name and RUN as typed, and the mobile or, failing that, the home phone.
   */
  lemma CloudRowOfSnapshot(l: Layout, form: Record, savedAt: string, localNow: string)
    requires l.Valid()
    requires "nombreAlumno" in l.texts && "run" in l.texts && "celular" in l.texts && "fonoCasa" in l.texts
    ensures var row := ToCloudRow(Snapshot(l, form, savedAt), localNow);
      && row.nombreAlumno == TextOf(form, "nombreAlumno")
      && row.run == TextOf(form, "run")
      && row.telefono == if TextOf(form, "celular") != "" then TextOf(form, "celular") else TextOf(form, "fonoCasa")
  {
    var data := Snapshot(l, form, savedAt);
    PhoneFallsBack(data);
  }

  // ---------------------------------------------------------------------------
  // Birth date on the receipt (descargarComprobante)
  // ---------------------------------------------------------------------------

  /** The pieces of `s` between occurrences of `sep` (String.prototype.split with a one-character separator). */
  function Split(s: string, sep: char): (r: seq<string>)
    ensures |r| >= 1
    ensures forall i :: 0 <= i < |r| ==> sep !in r[i]
    decreases |s|
  {
    if s == [] then [""]
    else
      var rest := Split(s[1..], sep);
      if s[0] == sep then [""] + rest
      else [[s[0]] + rest[0]] + rest[1..]
  }

  /** The pieces joined back with `sep` between them. */
  function Join(parts: seq<string>, sep: char): string
    requires |parts| >= 1
    decreases |parts|
  {
    if |parts| == 1 then parts[0] else parts[0] + [sep] + Join(parts[1..], sep)
  }

  /** Joining the pieces of a split gives the text back. */
  lemma {:induction false} JoinSplit(s: string, sep: char)
    ensures Join(Split(s, sep), sep) == s
    decreases |s|
  {
    if s != [] {
      var rest := Split(s[1..], sep);
      JoinSplit(s[1..], sep);
      if s[0] == sep {
        assert ([""] + rest)[1..] == rest;
      } else {
        var r := [[s[0]] + rest[0]] + rest[1..];
        if |rest| > 1 {
          assert r[1..] == rest[1..];
        }
      }
    }
  }

  /** Splitting pieces joined with a separator they do not contain gives the pieces back. */
  lemma {:induction false} SplitJoin(parts: seq<string>, sep: char)
    requires |parts| >= 1
    requires forall i :: 0 <= i < |parts| ==> sep !in parts[i]
    ensures Split(Join(parts, sep), sep) == parts
    decreases |parts|, |parts[0]|
  {
    if |parts| == 1 {
      SplitNoSep(parts[0], sep);
    } else if parts[0] == [] {
      var tail := Join(parts[1..], sep);
      assert Join(parts, sep) == [sep] + tail;
      assert ([sep] + tail)[1..] == tail;
      SplitJoin(parts[1..], sep);
      assert [""] + parts[1..] == parts;
    } else {
      var p0 := parts[0];
      var shorter := [p0[1..]] + parts[1..];
      assert shorter[1..] == parts[1..];
      assert sep !in p0[1..] && p0[0] != sep by {
        assert p0[0] in p0;
        assert forall c :: c in p0[1..] ==> c in p0;
      }
      SeparatorFreeTail(parts, shorter, sep);
      SplitJoin(shorter, sep);
      assert Join(parts, sep) == [p0[0]] + Join(shorter, sep) by {
        assert [p0[0]] + p0[1..] == p0;
      }
      SplitCons(p0[0], Join(shorter, sep), sep);
      assert [p0[0]] + p0[1..] == p0;
      assert [p0] + parts[1..] == parts;
    }
  }

  /** Dropping the first character of the first piece keeps every piece free of the separator. */
  lemma SeparatorFreeTail(parts: seq<string>, shorter: seq<string>, sep: char)
    requires |parts| >= 1 && |parts[0]| >= 1
    requires forall i :: 0 <= i < |parts| ==> sep !in parts[i]
    requires shorter == [parts[0][1..]] + parts[1..]
    ensures forall i :: 0 <= i < |shorter| ==> sep !in shorter[i]
  {
    forall i | 0 <= i < |shorter| ensures sep !in shorter[i] {
      if i == 0 {
        assert forall c :: c in parts[0][1..] ==> c in parts[0];
      } else {
        assert shorter[i] == parts[i];
      }
    }
  }

  /** A leading character other than the separator joins the first piece. */
  lemma SplitCons(c: char, s: string, sep: char)
    requires c != sep
    ensures Split([c] + s, sep) == [[c] + Split(s, sep)[0]] + Split(s, sep)[1..]
  {
    assert ([c] + s)[1..] == s;
  }

  /** A text without the separator splits into itself. */
  lemma {:induction false} SplitNoSep(s: string, sep: char)
    requires sep !in s
    ensures Split(s, sep) == [s]
    decreases |s|
  {
    if s != [] {
      assert sep !in s[1..] by {
        assert forall c :: c in s[1..] ==> c in s;
      }
      SplitNoSep(s[1..], sep);
      assert [s[0]] + s[1..] == s;
    }
  }

  /**
   * The birth date as printed: a non-empty date of three dash-separated
   * parts Y-M-D is rewritten as D/M/Y; anything else is kept.
   */
  function BirthDateShown(date: string): (r: string)
    ensures date == "" ==> r == ""
    ensures |Split(date, '-')| != 3 ==> r == date
  {
    if date == "" then date
    else
      var parts := Split(date, '-');
      if |parts| == 3 then parts[2] + "/" + parts[1] + "/" + parts[0] else date
  }

  /** An ISO date YYYY-MM-DD is printed DD/MM/YYYY. */
  lemma BirthDateOfIso(y: string, m: string, d: string)
    requires '-' !in y && '-' !in m && '-' !in d
    ensures BirthDateShown(y + "-" + m + "-" + d) == d + "/" + m + "/" + y
  {
    var date := y + "-" + m + "-" + d;
    assert Join([y, m, d], '-') == date by {
      assert Join([y, m, d][1..], '-') == m + "-" + d by {
        assert [y, m, d][1..][1..] == [d];
      }
    }
    SplitJoin([y, m, d], '-');
  }

  // ---------------------------------------------------------------------------
  // Receipt file name (descargarComprobante)
  // ---------------------------------------------------------------------------

  /** The characters JavaScript's `\s` matches: ASCII whitespace, no-break and Unicode spaces, line separators, BOM. */
  predicate IsSpace(c: char)
  {
    || c == ' ' || c == '\t' || c == '\n' || c == '\U{B}' || c == '\U{C}' || c == '\r'
    || c == '\U{A0}' || c == '\U{1680}' || ('\U{2000}' <= c <= '\U{200A}')
    || c == '\U{2028}' || c == '\U{2029}' || c == '\U{202F}' || c == '\U{205F}'
    || c == '\U{3000}' || c == '\U{FEFF}'
  }

  predicate NoSpace(s: string)
  {
    forall i :: 0 <= i < |s| ==> !IsSpace(s[i])
  }

  /** Whether every character of `w` is whitespace. */
  predicate AllSpace(w: string)
  {
    w == [] || (IsSpace(w[0]) && AllSpace(w[1..]))
  }

  /** `s` without its leading whitespace: what is dropped is all whitespace. */
  function SkipSpaces(s: string): (r: string)
    ensures |r| <= |s|
    ensures r == [] || !IsSpace(r[0])
    ensures r == s[|s| - |r|..]
    ensures AllSpace(s[..|s| - |r|])
  {
    if s != [] && IsSpace(s[0]) then
      var r := SkipSpaces(s[1..]);
      assert s[..|s| - |r|][1..] == s[1..][..|s| - 1 - |r|];
      r
    else s
  }

  /** Every run of whitespace replaced by one underscore (`replace(/\s+/g, '_')`). */
  function Underscored(s: string): (r: string)
    ensures NoSpace(r)
    ensures |r| <= |s|
    decreases |s|
  {
    if s == [] then []
    else if IsSpace(s[0]) then
      var rest := Underscored(SkipSpaces(s[1..]));
      NoSpaceAppend("_", rest);
      "_" + rest
    else
      var rest := Underscored(s[1..]);
      NoSpaceAppend([s[0]], rest);
      [s[0]] + rest
  }

  /** Text without whitespace is left as it is. */
  lemma {:induction false} UnderscoredNoSpace(s: string)
    requires NoSpace(s)
    ensures Underscored(s) == s
    decreases |s|
  {
    if s != [] {
      assert NoSpace(s[1..]) by {
        forall i | 0 <= i < |s[1..]| ensures !IsSpace(s[1..][i]) {
          assert s[1..][i] == s[i + 1];
        }
      }
      UnderscoredNoSpace(s[1..]);
      assert [s[0]] + s[1..] == s;
    }
  }

  /** Underscoring twice is underscoring once. */
  lemma UnderscoredIdempotent(s: string)
    ensures Underscored(Underscored(s)) == Underscored(s)
  {
    UnderscoredNoSpace(Underscored(s));
  }

  /** The student name used in the file name when the record has none. */
  const NoNameFile: string := "Sin_nombre"

  /** The receipt's file name, for a record and the decimal text of the clock reading `stamp`. */
  function ReceiptFileName(data: Record, stamp: string): (r: string)
    ensures NoSpace(stamp) ==> NoSpace(r)
    ensures !Truthy(data, "nombreAlumno") ==> r == "Comprobante_" + NoNameFile + "_" + stamp + ".html"
  {
    var name := if Truthy(data, "nombreAlumno") then Shown(data["nombreAlumno"]) else NoNameFile;
    var r := "Comprobante_" + Underscored(name) + "_" + stamp + ".html";
    FixedPartsNoSpace();
    UnderscoredNoSpace(NoNameFile);
    assert NoSpace(stamp) ==> NoSpace(r) by {
      if NoSpace(stamp) {
        var u := Underscored(name);
        NoSpaceAppend("Comprobante_", u);
        NoSpaceAppend("Comprobante_" + u, "_");
        NoSpaceAppend("Comprobante_" + u + "_", stamp);
        NoSpaceAppend("Comprobante_" + u + "_" + stamp, ".html");
      }
    }
    r
  }

  /** Joining two texts without whitespace gives a text without whitespace. */
  lemma NoSpaceAppend(a: string, b: string)
    requires NoSpace(a) && NoSpace(b)
    ensures NoSpace(a + b)
  {
    forall i | 0 <= i < |a + b| ensures !IsSpace((a + b)[i]) {
      if i >= |a| {
        assert (a + b)[i] == b[i - |a|];
      }
    }
  }

  /** The fixed parts of the file name have no whitespace. */
  lemma FixedPartsNoSpace()
    ensures NoSpace("Comprobante_") && NoSpace("_") && NoSpace(".html") && NoSpace(NoNameFile)
  {
  }

  /** A two-word student name keeps its words, joined by an underscore, in the file name. */
  lemma ReceiptNameOfTwoWords(data: Record, first: string, last: string, stamp: string)
    requires NoSpace(first) && NoSpace(last) && last != []
    requires "nombreAlumno" in data && data["nombreAlumno"] == Text(first + " " + last)
    ensures ReceiptFileName(data, stamp) == "Comprobante_" + first + "_" + last + "_" + stamp + ".html"
  {
    var name := first + " " + last;
    assert |name| > 0;
    assert Truthy(data, "nombreAlumno") && Shown(data["nombreAlumno"]) == name;
    UnderscoredSplit(first, last);
    assert Underscored(name) == first + "_" + last;
  }

  /** Whether `w` is a non-empty run of whitespace. */
  predicate SpaceRun(w: string)
  {
    w != [] && AllSpace(w)
  }

  /**
   * A leading word without whitespace followed by a run of whitespace: the
   * word is kept, the run becomes one underscore, and the rest, which does
   * not start with whitespace, is underscored in turn. With UnderscoredNoSpace
   * this covers names of any number of words, and leading or trailing runs.
   */
  lemma {:induction false} UnderscoredWordRun(a: string, w: string, s: string)
    requires NoSpace(a) && SpaceRun(w) && (s == [] || !IsSpace(s[0]))
    ensures Underscored(a + w + s) == a + "_" + Underscored(s)
    decreases |a|
  {
    if a == [] {
      assert a + w == w;
      UnderscoredLeadingRun(w, s);
    } else {
      NoSpaceTail(a);
      UnderscoredWordRun(a[1..], w, s);
      UnderscoredWordRunStep(a, w, s);
    }
  }

  /** The step of UnderscoredWordRun: the first character of the word is kept. */
  lemma UnderscoredWordRunStep(a: string, w: string, s: string)
    requires a != [] && NoSpace(a)
    requires Underscored(a[1..] + w + s) == a[1..] + "_" + Underscored(s)
    ensures Underscored(a + w + s) == a + "_" + Underscored(s)
  {
    assert a[1..] + w + s == a[1..] + (w + s);
    assert a[1..] + "_" + Underscored(s) == a[1..] + ("_" + Underscored(s));
    UnderscoredKeepsFirst(a, w + s, "_" + Underscored(s));
    assert a + w + s == a + (w + s);
    assert a + "_" + Underscored(s) == a + ("_" + Underscored(s));
  }

  /** A run of whitespace in front becomes one underscore. */
  lemma UnderscoredLeadingRun(w: string, s: string)
    requires SpaceRun(w) && (s == [] || !IsSpace(s[0]))
    ensures Underscored(w + s) == "_" + Underscored(s)
  {
    assert (w + s)[0] == w[0];
    assert (w + s)[1..] == w[1..] + s;
    SkipSpacesOverRun(w[1..], s);
  }

  /** A first character other than whitespace is kept in front of the rest's result. */
  lemma UnderscoredKeepsFirst(a: string, t: string, u: string)
    requires a != [] && !IsSpace(a[0])
    requires Underscored(a[1..] + t) == a[1..] + u
    ensures Underscored(a + t) == a + u
  {
    assert a + t == [a[0]] + (a[1..] + t);
    UnderscoredCons(a[0], a[1..] + t);
    assert [a[0]] + (a[1..] + u) == a + u;
  }

  /** Skipping leading whitespace over a whitespace run stops where the run ends. */
  lemma {:induction false} SkipSpacesOverRun(w: string, s: string)
    requires AllSpace(w) && (s == [] || !IsSpace(s[0]))
    ensures SkipSpaces(w + s) == s
    decreases |w|
  {
    if w == [] {
      assert w + s == s;
    } else {
      assert (w + s)[0] == w[0];
      assert (w + s)[1..] == w[1..] + s;
      SkipSpacesOverRun(w[1..], s);
    }
  }

  /** Two whitespace-free words separated by a whitespace run of any length are joined by one underscore. */
  lemma UnderscoredRun(a: string, w: string, b: string)
    requires NoSpace(a) && SpaceRun(w) && NoSpace(b) && b != []
    ensures Underscored(a + w + b) == a + "_" + b
  {
    UnderscoredWordRun(a, w, b);
    UnderscoredNoSpace(b);
  }

  /** Three words separated by whitespace runs: "a b c" is "a_b_c". */
  lemma UnderscoredThreeWords(a: string, w1: string, b: string, w2: string, c: string)
    requires NoSpace(a) && NoSpace(b) && NoSpace(c) && b != [] && c != []
    requires SpaceRun(w1) && SpaceRun(w2)
    ensures Underscored(a + w1 + b + w2 + c) == a + "_" + b + "_" + c
  {
    UnderscoredRun(b, w2, c);
    assert (b + w2 + c)[0] == b[0];
    UnderscoredWordRun(a, w1, b + w2 + c);
    Common.Regroup(a, w1, b, w2, c);
    Common.Regroup(a, "_", b, "_", c);
  }

  /** One space between two words becomes an underscore. */
  lemma UnderscoredSplit(a: string, b: string)
    requires NoSpace(a) && NoSpace(b) && b != []
    ensures Underscored(a + " " + b) == a + "_" + b
  {
    assert SpaceRun(" ");
    UnderscoredRun(a, " ", b);
  }

  /** Dropping the first character keeps a text free of whitespace. */
  lemma NoSpaceTail(a: string)
    requires a != [] && NoSpace(a)
    ensures NoSpace(a[1..])
  {
    forall i | 0 <= i < |a[1..]| ensures !IsSpace(a[1..][i]) {
      assert a[1..][i] == a[i + 1];
    }
  }

  /** A leading character other than whitespace is kept. */
  lemma UnderscoredCons(c: char, s: string)
    requires !IsSpace(c)
    ensures Underscored([c] + s) == [c] + Underscored(s)
  {
    assert ([c] + s)[1..] == s;
  }
}
