/**
 * The guardian auto-fill (configurarApoderadoAutomatico): two checkboxes say
 * that the mother or the father is the guardian. Checking one unchecks the
 * other and copies that parent's data into the guardian fields; unchecking
 * clears them; while a box is checked, edits of that parent's fields are
 * copied again.
 */
module Guardian {
  import opened Form
  import Rut
  import RutMask

  /** The two parents the guardian can be taken from. */
  datatype Parent = Mother | Father

  /** The guardian fields a parent's data is copied into, in copy order. */
  const CopiedGuardianFields: seq<string> :=
    ["nombreApoderado", "edadApoderado", "runApoderado", "escolaridadApoderado", "trabajoApoderado"]

  /** The guardian's relationship field. */
  const Relationship: string := "parentesco"

  /** A parent's name, age, RUN, schooling and job fields, in the order of the guardian fields. */
  function SourceFields(p: Parent): seq<string>
  {
    match p
    case Mother => ["nombreMadre", "edadMadre", "runMadre", "escolaridadMadre", "trabajoMadre"]
    case Father => ["nombrePadre", "edadPadre", "runPadre", "escolaridadPadre", "trabajoPadre"]
  }

  /** The relationship written when a parent is the guardian. */
  function RelationName(p: Parent): string
  {
    match p
    case Mother => "Madre"
    case Father => "Padre"
  }

  /** The checkbox saying that a parent is the guardian. */
  function Box(p: Parent): string
  {
    match p
    case Mother => "madreApoderado"
    case Father => "padreApoderado"
  }

  function Other(p: Parent): Parent
  {
    match p
    case Mother => Father
    case Father => Mother
  }

  /** The six fields the auto-fill writes: the guardian fields and the relationship. */
  const WrittenFields: seq<string> := CopiedGuardianFields + [Relationship]

  /** Whether `k` is one of the six fields the auto-fill writes. */
  predicate Written(k: string)
  {
    k in WrittenFields
  }

  /** Field `k` is present and equal in both records, or absent from both. */
  predicate Same(f: Record, g: Record, k: string)
  {
    (k in f <==> k in g) && (k in f ==> f[k] == g[k])
  }

  /** No name occurs twice. */
  predicate Distinct(ks: seq<string>)
  {
    forall i, j :: 0 <= i < j < |ks| ==> ks[i] != ks[j]
  }

  /** Assigns `vs[i]` to field `ks[i]`, one after the other. */
  function Assign(f: Record, ks: seq<string>, vs: seq<Value>): (g: Record)
    requires |ks| == |vs|
    ensures forall k :: k !in ks ==> Same(f, g, k)
    ensures forall k :: k in ks ==> k in g
    decreases |ks|
  {
    if ks == [] then f
    else
      var g := Assign(f[ks[0] := vs[0]], ks[1..], vs[1..]);
      assert forall k :: k in ks[1..] ==> k in ks;
      assert forall k :: k !in ks ==> k !in ks[1..] && k != ks[0];
      g
  }

  /** With distinct names, each field ends up holding the value assigned to it. */
  lemma {:induction false} AssignAt(f: Record, ks: seq<string>, vs: seq<Value>, i: nat)
    requires |ks| == |vs| && i < |ks| && Distinct(ks)
    ensures Assign(f, ks, vs)[ks[i]] == vs[i]
    decreases |ks|
  {
    var f1 := f[ks[0] := vs[0]];
    if i == 0 {
      assert ks[0] !in ks[1..] by {
        forall j | 0 <= j < |ks[1..]| ensures ks[1..][j] != ks[0] {
          assert ks[1..][j] == ks[j + 1];
        }
      }
    } else {
      assert Distinct(ks[1..]) by {
        forall a, b | 0 <= a < b < |ks[1..]| ensures ks[1..][a] != ks[1..][b] {
          assert ks[1..][a] == ks[a + 1] && ks[1..][b] == ks[b + 1];
        }
      }
      AssignAt(f1, ks[1..], vs[1..], i - 1);
    }
  }

  /** With distinct names, every field holds the value assigned to it. */
  lemma AssignAll(f: Record, ks: seq<string>, vs: seq<Value>)
    requires |ks| == |vs| && Distinct(ks)
    ensures forall i :: 0 <= i < |ks| ==> ks[i] in Assign(f, ks, vs) && Assign(f, ks, vs)[ks[i]] == vs[i]
  {
    forall i | 0 <= i < |ks|
      ensures Assign(f, ks, vs)[ks[i]] == vs[i]
    {
      AssignAt(f, ks, vs, i);
    }
  }

  /** The written names are distinct, and none is a parent field or a checkbox. */
  lemma NamesApart(p: Parent)
    ensures Distinct(WrittenFields) && |WrittenFields| == 6
    ensures forall i :: 0 <= i < 5 ==> !Written(SourceFields(p)[i])
    ensures !Written(Box(Mother)) && !Written(Box(Father)) && Box(Mother) != Box(Father)
    ensures forall i :: 0 <= i < 5 ==> SourceFields(p)[i] != Box(Mother) && SourceFields(p)[i] != Box(Father)
  {
    assert "escolaridadMadre"[0] != "trabajoApoderado"[0];
    assert "escolaridadPadre"[0] != "trabajoApoderado"[0];
    assert "trabajoMadre"[0] != "runApoderado"[0];
    assert "trabajoPadre"[0] != "runApoderado"[0];
  }

  /** The mother's fields and the father's fields are different fields. */
  lemma ParentFieldsApart()
    ensures forall i, j :: 0 <= i < 5 && 0 <= j < 5 ==> SourceFields(Mother)[i] != SourceFields(Father)[j]
  {
    assert "nombreMadre"[6] != "nombrePadre"[6];
    assert "edadMadre"[4] != "edadPadre"[4];
    assert "runMadre"[3] != "runPadre"[3];
    assert "escolaridadMadre"[11] != "escolaridadPadre"[11];
    assert "trabajoMadre"[7] != "trabajoPadre"[7];
  }

  /** What the copy writes into the six fields: the parent's five values and the relationship. */
  function CopiedValues(f: Record, p: Parent): seq<Value>
  {
    seq(5, i requires 0 <= i < 5 => Text(TextOf(f, SourceFields(p)[i]))) + [Text(RelationName(p))]
  }

  /** Copying a parent's data into the guardian fields (copiarDatosMadreAApoderado, copiarDatosPadreAApoderado). */
  function CopyParent(f: Record, p: Parent): (g: Record)
    ensures forall i :: 0 <= i < 5 ==>
      CopiedGuardianFields[i] in g && g[CopiedGuardianFields[i]] == Text(TextOf(f, SourceFields(p)[i]))
    ensures Relationship in g && g[Relationship] == Text(RelationName(p))
    ensures forall k :: !Written(k) ==> Same(f, g, k)
  {
    NamesApart(p);
    AssignAll(f, WrittenFields, CopiedValues(f, p));
    var g := Assign(f, WrittenFields, CopiedValues(f, p));
    assert WrittenFields[5] == Relationship;
    assert forall i :: 0 <= i < 5 ==> WrittenFields[i] == CopiedGuardianFields[i];
    g
  }

  /** Clearing the guardian fields (limpiarDatosApoderado). */
  function ClearGuardian(f: Record): (g: Record)
    ensures forall i :: 0 <= i < 6 ==> WrittenFields[i] in g && g[WrittenFields[i]] == Text("")
    ensures forall k :: !Written(k) ==> Same(f, g, k)
  {
    NamesApart(Mother);
    var blank := [Text(""), Text(""), Text(""), Text(""), Text(""), Text("")];
    AssignAll(f, WrittenFields, blank);
    Assign(f, WrittenFields, blank)
  }

  /**
   * The user sets parent `p`'s box to `checked` (its change handler):
   * checked, the other box is unchecked and `p`'s data is copied; unchecked,
   * the guardian fields are cleared.
   */
  function SetBox(f: Record, p: Parent, checked: bool): (g: Record)
    ensures Box(p) in g && g[Box(p)] == Flag(checked)
    ensures checked ==> Box(Other(p)) in g && g[Box(Other(p))] == Flag(false)
    ensures checked ==> Mirrors(g, p)
    ensures !checked ==> Same(f, g, Box(Other(p)))
    ensures checked ==> forall i :: 0 <= i < 5 ==>
      CopiedGuardianFields[i] in g && g[CopiedGuardianFields[i]] == Text(TextOf(f, SourceFields(p)[i]))
    ensures checked ==> Relationship in g && g[Relationship] == Text(RelationName(p))
    ensures !checked ==> forall i :: 0 <= i < 6 ==> WrittenFields[i] in g && g[WrittenFields[i]] == Text("")
    ensures forall k :: !Written(k) && k != Box(Mother) && k != Box(Father) ==> Same(f, g, k)
  {
    if checked then TakeGuardian(f, p) else ReleaseGuardian(f, p)
  }

  /** Checking parent `p`'s box: the other box is unchecked and `p`'s data is copied. */
  function TakeGuardian(f: Record, p: Parent): (g: Record)
    ensures Box(p) in g && g[Box(p)] == Flag(true)
    ensures Box(Other(p)) in g && g[Box(Other(p))] == Flag(false)
    ensures Mirrors(g, p)
    ensures forall i :: 0 <= i < 5 ==>
      CopiedGuardianFields[i] in g && g[CopiedGuardianFields[i]] == Text(TextOf(f, SourceFields(p)[i]))
    ensures Relationship in g && g[Relationship] == Text(RelationName(p))
    ensures forall k :: !Written(k) && k != Box(Mother) && k != Box(Father) ==> Same(f, g, k)
  {
    NamesApart(p);
    var f2 := f[Box(p) := Flag(true)][Box(Other(p)) := Flag(false)];
    assert forall i :: 0 <= i < 5 ==> TextOf(f2, SourceFields(p)[i]) == TextOf(f, SourceFields(p)[i]);
    var g := CopyParent(f2, p);
    forall i | 0 <= i < 5
      ensures TextOf(g, SourceFields(p)[i]) == TextOf(f2, SourceFields(p)[i])
    {
      assert Same(f2, g, SourceFields(p)[i]);
    }
    g
  }

  /** Unchecking parent `p`'s box: the guardian fields are cleared and the other box is left alone. */
  function ReleaseGuardian(f: Record, p: Parent): (g: Record)
    ensures Box(p) in g && g[Box(p)] == Flag(false)
    ensures Same(f, g, Box(Other(p)))
    ensures forall i :: 0 <= i < 6 ==> WrittenFields[i] in g && g[WrittenFields[i]] == Text("")
    ensures forall k :: !Written(k) && k != Box(Mother) && k != Box(Father) ==> Same(f, g, k)
  {
    NamesApart(p);
    ClearGuardian(f[Box(p) := Flag(false)])
  }

  /**
   * Parent `p`'s field number `n` (name, age, RUN, schooling, job) is edited
   * and holds `v` once its earlier input listeners have run; while `p`'s box
   * is checked, the data is copied again. For the RUN field the identifier
   * mask's listener runs first, so `v` is the mask's text, not the keystrokes
   * (MaskedRunCopied).
   */
  function EditParent(f: Record, p: Parent, n: nat, v: string): (g: Record)
    requires n < 5
    ensures var k := SourceFields(p)[n]; k in g && g[k] == Text(v)
    ensures Checked(f, Box(p)) ==> Mirrors(g, p)
    ensures !Checked(f, Box(p)) ==> forall j :: j != SourceFields(p)[n] ==> Same(f, g, j)
    ensures forall j :: !Written(j) && j != SourceFields(p)[n] ==> Same(f, g, j)
  {
    NamesApart(p);
    var f1 := f[SourceFields(p)[n] := Text(v)];
    if Checked(f1, Box(p)) then
      var g := CopyParent(f1, p);
      forall i | 0 <= i < 5
        ensures TextOf(g, SourceFields(p)[i]) == TextOf(f1, SourceFields(p)[i])
      {
        assert Same(f1, g, SourceFields(p)[i]);
      }
      g
    else f1
  }

  /**
   * Typing `typed` into parent `p`'s RUN field. The identifier mask is set up
   * on that field before the auto-fill, so its listener runs first and
   * reformats the text from two identifier characters on; the auto-fill then
   * copies the reformatted text. The parent's RUN shows the mask's text, and
   * so does the guardian's RUN while `p`'s box is checked.
   */
  lemma MaskedRunCopied(f: Record, p: Parent, typed: string)
    ensures var g := EditParent(f, p, 2, RutMask.OnInput(typed).text);
      var shown := if |Rut.Clean(typed)| >= RutMask.FormatFrom then Rut.Format(typed) else typed;
      && TextOf(g, SourceFields(p)[2]) == shown
      && (Checked(f, Box(p)) ==> TextOf(g, CopiedGuardianFields[2]) == shown)
  {
    var g := EditParent(f, p, 2, RutMask.OnInput(typed).text);
    assert SourceFields(p)[2] in g;
  }

  /** The guardian fields hold parent `p`'s data and relationship. */
  predicate Mirrors(f: Record, p: Parent)
  {
    && (forall i :: 0 <= i < 5 ==> TextOf(f, CopiedGuardianFields[i]) == TextOf(f, SourceFields(p)[i]))
    && TextOf(f, Relationship) == RelationName(p)
  }

  /** At most one box is checked, and a checked box's parent is mirrored in the guardian fields. */
  predicate Coherent(f: Record)
  {
    && !(Checked(f, Box(Mother)) && Checked(f, Box(Father)))
    && (Checked(f, Box(Mother)) ==> Mirrors(f, Mother))
    && (Checked(f, Box(Father)) ==> Mirrors(f, Father))
  }

  /** Flipping a box keeps the form coherent. */
  lemma SetBoxKeepsCoherent(f: Record, p: Parent, checked: bool)
    requires Coherent(f) && checked != Checked(f, Box(p))
    ensures Coherent(SetBox(f, p, checked))
  {
    NamesApart(p);
    var g := SetBox(f, p, checked);
    if !checked {
      assert Same(f, g, Box(Other(p)));
    }
  }

  /** Editing a parent field keeps the form coherent. */
  lemma EditParentKeepsCoherent(f: Record, p: Parent, n: nat, v: string)
    requires Coherent(f) && n < 5
    ensures Coherent(EditParent(f, p, n, v))
  {
    NamesApart(p);
    NamesApart(Other(p));
    ParentFieldsApart();
    var g := EditParent(f, p, n, v);
    assert Same(f, g, Box(Mother)) && Same(f, g, Box(Father));
    if !Checked(f, Box(p)) && Checked(f, Box(Other(p))) {
      forall i | 0 <= i < 5
        ensures TextOf(g, CopiedGuardianFields[i]) == TextOf(g, SourceFields(Other(p))[i])
      {
        assert Same(f, g, CopiedGuardianFields[i]);
        assert Same(f, g, SourceFields(Other(p))[i]);
      }
      assert Same(f, g, Relationship);
    }
  }

  /**
   * A layout the auto-fill fits: the six written fields and both parents'
   * fields are text fields, and the two boxes are checkboxes.
   */
  predicate GuardianLayout(l: Layout)
  {
    && (forall i :: 0 <= i < 6 ==> WrittenFields[i] in l.texts)
    && (forall i :: 0 <= i < 5 ==> SourceFields(Mother)[i] in l.texts && SourceFields(Father)[i] in l.texts)
    && Box(Mother) in l.boxes && Box(Father) in l.boxes
  }

  /** The form's own layout fits the auto-fill. */
  lemma FormLayoutFitsGuardian()
    ensures GuardianLayout(FormLayout)
  {
    assert forall i :: 0 <= i < 6 ==> WrittenFields[i] in GuardianFields;
    assert forall i :: 0 <= i < 5 ==> SourceFields(Mother)[i] in MotherFields;
    assert forall i :: 0 <= i < 5 ==> SourceFields(Father)[i] in FatherFields;
  }

  /** Changing a box keeps a well-formed form well-formed: every written field still holds text. */
  lemma SetBoxKeepsWellFormed(l: Layout, f: Record, p: Parent, checked: bool)
    requires GuardianLayout(l) && WellFormed(l, f)
    ensures WellFormed(l, SetBox(f, p, checked))
  {
    var g := SetBox(f, p, checked);
    forall k ensures (k in g <==> k in f) && (k in g && k in l.texts ==> g[k].Text?) && (k in g && k in l.boxes ==> g[k].Flag?)
    {
      if Written(k) {
        var i :| 0 <= i < 6 && WrittenFields[i] == k;
        if checked && i == 5 {
          assert k == Relationship;
        }
      } else if k == Box(Mother) || k == Box(Father) {
      } else {
        assert Same(f, g, k);
      }
    }
  }

  /** Editing a parent field keeps a well-formed form well-formed. */
  lemma EditParentKeepsWellFormed(l: Layout, f: Record, p: Parent, n: nat, v: string)
    requires GuardianLayout(l) && WellFormed(l, f) && n < 5
    ensures WellFormed(l, EditParent(f, p, n, v))
  {
    var g := EditParent(f, p, n, v);
    var f1 := f[SourceFields(p)[n] := Text(v)];
    assert WellFormed(l, f1);
    if Checked(f1, Box(p)) {
      assert g == CopyParent(f1, p);
      CopyParentKeepsWellFormed(l, f1, p);
    }
  }

  /** Copying a parent's data keeps a well-formed form well-formed. */
  lemma CopyParentKeepsWellFormed(l: Layout, f: Record, p: Parent)
    requires GuardianLayout(l) && WellFormed(l, f)
    ensures WellFormed(l, CopyParent(f, p))
  {
    var g := CopyParent(f, p);
    forall k ensures (k in g <==> k in f) && (k in g && k in l.texts ==> g[k].Text?) && (k in g && k in l.boxes ==> g[k].Flag?)
    {
      if Written(k) {
        var i :| 0 <= i < 6 && WrittenFields[i] == k;
        if i == 5 {
          assert k == Relationship;
        }
      } else {
        assert Same(f, g, k);
      }
    }
  }
}
