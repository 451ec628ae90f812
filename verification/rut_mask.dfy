/**
 * The identifier input mask (configurarValidacionRut): on every keystroke the
 * field is reformatted and classified, and on leaving the field a warning is
 * shown for a long enough identifier that does not check. The cursor
 * position and the DOM classes are abstracted into a status and a message.
 */
module RutMask {
  import opened Rut

  /** Cleaned length from which the field is reformatted. */
  const FormatFrom: nat := 2

  /** Cleaned length from which the field is classified as valid or invalid. */
  const CheckFrom: nat := 7

  /** The CSS state of the input: neither class, the valid class or the invalid class. */
  datatype Status = Unchecked | Valid | Invalid

  /** The message under the input. */
  datatype Message = NoMessage | ValidMessage | InvalidMessage | Warning

  /** An identifier input: its text, its status and its message. */
  datatype Field = Field(text: string, status: Status, message: Message)

  /** The message a keystroke leaves for a status. */
  function MessageFor(s: Status): Message
  {
    match s
    case Unchecked => NoMessage
    case Valid => ValidMessage
    case Invalid => InvalidMessage
  }

  /** Two texts with the same cleaned form are both valid or both invalid. */
  lemma SameCleanSameValidity(a: string, b: string)
    requires Clean(a) == Clean(b)
    ensures IsValid(a) == IsValid(b)
  {
    IsValidOfClean(a);
    IsValidOfClean(b);
  }

  /**
   * A keystroke leaves the text `text` in the input: reformat it when it has
   * at least two identifier characters, then classify the result when it has
   * at least seven.
   */
  function OnInput(text: string): (m: Field)
    ensures Clean(m.text) == Clean(text)
    ensures |Clean(text)| < FormatFrom ==> m.text == text
    ensures |Clean(text)| >= FormatFrom ==> m.text[|m.text| - 2] == '-'
    ensures |Clean(text)| >= FormatFrom ==> m.text == Format(text)
    ensures m.status == Unchecked <==> |Clean(text)| < CheckFrom
    ensures m.status == Valid <==> |Clean(text)| >= CheckFrom && IsValid(text)
    ensures m.status == Invalid <==> |Clean(text)| >= CheckFrom && !IsValid(text)
    ensures m.message == MessageFor(m.status)
  {
    var shown := if |Clean(text)| >= FormatFrom then Format(text) else text;
    SameCleanSameValidity(shown, text);
    var status :=
      if |Clean(shown)| >= CheckFrom then (if IsValid(shown) then Valid else Invalid)
      else Unchecked;
    Field(shown, status, MessageFor(status))
  }

  /** Leaving the input: a non-empty, long enough text that does not check gets the warning. */
  function OnBlur(m: Field): (r: Field)
    ensures r.text == m.text && r.status == m.status
    ensures r.message == Warning <==>
      m.message == Warning || (|Clean(m.text)| >= CheckFrom && !IsValid(m.text))
    ensures r.message != Warning ==> r == m
  {
    if m.text != "" && |Clean(m.text)| >= CheckFrom && !IsValid(m.text) then m.(message := Warning)
    else m
  }

  /** Typing the text the mask already shows changes nothing. */
  lemma OnInputIdempotent(text: string)
    ensures OnInput(OnInput(text).text) == OnInput(text)
  {
    var m := OnInput(text);
    if |Clean(text)| >= FormatFrom {
      FormatIdempotent(text);
    }
    SameCleanSameValidity(m.text, text);
  }

  /** Leaving the input twice is the same as leaving it once. */
  lemma OnBlurIdempotent(m: Field)
    ensures OnBlur(OnBlur(m)) == OnBlur(m)
  {
  }

  /** After a keystroke, leaving the input warns exactly when the keystroke marked it invalid. */
  lemma BlurWarnsIffInvalid(text: string)
    ensures OnBlur(OnInput(text)).message == Warning <==> OnInput(text).status == Invalid
  {
    var m := OnInput(text);
    SameCleanSameValidity(m.text, text);
  }

  /**
   * A short identifier can be valid and still be left unclassified: "1-9"
   * checks (1 times 2 plus 9 is eleven) but has only two identifier characters.
   */
  lemma ShortValidLeftUnchecked(text: string)
    requires text == "1-9"
    ensures IsValid(text)
    ensures OnInput(text).status == Unchecked
  {
    assert text == "1-" + "9";
    assert Clean("1-") == "1";
    assert Clean("9") == "9";
    CleanAppend("1-", "9");
    assert Clean(text) == "19";
    assert Base("19") == "1";
    assert WeightedSum("1") == 2;
    RelationMakesValid(text);
  }
}
