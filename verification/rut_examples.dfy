/**
 * The worked example of the RUT routines: base 12345678 has check digit 5,
 * so the identifier is valid typed with or without punctuation and invalid
 * with any other final character, such as 4.
 */
module RutExamples {
  import opened Rut

  /** The weighted sum of the base: 8*2 + 7*3 + 6*4 + 5*5 + 4*6 + 3*7 + 2*2 + 1*3. */
  lemma ExampleSum()
    ensures AllDigits("12345678") && WeightedSum("12345678") == 138
  {
  }

  /** "123456785" is valid and its computed check digit is "5". */
  lemma KnownVectorPlain(rut: string)
    requires rut == "123456785"
    ensures IsValid(rut) && CheckDigit(rut) == "5"
  {
    assert IsClean(rut);
    CleanOfClean(rut);
    assert Base(rut) == "12345678";
    ExampleSum();
    IsValidIff(rut);
  }

  /** "12345678-4" carries the wrong check digit and is not valid. */
  lemma KnownVectorWrongDigit(rut: string)
    requires rut == "12345678-4"
    ensures !IsValid(rut)
  {
    assert rut == "12345678" + "-" + "4";
    assert Clean("-") == [];
    CleanOfClean("12345678");
    CleanOfClean("4");
    CleanAppend("12345678" + "-", "4");
    CleanAppend("12345678", "-");
    assert Clean(rut) == "12345678" + "4";
    assert Base(Clean(rut)) == "12345678";
    ExampleSum();
    IsValidIff(rut);
  }

  /** Cleaning "12.345.678-5", group by group, removes the dots and the hyphen. */
  lemma CleanExample()
    ensures Clean("12." + "345." + "678-" + "5") == "12" + "345" + "678" + "5"
  {
    assert Clean("12.") == "12";
    assert Clean("345.") == "345";
    assert Clean("678-") == "678";
    assert Clean("5") == "5";
    CleanAppend("12." + "345." + "678-", "5");
    CleanAppend("12." + "345.", "678-");
    CleanAppend("12.", "345.");
  }

  /** "12.345.678-5" is valid: punctuation does not change the verdict. */
  lemma KnownVectorFormatted(rut: string)
    requires rut == "12." + "345." + "678-" + "5"
    ensures IsValid(rut)
  {
    CleanExample();
    assert "12" + "345" + "678" + "5" == "123456785";
    KnownVectorPlain("123456785");
    IsValidOfClean(rut);
  }
}
