/**
 * The Chilean RUT/RUN routines of the enrolment form: cleaning a typed
 * identifier, formatting it for display, computing its weighted modulo-11
 * check digit and deciding whether the typed check digit is the right one.
 */
module Rut {
  import Common

  predicate IsDigit(c: char) { '0' <= c <= '9' }

  /** Characters that cleaning keeps: decimal digits and the letter k in either case. */
  predicate IsRutChar(c: char) { IsDigit(c) || c == 'k' || c == 'K' }

  /** Characters that can appear in a cleaned identifier. */
  predicate IsCleanChar(c: char) { IsDigit(c) || c == 'K' }

  predicate IsClean(s: string) { forall i :: 0 <= i < |s| ==> IsCleanChar(s[i]) }

  predicate AllDigits(s: string) { forall i :: 0 <= i < |s| ==> IsDigit(s[i]) }

  /** Upper-casing, restricted to the characters cleaning keeps. */
  function Upper(c: char): char { if c == 'k' then 'K' else c }

  // ---------------------------------------------------------------------------
  // Cleaning (limpiarRut)
  // ---------------------------------------------------------------------------

  /** Drops every character that is not a digit or k/K and upper-cases the rest. */
  function Clean(s: string): (r: string)
    ensures IsClean(r)
    ensures |r| <= |s|
    decreases |s|
  {
    if s == [] then []
    else (if IsRutChar(s[0]) then [Upper(s[0])] else []) + Clean(s[1..])
  }

  /** Cleaning works character by character, so it distributes over concatenation. */
  lemma {:induction false} CleanAppend(a: string, b: string)
    ensures Clean(a + b) == Clean(a) + Clean(b)
    decreases |a|
  {
    if a == [] {
      assert a + b == b;
    } else {
      var head := if IsRutChar(a[0]) then [Upper(a[0])] else [];
      assert (a + b)[0] == a[0];
      assert (a + b)[1..] == a[1..] + b;
      calc {
        Clean(a + b);
        head + Clean(a[1..] + b);
        { CleanAppend(a[1..], b); }
        head + (Clean(a[1..]) + Clean(b));
        (head + Clean(a[1..])) + Clean(b);
        Clean(a) + Clean(b);
      }
    }
  }

  /** Every character the cleaning keeps survives it, in order. */
  lemma {:induction false} CleanKeepsRutChars(s: string)
    ensures (forall i :: 0 <= i < |s| ==> IsRutChar(s[i])) ==> |Clean(s)| == |s|
    ensures (forall i :: 0 <= i < |s| ==> !IsRutChar(s[i])) ==> Clean(s) == []
    decreases |s|
  {
    if s != [] {
      CleanKeepsRutChars(s[1..]);
      assert forall i :: 0 <= i < |s[1..]| ==> s[1..][i] == s[i + 1];
    }
  }

  /** Cleaning invents nothing: each kept character is an input character, upper-cased. */
  lemma {:induction false} CleanFromInput(s: string)
    ensures forall i :: 0 <= i < |Clean(s)| ==> Clean(s)[i] in s || (Clean(s)[i] == 'K' && 'k' in s)
    decreases |s|
  {
    if s != [] {
      CleanFromInput(s[1..]);
      var head := if IsRutChar(s[0]) then [Upper(s[0])] else [];
      assert Clean(s) == head + Clean(s[1..]);
      forall i | 0 <= i < |Clean(s)|
        ensures Clean(s)[i] in s || (Clean(s)[i] == 'K' && 'k' in s)
      {
        if i >= |head| {
          assert Clean(s)[i] == Clean(s[1..])[i - |head|];
        }
      }
    }
  }

  /** A string that is already clean is left as it is. */
  lemma {:induction false} CleanOfClean(s: string)
    requires IsClean(s)
    ensures Clean(s) == s
    decreases |s|
  {
    if s != [] {
      assert IsCleanChar(s[0]);
      assert IsClean(s[1..]) by {
        assert forall i :: 0 <= i < |s[1..]| ==> s[1..][i] == s[i + 1];
      }
      CleanOfClean(s[1..]);
      assert s == [s[0]] + s[1..];
    }
  }

  /** Cleaning twice is the same as cleaning once. */
  lemma {:induction false} CleanIdempotent(s: string)
    ensures Clean(Clean(s)) == Clean(s)
  {
    CleanOfClean(Clean(s));
  }

  /** The base number of a cleaned identifier: every character but the last. */
  function Base(c: string): (n: string)
    ensures |c| > 0 ==> |n| == |c| - 1 && c == n + [c[|c| - 1]]
    ensures |c| == 0 ==> n == []
  {
    if |c| == 0 then c else c[..|c| - 1]
  }

  // ---------------------------------------------------------------------------
  // Formatting (formatearRut)
  // ---------------------------------------------------------------------------

  /** The base digits in groups of three counted from the right, joined by '.'. */
  function Group(n: string): (r: string)
    ensures |r| >= |n|
    decreases |n|
  {
    if |n| <= 3 then n else Group(n[..|n| - 3]) + "." + n[|n| - 3..]
  }

  /**
   * Putting one more digit in front of an already grouped suffix: a separator
   * appears exactly when the suffix is a non-empty whole number of groups.
   */
  lemma {:induction false} GroupCons(d: char, s: string)
    ensures Group([d] + s) == if |s| > 0 && |s| % 3 == 0 then [d] + "." + Group(s) else [d] + Group(s)
    decreases |s|
  {
    if |s| < 3 {
      assert Group([d] + s) == [d] + s;
    } else if |s| == 3 {
      GroupConsThree(d, s);
    } else {
      var p := s[..|s| - 3];
      GroupCons(d, p);
      GroupConsLong(d, s, if |s| % 3 == 0 then "." else "");
    }
  }

  /** A fourth digit in front of one full group opens a new group. */
  lemma GroupConsThree(d: char, s: string)
    requires |s| == 3
    ensures Group([d] + s) == [d] + "." + Group(s)
  {
    var ds := [d] + s;
    GroupStep(ds);
    assert ds[..|ds| - 3] == [d] && ds[|ds| - 3..] == s;
  }

  /** The inductive step of GroupCons: the last group is unaffected by the new digit. */
  lemma GroupConsLong(d: char, s: string, sep: string)
    requires |s| > 3
    requires Group([d] + s[..|s| - 3]) == [d] + sep + Group(s[..|s| - 3])
    ensures Group([d] + s) == [d] + sep + Group(s)
  {
    var p := s[..|s| - 3];
    var t := s[|s| - 3..];
    GroupStep([d] + s);
    GroupStep(s);
    ConsSlices(d, s, 3);
    Common.Regroup([d], sep, Group(p), ".", t);
  }

  /** Slicing a string with one more character in front. */
  lemma ConsSlices(d: char, s: string, k: nat)
    requires k <= |s|
    ensures ([d] + s)[..|s| + 1 - k] == [d] + s[..|s| - k]
    ensures ([d] + s)[|s| + 1 - k..] == s[|s| - k..]
  {
  }

  /** One step of grouping: the last three digits form a group after a separator. */
  lemma GroupStep(n: string)
    requires |n| > 3
    ensures Group(n) == Group(n[..|n| - 3]) + "." + n[|n| - 3..]
  {
  }

  /** Grouping only inserts separators: cleaning the grouped text gives the digits back. */
  lemma {:induction false} CleanGroup(n: string)
    requires IsClean(n)
    ensures Clean(Group(n)) == n
    decreases |n|
  {
    if |n| <= 3 {
      CleanOfClean(n);
    } else {
      var p := n[..|n| - 3];
      var t := n[|n| - 3..];
      assert IsClean(p) && IsClean(t);
      var gp := Group(p);
      assert Group(n) == (gp + ".") + t;
      CleanGroup(p);
      CleanOfClean(t);
      assert Clean(".") == [] by {
        assert "."[1..] == [];
      }
      calc {
        Clean(Group(n));
        { CleanAppend(gp + ".", t); }
        Clean(gp + ".") + Clean(t);
        { CleanAppend(gp, "."); }
        Clean(gp) + Clean(".") + Clean(t);
        p + t;
      }
      assert n == p + t;
    }
  }

  /** A separator sits exactly at the positions whose distance from the end is a multiple of four. */
  predicate DotsEveryFour(g: string)
  {
    forall k :: 0 <= k < |g| ==> (g[k] == '.' <==> (|g| - k) % 4 == 0)
  }

  /**
   * The shape of a grouped number: one separator per three digits after the
   * first group, and a character is a separator exactly when its distance
   * from the end is a multiple of four.
   */
  lemma {:induction false} GroupShape(n: string)
    requires IsClean(n) && |n| > 0
    ensures |Group(n)| == |n| + (|n| - 1) / 3
    ensures DotsEveryFour(Group(n))
    decreases |n|
  {
    if |n| <= 3 {
      ShortGroupShape(n);
    } else {
      var p := n[..|n| - 3];
      var t := n[|n| - 3..];
      CleanSplit(n, |n| - 3);
      GroupStep(n);
      GroupShape(p);
      DotsAppendGroup(Group(p), t);
    }
  }

  /** A single group has no separator. */
  lemma ShortGroupShape(n: string)
    requires IsClean(n) && 0 < |n| <= 3
    ensures |Group(n)| == |n| + (|n| - 1) / 3
    ensures DotsEveryFour(Group(n))
  {
    assert Group(n) == n;
    forall k | 0 <= k < |n|
      ensures n[k] == '.' <==> (|n| - k) % 4 == 0
    {
      assert IsCleanChar(n[k]);
    }
  }

  /** Both halves of a clean string are clean. */
  lemma CleanSplit(n: string, m: nat)
    requires IsClean(n) && m <= |n|
    ensures IsClean(n[..m]) && IsClean(n[m..])
  {
    assert forall i :: 0 <= i < |n[m..]| ==> n[m..][i] == n[m + i];
  }

  /** Appending a separator and a group of three keeps separators every four characters. */
  lemma DotsAppendGroup(g: string, t: string)
    requires DotsEveryFour(g) && IsClean(t) && |t| == 3
    ensures DotsEveryFour(g + "." + t)
  {
    var h := g + "." + t;
    forall k | 0 <= k < |h|
      ensures h[k] == '.' <==> (|h| - k) % 4 == 0
    {
      if k < |g| {
        assert h[k] == g[k];
        assert (|h| - k) % 4 == (|g| - k) % 4;
      } else if k > |g| {
        assert h[k] == t[k - |g| - 1];
        assert IsCleanChar(t[k - |g| - 1]);
      }
    }
  }

  /**
   * The display form of an identifier: cleaned text if shorter than two
   * characters, otherwise the grouped base, a hyphen and the check character.
   */
  function Format(raw: string): (r: string)
    ensures Clean(r) == Clean(raw)
    ensures |Clean(raw)| < 2 ==> r == Clean(raw)
    ensures |Clean(raw)| >= 2 ==>
      |r| >= 3 && r[|r| - 2] == '-' && r[|r| - 1] == Clean(raw)[|Clean(raw)| - 1]
  {
    var c := Clean(raw);
    if |c| < 2 then
      CleanIdempotent(raw);
      c
    else
      var n := Base(c);
      var dv := [c[|c| - 1]];
      assert IsClean(n) by {
        assert forall i :: 0 <= i < |n| ==> n[i] == c[i];
      }
      CleanGroup(n);
      CleanAppend(Group(n) + "-", dv);
      CleanAppend(Group(n), "-");
      CleanOfClean(dv);
      Group(n) + "-" + dv
  }

  /** Reformatting a formatted identifier changes nothing. */
  lemma {:induction false} FormatIdempotent(raw: string)
    ensures Format(Format(raw)) == Format(raw)
  {
    assert Clean(Format(raw)) == Clean(raw);
  }

  /**
   * In a formatted identifier the part before the hyphen holds exactly the
   * base digits, with a '.' before every group of three counted from the right.
   */
  lemma {:induction false} FormatGroupsThousands(raw: string)
    requires |Clean(raw)| >= 2
    ensures var r := Format(raw); var g := r[..|r| - 2];
      && Clean(g) == Base(Clean(raw))
      && |g| == |Base(Clean(raw))| + (|Base(Clean(raw))| - 1) / 3
      && DotsEveryFour(g)
  {
    var c := Clean(raw);
    var n := Base(c);
    assert IsClean(n) by {
      assert forall i :: 0 <= i < |n| ==> n[i] == c[i];
    }
    var r := Format(raw);
    assert r == Group(n) + "-" + [c[|c| - 1]];
    assert r[..|r| - 2] == Group(n);
    CleanGroup(n);
    GroupShape(n);
  }

  /**
   * formatearRut's loop: walk the base from its last digit
   * to its first, putting a '.' in front whenever three digits have been
   * placed since the last separator.
   */
  method FormatRut(raw: string) returns (r: string)
    ensures r == Format(raw)
  {
    var c := Clean(raw);
    if |c| < 2 {
      return c;
    }
    var dv := [c[|c| - 1]];
    var numero := c[..|c| - 1];
    var formatted := "";
    var count := 0;
    var i := |numero| - 1;
    while i >= 0
      invariant -1 <= i < |numero|
      invariant formatted == Group(numero[i + 1..])
      invariant count == SinceSeparator(|numero| - i - 1)
      decreases i
    {
      FormatLoopStep(numero, i, formatted, count);
      if count == 3 {
        formatted := "." + formatted;
        count := 0;
      }
      formatted := [numero[i]] + formatted;
      count := count + 1;
      i := i - 1;
    }
    assert numero[0..] == numero;
    r := formatted + "-" + dv;
    FormatLong(raw);
  }

  /** The long case of Format, for the loop above. */
  lemma FormatLong(raw: string)
    requires |Clean(raw)| >= 2
    ensures var c := Clean(raw); Format(raw) == Group(c[..|c| - 1]) + "-" + [c[|c| - 1]]
  {
  }

  /** Placing one more digit: the counter restarts after a full group. */
  /** One pass of formatearRut's loop: the digit at `i` goes in front, after a '.' when a group is full. */
  lemma FormatLoopStep(n: string, i: nat, formatted: string, count: nat)
    requires i < |n|
    requires formatted == Group(n[i + 1..]) && count == SinceSeparator(|n| - i - 1)
    ensures var grouped := if count == 3 then "." + formatted else formatted;
      [n[i]] + grouped == Group(n[i..])
    ensures (if count == 3 then 0 else count) + 1 == SinceSeparator(|n| - i)
  {
    GroupPrepend(n, i);
    SinceSeparatorStep(|n| - i - 1);
    if count == 3 {
      assert [n[i]] + ("." + formatted) == [n[i]] + "." + formatted;
    }
  }

  lemma SinceSeparatorStep(placed: nat)
    ensures SinceSeparator(placed + 1) == (if SinceSeparator(placed) == 3 then 0 else SinceSeparator(placed)) + 1
  {
  }

  /** GroupCons at position i of a string: the digit there joins the grouping of what follows it. */
  lemma GroupPrepend(n: string, i: nat)
    requires i < |n|
    ensures var rest := |n| - i - 1;
      Group(n[i..]) == if rest > 0 && rest % 3 == 0 then [n[i]] + "." + Group(n[i + 1..]) else [n[i]] + Group(n[i + 1..])
  {
    assert n[i..] == [n[i]] + n[i + 1..];
    GroupCons(n[i], n[i + 1..]);
  }

  /**
   * How many digits formatearRut's loop has placed since its last separator,
   * after placing `placed` digits: 0 at the start, then cycling 1, 2, 3.
   */
  function SinceSeparator(placed: nat): (k: nat)
    ensures k == 3 <==> placed > 0 && placed % 3 == 0
    ensures k <= 3
  {
    if placed == 0 then 0 else (placed - 1) % 3 + 1
  }

  // ---------------------------------------------------------------------------
  // Check digit (calcularDV) and validity (validarRut)
  // ---------------------------------------------------------------------------

  function DigitValue(c: char): nat
    requires IsDigit(c)
  {
    c as int - '0' as int
  }

  /** The numeric value of a check character: 'K' stands for ten. */
  function CharValue(c: char): nat
    requires IsCleanChar(c)
  {
    if c == 'K' then 10 else DigitValue(c)
  }

  /** The weight of the digit at position j counted from the right: 2, 3, 4, 5, 6, 7, 2, ... */
  function Weight(j: nat): nat { 2 + j % 6 }

  /** The sum of the digits each times the weight of its position from the right. */
  function WeightedSum(n: string): nat
    requires AllDigits(n)
    decreases |n|
  {
    if n == [] then 0 else DigitValue(n[0]) * Weight(|n| - 1) + WeightedSum(n[1..])
  }

  /** What calcularDV returns when the base holds a 'K': the text of NaN. */
  const NotANumber: string := "NaN"

  /**
   * The check digit of an identifier: the single character whose value,
   * added to the weighted sum of the base digits, gives a multiple of eleven;
   * the text "NaN" when the base holds a 'K'.
   */
  function CheckDigit(rut: string): (r: string)
    ensures !AllDigits(Base(Clean(rut))) ==> r == NotANumber
    ensures AllDigits(Base(Clean(rut))) ==>
      |r| == 1 && IsCleanChar(r[0]) && (WeightedSum(Base(Clean(rut))) + CharValue(r[0])) % 11 == 0
  {
    var n := Base(Clean(rut));
    if !AllDigits(n) then NotANumber
    else
      var dv := 11 - WeightedSum(n) % 11;
      if dv == 11 then "0"
      else if dv == 10 then "K"
      else [('0' as int + dv) as char]
  }

  /**
   * calcularDV's loop: a running sum and a multiplier that
   * cycles 2..7, walking the base from its last digit; a 'K' turns the sum
   * into NaN for good.
   */
  method ComputeCheckDigit(rut: string) returns (r: string)
    ensures r == CheckDigit(rut)
  {
    var c := Clean(rut);
    var numero := if |c| == 0 then c else c[..|c| - 1];
    var suma := 0;
    var isNaN := false;
    var multiplier := 2;
    var i := |numero| - 1;
    while i >= 0
      invariant -1 <= i < |numero|
      invariant numero == Base(c) && IsClean(numero)
      invariant multiplier == Weight(|numero| - 1 - i)
      invariant isNaN <==> !AllDigits(numero[i + 1..])
      invariant !isNaN ==> suma == WeightedSum(numero[i + 1..])
      decreases i
    {
      WeightedSumPrepend(numero, i);
      WeightStep(|numero| - 1 - i);
      assert IsCleanChar(numero[i]);
      if numero[i] == 'K' {
        isNaN := true;
      } else {
        suma := suma + DigitValue(numero[i]) * multiplier;
      }
      multiplier := if multiplier == 7 then 2 else multiplier + 1;
      i := i - 1;
    }
    assert numero[0..] == numero;
    assert numero == Base(c);
    if isNaN {
      return NotANumber;
    }
    var dv := 11 - suma % 11;
    if dv == 11 {
      r := "0";
    } else if dv == 10 {
      r := "K";
    } else {
      r := [('0' as int + dv) as char];
    }
  }

  /** The multiplier cycle of calcularDV's loop: after 7 comes 2 again. */
  lemma WeightStep(j: nat)
    ensures Weight(j + 1) == if Weight(j) == 7 then 2 else Weight(j) + 1
  {
  }

  /** The digit at position i joins the weighted sum of what follows it with the weight of its position. */
  lemma WeightedSumPrepend(n: string, i: nat)
    requires i < |n|
    ensures AllDigits(n[i..]) <==> IsDigit(n[i]) && AllDigits(n[i + 1..])
    ensures AllDigits(n[i..]) ==>
      WeightedSum(n[i..]) == DigitValue(n[i]) * Weight(|n| - 1 - i) + WeightedSum(n[i + 1..])
  {
    assert n[i..] == [n[i]] + n[i + 1..];
    assert n[i..][1..] == n[i + 1..];
    if AllDigits(n[i..]) {
      assert IsDigit(n[i..][0]);
    }
    if IsDigit(n[i]) && AllDigits(n[i + 1..]) {
      forall j | 0 <= j < |n[i..]|
        ensures IsDigit(n[i..][j])
      {
        if j > 0 {
          assert n[i..][j] == n[i + 1..][j - 1];
        }
      }
    }
  }

  /** The typed identifier is valid when its last character is its check digit. */
  function IsValid(rut: string): (b: bool)
    ensures |Clean(rut)| < 2 ==> !b
    ensures b ==> AllDigits(Base(Clean(rut)))
  {
    var c := Clean(rut);
    if |c| < 2 then false else [c[|c| - 1]] == CheckDigit(rut)
  }

  /** Two check characters that both complete the same sum to a multiple of eleven are equal. */
  lemma CheckCharUnique(s: nat, x: char, y: char)
    requires IsCleanChar(x) && IsCleanChar(y)
    requires (s + CharValue(x)) % 11 == 0 && (s + CharValue(y)) % 11 == 0
    ensures x == y
  {
    var vx, vy := CharValue(x), CharValue(y);
    assert 0 <= vx <= 10 && 0 <= vy <= 10;
    assert vx == (11 - s % 11) % 11;
    assert vy == (11 - s % 11) % 11;
  }

  /**
   * The check relation in closed form: at least two cleaned characters, an
   * all-digit base, and a last character whose value completes the weighted
   * sum of the base to a multiple of eleven.
   */
  predicate CheckRelationHolds(c: string)
  {
    && |c| >= 2
    && IsClean(c)
    && AllDigits(Base(c))
    && (WeightedSum(Base(c)) + CharValue(c[|c| - 1])) % 11 == 0
  }

  /** A valid identifier satisfies the check relation. */
  lemma ValidSatisfiesRelation(rut: string)
    requires IsValid(rut)
    ensures CheckRelationHolds(Clean(rut))
  {
    var c := Clean(rut);
    assert [c[|c| - 1]] == CheckDigit(rut);
  }

  /** An identifier satisfying the check relation is valid: the check character is unique. */
  lemma RelationMakesValid(rut: string)
    requires CheckRelationHolds(Clean(rut))
    ensures IsValid(rut)
  {
    var c := Clean(rut);
    var dv := CheckDigit(rut);
    CheckCharUnique(WeightedSum(Base(c)), c[|c| - 1], dv[0]);
    assert [c[|c| - 1]] == dv;
  }

  /** Validity is exactly the check relation on the cleaned text. */
  lemma IsValidIff(rut: string)
    ensures IsValid(rut) <==> CheckRelationHolds(Clean(rut))
  {
    if IsValid(rut) {
      ValidSatisfiesRelation(rut);
    } else if CheckRelationHolds(Clean(rut)) {
      RelationMakesValid(rut);
    }
  }

  /** Validity depends on the cleaned text alone: punctuation and case do not matter. */
  lemma {:induction false} IsValidOfClean(rut: string)
    ensures IsValid(Clean(rut)) == IsValid(rut)
  {
    CleanIdempotent(rut);
  }
}
