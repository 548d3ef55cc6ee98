/** The amount normaliser of the statement extractor
    (`BankReconciliation.parse_amount`): currency text such as
    "Nu. 1,234.50" becomes a number, and anything it cannot read becomes 0.

    Python's `float()` is modelled by a decimal grammar: an optional sign,
    then digits with at most one decimal point and at least one digit. */
module Amount {
  import opened Wrappers
  import opened Text

  predicate IsDigit(c: char) {
    '0' <= c <= '9'
  }

  predicate AllDigits(s: string) {
    forall i :: 0 <= i < |s| ==> IsDigit(s[i])
  }

  function DigitValue(c: char): nat
    requires IsDigit(c)
  {
    c as int - '0' as int
  }

  function DigitChar(d: nat): (c: char)
    requires d < 10
    ensures IsDigit(c) && DigitValue(c) == d
  {
    ('0' as int + d) as char
  }

  /** The number a non-empty run of decimal digits denotes (most significant
      digit first). */
  function DigitsValue(s: string): nat
    requires AllDigits(s)
    decreases |s|
  {
    if s == [] then 0 else DigitsValue(s[..|s| - 1]) * 10 + DigitValue(s[|s| - 1])
  }

  function Pow10(n: nat): (p: nat)
    ensures p >= 1
  {
    if n == 0 then 1 else 10 * Pow10(n - 1)
  }

  /** The index of the first `c` in `s`, if any. */
  function IndexOf(s: string, c: char): (r: Option<nat>)
    ensures r.Some? ==> r.value < |s| && s[r.value] == c
                        && forall j :: 0 <= j < r.value ==> s[j] != c
    ensures r.None? ==> forall j :: 0 <= j < |s| ==> s[j] != c
  {
    if s == [] then None
    else if s[0] == c then Some(0)
    else match IndexOf(s[1..], c)
      case None => None
      case Some(i) => Some(i + 1)
  }

  /** An unsigned decimal literal: only digits and points, at most one
      point, at least one digit ("12", "12.5", ".5", "12."). */
  predicate IsUnsignedLiteral(s: string) {
    && (forall k :: 0 <= k < |s| ==> IsDigit(s[k]) || s[k] == '.')
    && (forall j, k :: 0 <= j < k < |s| && s[j] == '.' ==> s[k] != '.')
    && (exists k :: 0 <= k < |s| && IsDigit(s[k]))
  }

  /** A decimal literal with an optional leading sign. */
  predicate IsDecimalLiteral(s: string) {
    || IsUnsignedLiteral(s)
    || (|s| > 0 && (s[0] == '+' || s[0] == '-') && IsUnsignedLiteral(s[1..]))
  }

  /** Splitting at the first point: the literal's two halves are digit runs
      exactly when the whole is an unsigned literal. */
  lemma UnsignedAtPoint(s: string, i: nat)
    requires i < |s| && s[i] == '.' && forall j :: 0 <= j < i ==> s[j] != '.'
    ensures IsUnsignedLiteral(s)
        <==> AllDigits(s[..i]) && AllDigits(s[i + 1..]) && |s[..i]| + |s[i + 1..]| > 0
  {
    if AllDigits(s[..i]) && AllDigits(s[i + 1..]) && |s[..i]| + |s[i + 1..]| > 0 {
      assert forall k :: 0 <= k < |s| && k != i ==> IsDigit(s[k]) by {
        forall k | 0 <= k < |s| && k != i ensures IsDigit(s[k]) {
          if k < i { assert s[..i][k] == s[k]; } else { assert s[i + 1..][k - i - 1] == s[k]; }
        }
      }
      var k := if i > 0 then 0 else i + 1;
      assert IsDigit(s[k]);
    }
    if IsUnsignedLiteral(s) {
      assert forall k :: 0 <= k < |s| && k != i ==> IsDigit(s[k]);
      assert AllDigits(s[..i]);
      assert AllDigits(s[i + 1..]) by {
        forall k | i + 1 <= k < |s| ensures IsDigit(s[k]) {
        }
      }
      var k :| 0 <= k < |s| && IsDigit(s[k]);
      assert k != i;
    }
  }

  /** Reads an unsigned decimal literal. */
  function ParseUnsigned(s: string): (r: Option<real>)
    ensures r.Some? <==> IsUnsignedLiteral(s)
    ensures r.Some? ==> r.value >= 0.0
  {
    match IndexOf(s, '.')
    case None =>
      if s != [] && AllDigits(s) then
        assert IsDigit(s[0]);
        Some(DigitsValue(s) as real)
      else None
    case Some(i) =>
      UnsignedAtPoint(s, i);
      var whole, frac := s[..i], s[i + 1..];
      if AllDigits(whole) && AllDigits(frac) && |whole| + |frac| > 0 then
        Some(DigitsValue(whole) as real + DigitsValue(frac) as real / Pow10(|frac|) as real)
      else None
  }

  /** Python's `float(s)` on an already stripped string, restricted to
      decimal literals: `None` stands for the `ValueError` it raises. */
  function ParseDecimal(s: string): (r: Option<real>)
    ensures r.Some? <==> IsDecimalLiteral(s)
  {
    if |s| > 0 && s[0] == '-' then
      match ParseUnsigned(s[1..])
      case Some(v) => Some(-v)
      case None => None
    else if |s| > 0 && s[0] == '+' then ParseUnsigned(s[1..])
    else ParseUnsigned(s)
  }

  /** The text `parse_amount` hands to `float()`: every ",", then every
      "Nu.", then every "BTN" deleted, and whitespace stripped. */
  function NormaliseAmountText(s: string): (r: string)
    ensures IsTrimmed(r)
    ensures CharsWithin(r, s)
    ensures forall i :: 0 <= i < |r| ==> r[i] != ','
  {
    var a := RemoveAll(s, ",");
    var b := RemoveAll(a, "Nu.");
    var c := RemoveAll(b, "BTN");
    var r := Strip(c);
    RemoveAllChars(s, ",");
    RemoveAllChars(a, "Nu.");
    RemoveAllChars(b, "BTN");
    CharsWithinTransitive(c, b, a);
    CharsWithinTransitive(r, c, a);
    CharsWithinTransitive(r, a, s);
    r
  }

  /** `parse_amount`: total, 0 for a missing or empty cell and for text that
      is not a number once normalised, the number it denotes otherwise. */
  function ParseAmount(cell: Option<string>): (r: real)
    ensures cell.None? || cell == Some("") ==> r == 0.0
    ensures cell.Some? && !IsDecimalLiteral(NormaliseAmountText(cell.value)) ==> r == 0.0
    ensures cell.Some? && cell.value != "" && IsDecimalLiteral(NormaliseAmountText(cell.value))
            ==> ParseDecimal(NormaliseAmountText(cell.value)) == Some(r)
  {
    match cell
    case None => 0.0
    case Some(s) =>
      if s == "" then 0.0
      else match ParseDecimal(NormaliseAmountText(s))
        case Some(v) => v
        case None => 0.0
  }

  // ---------------------------------------------------------------------
  // Printed amounts, and what the normaliser reads back from them.

  /** The decimal digits of `n`, without leading zeros. */
  function NatText(n: nat): (s: string)
    ensures s != [] && AllDigits(s)
  {
    if n < 10 then [DigitChar(n)] else NatText(n / 10) + [DigitChar(n % 10)]
  }

  lemma {:induction false} NatTextValue(n: nat)
    ensures DigitsValue(NatText(n)) == n
  {
    if n >= 10 {
      var s := NatText(n);
      assert s[..|s| - 1] == NatText(n / 10);
      NatTextValue(n / 10);
    }
  }

  /** Two-digit cents, zero padded. */
  function CentsText(cents: nat): (s: string)
    requires cents < 100
    ensures |s| == 2 && AllDigits(s) && DigitsValue(s) == cents
  {
    var s := [DigitChar(cents / 10), DigitChar(cents % 10)];
    assert s[..1] == [DigitChar(cents / 10)];
    assert s[..1][..0] == [];
    assert DigitsValue(s[..1]) == cents / 10;
    s
  }

  /** The plain decimal rendering "1234.50". */
  function DecimalText(whole: nat, cents: nat): string
    requires cents < 100
  {
    NatText(whole) + "." + CentsText(cents)
  }

  /** Digits grouped in threes from the right with commas: "1,234,567". */
  function GroupThousands(d: string): string
    decreases |d|
  {
    if |d| <= 3 then d else GroupThousands(d[..|d| - 3]) + "," + d[|d| - 3..]
  }

  /** The statement's currency rendering "Nu. 1,234.50". */
  function CurrencyText(whole: nat, cents: nat): string
    requires cents < 100
  {
    "Nu. " + GroupThousands(NatText(whole)) + "." + CentsText(cents)
  }

  /** The decimal rendering reads back as the amount it prints. */
  lemma DecimalTextValue(whole: nat, cents: nat)
    requires cents < 100
    ensures ParseDecimal(DecimalText(whole, cents)) == Some(whole as real + cents as real / 100.0)
  {
    var d := NatText(whole);
    var s := DecimalText(whole, cents);
    assert IndexOf(s, '.') == Some(|d|) by {
      assert s[|d|] == '.';
      assert forall j :: 0 <= j < |d| ==> s[j] == d[j];
    }
    assert s[..|d|] == d;
    assert s[|d| + 1..] == CentsText(cents);
    NatTextValue(whole);
    assert Pow10(2) == 100;
    assert IsDigit(s[0]);
  }

  /** Deleting the commas from a group joined on by a comma. */
  lemma UngroupStep(g: string, tail: string, head: string)
    requires RemoveAll(g, ",") == head
    requires forall i :: 0 <= i < |tail| ==> tail[i] != ','
    ensures RemoveAll(g + "," + tail, ",") == head + tail
  {
    RemoveAroundChar(g, tail, ',');
    assert RemoveAll(tail, ",") == tail;
  }

  /** Deleting the commas undoes the grouping. */
  lemma {:induction false} UngroupThousands(d: string)
    requires AllDigits(d)
    ensures RemoveAll(GroupThousands(d), ",") == d
    decreases |d|
  {
    if |d| > 3 {
      var head, tail := d[..|d| - 3], d[|d| - 3..];
      assert AllDigits(head) by {
        assert forall i :: 0 <= i < |head| ==> head[i] == d[i];
      }
      assert forall i :: 0 <= i < |tail| ==> tail[i] != ',' by {
        assert forall i :: 0 <= i < |tail| ==> tail[i] == d[|d| - 3 + i];
      }
      UngroupThousands(head);
      UngroupStep(GroupThousands(head), tail, head);
      assert head + tail == d;
    }
  }

  /** `s` has no character that starts one of the deleted markers. */
  predicate Unmarked(s: string) {
    forall i :: 0 <= i < |s| ==> s[i] != ',' && s[i] != 'N' && s[i] != 'B'
  }

  /** Text free of markers and surrounding blanks normalises to itself. */
  lemma NormaliseUnmarked(s: string)
    requires Unmarked(s) && IsTrimmed(s)
    ensures NormaliseAmountText(s) == s
  {
    StripTrimmed(s);
  }

  /** Deleting commas from the currency rendering removes exactly the
      grouping commas. */
  lemma CurrencyWithoutCommas(whole: nat, cents: nat)
    requires cents < 100
    ensures RemoveAll(CurrencyText(whole, cents), ",") == "Nu. " + DecimalText(whole, cents)
  {
    var d := NatText(whole);
    var tail := "." + CentsText(cents);
    assert forall i :: 0 <= i < |tail| ==> tail[i] != ',';
    var g := GroupThousands(d);
    assert CurrencyText(whole, cents) == "Nu. " + g + tail;
    assert "Nu. " + DecimalText(whole, cents) == "Nu. " + d + tail;
    RemoveInside("Nu. ", g, tail, ',');
    UngroupThousands(d);
  }

  /** Deleting the markers from "Nu. " followed by marker-free text leaves
      the blank and the text. */
  lemma MarkerRemoved(t: string)
    requires Unmarked(t)
    ensures RemoveAll(RemoveAll("Nu. " + t, "Nu."), "BTN") == " " + t
  {
    var a := "Nu. " + t;
    var rest := " " + t;
    assert a[..3] == "Nu." && a[3..] == rest;
    assert RemoveAll(a, "Nu.") == RemoveAll(rest, "Nu.");
    assert RemoveAll(rest, "Nu.") == rest;
  }

  /** One leading blank is stripped from trimmed text. */
  lemma StripLeadingBlank(t: string)
    requires t != [] && IsTrimmed(t)
    ensures Strip(" " + t) == t
  {
    assert (" " + t)[1..] == t;
    StripTrimmed(t);
  }

  /** Normalising the currency rendering leaves exactly the plain decimal
      rendering: the grouping commas, the "Nu." marker and the blank after it
      are removed, nothing else. */
  lemma NormaliseCurrencyText(whole: nat, cents: nat)
    requires cents < 100
    ensures NormaliseAmountText(CurrencyText(whole, cents)) == DecimalText(whole, cents)
  {
    var dec := DecimalText(whole, cents);
    CurrencyWithoutCommas(whole, cents);
    assert Unmarked(dec);
    MarkerRemoved(dec);
    assert IsTrimmed(dec) by { assert IsDigit(dec[0]) && IsDigit(dec[|dec| - 1]); }
    StripLeadingBlank(dec);
  }

  /** A cell whose text normalises to a decimal literal reads as its value. */
  lemma ReadsAs(s: string, t: string)
    requires s != "" && NormaliseAmountText(s) == t && IsDecimalLiteral(t)
    ensures Some(ParseAmount(Some(s))) == ParseDecimal(t)
  {
  }

  /** The plain decimal rendering reads back as the amount it prints. */
  lemma DecimalTextReadsBack(whole: nat, cents: nat)
    requires cents < 100
    ensures ParseAmount(Some(DecimalText(whole, cents))) == whole as real + cents as real / 100.0
  {
    var dec := DecimalText(whole, cents);
    DecimalTextValue(whole, cents);
    assert Unmarked(dec);
    assert IsTrimmed(dec) by { assert IsDigit(dec[0]) && IsDigit(dec[|dec| - 1]); }
    NormaliseUnmarked(dec);
    ReadsAs(dec, dec);
  }

  /** The currency rendering reads back as the amount it prints, the same
      number the plain decimal rendering gives: thousands separators and the
      "Nu." marker make no difference. */
  lemma CurrencyTextRoundTrip(whole: nat, cents: nat)
    requires cents < 100
    ensures ParseAmount(Some(CurrencyText(whole, cents))) == whole as real + cents as real / 100.0
    ensures ParseAmount(Some(CurrencyText(whole, cents))) == ParseAmount(Some(DecimalText(whole, cents)))
  {
    var dec := DecimalText(whole, cents);
    var x := CurrencyText(whole, cents);
    DecimalTextValue(whole, cents);
    NormaliseCurrencyText(whole, cents);
    assert x[0] == 'N';
    ReadsAs(x, dec);
    DecimalTextReadsBack(whole, cents);
  }

  /** A lone digit is a decimal literal denoting its value. */
  lemma DigitParses(d: char)
    requires IsDigit(d)
    ensures ParseDecimal([d]) == Some(DigitValue(d) as real)
  {
    var z := [d];
    assert z[..0] == [];
    assert DigitsValue(z) == DigitValue(d);
    assert IndexOf(z, '.') == None;
  }

  /** A lone digit reads as its value; in particular "0", the text the
      extractor uses for a missing amount cell, reads as 0. */
  lemma DigitReads(d: char)
    requires IsDigit(d)
    ensures ParseAmount(Some([d])) == DigitValue(d) as real
  {
    var z := [d];
    assert Unmarked(z) && IsTrimmed(z);
    NormaliseUnmarked(z);
    DigitParses(d);
    ReadsAs(z, z);
  }

  /** "Nu. 1,234.50" is the currency rendering of 1234 and 50 cents. */
  lemma CurrencyExampleText()
    ensures CurrencyText(1234, 50) == "Nu. 1,234.50"
  {
    assert NatText(1234) == "1234" by {
      assert NatText(1) == "1";
      assert NatText(12) == "12";
      assert NatText(123) == "123";
    }
    assert GroupThousands("1234") == "1,234" by {
      assert "1234"[..1] == "1";
      assert "1234"[1..] == "234";
    }
  }

  /** An example: "Nu. 1,234.50" is 1234.5. */
  lemma CurrencyExample()
    ensures ParseAmount(Some("Nu. 1,234.50")) == 1234.5
  {
    CurrencyExampleText();
    CurrencyTextRoundTrip(1234, 50);
  }

  /** Marker-free text that is not a decimal literal is read as 0 rather
      than raising. */
  lemma NotANumberIsZero(s: string)
    requires Unmarked(s) && IsTrimmed(s) && !IsDecimalLiteral(s)
    ensures ParseAmount(Some(s)) == 0.0
  {
    NormaliseUnmarked(s);
  }

  /** The example "garbage" is read as 0. */
  lemma GarbageIsZero()
    ensures ParseAmount(Some("garbage")) == 0.0
  {
    var g := "garbage";
    assert Unmarked(g);
    assert IsTrimmed(g);
    assert !IsDecimalLiteral(g) by {
      assert !IsDigit(g[0]) && g[0] != '.' && g[0] != '+' && g[0] != '-';
    }
    NotANumberIsZero(g);
  }
}
