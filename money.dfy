// Prices on the pages: an amount in cents is printed with `toFixed(2)` and
// read back with `parseFloat`.
module Money {
  import opened Wrappers
  import opened Text

  /** `(cents / 100).toFixed(2)` for a non-negative amount: whole units, a dot, two digits. */
  function FormatCents(c: nat): string {
    NatToString(c / 100) + "." + Pad2(c % 100)
  }

  /** Reads a `d+.dd` text back into cents; any other shape is `None`. */
  function ParseCents(s: string): Option<nat> {
    var parts := Split(s, '.');
    if |parts| == 2 && parts[0] != [] && |parts[1]| == 2
       && (forall i :: 0 <= i < |parts[0]| ==> IsDigit(parts[0][i]))
       && (forall i :: 0 <= i < 2 ==> IsDigit(parts[1][i]))
    then
      Some(DigitsValue(parts[0]) * 100 + DigitsValue(parts[1]))
    else None
  }

  /**
   * `parseFloat` on the price texts the pages write: `NaN` (here `None`) when
   * the text does not start with a digit, as with a leading currency sign;
   * otherwise the `toFixed(2)` text read back.
   */
  function ParseFloatText(s: string): (r: Option<nat>)
    ensures s == [] || !IsDigit(s[0]) ==> r.None?
  {
    if s != [] && IsDigit(s[0]) then ParseCents(s) else None
  }

  /** Printing an amount and reading it back gives the amount. */
  lemma FormatParse(c: nat)
    ensures ParseCents(FormatCents(c)) == Some(c)
    ensures ParseFloatText(FormatCents(c)) == Some(c)
  {
    var whole, frac := NatToString(c / 100), Pad2(c % 100);
    DigitsOfNat(c / 100);
    PadDigits(c % 100);
    DotSplit(whole, frac);
    ParsesSome(FormatCents(c), whole, frac);
    ParsesValue(FormatCents(c), whole, frac);
    assert FormatCents(c)[0] == whole[0];
  }

  /** A text that splits at its one dot into digits and two digits is read as an amount. */
  lemma ParsesSome(s: string, whole: string, frac: string)
    requires Split(s, '.') == [whole, frac] && whole != [] && |frac| == 2
    requires forall i :: 0 <= i < |whole| ==> IsDigit(whole[i])
    requires forall i :: 0 <= i < |frac| ==> IsDigit(frac[i])
    ensures ParseCents(s).Some?
  {
  }

  /** That amount is the whole units times 100 plus the two-digit cents. */
  lemma ParsesValue(s: string, whole: string, frac: string)
    requires Split(s, '.') == [whole, frac] && whole != [] && |frac| == 2
    requires forall i :: 0 <= i < |whole| ==> IsDigit(whole[i])
    requires forall i :: 0 <= i < |frac| ==> IsDigit(frac[i])
    requires ParseCents(s).Some?
    ensures ParseCents(s).value == DigitsValue(whole) * 100 + DigitsValue(frac)
  {
  }

  /** Digits, a dot and two digits split at the dot. */
  lemma DotSplit(whole: string, frac: string)
    requires forall i :: 0 <= i < |whole| ==> IsDigit(whole[i])
    requires forall i :: 0 <= i < |frac| ==> IsDigit(frac[i])
    ensures Split(whole + "." + frac, '.') == [whole, frac]
  {
    assert '.' !in whole by {
      assert forall i :: 0 <= i < |whole| ==> whole[i] != '.';
    }
    assert '.' !in frac by {
      assert forall i :: 0 <= i < |frac| ==> frac[i] != '.';
    }
    SplitPrefix(whole, frac, '.');
    SplitPrefix(frac, [], '.');
    assert whole + "." + frac == whole + ['.'] + frac;
  }

  /** The two-digit field of a number below 100. */
  lemma PadDigits(n: nat)
    requires n < 100
    ensures |Pad2(n)| == 2 && (forall i :: 0 <= i < 2 ==> IsDigit(Pad2(n)[i])) && DigitsValue(Pad2(n)) == n
  {
    DigitsOfNat(n);
    if n < 10 {
      var p := Pad2(n);
      assert p[..1] == "0";
      assert DigitsValue("0") == 0 by { assert ("0")[..0] == []; }
    }
  }
}
