/** The string form of `cell_numeric_value(cell)`: the cell's text is
    stripped; a cell holding a `+` child (a DOM test, given here as `plus`)
    drops its first character and goes through `int()` with the commas
    removed; a blank or `N/A` text becomes the sentinel -1; any other text goes
    through `round(float(...))` with the commas removed. */
module Cells {
  import opened Common
  import opened PyStr
  import opened PyInt

  /** The numbers `round(float(...))` yields exactly: every integer of
      magnitude at most 2^53 is a double. */
  const EXACT_FLOAT: int := 0x20_0000_0000_0000

  /** A cell's value: an integer, or the comma-free text whose `float()`
      conversion is not modelled (a fractional or out-of-range number, or a
      text `float()` rejects). */
  datatype Number = Exact(n: int) | FloatPath(text: string)

  /** `cell_numeric_value(cell)` for a cell whose text is `text`. In the
      model an `int()` that raises is the only fault; a text `float()` would
      reject stays on the float path. */
  function CellNumericValue(text: string, plus: bool): (r: Result<Number>)
    ensures r.Err? <==> plus && ParseInt(RemoveChar(Suffix(Strip(text), 1), ',')).None?
    ensures r.Err? ==> r.fault == NotAnInt(RemoveChar(Suffix(Strip(text), 1), ','))
    ensures r.Ok? && r.value.FloatPath? ==> !plus && r.value.text == RemoveChar(Strip(text), ',')
  {
    var t := Strip(text);
    if plus then
      var digits := RemoveChar(Suffix(t, 1), ',');
      match ParseInt(digits)
      case Some(v) => Ok(Exact(v))
      case None => Err(NotAnInt(digits))
    else if t == "" || t == "N/A" then Ok(Exact(-1))
    else
      var number := RemoveChar(t, ',');
      match ParseInt(number)
      case Some(v) => if -EXACT_FLOAT <= v <= EXACT_FLOAT then Ok(Exact(v)) else Ok(FloatPath(number))
      case None => Ok(FloatPath(number))
  }

  /** Without a `+` child, a blank or `N/A` cell is the sentinel -1; and in
      the model an exact -1 comes from nowhere else but a text that spells
      -1. A decimal text such as `-1.2` also rounds to -1, but it stays on
      the float path (`FloatPath`) and is never `Exact`. */
  lemma CellSentinel(text: string)
    ensures IsBlank(text) || Strip(text) == "N/A" ==> CellNumericValue(text, false) == Ok(Exact(-1))
    ensures CellNumericValue(text, false) == Ok(Exact(-1)) ==>
              IsBlank(text) || Strip(text) == "N/A" || ParseInt(RemoveChar(Strip(text), ',')) == Some(-1)
  {
    StripEmptyIffBlank(text);
  }

  /** Without a `+` child, a text of digits and thousands separators is the
      integer its digits spell. */
  lemma CellDigits(text: string)
    requires DigitsAndCommas(Strip(text)) && exists k :: 0 <= k < |Strip(text)| && IsDigit(Strip(text)[k])
    requires AllDigits(RemoveChar(Strip(text), ',')) && Decimal(RemoveChar(Strip(text), ',')) <= EXACT_FLOAT
    ensures CellNumericValue(text, false) == Ok(Exact(Decimal(RemoveChar(Strip(text), ','))))
  {
    var t := Strip(text);
    CommaGroupedInt(t);
    assert t != "" && t != "N/A" by {
      var k :| 0 <= k < |t| && IsDigit(t[k]);
      assert IsDigit(t[0]) || t[0] == ',';
    }
  }

  /** With a `+` child, the text after the sign, digits and thousands
      separators, is the integer its digits spell. */
  lemma CellPlus(text: string, s: string)
    requires Strip(text) == "+" + s
    requires DigitsAndCommas(s) && exists k :: 0 <= k < |s| && IsDigit(s[k])
    ensures AllDigits(RemoveChar(s, ','))
    ensures CellNumericValue(text, true) == Ok(Exact(Decimal(RemoveChar(s, ','))))
  {
    CommaGroupedInt(s);
    assert Suffix(Strip(text), 1) == s;
  }

  /** With a `+` child, a text of at most one character leaves nothing for
      `int()`, which raises. */
  lemma PlusWithoutDigitsFaults(text: string)
    requires |Strip(text)| <= 1
    ensures CellNumericValue(text, true) == Err(NotAnInt(""))
  {
    var t := Strip(text);
    assert Suffix(t, 1) == [];
    assert RemoveChar([], ',') == [];
    assert ParseInt("") == None by {
      assert Strip("") == "";
    }
  }

  /** `+1,234` with a `+` child is 1234. */
  lemma CellPlusExample()
    ensures CellNumericValue("+1,234", true) == Ok(Exact(1234))
  {
    var text := "+1,234";
    assert forall k | 0 <= k < |text| :: !IsSpace(text[k]);
    StripUnspaced(text);
    assert text == "+" + "1,234";
    assert DigitsAndCommas("1,234") && IsDigit("1,234"[0]);
    CellPlus(text, "1,234");
    RemovedComma();
    DecimalExample();
  }
}
