/** Python's `int(text)` in base 10: surrounding whitespace is ignored, one
    optional sign, then decimal digits where single underscores may separate
    two digits. Anything else raises `ValueError`, modelled as `None`. */
module PyInt {
  import opened Common
  import opened PyStr

  predicate IsDigit(c: char) {
    '0' <= c <= '9'
  }

  predicate AllDigits(s: string) {
    forall k | 0 <= k < |s| :: IsDigit(s[k])
  }

  lemma DigitNotSpace(c: char)
    requires IsDigit(c)
    ensures !IsSpace(c)
  {
  }

  /** The value of a string of decimal digits, most significant first. */
  function Decimal(ds: string): nat
    requires AllDigits(ds)
  {
    if |ds| == 0 then 0
    else 10 * Decimal(ds[..|ds| - 1]) + (ds[|ds| - 1] as int - '0' as int)
  }

  /** The digit body `int()` accepts: starts and ends with a digit, and every
      underscore sits between two digits. */
  predicate UnderscoredDigits(b: string) {
    && |b| > 0
    && IsDigit(b[0])
    && IsDigit(b[|b| - 1])
    && forall k | 0 <= k < |b| ::
         IsDigit(b[k]) || (b[k] == '_' && 0 < k < |b| - 1 && IsDigit(b[k + 1]))
  }

  /** `int(s)`. */
  function ParseInt(s: string): Option<int>
  {
    var t := Strip(s);
    var negative := |t| > 0 && t[0] == '-';
    var body := if |t| > 0 && (t[0] == '-' || t[0] == '+') then t[1..] else t;
    if UnderscoredDigits(body) then
      DigitsAfterUnderscores(body);
      var v: int := Decimal(RemoveChar(body, '_'));
      Some(if negative then -v else v)
    else None
  }

  /** Removing the underscores of an accepted body leaves only digits. */
  lemma DigitsAfterUnderscores(b: string)
    requires forall k | 0 <= k < |b| :: IsDigit(b[k]) || b[k] == '_'
    ensures AllDigits(RemoveChar(b, '_'))
  {
    if |b| > 0 {
      DigitsAfterUnderscores(b[..|b| - 1]);
    }
  }

  /** The text the scraper feeds to `int()` after `.replace(',', '')`: digits
      and thousands separators only. */
  predicate DigitsAndCommas(s: string) {
    forall k | 0 <= k < |s| :: IsDigit(s[k]) || s[k] == ','
  }

  /** `int(s.replace(',', ''))` on digits and commas with at least one digit
      is the decimal value of the digits, e.g. `'1,234'` gives 1234. */
  lemma CommaGroupedInt(s: string)
    requires DigitsAndCommas(s) && exists k :: 0 <= k < |s| && IsDigit(s[k])
    ensures AllDigits(RemoveChar(s, ','))
    ensures ParseInt(RemoveChar(s, ',')) == Some(Decimal(RemoveChar(s, ',')))
  {
    var d := RemoveChar(s, ',');
    DigitsAfterCommas(s);
    var k :| 0 <= k < |s| && IsDigit(s[k]);
    DigitSurvives(s, k);
    ParseDigits(d);
  }

  /** `int()` of a non-empty digit string is its decimal value. */
  lemma ParseDigits(d: string)
    requires |d| > 0 && AllDigits(d)
    ensures ParseInt(d) == Some(Decimal(d))
  {
    assert forall i | 0 <= i < |d| :: !IsSpace(d[i]) by {
      forall i | 0 <= i < |d| ensures !IsSpace(d[i]) {
        assert IsDigit(d[i]);
      }
    }
    StripUnspaced(d);
    var t := Strip(d);
    assert t == d;
    assert !(t[0] == '-' || t[0] == '+') by {
      assert IsDigit(d[0]);
    }
    assert UnderscoredDigits(d);
    assert '_' !in d by {
      forall i | 0 <= i < |d| ensures d[i] != '_' {
        assert IsDigit(d[i]);
      }
    }
    RemoveAbsent(d, '_');
  }

  lemma DigitsAfterCommas(s: string)
    requires DigitsAndCommas(s)
    ensures AllDigits(RemoveChar(s, ','))
  {
    if |s| > 0 {
      DigitsAfterCommas(s[..|s| - 1]);
    }
  }

  /** A digit of `s` is still there after the commas are removed. */
  lemma DigitSurvives(s: string, k: nat)
    requires k < |s| && IsDigit(s[k])
    ensures |RemoveChar(s, ',')| > 0
  {
    CountBelowLength(s, ',', k);
  }

  lemma CountBelowLength(s: string, c: char, k: nat)
    requires k < |s| && s[k] != c
    ensures Count(s, c) < |s|
  {
    if k < |s| - 1 {
      CountBelowLength(s[..|s| - 1], c, k);
    } else {
      CountAtMostLength(s[..|s| - 1], c);
    }
  }

  lemma CountAtMostLength(s: string, c: char)
    ensures Count(s, c) <= |s|
  {
    if |s| > 0 {
      CountAtMostLength(s[..|s| - 1], c);
    }
  }

  /** `"1,234".replace(",", "")` is `"1234"`. */
  lemma RemovedComma()
    ensures RemoveChar("1,234", ',') == "1234"
  {
    assert "1,234"[..4] == "1,23";
    assert "1,23"[..3] == "1,2";
    assert "1,2"[..2] == "1,";
    assert "1,"[..1] == "1";
    assert "1"[..0] == "";
  }

  /** `"1234"` spells 1234. */
  lemma DecimalExample()
    ensures Decimal("1234") == 1234
  {
    assert "1234"[..3] == "123";
    assert "123"[..2] == "12";
    assert "12"[..1] == "1";
    assert "1"[..0] == "";
  }
}
