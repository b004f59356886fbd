/**
 * Extraction of a program's combined id from the link to its
 * `anzeigenKombiniert.html` page (scraper.py, `Scraper._extract_combined_id`):
 * `int(href.rsplit("=", 1)[1])`, the integer written after the last `=`.
 */
module CombinedId {
  import opened Wrappers

  /** IndexError: the link has no `=`, so the split has no second part. ValueError: `int` rejects the text. */
  datatype IdError = IndexError | ValueError

  /** The position of the last occurrence of `c` in `s`, if any. */
  function LastIndexOf(s: string, c: char): (r: Option<nat>)
    ensures r.None? <==> c !in s
    ensures r.Some? ==> r.value < |s| && s[r.value] == c && forall j :: r.value < j < |s| ==> s[j] != c
  {
    if s == [] then None
    else if s[|s| - 1] == c then Some(|s| - 1)
    else
      LastIndexOf(s[..|s| - 1], c)
  }

  /** The ASCII whitespace `int` strips: space, tab, line feed, vertical tab, form feed, carriage return. */
  predicate IsSpace(c: char)
  {
    c == ' ' || '\t' <= c <= '\r'
  }

  predicate IsDigit(c: char)
  {
    '0' <= c <= '9'
  }

  /** `s` without its leading whitespace. */
  function TrimStart(s: string): (r: string)
    ensures r == [] || !IsSpace(r[0])
  {
    if s != [] && IsSpace(s[0]) then TrimStart(s[1..]) else s
  }

  /** `s` without its trailing whitespace. */
  function TrimEnd(s: string): (r: string)
    ensures r == [] || !IsSpace(r[|r| - 1])
  {
    if s != [] && IsSpace(s[|s| - 1]) then TrimEnd(s[..|s| - 1]) else s
  }

  /**
   * A decimal literal as `int` accepts it in base 10: digits, where single
   * underscores may separate two digits.
   */
  predicate DecimalLiteral(s: string)
  {
    |s| > 0 && IsDigit(s[|s| - 1]) &&
    (|s| == 1 ||
     DecimalLiteral(s[..|s| - 1]) ||
     (|s| > 2 && s[|s| - 2] == '_' && DecimalLiteral(s[..|s| - 2])))
  }

  /** The value of a string of digits and underscores, the underscores ignored. */
  function DigitsValue(s: string): nat
  {
    if s == [] then 0
    else if s[|s| - 1] == '_' then DigitsValue(s[..|s| - 1])
    else DigitsValue(s[..|s| - 1]) * 10 + DigitValue(s[|s| - 1])
  }

  function DigitValue(c: char): nat
  {
    if IsDigit(c) then (c - '0') as nat else 0
  }

  /**
   * The default of `sys.get_int_max_str_digits()`: `int` refuses a decimal
   * literal with more digits than this, and `str` an integer that long.
   */
  const MaxStrDigits := 4300

  /** The number of digits in `s`, underscores not counted. */
  function DigitCount(s: string): nat
  {
    if s == [] then 0
    else DigitCount(s[..|s| - 1]) + (if IsDigit(s[|s| - 1]) then 1 else 0)
  }

  /**
   * `int(s)` for a string: surrounding whitespace, an optional sign, then a
   * decimal literal of at most `MaxStrDigits` digits.
   */
  function ParseInt(s: string): (r: Result<int, IdError>)
    ensures r.Err? ==> r.error == ValueError
  {
    var t := TrimEnd(TrimStart(s));
    var negative := |t| > 0 && t[0] == '-';
    var digits := if |t| > 0 && (t[0] == '-' || t[0] == '+') then t[1..] else t;
    var magnitude: int := DigitsValue(digits);
    if DecimalLiteral(digits) && DigitCount(digits) <= MaxStrDigits then Ok(if negative then -magnitude else magnitude)
    else Err(ValueError)
  }

  /** A string of only digits counts each character as a digit. */
  lemma {:induction false} DigitCountAll(s: string)
    requires forall i :: 0 <= i < |s| ==> IsDigit(s[i])
    ensures DigitCount(s) == |s|
  {
    if s != [] {
      DigitCountAll(s[..|s| - 1]);
    }
  }

  /** More than `MaxStrDigits` digits make `int` raise ValueError, whatever their value. */
  lemma ParseIntDigitLimit(s: string)
    requires |s| > MaxStrDigits && forall i :: 0 <= i < |s| ==> IsDigit(s[i])
    ensures ParseInt(s) == Err(ValueError)
  {
    assert TrimStart(s) == s;
    assert TrimEnd(s) == s;
    DigitCountAll(s);
  }

  /** `_extract_combined_id(href)`. */
  function ExtractCombinedId(href: string): (r: Result<int, IdError>)
    ensures r == Err(IndexError) <==> '=' !in href
    ensures r.Err? ==> ('=' in href <==> r.error == ValueError)
  {
    var last := LastIndexOf(href, '=');
    if last.None? then Err(IndexError) else ParseInt(href[last.value + 1..])
  }

  // ---------------------------------------------------------------------
  // Round trip with Python's str() of an integer
  // ---------------------------------------------------------------------

  function DigitChar(d: nat): char
    requires d < 10
  {
    ('0' as int + d) as char
  }

  /** `str(n)` for a natural number. */
  function NatToString(n: nat): string
    decreases n
  {
    if n < 10 then [DigitChar(n)] else NatToString(n / 10) + [DigitChar(n % 10)]
  }

  /** `str(n)` for an integer. */
  function IntToString(n: int): string
  {
    if n < 0 then "-" + NatToString(-n) else NatToString(n)
  }

  /** `str(n)` succeeds: the integer has at most `MaxStrDigits` digits. */
  predicate StrAllowed(n: int)
  {
    |NatToString(if n < 0 then -n else n)| <= MaxStrDigits
  }

  lemma {:induction false} NatToStringDigits(n: nat)
    ensures |NatToString(n)| > 0 && DecimalLiteral(NatToString(n))
    ensures DigitCount(NatToString(n)) == |NatToString(n)|
    ensures forall i :: 0 <= i < |NatToString(n)| ==> IsDigit(NatToString(n)[i])
    ensures DigitsValue(NatToString(n)) == n
    decreases n
  {
    if n >= 10 {
      NatToStringDigits(n / 10);
      var s := NatToString(n);
      assert s[..|s| - 1] == NatToString(n / 10);
    }
  }

  /** `int(str(n)) == n` wherever `str(n)` succeeds. */
  lemma ParseIntToString(n: int)
    requires StrAllowed(n)
    ensures ParseInt(IntToString(n)) == Ok(n)
  {
    var s := IntToString(n);
    var m := if n < 0 then -n else n;
    NatToStringDigits(m);
    var digits := NatToString(m);
    assert TrimStart(s) == s;
    assert TrimEnd(s) == s;
    if n < 0 {
      assert s[1..] == digits;
    }
  }

  /** The last `=` of `prefix + "=" + tail` is the one before `tail` when `tail` has none. */
  lemma {:induction false} LastIndexOfSuffix(prefix: string, tail: string)
    requires '=' !in tail
    ensures LastIndexOf(prefix + "=" + tail, '=') == Some(|prefix|)
    decreases |tail|
  {
    var s := prefix + "=" + tail;
    if tail == [] {
      assert s[|s| - 1] == '=';
    } else {
      var t := tail[..|tail| - 1];
      assert s[..|s| - 1] == prefix + "=" + t;
      assert s[|s| - 1] == tail[|tail| - 1];
      assert '=' !in t by {
        assert forall i :: 0 <= i < |t| ==> t[i] == tail[i];
      }
      LastIndexOfSuffix(prefix, t);
    }
  }

  /** Any link ending in `=` followed by `str(n)` yields `n`, whatever comes before. */
  lemma ExtractCombinedIdRoundTrip(prefix: string, n: int)
    requires StrAllowed(n)
    ensures ExtractCombinedId(prefix + "=" + IntToString(n)) == Ok(n)
  {
    var tail := IntToString(n);
    var m := if n < 0 then -n else n;
    NatToStringDigits(m);
    assert '=' !in tail by {
      if n < 0 {
        assert tail == "-" + NatToString(m);
      }
      forall i | 0 <= i < |tail| ensures tail[i] != '=' {
        if n < 0 && i > 0 {
          assert tail[i] == NatToString(m)[i - 1];
        }
      }
    }
    LastIndexOfSuffix(prefix, tail);
    assert (prefix + "=" + tail)[|prefix| + 1..] == tail;
    ParseIntToString(n);
  }

  /** A link whose last `=` is followed by more than `MaxStrDigits` digits raises ValueError. */
  lemma ExtractCombinedIdDigitLimit(prefix: string, digits: string)
    requires |digits| > MaxStrDigits && forall i :: 0 <= i < |digits| ==> IsDigit(digits[i])
    ensures ExtractCombinedId(prefix + "=" + digits) == Err(ValueError)
  {
    assert '=' !in digits by {
      forall i | 0 <= i < |digits| ensures digits[i] != '=' {
        assert IsDigit(digits[i]);
      }
    }
    LastIndexOfSuffix(prefix, digits);
    assert (prefix + "=" + digits)[|prefix| + 1..] == digits;
    ParseIntDigitLimit(digits);
  }
}
