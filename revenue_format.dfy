/**
 The box-office display string of the dashboard: `'{:,d}'.format(int(x))`
 writes the whole-dollar amount with a comma between groups of three digits,
 and the redraw turns it back into a number with `.str.replace(",", "")`
 followed by `.astype(float)`.
 */
module RevenueFormat {
  import opened PyStr

  datatype Option<T> = None | Some(value: T)

  /** Python's `int(x)` on a float: truncation toward zero. */
  function Trunc(x: real): (i: int)
    ensures 0.0 <= x ==> 0 <= i && i as real <= x < i as real + 1.0
    ensures x < 0.0 ==> i <= 0 && i as real - 1.0 < x <= i as real
  {
    if x >= 0.0 then x.Floor else -((-x).Floor)
  }

  predicate IsDigit(c: char) { '0' <= c <= '9' }

  predicate AllDigits(s: string)
  {
    forall k :: 0 <= k < |s| ==> IsDigit(s[k])
  }

  function DigitChar(d: nat): (c: char)
    requires d < 10
    ensures IsDigit(c)
  {
    ('0' as int + d) as char
  }

  /** The decimal digits of `n`, most significant first, with no leading zero. */
  function Digits(n: nat): (ds: string)
    ensures ds != "" && AllDigits(ds)
    ensures |ds| > 1 ==> ds[0] != '0'
  {
    if n < 10 then [DigitChar(n)] else Digits(n / 10) + [DigitChar(n % 10)]
  }

  /** Inserts a comma before every group of three digits counted from the
      right; the leading character is kept. */
  function GroupThousands(ds: string): (g: string)
    ensures ds == "" ==> g == ""
    ensures ds != "" ==> |g| >= |ds| && g[0] == ds[0]
    decreases |ds|
  {
    if |ds| <= 3 then ds else GroupThousands(ds[..|ds| - 3]) + "," + ds[|ds| - 3..]
  }

  /** `'{:,d}'.format(i)`: a leading minus sign exactly for a negative
      number, then a digit. */
  function FormatThousands(i: int): (s: string)
    ensures s != "" && (s[0] == '-' <==> i < 0)
    ensures i < 0 ==> |s| > 1 && IsDigit(s[1])
    ensures i >= 0 ==> IsDigit(s[0])
  {
    if i < 0 then "-" + GroupThousands(Digits(-i)) else GroupThousands(Digits(i))
  }

  /** The value of a string of decimal digits. */
  function DigitsValue(s: string): nat
    requires AllDigits(s)
  {
    if s == "" then 0 else 10 * DigitsValue(s[..|s| - 1]) + (s[|s| - 1] as int - '0' as int)
  }

  /** `float(s)` on an optional minus sign followed by decimal digits; any
      other string is refused, as `float` raises `ValueError` on it. */
  function ParseFloat(s: string): (r: Option<real>)
    ensures r.Some? ==> r.value.Floor as real == r.value
    ensures r.Some? ==> s != "" && (r.value < 0.0 ==> s[0] == '-')
  {
    if s != "" && s[0] == '-' then
      if |s| > 1 && AllDigits(s[1..]) then var v: int := DigitsValue(s[1..]); Some((-v) as real) else None
    else if s != "" && AllDigits(s) then Some(DigitsValue(s) as real)
    else None
  }

  /** `float` refuses a string holding a character that is neither a minus
      sign nor a digit. */
  lemma ParseFloatRejects(s: string, k: nat)
    requires k < |s| && s[k] != '-' && !IsDigit(s[k])
    ensures ParseFloat(s) == None
  {
    if s[0] == '-' {
      assert s[1..][k - 1] == s[k];
    }
  }

  /** `.str.replace(",", "").astype(float)` on one display string. */
  function ParseRevenue(s: string): (r: Option<real>)
    ensures r.Some? ==> r.value.Floor as real == r.value
  {
    ParseFloat(RemoveChar(s, ','))
  }

  /** Removing the commas does not rescue a string holding any other
      character than a minus sign or a digit: `astype(float)` refuses it. */
  lemma ParseRevenueRejects(s: string, k: nat)
    requires k < |s| && s[k] != ',' && s[k] != '-' && !IsDigit(s[k])
    ensures ParseRevenue(s) == None
  {
    var t := RemoveChar(s, ',');
    assert s[k] in s;
    RemoveCharKeeps(s, ',', s[k]);
    var j :| 0 <= j < |t| && t[j] == s[k];
    ParseFloatRejects(t, j);
  }

  /** Reading the digits of `n` gives `n` back. */
  lemma {:induction false} DigitsRoundTrip(n: nat)
    ensures DigitsValue(Digits(n)) == n
    decreases n
  {
    if n >= 10 {
      var ds := Digits(n);
      assert ds[..|ds| - 1] == Digits(n / 10);
      DigitsRoundTrip(n / 10);
    }
  }

  lemma NoCommaInDigits(ds: string)
    requires AllDigits(ds)
    ensures ',' !in ds
  {
  }

  lemma UngroupStep(gh: string, hi: string, lo: string)
    requires RemoveChar(gh, ',') == hi && ',' !in lo
    ensures RemoveChar(gh + "," + lo, ',') == hi + lo
  {
    RemoveCharAbsent(lo, ',');
    RemoveCharConcat(gh + ",", lo, ',');
    RemoveCharConcat(gh, ",", ',');
    assert RemoveChar(",", ',') == "" by {
      assert ","[1..] == "";
    }
    calc {
      RemoveChar(gh + "," + lo, ',');
      RemoveChar(gh + ",", ',') + RemoveChar(lo, ',');
      RemoveChar(gh, ',') + RemoveChar(",", ',') + lo;
      { assert RemoveChar(gh, ',') + "" == hi; }
      hi + lo;
    }
  }

  /** Grouping keeps the digits and their order: removing the commas undoes it. */
  lemma {:induction false} UngroupThousands(ds: string)
    requires AllDigits(ds)
    ensures RemoveChar(GroupThousands(ds), ',') == ds
    decreases |ds|
  {
    if |ds| <= 3 {
      NoCommaInDigits(ds);
      RemoveCharAbsent(ds, ',');
    } else {
      var hi, lo := ds[..|ds| - 3], ds[|ds| - 3..];
      UngroupThousands(hi);
      NoCommaInDigits(lo);
      UngroupStep(GroupThousands(hi), hi, lo);
      assert hi + lo == ds;
    }
  }

  /** Each comma of a grouped number is followed by exactly three digits and
      then either the end or another comma, and the leading group holds one to
      three digits. */
  lemma {:induction false} GroupShape(ds: string)
    requires AllDigits(ds) && ds != ""
    ensures var g := GroupThousands(ds);
      (forall k :: 0 <= k < |g| && g[k] == ',' ==>
        k + 3 < |g| && IsDigit(g[k + 1]) && IsDigit(g[k + 2]) && IsDigit(g[k + 3]) &&
        (k + 4 == |g| || g[k + 4] == ',')) &&
      (exists f :: 1 <= f <= 3 && f <= |g| && AllDigits(g[..f]) && (f == |g| || g[f] == ','))
    decreases |ds|
  {
    var g := GroupThousands(ds);
    if |ds| <= 3 {
      assert AllDigits(g[..|g|]);
    } else {
      var hi, lo := ds[..|ds| - 3], ds[|ds| - 3..];
      GroupShape(hi);
      var gh := GroupThousands(hi);
      assert g == gh + "," + lo;
      forall k | 0 <= k < |g| && g[k] == ','
        ensures k + 3 < |g| && IsDigit(g[k + 1]) && IsDigit(g[k + 2]) && IsDigit(g[k + 3])
        ensures k + 4 == |g| || g[k + 4] == ','
      {
        if k < |gh| {
          assert g[k] == gh[k];
          assert gh[k + 1] == g[k + 1] && gh[k + 2] == g[k + 2] && gh[k + 3] == g[k + 3];
          if k + 4 < |gh| { assert g[k + 4] == gh[k + 4]; }
        } else {
          assert k == |gh|;
        }
      }
      var f :| 1 <= f <= 3 && f <= |gh| && AllDigits(gh[..f]) && (f == |gh| || gh[f] == ',');
      assert g[..f] == gh[..f];
      assert f == |gh| ==> g[f] == ',';
      assert f < |gh| ==> g[f] == gh[f];
    }
  }

  /** Formatting a whole-dollar amount and parsing the display string back
      gives the same amount. */
  lemma RevenueRoundTrip(i: int)
    ensures ParseRevenue(FormatThousands(i)) == Some(i as real)
  {
    if i < 0 {
      NegativeRoundTrip(-i);
      assert FormatThousands(i) == "-" + GroupThousands(Digits(-i));
    } else {
      var ds := Digits(i);
      assert FormatThousands(i) == GroupThousands(ds);
      UngroupThousands(ds);
      DigitsRoundTrip(i);
      assert ParseFloat(ds) == Some(DigitsValue(ds) as real);
    }
  }

  lemma NegativeRoundTrip(n: nat)
    requires n > 0
    ensures ParseRevenue("-" + GroupThousands(Digits(n))) == Some(-(n as real))
  {
    var ds := Digits(n);
    var g := GroupThousands(ds);
    UngroupThousands(ds);
    RemoveCharConcat("-", g, ',');
    assert RemoveChar("-", ',') == "-" by {
      assert "-"[1..] == "";
    }
    assert ParseRevenue("-" + g) == ParseFloat("-" + ds);
    DigitsRoundTrip(n);
    ParseNegative(ds);
  }

  /** A minus sign followed by digits is the negated value of the digits. */
  lemma ParseNegative(ds: string)
    requires ds != "" && AllDigits(ds)
    ensures ParseFloat("-" + ds) == Some(-(DigitsValue(ds) as real))
  {
    var s := "-" + ds;
    assert s[0] == '-' && s[1..] == ds;
  }
}
