/**
  The number readings the valuation service applies to the stored listing
  strings ("50.000 km", "12.000€"): `parseInt` after stripping every
  non-digit, `parseInt` on the raw string, the price `parseFloat` with the
  first comma read as the decimal point, and `Math.round`. NaN is `None`.
 */
module JsNumber {
  import opened JsText

  predicate IsDigit(c: char) {
    '0' <= c <= '9'
  }

  predicate AllDigits(s: string) {
    forall i :: 0 <= i < |s| ==> IsDigit(s[i])
  }

  predicate HasDigit(s: string) {
    exists i :: 0 <= i < |s| && IsDigit(s[i])
  }

  function DigitValue(c: char): (d: nat)
    requires IsDigit(c)
    ensures d < 10
  {
    c as int - '0' as int
  }

  function DigitChar(d: nat): (c: char)
    requires d < 10
    ensures IsDigit(c) && DigitValue(c) == d
  {
    ('0' as int + d) as char
  }

  function Pow10(n: nat): (p: nat)
    ensures p >= 1
  {
    if n == 0 then 1 else 10 * Pow10(n - 1)
  }

  /** The value of a run of decimal digits, most significant first. */
  function Dec(ds: string): (v: nat)
    requires AllDigits(ds)
    ensures v < Pow10(|ds|)
  {
    if |ds| == 0 then 0
    else 10 * Dec(ds[..|ds| - 1]) + DigitValue(ds[|ds| - 1])
  }

  /** `String(n)` for a natural number: its decimal digits without leading zeros. */
  function NatDigits(n: nat): (ds: string)
    ensures AllDigits(ds) && |ds| >= 1
    ensures |ds| > 1 ==> ds[0] != '0'
  {
    if n < 10 then [DigitChar(n)] else NatDigits(n / 10) + [DigitChar(n % 10)]
  }

  /** Reading back the digits of a number gives the number. */
  lemma {:induction false} DecNatDigits(n: nat)
    ensures Dec(NatDigits(n)) == n
  {
    if n >= 10 {
      DecNatDigits(n / 10);
      var ds := NatDigits(n);
      assert ds[..|ds| - 1] == NatDigits(n / 10);
    }
  }

  /**
    A year stored as a JSON number reaches `parseInt` as its decimal string,
    and both readings give the number back, so a stored year can be taken as
    the integer itself.
   */
  lemma ParseIntOfNumber(n: nat)
    ensures ParseIntLeading(NatDigits(n)) == Some(n)
    ensures ParseDigits(NatDigits(n)) == Some(n)
  {
    ParseIntLeadingDigits(NatDigits(n));
    DecNatDigits(n);
  }

  /** `s.replace(/[^\d]/g, '')`: the digits of `s`, in order. */
  function KeepDigits(s: string): (r: string)
    ensures AllDigits(r)
    ensures |r| <= |s|
    ensures AllDigits(s) ==> r == s
    ensures HasDigit(s) <==> |r| > 0
    decreases |s|
  {
    if |s| == 0 then ""
    else
      var rest := KeepDigits(s[1..]);
      assert HasDigit(s[1..]) ==> HasDigit(s) by {
        if HasDigit(s[1..]) {
          var i :| 0 <= i < |s[1..]| && IsDigit(s[1..][i]);
          assert IsDigit(s[i + 1]);
        }
      }
      assert HasDigit(s) && !IsDigit(s[0]) ==> HasDigit(s[1..]) by {
        if HasDigit(s) && !IsDigit(s[0]) {
          var i :| 0 <= i < |s| && IsDigit(s[i]);
          assert i > 0 && IsDigit(s[1..][i - 1]);
        }
      }
      assert AllDigits(s) ==> AllDigits(s[1..]);
      assert s == [s[0]] + s[1..];
      if IsDigit(s[0]) then [s[0]] + rest else rest
  }

  /** Stripping non-digits works piece by piece. */
  lemma {:induction false} KeepDigitsConcat(a: string, b: string)
    ensures KeepDigits(a + b) == KeepDigits(a) + KeepDigits(b)
    decreases |a|
  {
    if |a| > 0 {
      var ab := a + b;
      assert ab[0] == a[0];
      assert ab[1..] == a[1..] + b;
      KeepDigitsConcat(a[1..], b);
    } else {
      assert a + b == b;
    }
  }

  /** `parseInt(s.replace(/[^\d]/g, ''))`: NaN exactly when `s` holds no digit. */
  function ParseDigits(s: string): (r: Option<int>)
    ensures r.None? <==> !HasDigit(s)
    ensures r.Some? ==> r.value >= 0
  {
    var ds := KeepDigits(s);
    if |ds| == 0 then None else Some(Dec(ds))
  }

  /** The longest prefix of `s` made of digits. */
  function LeadingDigits(s: string): (r: string)
    ensures AllDigits(r)
    ensures StartsWith(s, r)
    ensures |r| < |s| ==> !IsDigit(s[|r|])
    decreases |s|
  {
    if |s| > 0 && IsDigit(s[0]) then
      var rest := LeadingDigits(s[1..]);
      assert s[..1 + |rest|] == [s[0]] + s[1..][..|rest|];
      [s[0]] + rest
    else ""
  }

  lemma {:induction false} LeadingDigitsAll(s: string)
    requires AllDigits(s)
    ensures LeadingDigits(s) == s
    decreases |s|
  {
    if |s| > 0 {
      LeadingDigitsAll(s[1..]);
      assert s == [s[0]] + s[1..];
    }
  }

  /** The leading digit run stops at the first non-digit. */
  lemma {:induction false} LeadingDigitsStop(a: string, b: string)
    requires AllDigits(a)
    requires |b| == 0 || !IsDigit(b[0])
    ensures LeadingDigits(a + b) == a
    decreases |a|
  {
    if |a| > 0 {
      assert (a + b)[1..] == a[1..] + b;
      LeadingDigitsStop(a[1..], b);
      assert a == [a[0]] + a[1..];
    }
  }

  /**
    `parseInt(s)` with no radix on a string without a `0x` prefix: leading white
    space skipped, an optional sign, then the longest run of digits; NaN when
    that run is empty.
   */
  function ParseIntLeading(s: string): (r: Option<int>)
    ensures r.Some? <==> (var t := TrimStart(s);
                          var u := if |t| > 0 && (t[0] == '+' || t[0] == '-') then t[1..] else t;
                          |u| > 0 && IsDigit(u[0]))
  {
    var t := TrimStart(s);
    var negative := |t| > 0 && t[0] == '-';
    var u := if |t| > 0 && (t[0] == '+' || t[0] == '-') then t[1..] else t;
    var ds := LeadingDigits(u);
    if |ds| == 0 then None
    else
      var v: int := Dec(ds);
      if negative then Some(-v) else Some(v)
  }

  /**
    `parseInt` of a string that opens with a run of digits reads exactly that
    run and ignores everything from the first non-digit on: `"50.000 km"`
    reads as 50.
   */
  lemma ParseIntLeadingRun(a: string, b: string)
    requires AllDigits(a) && |a| > 0
    requires |b| == 0 || !IsDigit(b[0])
    ensures ParseIntLeading(a + b) == Some(Dec(a))
  {
    var s := a + b;
    assert s[0] == a[0];
    assert !IsJsSpace(s[0]);
    assert TrimStart(s) == s;
    LeadingDigitsStop(a, b);
    assert !(s[0] == '+' || s[0] == '-');
  }

  /** On a plain digit string both readings of a mileage agree. */
  lemma {:induction false} ParseIntLeadingDigits(s: string)
    requires AllDigits(s) && |s| > 0
    ensures ParseIntLeading(s) == ParseDigits(s)
    ensures ParseIntLeading(s) == Some(Dec(s))
  {
    assert IsDigit(s[0]);
    assert !IsJsSpace(s[0]);
    assert TrimStart(s) == s;
    LeadingDigitsAll(s);
    assert HasDigit(s);
    assert KeepDigits(s) == s;
  }

  /** `s.replace(/[^\d,]/g, '')`: the digits and commas of `s`, in order. */
  function KeepDigitsCommas(s: string): (r: string)
    ensures forall i :: 0 <= i < |r| ==> IsDigit(r[i]) || r[i] == ','
    ensures (forall i :: 0 <= i < |s| ==> s[i] != ',') ==> r == KeepDigits(s)
    decreases |s|
  {
    if |s| == 0 then ""
    else
      var rest := KeepDigitsCommas(s[1..]);
      if IsDigit(s[0]) || s[0] == ',' then [s[0]] + rest else rest
  }

  function IndexOfComma(s: string): (i: nat)
    requires ',' in s
    ensures i < |s| && s[i] == ','
    ensures forall j :: 0 <= j < i ==> s[j] != ','
  {
    if s[0] == ',' then 0 else 1 + IndexOfComma(s[1..])
  }

  /**
    `parseFloat(s.replace(/[^\d,]/g, '').replace(',', '.'))`: the digits
    before the first comma are the integer part and the digits up to the next
    comma the fraction; NaN when both are empty.
   */
  function ParsePrice(s: string): (r: Option<real>)
    ensures r.Some? ==> r.value >= 0.0
    ensures !HasDigit(s) ==> r.None?
    ensures (forall i :: 0 <= i < |s| ==> s[i] != ',') && HasDigit(s) ==> r == Some(Dec(KeepDigits(s)) as real)
  {
    var t := KeepDigitsCommas(s);
    if ',' in t then
      var i := IndexOfComma(t);
      var whole := t[..i];
      var frac := LeadingDigits(t[i + 1..]);
      if |whole| == 0 && |frac| == 0 then None
      else
        assert HasDigit(s) by {
          if |whole| > 0 { KeptDigitComesFromInput(s, 0); } else { KeptDigitComesFromInput(s, i + 1); }
        }
        assert !(forall j :: 0 <= j < |s| ==> s[j] != ',') by { CommaComesFromInput(s, i); }
        Some(Dec(whole) as real + Fraction(frac))
    else if |t| == 0 then None
    else
      assert HasDigit(s) by { KeptDigitComesFromInput(s, 0); }
      Some(Dec(t) as real)
  }

  /** The value of the digits after a decimal point. */
  function Fraction(ds: string): (v: real)
    requires AllDigits(ds)
    ensures 0.0 <= v < 1.0
    ensures v * Pow10(|ds|) as real == Dec(ds) as real
  {
    var n := Dec(ds) as real;
    var d := Pow10(|ds|) as real;
    assert 0.0 <= n < d;
    var v := n / d;
    assert v * d == n;
    QuotientBelowOne(n, d);
    v
  }

  lemma QuotientBelowOne(n: real, d: real)
    requires 0.0 <= n < d
    ensures n / d < 1.0
  {
    assert (n / d) * d == n;
  }

  /** A comma that survives the price filter was a comma of the input. */
  lemma {:induction false} CommaComesFromInput(s: string, j: nat)
    requires j < |KeepDigitsCommas(s)| && KeepDigitsCommas(s)[j] == ','
    ensures exists k :: 0 <= k < |s| && s[k] == ','
    decreases |s|
  {
    if s[0] != ',' {
      var j' := if IsDigit(s[0]) then j - 1 else j;
      CommaComesFromInput(s[1..], j');
      var k :| 0 <= k < |s[1..]| && s[1..][k] == ',';
      assert s[k + 1] == ',';
    }
  }

  /** Any digit that survives the price filter was a digit of the input. */
  lemma {:induction false} KeptDigitComesFromInput(s: string, j: nat)
    requires j < |KeepDigitsCommas(s)| && IsDigit(KeepDigitsCommas(s)[j])
    ensures HasDigit(s)
    decreases |s|
  {
    if IsDigit(s[0]) {
      assert IsDigit(s[0]);
    } else if s[0] == ',' {
      assert j > 0;
      KeptDigitComesFromInput(s[1..], j - 1);
      var k :| 0 <= k < |s[1..]| && IsDigit(s[1..][k]);
      assert IsDigit(s[k + 1]);
    } else {
      KeptDigitComesFromInput(s[1..], j);
      var k :| 0 <= k < |s[1..]| && IsDigit(s[1..][k]);
      assert IsDigit(s[k + 1]);
    }
  }

  /** `Math.round`: the nearest integer, halves rounded up. */
  function Round(x: real): (r: int)
    ensures x - 0.5 < r as real <= x + 0.5
  {
    (x + 0.5).Floor
  }

  function Abs(x: int): (r: nat)
    ensures r == x || r == -x
  {
    if x < 0 then -x else x
  }

  /** Stripping the non-digits from a "thousands" display string such as `"50.000 km"`. */
  lemma ThousandsDigits(head: string, suffix: string)
    requires AllDigits(head) && !HasDigit(suffix)
    ensures KeepDigits(head + ".000" + suffix) == head + "000"
  {
    KeepDigitsConcat(head + ".000", suffix);
    KeepDigitsConcat(head, ".000");
    assert ".000" == "." + "000";
    KeepDigitsConcat(".", "000");
    assert AllDigits("000");
  }

  /** Reading the digits kept from a string. */
  lemma ParseDigitsOf(s: string, ds: string)
    requires KeepDigits(s) == ds && |ds| > 0
    ensures ParseDigits(s) == Some(Dec(ds))
  {
  }

  /** `parseInt` of a string that opens with a digit reads its leading digit run. */
  lemma LeadingRead(s: string, ds: string)
    requires |s| > 0 && IsDigit(s[0])
    requires LeadingDigits(s) == ds
    ensures ParseIntLeading(s) == Some(Dec(ds))
  {
  }

  /** A price display string with no comma is read as its digits. */
  lemma EuroPrice(s: string, v: nat)
    requires |s| > 0 && IsDigit(s[0]) && ',' !in s
    requires Dec(KeepDigits(s)) == v
    ensures ParsePrice(s) == Some(v as real)
  {
    assert HasDigit(s);
    assert forall i :: 0 <= i < |s| ==> s[i] != ',';
  }
}
