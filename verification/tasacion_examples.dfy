/**
  Worked valuations: a single diesel SEAT LEON whose year and mileage match
  the request, and two listings on which the as-written scan prefers the listing that is
  farther in mileage.
 */
module TasacionExamples {
  import opened JsText
  import opened JsNumber
  import opened Catalog
  import opened Tasacion

  lemma NoDigitInKm()
    ensures !HasDigit(" km")
  {
    assert !IsDigit(' ') && !IsDigit('k') && !IsDigit('m');
  }

  lemma FiftyThousandKmDigits()
    ensures KeepDigits("50.000 km") == "50000"
  {
    assert "50.000 km" == "50" + ".000" + " km";
    NoDigitInKm();
    ThousandsDigits("50", " km");
    assert "50" + "000" == "50000";
  }

  lemma Dec50000()
    ensures Dec("50000") == 50000
  {
    assert "50000"[..4] == "5000";
    assert "5000"[..3] == "500";
    assert "500"[..2] == "50";
    assert "50"[..1] == "5";
  }

  lemma FiftyThousandKm()
    ensures ParseDigits("50.000 km") == Some(50000)
  {
    FiftyThousandKmDigits();
    Dec50000();
    ParseDigitsOf("50.000 km", "50000");
  }

  /** `parseInt("50.000 km")` stops at the thousands separator. */
  lemma FiftyThousandKmLeading()
    ensures ParseIntLeading("50.000 km") == Some(50)
  {
    var s := "50.000 km";
    assert TrimStart(s) == s by { assert !IsJsSpace(s[0]); }
    assert s == "50" + ".000 km";
    LeadingDigitsStop("50", ".000 km");
    assert Dec("50") == 50 by { assert "50"[..1] == "5"; }
    LeadingRead(s, "50");
  }

  lemma SixtyThousandKmDigits()
    ensures KeepDigits("60.000 km") == "60000"
  {
    assert "60.000 km" == "60" + ".000" + " km";
    NoDigitInKm();
    ThousandsDigits("60", " km");
    assert "60" + "000" == "60000";
  }

  lemma Dec60000()
    ensures Dec("60000") == 60000
  {
    assert "60000"[..4] == "6000";
    assert "6000"[..3] == "600";
    assert "600"[..2] == "60";
    assert "60"[..1] == "6";
  }

  lemma SixtyThousandKm()
    ensures ParseDigits("60.000 km") == Some(60000)
  {
    SixtyThousandKmDigits();
    Dec60000();
    ParseDigitsOf("60.000 km", "60000");
  }

  lemma NoDigitInEuro()
    ensures !HasDigit("\U{20AC}")
  {
  }

  lemma TwelveThousandEurosDigits()
    ensures KeepDigits("12.000\U{20AC}") == "12000"
  {
    assert "12.000\U{20AC}" == "12" + ".000" + "\U{20AC}";
    NoDigitInEuro();
    ThousandsDigits("12", "\U{20AC}");
    assert "12" + "000" == "12000";
  }

  lemma Dec12000()
    ensures Dec("12000") == 12000
  {
    assert "12000"[..4] == "1200";
    assert "1200"[..3] == "120";
    assert "120"[..2] == "12";
    assert "12"[..1] == "1";
  }

  lemma TwelveThousandEuros()
    ensures ParsePrice("12.000\U{20AC}") == Some(12000.0)
  {
    TwelveThousandEurosDigits();
    Dec12000();
    EuroPrice("12.000\U{20AC}", 12000);
  }

  lemma TenThousandEurosDigits()
    ensures KeepDigits("10.000\U{20AC}") == "10000"
  {
    assert "10.000\U{20AC}" == "10" + ".000" + "\U{20AC}";
    NoDigitInEuro();
    ThousandsDigits("10", "\U{20AC}");
    assert "10" + "000" == "10000";
  }

  lemma Dec10000()
    ensures Dec("10000") == 10000
  {
    assert "10000"[..4] == "1000";
    assert "1000"[..3] == "100";
    assert "100"[..2] == "10";
    assert "10"[..1] == "1";
  }

  lemma TenThousandEuros()
    ensures ParsePrice("10.000\U{20AC}") == Some(10000.0)
  {
    TenThousandEurosDigits();
    Dec10000();
    EuroPrice("10.000\U{20AC}", 10000);
  }
  const Leon2016 := Car("SEAT", "LEON", "", 2016, "50.000 km", "12.000\U{20AC}", "diesel")
  const Leon2017 := Car("SEAT", "LEON", "", 2017, "60.000 km", "10.000\U{20AC}", "diesel")
  const Leon2018 := Car("SEAT", "LEON", "", 2018, "50.000 km", "12.000\U{20AC}", "diesel")

  /** A 2018 diesel SEAT LEON with 50,000 km. */
  const LeonRequest := Request(Some("SEAT"), Some("LEON"), Some(2018), Some(50000), Some("diesel"))

  lemma DieselIsDiesel()
    ensures FuelPercent("diesel") == -5
  {
    assert Lower("diesel") == "diesel";
  }

  /** Diesel takes five per cent off; each whole 10,000 km of gap one more. */
  lemma DieselPrices()
    ensures AdjustedPrice(12000.0, 0, "diesel") == 11400.0
    ensures AdjustedPrice(10000.0, 10000, "diesel") == 9400.0
  {
    DieselIsDiesel();
  }

  lemma LeonValuations()
    ensures Valuation(Leon2018, 50000, "diesel") == Some(11400)
    ensures Valuation(Leon2016, 50000, "diesel") == Some(11400)
    ensures Valuation(Leon2017, 50000, "diesel") == Some(9400)
  {
    TwelveThousandEuros();
    TenThousandEuros();
    FiftyThousandKm();
    SixtyThousandKm();
    DieselPrices();
    ValuationFrom(Leon2018, 50000, "diesel", 12000.0, 50000);
    ValuationFrom(Leon2016, 50000, "diesel", 12000.0, 50000);
    ValuationFrom(Leon2017, 50000, "diesel", 10000.0, 60000);
    assert Round(11400.0) == 11400;
    assert Round(9400.0) == 9400;
  }

  /** One listing with the same year and mileage: the diesel discount alone, 12,000 less five per cent. */
  lemma SingleListingExample()
    ensures Tasar([Leon2018], LeonRequest) == Valued(Quote(Some(11400), LeonRequest, Leon2018))
  {
    var q := QueryOf(LeonRequest);
    assert Comparable(Leon2018, q);
    assert Comparables([Leon2018], q) == [Leon2018];
    LeonValuations();
  }

  /**
    The as-written scan keeps the first listing until a later one is closer in
    year and, compared against the incumbent's mileage read only up to its
    thousands separator (50 km), closer in mileage. The 2017 listing, 10,000 km
    away, displaces the 2016 listing whose mileage matches the request exactly.
   */
  lemma IncumbentMileageQuirk()
    ensures KmDiff(Leon2016, QueryOf(LeonRequest)) == Some(0)
    ensures KmDiff(Leon2017, QueryOf(LeonRequest)) == Some(10000)
    ensures SelectReference(Gaps([Leon2016, Leon2017], QueryOf(LeonRequest), false)) == Some(1)
    ensures SelectReference(Gaps([Leon2016, Leon2017], QueryOf(LeonRequest), true)) == Some(0)
  {
    var q := QueryOf(LeonRequest);
    LeonGaps();
    TwoListingScan(Gaps([Leon2016, Leon2017], q, false));
    TwoListingScan(Gaps([Leon2016, Leon2017], q, true));
  }

  lemma LeonGaps()
    ensures var q := QueryOf(LeonRequest);
            GapOf(Leon2016, q, false) == Gap(2, Some(0), Some(49950))
            && GapOf(Leon2016, q, true) == Gap(2, Some(0), Some(0))
            && GapOf(Leon2017, q, false).year == 1 && GapOf(Leon2017, q, false).km == Some(10000)
            && GapOf(Leon2017, q, true).year == 1 && GapOf(Leon2017, q, true).km == Some(10000)
  {
    FiftyThousandKm();
    FiftyThousandKmLeading();
    SixtyThousandKm();
  }

  /** End to end: the request is valued at 9,400 from the 2017 listing rather than 11,400 from the exact match. */
  lemma QuirkChangesTheQuote()
    ensures Tasar([Leon2016, Leon2017], LeonRequest) == Valued(Quote(Some(9400), LeonRequest, Leon2017))
    ensures TasarCorrected([Leon2016, Leon2017], LeonRequest) == Valued(Quote(Some(11400), LeonRequest, Leon2016))
  {
    var q := QueryOf(LeonRequest);
    assert Comparable(Leon2016, q) && Comparable(Leon2017, q);
    assert Comparables([Leon2016, Leon2017], q) == [Leon2016, Leon2017];
    IncumbentMileageQuirk();
    LeonValuations();
  }
}
