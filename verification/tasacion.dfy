/**
  `POST /api/tasacion`: validate the five request fields, keep the listings of
  the same brand, model and fuel (case-insensitively), pick one reference
  listing by a single scan, and price the request from the reference's price,
  the mileage gap and the fuel type.
 */
module Tasacion {
  import opened JsText
  import opened JsNumber
  import opened Seqs
  import opened Catalog

  /**
    The request body. An absent field is `None`; the year and mileage are
    taken to arrive as integers.
   */
  datatype Request = Request(
    marca: Option<string>,
    modelo: Option<string>,
    anio: Option<int>,
    kilometros: Option<int>,
    combustible: Option<string>)

  /** A request whose five fields are all present and truthy. */
  datatype Query = Query(marca: string, modelo: string, anio: int, kilometros: int, combustible: string)

  /** JavaScript truthiness of a string field: present and not `''`. */
  predicate FilledText(f: Option<string>) {
    f.Some? && f.value != ""
  }

  /** JavaScript truthiness of a number field: present and not `0`. */
  predicate FilledNumber(f: Option<int>) {
    f.Some? && f.value != 0
  }

  predicate Complete(req: Request) {
    FilledText(req.marca) && FilledText(req.modelo) && FilledNumber(req.anio)
    && FilledNumber(req.kilometros) && FilledText(req.combustible)
  }

  function QueryOf(req: Request): Query
    requires Complete(req)
  {
    Query(req.marca.value, req.modelo.value, req.anio.value, req.kilometros.value, req.combustible.value)
  }

  datatype Failure = MissingData | NoComparables | NoClosest

  /** The HTTP status each failure is answered with. */
  function Status(f: Failure): int {
    match f
    case MissingData => 400
    case NoComparables => 404
    case NoClosest => 404
  }

  /** The `error` text each failure is answered with. */
  function Message(f: Failure): string {
    match f
    case MissingData => "Faltan datos para la tasaci\U{00F3}n."
    case NoComparables => "No se encontraron coches similares para tasar."
    case NoClosest => "No se pudo encontrar un coche similar para tasar."
  }

  /** The success body: the rounded price (`None` where JavaScript has NaN, sent as `null`), the echoed request and the reference listing. */
  datatype Quote = Quote(tasacion: Option<int>, detalles: Request, cocheSimilar: Car)

  datatype Response = Valued(quote: Quote) | Refused(failure: Failure)

  /** Same brand, model and fuel as the query, ignoring case. */
  predicate Comparable(c: Car, q: Query) {
    Lower(c.marca) == Lower(q.marca) && Lower(c.modelo) == Lower(q.modelo)
    && Lower(c.combustible) == Lower(q.combustible)
  }

  function IsComparable(q: Query): Car -> bool {
    (c: Car) => Comparable(c, q)
  }

  /** The comparable listings, in catalogue order. */
  function Comparables(cars: seq<Car>, q: Query): (r: seq<Car>)
    ensures forall c :: c in r <==> c in cars && Comparable(c, q)
    ensures |r| == 0 <==> forall i :: 0 <= i < |cars| ==> !Comparable(cars[i], q)
  {
    var r := Filter(cars, IsComparable(q));
    assert |r| > 0 ==> r[0] in r;
    r
  }

  function YearDiff(c: Car, q: Query): nat {
    Abs(c.anio - q.anio)
  }

  /** A candidate's mileage gap: its mileage read with every non-digit stripped. */
  function KmDiff(c: Car, q: Query): (r: Option<nat>)
    ensures r.None? <==> !HasDigit(c.kilometros)
  {
    match ParseDigits(c.kilometros)
    case None => None
    case Some(v) => Some(Abs(v - q.kilometros))
  }

  /** A candidate's gap is measured from the number its digits-only reading gives. */
  lemma CandidateFromReading(c: Car, q: Query, v: int)
    requires ParseDigits(c.kilometros) == Some(v)
    ensures KmDiff(c, q) == Some(Abs(v - q.kilometros))
  {
  }

  /**
    The same for any stored mileage with a digit: the gap is measured from the
    value of all its digits taken together, so `"50.000 km"` counts as 50000.
    The parameter `v` is just `Dec(KeepDigits(c.kilometros))`; it is passed in
    so that the conclusion need not unfold `Dec`.
   */
  lemma CandidateReadsAllDigits(c: Car, q: Query, v: nat)
    requires HasDigit(c.kilometros) && v == Dec(KeepDigits(c.kilometros))
    ensures KmDiff(c, q) == Some(Abs(v - q.kilometros))
  {
    ParseDigitsOf(c.kilometros, KeepDigits(c.kilometros));
    CandidateFromReading(c, q, v);
  }

  /**
    The incumbent's mileage gap. As written, the incumbent's mileage is read
    with a plain `parseInt` of the stored string, which stops at the first
    thousands separator; `consistent` reads it the way candidates are read.
   */
  function IncumbentKmDiff(c: Car, q: Query, consistent: bool): (r: Option<nat>)
    ensures consistent ==> r == KmDiff(c, q)
    ensures !consistent ==> (r.Some? <==> ParseIntLeading(c.kilometros).Some?)
  {
    var read := if consistent then ParseDigits(c.kilometros) else ParseIntLeading(c.kilometros);
    match read
    case None => None
    case Some(v) => Some(Abs(v - q.kilometros))
  }

  /**
    As written, a stored mileage that opens with a digit run `a` followed by
    anything that does not continue the run (a thousands separator, a unit)
    counts as `a` alone when the listing is the incumbent. The parameter `v`
    is just `Dec(a)`, the run's value; it is passed in so that the conclusion
    need not unfold `Dec`.
   */
  lemma IncumbentReadsLeadingRun(c: Car, q: Query, a: string, b: string, v: nat)
    requires AllDigits(a) && |a| > 0 && v == Dec(a)
    requires |b| == 0 || !IsDigit(b[0])
    requires c.kilometros == a + b
    ensures IncumbentKmDiff(c, q, false) == Some(Abs(v - q.kilometros))
  {
    ParseIntLeadingRun(a, b);
    IncumbentFromReading(c, q, v);
  }

  /**
    The same for a mileage written as the digits of a number `n` followed by
    a separator: "50.000 km" counts as 50 when the listing is the incumbent.
   */
  lemma IncumbentReadsNumber(c: Car, q: Query, n: nat, b: string)
    requires |b| == 0 || !IsDigit(b[0])
    requires c.kilometros == NatDigits(n) + b
    ensures IncumbentKmDiff(c, q, false) == Some(Abs(n - q.kilometros))
  {
    DecNatDigits(n);
    IncumbentReadsLeadingRun(c, q, NatDigits(n), b, n);
  }

  /** As written, the incumbent's gap is measured from whatever number `parseInt` reads. */
  lemma IncumbentFromReading(c: Car, q: Query, v: int)
    requires ParseIntLeading(c.kilometros) == Some(v)
    ensures IncumbentKmDiff(c, q, false) == Some(Abs(v - q.kilometros))
  {
  }

  /**
    How far one comparable listing is from the query: its year gap, its
    mileage gap when it is the candidate, and its mileage gap when it is the
    incumbent. `None` is a NaN gap.
   */
  datatype Gap = Gap(year: nat, km: Option<nat>, incumbentKm: Option<nat>)

  function GapOf(c: Car, q: Query, consistent: bool): Gap {
    Gap(YearDiff(c, q), KmDiff(c, q), IncumbentKmDiff(c, q, consistent))
  }

  /** The gaps of every comparable listing, position by position. */
  function Gaps(cands: seq<Car>, q: Query, consistent: bool): seq<Gap> {
    seq(|cands|, i requires 0 <= i < |cands| => GapOf(cands[i], q, consistent))
  }

  /**
    A candidate displaces the incumbent only when it is strictly closer in
    year and strictly closer in mileage; a NaN gap on either side compares
    false.
   */
  predicate Improves(cand: Gap, inc: Gap) {
    cand.year < inc.year && cand.km.Some? && inc.incumbentKm.Some? && cand.km.value < inc.incumbentKm.value
  }

  /** The rest of the scan, from position `i`, with `best` the current incumbent. */
  function ScanFrom(gs: seq<Gap>, best: nat, i: nat): (r: nat)
    requires best < i <= |gs|
    ensures best <= r < |gs|
    ensures r == best || i <= r
    decreases |gs| - i
  {
    if i == |gs| then best
    else if Improves(gs[i], gs[best]) then ScanFrom(gs, i, i + 1)
    else ScanFrom(gs, best, i + 1)
  }

  /**
    The successive incumbents of the scan: it starts at the first listing,
    each later entry improves on the one before it, nothing between two
    entries improves on the earlier one, and nothing after the last entry
    improves on it.
   */
  predicate Chain(gs: seq<Gap>, ks: seq<nat>) {
    && |ks| > 0 && ks[0] == 0
    && (forall t :: 0 <= t < |ks| ==> ks[t] < |gs|)
    && (forall t :: 0 <= t < |ks| - 1 ==> Link(gs, ks, t))
    && forall j :: ks[|ks| - 1] < j < |gs| ==> !Improves(gs[j], gs[ks[|ks| - 1]])
  }

  /**
    Entry `t + 1` of `ks` is a later listing that improves on entry `t`, and
    no listing between the two improves on entry `t`.
   */
  predicate Link(gs: seq<Gap>, ks: seq<nat>, t: int) {
    && 0 <= t && t + 1 < |ks| && ks[t] < ks[t + 1] < |gs|
    && Improves(gs[ks[t + 1]], gs[ks[t]])
    && forall j :: ks[t] < j < ks[t + 1] ==> !Improves(gs[j], gs[ks[t]])
  }

  /**
    The reference listing's position: the first comparable listing is taken,
    and each later one replaces the incumbent when it improves on it. Every
    non-empty list of gaps has an improvement chain, and the reference is the
    last entry of any such chain, which pins it down.
   */
  function SelectReference(gs: seq<Gap>): (r: Option<nat>)
    ensures r.None? <==> |gs| == 0
    ensures r.Some? ==> r.value < |gs|
    ensures r.Some? ==> forall j :: r.value < j < |gs| ==> !Improves(gs[j], gs[r.value])
    ensures |gs| > 0 && (forall j :: 0 < j < |gs| ==> !Improves(gs[j], gs[0])) ==> r == Some(0)
    ensures |gs| > 0 ==> exists ks :: Chain(gs, ks)
    ensures forall ks :: Chain(gs, ks) ==> r == Some(ks[|ks| - 1])
  {
    if |gs| == 0 then None
    else
      var k := ScanFrom(gs, 0, 1);
      var ks := Incumbents(gs);
      assert |ks| > 1 ==> Link(gs, ks, 0);
      assert forall ks :: Chain(gs, ks) ==> k == ks[|ks| - 1] by {
        forall ks | Chain(gs, ks) ensures k == ks[|ks| - 1] {
          if |ks| > 1 { assert Link(gs, ks, 0); }
          ScanFollowsChain(gs, ks, 0, 1);
        }
      }
      Some(k)
  }

  /** With two listings the second is the reference exactly when it improves on the first. */
  lemma TwoListingScan(gs: seq<Gap>)
    requires |gs| == 2
    ensures SelectReference(gs) == if Improves(gs[1], gs[0]) then Some(1) else Some(0)
  {
  }

  /** Scanning on from inside an improvement chain ends at the chain's last entry. */
  lemma {:induction false} ScanFollowsChain(gs: seq<Gap>, ks: seq<nat>, t: nat, i: nat)
    requires Chain(gs, ks) && t < |ks|
    requires ks[t] < i <= |gs|
    requires t + 1 < |ks| ==> i <= ks[t + 1]
    ensures ScanFrom(gs, ks[t], i) == ks[|ks| - 1]
    decreases |gs| - i
  {
    if i < |gs| {
      if Improves(gs[i], gs[ks[t]]) {
        ChainNext(gs, ks, t, i);
        assert ScanFrom(gs, ks[t], i) == ScanFrom(gs, ks[t + 1], i + 1);
        if t + 2 < |ks| { assert Link(gs, ks, t + 1); }
        ScanFollowsChain(gs, ks, t + 1, i + 1);
      } else {
        ChainSkip(gs, ks, t, i);
        assert ScanFrom(gs, ks[t], i) == ScanFrom(gs, ks[t], i + 1);
        ScanFollowsChain(gs, ks, t, i + 1);
      }
    } else {
      ChainEnd(gs, ks, t);
      assert ScanFrom(gs, ks[t], i) == ks[t];
    }
  }

  /** A listing that improves on a chain entry is the chain's next entry. */
  lemma ChainNext(gs: seq<Gap>, ks: seq<nat>, t: nat, i: nat)
    requires Chain(gs, ks) && t < |ks|
    requires ks[t] < i < |gs| && (t + 1 < |ks| ==> i <= ks[t + 1])
    requires Improves(gs[i], gs[ks[t]])
    ensures t + 1 < |ks| && i == ks[t + 1]
  {
    if t + 1 < |ks| {
      assert Link(gs, ks, t);
    }
  }

  /** A listing that does not improve on a chain entry comes before the next entry. */
  lemma ChainSkip(gs: seq<Gap>, ks: seq<nat>, t: nat, i: nat)
    requires Chain(gs, ks) && t < |ks|
    requires ks[t] < i < |gs| && (t + 1 < |ks| ==> i <= ks[t + 1])
    requires !Improves(gs[i], gs[ks[t]])
    ensures t + 1 < |ks| ==> i < ks[t + 1]
  {
    if t + 1 < |ks| {
      assert Link(gs, ks, t);
    }
  }

  /** A chain entry with no listing left after it is the last entry. */
  lemma ChainEnd(gs: seq<Gap>, ks: seq<nat>, t: nat)
    requires Chain(gs, ks) && t < |ks| && ks[t] < |gs|
    requires t + 1 < |ks| ==> |gs| <= ks[t + 1]
    ensures t == |ks| - 1
  {
  }

  /**
    `ks` is a run of incumbents as the scan from position `i` on sees them:
    every step improves, and no position from `i` on that the scan passes over
    improves on the incumbent of its time.
   */
  predicate Steps(gs: seq<Gap>, ks: seq<nat>, i: nat) {
    && |ks| > 0
    && (forall t :: 0 <= t < |ks| ==> ks[t] < |gs|)
    && (forall t :: 0 < t < |ks| ==> i <= ks[t])
    && (forall t :: 0 <= t < |ks| - 1 ==>
          && ks[t] < ks[t + 1]
          && Improves(gs[ks[t + 1]], gs[ks[t]])
          && forall j :: ks[t] < j < ks[t + 1] && i <= j ==> !Improves(gs[j], gs[ks[t]]))
    && forall j :: ks[|ks| - 1] < j < |gs| && i <= j ==> !Improves(gs[j], gs[ks[|ks| - 1]])
  }

  /** A listing that improves on the incumbent becomes the next entry. */
  lemma StepsPrepend(gs: seq<Gap>, best: nat, i: nat, rest: seq<nat>)
    requires best < i < |gs| && Improves(gs[i], gs[best])
    requires Steps(gs, rest, i + 1) && rest[0] == i
    ensures Steps(gs, [best] + rest, i)
  {
    var ks := [best] + rest;
    assert forall t :: 0 < t < |ks| ==> ks[t] == rest[t - 1];
  }

  /** A listing that does not improve on the incumbent leaves the run as it is. */
  lemma StepsSkip(gs: seq<Gap>, best: nat, i: nat, ks: seq<nat>)
    requires best < i < |gs| && !Improves(gs[i], gs[best])
    requires Steps(gs, ks, i + 1) && ks[0] == best
    ensures Steps(gs, ks, i)
  {
  }

  /** The incumbents of the scan from position `i` on, starting with `best`. */
  function ChainFrom(gs: seq<Gap>, best: nat, i: nat): (ks: seq<nat>)
    requires best < i <= |gs|
    ensures Steps(gs, ks, i) && ks[0] == best
    decreases |gs| - i
  {
    if i == |gs| then [best]
    else if Improves(gs[i], gs[best]) then
      var rest := ChainFrom(gs, i, i + 1);
      StepsPrepend(gs, best, i, rest);
      [best] + rest
    else
      var ks := ChainFrom(gs, best, i + 1);
      StepsSkip(gs, best, i, ks);
      ks
  }

  /** Every non-empty list of gaps has an improvement chain. */
  function Incumbents(gs: seq<Gap>): (ks: seq<nat>)
    requires |gs| > 0
    ensures Chain(gs, ks)
  {
    ChainFrom(gs, 0, 1)
  }

  /** The percentage the fuel type adds to the base price. */
  function FuelPercent(combustible: string): (pct: int)
    ensures -5 <= pct <= 5
    ensures Lower(combustible) == "diesel" <==> pct == -5
  {
    var f := Lower(combustible);
    if f == "diesel" then -5
    else if f == "gasolina" then 3
    else if f == "el\U{00E9}ctrico" then 5
    else if f == "h\U{00ED}brido" then 2
    else 0
  }

  /**
    The price adjustment step by step: one per cent of the base price off for
    each whole 10,000 km of mileage gap, then the fuel percentage of the base
    price, then a floor at zero. Every percentage is of the base price, so the
    adjustments add up rather than compound.
   */
  function AdjustedPrice(base: real, kmGap: nat, combustible: string): (p: real)
    ensures p >= 0.0
    ensures var flat := Percent(base, 100 - kmGap / 10000 + FuelPercent(combustible));
            p == if flat < 0.0 then 0.0 else flat
  {
    var steps := kmGap / 10000;
    var afterKm := base - steps as real * 0.01 * base;
    var afterFuel := FuelAdjusted(afterKm, base, combustible);
    var pct := FuelPercent(combustible);
    assert afterFuel == Percent(base, 100 - steps + pct) by { FlatSum(base, steps, pct); }
    if afterFuel < 0.0 then 0.0 else afterFuel
  }

  /** `pct` per cent of `base`. */
  function Percent(base: real, pct: int): real {
    base * pct as real / 100.0
  }

  /** The fuel step: the running price moved by the fuel's percentage of the base price. */
  function FuelAdjusted(price: real, base: real, combustible: string): (p: real)
    ensures p == price + Percent(base, FuelPercent(combustible))
  {
    var f := Lower(combustible);
    if f == "diesel" then price - 0.05 * base
    else if f == "gasolina" then price + 0.03 * base
    else if f == "el\U{00E9}ctrico" then price + 0.05 * base
    else if f == "h\U{00ED}brido" then price + 0.02 * base
    else price
  }

  /** One per cent per step and the fuel percentage, both of the base, add up to a single factor. */
  lemma FlatSum(base: real, steps: int, pct: int)
    ensures base - steps as real * 0.01 * base + Percent(base, pct) == Percent(base, 100 - steps + pct)
  {
  }

  /** A larger mileage gap never raises the price. */
  lemma GapNeverRaisesPrice(base: real, gap1: nat, gap2: nat, combustible: string)
    requires base >= 0.0 && gap1 <= gap2
    ensures AdjustedPrice(base, gap2, combustible) <= AdjustedPrice(base, gap1, combustible)
  {
    var pct := FuelPercent(combustible);
    PercentMonotone(base, 100 - gap2 / 10000 + pct, 100 - gap1 / 10000 + pct);
  }

  /** A smaller percentage of a non-negative base is no larger. */
  lemma PercentMonotone(base: real, lo: int, hi: int)
    requires base >= 0.0 && lo <= hi
    ensures Percent(base, lo) <= Percent(base, hi)
  {
    assert base * (hi - lo) as real >= 0.0;
  }

  /**
    The rounded price for the query's mileage and fuel against a reference
    listing; NaN (`None`) when the reference's price or mileage has no digit.
    The year does not enter the price.
   */
  function Valuation(ref: Car, kilometros: int, combustible: string): (r: Option<int>)
    ensures r.Some? ==> r.value >= 0
    ensures r.None? <==> ParsePrice(ref.precio).None? || !HasDigit(ref.kilometros)
  {
    match (ParsePrice(ref.precio), ParseDigits(ref.kilometros))
    case (Some(base), Some(d)) => Some(Round(AdjustedPrice(base, Abs(kilometros - d), combustible)))
    case _ => None
  }

  /** The valuation from the two readings of the reference listing. */
  lemma ValuationFrom(ref: Car, kilometros: int, combustible: string, base: real, d: int)
    requires ParsePrice(ref.precio) == Some(base) && ParseDigits(ref.kilometros) == Some(d)
    ensures Valuation(ref, kilometros, combustible) == Some(Round(AdjustedPrice(base, Abs(kilometros - d), combustible)))
  {
  }

  /** The endpoint, with the incumbent's mileage read as written (`consistent` false) or like a candidate's. */
  function Answer(cars: seq<Car>, req: Request, consistent: bool): (r: Response)
    ensures r == Refused(MissingData) <==> !Complete(req)
    ensures r == Refused(NoComparables) <==>
              Complete(req) && forall i :: 0 <= i < |cars| ==> !Comparable(cars[i], QueryOf(req))
    ensures r != Refused(NoClosest)
    ensures Complete(req) && (exists i :: 0 <= i < |cars| && Comparable(cars[i], QueryOf(req))) ==> r.Valued?
    ensures r.Valued? ==> Complete(req) && r.quote.detalles == req
    ensures r.Valued? ==> r.quote.cocheSimilar in cars && Comparable(r.quote.cocheSimilar, QueryOf(req))
    ensures r.Valued? ==> r.quote.tasacion == Valuation(r.quote.cocheSimilar, req.kilometros.value, req.combustible.value)
    ensures r.Valued? ==> var cands := Comparables(cars, QueryOf(req));
              var gs := Gaps(cands, QueryOf(req), consistent);
              forall ks :: Chain(gs, ks) ==> cands[ks[|ks| - 1]] == r.quote.cocheSimilar
  {
    if !Complete(req) then Refused(MissingData)
    else
      var q := QueryOf(req);
      var cands := Comparables(cars, q);
      if |cands| == 0 then Refused(NoComparables)
      else
        match SelectReference(Gaps(cands, q, consistent))
        case None => Refused(NoClosest)
        case Some(k) =>
          var ref := cands[k];
          assert ref in cands;
          Valued(Quote(Valuation(ref, q.kilometros, q.combustible), req, ref))
  }

  /** `POST /api/tasacion` as written. */
  function Tasar(cars: seq<Car>, req: Request): (r: Response)
    ensures r == Refused(MissingData) <==> !Complete(req)
    ensures r == Refused(NoComparables) <==>
              Complete(req) && forall i :: 0 <= i < |cars| ==> !Comparable(cars[i], QueryOf(req))
    ensures r != Refused(NoClosest)
    ensures Complete(req) && (exists i :: 0 <= i < |cars| && Comparable(cars[i], QueryOf(req))) ==> r.Valued?
    ensures r.Valued? ==> Complete(req) && r.quote.detalles == req
    ensures r.Valued? ==> r.quote.cocheSimilar in cars && Comparable(r.quote.cocheSimilar, QueryOf(req))
    ensures r.Valued? ==> r.quote.tasacion == Valuation(r.quote.cocheSimilar, req.kilometros.value, req.combustible.value)
    ensures r.Valued? && r.quote.tasacion.Some? ==> r.quote.tasacion.value >= 0
    ensures r.Valued? ==> var cands := Comparables(cars, QueryOf(req));
              var gs := Gaps(cands, QueryOf(req), false);
              forall ks :: Chain(gs, ks) ==> cands[ks[|ks| - 1]] == r.quote.cocheSimilar
  {
    Answer(cars, req, false)
  }

  /** Gaps measured with both mileages read the same way. */
  predicate Consistent(gs: seq<Gap>) {
    forall i :: 0 <= i < |gs| ==> gs[i].incumbentKm == gs[i].km
  }

  /** `b` is at least as close as `a` in year, and in mileage whenever `a`'s mileage gap is a number. */
  predicate NoFarther(b: Gap, a: Gap) {
    b.year <= a.year && (a.km.Some? ==> b.km.Some? && b.km.value <= a.km.value)
  }

  /**
    With both mileages read the same way, every replacement is strictly closer
    in year and in mileage, so the scan's choice is never farther than the
    listing it started from in either respect.
   */
  lemma {:induction false} ConsistentScanNeverWorsens(gs: seq<Gap>, best: nat, i: nat)
    requires best < i <= |gs| && Consistent(gs)
    ensures NoFarther(gs[ScanFrom(gs, best, i)], gs[best])
    decreases |gs| - i
  {
    if i < |gs| {
      if Improves(gs[i], gs[best]) {
        ConsistentScanNeverWorsens(gs, i, i + 1);
        assert gs[best].incumbentKm == gs[best].km;
      } else {
        ConsistentScanNeverWorsens(gs, best, i + 1);
      }
    }
  }

  /** The corrected scan: its reference is at least as close as the first comparable listing in year and in mileage. */
  lemma CorrectedReferenceNoFarther(cands: seq<Car>, q: Query)
    requires |cands| > 0
    ensures var gs := Gaps(cands, q, true);
            NoFarther(gs[SelectReference(gs).value], gs[0])
  {
    var gs := Gaps(cands, q, true);
    assert Consistent(gs);
    if |cands| > 1 {
      ConsistentScanNeverWorsens(gs, 0, 1);
    }
  }

  /** `POST /api/tasacion` with the incumbent's mileage read like every candidate's. */
  function TasarCorrected(cars: seq<Car>, req: Request): (r: Response)
    ensures r == Refused(MissingData) <==> !Complete(req)
    ensures r == Refused(NoComparables) <==>
              Complete(req) && forall i :: 0 <= i < |cars| ==> !Comparable(cars[i], QueryOf(req))
    ensures r != Refused(NoClosest)
    ensures Complete(req) && (exists i :: 0 <= i < |cars| && Comparable(cars[i], QueryOf(req))) ==> r.Valued?
    ensures r.Valued? ==> Complete(req) && r.quote.detalles == req
    ensures r.Valued? ==> r.quote.cocheSimilar in cars && Comparable(r.quote.cocheSimilar, QueryOf(req))
    ensures r.Valued? ==> r.quote.tasacion == Valuation(r.quote.cocheSimilar, req.kilometros.value, req.combustible.value)
    ensures r.Valued? ==> var cands := Comparables(cars, QueryOf(req));
              var gs := Gaps(cands, QueryOf(req), true);
              forall ks :: Chain(gs, ks) ==> cands[ks[|ks| - 1]] == r.quote.cocheSimilar
    ensures r.Valued? ==> var q := QueryOf(req); var first := Comparables(cars, q)[0];
              NoFarther(GapOf(r.quote.cocheSimilar, q, true), GapOf(first, q, true))
  {
    var r := Answer(cars, req, true);
    if r.Valued? then
      var q := QueryOf(req);
      var cands := Comparables(cars, q);
      CorrectedReferenceNoFarther(cands, q);
      r
    else r
  }
}
