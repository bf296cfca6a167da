/**
  The listing normaliser: every raw listing's free-text `name` becomes a
  brand (`marca`), a model (`modelo`) and a canonical version string
  (`version`), added to the listing with every other field kept.
 */
module ProcessCars {
  import opened JsText

  /** The multi-word brands, tried in this order as prefixes of the normalised name. */
  const MarcasCompuestas: seq<string> :=
    ["ALFA ROMEO", "ASTON MARTIN", "LAND ROVER", "ROLLS ROYCE", "MERCEDES BENZ"]

  /** Canonical display spellings of upper-cased version tokens. */
  const VersionesEstandar: map<string, string> :=
    map[
      "200" := "200",
      "180" := "180",
      "PURETECH" := "PureTech",
      "BLUEDCI" := "BlueDCI",
      "TDI" := "TDI",
      "ECOBOOST" := "EcoBoost",
      "STSP" := "Start&Stop"
    ]

  // ---------------------------------------------------------------------
  // Brand rewrite
  // ---------------------------------------------------------------------

  /** The character class `[-_ ]` of the brand rewrite. */
  predicate IsBrandSeparator(c: char) {
    c == '-' || c == '_' || c == ' '
  }

  /** `MERCEDES[-_ ]BENZ` matches at position `i` of `u`. */
  predicate MercedesAt(u: string, i: int) {
    && 0 <= i && i + 13 <= |u|
    && u[i..i + 8] == "MERCEDES"
    && IsBrandSeparator(u[i + 8])
    && u[i + 9..i + 13] == "BENZ"
  }

  /** Position `k` is the separator of some match, the one character a rewrite may change. */
  predicate RewrittenSeparator(u: string, k: int) {
    k >= 8 && MercedesAt(u, k - 8)
  }

  /** A match starts with `M` and contains no other `M`, so two matches never overlap. */
  lemma MatchesDoNotOverlap(u: string, i: int, j: int)
    ensures !(MercedesAt(u, i) && MercedesAt(u, j) && i < j < i + 13)
  {
    if MercedesAt(u, i) && i < j < i + 13 && 0 <= j && j + 13 <= |u| {
      assert u[j..j + 8][0] == u[j];
      if j - i < 8 {
        assert u[j] == u[i..i + 8][j - i];
      } else if j - i > 8 {
        assert u[j] == u[i + 9..i + 13][j - i - 9];
      }
    }
  }

  /** Matches read the same in a suffix of the string, shifted by the cut. */
  lemma MercedesAtShift(u: string, d: nat, j: int)
    requires d <= |u| && j >= 0
    ensures MercedesAt(u[d..], j) <==> MercedesAt(u, j + d)
  {
    if j + 13 <= |u| - d {
      assert u[d..][j..j + 8] == u[j + d..j + d + 8];
      assert u[d..][j + 9..j + 13] == u[j + d + 9..j + d + 13];
    }
  }

  /**
    `u.replace(/MERCEDES[-_ ]BENZ/g, 'MERCEDES BENZ')`, a left-to-right scan.
    Only the separator of each match changes, and it becomes a space.
   */
  function ReplaceMercedes(u: string): (r: string)
    ensures |r| == |u|
    ensures forall k :: 0 <= k < |u| ==> r[k] == (if RewrittenSeparator(u, k) then ' ' else u[k])
    decreases |u|
  {
    if |u| >= 13 && MercedesAt(u, 0) then
      var tail := ReplaceMercedes(u[13..]);
      var r := "MERCEDES BENZ" + tail;
      assert forall k :: 0 <= k < |u| ==> r[k] == (if RewrittenSeparator(u, k) then ' ' else u[k]) by {
        forall k | 0 <= k < |u|
          ensures r[k] == (if RewrittenSeparator(u, k) then ' ' else u[k])
        {
          if k < 13 {
            MatchedChar(u, k);
          } else {
            AfterMatchChar(u, tail, k);
          }
        }
      }
      r
    else if |u| == 0 then ""
    else
      var tail := ReplaceMercedes(u[1..]);
      var r := [u[0]] + tail;
      assert forall k :: 0 <= k < |u| ==> r[k] == (if RewrittenSeparator(u, k) then ' ' else u[k]) by {
        forall k | 0 <= k < |u|
          ensures r[k] == (if RewrittenSeparator(u, k) then ' ' else u[k])
        {
          UnmatchedHeadChar(u, tail, k);
        }
      }
      r
  }

  /** Inside a match at the start, only the separator is a rewritten one. */
  lemma MatchedChar(u: string, k: int)
    requires MercedesAt(u, 0) && 0 <= k < 13
    ensures "MERCEDES BENZ"[k] == (if RewrittenSeparator(u, k) then ' ' else u[k])
  {
    if k != 8 && k >= 8 {
      MatchesDoNotOverlap(u, 0, k - 8);
    }
    assert u[..8] == "MERCEDES" && u[9..13] == "BENZ";
    if k < 8 {
      assert u[k] == u[..8][k];
    } else if k > 8 {
      assert u[k] == u[9..13][k - 9];
    }
  }

  /** After a match at the start, the rest is rewritten on its own. */
  lemma AfterMatchChar(u: string, tail: string, k: int)
    requires MercedesAt(u, 0) && 13 <= k < |u|
    requires |tail| == |u| - 13
    requires forall m :: 0 <= m < |tail| ==> tail[m] == (if RewrittenSeparator(u[13..], m) then ' ' else u[13..][m])
    ensures ("MERCEDES BENZ" + tail)[k] == (if RewrittenSeparator(u, k) then ' ' else u[k])
  {
    assert ("MERCEDES BENZ" + tail)[k] == tail[k - 13];
    if k >= 21 {
      MercedesAtShift(u, 13, k - 21);
    } else {
      MatchesDoNotOverlap(u, 0, k - 8);
    }
  }

  /** Without a match at the start, the first character stays and the rest is rewritten on its own. */
  lemma UnmatchedHeadChar(u: string, tail: string, k: int)
    requires |u| > 0 && !MercedesAt(u, 0) && 0 <= k < |u|
    requires |tail| == |u| - 1
    requires forall m :: 0 <= m < |tail| ==> tail[m] == (if RewrittenSeparator(u[1..], m) then ' ' else u[1..][m])
    ensures ([u[0]] + tail)[k] == (if RewrittenSeparator(u, k) then ' ' else u[k])
  {
    if k >= 9 {
      MercedesAtShift(u, 1, k - 9);
    }
  }

  /** Every match, wherever it sits, comes out as `MERCEDES BENZ`. */
  lemma MatchRewritten(u: string, i: int)
    requires MercedesAt(u, i)
    ensures ReplaceMercedes(u)[i..i + 13] == "MERCEDES BENZ"
  {
    var r := ReplaceMercedes(u);
    forall k | 0 <= k < 13 ensures r[i + k] == "MERCEDES BENZ"[k] {
      MatchRewrittenAt(u, i, k);
    }
  }

  lemma MatchRewrittenAt(u: string, i: int, k: int)
    requires MercedesAt(u, i) && 0 <= k < 13
    ensures (if RewrittenSeparator(u, i + k) then ' ' else u[i + k]) == "MERCEDES BENZ"[k]
  {
    MatchesDoNotOverlap(u, i + k - 8, i);
    MatchesDoNotOverlap(u, i, i + k - 8);
    if k < 8 {
      assert u[i + k] == u[i..i + 8][k];
    } else if k > 8 {
      assert u[i + k] == u[i + 9..i + 13][k - 9];
    }
  }

  /** `unificarMarca`: the upper-cased name with the brand rewrite applied. */
  function UnificarMarca(name: string): (r: string)
    ensures |r| == |name|
    ensures forall k :: 0 <= k < |name| ==>
              r[k] == (if RewrittenSeparator(Upper(name), k) then ' ' else UpperChar(name[k]))
    ensures forall i :: MercedesAt(Upper(name), i) ==> r[i..i + 13] == "MERCEDES BENZ"
  {
    var u := Upper(name);
    assert forall i :: MercedesAt(u, i) ==> ReplaceMercedes(u)[i..i + 13] == "MERCEDES BENZ" by {
      forall i | MercedesAt(u, i) ensures ReplaceMercedes(u)[i..i + 13] == "MERCEDES BENZ" {
        MatchRewritten(u, i);
      }
    }
    ReplaceMercedes(u)
  }

  // ---------------------------------------------------------------------
  // Composite brands
  // ---------------------------------------------------------------------

  /** The first entry of `brands` that `s` starts with, if any. */
  function FirstPrefix(brands: seq<string>, s: string): (r: Option<string>)
    ensures r.None? <==> forall i :: 0 <= i < |brands| ==> !StartsWith(s, brands[i])
    ensures r.Some? ==> exists i :: 0 <= i < |brands| && brands[i] == r.value && StartsWith(s, brands[i])
                                    && forall j :: 0 <= j < i ==> !StartsWith(s, brands[j])
  {
    if |brands| == 0 then None
    else if StartsWith(s, brands[0]) then Some(brands[0])
    else
      var r := FirstPrefix(brands[1..], s);
      assert r.Some? ==> exists i :: 0 <= i < |brands| && brands[i] == r.value && StartsWith(s, brands[i])
                                     && forall j :: 0 <= j < i ==> !StartsWith(s, brands[j]) by {
        if r.Some? {
          var i :| 0 <= i < |brands[1..]| && brands[1..][i] == r.value && StartsWith(s, brands[1..][i])
                   && forall j :: 0 <= j < i ==> !StartsWith(s, brands[1..][j]);
          assert brands[i + 1] == r.value;
          forall j | 0 <= j < i + 1 ensures !StartsWith(s, brands[j]) {
            if j > 0 { assert brands[j] == brands[1..][j - 1]; }
          }
        }
      }
      assert r.None? ==> forall i :: 0 <= i < |brands| ==> !StartsWith(s, brands[i]) by {
        if r.None? {
          forall i | 0 <= i < |brands| ensures !StartsWith(s, brands[i]) {
            if i > 0 { assert brands[i] == brands[1..][i - 1]; }
          }
        }
      }
      r
  }

  /** Two different composite brands already differ in their first two letters. */
  lemma CompositesDifferEarly(i: int, j: int)
    requires 0 <= i < |MarcasCompuestas| && 0 <= j < |MarcasCompuestas| && i != j
    ensures MarcasCompuestas[i][..2] != MarcasCompuestas[j][..2]
  {
    var heads := ["AL", "AS", "LA", "RO", "ME"];
    assert forall k :: 0 <= k < |MarcasCompuestas| ==> MarcasCompuestas[k][..2] == heads[k];
  }

  /** No composite brand is a prefix of another, so at most one can match a name. */
  lemma CompositesPrefixFree(s: string, i: int, j: int)
    requires 0 <= i < |MarcasCompuestas| && 0 <= j < |MarcasCompuestas|
    requires StartsWith(s, MarcasCompuestas[i]) && StartsWith(s, MarcasCompuestas[j])
    ensures i == j
  {
    var a := MarcasCompuestas[i];
    var b := MarcasCompuestas[j];
    assert s[..2] == a[..2] by { assert s[..|a|][..2] == s[..2]; }
    assert s[..2] == b[..2] by { assert s[..|b|][..2] == s[..2]; }
    if i != j {
      CompositesDifferEarly(i, j);
    }
  }

  // ---------------------------------------------------------------------
  // Splitting the name
  // ---------------------------------------------------------------------

  /** The three derived fields of one listing. */
  datatype Names = Names(marca: string, modelo: string, version: string)

  /**
    Composite branch: after the brand, the trimmed remainder's first
    `' '`-piece is the model and the other pieces, re-joined, the raw version.
   */
  function SplitComposite(nn: string, c: string): (r: Names)
    requires StartsWith(nn, c)
    ensures r.marca == c && !HasSpace(r.modelo)
    ensures var rest := Trim(nn[|c|..]);
            (rest == r.modelo && r.version == "") || rest == r.modelo + " " + r.version
  {
    var rest := Trim(nn[|c|..]);
    var pieces := Split(rest);
    assert (rest == pieces[0] && Join(pieces[1..]) == "") || rest == pieces[0] + " " + Join(pieces[1..]) by {
      if HasSpace(rest) {
        SplitFirstSpace(rest);
      } else {
        SplitNoSpace(rest);
      }
    }
    Names(c, pieces[0], Join(pieces[1..]))
  }

  /**
    Fallback branch: the first `' '`-piece is the brand, the second the model
    and the rest, re-joined, the raw version; missing pieces are empty.
   */
  function SplitPlain(nn: string): (r: Names)
    ensures !HasSpace(r.marca) && !HasSpace(r.modelo)
    ensures || (nn == r.marca && r.modelo == "" && r.version == "")
            || (nn == r.marca + " " + r.modelo && r.version == "")
            || nn == r.marca + " " + r.modelo + " " + r.version
  {
    var pieces := Split(nn);
    var r := Names(pieces[0], if |pieces| > 1 then pieces[1] else "", if |pieces| > 2 then Join(pieces[2..]) else "");
    assert || (nn == r.marca && r.modelo == "" && r.version == "")
           || (nn == r.marca + " " + r.modelo && r.version == "")
           || nn == r.marca + " " + r.modelo + " " + r.version by {
    if HasSpace(nn) {
      SplitFirstSpace(nn);
      var rest := Join(pieces[1..]);
      assert nn == pieces[0] + " " + rest;
      if |pieces| > 2 {
        assert rest == pieces[1] + " " + Join(pieces[1..][1..]);
        assert pieces[1..][1..] == pieces[2..];
        assert nn == r.marca + " " + r.modelo + " " + r.version;
      } else {
        assert rest == pieces[1];
      }
    } else {
      SplitNoSpace(nn);
    }
    }
    r
  }

  // ---------------------------------------------------------------------
  // Version tokens
  // ---------------------------------------------------------------------

  /** One upper-cased token: its canonical spelling when the table knows it, else itself. */
  function CanonToken(t: string): string {
    if t in VersionesEstandar then VersionesEstandar[t] else t
  }

  lemma TableValuesSpaceFree()
    ensures forall k :: k in VersionesEstandar ==> !HasSpace(VersionesEstandar[k])
  {
    assert VersionesEstandar.Keys == {"200", "180", "PURETECH", "BLUEDCI", "TDI", "ECOBOOST", "STSP"};
  }

  function MapCanon(ts: seq<string>): seq<string> {
    seq(|ts|, i requires 0 <= i < |ts| => CanonToken(ts[i]))
  }

  /**
    `unificarVersion`: the `' '`-pieces keep their number and order, and each
    becomes its upper-cased self or that spelling's table entry.
   */
  function UnificarVersion(v: string): (r: string)
    ensures |Split(r)| == |Split(v)|
    ensures forall i :: 0 <= i < |Split(v)| ==> Split(r)[i] == CanonToken(Upper(Split(v)[i]))
  {
    var pieces := Split(Upper(v));
    var canon := MapCanon(pieces);
    UpperSplit(v);
    TableValuesSpaceFree();
    assert forall i :: 0 <= i < |canon| ==> !HasSpace(canon[i]) by {
      forall i | 0 <= i < |canon| ensures !HasSpace(canon[i]) {
        assert !HasSpace(pieces[i]);
      }
    }
    SplitJoin(canon);
    Join(canon)
  }

  // ---------------------------------------------------------------------
  // One listing
  // ---------------------------------------------------------------------

  /** The body of `cars.map`: brand rewrite, composite or plain split, version tokens. */
  function DeriveNames(name: string): (r: Names)
    ensures var nn := UnificarMarca(name);
            forall i :: 0 <= i < |MarcasCompuestas| && StartsWith(nn, MarcasCompuestas[i]) ==> r.marca == MarcasCompuestas[i]
    ensures var nn := UnificarMarca(name);
            (forall i :: 0 <= i < |MarcasCompuestas| ==> !StartsWith(nn, MarcasCompuestas[i])) ==>
              && r.marca == Split(nn)[0] && r.modelo == (if |Split(nn)| > 1 then Split(nn)[1] else "")
              && r.version == UnificarVersion(if |Split(nn)| > 2 then Join(Split(nn)[2..]) else "")
    ensures var nn := UnificarMarca(name);
            forall i :: 0 <= i < |MarcasCompuestas| && StartsWith(nn, MarcasCompuestas[i]) ==>
              var pieces := Split(Trim(nn[|MarcasCompuestas[i]|..]));
              r.modelo == pieces[0] && r.version == UnificarVersion(Join(pieces[1..]))
    ensures !HasSpace(r.modelo)
  {
    var nn := UnificarMarca(name);
    match FirstPrefix(MarcasCompuestas, nn)
    case Some(c) =>
      assert forall i :: 0 <= i < |MarcasCompuestas| && StartsWith(nn, MarcasCompuestas[i]) ==> c == MarcasCompuestas[i] by {
        forall i | 0 <= i < |MarcasCompuestas| && StartsWith(nn, MarcasCompuestas[i])
          ensures c == MarcasCompuestas[i]
        {
          var k :| 0 <= k < |MarcasCompuestas| && MarcasCompuestas[k] == c && StartsWith(nn, MarcasCompuestas[k]);
          CompositesPrefixFree(nn, i, k);
        }
      }
      var p := SplitComposite(nn, c);
      Names(c, p.modelo, UnificarVersion(p.version))
    case None =>
      var p := SplitPlain(nn);
      Names(p.marca, p.modelo, UnificarVersion(p.version))
  }

  // ---------------------------------------------------------------------
  // Properties of the version tokens
  // ---------------------------------------------------------------------

  /**
    Each table spelling, upper-cased and looked up again, reads back as
    itself, except `Start&Stop`, whose upper-cased form is not a key.
   */
  lemma TableReadBack(k: string)
    requires k in VersionesEstandar
    ensures k != "STSP" ==> CanonToken(Upper(VersionesEstandar[k])) == VersionesEstandar[k]
    ensures k == "STSP" ==> CanonToken(Upper(VersionesEstandar[k])) == "START&STOP"
  {
    TableKeys();
    if k == "STSP" {
      UpperStartStop();
      StartStopNotInTable();
    } else {
      UpperOfTableValues();
      assert VersionesEstandar[k] in {"200", "180", "PureTech", "BlueDCI", "TDI", "EcoBoost"};
    }
  }

  lemma TableKeys()
    ensures VersionesEstandar.Keys == {"200", "180", "PURETECH", "BLUEDCI", "TDI", "ECOBOOST", "STSP"}
  {
  }

  lemma UpperOfTableValues()
    ensures Upper("200") == "200" && Upper("180") == "180" && Upper("TDI") == "TDI"
    ensures Upper("PureTech") == "PURETECH" && Upper("BlueDCI") == "BLUEDCI" && Upper("EcoBoost") == "ECOBOOST"
  {
  }

  /** One token canonicalised twice equals it canonicalised once unless it is `STSP`. */
  lemma CanonTokenTwice(t: string)
    ensures CanonToken(Upper(CanonToken(Upper(t)))) == CanonToken(Upper(t)) <==> Upper(t) != "STSP"
  {
    var u := Upper(t);
    UpperIdempotent(t);
    if u in VersionesEstandar {
      TableReadBack(u);
    } else {
      assert "STSP" in VersionesEstandar;
    }
  }

  /**
    Canonicalising a version string a second time changes it exactly when
    one of its pieces is `STSP` in some letter case: the table turns it into
    `Start&Stop`, which the second pass upper-cases to `START&STOP`.
   */
  lemma UnificarVersionNearlyIdempotent(v: string)
    ensures UnificarVersion(UnificarVersion(v)) == UnificarVersion(v)
            <==> forall i :: 0 <= i < |Split(v)| ==> Upper(Split(v)[i]) != "STSP"
  {
    var ts := Split(v);
    if forall i :: 0 <= i < |ts| ==> Upper(ts[i]) != "STSP" {
      SecondPassKeeps(v);
    } else {
      var i :| 0 <= i < |ts| && Upper(ts[i]) == "STSP";
      SecondPassChanges(v, i);
    }
  }

  /** Piece by piece, the second pass agrees with the first exactly off the `STSP` pieces. */
  lemma SecondPassPieces(v: string)
    ensures var r := UnificarVersion(v);
            |Split(UnificarVersion(r))| == |Split(r)| == |Split(v)|
            && forall i :: 0 <= i < |Split(v)| ==>
                 (Split(UnificarVersion(r))[i] == Split(r)[i] <==> Upper(Split(v)[i]) != "STSP")
  {
    var ts := Split(v);
    forall i | 0 <= i < |ts|
      ensures Split(UnificarVersion(UnificarVersion(v)))[i] == Split(UnificarVersion(v))[i] <==> Upper(ts[i]) != "STSP"
    {
      CanonTokenTwice(ts[i]);
    }
  }

  lemma SecondPassKeeps(v: string)
    requires forall i :: 0 <= i < |Split(v)| ==> Upper(Split(v)[i]) != "STSP"
    ensures UnificarVersion(UnificarVersion(v)) == UnificarVersion(v)
  {
    var r := UnificarVersion(v);
    var r2 := UnificarVersion(r);
    SecondPassPieces(v);
    assert Split(r2) == Split(r);
    assert r2 == Join(Split(r2));
  }

  lemma SecondPassChanges(v: string, i: nat)
    requires i < |Split(v)| && Upper(Split(v)[i]) == "STSP"
    ensures UnificarVersion(UnificarVersion(v)) != UnificarVersion(v)
  {
    var r := UnificarVersion(v);
    var r2 := UnificarVersion(r);
    SecondPassPieces(v);
    assert Split(r2)[i] != Split(r)[i];
  }

  /** A version without spaces is a single piece, canonicalised on its own. */
  lemma UnificarVersionOnePiece(t: string)
    requires !HasSpace(t)
    ensures UnificarVersion(t) == CanonToken(Upper(t))
  {
    SplitNoSpace(t);
    var r := UnificarVersion(t);
    assert Split(r) == [CanonToken(Upper(t))];
  }

  /** `STSP` becomes `Start&Stop` ... */
  lemma StartStopFirstPass()
    ensures UnificarVersion("STSP") == "Start&Stop"
  {
    assert !HasSpace("STSP");
    assert Upper("STSP") == "STSP";
    SpellingReadFromTable("STSP");
  }

  /** A one-piece upper-case version that is a table key becomes the table's spelling. */
  lemma SpellingReadFromTable(t: string)
    requires t in VersionesEstandar && !HasSpace(t) && Upper(t) == t
    ensures UnificarVersion(t) == VersionesEstandar[t]
  {
    UnificarVersionOnePiece(t);
  }

  /** ... and the second pass turns that into `START&STOP`. */
  lemma StartStopSecondPass()
    ensures UnificarVersion("Start&Stop") == "START&STOP"
  {
    assert !HasSpace("Start&Stop");
    UnificarVersionOnePiece("Start&Stop");
    UpperStartStop();
    StartStopNotInTable();
  }

  lemma StartStopNotInTable()
    ensures "START&STOP" !in VersionesEstandar
  {
    TableKeys();
  }

  lemma UpperStartStop()
    ensures Upper("Start&Stop") == "START&STOP"
  {
  }

  // ---------------------------------------------------------------------
  // Properties of the brand
  // ---------------------------------------------------------------------

  /**
    A name that starts with a composite brand in any letter case, or with a
    hyphen/underscore spelling of `MERCEDES BENZ`, gets that composite as its
    brand.
   */
  lemma CompositeBrandWins(name: string, i: int)
    requires 0 <= i < |MarcasCompuestas|
    requires StartsWith(Upper(name), MarcasCompuestas[i])
             || (MarcasCompuestas[i] == "MERCEDES BENZ" && MercedesAt(Upper(name), 0))
    ensures DeriveNames(name).marca == MarcasCompuestas[i]
  {
    var c := MarcasCompuestas[i];
    if i == 4 {
      MercedesPrefixRewritten(name);
    } else {
      OtherCompositeKept(name, i);
    }
    assert StartsWith(UnificarMarca(name), c);
  }

  /** A name opening with any spelling of Mercedes-Benz opens with `MERCEDES BENZ` once unified. */
  lemma MercedesPrefixRewritten(name: string)
    requires StartsWith(Upper(name), "MERCEDES BENZ") || MercedesAt(Upper(name), 0)
    ensures StartsWith(UnificarMarca(name), "MERCEDES BENZ")
  {
    var u := Upper(name);
    var nn := UnificarMarca(name);
    if !MercedesAt(u, 0) {
      assert u[..8] == u[..13][..8];
      assert u[9..13] == u[..13][9..13];
    }
    assert nn[..13] == "MERCEDES BENZ";
  }

  /** The other composite brands hold no `M` early enough to be rewritten, so they survive unification. */
  lemma OtherCompositeKept(name: string, i: int)
    requires 0 <= i < |MarcasCompuestas| && i != 4
    requires StartsWith(Upper(name), MarcasCompuestas[i])
    ensures StartsWith(UnificarMarca(name), MarcasCompuestas[i])
  {
    var u := Upper(name);
    var nn := UnificarMarca(name);
    var c := MarcasCompuestas[i];
    NoEarlyM(i);
    forall k | 0 <= k < |c| ensures nn[k] == c[k] {
      assert u[k] == u[..|c|][k];
      if k >= 8 {
        assert u[k - 8] == u[..|c|][k - 8];
        assert u[k - 8] == u[k - 8..k - 8 + 8][0];
      }
    }
    assert nn[..|c|] == c;
  }

  /** In the composites other than Mercedes-Benz no `M` sits eight or more places before the end. */
  lemma NoEarlyM(i: int)
    requires 0 <= i < |MarcasCompuestas| && i != 4
    ensures forall m :: 0 <= m < |MarcasCompuestas[i]| - 8 ==> MarcasCompuestas[i][m] != 'M'
  {
    var c := MarcasCompuestas[i];
    if i == 0 {
      assert c == "ALFA ROMEO";
    } else if i == 1 {
      assert c == "ASTON MARTIN";
    } else if i == 2 {
      assert c == "LAND ROVER";
    } else {
      assert c == "ROLLS ROYCE";
    }
  }

  /** Without an `M` there is no match, and the rewrite changes nothing. */
  lemma ReplaceMercedesWithoutM(u: string)
    requires forall k :: 0 <= k < |u| ==> u[k] != 'M'
    ensures ReplaceMercedes(u) == u
  {
    forall k | 0 <= k < |u| ensures !RewrittenSeparator(u, k) {
      if k >= 8 && k - 8 + 8 <= |u| {
        assert u[k - 8] == u[k - 8..k - 8 + 8][0];
      }
    }
  }

  lemma ExampleNameIsUpper()
    ensures Upper("MERCEDES-BENZ C220 BLUEDCI") == "MERCEDES-BENZ C220 BLUEDCI"
  {
    assert NoLowerLetter("MERCEDES-BENZ C220 BLUEDCI");
  }

  lemma ExampleNameMatches()
    ensures MercedesAt("MERCEDES-BENZ C220 BLUEDCI", 0)
    ensures "MERCEDES-BENZ C220 BLUEDCI"[13..] == " C220 BLUEDCI"
  {
    var name := "MERCEDES-BENZ C220 BLUEDCI";
    assert name[0..8] == "MERCEDES";
    assert name[9..13] == "BENZ";
  }

  lemma ExampleTailUnchanged()
    ensures ReplaceMercedes(" C220 BLUEDCI") == " C220 BLUEDCI"
  {
    ReplaceMercedesWithoutM(" C220 BLUEDCI");
  }

  lemma MercedesExampleName()
    ensures UnificarMarca("MERCEDES-BENZ C220 BLUEDCI") == "MERCEDES BENZ C220 BLUEDCI"
  {
    var name := "MERCEDES-BENZ C220 BLUEDCI";
    assert "MERCEDES BENZ" + " C220 BLUEDCI" == "MERCEDES BENZ C220 BLUEDCI";
    ExampleNameIsUpper();
    ExampleNameMatches();
    ExampleTailUnchanged();
  }

  lemma TrimExample()
    ensures Trim(" C220 BLUEDCI") == "C220 BLUEDCI"
  {
    TrimOneLeadingSpace("C220 BLUEDCI");
  }

  lemma SplitExample()
    ensures Split("C220 BLUEDCI") == ["C220", "BLUEDCI"]
  {
    assert "C220 BLUEDCI" == "C220" + " " + "BLUEDCI";
    assert !HasSpace("C220") && !HasSpace("BLUEDCI");
    SplitAtSpace("C220", "BLUEDCI");
    SplitNoSpace("BLUEDCI");
  }

  lemma MercedesExampleSplit()
    ensures SplitComposite("MERCEDES BENZ C220 BLUEDCI", "MERCEDES BENZ") == Names("MERCEDES BENZ", "C220", "BLUEDCI")
  {
    var nn := "MERCEDES BENZ C220 BLUEDCI";
    assert nn == "MERCEDES BENZ" + " C220 BLUEDCI";
    assert nn[13..] == " C220 BLUEDCI";
    TrimExample();
    SplitExample();
  }

  lemma MercedesExampleVersion()
    ensures UnificarVersion("BLUEDCI") == "BlueDCI"
  {
    assert !HasSpace("BLUEDCI");
    assert NoLowerLetter("BLUEDCI");
    assert Upper("BLUEDCI") == "BLUEDCI";
    SpellingReadFromTable("BLUEDCI");
  }

  /** A worked example: a hyphenated Mercedes-Benz name with a known version token. */
  lemma MercedesExample()
    ensures DeriveNames("MERCEDES-BENZ C220 BLUEDCI") == Names("MERCEDES BENZ", "C220", "BlueDCI")
  {
    var nn := "MERCEDES BENZ C220 BLUEDCI";
    MercedesExampleName();
    assert StartsWith(nn, MarcasCompuestas[4]);
    var k :| 0 <= k < |MarcasCompuestas| && FirstPrefix(MarcasCompuestas, nn) == Some(MarcasCompuestas[k])
             && StartsWith(nn, MarcasCompuestas[k]);
    CompositesPrefixFree(nn, k, 4);
    MercedesExampleSplit();
    MercedesExampleVersion();
  }

  // ---------------------------------------------------------------------
  // The batch
  // ---------------------------------------------------------------------

  /** A JSON value of a listing field; only string-ness matters to the normaliser. */
  datatype JsonValue = JString(str: string) | JOther(text: string)

  /** A listing as read from the catalogue file: field name to value. */
  type Listing = map<string, JsonValue>

  const DerivedKeys: set<string> := {"marca", "modelo", "version"}

  /** `car.name` when it is a string; anything else makes `toUpperCase` throw. */
  function NameOf(car: Listing): Option<string> {
    if "name" in car && car["name"].JString? then Some(car["name"].str) else None
  }

  /** `{...car, marca, modelo, version}` */
  function WithNames(car: Listing, n: Names): (r: Listing)
    ensures r.Keys == car.Keys + DerivedKeys
    ensures r["marca"] == JString(n.marca) && r["modelo"] == JString(n.modelo) && r["version"] == JString(n.version)
    ensures forall k :: k in car && k !in DerivedKeys ==> r[k] == car[k]
  {
    car["marca" := JString(n.marca)]["modelo" := JString(n.modelo)]["version" := JString(n.version)]
  }

  /** The batch either yields every listing or stops at the first one without a string name. */
  datatype BatchResult = Processed(listings: seq<Listing>) | NameNotAString(index: nat)

  /**
    The loop of `cars.map(...)` for any derivation of the three fields from
    the name: listings stay in place, and the first listing whose `name` is not
    a string stops the run.
   */
  method MapListings(cars: seq<Listing>, derive: string -> Names) returns (r: BatchResult)
    ensures r.Processed? <==> forall i :: 0 <= i < |cars| ==> NameOf(cars[i]).Some?
    ensures r.NameNotAString? ==> r.index < |cars| && NameOf(cars[r.index]).None?
                                  && forall j :: 0 <= j < r.index ==> NameOf(cars[j]).Some?
    ensures r.Processed? ==> |r.listings| == |cars|
    ensures r.Processed? ==> forall i :: 0 <= i < |cars| ==>
              r.listings[i] == WithNames(cars[i], derive(NameOf(cars[i]).value))
  {
    var out: seq<Listing> := [];
    var i := 0;
    while i < |cars|
      invariant 0 <= i <= |cars|
      invariant |out| == i
      invariant forall j :: 0 <= j < i ==> NameOf(cars[j]).Some?
      invariant forall j :: 0 <= j < i ==> out[j] == WithNames(cars[j], derive(NameOf(cars[j]).value))
    {
      var name := NameOf(cars[i]);
      if name.None? {
        return NameNotAString(i);
      }
      out := out + [WithNames(cars[i], derive(name.value))];
      i := i + 1;
    }
    return Processed(out);
  }

  /**
    `cars.map(...)` inside the `try`: same length and order, every listing
    with only its three derived fields set; a listing whose `name` is not a
    string throws, and the whole run is abandoned with nothing written.
   */
  method ProcessAll(cars: seq<Listing>) returns (r: BatchResult)
    ensures r.Processed? <==> forall i :: 0 <= i < |cars| ==> NameOf(cars[i]).Some?
    ensures r.NameNotAString? ==> r.index < |cars| && NameOf(cars[r.index]).None?
                                  && forall j :: 0 <= j < r.index ==> NameOf(cars[j]).Some?
    ensures r.Processed? ==> |r.listings| == |cars|
    ensures r.Processed? ==> forall i :: 0 <= i < |cars| ==>
              r.listings[i] == WithNames(cars[i], DeriveNames(NameOf(cars[i]).value))
    ensures r.Processed? ==> forall i :: 0 <= i < |cars| ==> r.listings[i].Keys == cars[i].Keys + DerivedKeys
    ensures r.Processed? ==> forall i, k :: 0 <= i < |cars| && k in cars[i] && k !in DerivedKeys ==>
              r.listings[i][k] == cars[i][k]
  {
    r := MapListings(cars, DeriveNames);
  }
}
