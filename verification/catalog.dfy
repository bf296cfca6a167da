/**
  The normalised catalogue as the valuation service reads it, and its three
  lookup endpoints: the distinct brands, the distinct models of a brand and
  the distinct versions of a brand and model.
 */
module Catalog {
  import opened Seqs

  /**
    One normalised listing, with the fields the service reads. Year is a
    number; mileage and price are the display strings of the catalogue
    (`"50.000 km"`, `"12.000€"`).
   */
  datatype Car = Car(
    marca: string,
    modelo: string,
    version: string,
    anio: int,
    kilometros: string,
    precio: string,
    combustible: string)

  function MarcaOf(c: Car): string { c.marca }
  function ModeloOf(c: Car): string { c.modelo }
  function VersionOf(c: Car): string { c.version }

  /** The exact, case-sensitive brand test of the model lookup. */
  function IsBrand(marca: string): Car -> bool {
    (c: Car) => c.marca == marca
  }

  /** The exact, case-sensitive brand-and-model test of the version lookup. */
  function IsModel(marca: string, modelo: string): Car -> bool {
    (c: Car) => c.marca == marca && c.modelo == modelo
  }

  /** `GET /api/marcas`: every brand of the catalogue once, in order of first appearance. */
  function Marcas(cars: seq<Car>): (r: seq<string>)
    ensures NoDup(r)
    ensures forall m :: m in r <==> exists i :: 0 <= i < |cars| && cars[i].marca == m
    ensures FirstOccurrenceOrder(r, Map(cars, MarcaOf))
  {
    var column := Map(cars, MarcaOf);
    assert |column| == |cars| && forall i :: 0 <= i < |cars| ==> column[i] == cars[i].marca;
    assert forall m :: m in column <==> exists i :: 0 <= i < |cars| && cars[i].marca == m by {
      forall m ensures m in column <==> exists i :: 0 <= i < |cars| && cars[i].marca == m {
        if m in column {
          var i :| 0 <= i < |column| && column[i] == m;
          assert cars[i].marca == m;
        }
      }
    }
    Distinct(column)
  }

  /** `GET /api/modelos/:marca`: the distinct models of the listings whose brand is exactly `marca`. */
  function Modelos(cars: seq<Car>, marca: string): (r: seq<string>)
    ensures NoDup(r)
    ensures forall m :: m in r <==> exists i :: 0 <= i < |cars| && cars[i].marca == marca && cars[i].modelo == m
    ensures (forall i :: 0 <= i < |cars| ==> cars[i].marca != marca) ==> r == []
    ensures FirstOccurrenceOrder(r, Map(Filter(cars, IsBrand(marca)), ModeloOf))
  {
    var column := Map(Filter(cars, IsBrand(marca)), ModeloOf);
    assert forall m :: m in column <==> exists i :: 0 <= i < |cars| && cars[i].marca == marca && cars[i].modelo == m by {
      forall m {
        MapFilterMembership(cars, IsBrand(marca), ModeloOf, m);
      }
    }
    assert (forall i :: 0 <= i < |cars| ==> cars[i].marca != marca) ==> column == [] by {
      if |column| > 0 {
        assert column[0] in column;
      }
    }
    Distinct(column)
  }

  /** `GET /api/versiones/:marca/:modelo`: the distinct versions of the listings matching both exactly. */
  function Versiones(cars: seq<Car>, marca: string, modelo: string): (r: seq<string>)
    ensures NoDup(r)
    ensures forall v :: v in r <==>
              exists i :: 0 <= i < |cars| && cars[i].marca == marca && cars[i].modelo == modelo && cars[i].version == v
    ensures (forall i :: 0 <= i < |cars| ==> cars[i].marca != marca || cars[i].modelo != modelo) ==> r == []
    ensures FirstOccurrenceOrder(r, Map(Filter(cars, IsModel(marca, modelo)), VersionOf))
  {
    var column := Map(Filter(cars, IsModel(marca, modelo)), VersionOf);
    assert forall v :: v in column <==>
             exists i :: 0 <= i < |cars| && cars[i].marca == marca && cars[i].modelo == modelo && cars[i].version == v by {
      forall v {
        MapFilterMembership(cars, IsModel(marca, modelo), VersionOf, v);
      }
    }
    assert (forall i :: 0 <= i < |cars| ==> cars[i].marca != marca || cars[i].modelo != modelo) ==> column == [] by {
      if |column| > 0 {
        assert column[0] in column;
      }
    }
    Distinct(column)
  }
}
