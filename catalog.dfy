/** The landmark catalog `loc` of app.js and the `Location` record built from each entry. */
module Catalog {

  /** A latitude/longitude pair. The model never computes with it: it is carried from the
      catalog to the marker and nothing more. */
  datatype Coord = Coord(lat: real, lng: real)

  /** One catalog entry: the display name, the Wikipedia page title used to build the
      summary request, and the marker position. */
  datatype Location = Location(name: string, pageTitle: string, location: Coord)

  /** The five entries of `loc`, each under its own name. */
  const HullHouse := Location("Hull House", "Hull_House", Coord(41.871643, -87.647692))
  const SheddAquarium := Location("Shedd Aquarium", "Shedd_Aquarium", Coord(41.8675726, -87.614038))
  const PuiTakCenter := Location("Pui Tak Center", "Pui_Tak_Center", Coord(41.8523969, -87.632291))
  const ChicagoUnionStation :=
    Location("Chicago Union Station", "Chicago_Union_Station", Coord(41.8786646, -87.6391997))
  const CivicOperaHouse :=
    Location("Civic Opera House", "Civic_Opera_House_(Chicago)", Coord(41.882564, -87.6374246))

  /** The fixed catalog, in the order the page lists it and the markers are created. */
  const Loc: seq<Location> := [HullHouse, SheddAquarium, PuiTakCenter, ChicagoUnionStation, CivicOperaHouse]

  /** No two entries of `s` have the same display name. */
  predicate NamesDistinct(s: seq<Location>) {
    forall i, j :: 0 <= i < j < |s| ==> s[i].name != s[j].name
  }

  /** No two entries of `s` are equal. */
  predicate Distinct<T(==)>(s: seq<T>) {
    forall i, j :: 0 <= i < j < |s| ==> s[i] != s[j]
  }

  /** The catalog is non-empty, its names are unique, and hence its entries are distinct:
      looking a location up by value finds the entry it came from. */
  lemma CatalogWellFormed()
    ensures |Loc| == 5
    ensures NamesDistinct(Loc)
    ensures Distinct(Loc)
  {
  }

  /** `list.indexOf(x)`: the first position holding `x`, or -1 when there is none. */
  function IndexOf<T(==)>(list: seq<T>, x: T): (r: int)
    ensures -1 <= r < |list|
    ensures r == -1 <==> x !in list
    ensures r >= 0 ==> list[r] == x && x !in list[..r]
  {
    if list == [] then -1
    else if list[0] == x then 0
    else
      var k := IndexOf(list[1..], x);
      if k == -1 then -1 else k + 1
  }

  /** In a list without duplicates, the position of an entry is found again by `IndexOf`. */
  lemma IndexOfDistinct<T>(list: seq<T>, i: int)
    requires Distinct(list) && 0 <= i < |list|
    ensures IndexOf(list, list[i]) == i
  {
  }
}
