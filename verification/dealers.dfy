/** The dealer directory of src/lib/dealers.ts: the gazetteer of Arkansas
    cities, the mapping of parsed spreadsheet rows to dealer records, the
    nearest-dealer search, and the list queries behind the pages. */
module Dealers {
  import opened Seqs
  import opened Strings

  /** A (latitude, longitude) pair in degrees. */
  type Coord = (real, real)

  /** One dealer location. The three optional text fields and the
      coordinates may be absent from a record built by hand; the
      coordinates come from the gazetteer when the record is parsed. */
  datatype Dealer = Dealer(
    name: string,
    phone: string,
    website: string,
    address: string,
    city: string,
    state: string,
    zip: string,
    facebookUrl: Option<string>,
    email: Option<string>,
    threeDBuilderUrl: Option<string>,
    latitude: Option<real>,
    longitude: Option<real>)

  // ---------------------------------------------------------------------
  // The gazetteer

  /** The `ARKANSAS_CITIES` object literal, entry by entry in source order. */
  const CityTable: seq<(string, Coord)> := [
    ("Little Rock", (34.7465, -92.2896)),
    ("Fort Smith", (35.3859, -94.3985)),
    ("Fayetteville", (36.0822, -94.1719)),
    ("Springdale", (36.1867, -94.1288)),
    ("Jonesboro", (35.8423, -90.7043)),
    ("Conway", (35.0887, -92.4421)),
    ("Rogers", (36.3320, -94.1185)),
    ("Bentonville", (36.3729, -94.2088)),
    ("Pine Bluff", (34.2284, -92.0032)),
    ("Hot Springs", (34.5037, -93.0552)),
    ("North Little Rock", (34.7695, -92.2671)),
    ("Benton", (34.5698, -92.5854)),
    ("Searcy", (35.2506, -91.7362)),
    ("Russellville", (35.2784, -93.1338)),
    ("Bella Vista", (36.4815, -94.2733)),
    ("Paragould", (36.0584, -90.4973)),
    ("Jacksonville", (34.8662, -92.1101)),
    ("West Memphis", (35.1465, -90.1845)),
    ("Texarkana", (33.4417, -94.0376)),
    ("Sherwood", (34.8151, -92.2243)),
    ("Cabot", (34.9745, -92.0165)),
    ("Bryant", (34.5957, -92.4891)),
    ("Van Buren", (35.4368, -94.3483)),
    ("El Dorado", (33.2076, -92.6663)),
    ("Maumelle", (34.8668, -92.4043)),
    ("Siloam Springs", (36.1881, -94.5405)),
    ("Magnolia", (33.2671, -93.2393)),
    ("Arkadelphia", (34.1209, -93.0538)),
    ("Camden", (33.5846, -92.8343)),
    ("Hope", (33.6671, -93.5916)),
    ("Harrison", (36.2298, -93.1077)),
    ("Mountain Home", (36.3354, -92.3852)),
    ("Batesville", (35.7698, -91.6409)),
    ("Stuttgart", (34.5004, -91.5526)),
    ("Forrest City", (35.0081, -90.7898)),
    ("Wynne", (35.2245, -90.7868)),
    ("Heber Spring", (35.4917, -92.0313)),
    ("Clarksville", (35.4715, -93.4666)),
    ("Morrilton", (35.1509, -92.7441)),
    ("Ashdown", (33.6737, -94.1313)),
    ("Dumas", (33.8865, -91.4918)),
    ("Monticello", (33.6293, -91.7909)),
    ("Malvern", (34.3634, -92.8129)),
    ("Crossett", (33.1282, -91.9612)),
    ("Osceola", (35.7051, -89.9695)),
    ("Newport", (35.6076, -91.2818)),
    ("Pocahontas", (36.2615, -90.9712)),
    ("Mena", (34.5862, -94.2397)),
    ("De Queen", (34.0379, -94.3413)),
    ("Trumann", (35.6737, -90.5073)),
    ("Berryville", (36.3648, -93.5679)),
    ("Greenbrier", (35.2340, -92.3874)),
    ("Lonoke", (34.7839, -91.9007)),
    ("Pea Ridge", (36.4539, -94.1149)),
    ("Gentry", (36.2676, -94.4844)),
    ("Lake Village", (33.3287, -91.2818)),
    ("Star City", (33.9423, -91.8432)),
    ("Waldron", (34.8984, -94.0916)),
    ("Cave City", (35.9417, -91.5485)),
    ("Manila", (35.8801, -90.1673)),
    ("Atkins", (35.2412, -92.9366))
  ]

  /** The keys of a table, in table order. */
  function Names(t: seq<(string, Coord)>): seq<string> {
    Map((e: (string, Coord)) => e.0, t)
  }

  /** The object an object literal builds from its entries: a key's value is
      the one given by its last entry. */
  function ToMap(t: seq<(string, Coord)>): (m: map<string, Coord>)
    ensures forall k :: k in m <==> k in Names(t)
  {
    if t == [] then map[]
    else
      var m := ToMap(t[1..]);
      assert Names(t) == [t[0].0] + Names(t[1..]);
      if t[0].0 in m then m else m[t[0].0 := t[0].1]
  }

  /** The entry that is the last one with its key gives that key's value. */
  lemma {:induction false} ToMapLastWins(t: seq<(string, Coord)>, i: int)
    requires 0 <= i < |t|
    requires forall j :: i < j < |t| ==> t[j].0 != t[i].0
    ensures t[i].0 in ToMap(t) && ToMap(t)[t[i].0] == t[i].1
  {
    var m := ToMap(t[1..]);
    if i == 0 {
      assert t[0].0 !in Names(t[1..]);
    } else {
      ToMapLastWins(t[1..], i - 1);
      assert t[1..][i - 1] == t[i];
    }
  }

  /** `ARKANSAS_CITIES`: city name (exact spelling and case) to coordinates. */
  const ArkansasCities: Gazetteer := ToMap(CityTable)

  /** A city-to-coordinates lookup table. */
  type Gazetteer = map<string, Coord>

  /** `Object.keys(ARKANSAS_CITIES)`: each key once, in order of first entry. */
  function ObjectKeys(t: seq<(string, Coord)>): (r: seq<string>)
    ensures Distinct(r)
    ensures forall k :: k in r <==> k in ToMap(t)
  {
    var r := Dedup(Names(t));
    assert forall k :: k in r ==> k in Names(t);
    assert forall k :: k in Names(t) ==> k in r;
    r
  }

  // ---------------------------------------------------------------------
  // Rows to dealers

  /** A row as the CSV parser hands it over with `header: true`: each cell
      keyed by its column header. */
  type Row = map<string, string>

  // The column headers read by `parseDealers`, truncated as in the export.
  const NameHeader := "Website Disp"
  const PhoneHeader := "Phone"
  const WebsiteHeader := "Website"
  const AddressHeader := "Shipping Stre"
  const CityHeader := "Shipping City"
  const StateHeader := "Shipping Stat"
  const ZipHeader := "Shipping Zip/"
  const FacebookHeader := "Facebook Url"
  const EmailHeader := "Email Addres"
  const BuilderHeader := "3D Builder Si"

  /** `rowData[key] || ''`: a missing cell and an empty cell both read as ''. */
  function Field(row: Row, key: string): string {
    if key in row then row[key] else ""
  }

  /** The record built for one row, before the filter; `g` is the gazetteer
      (`ArkansasCities` on the site). */
  function ToDealer(g: Gazetteer, row: Row): (d: Dealer)
    ensures d.name == (if NameHeader in row then row[NameHeader] else "")
    ensures d.phone == (if PhoneHeader in row then row[PhoneHeader] else "")
    ensures d.website == (if WebsiteHeader in row then row[WebsiteHeader] else "")
    ensures d.address == (if AddressHeader in row then row[AddressHeader] else "")
    ensures d.city == (if CityHeader in row then row[CityHeader] else "")
    ensures d.state == (if StateHeader in row then row[StateHeader] else "")
    ensures d.zip == (if ZipHeader in row then row[ZipHeader] else "")
    ensures d.facebookUrl == Some(if FacebookHeader in row then row[FacebookHeader] else "")
    ensures d.email == Some(if EmailHeader in row then row[EmailHeader] else "")
    ensures d.threeDBuilderUrl == Some(if BuilderHeader in row then row[BuilderHeader] else "")
    ensures CoordsFromGazetteer(g, d)
  {
    var city := Field(row, CityHeader);
    var coords := if city in g then Some(g[city]) else None;
    Dealer(
      name := Field(row, NameHeader),
      phone := Field(row, PhoneHeader),
      website := Field(row, WebsiteHeader),
      address := Field(row, AddressHeader),
      city := city,
      state := Field(row, StateHeader),
      zip := Field(row, ZipHeader),
      facebookUrl := Some(Field(row, FacebookHeader)),
      email := Some(Field(row, EmailHeader)),
      threeDBuilderUrl := Some(Field(row, BuilderHeader)),
      latitude := if coords.Some? then Some(coords.value.0) else None,
      longitude := if coords.Some? then Some(coords.value.1) else None)
  }

  /** A dealer carries coordinates exactly when its city is, character for
      character, a gazetteer key, and then they are that key's pair. */
  predicate CoordsFromGazetteer(g: Gazetteer, d: Dealer) {
    && (d.latitude.Some? <==> d.city in g)
    && (d.longitude.Some? <==> d.city in g)
    && (d.city in g ==> d.latitude.value == g[d.city].0 && d.longitude.value == g[d.city].1)
  }

  /** The filter `dealer.name && dealer.city`. */
  predicate Displayable(d: Dealer) {
    d.name != "" && d.city != ""
  }

  /** `parseDealers`, from the rows the CSV parser produced. */
  function ParseDealers(g: Gazetteer, rows: seq<Row>): (r: seq<Dealer>)
    ensures |r| <= |rows|
    ensures forall i :: 0 <= i < |r| ==> r[i].name != "" && r[i].city != ""
    ensures forall i :: 0 <= i < |r| ==> CoordsFromGazetteer(g, r[i])
  {
    Filter(Displayable, Map((row: Row) => ToDealer(g, row), rows))
  }

  /** A row survives parsing when its name and city cells are non-empty. */
  predicate RowKept(row: Row) {
    Field(row, NameHeader) != "" && Field(row, CityHeader) != ""
  }

  /** Parsing keeps exactly the rows with a name and a city, in input order,
      one dealer per kept row. */
  lemma ParseDealersKeepsRows(g: Gazetteer, rows: seq<Row>)
    ensures ParseDealers(g, rows) == Map((row: Row) => ToDealer(g, row), Filter(RowKept, rows))
    ensures |ParseDealers(g, rows)| == |Filter(RowKept, rows)|
  {
    FilterMap((row: Row) => ToDealer(g, row), Displayable, RowKept, rows);
  }

  /** Every parsed dealer is one of the rows' records, in row order. */
  lemma ParseDealersIsSubseq(g: Gazetteer, rows: seq<Row>)
    ensures IsSubseq(ParseDealers(g, rows), Map((row: Row) => ToDealer(g, row), rows))
  {
    FilterIsSubseq(Displayable, Map((row: Row) => ToDealer(g, row), rows));
  }

  // ---------------------------------------------------------------------
  // Nearest dealer

  /** The truthiness test `dealer.latitude && dealer.longitude`: both present
      and neither zero. */
  predicate HasCoords(d: Dealer) {
    d.latitude.Some? && d.latitude.value != 0.0 && d.longitude.Some? && d.longitude.value != 0.0
  }

  /** A parsed dealer passes the coordinate test exactly when its city is a
      gazetteer key whose latitude and longitude are both non-zero. */
  lemma ParsedHasCoords(g: Gazetteer, rows: seq<Row>, i: int)
    requires 0 <= i < |ParseDealers(g, rows)|
    ensures var d := ParseDealers(g, rows)[i];
      HasCoords(d) <==> d.city in g && g[d.city].0 != 0.0 && g[d.city].1 != 0.0
  {
  }

  /** `calculateDistance(lat1, lng1, lat2, lng2)`, supplied by the caller. */
  type Distance = (real, real, real, real) -> real

  function DistanceTo(dist: Distance, from: Coord, d: Dealer): real
    requires HasCoords(d)
  {
    dist(from.0, from.1, d.latitude.value, d.longitude.value)
  }

  /** Among the first `n` dealers, `k` has coordinates, no dealer with
      coordinates is nearer to `from`, and every earlier one is farther. */
  ghost predicate IsFirstNearest(dist: Distance, from: Coord, ds: seq<Dealer>, n: nat, k: int)
    requires n <= |ds|
  {
    && 0 <= k < n && HasCoords(ds[k])
    && (forall j :: 0 <= j < n && HasCoords(ds[j]) ==> DistanceTo(dist, from, ds[k]) <= DistanceTo(dist, from, ds[j]))
    && (forall j :: 0 <= j < k && HasCoords(ds[j]) ==> DistanceTo(dist, from, ds[k]) < DistanceTo(dist, from, ds[j]))
  }

  /** `findClosestDealer`: for a gazetteer city, the first dealer with
      coordinates at minimum distance from it; None for any other city or
      when no dealer has coordinates. */
  method FindClosestDealer(dist: Distance, g: Gazetteer, city: string, dealers: seq<Dealer>)
    returns (closest: Option<Dealer>)
    ensures city !in g ==> closest == None
    ensures city in g ==>
              (closest == None <==> forall j :: 0 <= j < |dealers| ==> !HasCoords(dealers[j]))
    ensures closest.Some? ==>
              city in g &&
              exists k :: IsFirstNearest(dist, g[city], dealers, |dealers|, k) && closest.value == dealers[k]
  {
    if city !in g {
      return None;
    }
    var from := g[city];
    closest := None;
    var minDistance: Option<real> := None;  // None plays the role of Infinity
    ghost var best := 0;
    for i := 0 to |dealers|
      invariant closest.None? <==> minDistance.None?
      invariant closest.None? <==> forall j :: 0 <= j < i ==> !HasCoords(dealers[j])
      invariant closest.Some? ==>
                  IsFirstNearest(dist, from, dealers, i, best) && closest.value == dealers[best] &&
                  minDistance.value == DistanceTo(dist, from, dealers[best])
    {
      var dealer := dealers[i];
      if HasCoords(dealer) {
        var distance := dist(from.0, from.1, dealer.latitude.value, dealer.longitude.value);
        if minDistance.None? || distance < minDistance.value {
          minDistance := Some(distance);
          closest := Some(dealer);
          best := i;
        }
      }
    }
  }

  /** With a distance that is zero exactly between equal points, the first
      dealer standing at the city's own coordinates is the only first-nearest
      one, so it is the dealer `FindClosestDealer` returns. */
  lemma NearestAtOwnCoordinates(dist: Distance, from: Coord, ds: seq<Dealer>, k: nat)
    requires forall a, b, c, d :: dist(a, b, c, d) >= 0.0
    requires forall a, b, c, d :: dist(a, b, c, d) == 0.0 <==> a == c && b == d
    requires k < |ds| && HasCoords(ds[k]) && ds[k].latitude.value == from.0 && ds[k].longitude.value == from.1
    requires forall j :: 0 <= j < k && HasCoords(ds[j]) ==> (ds[j].latitude.value, ds[j].longitude.value) != from
    ensures IsFirstNearest(dist, from, ds, |ds|, k)
    ensures forall k' :: IsFirstNearest(dist, from, ds, |ds|, k') ==> k' == k
  {
    assert DistanceTo(dist, from, ds[k]) == 0.0;
    forall k' | IsFirstNearest(dist, from, ds, |ds|, k') ensures k' == k {
    }
  }

  // ---------------------------------------------------------------------
  // List queries

  /** The set of cities named by a list of dealers. */
  ghost function CitySet(ds: seq<Dealer>): set<string> {
    set i | 0 <= i < |ds| :: ds[i].city
  }

  /** `getUniqueCities`: each dealer city once, ascending. */
  function UniqueCities(dealers: seq<Dealer>): (r: seq<string>)
    ensures StrictlySorted(r)
    ensures forall c :: c in r <==> c in CitySet(dealers)
  {
    var cities := Map((d: Dealer) => d.city, dealers);
    assert forall c :: c in cities <==> c in CitySet(dealers) by {
      forall c | c in CitySet(dealers) ensures c in cities {
        var i :| 0 <= i < |dealers| && dealers[i].city == c;
        assert cities[i] == c;
      }
    }
    SortedUnique(cities)
  }

  /** The unique-city list depends only on which cities occur, not on the
      order or multiplicity of the dealers. */
  lemma UniqueCitiesDependsOnlyOnCitySet(a: seq<Dealer>, b: seq<Dealer>)
    requires CitySet(a) == CitySet(b)
    ensures UniqueCities(a) == UniqueCities(b)
  {
    StrictlySortedUnique(UniqueCities(a), UniqueCities(b));
  }

  /** `getMajorArkansasCities`: every key of the gazetteer built from table
      `t` (`CityTable` on the site) once, ascending. */
  function MajorCities(t: seq<(string, Coord)>): (r: seq<string>)
    ensures StrictlySorted(r)
    ensures forall c :: c in r <==> c in ToMap(t)
  {
    var keys := ObjectKeys(t);
    SortDistinctStrict(keys);
    Sort(keys)
  }

  /** There are as many major cities as gazetteer keys. */
  lemma MajorCitiesCount(t: seq<(string, Coord)>)
    ensures |MajorCities(t)| == |ToMap(t)|
  {
    var r := MajorCities(t);
    StrictlySortedDistinct(r);
    DistinctCardinality(r);
    assert (set x | x in r) == ToMap(t).Keys;
  }

  /** `getDealersInCity`: the dealers whose city equals `city` up to ASCII
      case, in input order. */
  function DealersInCity(city: string, dealers: seq<Dealer>): (r: seq<Dealer>)
    ensures forall i :: 0 <= i < |r| ==> r[i] in dealers && ToLower(r[i].city) == ToLower(city)
    ensures forall i :: 0 <= i < |dealers| && ToLower(dealers[i].city) == ToLower(city) ==> dealers[i] in r
    ensures IsSubseq(r, dealers)
    ensures forall d :: multiset(r)[d] == if ToLower(d.city) == ToLower(city) then multiset(dealers)[d] else 0
  {
    var sameCity := (d: Dealer) => ToLower(d.city) == ToLower(city);
    FilterIsSubseq(sameCity, dealers);
    FilterCount(sameCity, dealers);
    Filter(sameCity, dealers)
  }

  /** Queries that differ only in ASCII case select the same dealers. */
  lemma DealersInCityIgnoresCase(a: string, b: string, dealers: seq<Dealer>)
    requires SameUpToCase(a, b)
    ensures DealersInCity(a, dealers) == DealersInCity(b, dealers)
  {
    ToLowerEqualIffSameUpToCase(a, b);
    FilterCongruence((d: Dealer) => ToLower(d.city) == ToLower(a), (d: Dealer) => ToLower(d.city) == ToLower(b), dealers);
  }
}
