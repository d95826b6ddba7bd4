/** Turning database rows that carry a GeoJSON geometry column (the text
    ST_AsGeoJSON produces) into a GeoJSON FeatureCollection. The JSON
    reader is a parameter: `parse` gives the parsed geometry, or None
    where JSON.parse would throw a SyntaxError. */
module SpatialHelpers {
  import opened Wrappers
  import opened Seqs
  import opened Text

  /** The column that holds the geometry. */
  const GeometryKey: string := "geometry"

  /** A column value as the database driver hands it over. Fractional
      numbers are not modelled. */
  datatype Value = Null | Bool(b: bool) | Number(n: int) | Str(s: string)

  /** A row: its columns in order, each with its value. */
  type Row = seq<(string, Value)>

  datatype Feature<G> = Feature(kind: string, geometry: G, properties: Row)

  datatype FeatureCollection<G> = FeatureCollection(kind: string, features: seq<Feature<G>>)

  /** JSON.parse throws on the row with this index; the map stops there. */
  datatype GeoJsonError = SyntaxError(row: nat)

  /** The value of column `key` in the row object the driver builds: the
      columns are assigned in order, so a repeated key keeps its last value. */
  function Lookup(row: Row, key: string): (r: Option<Value>)
    ensures r.Some? ==> (key, r.value) in row
    ensures r.None? <==> forall i :: 0 <= i < |row| ==> row[i].0 != key
    ensures r.Some? ==> exists i ::
      && 0 <= i < |row| && row[i] == (key, r.value)
      && forall j :: i < j < |row| ==> row[j].0 != key
  {
    if |row| == 0 then None
    else
      match Lookup(row[1..], key)
      case Some(v) => Some(v)
      case None => if row[0].0 == key then Some(row[0].1) else None
  }

  function KeyIsNot(key: string): ((string, Value)) -> bool {
    (c: (string, Value)) => c.0 != key
  }

  /** The row without column `key` (`{ ...row }` then `delete`), the other
      columns in their order. */
  function Without(row: Row, key: string): (r: Row)
    ensures forall c :: c in r <==> c in row && c.0 != key
  {
    Filter(row, KeyIsNot(key))
  }

  /** Removing a column hides exactly that column and leaves the value of
      every other column as it was. */
  lemma {:induction false} LookupWithout(row: Row, key: string, other: string)
    ensures Lookup(Without(row, key), other) == if other == key then None else Lookup(row, other)
  {
    if |row| > 0 {
      var c := row[0];
      var rest := Without(row[1..], key);
      LookupWithout(row[1..], key, other);
      assert row == [c] + row[1..];
      FilterOfCons(c, row[1..], KeyIsNot(key));
      if c.0 != key {
        assert Without(row, key) == [c] + rest;
        assert ([c] + rest)[1..] == rest;
      } else {
        assert Without(row, key) == rest;
      }
    }
  }

  /** String(v): what JSON.parse reads when handed a non-string. */
  function Coerce(v: Value): (r: string)
    ensures v.Str? ==> r == v.s
    ensures v.Number? ==> ParseInt(r) == Some(v.n)
  {
    match v
    case Null => "null"
    case Bool(b) => if b then "true" else "false"
    case Number(n) => ParseIntToString(n); IntToString(n)
    case Str(s) => s
  }

  /** One row as a Feature; None where JSON.parse throws, including a row
      with no geometry column (JSON.parse(undefined)). */
  function RowFeature<G>(row: Row, parse: string -> Option<G>): (r: Option<Feature<G>>)
    ensures r.Some? <==> Lookup(row, GeometryKey).Some? && parse(Coerce(Lookup(row, GeometryKey).value)).Some?
    ensures r.Some? ==> r.value.kind == "Feature"
    ensures r.Some? ==> r.value.geometry == parse(Coerce(Lookup(row, GeometryKey).value)).value
    ensures r.Some? ==> forall c :: c in r.value.properties <==> c in row && c.0 != GeometryKey
  {
    match Lookup(row, GeometryKey)
    case None => None
    case Some(v) =>
      match parse(Coerce(v))
      case None => None
      case Some(g) => Some(Feature("Feature", g, Without(row, GeometryKey)))
  }

  /** Every row as a Feature, in order, or the first row that throws. */
  function Features<G>(rows: seq<Row>, parse: string -> Option<G>): (r: Result<seq<Feature<G>>, GeoJsonError>)
    ensures r.Success? <==> forall i :: 0 <= i < |rows| ==> RowFeature(rows[i], parse).Some?
    ensures r.Success? ==> |r.value| == |rows|
    ensures r.Success? ==> forall i :: 0 <= i < |rows| ==> Some(r.value[i]) == RowFeature(rows[i], parse)
    ensures r.Failure? ==> r.error.row < |rows| && RowFeature(rows[r.error.row], parse).None?
    ensures r.Failure? ==> forall j :: 0 <= j < r.error.row ==> RowFeature(rows[j], parse).Some?
  {
    if |rows| == 0 then Success([])
    else
      match RowFeature(rows[0], parse)
      case None => Failure(SyntaxError(0))
      case Some(f) =>
        var tail := Features(rows[1..], parse);
        TailRows(rows);
        if tail.Failure? then Failure(SyntaxError(tail.error.row + 1))
        else
          ConsFeatures(f, tail.value);
          Success([f] + tail.value)
  }

  lemma TailRows(rows: seq<Row>)
    requires |rows| > 0
    ensures forall j :: 1 <= j < |rows| ==> rows[1..][j - 1] == rows[j]
  {
  }

  lemma ConsFeatures<G>(f: Feature<G>, fs: seq<Feature<G>>)
    ensures ([f] + fs)[0] == f
    ensures forall i :: 1 <= i < |fs| + 1 ==> ([f] + fs)[i] == fs[i - 1]
  {
  }

  /** formatToGeoJSON: a FeatureCollection with one Feature per row, in
      row order, each with the parsed geometry and the other columns as
      its properties. */
  function FormatToGeoJson<G>(rows: seq<Row>, parse: string -> Option<G>): (r: Result<FeatureCollection<G>, GeoJsonError>)
    ensures r.Success? <==> forall i :: 0 <= i < |rows| ==>
      Lookup(rows[i], GeometryKey).Some? && parse(Coerce(Lookup(rows[i], GeometryKey).value)).Some?
    ensures r.Success? ==> r.value.kind == "FeatureCollection" && |r.value.features| == |rows|
    ensures r.Success? ==> forall i :: 0 <= i < |rows| ==>
      && r.value.features[i].kind == "Feature"
      && Some(r.value.features[i].geometry) == parse(Coerce(Lookup(rows[i], GeometryKey).value))
    ensures r.Failure? ==>
      && r.error.row < |rows|
      && (Lookup(rows[r.error.row], GeometryKey).None? || parse(Coerce(Lookup(rows[r.error.row], GeometryKey).value)).None?)
    ensures r.Failure? ==> forall j :: 0 <= j < r.error.row ==>
      Lookup(rows[j], GeometryKey).Some? && parse(Coerce(Lookup(rows[j], GeometryKey).value)).Some?
  {
    var fs :- Features(rows, parse);
    Success(FeatureCollection("FeatureCollection", fs))
  }

  /** A feature's properties are its row minus the geometry: that column is
      gone and every other column keeps its value. */
  lemma PropertiesAreRowWithoutGeometry<G>(rows: seq<Row>, parse: string -> Option<G>, i: nat, key: string)
    requires FormatToGeoJson(rows, parse).Success? && i < |rows|
    ensures var p := FormatToGeoJson(rows, parse).value.features[i].properties;
      Lookup(p, key) == if key == GeometryKey then None else Lookup(rows[i], key)
  {
    assert FormatToGeoJson(rows, parse).value.features[i].properties == Without(rows[i], GeometryKey);
    LookupWithout(rows[i], GeometryKey, key);
  }

  /** No rows, no features, and nothing can throw. */
  lemma EmptyRowsEmptyCollection<G>(parse: string -> Option<G>)
    ensures FormatToGeoJson([], parse) == Success(FeatureCollection("FeatureCollection", []))
  {
  }
}
