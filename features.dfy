/** The mapping from the upstream ArcGIS feature collection to candidate
    rows (`response.data.features.map(...)`). */
module FeatureMapping {
  import opened StationModel

  /** The `attributes` object of a feature; only `adresse` is read.
      `None` stands for `undefined` or `null`. */
  datatype Attributes = Attributes(adresse: Option<string>)

  /** The `geometry` object of a feature, in EPSG:4326: x is the longitude,
      y the latitude. */
  datatype Geometry = Geometry(x: Coord, y: Coord)

  /** One upstream feature; a `None` member is `undefined` or `null`. */
  datatype Feature = Feature(attributes: Option<Attributes>, geometry: Option<Geometry>)

  /** JavaScript truthiness of the `adresse` value: a string is falsy
      exactly when it is empty, `undefined` and `null` are always falsy. */
  predicate Truthy(a: Option<string>)
  {
    a.Some? && a.value != ""
  }

  /** The address stored for an upstream feature: `adresse || 'N/A'`. */
  function AddressOf(a: Option<string>): (s: string)
    ensures Truthy(Some(s))
    ensures Truthy(a) ==> s == a.value
    ensures !Truthy(a) ==> s == "N/A"
  {
    if Truthy(a) then a.value else "N/A"
  }

  /** Maps one feature to a candidate row tagged `'api'`. Reading
      `feature.attributes.adresse` or `feature.geometry.y` on a missing object
      throws a TypeError. */
  function MapFeature(f: Feature): (r: Result<Candidate, Failure>)
    ensures r.Ok? <==> f.attributes.Some? && f.geometry.Some?
    ensures r.Err? ==> r.error == TypeError
    ensures r.Ok? ==>
      && r.value.address == AddressOf(f.attributes.value.adresse)
      && r.value.latitude == f.geometry.value.y
      && r.value.longitude == f.geometry.value.x
      && r.value.source == Api
  {
    match (f.attributes, f.geometry)
    case (Some(attrs), Some(g)) => Ok(Candidate(AddressOf(attrs.adresse), g.y, g.x, Api))
    case _ => Err(TypeError)
  }

  /** `features.map(...)`: the candidates in feature order, or the TypeError
      of the first malformed feature (the map stops there). */
  function MapFeatures(fs: seq<Feature>): (r: Result<seq<Candidate>, Failure>)
    ensures r.Ok? <==> forall i :: 0 <= i < |fs| ==> MapFeature(fs[i]).Ok?
    ensures r.Err? ==> r.error == TypeError
    ensures r.Ok? ==>
      && |r.value| == |fs|
      && forall i :: 0 <= i < |fs| ==> r.value[i] == MapFeature(fs[i]).value
  {
    if fs == [] then Ok([])
    else
      match MapFeature(fs[0])
      case Err(e) => Err(e)
      case Ok(c) =>
        match MapFeatures(fs[1..])
        case Err(e) => Err(e)
        case Ok(cs) => Ok([c] + cs)
  }

  /** Every mapped candidate has a non-empty address and the `'api'` tag, so
      features lacking an address all share the single address "N/A". */
  lemma {:induction false} MappedCandidatesAreTaggedAndAddressed(fs: seq<Feature>)
    requires MapFeatures(fs).Ok?
    ensures forall c :: c in MapFeatures(fs).value ==> c.source == Api && c.address != ""
    ensures forall i :: 0 <= i < |fs| && !Truthy(fs[i].attributes.value.adresse) ==>
      MapFeatures(fs).value[i].address == "N/A"
  {
    var cs := MapFeatures(fs).value;
    forall c | c in cs ensures c.source == Api && c.address != "" {
      var i :| 0 <= i < |cs| && cs[i] == c;
      assert MapFeature(fs[i]).Ok?;
    }
  }
}
