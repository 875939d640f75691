/** The configuration logic of the OS Maps API Leaflet page: the colour
    scale of the choropleth, the view options chosen from the map style, the
    WMTS tile URL, the guard on an empty API key, and the join of COVID-19
    death records to map regions. The DOM, Leaflet, Proj4 and the two
    `fetch` calls are not modelled: the key, the style and the fetched death
    records are parameters, and a map is the data it would be built from. */
module MapView {
  import opened Wrappers
  import opened Sequences
  import opened Strings
  import opened UriCodec

  // ---------------------------------------------------------------------
  // Colour scale (getColour)
  // ---------------------------------------------------------------------

  /** The eight fill colours, from the lowest bucket to the highest. */
  const Palette: seq<string> :=
    ["#FFEDA0", "#FED976", "#FEB24C", "#FD8D3C", "#FC4E2A", "#E31A1C", "#BD0026", "#800026"]

  /** The upper bounds of the seven lower buckets; a bucket includes its bound. */
  const Thresholds: seq<real> := [5.0, 10.0, 15.0, 20.0, 25.0, 30.0, 35.0]

  /** The colour of a region with `d` new deaths: the first threshold, from
      the top, that `d` strictly exceeds picks the colour. */
  function GetColour(d: real): (c: string)
    ensures c in Palette
  {
    if d > 35.0 then "#800026"
    else if d > 30.0 then "#BD0026"
    else if d > 25.0 then "#E31A1C"
    else if d > 20.0 then "#FC4E2A"
    else if d > 15.0 then "#FD8D3C"
    else if d > 10.0 then "#FEB24C"
    else if d > 5.0 then "#FED976"
    else "#FFEDA0"
  }

  /** `d` lies in bucket `b`: above the bound below the bucket, and at most
      the bucket's own bound. */
  predicate InBucket(d: real, b: nat)
    requires b < |Palette|
  {
    (b == 0 || Thresholds[b - 1] < d) && (b == |Thresholds| || d <= Thresholds[b])
  }

  /** The bucket of `d`, found by scanning the thresholds upwards from `b`. */
  function BucketFrom(d: real, b: nat): (r: nat)
    requires b <= |Thresholds|
    requires b == 0 || Thresholds[b - 1] < d
    ensures b <= r < |Palette| && InBucket(d, r)
    decreases |Thresholds| - b
  {
    if b == |Thresholds| || d <= Thresholds[b] then b else BucketFrom(d, b + 1)
  }

  /** The bucket index of `d`, from 0 to 7. */
  function Bucket(d: real): (b: nat)
    ensures b < |Palette| && InBucket(d, b)
  {
    BucketFrom(d, 0)
  }

  /** A value lies in exactly one bucket. */
  lemma BucketUnique(d: real, b: nat, b': nat)
    requires b < |Palette| && b' < |Palette|
    requires InBucket(d, b) && InBucket(d, b')
    ensures b == b'
  {
  }

  /** `getColour` paints `d` with the palette colour of its bucket. */
  lemma GetColourIsBucket(d: real)
    ensures GetColour(d) == Palette[Bucket(d)]
  {
  }

  /** The top colour is used exactly above 35 and the bottom one exactly up
      to 5. */
  lemma ColourExtremes(d: real)
    ensures GetColour(d) == "#800026" <==> d > 35.0
    ensures GetColour(d) == "#FFEDA0" <==> d <= 5.0
  {
  }

  /** Each threshold belongs to the bucket below it: the comparisons are
      strict, so 35 is painted "#BD0026" and 5 is painted "#FFEDA0". */
  lemma ThresholdIsStrict(i: nat)
    requires i < |Thresholds|
    ensures GetColour(Thresholds[i]) == Palette[i]
  {
  }

  /** More deaths never move a region to a lower bucket. */
  lemma BucketMonotone(d1: real, d2: real)
    requires d1 <= d2
    ensures Bucket(d1) <= Bucket(d2)
  {
  }

  /** The palette colours are distinct, so two values share a colour exactly
      when they share a bucket. */
  lemma SameColourSameBucket(d1: real, d2: real)
    ensures GetColour(d1) == GetColour(d2) <==> Bucket(d1) == Bucket(d2)
  {
    GetColourIsBucket(d1);
    GetColourIsBucket(d2);
    var b1, b2 := Bucket(d1), Bucket(d2);
    assert forall i, j :: 0 <= i < j < |Palette| ==> Palette[i] != Palette[j];
  }

  // ---------------------------------------------------------------------
  // View options
  // ---------------------------------------------------------------------

  /** The coordinate reference system of the map: Leaflet's default Web
      Mercator (EPSG:3857), or the British National Grid (EPSG:27700). */
  datatype Crs = WebMercator | BritishNationalGrid

  datatype ViewOptions = ViewOptions(
    tileMatrixSet: string,
    crs: Crs,
    maxZoom: nat,
    minZoom: nat,
    zoom: nat,
    centre: (real, real))

  /** The maximum zoom level the tile layer accepts. */
  const LayerMaxZoom: nat := 20

  /** The options for EPSG:3857, centred on London. */
  const DefaultView := ViewOptions("EPSG:3857", WebMercator, 20, 7, 10, (51.507222, -0.1275))

  /** The marker of a British National Grid style name. */
  const GridMarker := "27700"

  /** The view options for a map style: the defaults, with the EPSG:27700
      changes when the style name mentions 27700. */
  function ViewFor(style: string): (v: ViewOptions)
    ensures v.crs == BritishNationalGrid <==> exists i: nat :: OccursAt(style, GridMarker, i)
    ensures v.crs == BritishNationalGrid ==>
      v.tileMatrixSet == "EPSG:27700" && v.maxZoom == 13 && v.minZoom == 0 && v.zoom == 4
    ensures v.crs == WebMercator ==> v == DefaultView
    ensures v.centre == DefaultView.centre
    ensures v.minZoom <= v.zoom <= v.maxZoom <= LayerMaxZoom
  {
    ContainsIff(style, GridMarker);
    if Contains(style, GridMarker)
    then DefaultView.(tileMatrixSet := "EPSG:27700", crs := BritishNationalGrid, maxZoom := 13, minZoom := 0, zoom := 4)
    else DefaultView
  }

  /** Both tile matrix set names pass through `encodeURI` unchanged. */
  lemma TileMatrixSetUnescaped(style: string)
    ensures EncodeUri(ViewFor(style).tileMatrixSet) == ViewFor(style).tileMatrixSet
  {
    var t := ViewFor(style).tileMatrixSet;
    EpsgNameUnescaped(t);
    EncodeUriIdentity(t);
  }

  /** Both tile matrix set names consist of characters `encodeURI` keeps.
      The names are passed as a parameter equal to one of the literals so
      that the literals unfold here and not in the callers' proofs. */
  lemma EpsgNameUnescaped(t: string)
    requires t == "EPSG:3857" || t == "EPSG:27700"
    ensures forall i :: 0 <= i < |t| ==> IsUnescaped(t[i])
  {
  }

  // ---------------------------------------------------------------------
  // Deaths per region and the region style
  // ---------------------------------------------------------------------

  /** One record of the coronavirus dashboard data. */
  datatype DeathRecord = DeathRecord(date: string, areaName: string, newDeaths: real)

  /** The records of one region, in their original order. */
  function DeathsFor(records: seq<DeathRecord>, region: string): (r: seq<DeathRecord>)
    ensures forall i :: 0 <= i < |r| ==> r[i].areaName == region
    ensures forall x :: x in r <==> x in records && x.areaName == region
    ensures IsSubsequence(r, records)
    decreases |records|
  {
    if |records| == 0 then []
    else
      var rest := DeathsFor(records[1..], region);
      assert records == [records[0]] + records[1..];
      if records[0].areaName == region then
        SubsequenceKeepPrefix([records[0]], rest, records[1..]);
        [records[0]] + rest
      else
        SubsequenceDropPrefix(rest, [records[0]], records[1..]);
        rest
  }

  /** Every record of the region is kept, as often as it occurs. */
  lemma {:induction false} DeathsForCount(records: seq<DeathRecord>, region: string, x: DeathRecord)
    ensures multiset(DeathsFor(records, region))[x] ==
      (if x.areaName == region then multiset(records)[x] else 0)
    decreases |records|
  {
    if |records| > 0 {
      DeathsForCount(records[1..], region, x);
      assert records == [records[0]] + records[1..];
    }
  }

  /** The first record of a region heads its list. */
  lemma {:induction false} DeathsForFirst(records: seq<DeathRecord>, region: string, i: nat)
    requires i < |records| && records[i].areaName == region
    requires forall j :: 0 <= j < i ==> records[j].areaName != region
    ensures |DeathsFor(records, region)| > 0 && DeathsFor(records, region)[0] == records[i]
    decreases i
  {
    if i > 0 {
      DeathsForFirst(records[1..], region, i - 1);
    }
  }

  /** The Leaflet path style of a region. */
  datatype PathStyle = PathStyle(
    fillColor: string,
    weight: nat,
    opacity: real,
    color: string,
    dashArray: string,
    fillOpacity: real)

  /** Reading the first record of an empty list fails with a TypeError. The
      text is the wording of V8, the engine of Chromium and Node.js; other
      engines word the same failure differently. */
  const NoRecordError := "Cannot read properties of undefined (reading 'newDeaths28DaysByDeathDate')"

  /** `getStyle`: the fill colour comes from the first record's new deaths;
      the outline is fixed. */
  function StyleFor(deaths: seq<DeathRecord>): (r: Result<PathStyle, string>)
    ensures r.Success? <==> |deaths| > 0
    ensures r.Failure? ==> r.error == NoRecordError
    ensures r.Success? ==>
      r.value.fillColor in Palette && r.value.fillColor == Palette[Bucket(deaths[0].newDeaths)]
    ensures r.Success? ==>
      r.value.weight == 2 && r.value.opacity == 1.0 && r.value.color == "white" &&
      r.value.dashArray == "3" && r.value.fillOpacity == 0.7
  {
    if |deaths| == 0 then Failure(NoRecordError)
    else
      GetColourIsBucket(deaths[0].newDeaths);
      Success(PathStyle(GetColour(deaths[0].newDeaths), 2, 1.0, "white", "3", 0.7))
  }

  /** The style of the region named `region`. */
  function RegionStyle(records: seq<DeathRecord>, region: string): Result<PathStyle, string> {
    StyleFor(DeathsFor(records, region))
  }

  /** A region can be styled exactly when some record names it, and then it
      takes the colour of its first record. */
  lemma RegionStyleFromFirstRecord(records: seq<DeathRecord>, region: string, i: nat)
    requires i < |records| && records[i].areaName == region
    requires forall j :: 0 <= j < i ==> records[j].areaName != region
    ensures RegionStyle(records, region).Success?
    ensures RegionStyle(records, region).value.fillColor == GetColour(records[i].newDeaths)
  {
    DeathsForFirst(records, region, i);
    GetColourIsBucket(records[i].newDeaths);
  }

  /** A region no record names cannot be styled. */
  lemma RegionStyleIff(records: seq<DeathRecord>, region: string)
    ensures RegionStyle(records, region).Success? <==>
      exists i :: 0 <= i < |records| && records[i].areaName == region
  {
  }

  /** Styling every region in turn (`eachLayer`): the first region without
      a record stops the loop with its error. */
  function StyleRegions(records: seq<DeathRecord>, regions: seq<string>): (r: Result<seq<PathStyle>, string>)
    ensures r.Success? <==> forall i :: 0 <= i < |regions| ==> RegionStyle(records, regions[i]).Success?
    ensures r.Success? ==> |r.value| == |regions|
    ensures r.Success? ==> forall i :: 0 <= i < |regions| ==> r.value[i] == RegionStyle(records, regions[i]).value
    ensures r.Failure? ==> r.error == NoRecordError
    decreases |regions|
  {
    if |regions| == 0 then Success([])
    else
      assert forall i :: 1 <= i < |regions| ==> regions[i] == regions[1..][i - 1];
      match RegionStyle(records, regions[0])
      case Failure(e) => Failure(e)
      case Success(style) =>
        match StyleRegions(records, regions[1..])
        case Failure(e) => Failure(e)
        case Success(styles) => Success([style] + styles)
  }

  // ---------------------------------------------------------------------
  // The WMTS tile URL
  // ---------------------------------------------------------------------

  const TileEndpoint := "https://api.os.uk/maps/raster/v1/wmts"

  /** The parameter names, in the order the parameter object declares them. */
  const ParameterNames: seq<string> :=
    ["key", "tileMatrixSet", "version", "style", "layer", "service", "request", "tileCol", "tileRow", "tileMatrix"]

  /** The parameter values, in the same order as their names, given the
      encoded tile matrix set and the encoded layer name. */
  function ParameterValues(key: string, tileMatrixSet: string, layer: string): (vs: seq<string>)
    ensures |vs| == |ParameterNames|
    ensures vs[0] == key && vs[1] == tileMatrixSet && vs[4] == layer
  {
    [key, tileMatrixSet, "1.0.0", "default", layer, "WMTS", "GetTile", "{x}", "{y}", "{z}"]
  }

  /** The named parameters, in declaration order (the order `Object.keys`
      returns them in). */
  function Parameters(key: string, tileMatrixSet: string, layer: string): (ps: seq<(string, string)>)
    ensures |ps| == |ParameterNames|
    ensures forall i :: 0 <= i < |ps| ==> ps[i].0 == ParameterNames[i]
    ensures ps[0].1 == key && ps[1].1 == tileMatrixSet && ps[4].1 == layer
  {
    var vs := ParameterValues(key, tileMatrixSet, layer);
    seq(|ParameterNames|, i requires 0 <= i < |ParameterNames| => (ParameterNames[i], vs[i]))
  }

  /** The query parameters of a tile request for a key and a map style: the
      tile matrix set and the style name pass through `encodeURI`. */
  function TileParameters(key: string, style: string): seq<(string, string)> {
    Parameters(key, EncodeUri(ViewFor(style).tileMatrixSet), EncodeUri(style))
  }

  function Pair(p: (string, string)): string {
    p.0 + "=" + p.1
  }

  /** The `name=value` pairs joined by `&`. */
  function ParameterString(ps: seq<(string, string)>): string {
    Join(seq(|ps|, i requires 0 <= i < |ps| => Pair(ps[i])), "&")
  }

  /** The tile URL template handed to the tile layer. */
  function TileUrl(key: string, style: string): string {
    TileEndpoint + "?" + ParameterString(TileParameters(key, style))
  }

  /** Reads one `name=value` pair back: the name ends at the first `=`; a
      pair without `=` has an empty value. */
  function ParsePair(p: string): (r: (string, string))
    ensures '=' !in r.0
    ensures '=' in p ==> p == r.0 + "=" + r.1
    ensures '=' !in p ==> r == (p, "")
  {
    ContainsChar(p, '=');
    match IndexOf(p, "=")
    case None => (p, "")
    case Some(i) =>
      OccursAtChar(p, '=', i);
      forall j | 0 <= j < i ensures p[j] != '=' {
        OccursAtChar(p, '=', j);
      }
      assert p == p[..i] + "=" + p[i + 1..];
      (p[..i], p[i + 1..])
  }

  /** Reads a query string back into its pairs. */
  function ParseQuery(q: string): (ps: seq<(string, string)>)
    ensures |ps| > 0
  {
    var parts := Split(q, "&");
    seq(|parts|, i requires 0 <= i < |parts| => ParsePair(parts[i]))
  }

  /** Pairs a query string can carry unambiguously: no name holds `=` or
      `&`, and no value holds `&`. */
  predicate Unambiguous(ps: seq<(string, string)>) {
    forall i :: 0 <= i < |ps| ==> '=' !in ps[i].0 && '&' !in ps[i].0 && '&' !in ps[i].1
  }

  /** Where the first `c` falls determines the text before it. */
  lemma FirstSeparator(a: string, b: string, a': string, b': string, c: char)
    requires c !in a && c !in a'
    requires a + [c] + b == a' + [c] + b'
    ensures a == a' && b == b'
  {
    var t := a + [c] + b;
    assert t[|a|] == c;
    assert t[|a'|] == c;
    assert |a| == |a'|;
    assert a == t[..|a|] == a';
    assert b == t[|a| + 1..] == b';
  }

  /** A pair whose name has no `=` reads back as itself. */
  lemma PairRoundTrip(p: (string, string))
    requires '=' !in p.0
    ensures ParsePair(Pair(p)) == p
  {
    var t := Pair(p);
    var r := ParsePair(t);
    assert '=' in t by {
      assert t[|p.0|] == '=';
    }
    assert t == r.0 + "=" + r.1;
    FirstSeparator(p.0, p.1, r.0, r.1, '=');
  }

  /** Building a parameter string and parsing it back gives the same pairs,
      in the same order, when they are unambiguous. */
  lemma ParameterStringRoundTrip(ps: seq<(string, string)>)
    requires |ps| > 0 && Unambiguous(ps)
    ensures ParseQuery(ParameterString(ps)) == ps
  {
    var pairs := seq(|ps|, i requires 0 <= i < |ps| => Pair(ps[i]));
    forall k | 0 <= k < |pairs| ensures '&' !in pairs[k] {
      assert pairs[k] == ps[k].0 + "=" + ps[k].1;
    }
    SplitJoinChar(pairs, '&');
    assert Split(ParameterString(ps), "&") == pairs;
    forall i | 0 <= i < |ps| ensures ParsePair(pairs[i]) == ps[i] {
      PairRoundTrip(ps[i]);
    }
  }

  /** The text after the tile URL's first `?` is the parameter string, and it
      reads back as the ten parameters whenever neither the key nor the style
      holds `&`. A `#` in either would start a fragment in a browser; that
      cut is not part of `QueryOf`. */
  lemma TileQueryRoundTrip(key: string, style: string)
    requires '&' !in key && '&' !in style
    ensures QueryOf(TileUrl(key, style)) == Some(ParameterString(TileParameters(key, style)))
    ensures ParseQuery(ParameterString(TileParameters(key, style))) == TileParameters(key, style)
  {
    TileUrlQuery(key, style);
    TileParametersUnambiguous(key, style);
    ParameterStringRoundTrip(TileParameters(key, style));
  }

  /** Everything after the first `?` of the tile URL is the parameter string. */
  lemma TileUrlQuery(key: string, style: string)
    ensures QueryOf(TileUrl(key, style)) == Some(ParameterString(TileParameters(key, style)))
  {
    EndpointHasNoQuery(TileEndpoint);
    QueryAfterMark(TileEndpoint, ParameterString(TileParameters(key, style)));
  }

  lemma QueryAfterMark(base: string, q: string)
    requires '?' !in base
    ensures QueryOf(base + "?" + q) == Some(q)
  {
    assert base + "?" + q == base + ("?" + q);
    QueryStarts(base, q);
  }

  /** The tile endpoint has no `?`; the endpoint is a parameter equal to the
      constant for the same reason as in `EpsgNameUnescaped`. */
  lemma EndpointHasNoQuery(e: string)
    requires e == TileEndpoint
    ensures '?' !in e
  {
  }

  /** The tile parameters are unambiguous when the key and the style are
      free of `&`: `encodeURI` keeps `&` but never introduces one. */
  lemma TileParametersUnambiguous(key: string, style: string)
    requires '&' !in key && '&' !in style
    ensures Unambiguous(TileParameters(key, style))
  {
    EncodeUriKeeps(style, '&');
    TileMatrixSetPlain(style);
    ParametersUnambiguous(key, EncodeUri(ViewFor(style).tileMatrixSet), EncodeUri(style));
  }

  /** The parameters are unambiguous when the three variable values are
      free of `&`. */
  lemma ParametersUnambiguous(key: string, tileMatrixSet: string, layer: string)
    requires '&' !in key && '&' !in tileMatrixSet && '&' !in layer
    ensures Unambiguous(Parameters(key, tileMatrixSet, layer))
  {
    var vs := ParameterValues(key, tileMatrixSet, layer);
    var ps := Parameters(key, tileMatrixSet, layer);
    ParameterNamesPlain();
    ParameterValuesPlain(key, tileMatrixSet, layer);
    assert forall i :: 0 <= i < |ps| ==> ps[i] == (ParameterNames[i], vs[i]);
  }

  /** The encoded tile matrix set holds no `&`. */
  lemma TileMatrixSetPlain(style: string)
    ensures '&' !in EncodeUri(ViewFor(style).tileMatrixSet)
  {
    var t := ViewFor(style).tileMatrixSet;
    TileMatrixSetUnescaped(style);
    EpsgNamePlain(t);
  }

  /** Neither tile matrix set name holds `&`; shaped like
      `EpsgNameUnescaped` to keep the literals out of the callers' proofs. */
  lemma EpsgNamePlain(t: string)
    requires t == "EPSG:3857" || t == "EPSG:27700"
    ensures '&' !in t
  {
  }

  /** No parameter name holds `=` or `&`. */
  lemma ParameterNamesPlain()
    ensures forall i :: 0 <= i < |ParameterNames| ==> '=' !in ParameterNames[i] && '&' !in ParameterNames[i]
  {
  }

  /** The fixed parameter values hold no `&`, so only the key, the tile
      matrix set and the layer could. */
  lemma ParameterValuesPlain(key: string, tileMatrixSet: string, layer: string)
    requires '&' !in key && '&' !in tileMatrixSet && '&' !in layer
    ensures forall i :: 0 <= i < |ParameterNames| ==> '&' !in ParameterValues(key, tileMatrixSet, layer)[i]
  {
  }

  // ---------------------------------------------------------------------
  // Setting up the page
  // ---------------------------------------------------------------------

  const KeyPrompt := "To view the map, please enter a valid API key."

  const Attribution := "&copy; <a href=\"http://www.ordnancesurvey.co.uk/\">Ordnance Survey</a>"

  /** The message banner: its text, whether it is styled as a warning, and
      whether the instructions below it are hidden. */
  datatype Banner = Banner(text: string, warning: bool, instructionsHidden: bool)

  datatype TileLayer = TileLayer(urlTemplate: string, maxZoom: nat, attribution: string)

  datatype LeafletMap = LeafletMap(view: ViewOptions, layer: TileLayer)

  /** What the page shows after set-up: the banner, and the Leaflet map if one was made. */
  datatype Page = Page(banner: Banner, leafletMap: Option<LeafletMap>)

  /** `setupLayer`: the previous map is always removed; an empty key shows
      the prompt as a warning with the instructions and makes no map;
      otherwise the banner is calmed and a map is built for the style. */
  function SetupLayer(key: string, style: string): (p: Page)
    ensures p.leafletMap.None? <==> key == ""
    ensures p.banner.text == KeyPrompt
    ensures p.banner.warning <==> key == ""
    ensures p.banner.warning <==> !p.banner.instructionsHidden
    ensures p.leafletMap.Some? ==> p.leafletMap.value.view == ViewFor(style)
    ensures p.leafletMap.Some? ==> p.leafletMap.value.layer.urlTemplate == TileUrl(key, style)
    ensures p.leafletMap.Some? ==> p.leafletMap.value.view.maxZoom <= p.leafletMap.value.layer.maxZoom
  {
    if key == "" then Page(Banner(KeyPrompt, true, false), None)
    else
      var layer := TileLayer(TileUrl(key, style), LayerMaxZoom, Attribution);
      Page(Banner(KeyPrompt, false, true), Some(LeafletMap(ViewFor(style), layer)))
  }
}
