# OS Data Hub demos: key-injecting proxy and map configuration, in Dafny

This project models two small pieces of the OS Data Hub demonstration code as
pure functions over strings, numbers and records, and proves their properties.

- **The Airports proxy** (`Airports/server.js`). At start-up the server reads
  the API key from the command line and refuses to start without one. For
  every GET request under `/proxy` it builds the upstream URL
  `https://osdatahubapi.os.uk` + request URL + `?` or `&` + `key=<key>`.
  When that URL mentions `getcapabilities` in any letter case, the upstream
  body is rewritten in two global passes before it is sent: every
  `key=<key>` is deleted, then every upstream origin is replaced by
  `http://<host>/proxy`. Any other body is piped through unchanged.
- **The Leaflet map page** (`OSMapsAPI/Leaflet/map.js`). It covers:
  - the eight-colour scale of the COVID-19 choropleth;
  - the view options picked from the map style (EPSG:3857 or EPSG:27700);
  - the WMTS tile URL, built from ten ordered `name=value` pairs joined by
    `&`, with the tile matrix set and the style name passed through
    `encodeURI`;
  - the guard that shows a warning and builds no map when the key is empty;
  - the join of death records to a region by `areaName`, and the style a
    region gets from its first record.

The modules are:
- `Wrappers`: `Option` and `Result`.
- `Sequences`: order-preserving sub-sequences.
- `Strings`: the JavaScript operations the code uses, namely `indexOf`,
  `replace` with a global literal pattern and `Array.prototype.join`. ASCII
  lower-casing models the regular-expression `i` flag. Splitting at a
  separator (`Split`) and the text after a URL's first `?` (`QueryOf`) are
  reference definitions that the code does not call.
- `UriCodec`: `encodeURI`, with a percent-decoder as its inverse.
- `Proxy`: the server.
- `MapView`: the map page.

I/O is turned into parameters:
- the upstream HTTP fetch is a function `upstream` from URL to body;
- the `Host` header is the string `host`;
- the command line is `argv`;
- the form fields are `key` and `style`;
- the fetched death records are a sequence.

## Model

| member | source | states |
|---|---|---|
| Proxy.Start | Airports/server.js:6-9 | The key check passes exactly when a third command-line argument is present and non-empty; the key is that argument; otherwise the error is the usage message. Keys that then fail to compile as a regular expression are outside the model (see Left out). |
| Proxy.Separator | Airports/server.js:21-24 | The separator is `&` exactly when the request URL contains `?` anywhere, and `?` otherwise. |
| Proxy.UpstreamUrl | Airports/server.js:25 | The upstream URL starts with the upstream origin followed by the request URL unchanged, ends with `key=<key>`, has the separator matching the `?` test in between, and has exactly that length. |
| Proxy.UpstreamUrlRoundTrip | Airports/server.js:25 | The request URL can be read back out of the upstream URL, so URL construction loses nothing. |
| Proxy.RequestUrlOfSound | Airports/server.js:21-25 | Conversely, any URL with the upstream shape and the separator the request URL calls for is the upstream URL of that request URL. |
| Proxy.KeyIsLastParameter | Airports/server.js:21-25 | The query of the upstream URL is the request's own query followed by `&key=<key>`, or just `key=<key>` when the request had no `?`. |
| Proxy.CapabilitiesIff | Airports/server.js:14 | The capabilities test holds exactly when `getcapabilities` starts at some position, each character compared after ASCII lower-casing. |
| Proxy.CapabilitiesIgnoresOrigin | Airports/server.js:25-27 | The upstream origin never takes part in a match, so the test on the built URL is decided by the request URL, the separator and the key parameter. |
| Proxy.CapabilitiesFromRequest | Airports/server.js:25-27 | A request URL that mentions the word in any case always leads to the capabilities branch. |
| Proxy.CapabilitiesInSuffix | Airports/server.js:27 | Text put in front of a URL that passes the test never makes it fail. |
| Proxy.KeyForcesCapabilities | Airports/server.js:25-27 | Because the test runs on the URL with the key appended, a key that spells the word makes every request a capabilities request. |
| Proxy.RedactKey | Airports/server.js:31 | The redacted body is the text between the left-to-right, non-overlapping occurrences of `key=<key>`, concatenated. It keeps every other character in order, and a body without the parameter is returned unchanged. |
| Proxy.RedactedLength | Airports/server.js:31 | Each deletion removes exactly one `key=<key>`: the length drops by the parameter's length times the number of deletions, which is one fewer than the number of split pieces. An occurrence that overlaps a deleted one is not deleted and not counted. |
| Proxy.RedactKeyPieces | Airports/server.js:31 | The body splits at `key=<key>` into pieces that rejoin to the body and contain no `key=<key>` themselves, and the redacted body is exactly those pieces joined with nothing. |
| Proxy.RedactionCanReformKey | Airports/server.js:31 | One pass can join two remnants into a new `key=<key>`: `k` + `key=<key>` + `ey=<key>` redacts to `key=<key>`, which still contains the key parameter. |
| Proxy.RewriteHost | Airports/server.js:32 | Every upstream origin is replaced by `http://<host>/proxy`. The result is the split pieces joined with that base, a body without the origin is unchanged, and the length changes by the difference per occurrence. |
| Proxy.RewriteHostPieces | Airports/server.js:32 | The body splits at the upstream origin into pieces that rejoin to the body and contain no origin themselves, and the rewritten body is exactly those pieces joined with `http://<host>/proxy`. |
| Proxy.Sanitise | Airports/server.js:31-32 | The capabilities body is redacted first and host-rewritten second. A body with neither pattern is returned byte for byte. |
| Proxy.Handle | Airports/server.js:19-38 | The upstream URL is the built URL. The body is rewritten exactly when the capabilities test holds, and then it is the upstream body redacted and then host-rewritten. Otherwise it is the upstream body itself. |
| Proxy.PlainRequestPassesThrough | Airports/server.js:35-37 | A request whose URL, separator and key parameter never spell the word gets exactly the upstream body, piped. |
| UriCodec.EncodeUri | OSMapsAPI/Leaflet/map.js:57-60 | `encodeURI` output holds only characters it leaves alone, plus `%`. It is never shorter than the input, and is longer exactly when some character needed escaping. |
| UriCodec.DecodeEncode | OSMapsAPI/Leaflet/map.js:57-60 | Percent-decoding, with UTF-8 in its shortest form only, gives back exactly the string `encodeURI` was applied to. |
| UriCodec.EncodeUriIdentity | OSMapsAPI/Leaflet/map.js:57-60 | `encodeURI` leaves a string unchanged exactly when every character is in its unescaped set. |
| UriCodec.EncodeUriKeeps | OSMapsAPI/Leaflet/map.js:60 | Reserved characters such as `&` occur in the encoded style exactly when they occur in the style: they are kept, never introduced. |
| UriCodec.Utf8RoundTrip | OSMapsAPI/Leaflet/map.js:57-60 | The UTF-8 bytes of a code point: the lead byte announces how many there are, the rest are continuation bytes, together they give the code point back, and the code point is at least the smallest one that many bytes may carry (no overlong form). |
| UriCodec.Utf8Unique | OSMapsAPI/Leaflet/map.js:57-60 | Conversely, any well-formed shortest-form byte sequence for a scalar value is exactly the bytes `encodeURI` writes for it, so each character has a single decodable encoding. |
| UriCodec.OverlongRejected | OSMapsAPI/Leaflet/map.js:57-60 | The overlong escapes `%C0%BC` for `<` do not decode; `encodeURI` writes `%3C`. |
| MapView.GetColour | OSMapsAPI/Leaflet/map.js:124-133 | The colour is always one of the eight palette colours. |
| MapView.Bucket | OSMapsAPI/Leaflet/map.js:124-133 | An upward scan of the thresholds finds the bucket: above the bound below it, at most its own bound. |
| MapView.BucketUnique | OSMapsAPI/Leaflet/map.js:125-132 | A value lies in exactly one bucket. |
| MapView.GetColourIsBucket | OSMapsAPI/Leaflet/map.js:124-133 | The top-down chain of comparisons picks the palette colour of the value's bucket. |
| MapView.ColourExtremes | OSMapsAPI/Leaflet/map.js:125-132 | `#800026` is used exactly when d > 35, and `#FFEDA0` exactly when d <= 5. |
| MapView.ThresholdIsStrict | OSMapsAPI/Leaflet/map.js:125-132 | Each threshold gets the colour of the bucket below it: 35 gives `#BD0026` and 5 gives `#FFEDA0`. |
| MapView.BucketMonotone | OSMapsAPI/Leaflet/map.js:124-133 | If d1 <= d2, the bucket of d1 is at most the bucket of d2. |
| MapView.SameColourSameBucket | OSMapsAPI/Leaflet/map.js:124-133 | Two values get the same colour exactly when they are in the same bucket. |
| MapView.ViewFor | OSMapsAPI/Leaflet/map.js:34-51 | The British National Grid is chosen exactly when `27700` occurs in the style name. It then uses EPSG:27700 with zoom 13/0/4; otherwise the EPSG:3857 defaults 20/7/10. The centre is fixed, and minZoom <= zoom <= maxZoom <= the layer's maxZoom of 20. |
| MapView.TileMatrixSetUnescaped | OSMapsAPI/Leaflet/map.js:57 | `encodeURI` leaves both tile matrix set names unchanged. |
| MapView.Parameters | OSMapsAPI/Leaflet/map.js:55-66 | Ten parameters with the declared names, in declaration order; the key, the tile matrix set and the layer are in their declared places. |
| MapView.ParameterStringRoundTrip | OSMapsAPI/Leaflet/map.js:67-69 | Joining `name=value` pairs with `&` and parsing back gives the same pairs in the same order, when names hold no `=` or `&` and values no `&`. |
| MapView.TileUrlQuery | OSMapsAPI/Leaflet/map.js:70-71 | Everything after the first `?` of the tile URL is the parameter string. |
| MapView.TileParametersUnambiguous | OSMapsAPI/Leaflet/map.js:55-66 | When neither key nor style holds `&`, no parameter name holds `=` or `&` and no value holds `&`. |
| MapView.TileQueryRoundTrip | OSMapsAPI/Leaflet/map.js:54-71 | Under that condition, the text after the tile URL's first `?` reads back as exactly the ten parameters in order. "Query" here means all of that text; a `#` in the key or style would end the query a browser sends, which this lemma does not account for. |
| MapView.SetupLayer | OSMapsAPI/Leaflet/map.js:24-32 | No map is made exactly when the key is empty. The banner warns exactly when the key is empty, and the instructions are hidden exactly when it does not warn. A map made has the view for the style, the tile URL, and a layer accepting the view's maximum zoom. |
| MapView.DeathsFor | OSMapsAPI/Leaflet/map.js:105 | The region's records are exactly the records naming the region, as an order-preserving sub-sequence of all records. |
| MapView.DeathsForCount | OSMapsAPI/Leaflet/map.js:105 | Every record of the region is kept as often as it occurs, and no other record appears. |
| MapView.DeathsForFirst | OSMapsAPI/Leaflet/map.js:105 | The first record naming the region heads its list. |
| MapView.StyleFor | OSMapsAPI/Leaflet/map.js:135-144 | Styling fails exactly when there are no records. Otherwise the fill is the palette colour of the first record's bucket, with weight 2, opacity 1, white outline, dash `3` and fill opacity 0.7. |
| MapView.RegionStyleIff | OSMapsAPI/Leaflet/map.js:105-108 | A region can be styled exactly when some record names it. |
| MapView.RegionStyleFromFirstRecord | OSMapsAPI/Leaflet/map.js:105-108 | A region's fill colour is `getColour` of its first record's new deaths. |
| MapView.StyleRegions | OSMapsAPI/Leaflet/map.js:103-111 | Styling every region succeeds exactly when each can be styled. It then gives each region its own style, in order; otherwise the error is the failed read. |

Three behaviours of the code are easy to misread, and the model states them as written:
- **Separator.** The separator is `&` whenever the request URL holds a `?`,
  including a `?` followed by an empty query (`/a?` becomes `/a?&key=…`). It is
  not chosen on whether the query is non-empty (`Proxy.Separator`).
- **What the capabilities test looks at.** It runs on the built URL, key
  included, not only on the request (`Proxy.KeyForcesCapabilities`).
- **Residual keys after redaction.** Redaction is a single left-to-right pass.
  It does not guarantee that no `key=<key>` remains: deleting one occurrence
  can join its neighbours into a new one (`Proxy.RedactionCanReformKey`).

## Left out

- HTTP transport is left out because it is I/O: Express routing (only GET, and the HEAD requests Express routes to it, reach the proxy; other methods get Express's 404), the `request` library, `.pipe(res)` streaming, `res.send`, static file serving and `app.listen` on port 8080. The upstream fetch is a function parameter.
- Upstream transport errors are left out because they belong to the transport layer. So is the `body` being undefined when a fetch fails.
- The mount-path stripping done by Express is not modelled, because it belongs to the framework. The request URL is taken as already relative to `/proxy`.
- A missing `Host` header is not modelled, because header parsing belongs to the framework. JavaScript would write the text `undefined`; the model always has a host string.
- Proxy.Start: the key is also compiled into a regular expression at server.js line 13, and a key such as `(`, `[` or one ending in `\` makes that constructor throw, so start-up fails. The model accepts every non-empty key.
- Proxy.RedactKey: the key is spliced into a regular expression. The model requires it to be non-empty letters and digits, where the pattern means itself; keys with metacharacters are not modelled.
- Proxy.RewriteHost: the host pattern's `.` characters are regular-expression wildcards. The model matches them literally, so a body with, say, `https://osdatahubapiXos.uk` is rewritten by the code but not by the model.
- Proxy.RewriteHost: the replacement text is interpreted by `String.prototype.replace`. The model requires a host without `$`, where that text is literal.
- Proxy.Handle: a capabilities request delivers the rewritten body. The buffering and the response headers are not modelled.
- Console output (`console.log`) is left out because it is I/O.
- Leaflet, Proj4 and the DOM are left out because they are foreign libraries. The EPSG:27700 projection parameters, resolutions and transformation (map.js lines 4-10) are configuration data and are not modelled; the projection is the tag `BritishNationalGrid`.
- The two `fetch` calls are left out because they are network I/O: the region GeoJSON and the death data at map.js lines 95-101 and 116-122. The region names and the records are parameters.
- The tile event handlers (`tileerror`, `tileloadstart`) are left out, because they react to browser events.
- MapView.SetupLayer: the previous map's `remove()` is represented only by the result not depending on any earlier page.
- MapView.TileQueryRoundTrip: neither `encodeURI` nor the unencoded key removes `#`, and a browser ends the query at the first `#`. The lemma reads back all the text after the first `?` and says nothing about a key or style holding `#`.
- MapView.StyleRegions: layers styled before the first region without data keep their style in the browser. The model reports only the error.
- MapView.GetColour: JavaScript numbers are modelled as reals compared exactly. `NaN`, `undefined` and `null` counts are not modelled; the code would paint them `#FFEDA0`, as its comparisons are false or treat `null` as 0.
- UriCodec.EncodeUri: lone surrogates, for which `encodeURI` throws, cannot occur because Dafny characters are Unicode scalar values.
- UriCodec.DecodeEncode: the decoder inverts this encoder. It does not reproduce `decodeURI`'s rule of keeping escapes of reserved characters, since the page never decodes.
