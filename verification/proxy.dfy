/** The key-injecting proxy of the Airports demo: at start-up it takes the
    API key from the command line; for every request under `/proxy` it
    builds the upstream URL by appending the key, and either pipes the
    upstream body back unchanged or, for a GetCapabilities request, first
    deletes every `key=<key>` from the body and then points every upstream
    host reference back at the proxy. HTTP transport is a parameter: the
    upstream fetch is the function `upstream` from URL to body. */
module Proxy {
  import opened Wrappers
  import opened Sequences
  import opened Strings

  /** The fixed upstream endpoint every request is forwarded to. */
  const UpstreamOrigin: string := "https://osdatahubapi.os.uk"

  /** The path the proxy router is mounted on. */
  const MountPath: string := "/proxy"

  /** The word that marks a capabilities request, compared ignoring case. */
  const CapabilitiesWord: string := "getcapabilities"

  /** The error thrown at start-up when no key is given. */
  const MissingKeyMessage: string :=
    "Please provide an API key on the command line.\nUsage: server.js <API key>"

  /** A started server: the key is fixed for the life of the process. */
  datatype Server = Server(key: string)

  /** Start-up: the key is the third command-line argument (`process.argv[2]`);
      an absent or empty one is an error and no server comes into being. */
  function Start(argv: seq<string>): (r: Result<Server, string>)
    ensures r.Success? <==> |argv| > 2 && argv[2] != ""
    ensures r.Success? ==> r.value.key == argv[2] && |r.value.key| > 0
    ensures r.Failure? ==> r.error == MissingKeyMessage
  {
    if |argv| <= 2 || argv[2] == "" then Failure(MissingKeyMessage)
    else Success(Server(argv[2]))
  }

  /** The query parameter that carries the key. */
  function KeyParam(key: string): string {
    "key=" + key
  }

  /** `&` when the request URL already has a query string, `?` otherwise. */
  function Separator(reqUrl: string): (sep: string)
    ensures sep == (if '?' in reqUrl then "&" else "?")
  {
    ContainsChar(reqUrl, '?');
    if Contains(reqUrl, "?") then "&" else "?"
  }

  /** What follows the origin in the upstream URL: the request URL, the
      separator and the key parameter. */
  function PathAndQuery(reqUrl: string, key: string): string {
    reqUrl + (Separator(reqUrl) + KeyParam(key))
  }

  /** The URL fetched upstream for the router-relative request URL `reqUrl`:
      it starts with the upstream origin followed by `reqUrl` unchanged, then
      one separator character, and ends with the key parameter. */
  function UpstreamUrl(reqUrl: string, key: string): (u: string)
    ensures IsPrefix(UpstreamOrigin + reqUrl, u)
    ensures IsSuffix(KeyParam(key), u)
    ensures |u| == |UpstreamOrigin| + |reqUrl| + 1 + |KeyParam(key)|
    ensures u[|UpstreamOrigin| + |reqUrl|] == (if '?' in reqUrl then '&' else '?')
  {
    var tail := Separator(reqUrl) + KeyParam(key);
    var u := UpstreamOrigin + (reqUrl + tail);
    assert u[..|UpstreamOrigin| + |reqUrl|] == UpstreamOrigin + reqUrl;
    assert u[|u| - |KeyParam(key)|..] == KeyParam(key);
    assert u[|UpstreamOrigin| + |reqUrl|] == tail[0] == Separator(reqUrl)[0];
    u
  }

  /** The origin has no query part. */
  lemma OriginHasNoQuery()
    ensures '?' !in UpstreamOrigin
  {
  }

  /** The origin holds no `g` in either case: `g` is the first letter of
      the capabilities word. */
  lemma OriginHasNoG()
    ensures 'g' !in UpstreamOrigin && 'G' !in UpstreamOrigin
  {
  }

  /** Reads the request URL back out of an upstream URL built with `key`. */
  function RequestUrlOf(u: string, key: string): (r: Option<string>)
    ensures r.Some? ==> |UpstreamOrigin| + |r.value| + 1 + |KeyParam(key)| == |u|
  {
    var tail := 1 + |KeyParam(key)|;
    if |u| >= |UpstreamOrigin| + tail && IsPrefix(UpstreamOrigin, u) && IsSuffix(KeyParam(key), u)
    then Some(u[|UpstreamOrigin|..|u| - tail])
    else None
  }

  /** The request URL is recoverable from the upstream URL: building loses nothing. */
  lemma UpstreamUrlRoundTrip(reqUrl: string, key: string)
    ensures RequestUrlOf(UpstreamUrl(reqUrl, key), key) == Some(reqUrl)
  {
  }

  /** Conversely, a URL of the upstream shape with the right separator is
      the upstream URL of the request URL read out of it. */
  lemma RequestUrlOfSound(u: string, key: string, reqUrl: string)
    requires RequestUrlOf(u, key) == Some(reqUrl)
    requires u[|UpstreamOrigin| + |reqUrl|] == (if '?' in reqUrl then '&' else '?')
    ensures UpstreamUrl(reqUrl, key) == u
  {
  }

  /** The key becomes the last parameter of the upstream query string: the
      query is the request's own query followed by `&key=…`, or just `key=…`
      when the request had none. */
  lemma KeyIsLastParameter(reqUrl: string, key: string)
    ensures QueryOf(UpstreamUrl(reqUrl, key)) ==
      Some(match QueryOf(reqUrl) case None => KeyParam(key) case Some(q) => q + "&" + KeyParam(key))
  {
    var kp := KeyParam(key);
    OriginHasNoQuery();
    QueryPastPrefix(UpstreamOrigin, PathAndQuery(reqUrl, key));
    if '?' in reqUrl {
      QueryExtends(reqUrl, "&" + kp);
      assert QueryOf(reqUrl).value + ("&" + kp) == QueryOf(reqUrl).value + "&" + kp;
    } else {
      QueryStarts(reqUrl, kp);
    }
  }

  /** `/getcapabilities/i.test(url)`: the word occurs in the URL, ignoring
      the case of ASCII letters. */
  predicate IsCapabilities(url: string) {
    Contains(Lower(url), CapabilitiesWord)
  }

  /** The word starts at `i` when each character, lower-cased, matches it. */
  predicate WordAt(url: string, i: nat) {
    i + |CapabilitiesWord| <= |url| &&
    forall k :: 0 <= k < |CapabilitiesWord| ==> LowerChar(url[i + k]) == CapabilitiesWord[k]
  }

  /** The capabilities test holds exactly when the word starts somewhere in
      the URL, character by character ignoring case. */
  lemma CapabilitiesIff(url: string)
    ensures IsCapabilities(url) <==> exists i: nat :: WordAt(url, i)
  {
    var low := Lower(url);
    ContainsIff(low, CapabilitiesWord);
    forall i: nat
      ensures OccursAt(low, CapabilitiesWord, i) <==> WordAt(url, i)
    {
    }
  }

  /** The upstream origin never takes part in a capabilities match (it holds
      no `g`), so the test is decided by the request URL and the key parameter. */
  lemma CapabilitiesIgnoresOrigin(reqUrl: string, key: string)
    ensures IsCapabilities(UpstreamUrl(reqUrl, key)) <==> IsCapabilities(PathAndQuery(reqUrl, key))
  {
    var rest := PathAndQuery(reqUrl, key);
    assert UpstreamUrl(reqUrl, key) == UpstreamOrigin + rest;
    OriginHasNoG();
    CapabilitiesPastPrefix(UpstreamOrigin, rest);
  }

  /** Prefixing text without `g` or `G` changes no capabilities test. */
  lemma CapabilitiesPastPrefix(pre: string, rest: string)
    requires 'g' !in pre && 'G' !in pre
    ensures IsCapabilities(pre + rest) <==> IsCapabilities(rest)
  {
    forall i | 0 <= i < |pre| ensures Lower(pre)[i] != 'g' {
      assert pre[i] != 'g' && pre[i] != 'G';
    }
    LowerConcat(pre, rest);
    ContainsPastPrefix(Lower(pre), Lower(rest), CapabilitiesWord);
  }

  /** A request URL mentioning the word in any letter case is always
      handled as a capabilities request. */
  lemma CapabilitiesFromRequest(reqUrl: string, key: string)
    requires IsCapabilities(reqUrl)
    ensures IsCapabilities(UpstreamUrl(reqUrl, key))
  {
    var u := UpstreamUrl(reqUrl, key);
    var n := |UpstreamOrigin|;
    var i := IndexOf(Lower(reqUrl), CapabilitiesWord).value;
    assert u[..n + |reqUrl|] == UpstreamOrigin + reqUrl;
    forall k | 0 <= k < |CapabilitiesWord|
      ensures Lower(u)[n + i + k] == CapabilitiesWord[k]
    {
      assert u[n + i + k] == (UpstreamOrigin + reqUrl)[n + i + k] == reqUrl[i + k];
      assert Lower(reqUrl)[i + k] == CapabilitiesWord[k];
    }
    assert OccursAt(Lower(u), CapabilitiesWord, n + i);
  }

  /** Text put in front never hides the word. */
  lemma CapabilitiesInSuffix(pre: string, rest: string)
    requires IsCapabilities(rest)
    ensures IsCapabilities(pre + rest)
  {
    var i := IndexOf(Lower(rest), CapabilitiesWord).value;
    var n := |pre|;
    LowerConcat(pre, rest);
    var low := Lower(pre) + Lower(rest);
    forall k | 0 <= k < |CapabilitiesWord|
      ensures low[n + i + k] == CapabilitiesWord[k]
    {
      assert low[n + i + k] == Lower(rest)[i + k];
    }
    assert OccursAt(low, CapabilitiesWord, n + i);
  }

  /** The test runs on the URL with the key already appended, so a key that
      spells the word, in any letter case, makes every request a
      capabilities request. */
  lemma KeyForcesCapabilities(reqUrl: string, key: string)
    requires IsCapabilities(key)
    ensures IsCapabilities(UpstreamUrl(reqUrl, key))
  {
    CapabilitiesInSuffix("key=", key);
    var head := UpstreamOrigin + reqUrl + Separator(reqUrl);
    assert UpstreamUrl(reqUrl, key) == head + KeyParam(key);
    CapabilitiesInSuffix(head, KeyParam(key));
  }

  predicate IsAsciiAlphanumeric(c: char) {
    'a' <= c <= 'z' || 'A' <= c <= 'Z' || '0' <= c <= '9'
  }

  /** A key the redaction expression matches literally: non-empty, letters
      and digits only. */
  predicate ValidKey(key: string) {
    |key| > 0 && forall i :: 0 <= i < |key| ==> IsAsciiAlphanumeric(key[i])
  }

  /** `body.replace(new RegExp('key=' + key, 'g'), '')`: every left-to-right,
      non-overlapping occurrence of `key=<key>` is deleted. The result is the
      text between the occurrences, in order; the other characters are kept
      in order; a body without the parameter is returned unchanged. */
  function RedactKey(body: string, key: string): (r: string)
    requires ValidKey(key)
    ensures r == Join(Split(body, KeyParam(key)), "")
    ensures IsSubsequence(r, body)
    ensures !Contains(body, KeyParam(key)) ==> r == body
  {
    ReplaceAllIsSplitJoin(body, KeyParam(key), "");
    DeleteAllIsSubsequence(body, KeyParam(key));
    ReplaceAll(body, KeyParam(key), "")
  }

  /** What the redaction works on: the body is its pieces separated by
      `key=<key>`, no piece holds the parameter, and redaction joins the
      same pieces with nothing in between. */
  lemma RedactKeyPieces(body: string, key: string)
    requires ValidKey(key)
    ensures Join(Split(body, KeyParam(key)), KeyParam(key)) == body
    ensures forall k :: 0 <= k < |Split(body, KeyParam(key))| ==>
      !Contains(Split(body, KeyParam(key))[k], KeyParam(key))
    ensures RedactKey(body, key) == Join(Split(body, KeyParam(key)), "")
  {
    JoinSplit(body, KeyParam(key));
    SplitPiecesFree(body, KeyParam(key));
  }

  /** The length of a redacted body: each deletion removes exactly one
      `key=<key>`, and there is one fewer deletion than split pieces. */
  lemma RedactedLength(body: string, key: string)
    requires ValidKey(key)
    ensures |RedactKey(body, key)| + (|Split(body, KeyParam(key))| - 1) * |KeyParam(key)| == |body|
  {
    var n, m := |Split(body, KeyParam(key))| - 1, |KeyParam(key)|;
    ReplaceAllLength(body, KeyParam(key), "");
    assert n * (|""| - m) == -(n * m) by {
      assert |""| == 0;
    }
  }

  /** In `k` `key=<key>` `ey=<key>` the parameter occurs once, at index 1. */
  lemma ReformingBodyOccurrence(key: string, body: string, next: nat)
    requires ValidKey(key) && body == "k" + (KeyParam(key) + ("ey=" + key))
    requires next == 1 + |KeyParam(key)|
    ensures IndexFrom(body, KeyParam(key), 0) == Some(1)
    ensures next <= |body| && body[next..] == "ey=" + key
    ensures IndexFrom(body, KeyParam(key), next).None?
  {
    var kp := KeyParam(key);
    var tail := "ey=" + key;
    assert !OccursAt(body, kp, 0) by {
      assert body[1] == 'k' != kp[1];
    }
    assert OccursAt(body, kp, 1) by {
      forall k | 0 <= k < |kp| ensures body[1 + k] == kp[k] {
        assert body[1 + k] == (kp + tail)[k];
      }
    }
    IndexFromStep(body, kp, 0, 1);
    IndexFromHere(body, kp, 1);
    assert body[next..] == tail;
  }

  /** One pass of deletion can join two pieces into a new `key=<key>`: the
      body `k` `key=<key>` `ey=<key>` redacts to `key=<key>`. */
  lemma RedactionCanReformKey(key: string)
    requires ValidKey(key)
    ensures RedactKey("k" + (KeyParam(key) + ("ey=" + key)), key) == KeyParam(key)
    ensures Contains(RedactKey("k" + (KeyParam(key) + ("ey=" + key)), key), KeyParam(key))
  {
    var kp := KeyParam(key);
    var body := "k" + (kp + ("ey=" + key));
    var next := 1 + |kp|;
    ReformingBodyOccurrence(key, body, next);
    ReplaceFromNext(body, kp, "", 0, 1, next);
    assert body[0..1] + "" + body[next..] == kp;
    assert OccursAt(kp, kp, 0) by {
      forall k | 0 <= k < |kp| ensures kp[0 + k] == kp[k] {
      }
    }
    IndexFromHere(kp, kp, 0);
  }

  /** The base every upstream host reference is rewritten to: the proxy's
      own mount point on the host the client addressed. */
  function ProxyBase(host: string): string {
    "http://" + host + MountPath
  }

  /** `body.replace(/https:\/\/osdatahubapi.os.uk/g, 'http://' + host + '/proxy')`,
      the pattern taken literally. */
  function RewriteHost(body: string, host: string): (r: string)
    requires '$' !in host
    ensures r == Join(Split(body, UpstreamOrigin), ProxyBase(host))
    ensures !Contains(body, UpstreamOrigin) ==> r == body
    ensures |r| == |body| + (|Split(body, UpstreamOrigin)| - 1) * (|ProxyBase(host)| - |UpstreamOrigin|)
  {
    ReplaceAllIsSplitJoin(body, UpstreamOrigin, ProxyBase(host));
    ReplaceAllLength(body, UpstreamOrigin, ProxyBase(host));
    ReplaceAll(body, UpstreamOrigin, ProxyBase(host))
  }

  /** What the rewriting works on: the body is its pieces separated by the
      upstream origin, no piece holds the origin, and rewriting joins the
      same pieces with the proxy base instead. */
  lemma RewriteHostPieces(body: string, host: string)
    requires '$' !in host
    ensures Join(Split(body, UpstreamOrigin), UpstreamOrigin) == body
    ensures forall k :: 0 <= k < |Split(body, UpstreamOrigin)| ==>
      !Contains(Split(body, UpstreamOrigin)[k], UpstreamOrigin)
    ensures RewriteHost(body, host) == Join(Split(body, UpstreamOrigin), ProxyBase(host))
  {
    JoinSplit(body, UpstreamOrigin);
    SplitPiecesFree(body, UpstreamOrigin);
  }

  /** The capabilities body sent to the client: the key is redacted first,
      and the host is rewritten in what remains. */
  function Sanitise(body: string, key: string, host: string): (r: string)
    requires ValidKey(key) && '$' !in host
    ensures r == Join(Split(RedactKey(body, key), UpstreamOrigin), ProxyBase(host))
    ensures !Contains(body, KeyParam(key)) && !Contains(body, UpstreamOrigin) ==> r == body
  {
    RewriteHost(RedactKey(body, key), host)
  }

  /** What the client receives: a rewritten capabilities document, or the
      upstream body piped through. */
  datatype Delivery = Rewritten(body: string) | Piped(body: string)

  /** One proxied request: the URL fetched upstream and what is delivered. */
  datatype Exchange = Exchange(upstreamUrl: string, delivery: Delivery)

  /** The `/proxy` route handler. `reqUrl` is the request URL relative to the
      mount point, `host` the request's Host header and `upstream` the body
      the upstream server returns for a URL. */
  function Handle(server: Server, reqUrl: string, host: string, upstream: string -> string): (e: Exchange)
    requires ValidKey(server.key) && '$' !in host
    ensures e.upstreamUrl == UpstreamUrl(reqUrl, server.key)
    ensures e.delivery.Rewritten? <==> IsCapabilities(e.upstreamUrl)
    ensures e.delivery.Piped? ==> e.delivery.body == upstream(e.upstreamUrl)
    ensures e.delivery.Rewritten? ==>
      e.delivery.body == RewriteHost(RedactKey(upstream(e.upstreamUrl), server.key), host)
  {
    var url := UpstreamUrl(reqUrl, server.key);
    if IsCapabilities(url) then Exchange(url, Rewritten(Sanitise(upstream(url), server.key, host)))
    else Exchange(url, Piped(upstream(url)))
  }

  /** A request whose URL, separator and key parameter never spell the word
      gets the upstream body verbatim. */
  lemma PlainRequestPassesThrough(server: Server, reqUrl: string, host: string, upstream: string -> string)
    requires ValidKey(server.key) && '$' !in host
    requires !IsCapabilities(PathAndQuery(reqUrl, server.key))
    ensures Handle(server, reqUrl, host, upstream) ==
      Exchange(UpstreamUrl(reqUrl, server.key), Piped(upstream(UpstreamUrl(reqUrl, server.key))))
  {
    CapabilitiesIgnoresOrigin(reqUrl, server.key);
  }
}
