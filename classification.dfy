/**
 * The value-level behaviour of the HTTPMeta link (chains/links/http_meta.py):
 * how one flow is classified, how its request URI is cleaned, and what the
 * link yields for a whole input stream.
 *
 * A flow record is the dictionary the upstream Flows link produces. The link
 * reads `protocol`, `direction` and `payload`, and writes one key, `http`.
 */
module Classification {
  import opened Wrappers
  import opened Dpkt
  import Urllib

  // ---------------------------------------------------------------------
  // URI cleaning (`_clean_uri`) and `_get_application_type`

  /** `str.replace('+', ' ')`. */
  function ReplacePlus(s: string): (r: string)
    ensures |r| == |s|
    ensures forall i :: 0 <= i < |s| ==> r[i] == (if s[i] == '+' then ' ' else s[i])
  {
    if s == [] then [] else [if s[0] == '+' then ' ' else s[0]] + ReplacePlus(s[1..])
  }

  /**
   * `_clean_uri`: percent-decode first, then turn every `+` into a space.
   * The result never contains `+`, and it is never longer than the input.
   */
  function CleanUri(uri: string): (r: string)
    ensures '+' !in r
    ensures |r| <= |uri|
  {
    ReplacePlus(Urllib.Unquote(uri))
  }

  /** A URI with neither `%` nor `+` comes out of cleaning exactly as it went in. */
  lemma CleanUriPlain(uri: string)
    requires '%' !in uri && '+' !in uri
    ensures CleanUri(uri) == uri
  {
    Urllib.UnquotePlainPrefix(uri, []);
    assert uri + [] == uri;
  }

  /** Cleaning a fully percent-encoded URI gives back the original with `+` read as a space. */
  lemma CleanUriQuoted(s: string)
    requires Urllib.IsByteString(s)
    ensures CleanUri(Urllib.Quote(s)) == ReplacePlus(s)
    ensures '+' !in s ==> CleanUri(Urllib.Quote(s)) == s
  {
    Urllib.UnquoteQuote(s);
  }

  /** Because `+` is replaced after decoding, an encoded plus `%2B` also becomes a space. */
  lemma CleanUriEncodedPlus()
    ensures CleanUri("%2B") == " "
    ensures CleanUri("a%2bb") == "a b"
  {
    assert Urllib.StartsWithEscape("%2B");
    assert Urllib.Unquote("%2B") == "+";
    assert "a%2bb"[1..] == "%2bb";
    assert Urllib.StartsWithEscape("%2bb");
    assert "%2bb"[3..] == "b";
    assert Urllib.Unquote("a%2bb") == "a+b";
  }

  /** Unquoting the example of `CleanUriExample`: only the escapes change. */
  lemma UnquoteExample()
    ensures Urllib.Unquote("%2Fa+b%2Fc") == "/a+b/c"
  {
    var s := "%2Fa+b%2Fc";
    assert Urllib.StartsWithEscape(s);
    assert Urllib.DecodeEscape('2', 'F') == '/';
    assert s[3..] == "a+b%2Fc";
    assert Urllib.Unquote("a+b%2Fc") == "a+b" + Urllib.Unquote("%2Fc") by {
      Urllib.UnquotePlainPrefix("a+b", "%2Fc");
      assert "a+b" + "%2Fc" == "a+b%2Fc";
    }
    assert Urllib.StartsWithEscape("%2Fc");
    assert "%2Fc"[3..] == "c";
    assert Urllib.Unquote("c") == "c" by {
      Urllib.UnquotePlainPrefix("c", []);
      assert "c" + [] == "c";
    }
  }

  /** The worked example: `%2Fa+b%2Fc` cleans to `/a b/c`. */
  lemma CleanUriExample()
    ensures CleanUri("%2Fa+b%2Fc") == "/a b/c"
  {
    UnquoteExample();
    var r := ReplacePlus("/a+b/c");
    forall i | 0 <= i < 6
      ensures r[i] == "/a b/c"[i]
    {
    }
  }


  /**
   * `_get_application_type`, applied to the name of the value's class:
   * the class name, or `None` when the value is a plain `str`.
   */
  function GetApplicationType(className: string): (r: Option<string>)
    ensures r.None? <==> className == "str"
    ensures r.Some? ==> r.value == className
  {
    if className != "str" then Some(className) else None
  }

  // ---------------------------------------------------------------------
  // The `http` annotation

  /**
   * The value stored under `flow['http']`. `Unclassified` is Python's
   * `None`; the others are the dictionaries `{'type': ..., 'data': ...}`.
   * `make_dict` is read as a field-for-field copy of the parsed message.
   */
  datatype Annotation =
    | Unclassified
    | HttpRequest(request: Request)
    | HttpsRequest(tlsRecords: seq<TlsRecord>)
    | HttpResponse(response: Response)
  {
    /** The `type` entry of the dictionary, or `None` for an unclassified flow. */
    function Type(): (t: Option<string>)
      ensures t.None? <==> Unclassified?
    {
      match this
      case Unclassified => None
      case HttpRequest(_) => Some("HTTP_REQUEST")
      case HttpsRequest(_) => Some("HTTPS_REQUEST")
      case HttpResponse(_) => Some("HTTP_RESPONSE")
    }

    /** `data['uri']` of a request annotation. */
    function Uri(): Option<string>
      requires HttpRequest? || HttpsRequest?
    {
      if HttpRequest? then Some(request.uri) else None
    }

    /** `data['headers']` of a classified annotation. */
    function Headers(): Option<Headers>
      requires !Unclassified?
    {
      match this
      case HttpRequest(rq) => Some(rq.headers)
      case HttpsRequest(_) => None
      case HttpResponse(rs) => Some(rs.headers)
    }
  }

  /** The request data the link stores: dpkt's fields, with the URI cleaned. */
  function RequestData(request: Request): Request {
    request.(uri := CleanUri(request.uri))
  }

  /**
   * The body of the loop for one TCP flow (lines 33-57): client-to-server
   * payloads are tried as an HTTP request, then as TLS records; every other
   * direction only as an HTTP response. A decoder failure never escapes: it
   * falls through to the next decoder or to `None`.
   */
  function Classify(dpkt: Decoders, direction: string, payload: Payload): (a: Annotation)
    ensures a.HttpRequest? <==> direction == "CTS" && dpkt.request(payload).Ok?
    ensures a.HttpsRequest? <==> direction == "CTS" && dpkt.request(payload).Err? && dpkt.tlsMulti(payload).Ok?
    ensures a.HttpResponse? <==> direction != "CTS" && dpkt.response(payload).Ok?
    ensures a.HttpRequest? ==> a.request == RequestData(dpkt.request(payload).value)
    ensures a.HttpsRequest? ==> a.tlsRecords == dpkt.tlsMulti(payload).value.0
    ensures a.HttpResponse? ==> a.response == dpkt.response(payload).value
  {
    if direction == "CTS" then
      match dpkt.request(payload)
      case Ok(request) => HttpRequest(RequestData(request))
      case Err(_) =>
        match dpkt.tlsMulti(payload)
        case Ok((records, _)) => HttpsRequest(records)
        case Err(_) => Unclassified
    else
      match dpkt.response(payload)
      case Ok(response) => HttpResponse(response)
      case Err(_) => Unclassified
  }

  // ---------------------------------------------------------------------
  // Flow records and the whole stream

  /**
   * A snapshot of one flow dictionary. `http` is `None` while the key is
   * absent and `Some(a)` once the link has stored `a` under it.
   */
  datatype FlowRecord = FlowRecord(
    protocol: string,
    direction: string,
    payload: Payload,
    src: string,
    dst: string,
    http: Option<Annotation>)
  {
    predicate IsTcp() { protocol == "TCP" }

    /** Everything the link must leave alone: the record with its `http` key removed. */
    function Unannotated(): FlowRecord { this.(http := None) }
  }

  /** The record after the link has stored its classification. */
  function Annotate(dpkt: Decoders, r: FlowRecord): (a: FlowRecord)
    ensures a.Unannotated() == r.Unannotated()
    ensures a.http.Some?
  {
    r.(http := Some(Classify(dpkt, r.direction, r.payload)))
  }

  /**
   * What `_http_meta_data` yields for the input stream `flows`, as values:
   * non-TCP flows are skipped, every TCP flow is annotated and yielded.
   * It is defined on the last element so that the output for a prefix of
   * the stream is a prefix of the output, as the generator produces it.
   */
  function HttpMetaData(dpkt: Decoders, flows: seq<FlowRecord>): (out: seq<FlowRecord>)
    ensures |out| <= |flows|
    ensures forall r :: r in out ==> r.IsTcp() && r.http == Some(Classify(dpkt, r.direction, r.payload))
    decreases |flows|
  {
    if flows == [] then []
    else
      var last := flows[|flows| - 1];
      HttpMetaData(dpkt, flows[..|flows| - 1]) + (if last.IsTcp() then [Annotate(dpkt, last)] else [])
  }

  /** The positions of the TCP flows of `flows`, in increasing order. */
  function TcpIndices(flows: seq<FlowRecord>): (ix: seq<nat>)
    ensures forall k :: 0 <= k < |ix| ==> ix[k] < |flows| && flows[ix[k]].IsTcp()
    ensures forall k, l :: 0 <= k < l < |ix| ==> ix[k] < ix[l]
    decreases |flows|
  {
    if flows == [] then []
    else
      var n := |flows| - 1;
      var prefix := TcpIndices(flows[..n]);
      assert forall k :: 0 <= k < |prefix| ==> flows[prefix[k]] == flows[..n][prefix[k]];
      prefix + (if flows[n].IsTcp() then [n] else [])
  }
}
