/**
 * Properties of the HTTPMeta link's classification, stated over the value
 * model in `Classification`.
 */
module ClassificationProperties {
  import opened Wrappers
  import opened Dpkt
  import opened Classification

  // ---------------------------------------------------------------------
  // One flow

  /**
   * Every stored annotation is `None` or a dictionary whose `type` is one of
   * the three the link writes.
   */
  lemma AnnotationTypes(dpkt: Decoders, direction: string, payload: Payload)
    ensures var t := Classify(dpkt, direction, payload).Type();
            t == None || t == Some("HTTP_REQUEST") || t == Some("HTTPS_REQUEST") || t == Some("HTTP_RESPONSE")
  {
  }

  /**
   * A client-to-server payload that parses as an HTTP request is an
   * `HTTP_REQUEST`, whatever the TLS parser would have said of it: the TLS
   * parser is not consulted.
   */
  lemma HttpRequestWins(d1: Decoders, d2: Decoders, payload: Payload)
    requires d1.request(payload).Ok? && d2.request(payload) == d1.request(payload)
    ensures Classify(d1, "CTS", payload).HttpRequest?
    ensures Classify(d1, "CTS", payload) == Classify(d2, "CTS", payload)
  {
  }

  /**
   * The TLS parser's answer matters only for a client-to-server payload on
   * which the HTTP request parser failed: two parser bundles that agree on
   * the HTTP parsers classify every other flow alike.
   */
  lemma TlsOnlyAfterHttpFails(d1: Decoders, d2: Decoders, direction: string, payload: Payload)
    requires d1.request(payload) == d2.request(payload)
    requires d1.response(payload) == d2.response(payload)
    requires direction != "CTS" || d1.request(payload).Ok?
    ensures Classify(d1, direction, payload) == Classify(d2, direction, payload)
  {
  }

  /** A client-to-server flow is unclassified exactly when both the HTTP and the TLS parser fail. */
  lemma ClientUnclassified(dpkt: Decoders, payload: Payload)
    ensures Classify(dpkt, "CTS", payload).Unclassified?
            <==> dpkt.request(payload).Err? && dpkt.tlsMulti(payload).Err?
  {
  }

  /**
   * Any other direction consults only the HTTP response parser: it is an
   * `HTTP_RESPONSE` or `None`, never a request of either kind, and the
   * request and TLS parsers have no say.
   */
  lemma ServerOnlyResponse(d1: Decoders, d2: Decoders, direction: string, payload: Payload)
    requires direction != "CTS"
    requires d1.response(payload) == d2.response(payload)
    ensures var a := Classify(d1, direction, payload);
            (a.HttpResponse? || a.Unclassified?) &&
            (a.Unclassified? <==> d1.response(payload).Err?) &&
            a == Classify(d2, direction, payload)
  {
  }

  /** The client-to-server path never consults the HTTP response parser. */
  lemma ClientIgnoresResponse(d1: Decoders, d2: Decoders, payload: Payload)
    requires d1.request(payload) == d2.request(payload)
    requires d1.tlsMulti(payload) == d2.tlsMulti(payload)
    ensures Classify(d1, "CTS", payload) == Classify(d2, "CTS", payload)
    ensures !Classify(d1, "CTS", payload).HttpResponse?
  {
  }

  /**
   * An `HTTPS_REQUEST` carries `uri = None` and `headers = None`; an
   * `HTTP_REQUEST` carries the cleaned URI of the parsed request.
   */
  lemma RequestUris(dpkt: Decoders, direction: string, payload: Payload)
    ensures var a := Classify(dpkt, direction, payload);
            (a.HttpsRequest? ==> a.Uri() == None && a.Headers() == None) &&
            (a.HttpRequest? ==> a.Uri() == Some(CleanUri(dpkt.request(payload).value.uri)) &&
                                '+' !in a.Uri().value)
  {
  }

  // ---------------------------------------------------------------------
  // The stream

  /**
   * The output of the link is the TCP subsequence of its input, each flow
   * annotated and otherwise unchanged. With the contract of `TcpIndices`
   * this says that non-TCP flows never appear, no TCP flow appears twice,
   * and the order is kept; `TcpIndicesComplete` adds that every TCP flow
   * appears, so the k-th output is the k-th TCP input.
   */
  lemma {:induction false} HttpMetaDataIsTcpSubsequence(dpkt: Decoders, flows: seq<FlowRecord>)
    ensures var out := HttpMetaData(dpkt, flows);
            var ix := TcpIndices(flows);
            |out| == |ix| &&
            forall k :: 0 <= k < |ix| ==> out[k] == Annotate(dpkt, flows[ix[k]])
    decreases |flows|
  {
    if flows != [] {
      var n := |flows| - 1;
      HttpMetaDataIsTcpSubsequence(dpkt, flows[..n]);
      var ix := TcpIndices(flows[..n]);
      assert forall k :: 0 <= k < |ix| ==> flows[..n][ix[k]] == flows[ix[k]];
    }
  }

  /**
   * The link keeps no state between flows: running it on a stream cut in two
   * yields the outputs of the two pieces, one after the other.
   */
  lemma {:induction false} HttpMetaDataAppend(dpkt: Decoders, xs: seq<FlowRecord>, ys: seq<FlowRecord>)
    ensures HttpMetaData(dpkt, xs + ys) == HttpMetaData(dpkt, xs) + HttpMetaData(dpkt, ys)
    decreases |ys|
  {
    if ys == [] {
      assert xs + ys == xs;
    } else {
      var m := |ys| - 1;
      assert (xs + ys)[..|xs + ys| - 1] == xs + ys[..m];
      assert (xs + ys)[|xs + ys| - 1] == ys[m];
      HttpMetaDataAppend(dpkt, xs, ys[..m]);
    }
  }

  /** Every TCP flow's position is among `TcpIndices`: no TCP flow is skipped. */
  lemma {:induction false} TcpIndicesComplete(flows: seq<FlowRecord>, i: nat)
    requires i < |flows| && flows[i].IsTcp()
    ensures i in TcpIndices(flows)
    decreases |flows|
  {
    var n := |flows| - 1;
    if i < n {
      assert flows[..n][i] == flows[i];
      TcpIndicesComplete(flows[..n], i);
    }
  }

  /** The link yields nothing at all exactly when no input flow is TCP. */
  lemma {:induction false} HttpMetaDataEmpty(dpkt: Decoders, flows: seq<FlowRecord>)
    ensures HttpMetaData(dpkt, flows) == [] <==> forall i :: 0 <= i < |flows| ==> !flows[i].IsTcp()
  {
    HttpMetaDataIsTcpSubsequence(dpkt, flows);
    var ix := TcpIndices(flows);
    if ix != [] {
      assert flows[ix[0]].IsTcp();
    }
    if i :| 0 <= i < |flows| && flows[i].IsTcp() {
      TcpIndicesComplete(flows, i);
    }
  }

  /** Classifying an already classified stream changes nothing. */
  lemma {:induction false} HttpMetaDataIdempotent(dpkt: Decoders, flows: seq<FlowRecord>)
    ensures HttpMetaData(dpkt, HttpMetaData(dpkt, flows)) == HttpMetaData(dpkt, flows)
    decreases |flows|
  {
    if flows != [] {
      var n := |flows| - 1;
      var last := flows[n];
      var tail := if last.IsTcp() then [Annotate(dpkt, last)] else [];
      HttpMetaDataIdempotent(dpkt, flows[..n]);
      HttpMetaDataAppend(dpkt, HttpMetaData(dpkt, flows[..n]), tail);
      if last.IsTcp() {
        assert tail[..0] == [];
        assert HttpMetaData(dpkt, tail) == [Annotate(dpkt, Annotate(dpkt, last))];
      }
    }
  }
}
