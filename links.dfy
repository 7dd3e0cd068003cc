/**
 * The HTTPMeta link as a stateful object (chains/links/http_meta.py).
 *
 * Flow records are Python dictionaries shared by reference along the chain,
 * so a flow is an object whose `http` entry the link writes in place. The
 * link's output stream is a generator over its input stream: `Next` is one
 * resumption of that generator, and `Drain` is a consumer that iterates it
 * to the end.
 */
module Links {
  import opened Wrappers
  import opened Dpkt
  import opened Classification
  import ClassificationProperties

  /**
   * One flow dictionary. The entries the link only reads are constants of the
   * object; `http`, the one entry the link writes, is its only variable.
   */
  class Flow {
    const protocol: string
    const direction: string
    const payload: Payload
    const src: string
    const dst: string
    /** `None` while the dictionary has no `http` key. */
    var http: Option<Annotation>

    constructor (protocol: string, direction: string, payload: Payload, src: string, dst: string)
      ensures Record() == FlowRecord(protocol, direction, payload, src, dst, None)
    {
      this.protocol := protocol;
      this.direction := direction;
      this.payload := payload;
      this.src := src;
      this.dst := dst;
      this.http := None;
    }

    /** The entries the link reads, without `http`. */
    function Entries(): (r: FlowRecord)
      ensures r.http.None? && r.IsTcp() == (protocol == "TCP")
    {
      FlowRecord(protocol, direction, payload, src, dst, None)
    }

    /** The current contents of the dictionary, as a value. */
    function Record(): (r: FlowRecord)
      reads this
      ensures r.Unannotated() == Entries() && r.http == http
    {
      Entries().(http := http)
    }
  }

  /** The current contents of a sequence of flows. */
  function Records(flows: seq<Flow>): (rs: seq<FlowRecord>)
    reads flows
    ensures |rs| == |flows|
    ensures forall i :: 0 <= i < |flows| ==> rs[i] == flows[i].Record()
  {
    if flows == [] then [] else [flows[0].Record()] + Records(flows[1..])
  }

  /** The entries a sequence of flows offers the link, whatever their `http`. */
  function Snapshot(flows: seq<Flow>): (rs: seq<FlowRecord>)
    ensures |rs| == |flows|
    ensures forall i :: 0 <= i < |flows| ==> rs[i] == flows[i].Entries()
  {
    if flows == [] then [] else [flows[0].Entries()] + Snapshot(flows[1..])
  }

  /** The TCP flows of a stream, as the same objects and in the same order. */
  function TcpFlows(flows: seq<Flow>): (ts: seq<Flow>)
    ensures |ts| <= |flows|
    ensures forall i :: 0 <= i < |ts| ==> ts[i].protocol == "TCP"
  {
    if flows == [] then []
    else if flows[0].protocol == "TCP" then [flows[0]] + TcpFlows(flows[1..])
    else TcpFlows(flows[1..])
  }

  /** A flow is among the TCP flows of a stream exactly when it is a TCP flow of it. */
  lemma {:induction false} TcpFlowsMembers(flows: seq<Flow>, f: Flow)
    ensures f in TcpFlows(flows) <==> f in flows && f.protocol == "TCP"
  {
    if flows != [] {
      TcpFlowsMembers(flows[1..], f);
      assert flows == [flows[0]] + flows[1..];
    }
  }

  /** Filtering a concatenation filters each part. */
  lemma {:induction false} TcpFlowsAppend(xs: seq<Flow>, ys: seq<Flow>)
    ensures TcpFlows(xs + ys) == TcpFlows(xs) + TcpFlows(ys)
    decreases |xs|
  {
    if xs == [] {
      assert xs + ys == ys;
    } else {
      assert (xs + ys)[1..] == xs[1..] + ys;
      TcpFlowsAppend(xs[1..], ys);
    }
  }

  /** Extending a stream by one flow, and maybe picking it, keeps `picked` the flows at `ix`. */
  lemma PickedSnoc(picked: seq<Flow>, ix: seq<nat>, flows: seq<Flow>, x: Flow, keep: bool)
    requires |picked| == |ix|
    requires forall k :: 0 <= k < |ix| ==> ix[k] < |flows| && picked[k] == flows[ix[k]]
    ensures var picked', ix' := picked + (if keep then [x] else []), ix + (if keep then [|flows|] else []);
              |picked'| == |ix'| &&
              forall k :: 0 <= k < |ix'| ==> ix'[k] < |flows| + 1 && picked'[k] == (flows + [x])[ix'[k]]
  {
  }

  /**
   * The TCP flows of a stream are the flows at the positions `TcpIndices`
   * picks out of its entries: each TCP flow once, in stream order.
   */
  lemma {:induction false} TcpFlowsIndexed(flows: seq<Flow>)
    ensures var ix := TcpIndices(Snapshot(flows));
              |TcpFlows(flows)| == |ix| && forall k :: 0 <= k < |ix| ==> TcpFlows(flows)[k] == flows[ix[k]]
    decreases |flows|
  {
    if flows != [] {
      var n := |flows| - 1;
      var init, last := flows[..n], flows[n];
      TcpFlowsIndexed(init);
      assert flows == init + [last];
      TcpFlowsAppend(init, [last]);
      assert [last][1..] == [];
      var keep := last.protocol == "TCP";
      assert TcpFlows(flows) == TcpFlows(init) + (if keep then [last] else []);
      var entries := Snapshot(flows);
      assert entries[..n] == Snapshot(init);
      assert entries[n].IsTcp() == keep;
      assert TcpIndices(entries) == TcpIndices(Snapshot(init)) + (if keep then [n] else []);
      PickedSnoc(TcpFlows(init), TcpIndices(Snapshot(init)), init, last, keep);
    }
  }

  /**
   * Once every TCP flow of `flows` holds its classification, the stream of
   * those flows is exactly what `HttpMetaData` makes of the flows' entries.
   */
  lemma {:induction false} ClassifiedTcpFlows(dpkt: Decoders, flows: seq<Flow>)
    requires forall f :: f in TcpFlows(flows) ==> f.http == Some(Classify(dpkt, f.direction, f.payload))
    ensures Records(TcpFlows(flows)) == HttpMetaData(dpkt, Snapshot(flows))
  {
    if flows != [] {
      var x, rest := flows[0], flows[1..];
      assert flows == [x] + rest;
      ClassifiedTcpFlows(dpkt, rest);
      assert Snapshot(flows) == [x.Entries()] + Snapshot(rest);
      ClassificationProperties.HttpMetaDataAppend(dpkt, [x.Entries()], Snapshot(rest));
      assert [x.Entries()][..0] == [];
      if x.protocol == "TCP" {
        assert x in TcpFlows(flows);
        assert TcpFlows(flows) == [x] + TcpFlows(rest);
        assert TcpFlows(flows)[1..] == TcpFlows(rest);
        assert Annotate(dpkt, x.Entries()) == x.Record();
      }
    }
  }

  /**
   * The HTTPMeta link, once linked to its upstream. `pending` is what the
   * upstream iterator has still to yield; the generator consumes it from
   * the front.
   */
  class HttpMeta {
    const dpkt: Decoders
    var pending: seq<Flow>

    /** `HTTPMeta()` followed by `link(upstream)`: nothing has been pulled yet. */
    constructor (dpkt: Decoders, upstream: seq<Flow>)
      ensures this.dpkt == dpkt && pending == upstream
    {
      this.dpkt := dpkt;
      this.pending := upstream;
    }

    /**
     * Resume the generator once: take flows from upstream, dropping every
     * non-TCP one, until a TCP flow arrives; store its classification under
     * `http` and yield it. `None` means the upstream is exhausted.
     */
    method Next() returns (out: Option<Flow>)
      modifies this, pending
      ensures |pending| <= |old(pending)| && pending == old(pending)[|old(pending)| - |pending|..]
      ensures out.None? <==> pending == [] && TcpFlows(old(pending)) == []
      ensures out.Some? ==> |pending| < |old(pending)| && old(pending)[|old(pending)| - |pending| - 1] == out.value
      ensures out.Some? ==> TcpFlows(old(pending)) == [out.value] + TcpFlows(pending)
      ensures out.Some? ==> out.value.http == Some(Classify(dpkt, out.value.direction, out.value.payload))
      ensures forall f :: f in old(pending) && out != Some(f) ==> f.http == old(f.http)
    {
      while pending != [] && pending[0].protocol != "TCP"
        invariant |pending| <= |old(pending)| && pending == old(pending)[|old(pending)| - |pending|..]
        invariant TcpFlows(old(pending)) == TcpFlows(pending)
        modifies this
      {
        pending := pending[1..];
      }
      if pending == [] {
        return None;
      }
      var flow := pending[0];
      pending := pending[1..];
      var annotation: Annotation;
      if flow.direction == "CTS" {
        match dpkt.request(flow.payload)
        case Ok(request) =>
          annotation := HttpRequest(RequestData(request));
        case Err(_) =>
          match dpkt.tlsMulti(flow.payload)
          case Ok((records, _)) =>
            annotation := HttpsRequest(records);
          case Err(_) =>
            annotation := Unclassified;
      } else {
        match dpkt.response(flow.payload)
        case Ok(response) =>
          annotation := HttpResponse(response);
        case Err(_) =>
          annotation := Unclassified;
      }
      flow.http := Some(annotation);
      return Some(flow);
    }

    /**
     * Iterate the output stream to its end, collecting what it yields: the
     * TCP flows of the upstream, as the same objects and in the same order,
     * whose contents are what `HttpMetaData` makes of the upstream.
     */
    method Drain() returns (outputs: seq<Flow>)
      modifies this, pending
      ensures pending == []
      ensures outputs == TcpFlows(old(pending))
      ensures Records(outputs) == HttpMetaData(dpkt, Snapshot(old(pending)))
      ensures forall f :: f in old(pending) && f !in outputs ==> f.http == old(f.http)
    {
      outputs := [];
      while true
        invariant |pending| <= |old(pending)| && pending == old(pending)[|old(pending)| - |pending|..]
        invariant TcpFlows(old(pending)) == outputs + TcpFlows(pending)
        invariant forall f :: f in outputs ==> f.http == Some(Classify(dpkt, f.direction, f.payload))
        invariant forall f :: f in old(pending) && f !in outputs ==> f.http == old(f.http)
        decreases |pending|
      {
        label Pull:
        var next := Next();
        forall f | f in old(pending) && f !in outputs && Some(f) != next
          ensures f.http == old@Pull(f.http)
        {
        }
        if next.None? {
          break;
        }
        assert outputs + ([next.value] + TcpFlows(pending)) == (outputs + [next.value]) + TcpFlows(pending);
        outputs := outputs + [next.value];
      }
      ClassifiedTcpFlows(dpkt, old(pending));
    }
  }
}
