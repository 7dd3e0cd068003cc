# HTTPMeta link of chains, in Dafny

`chains` builds packet-analysis pipelines out of links. Each link consumes the
output stream of its upstream link and yields a stream of its own. The
`HTTPMeta` link (`chains/links/http_meta.py`) consumes the flow records that
the Flows link produces: dictionaries with `protocol`, `direction`,
`payload`, `src`, `dst` and more. It drops every flow that is not TCP. It
classifies the payload of each TCP flow and stores the result under the
flow's `http` key:
- a client-to-server flow (`direction == 'CTS'`) is tried as an HTTP
  request first and as a series of TLS records second;
- every other flow is tried only as an HTTP response;
- a parser failure falls through to the next parser, or to `None`.

It then yields the same flow object. Request URIs are percent-decoded, and
`+` becomes a space.

The project is split into six modules:

- `Wrappers` (`wrappers.dfy`): `Option` and `Result`.
- `Dpkt` (`dpkt.dfy`): the boundary with the dpkt library.
  - It covers payload bytes, parsed requests and responses, TLS records, and
    the three exceptions the link catches.
  - `Decoders` bundles the three parsers as function values. Every result is
    proved for every parser that returns a message or raises one of the
    exceptions the link catches.
- `Urllib` (`urllib.dfy`): Python 2's `urllib.unquote`, which the link calls
  as `urllib2.unquote`.
  - `Unquote` is a left-to-right scan.
  - `UnquoteBySplit` follows the library's own algorithm: split on `%`, then
    decode the first two characters of each piece when they are hexadecimal.
  - The two are proved equal. `Quote` (`quote(s, safe='')`) serves as the
    inverse in a round trip.
- `Classification` (`classification.dfy`): the value-level behaviour of one
  flow and of the whole stream. It holds `_clean_uri` and
  `_get_application_type`, the `http` annotation, and the classifier
  `Classify`. `HttpMetaData` is what the generator yields for a given input
  stream.
- `ClassificationProperties` (`classification_properties.dfy`): properties
  of `Classify` and `HttpMetaData`.
- `Links` (`links.dfy`): the link as the Python program runs it.
  - A `Flow` object is a shared, mutable flow dictionary. Its `http` entry is
    written in place; the entries the link only reads are constants.
  - `HttpMeta` holds the part of the upstream iterator that has not been
    consumed yet.
  - `Next` is one resumption of the `_http_meta_data` generator.
  - `Drain` iterates the output stream to its end. It is proved to yield the
    TCP flows of the upstream, as the same objects and in order, with
    contents equal to `HttpMetaData` of the upstream.

Two behaviours of the link that a reader might not expect:

- Non-TCP flows are skipped by the `continue` at
  `chains/links/http_meta.py:30-31`: they are not yielded at all. They are
  not passed through without an `http` key.
- An empty payload is handed to the parsers like any other payload. There
  is no shortcut that classifies it without decoding. In the model it is
  classified by whatever the `Decoders` answer for `[]`.

## Model

| member | source | states |
|---|---|---|
| Urllib.Unquote | chains/links/http_meta.py:65 | percent-decoding never makes a string longer |
| Urllib.UnquoteMatchesLibrary | chains/links/http_meta.py:65 | the scanning decoder agrees on every string with the library's split-on-`%` algorithm, which decodes `item[:2]` of each piece when both characters are hex digits and otherwise keeps the `%` |
| Urllib.UnquoteQuote | chains/links/http_meta.py:65 | decoding undoes `quote(s, safe='')` for every byte string |
| Urllib.UnquotePlainPrefix | chains/links/http_meta.py:65 | a prefix without `%` passes through decoding unchanged, whatever follows it |
| Classification.ReplacePlus | chains/links/http_meta.py:65 | `replace('+', ' ')`: same length, every `+` becomes a space and every other character is kept |
| Classification.CleanUri | chains/links/http_meta.py:63-65 | a cleaned URI never contains `+` and is never longer than the raw URI |
| Classification.CleanUriPlain | chains/links/http_meta.py:63-65 | a URI with neither `%` nor `+` is returned unchanged |
| Classification.CleanUriQuoted | chains/links/http_meta.py:63-65 | cleaning a fully percent-encoded string gives the string back with `+` read as a space, and gives it back exactly if it has no `+` |
| Classification.CleanUriEncodedPlus | chains/links/http_meta.py:65 | because `+` is replaced after decoding, an encoded plus (`%2B`, `%2b`) also becomes a space |
| Classification.UnquoteExample | chains/links/http_meta.py:65 | `%2Fa+b%2Fc` decodes to `/a+b/c`: escapes are decoded and `+` is left for the next step |
| Classification.CleanUriExample | chains/links/http_meta.py:63-65 | `%2Fa+b%2Fc` cleans to `/a b/c` |
| Classification.GetApplicationType | chains/links/http_meta.py:67-70 | the result is `None` exactly when the class name is `str`, and is otherwise the class name |
| Classification.Annotation.Type | chains/links/http_meta.py:43-57 | the stored `type` is absent exactly for the unclassified `None` value |
| Classification.Classify | chains/links/http_meta.py:33-57 | HTTP_REQUEST iff the direction is CTS and the request parser succeeds; HTTPS_REQUEST iff it is CTS, the request parser fails and the TLS parser succeeds; HTTP_RESPONSE iff it is not CTS and the response parser succeeds; each annotation carries the parser's result, with the request URI cleaned |
| Classification.Annotate | chains/links/http_meta.py:43-57 | storing the classification writes a value under `http` and changes no other entry of the flow |
| Classification.HttpMetaData | chains/links/http_meta.py:27-60 | the output is no longer than the input, and every output flow is TCP and carries its own classification |
| Classification.TcpIndices | chains/links/http_meta.py:27-31 | the positions are in range, point at TCP flows and increase strictly |
| ClassificationProperties.AnnotationTypes | chains/links/http_meta.py:43-57 | every stored `type` is HTTP_REQUEST, HTTPS_REQUEST or HTTP_RESPONSE, or the value is `None` |
| ClassificationProperties.HttpRequestWins | chains/links/http_meta.py:36-43 | a CTS payload that parses as an HTTP request is an HTTP_REQUEST whatever the TLS parser would say |
| ClassificationProperties.TlsOnlyAfterHttpFails | chains/links/http_meta.py:44-49 | the TLS parser decides nothing except for a CTS flow whose HTTP request parse failed |
| ClassificationProperties.ClientUnclassified | chains/links/http_meta.py:37-49 | a CTS flow is `None` exactly when both the HTTP request parser and the TLS parser fail |
| ClassificationProperties.ServerOnlyResponse | chains/links/http_meta.py:51-57 | a non-CTS flow is HTTP_RESPONSE or `None`, is `None` exactly when the response parser fails, and depends on no other parser |
| ClassificationProperties.ClientIgnoresResponse | chains/links/http_meta.py:33-49 | a CTS flow never consults the response parser and is never an HTTP_RESPONSE |
| ClassificationProperties.RequestUris | chains/links/http_meta.py:40-47 | an HTTPS_REQUEST has `uri` and `headers` `None`; an HTTP_REQUEST has the cleaned URI of the parsed request, which holds no `+` |
| ClassificationProperties.HttpMetaDataIsTcpSubsequence | chains/links/http_meta.py:27-60 | the k-th output is the flow at the k-th position of `TcpIndices`, annotated: non-TCP flows never appear, no TCP flow appears twice, and input order is kept; with `TcpIndicesComplete`, every TCP flow appears, so the k-th output is the k-th TCP input |
| ClassificationProperties.HttpMetaDataAppend | chains/links/http_meta.py:27-60 | the generator keeps no state between flows: the output for a concatenated stream is the concatenation of the outputs |
| ClassificationProperties.TcpIndicesComplete | chains/links/http_meta.py:27-31 | no TCP flow is skipped: every TCP position is among the yielded positions |
| ClassificationProperties.HttpMetaDataEmpty | chains/links/http_meta.py:27-31 | the output is empty exactly when no input flow is TCP |
| ClassificationProperties.HttpMetaDataIdempotent | chains/links/http_meta.py:27-60 | running the link on its own output changes nothing |
| Links.TcpFlows | chains/links/http_meta.py:27-31 | the flows kept are no more than the input and are all TCP |
| Links.TcpFlowsMembers | chains/links/http_meta.py:27-31 | a flow object is kept exactly when it is a TCP flow of the input |
| Links.TcpFlowsAppend | chains/links/http_meta.py:27-31 | filtering a concatenation filters each part |
| Links.TcpFlowsIndexed | chains/links/http_meta.py:27-31 | the flows kept are the input flows at the positions of `TcpIndices`, in that order |
| Links.ClassifiedTcpFlows | chains/links/http_meta.py:27-60 | once each TCP flow object holds its classification, the contents of the kept flows are exactly `HttpMetaData` of the input |
| Links.HttpMeta.constructor | chains/links/http_meta.py:14-21 | a new link has consumed nothing of its upstream |
| Links.HttpMeta.Next | chains/links/http_meta.py:23-60 | one resumption consumes a prefix of the upstream. It yields the first TCP flow, the last flow consumed, with its classification stored under `http`; `None` comes only when the upstream is exhausted with no TCP flow left. No other flow's `http` changes |
| Links.HttpMeta.Drain | chains/links/http_meta.py:23-60 | the whole output stream is the TCP flows of the upstream, as the same objects and in order. Their contents equal `HttpMetaData` of the upstream, and every flow not yielded keeps its `http` entry |

## Left out

- The dpkt parsers (`dpkt.http.Request`, `dpkt.http.Response`, `dpkt.ssl.TLSMultiFactory`) are not modelled: they are an arbitrary `Decoders` value, and no property depends on how they parse.
- Only the exceptions the link catches are modelled as parser failures. Any other exception would escape the generator and end the stream; that is not modelled.
- The number of bytes consumed that TLSMultiFactory returns is discarded, as the link discards it.
- `data_utils.make_dict` (in chains/utils, not part of this model) is taken to be a field-for-field copy of the parsed message.
- Logging (`log_utils.log_defaults`) has no effect on the stream and is left out.
- The link plumbing of `link.Link` is not part of this model. `link(upstream)` is folded into the `HttpMeta` constructor, and the upstream is a finite sequence of flows rather than a lazy generator.
- `test()` and examples/tag_example.py need a capture file and a full chain, and only print; they are left out.
- Flow dictionaries carry more keys than the five modelled, and only `http` is variable. That other links may rewrite a flow between resumptions is not modelled.
- Links.HttpMeta.Drain: it is a model of the consumer, not of a method of the source; a consumer that stops early sees the prefix that `Next` describes.
- Classification.GetApplicationType: it receives the name of the value's class, because Python's run-time class lookup has no counterpart here.
- Urllib.Unquote: strings are treated as Python 2 byte strings. The `Quote` round trip is stated for characters below 256, and unicode URIs are not modelled.
