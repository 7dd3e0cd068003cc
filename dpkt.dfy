/**
 * The boundary with the dpkt packet library, as the HTTPMeta link sees it.
 *
 * The three parsers the link calls (`dpkt.http.Request`, `dpkt.http.Response`
 * and `dpkt.ssl.TLSMultiFactory`) are not part of this model. Each is a
 * function from the payload bytes to a decoded message or to the exception it
 * raises, and the whole classifier is parameterised by a `Decoders` value, so
 * every property proved holds for every possible behaviour of the parsers.
 */
module Dpkt {
  import opened Wrappers

  newtype byte = x: int | 0 <= x < 256

  /** The reassembled bytes of one directional flow segment. */
  type Payload = seq<byte>

  /** Header names mapped to their values, as dpkt's HTTP parser returns them. */
  type Headers = map<string, string>

  /** A parsed HTTP request (the attributes of `dpkt.http.Request`). */
  datatype Request = Request(httpMethod: string, uri: string, version: string, headers: Headers, body: Payload)

  /** A parsed HTTP response (the attributes of `dpkt.http.Response`). */
  datatype Response = Response(version: string, status: string, reason: string, headers: Headers, body: Payload)

  /** One TLS record header and the bytes it frames (`dpkt.ssl.TLSRecord`). */
  datatype TlsRecord = TlsRecord(recordType: byte, version: nat, data: Payload)

  /** The exceptions the link catches: `dpkt.dpkt.NeedData`, `dpkt.dpkt.UnpackError`, `dpkt.ssl.SSL3Exception`. */
  datatype DecodeError = NeedData | UnpackError | SSL3Exception

  /** The HTTP parsers are only ever caught for NeedData and UnpackError. */
  type HttpDecodeError = e: DecodeError | !e.SSL3Exception? witness NeedData

  /**
   * The three parsers. `tlsMulti` returns the list of records it recognised
   * together with the number of bytes they consumed, as TLSMultiFactory does.
   */
  datatype Decoders = Decoders(
    request: Payload -> Result<Request, HttpDecodeError>,
    response: Payload -> Result<Response, HttpDecodeError>,
    tlsMulti: Payload -> Result<(seq<TlsRecord>, nat), DecodeError>)
}
