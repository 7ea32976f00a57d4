/** The metadata record of a streamed invocation response: status code,
    headers and cookies, together with the payload stream. The record is
    a value here; the three .NET constructors become three functions and the
    property setters become functions that replace one field. */
module StreamedResponses {
  import opened Common

  const ContentTypeHeader: string := "Content-Type"
  const DefaultContentType: string := "application/json"
  const DefaultStatusCode: int := 200

  /** The part of a response that JSON serialisation sees. The payload stream
      is marked `JsonIgnore`, so it is not here; the field names are the
      serialised property names. */
  datatype ResponseMetadata = ResponseMetadata(
    cookies: Option<seq<string>>,
    headers: map<string, string>,
    statusCode: int)

  /** A response whose payload stream has type `S`. */
  datatype StreamedResponse<S> = StreamedResponse(
    stream: S,
    cookies: Option<seq<string>>,
    headers: map<string, string>,
    statusCode: int)
  {
    /** The value the wrapper serialises into the envelope header. */
    function Metadata(): (m: ResponseMetadata)
      ensures m.cookies == cookies && m.headers == headers && m.statusCode == statusCode
    {
      ResponseMetadata(cookies, headers, statusCode)
    }

    /** The `Cookies` setter. */
    function SetCookies(value: Option<seq<string>>): (r: StreamedResponse<S>)
      ensures r.cookies == value
      ensures r.stream == stream && r.headers == headers && r.statusCode == statusCode
    {
      this.(cookies := value)
    }

    /** The `Headers` setter. */
    function SetHeaders(value: map<string, string>): (r: StreamedResponse<S>)
      ensures r.headers == value
      ensures r.stream == stream && r.cookies == cookies && r.statusCode == statusCode
    {
      this.(headers := value)
    }

    /** The `StatusCode` setter. */
    function SetStatusCode(value: int): (r: StreamedResponse<S>)
      ensures r.statusCode == value
      ensures r.stream == stream && r.cookies == cookies && r.headers == headers
    {
      this.(statusCode := value)
    }
  }

  /** True when the only header is `Content-Type` with the given value. */
  predicate OnlyContentType(headers: map<string, string>, contentType: string)
  {
    headers.Keys == {ContentTypeHeader} && headers[ContentTypeHeader] == contentType
  }

  /** `new StreamedResponse(stream)`: status 200, JSON content type, no cookies. */
  function FromStream<S>(stream: S): (r: StreamedResponse<S>)
    ensures r.stream == stream
    ensures r.statusCode == 200
    ensures r.headers == map["Content-Type" := "application/json"]
    ensures r.cookies == None
  {
    StreamedResponse(stream, None, map[ContentTypeHeader := DefaultContentType], DefaultStatusCode)
  }

  /** `new StreamedResponse(stream, contentType)`: status 200, no cookies. */
  function WithContentType<S>(stream: S, contentType: string): (r: StreamedResponse<S>)
    ensures r.stream == stream
    ensures r.statusCode == 200
    ensures OnlyContentType(r.headers, contentType)
    ensures r.cookies == None
  {
    StreamedResponse(stream, None, map[ContentTypeHeader := contentType], DefaultStatusCode)
  }

  /** `new StreamedResponse(stream, statusCode, contentType)`: no cookies. */
  function WithStatusCode<S>(stream: S, statusCode: int, contentType: string): (r: StreamedResponse<S>)
    ensures r.stream == stream
    ensures r.statusCode == statusCode
    ensures OnlyContentType(r.headers, contentType)
    ensures r.cookies == None
  {
    StreamedResponse(stream, None, map[ContentTypeHeader := contentType], statusCode)
  }

  /** The three constructors agree: each shorter one supplies the defaults of
      the longer one. */
  lemma ConstructorsAgree<S>(stream: S, contentType: string)
    ensures FromStream(stream) == WithContentType(stream, DefaultContentType)
    ensures WithContentType(stream, contentType) == WithStatusCode(stream, DefaultStatusCode, contentType)
  {
  }

  /** The serialised metadata never depends on the payload stream. */
  lemma MetadataIgnoresStream<S>(r: StreamedResponse<S>, other: S)
    ensures r.(stream := other).Metadata() == r.Metadata()
  {
  }
}
