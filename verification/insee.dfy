/**
 * The observable contract of the provider client (the national registry's
 * geocode API): every way a fetch can go wrong becomes "no data". Transport,
 * token exchange and JSON decoding are parameters of this model.
 */
module Insee {
  import opened Optional
  import opened Dates
  import opened Cities

  /** What one GET hands back: a body (possibly null), an HTTP error status, or another transport failure. */
  datatype Reply = Body(text: Option<string>) | ErrorStatus(status: int) | TransportFailure

  /** The single-city lookup the update job consults, keyed by (validity date, code). */
  type CityLookup = (Date, string) -> Option<City>

  /**
   * `doGetJson`: the body text, or null when the GET threw. A 404 and any
   * other failure differ only in how they are logged.
   */
  function BodyOf(reply: Reply): (r: Option<string>)
    ensures r.Some? <==> reply.Body? && reply.text.Some?
    ensures r.Some? ==> r == reply.text
  {
    match reply
    case Body(text) => text
    case ErrorStatus(_) => None
    case TransportFailure => None
  }

  /** The GET delivered a non-null, non-empty body, the only replies the client goes on to decode. */
  predicate Delivers(reply: Reply)
  {
    reply.Body? && reply.text.Some? && reply.text.value != ""
  }

  /**
   * The decoding step shared by `getCityByDateAndCode` and `getAllCities`: a
   * value only when the GET delivered a non-empty body that decodes; a 404,
   * another error, an empty or null body and a decoding error all give no
   * data. For `getCityByDateAndCode` no data is `Optional.empty`; for
   * `getAllCities` it is the null array the method then dereferences, so
   * there it is a thrown exception rather than an empty list.
   */
  function Fetch<T>(reply: Reply, decode: string -> Option<T>): (r: Option<T>)
    ensures r.Some? <==> Delivers(reply) && decode(reply.text.value).Some?
    ensures r.Some? ==> r == decode(reply.text.value)
  {
    var body := BodyOf(reply);
    if body.Some? && body.value != "" then decode(body.value) else None
  }

  /**
   * `getCityByDateAndCode` as the update job sees it: the reply the GET for
   * (date, code) receives, decoded as one city.
   */
  function ClientLookup(replyFor: (Date, string) -> Reply, decode: string -> Option<City>): CityLookup
  {
    (date: Date, code: string) => Fetch(replyFor(date, code), decode)
  }
}
