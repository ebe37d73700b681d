/** The client side of the HTTP exchange the Completed screen performs: the
    network, `response.headers.get`, `response.text()` and `response.json()`
    reduced to what the screen branches on. */
module Server {
  import opened Optional
  import JsText

  /** What a `fetch` delivers. `Unreachable`: the promise rejected (no
      connection). `Reply`: the declared content type, if any, and the body
      as the expected JSON shape, or `None` when `response.json()` throws. */
  datatype Response<T> =
    | Unreachable
    | Reply(contentType: Option<string>, body: Option<T>)

  /** Why a response could not be used; all three end in the screen's
      `catch` block. */
  datatype Failure = ConnectionFailed | NotJson | MalformedJson

  datatype Decoded<T> = Parsed(value: T) | Failed(failure: Failure)

  const JsonMediaType: string := "application/json"

  /** `contentType && contentType.includes('application/json')`: a missing
      header or the empty string is rejected, and any header containing the
      media type (for instance with a charset parameter) is accepted. The
      comparison is case-sensitive. */
  function IsJsonContentType(contentType: Option<string>): (b: bool)
    ensures b <==> contentType.Some? && exists k :: JsText.OccursAt(contentType.value, JsonMediaType, k)
    ensures b ==> |contentType.value| >= |JsonMediaType|
  {
    contentType.Some? && JsText.Includes(contentType.value, JsonMediaType)
  }

  /** The guard both server calls run before parsing: check the content type
      first and never parse a body declared as something else. */
  function Decode<T>(response: Response<T>): (d: Decoded<T>)
    ensures d.Parsed? <==> response.Reply? && IsJsonContentType(response.contentType) && response.body.Some?
    ensures d.Parsed? ==> d.value == response.body.value
    ensures d == Failed(NotJson) <==> response.Reply? && !IsJsonContentType(response.contentType)
    ensures d == Failed(ConnectionFailed) <==> response.Unreachable?
  {
    match response
    case Unreachable => Failed(ConnectionFailed)
    case Reply(contentType, body) =>
      if !IsJsonContentType(contentType) then Failed(NotJson)
      else if body.None? then Failed(MalformedJson)
      else Parsed(body.value)
  }

  /** Any header that starts with the media type passes the check, whatever
      parameters follow it, because the check is a substring test and not an
      equality. */
  lemma MediaTypePrefixAccepted(rest: string)
    ensures IsJsonContentType(Some(JsonMediaType + rest))
  {
    var h := JsonMediaType + rest;
    assert h[0..|JsonMediaType|] == JsonMediaType;
    assert JsText.OccursAt(h, JsonMediaType, 0);
  }

  /** A header containing the media type anywhere passes, even one that
      names another type first. */
  lemma MediaTypeAnywhereAccepted(before: string, after: string)
    ensures IsJsonContentType(Some(before + JsonMediaType + after))
  {
    var h := before + JsonMediaType + after;
    assert h[|before|..|before| + |JsonMediaType|] == JsonMediaType;
    assert JsText.OccursAt(h, JsonMediaType, |before|);
  }

  /** The usual header with a charset parameter passes the check. */
  lemma CharsetParameterAccepted()
    ensures IsJsonContentType(Some("application/json; charset=utf-8"))
  {
    var h := "application/json; charset=utf-8";
    assert h[0..0 + |JsonMediaType|] == JsonMediaType;
    assert JsText.OccursAt(h, JsonMediaType, 0);
  }

  /** A header without the media type, such as the `text/html` of a server
      error page, is rejected. */
  lemma HtmlRejected()
    ensures !IsJsonContentType(Some("text/html"))
  {
  }

  /** The body of a reply not declared as JSON is never looked at: whatever it
      is, the outcome is the same not-JSON failure. */
  lemma NonJsonBodyIgnored<T>(contentType: Option<string>, b1: Option<T>, b2: Option<T>)
    requires !IsJsonContentType(contentType)
    ensures Decode(Reply(contentType, b1)) == Decode(Reply(contentType, b2)) == Failed(NotJson)
  {
  }

  /** A reply declared as JSON fails only when its body does not parse, and
      then with the parse failure, never the not-JSON one. */
  lemma JsonReplyFailsOnlyOnBody<T>(contentType: Option<string>, body: Option<T>)
    requires IsJsonContentType(contentType)
    ensures Decode(Reply(contentType, body)) == (if body.Some? then Parsed(body.value) else Failed(MalformedJson))
  {
  }

}
