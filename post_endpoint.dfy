/**
 * `PostEndpointImpl`: the request/response handler. It runs the same pipeline on the request's
 * `body`, maps the outcome to a status code and a message, and formats both with
 * `generateResponse`, whose only escaping is `"` to `\"`.
 */
module PostEndpoint {

  import opened Wrappers
  import opened JavaText
  import opened PolicyModel
  import opened XmlEncoding
  import opened Pipeline

  /** A value of the request map, as `(String) input.get("body")` sees it. */
  datatype JavaObject =
    | JavaNull
    | JavaString(s: string)
    /** Not a `String`: the cast throws `castFailure`. */
    | JavaOther(castFailure: Exception)

  /** The handler's `Map<String, Object>` input; `None` is a `null` map. */
  type Request = Option<map<string, JavaObject>>

  const BodyRequired: string := "Invalid request: body is required"
  const UnsupportedVehicleType: string := "Invalid request: unsupported vehicle type"
  const ProcessedSuccessfully: string := "Processed successfully!"
  const ServerErrorPrefix: string := "Server error: "

  /** `(String) input.get("body")`: a missing key reads `null`; a non-string value fails the cast. */
  function Body(input: Request): Result<Option<string>, Exception>
  {
    match input
    case None => Failure(NullPointerException)
    case Some(m) =>
      if "body" !in m then Success(None)
      else
        match m["body"]
        case JavaNull => Success(None)
        case JavaString(s) => Success(Some(s))
        case JavaOther(e) => Failure(e)
  }

  /** `body == null || body.isEmpty()`. */
  predicate BodyMissing(input: Request)
  {
    Body(input).Success? && (Body(input).value.None? || |Body(input).value.value| == 0)
  }

  /** The body the pipeline runs on, when there is one. */
  predicate HasBody(input: Request)
  {
    Body(input).Success? && Body(input).value.Some? && |Body(input).value.value| > 0
  }

  /** Status code and message the handler passes to `generateResponse`. */
  datatype Reply = Reply(statusCode: int32, message: string)

  /** The chain of early returns in `handleRequest`, with every exception caught as a 500. */
  function Decide(codecs: Codecs, input: Request): (r: Reply)
    ensures r.statusCode == 200 || r.statusCode == 400 || r.statusCode == 500
    ensures Body(input).Failure? ==> r == Reply(500, ServerErrorPrefix + MessageText(Body(input).error))
    ensures BodyMissing(input) <==> r == Reply(400, BodyRequired)
    ensures r.statusCode == 200
        <==> HasBody(input) && Run(codecs, Body(input).value.value).Encoded?
    ensures r.statusCode == 200 ==> r.message == ProcessedSuccessfully
    ensures r == Reply(400, UnsupportedVehicleType)
        <==> HasBody(input) && Run(codecs, Body(input).value.value).Ineligible?
    ensures HasBody(input) && Run(codecs, Body(input).value.value).Failed?
        ==> r == Reply(500, ServerErrorPrefix + MessageText(Run(codecs, Body(input).value.value).cause))
  {
    match Body(input)
    case Failure(e) => Reply(500, ServerErrorPrefix + MessageText(e))
    case Success(body) =>
      if body.None? || |body.value| == 0 then Reply(400, BodyRequired)
      else
        match Run(codecs, body.value)
        case Encoded(_) => Reply(200, ProcessedSuccessfully)
        case Ineligible => Reply(400, UnsupportedVehicleType)
        case Failed(e) => Reply(500, ServerErrorPrefix + MessageText(e))
  }

  /** `handleRequest(input, context)`: the formatted response, which reads back as the decided reply. */
  function HandleRequest(codecs: Codecs, input: Request): (r: string)
    ensures ParseResponse(r) == Some((Decide(codecs, input).statusCode, Decide(codecs, input).message))
  {
    var reply := Decide(codecs, input);
    ResponseRoundTrip(reply.statusCode, reply.message);
    GenerateResponse(reply.statusCode, reply.message)
  }

  // ---------------------------------------------------------------------------
  // generateResponse
  // ---------------------------------------------------------------------------

  const ResponsePrefix: string := "{ \"statusCode\": "
  const BodyPrefix: string := ", \"body\": \""
  const ResponseSuffix: string := "\" }"

  /** `message.replace("\"", "\\\"")`. */
  function Escape(message: string): string
  {
    if message == [] then []
    else (if message[0] == '"' then "\\\"" else [message[0]]) + Escape(message[1..])
  }

  /** Undoes `Escape`: every `\"` becomes `"`, everything else is kept. */
  function Unescape(escaped: string): string
  {
    if escaped == [] then []
    else if |escaped| >= 2 && escaped[0] == '\\' && escaped[1] == '"' then "\"" + Unescape(escaped[2..])
    else [escaped[0]] + Unescape(escaped[1..])
  }

  /** `String.format("{ \"statusCode\": %d, \"body\": \"%s\" }", statusCode, <escaped message>)`. */
  function GenerateResponse(statusCode: int32, message: string): (r: string)
    ensures |r| == |ResponsePrefix| + |FormatDecimal(statusCode)| + |BodyPrefix|
                   + |message| + multiset(message)['"'] + |ResponseSuffix|
  {
    EscapeLength(message);
    ResponsePrefix + FormatDecimal(statusCode) + BodyPrefix + Escape(message) + ResponseSuffix
  }

  /** Index of the first ',' in `s`, or `|s|` when there is none. */
  function FirstComma(s: string): (k: nat)
    ensures k <= |s|
    ensures k < |s| ==> s[k] == ','
    ensures forall i :: 0 <= i < k ==> s[i] != ','
  {
    if s == [] then 0 else if s[0] == ',' then 0 else 1 + FirstComma(s[1..])
  }

  /** Reads a response back into status code and message; `None` when it is not of that form. */
  function ParseResponse(r: string): Option<(int32, string)>
  {
    if |r| < |ResponsePrefix| + |ResponseSuffix|
       || r[..|ResponsePrefix|] != ResponsePrefix
       || r[|r| - |ResponseSuffix|..] != ResponseSuffix
    then None
    else
      var middle := r[|ResponsePrefix|..|r| - |ResponseSuffix|];
      var k := FirstComma(middle);
      if |middle| < k + |BodyPrefix| || middle[k..k + |BodyPrefix|] != BodyPrefix then None
      else
        match ParseDecimal(middle[..k])
        case None => None
        case Some(code) => Some((code, Unescape(middle[k + |BodyPrefix|..])))
  }

  // ---------------------------------------------------------------------------
  // Properties of the escaping and of the response format
  // ---------------------------------------------------------------------------

  /** Each `"` gains one backslash; nothing else changes length. */
  lemma {:induction false} EscapeLength(message: string)
    ensures |Escape(message)| == |message| + multiset(message)['"']
  {
    if message != [] {
      EscapeLength(message[1..]);
      assert message == [message[0]] + message[1..];
      assert multiset(message) == multiset([message[0]]) + multiset(message[1..]);
    }
  }

  lemma EscapeNeverStartsWithQuote(message: string)
    ensures Escape(message) == [] || Escape(message)[0] != '"'
  {
  }

  /** `Unescape` inverts `Escape`: the message is recovered exactly, backslashes included. */
  lemma {:induction false} EscapeRoundTrip(message: string)
    ensures Unescape(Escape(message)) == message
  {
    if message != [] {
      var rest := Escape(message[1..]);
      EscapeRoundTrip(message[1..]);
      if message[0] == '"' {
        assert Escape(message) == "\\\"" + rest;
        assert ("\\\"" + rest)[2..] == rest;
      } else {
        EscapeNeverStartsWithQuote(message[1..]);
        assert Escape(message) == [message[0]] + rest;
        assert ([message[0]] + rest)[1..] == rest;
      }
    }
  }

  /** Different messages escape differently. */
  lemma EscapeInjective(m1: string, m2: string)
    requires Escape(m1) == Escape(m2)
    ensures m1 == m2
  {
    EscapeRoundTrip(m1);
    EscapeRoundTrip(m2);
  }

  /** Every `"` of the escaped text directly follows a backslash. */
  lemma {:induction false} EscapedQuotesFollowBackslash(message: string)
    ensures forall i :: 0 <= i < |Escape(message)| && Escape(message)[i] == '"' ==>
              0 < i && Escape(message)[i - 1] == '\\'
  {
    if message != [] {
      EscapedQuotesFollowBackslash(message[1..]);
      var head := if message[0] == '"' then "\\\"" else [message[0]];
      var rest := Escape(message[1..]);
      assert Escape(message) == head + rest;
      forall i | 0 <= i < |head + rest| && (head + rest)[i] == '"'
        ensures 0 < i && (head + rest)[i - 1] == '\\'
      {
        if i >= |head| {
          assert (head + rest)[i] == rest[i - |head|];
          if i - |head| > 0 {
            assert (head + rest)[i - 1] == rest[i - 1 - |head|];
          }
        }
      }
    }
  }

  /** A message without `"` is copied unchanged. */
  lemma {:induction false} EscapeWithoutQuotes(message: string)
    requires '"' !in message
    ensures Escape(message) == message
  {
    if message != [] {
      assert forall c :: c in message[1..] ==> c in message;
      EscapeWithoutQuotes(message[1..]);
    }
  }

  lemma {:induction false} FirstCommaAfterDecimal(digits: string, rest: string)
    requires forall i :: 0 <= i < |digits| ==> digits[i] != ','
    requires |rest| > 0 && rest[0] == ','
    ensures FirstComma(digits + rest) == |digits|
    decreases |digits|
  {
    if digits != [] {
      assert (digits + rest)[1..] == digits[1..] + rest;
      FirstCommaAfterDecimal(digits[1..], rest);
    }
  }

  lemma FrameSlices(middle: string)
    ensures var r := ResponsePrefix + middle + ResponseSuffix;
      && r[..|ResponsePrefix|] == ResponsePrefix
      && r[|r| - |ResponseSuffix|..] == ResponseSuffix
      && r[|ResponsePrefix|..|r| - |ResponseSuffix|] == middle
  {
  }

  lemma MiddleSlices(digits: string, escaped: string)
    requires forall i :: 0 <= i < |digits| ==> digits[i] != ','
    ensures var middle := digits + BodyPrefix + escaped;
      && FirstComma(middle) == |digits|
      && middle[..|digits|] == digits
      && middle[|digits|..|digits| + |BodyPrefix|] == BodyPrefix
      && middle[|digits| + |BodyPrefix|..] == escaped
  {
    assert digits + BodyPrefix + escaped == digits + (BodyPrefix + escaped);
    FirstCommaAfterDecimal(digits, BodyPrefix + escaped);
  }

  /** The response reads back as the status code and message it was made from. */
  lemma ResponseRoundTrip(statusCode: int32, message: string)
    ensures ParseResponse(GenerateResponse(statusCode, message)) == Some((statusCode, message))
  {
    var d := FormatDecimal(statusCode);
    var e := Escape(message);
    var middle := d + BodyPrefix + e;
    assert GenerateResponse(statusCode, message) == ResponsePrefix + middle + ResponseSuffix;
    FrameSlices(middle);
    MiddleSlices(d, e);
    FormatDecimalRoundTrip(statusCode);
    EscapeRoundTrip(message);
  }

  /** Two responses are equal only when status code and message are. */
  lemma GenerateResponseInjective(c1: int32, m1: string, c2: int32, m2: string)
    requires GenerateResponse(c1, m1) == GenerateResponse(c2, m2)
    ensures c1 == c2 && m1 == m2
  {
    ResponseRoundTrip(c1, m1);
    ResponseRoundTrip(c2, m2);
  }

  // ---------------------------------------------------------------------------
  // The escaping against the string grammar of section 7 of RFC 8259
  // ---------------------------------------------------------------------------

  predicate IsHexDigit(c: char)
  {
    '0' <= c <= '9' || 'a' <= c <= 'f' || 'A' <= c <= 'F'
  }

  /** The characters allowed between the quotes of a JSON string. */
  predicate IsJsonStringBody(s: string)
    decreases |s|
  {
    if s == [] then true
    else if s[0] == '"' || s[0] < ' ' then false
    else if s[0] == '\\' then
      if |s| >= 2 && s[1] in "\"\\/bfnrt" then IsJsonStringBody(s[2..])
      else if |s| >= 6 && s[1] == 'u' && IsHexDigit(s[2]) && IsHexDigit(s[3]) && IsHexDigit(s[4]) && IsHexDigit(s[5])
      then IsJsonStringBody(s[6..])
      else false
    else IsJsonStringBody(s[1..])
  }

  /** A message without backslashes or control characters is escaped into a valid JSON string. */
  lemma {:induction false} EscapeIsJsonWhenPlain(message: string)
    requires forall i :: 0 <= i < |message| ==> message[i] != '\\' && message[i] >= ' '
    ensures IsJsonStringBody(Escape(message))
  {
    if message != [] {
      EscapeIsJsonWhenPlain(message[1..]);
      var rest := Escape(message[1..]);
      if message[0] == '"' {
        assert Escape(message) == "\\\"" + rest;
        assert ("\\\"" + rest)[2..] == rest;
      } else {
        assert Escape(message) == [message[0]] + rest;
        assert ([message[0]] + rest)[1..] == rest;
      }
    }
  }

  /** No escape sequence contains a control character, so one anywhere breaks the string. */
  lemma {:induction false} ControlCharacterIsNotJson(s: string, i: nat)
    requires i < |s| && s[i] < ' '
    ensures !IsJsonStringBody(s)
    decreases |s|
  {
    if s[0] == '"' || s[0] < ' ' {
    } else if s[0] == '\\' {
      if |s| >= 2 && s[1] in "\"\\/bfnrt" {
        if i >= 2 { ControlCharacterIsNotJson(s[2..], i - 2); }
      } else if |s| >= 6 && s[1] == 'u' && IsHexDigit(s[2]) && IsHexDigit(s[3]) && IsHexDigit(s[4]) && IsHexDigit(s[5]) {
        if i >= 6 { ControlCharacterIsNotJson(s[6..], i - 6); }
      }
    } else {
      ControlCharacterIsNotJson(s[1..], i - 1);
    }
  }

  /** Escaping keeps every character of the message. */
  lemma {:induction false} EscapeKeeps(message: string, i: nat)
    requires i < |message|
    ensures exists j :: 0 <= j < |Escape(message)| && Escape(message)[j] == message[i]
  {
    var head := if message[0] == '"' then "\\\"" else [message[0]];
    var rest := Escape(message[1..]);
    assert Escape(message) == head + rest;
    if i == 0 {
      assert (head + rest)[|head| - 1] == message[0];
    } else {
      EscapeKeeps(message[1..], i - 1);
      var j :| 0 <= j < |rest| && rest[j] == message[1..][i - 1];
      assert (head + rest)[|head| + j] == rest[j];
    }
  }

  /**
   * Control characters pass through `generateResponse` unescaped, so a message holding one (a
   * newline, say) never yields a valid JSON string.
   */
  lemma ControlCharacterMessageIsNotJson(message: string, i: nat)
    requires i < |message| && message[i] < ' '
    ensures !IsJsonStringBody(Escape(message))
  {
    EscapeKeeps(message, i);
    var j :| 0 <= j < |Escape(message)| && Escape(message)[j] == message[i];
    ControlCharacterIsNotJson(Escape(message), j);
  }

  /** A trailing backslash is left alone and escapes the closing quote instead. */
  lemma TrailingBackslashIsNotJson()
    ensures Escape("C:\\") == "C:\\"
    ensures !IsJsonStringBody(Escape("C:\\"))
  {
  }

  // ---------------------------------------------------------------------------
  // Properties of the handler
  // ---------------------------------------------------------------------------

  /** Missing or empty body: 400 "body is required", whatever the collaborators would have done. */
  lemma MissingBodyIsBadRequest(codecs: Codecs, other: Codecs, input: Request)
    requires BodyMissing(input)
    ensures HandleRequest(codecs, input) == GenerateResponse(400, BodyRequired)
    ensures HandleRequest(codecs, input) == HandleRequest(other, input)
  {
    assert Decide(codecs, input) == Decide(other, input) == Reply(400, BodyRequired);
  }

  /** An eligible, encodable body: 200 with the fixed message; the XML is not part of the response. */
  lemma ProcessedIgnoresXml(codecs: Codecs, other: Codecs, input: Request)
    requires HasBody(input)
    requires Run(codecs, Body(input).value.value).Encoded?
    requires Run(other, Body(input).value.value).Encoded?
    ensures HandleRequest(codecs, input) == GenerateResponse(200, ProcessedSuccessfully)
    ensures HandleRequest(codecs, input) == HandleRequest(other, input)
  {
    assert Decide(codecs, input) == Decide(other, input) == Reply(200, ProcessedSuccessfully);
  }

  lemma Format400()
    ensures FormatDecimal(400) == "400"
  {
  }

  lemma BodyRequiredHasNoQuote()
    ensures Escape(BodyRequired) == BodyRequired
  {
    EscapeWithoutQuotes(BodyRequired);
  }

  /**
   * A request without a `body` key gets, character for character,
   * `{ "statusCode": 400, "body": "Invalid request: body is required" }`.
   */
  lemma NoBodyResponse(codecs: Codecs)
    ensures HandleRequest(codecs, Some(map[])) == ResponsePrefix + "400" + BodyPrefix + BodyRequired + ResponseSuffix
  {
    assert BodyMissing(Some(map[]));
    assert HandleRequest(codecs, Some(map[])) == GenerateResponse(400, BodyRequired);
    Format400();
    BodyRequiredHasNoQuote();
  }

  /** A body Jackson cannot parse is a 500 carrying Jackson's message. */
  lemma MalformedBodyIsServerError(codecs: Codecs, body: string)
    requires |body| > 0 && codecs.readValue(body).Failure?
    ensures Decide(codecs, Some(map["body" := JavaString(body)]))
         == Reply(500, ServerErrorPrefix + MessageText(codecs.readValue(body).error))
  {
  }

  /**
   * A body Jackson reads as a `null` purchase (the JSON literal `null`) is dereferenced by
   * `isPrivatePassengerVehicle`; the `NullPointerException` carries no message, so the reply is
   * 500 "Server error: null".
   */
  lemma NullPurchaseIsServerError(codecs: Codecs, body: string)
    requires |body| > 0 && codecs.readValue(body) == Success(None)
    ensures Decide(codecs, Some(map["body" := JavaString(body)])) == Reply(500, "Server error: null")
  {
  }
}
