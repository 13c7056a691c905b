# Policy-purchase message pipeline, in Dafny

This project models the policy-purchase pipeline of two AWS Lambda handlers and proves properties
of the model.

- `PolicyPurchaseProcessor` is triggered by SNS. For every record of the batch it does four steps:
  - it parses the JSON message into `PolicyPurchase` / `Policyholder` / `Vehicle`;
  - it keeps only private-passenger vehicles;
  - it builds a fixed XML document;
  - it publishes that document to one SQS queue.

  A failure on any record is caught, and the loop goes on with the next record.
- `PostEndpointImpl` runs the same parse, filter and encode steps on the `body` of one request.
  It maps the outcome to 200, 400 or 500 and formats the reply with `generateResponse`.

Both source files carry identical copies of `isPrivatePassengerVehicle` and `transformToXml`.
The model defines each once and both handlers use it.

Modules:

- `Wrappers`: `Option` (Java's `null`) and `Result` (a value, or the exception thrown).
- `JavaText`: Java `int`, `String.equalsIgnoreCase` and the `%d` conversion.
- `PolicyModel`: the payload classes. Every field Jackson may leave `null` is an `Option`.
- `Eligibility`: `isPrivatePassengerVehicle`.
- `XmlEncoding`: a DOM `Document` class and `transformToXml`. The method builds the document
  node by node and is proved to yield the fixed tree `PurchaseTree`.
- `Pipeline`: the parse, filter, encode chain (`Run`). Jackson's `readValue` and the DOM
  `Transformer` are opaque functions held in `Codecs`.
- `Processor`: the SQS client (a class recording accepted sends, and as a ghost log every send it
  was asked for) and the batch handler. The handler is proved to send exactly one request per
  encoded record, in input order (`Publishable`), and to append to the queue exactly the accepted
  ones (`Published`).
- `PostEndpoint`: the status mapping `Decide`, `handleRequest`, `generateResponse` and its escaping.
  `ParseResponse` reads a response back, and `IsJsonStringBody` is the string grammar of section 7
  of RFC 8259.

The escaping in `generateResponse` turns `"` into `\"` and nothing else. It leaves backslashes and
control characters alone, so the response is not valid JSON in general. The model keeps this
behaviour. Three lemmas pin it down:
- `EscapeIsJsonWhenPlain`: a message without backslashes or control characters gives a valid string;
- `ControlCharacterMessageIsNotJson`: a control character anywhere makes the string invalid;
- `TrailingBackslashIsNotJson`: a trailing backslash escapes the closing quote.

Jackson, as configured here, leaves absent JSON properties `null`, and it reads the JSON literal
`null` as a `null` purchase. A `null` purchase or a missing `vehicle` is then dereferenced by
`isPrivatePassengerVehicle`, and a missing `policyholder` by `transformToXml`; each throws
`NullPointerException`.

## Model

| member | source | states |
|---|---|---|
| `JavaText.EqualsIgnoreCaseIffSameFold` | src/main/java/com/infarmbureau.ea/aws.lambda/poc/java/basic/PolicyPurchaseProcessor.java:101-106 | `equalsIgnoreCase` holds exactly when both strings have equal length and equal per-character folds `toLowerCase(toUpperCase(c))` |
| `JavaText.CharsMatchIffSameFold` | src/main/java/com/infarmbureau.ea/aws.lambda/poc/java/basic/PolicyPurchaseProcessor.java:101-106 | one step of the case-insensitive comparison matches two characters exactly when they have the same fold `toLowerCase(toUpperCase(c))` |
| `JavaText.CharsMatchIgnoreCase` | src/main/java/com/infarmbureau.ea/aws.lambda/poc/java/basic/PolicyPurchaseProcessor.java:101-106 | the per-character test of `regionMatches(true, ...)`: equal, equal upper cases, or equal lower cases of the upper cases; its meaning is `CharsMatchIffSameFold` |
| `JavaText.EqualsIgnoreCase` | src/main/java/com/infarmbureau.ea/aws.lambda/poc/java/basic/PolicyPurchaseProcessor.java:101-106 | `equalsIgnoreCase`: a `null` argument never matches, otherwise equal lengths and every character pair matches; its meaning is `EqualsIgnoreCaseIffSameFold` |
| `JavaText.ToUpperCase` | src/main/java/com/infarmbureau.ea/aws.lambda/poc/java/basic/PolicyPurchaseProcessor.java:101-106 | an ASCII lower-case letter maps to its upper case, 32 code points below; every other ASCII character is left as it is |
| `JavaText.ToLowerCase` | src/main/java/com/infarmbureau.ea/aws.lambda/poc/java/basic/PolicyPurchaseProcessor.java:101-106 | an ASCII upper-case letter maps to its lower case, 32 code points above; every other ASCII character is left as it is |
| `JavaText.FormatDecimal` | src/main/java/com/infarmbureau.ea/aws.lambda/poc/java/basic/PostEndpointImpl.java:139-141 | `%d` of an `int`: a leading `-` exactly for negative values, then digits with no leading zero; zero is exactly `0`; `FormatDecimalRoundTrip` reads it back |
| `JavaText.FormatDecimalRoundTrip` | src/main/java/com/infarmbureau.ea/aws.lambda/poc/java/basic/PostEndpointImpl.java:139-141 | the `%d` text of every `int` reads back as that `int` |
| `Eligibility.IsPrivatePassengerVehicle` | src/main/java/com/infarmbureau.ea/aws.lambda/poc/java/basic/PolicyPurchaseProcessor.java:100-107 | a `null` purchase or a missing vehicle throws `NullPointerException`, and nothing else throws; a missing type gives false |
| `Eligibility.IsPrivatePassengerType` | src/main/java/com/infarmbureau.ea/aws.lambda/poc/java/basic/PolicyPurchaseProcessor.java:101-106 | the `||` chain of six `equalsIgnoreCase` tests on the vehicle type, in source order; its meaning is `PrivatePassengerTypeIff` |
| `Eligibility.PrivatePassengerTypeIff` | src/main/java/com/infarmbureau.ea/aws.lambda/poc/java/basic/PolicyPurchaseProcessor.java:100-107 | a type is accepted iff it is present and its case fold is one of sedan, coupe, compact, suv, minivan, small truck (both directions) |
| `Eligibility.EligibleIff` | src/main/java/com/infarmbureau.ea/aws.lambda/poc/java/basic/PostEndpointImpl.java:92-99 | for a purchase with a vehicle, the result is `Success` of exactly that allow-list test |
| `Eligibility.UpperCaseEligible` | src/main/java/com/infarmbureau.ea/aws.lambda/poc/java/basic/PolicyPurchaseProcessor.java:100-107 | "SUV" and "Small Truck" are accepted; "motorcycle" and "" are refused |
| `Eligibility.NonAsciiFoldsEligible` | src/main/java/com/infarmbureau.ea/aws.lambda/poc/java/basic/PolicyPurchaseProcessor.java:101-106 | as Java folds case, "small truc" + KELVIN SIGN and LONG S + "edan" are accepted |
| `XmlEncoding.Document.constructor` | src/main/java/com/infarmbureau.ea/aws.lambda/poc/java/basic/PolicyPurchaseProcessor.java:111 | `newDocument` starts with no nodes and no root element |
| `XmlEncoding.Document.CreateElement` | src/main/java/com/infarmbureau.ea/aws.lambda/poc/java/basic/PolicyPurchaseProcessor.java:114 | `createElement` adds one detached element with no children and returns its handle |
| `XmlEncoding.Document.CreateTextNode` | src/main/java/com/infarmbureau.ea/aws.lambda/poc/java/basic/PolicyPurchaseProcessor.java:119 | `createTextNode` adds one detached text node with the given (possibly null) data |
| `XmlEncoding.Document.AppendDocumentElement` | src/main/java/com/infarmbureau.ea/aws.lambda/poc/java/basic/PolicyPurchaseProcessor.java:115 | `doc.appendChild(root)` makes the element the document's root and changes no node |
| `XmlEncoding.Document.AppendChild` | src/main/java/com/infarmbureau.ea/aws.lambda/poc/java/basic/PolicyPurchaseProcessor.java:120-131 | `appendChild` adds the child as the parent's last child, changes no other node, and keeps other detached nodes detached |
| `XmlEncoding.Document.AppendTextElement` | src/main/java/com/infarmbureau.ea/aws.lambda/poc/java/basic/PolicyPurchaseProcessor.java:118-120 | an element holding one text node, appended as the parent's last child; the two new nodes follow all old ones |
| `XmlEncoding.PurchaseArenaTree` | src/main/java/com/infarmbureau.ea/aws.lambda/poc/java/basic/PolicyPurchaseProcessor.java:111-131 | the eight nodes linked as `transformToXml` links them form `PurchaseTree` |
| `XmlEncoding.PurchaseTree` | src/main/java/com/infarmbureau.ea/aws.lambda/poc/java/basic/PolicyPurchaseProcessor.java:113-131 | the tree `transformToXml` hands the transformer; `ReadBackPurchaseTree`, `PurchaseTreeElements` and `PurchaseTreeTexts` state its content |
| `XmlEncoding.TransformToXml` | src/main/java/com/infarmbureau.ea/aws.lambda/poc/java/basic/PolicyPurchaseProcessor.java:109-144 | the DOM calls give the transformer exactly `PurchaseTree`; a missing policyholder throws `NullPointerException` instead |
| `XmlEncoding.ReadBackPurchaseTree` | src/main/java/com/infarmbureau.ea/aws.lambda/poc/java/basic/PolicyPurchaseProcessor.java:113-131 | quote id, first name and last name read back from the tree unchanged, nulls included |
| `XmlEncoding.PurchaseTreeElements` | src/main/java/com/infarmbureau.ea/aws.lambda/poc/java/basic/PolicyPurchaseProcessor.java:113-131 | the elements are, in document order, PolicyPurchase, QuoteId, Policyholder, FirstName, LastName |
| `XmlEncoding.PurchaseTreeTexts` | src/main/java/com/infarmbureau.ea/aws.lambda/poc/java/basic/PolicyPurchaseProcessor.java:117-134 | the tree's texts are exactly quote id, first name, last name, in that order |
| `XmlEncoding.EncodeIgnoresVehicle` | src/main/java/com/infarmbureau.ea/aws.lambda/poc/java/basic/PolicyPurchaseProcessor.java:109-134 | vehicle type and vin have no influence on the encoding |
| `Pipeline.Run` | src/main/java/com/infarmbureau.ea/aws.lambda/poc/java/basic/PolicyPurchaseProcessor.java:68-83 | a payload is encoded iff it parses, its vehicle is eligible and the encoding succeeds; it is skipped iff it parses and its vehicle is ineligible; a parser failure, a `null` purchase or a missing vehicle, and an encoder failure each report that very exception |
| `Processor.SqsClient.SendMessage` | src/main/java/com/infarmbureau.ea/aws.lambda/poc/java/basic/PolicyPurchaseProcessor.java:153 | the queue either appends the request or the call fails and the queue is unchanged |
| `Processor.PolicyPurchaseProcessor.constructor` | src/main/java/com/infarmbureau.ea/aws.lambda/poc/java/basic/PolicyPurchaseProcessor.java:32-57 | the handler keeps the collaborators it is built with |
| `Processor.PolicyPurchaseProcessor.PublishToSqs` | src/main/java/com/infarmbureau.ea/aws.lambda/poc/java/basic/PolicyPurchaseProcessor.java:146-154 | one send of the message to `SQS_QUEUE_URL`, appended if the queue accepts it |
| `Processor.PolicyPurchaseProcessor.ProcessRecord` | src/main/java/com/infarmbureau.ea/aws.lambda/poc/java/basic/PolicyPurchaseProcessor.java:68-90 | one pass of the `try` block: a send is attempted iff the record is encoded, with its XML; an exception anywhere sends nothing; `ok` only for an encoded record |
| `Processor.PolicyPurchaseProcessor.HandleRequest` | src/main/java/com/infarmbureau.ea/aws.lambda/poc/java/basic/PolicyPurchaseProcessor.java:60-93 | every encoded record is sent exactly once, in input order, and nothing else is sent (`attempts` grows by `Publishable`); the queue grows by exactly the accepted sends (`Published`); nothing else changes |
| `Processor.PublishedAppend` | src/main/java/com/infarmbureau.ea/aws.lambda/poc/java/basic/PolicyPurchaseProcessor.java:64-91 | a batch publishes what its parts publish, in order: a later record never undoes an earlier publish |
| `Processor.PublishedBy` | src/main/java/com/infarmbureau.ea/aws.lambda/poc/java/basic/PolicyPurchaseProcessor.java:73-83 | what one record adds to the queue: its request if it was encoded and the send was accepted, otherwise nothing |
| `Processor.Stages` | src/main/java/com/infarmbureau.ea/aws.lambda/poc/java/basic/PolicyPurchaseProcessor.java:64-70 | how far each record of the batch gets, one per record, in input order |
| `Processor.Published` | src/main/java/com/infarmbureau.ea/aws.lambda/poc/java/basic/PolicyPurchaseProcessor.java:64-91 | the batch's accepted publishes, record by record in input order; its properties are `PublishedAppend`, `PublishedBound`, `PublishedAllAccepted` and `PublishedRequests` |
| `Processor.Publishable` | src/main/java/com/infarmbureau.ea/aws.lambda/poc/java/basic/PolicyPurchaseProcessor.java:64-91 | the batch's send attempts, one per encoded record in input order |
| `Processor.PublishedBound` | src/main/java/com/infarmbureau.ea/aws.lambda/poc/java/basic/PolicyPurchaseProcessor.java:64-91 | publishes are at most the encoded records, which are at most the records |
| `Processor.PublishedAllAccepted` | src/main/java/com/infarmbureau.ea/aws.lambda/poc/java/basic/PolicyPurchaseProcessor.java:64-83 | when the queue accepts every send, exactly one request per encoded record is published, in input order |
| `Processor.PublishedRequests` | src/main/java/com/infarmbureau.ea/aws.lambda/poc/java/basic/PolicyPurchaseProcessor.java:146-154 | every publish targets `SQS_QUEUE_URL` and its body is the encoded XML of one record of the batch |
| `Processor.NotEncodedPublishesNothing` | src/main/java/com/infarmbureau.ea/aws.lambda/poc/java/basic/PolicyPurchaseProcessor.java:81-90 | an ineligible record, or one whose parse, filter or encode throws, publishes nothing |
| `Processor.OneEligibleOneMalformed` | src/main/java/com/infarmbureau.ea/aws.lambda/poc/java/basic/PolicyPurchaseProcessor.java:64-92 | a batch of one eligible "SUV" message and one malformed message publishes exactly one request, in either order |
| `PostEndpoint.Decide` | src/main/java/com/infarmbureau.ea/aws.lambda/poc/java/basic/PostEndpointImpl.java:57-84 | the status is 200, 400 or 500; missing or empty body iff 400 "body is required"; 200 iff the body is encoded, with "Processed successfully!"; 400 "unsupported vehicle type" iff the vehicle is ineligible; every exception gives 500 with "Server error: " and its message |
| `PostEndpoint.Body` | src/main/java/com/infarmbureau.ea/aws.lambda/poc/java/basic/PostEndpointImpl.java:59 | `(String) input.get("body")`: a `null` map throws `NullPointerException`, a missing key or `null` value reads `null`, a non-string value fails the cast |
| `PostEndpoint.BodyMissing` | src/main/java/com/infarmbureau.ea/aws.lambda/poc/java/basic/PostEndpointImpl.java:60 | `body == null || body.isEmpty()`, for a body that was read without an exception |
| `PostEndpoint.HandleRequest` | src/main/java/com/infarmbureau.ea/aws.lambda/poc/java/basic/PostEndpointImpl.java:52-85 | the response string reads back as exactly the decided status code and message |
| `PostEndpoint.GenerateResponse` | src/main/java/com/infarmbureau.ea/aws.lambda/poc/java/basic/PostEndpointImpl.java:138-143 | the response is as long as the fixed frame, the decimal code and the message, plus one per `"` in the message |
| `PostEndpoint.Escape` | src/main/java/com/infarmbureau.ea/aws.lambda/poc/java/basic/PostEndpointImpl.java:141 | `message.replace("\"", "\\\"")`; its properties are `EscapeLength`, `EscapeRoundTrip`, `EscapeInjective`, `EscapedQuotesFollowBackslash` and `EscapeWithoutQuotes` |
| `PostEndpoint.EscapeLength` | src/main/java/com/infarmbureau.ea/aws.lambda/poc/java/basic/PostEndpointImpl.java:141 | escaping lengthens the message by the number of `"` in it |
| `PostEndpoint.EscapeRoundTrip` | src/main/java/com/infarmbureau.ea/aws.lambda/poc/java/basic/PostEndpointImpl.java:141 | the escaped message unescapes to the original, backslashes included |
| `PostEndpoint.EscapeInjective` | src/main/java/com/infarmbureau.ea/aws.lambda/poc/java/basic/PostEndpointImpl.java:141 | distinct messages escape to distinct strings |
| `PostEndpoint.EscapedQuotesFollowBackslash` | src/main/java/com/infarmbureau.ea/aws.lambda/poc/java/basic/PostEndpointImpl.java:141 | every `"` of the escaped message directly follows a backslash |
| `PostEndpoint.EscapeWithoutQuotes` | src/main/java/com/infarmbureau.ea/aws.lambda/poc/java/basic/PostEndpointImpl.java:141 | a message without `"` is copied unchanged |
| `PostEndpoint.ResponseRoundTrip` | src/main/java/com/infarmbureau.ea/aws.lambda/poc/java/basic/PostEndpointImpl.java:138-143 | `ParseResponse` recovers the status code and message from every response |
| `PostEndpoint.GenerateResponseInjective` | src/main/java/com/infarmbureau.ea/aws.lambda/poc/java/basic/PostEndpointImpl.java:138-143 | equal responses come from equal status codes and messages |
| `PostEndpoint.EscapeIsJsonWhenPlain` | src/main/java/com/infarmbureau.ea/aws.lambda/poc/java/basic/PostEndpointImpl.java:139-141 | for a message without backslashes or control characters, the escaped text is a valid JSON string body |
| `PostEndpoint.ControlCharacterMessageIsNotJson` | src/main/java/com/infarmbureau.ea/aws.lambda/poc/java/basic/PostEndpointImpl.java:139-141 | a message holding a control character never gives a valid JSON string body |
| `PostEndpoint.TrailingBackslashIsNotJson` | src/main/java/com/infarmbureau.ea/aws.lambda/poc/java/basic/PostEndpointImpl.java:141 | the message `C:\` is left as it is, and its trailing backslash escapes the closing quote |
| `PostEndpoint.MissingBodyIsBadRequest` | src/main/java/com/infarmbureau.ea/aws.lambda/poc/java/basic/PostEndpointImpl.java:59-62 | a missing or empty body gives the 400 "body is required" response, the same for any parser and transformer |
| `PostEndpoint.NoBodyResponse` | src/main/java/com/infarmbureau.ea/aws.lambda/poc/java/basic/PostEndpointImpl.java:59-61 | a request without a `body` key gets `{ "statusCode": 400, "body": "Invalid request: body is required" }` |
| `PostEndpoint.ProcessedIgnoresXml` | src/main/java/com/infarmbureau.ea/aws.lambda/poc/java/basic/PostEndpointImpl.java:69-77 | an eligible, encodable body gives the fixed 200 response, whatever XML was produced |
| `PostEndpoint.MalformedBodyIsServerError` | src/main/java/com/infarmbureau.ea/aws.lambda/poc/java/basic/PostEndpointImpl.java:66-84 | a body the parser rejects gives 500 with "Server error: " and the parser's message |
| `PostEndpoint.NullPurchaseIsServerError` | src/main/java/com/infarmbureau.ea/aws.lambda/poc/java/basic/PostEndpointImpl.java:66-69 | a body Jackson reads as a `null` purchase gives 500 "Server error: null" |

## Left out

- JSON parsing by Jackson (`objectMapper.readValue`) is an opaque function, `Codecs.readValue`. Its
  configuration, such as rejecting unknown properties, is not modelled.
- XML rendering by the DOM `Transformer` is an opaque function of the element tree,
  `Codecs.transform`. The byte-level output, the XML declaration and character escaping are left out.
- The SQS service is a record of accepted sends. Whether a send is accepted is a nondeterministic
  choice. A send that fails after the queue took the message is not modelled.
- Logging, `System.currentTimeMillis` timing and the Lambda `Context` are left out. They have no
  effect on the result.
- The constructors' cold-start setup of the clients and factories is left out. So is the
  `RuntimeException` thrown when that setup fails.
- `Processor.PolicyPurchaseProcessor.HandleRequest`: every record carries a message string. A `null`
  records list or a record without an SNS entity would throw outside the `try`, and a `null` message
  would fail inside it; the Lambda runtime does not deliver such events.
- `Processor.PolicyPurchaseProcessor.HandleRequest`: the handler's `null` return value is not modelled.
  The method returns only the ghost record of which sends were accepted.
- `PostEndpoint.Decide`: a `NullPointerException` is modelled with a `null` message, so the reply reads
  "Server error: null". On JDKs with helpful `NullPointerException` messages, a description follows the
  prefix instead.
- `JavaText.ToUpperCase` and `JavaText.ToLowerCase` fold ASCII letters and the four non-ASCII characters
  whose simple case mapping is an ASCII letter (U+0130, U+0131, U+017F, U+212A). Other characters map to
  themselves. This changes `equalsIgnoreCase` only between two non-ASCII characters, and the allow-list
  literals are ASCII.
- Java strings are UTF-16 code units, and Dafny strings are Unicode scalar values. No supplementary
  character folds to ASCII, so the allow-list decision is the same.
- `JavaText.FormatDecimal` writes ASCII digits. `String.format` uses the default locale, which could
  in principle choose other digits.
- `XmlEncoding.Document.AppendChild` requires a detached child created after its element parent. The
  DOM's re-parenting of an attached child and its hierarchy errors are not modelled. Every call in
  `transformToXml` meets the requirement.
- `XmlEncoding.Document.AppendDocumentElement` requires a document without a root. The DOM error for a
  second root is not modelled. `transformToXml` appends one root to a new document.
- `XmlEncoding.TransformToXml` checks the missing policyholder before it creates the `FirstName`
  element. The source creates that element first, but the document is dropped when the exception is
  thrown, so the order makes no visible difference.
- `S3FileCopyHandler` and `S3TriggerEventHandler` are not part of this model. They only move bytes
  between buckets or log an event.
