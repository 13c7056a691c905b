/**
 * `PolicyPurchaseProcessor`: the SNS-triggered, fire-and-forget handler. Each record of the
 * batch runs through the pipeline; an encoded payload is published to one fixed SQS queue; any
 * exception is swallowed and the loop goes on with the next record.
 */
module Processor {

  import opened Wrappers
  import opened PolicyModel
  import opened Eligibility
  import opened XmlEncoding
  import opened Pipeline

  /** `SQS_QUEUE_URL`, the only queue the handler publishes to. */
  const SqsQueueUrl: string :=
    "https://sqs.us-east-1.amazonaws.com/971422680638/sqs-target-for-basic-sns-to-sqs-trigger-function-vanilla-java"

  datatype SendMessageRequest = SendMessageRequest(queueUrl: string, messageBody: string)

  /** One SNS notification record; only its message is read. */
  datatype SnsRecord = SnsRecord(message: string)

  datatype SnsEvent = SnsEvent(records: seq<SnsRecord>)

  /**
   * The SQS client: the messages the queue has accepted so far, and, as a ghost log, every
   * request the handler has tried to send, accepted or not.
   */
  class SqsClient {
    var sent: seq<SendMessageRequest>
    ghost var attempts: seq<SendMessageRequest>

    constructor ()
      ensures sent == [] && attempts == []
    {
      sent := [];
      attempts := [];
    }

    /** `sendMessage`: the queue either accepts the request or the call throws and nothing is sent. */
    method SendMessage(request: SendMessageRequest) returns (ok: bool)
      modifies this
      ensures sent == if ok then old(sent) + [request] else old(sent)
      ensures attempts == old(attempts) + [request]
    {
      attempts := attempts + [request];
      ok :| true;
      if ok {
        sent := sent + [request];
      }
    }
  }

  /** The request an encoded payload is published as. */
  function RequestFor(xml: string): SendMessageRequest
  {
    SendMessageRequest(SqsQueueUrl, xml)
  }

  /** What one record adds to the queue, from how far it got and whether the queue accepted the send. */
  function PublishedBy(stage: Stage, accepted: bool): seq<SendMessageRequest>
  {
    match stage
    case Encoded(xml) => if accepted then [RequestFor(xml)] else []
    case _ => []
  }

  /** How far each record of a batch gets, in input order. */
  function Stages(codecs: Codecs, records: seq<SnsRecord>): (stages: seq<Stage>)
    ensures |stages| == |records|
  {
    if records == [] then []
    else
      var n := |records| - 1;
      Stages(codecs, records[..n]) + [Run(codecs, records[n].message)]
  }

  /** What a batch adds to the queue, record by record in input order. */
  function Published(stages: seq<Stage>, accepted: seq<bool>): seq<SendMessageRequest>
    requires |accepted| == |stages|
  {
    if stages == [] then []
    else
      var n := |stages| - 1;
      Published(stages[..n], accepted[..n]) + PublishedBy(stages[n], accepted[n])
  }

  /** What a batch would add with every send accepted: one request per encoded record. */
  function Publishable(stages: seq<Stage>): seq<SendMessageRequest>
  {
    if stages == [] then []
    else
      var n := |stages| - 1;
      Publishable(stages[..n]) + PublishedBy(stages[n], true)
  }

  /**
   * A batch publishes what its parts publish, in order: what earlier records published is never
   * undone by later ones, and the queue only grows by appends.
   */
  lemma {:induction false} PublishedAppend(
    first: seq<Stage>, acceptedFirst: seq<bool>, rest: seq<Stage>, acceptedRest: seq<bool>)
    requires |acceptedFirst| == |first| && |acceptedRest| == |rest|
    ensures Published(first + rest, acceptedFirst + acceptedRest)
         == Published(first, acceptedFirst) + Published(rest, acceptedRest)
    decreases |rest|
  {
    if rest == [] {
      assert first + rest == first;
      assert acceptedFirst + acceptedRest == acceptedFirst;
    } else {
      var n := |rest| - 1;
      var stages, accepted := first + rest, acceptedFirst + acceptedRest;
      PublishedAppend(first, acceptedFirst, rest[..n], acceptedRest[..n]);
      assert stages[..|first| + n] == first + rest[..n];
      assert accepted[..|first| + n] == acceptedFirst + acceptedRest[..n];
      assert stages[|first| + n] == rest[n] && accepted[|first| + n] == acceptedRest[n];
      var last := PublishedBy(rest[n], acceptedRest[n]);
      calc {
        Published(stages, accepted);
        Published(first + rest[..n], acceptedFirst + acceptedRest[..n]) + last;
        Published(first, acceptedFirst) + Published(rest[..n], acceptedRest[..n]) + last;
        Published(first, acceptedFirst) + Published(rest, acceptedRest);
      }
    }
  }

  /** Extending a prefix of the batch by one record adds that record's publish at the end. */
  lemma PublishedStep(codecs: Codecs, records: seq<SnsRecord>, accepted: seq<bool>, ok: bool)
    requires |accepted| < |records|
    ensures var i := |accepted|;
      var before, after, stage := Stages(codecs, records[..i]), Stages(codecs, records[..i + 1]), Run(codecs, records[i].message);
      && Publishable(after) == Publishable(before) + PublishedBy(stage, true)
      && Published(after, accepted + [ok]) == Published(before, accepted) + PublishedBy(stage, ok)
  {
    var i := |accepted|;
    assert records[..i + 1][..i] == records[..i];
    assert (accepted + [ok])[..i] == accepted;
  }

  /** At most one publish per encoded record, so never more publishes than records. */
  lemma {:induction false} PublishedBound(stages: seq<Stage>, accepted: seq<bool>)
    requires |accepted| == |stages|
    ensures |Published(stages, accepted)| <= |Publishable(stages)| <= |stages|
  {
    if stages != [] {
      var n := |stages| - 1;
      PublishedBound(stages[..n], accepted[..n]);
    }
  }

  /** When the queue accepts every send, exactly the encoded records are published, in input order. */
  lemma {:induction false} PublishedAllAccepted(stages: seq<Stage>, accepted: seq<bool>)
    requires |accepted| == |stages|
    requires forall i :: 0 <= i < |accepted| ==> accepted[i]
    ensures Published(stages, accepted) == Publishable(stages)
  {
    if stages != [] {
      var n := |stages| - 1;
      PublishedAllAccepted(stages[..n], accepted[..n]);
    }
  }

  /** Every publish goes to `SQS_QUEUE_URL` and carries exactly the encoded XML of one of the records. */
  lemma {:induction false} PublishedRequests(stages: seq<Stage>, accepted: seq<bool>)
    requires |accepted| == |stages|
    ensures forall k :: 0 <= k < |Published(stages, accepted)| ==>
      var request := Published(stages, accepted)[k];
      request.queueUrl == SqsQueueUrl
      && exists i :: 0 <= i < |stages| && stages[i] == Encoded(request.messageBody)
  {
    if stages != [] {
      var n := |stages| - 1;
      PublishedRequests(stages[..n], accepted[..n]);
      var before := Published(stages[..n], accepted[..n]);
      var all := Published(stages, accepted);
      forall k | 0 <= k < |all|
        ensures all[k].queueUrl == SqsQueueUrl
        ensures exists i :: 0 <= i < |stages| && stages[i] == Encoded(all[k].messageBody)
      {
        if k < |before| {
          assert all[k] == before[k];
          var i :| 0 <= i < n && stages[..n][i] == Encoded(before[k].messageBody);
          assert stages[..n][i] == stages[i];
        } else {
          assert stages[n] == Encoded(all[k].messageBody);
        }
      }
    }
  }

  /** A record that is not encoded (ineligible, or any exception) publishes nothing. */
  lemma NotEncodedPublishesNothing(codecs: Codecs, record: SnsRecord, accepted: bool)
    requires !Run(codecs, record.message).Encoded?
    ensures Published(Stages(codecs, [record]), [accepted]) == []
  {
  }

  /**
   * A batch of one eligible "SUV" message and one malformed message publishes exactly one request,
   * whichever comes first, and the malformed one does not stop the batch.
   */
  lemma OneEligibleOneMalformed(
    codecs: Codecs, good: string, bad: string, purchase: PolicyPurchase, xml: string)
    requires codecs.readValue(good) == Success(Some(purchase))
    requires purchase.vehicle.Some? && purchase.vehicle.value.vehicleType == Some("SUV")
    requires purchase.policyholder.Some?
    requires codecs.transform(PurchaseTree(purchase.quoteId, purchase.policyholder.value)) == Success(xml)
    requires codecs.readValue(bad).Failure?
    ensures Published(Stages(codecs, [SnsRecord(good), SnsRecord(bad)]), [true, true]) == [RequestFor(xml)]
    ensures Published(Stages(codecs, [SnsRecord(bad), SnsRecord(good)]), [true, true]) == [RequestFor(xml)]
  {
    UpperCaseEligible();
    var g, b := SnsRecord(good), SnsRecord(bad);
    var encoded, failed := Run(codecs, good), Run(codecs, bad);
    assert encoded == Encoded(xml) && failed.Failed?;
    assert [g, b][..1] == [g] && [b, g][..1] == [b] && [g][..0] == [] && [b][..0] == [];
    assert Stages(codecs, [g]) == [encoded] && Stages(codecs, [b]) == [failed];
    assert Stages(codecs, [g, b]) == [encoded, failed];
    assert Stages(codecs, [b, g]) == [failed, encoded];
    assert [encoded, failed][..1] == [encoded] && [failed, encoded][..1] == [failed];
    assert [true, true][..1] == [true] && [encoded][..0] == [] && [failed][..0] == [];
    assert Published([encoded], [true]) == [RequestFor(xml)] && Published([failed], [true]) == [];
  }

  class PolicyPurchaseProcessor {
    const codecs: Codecs
    const sqsClient: SqsClient

    /** Cold start: the collaborators are built once and kept. */
    constructor (codecs: Codecs, sqsClient: SqsClient)
      ensures this.codecs == codecs && this.sqsClient == sqsClient
    {
      this.codecs := codecs;
      this.sqsClient := sqsClient;
    }

    /** `publishToSQS(message)`: one send to the fixed queue. */
    method PublishToSqs(message: string) returns (ok: bool)
      modifies sqsClient
      ensures sqsClient.sent
           == if ok then old(sqsClient.sent) + [RequestFor(message)] else old(sqsClient.sent)
      ensures sqsClient.attempts == old(sqsClient.attempts) + [RequestFor(message)]
    {
      ok := sqsClient.SendMessage(SendMessageRequest(SqsQueueUrl, message));
    }

    /**
     * One pass of the loop body of `handleRequest`, the `try` block: parse, filter, encode and
     * publish one record; an exception anywhere ends the pass with nothing sent. `ok` is whether
     * the queue accepted a send.
     */
    method ProcessRecord(record: SnsRecord) returns (ok: bool)
      modifies sqsClient
      ensures sqsClient.attempts == old(sqsClient.attempts) + PublishedBy(Run(codecs, record.message), true)
      ensures sqsClient.sent == old(sqsClient.sent) + PublishedBy(Run(codecs, record.message), ok)
      ensures ok ==> Run(codecs, record.message).Encoded?
    {
      ok := false;
      var parsed := codecs.readValue(record.message);
      if parsed.Success? {
        var eligible := IsPrivatePassengerVehicle(parsed.value);
        if eligible == Success(true) {
          var xml := TransformToXml(codecs.transform, parsed.value.value);
          if xml.Success? {
            ok := PublishToSqs(xml.value);
          }
        }
      }
    }

    /**
     * `handleRequest(event, context)`: returns nothing and never fails. Every encoded record is
     * sent exactly once, in input order, and nothing else is sent (`attempts`); of those sends,
     * the queue keeps the ones it accepted (`sent`). `accepted` records, per record, whether the
     * queue accepted its send; for a record that was not sent it plays no part.
     */
    method HandleRequest(event: SnsEvent) returns (ghost accepted: seq<bool>)
      modifies sqsClient
      ensures |accepted| == |event.records|
      ensures sqsClient.attempts == old(sqsClient.attempts) + Publishable(Stages(codecs, event.records))
      ensures sqsClient.sent == old(sqsClient.sent) + Published(Stages(codecs, event.records), accepted)
    {
      var records := event.records;
      accepted := [];
      for i := 0 to |records|
        invariant |accepted| == i
        invariant sqsClient.attempts == old(sqsClient.attempts) + Publishable(Stages(codecs, records[..i]))
        invariant sqsClient.sent == old(sqsClient.sent) + Published(Stages(codecs, records[..i]), accepted)
      {
        // try { ... } catch (Exception e) { log and continue }
        var sent := ProcessRecord(records[i]);
        PublishedStep(codecs, records, accepted, sent);
        accepted := accepted + [sent];
      }
      assert records[..|records|] == records;
    }
  }
}
