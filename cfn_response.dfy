/**
 * The CloudFormation custom-resource protocol as the handlers use it: the fields
 * of the request event they read, the outcome they report, and the response
 * body they send to the event's ResponseURL.
 */
module CfnResponse {
  import opened Wrappers
  import opened Decimal

  /** The event fields the handlers read; PhysicalResourceId is absent on Create. */
  datatype Event = Event(
    requestType: string,
    stackId: string,
    requestId: string,
    logicalResourceId: string,
    physicalResourceId: Option<string>,
    responseUrl: string)

  /** What a handler reports: SUCCESS with its Data, or FAILED with a Reason. */
  datatype Outcome = Success(data: map<string, string>) | Failed(reason: string)

  /** The JSON body sent back. */
  datatype Payload = Payload(
    stackId: string,
    status: string,
    reason: string,
    requestId: string,
    logicalResourceId: string,
    physicalResourceId: string,
    data: map<string, string>)

  /** A response body and the URL it is PUT to. */
  datatype Delivery = Delivery(url: string, payload: Payload)

  const StatusSuccess := "SUCCESS"
  const StatusFailed := "FAILED"

  /** The Reason sent when the read-back holds fewer than `n` blocks. */
  function ShortfallReason(n: nat): (r: string)
    ensures 16 + 35 < |r|
    ensures r[..16] == "Couldn't obtain " && r[|r| - 35..] == " CIDR for stack from DynamoDB query"
    ensures AllDigits(r[16..|r| - 35]) && StringToNat(r[16..|r| - 35]) == n
  {
    var d := NatToString(n);
    var r := "Couldn't obtain " + d + " CIDR for stack from DynamoDB query";
    assert r[16..|r| - 35] == d;
    StringToNatInverts(n);
    r
  }

  /**
   * send_response's payload: the correlation fields copied from the event, the
   * status, an empty Reason on success and empty Data on failure.
   */
  function BuildPayload(event: Event, outcome: Outcome, physicalId: string): (p: Payload)
    ensures p.stackId == event.stackId && p.requestId == event.requestId
    ensures p.logicalResourceId == event.logicalResourceId && p.physicalResourceId == physicalId
    ensures p.status == StatusSuccess <==> outcome.Success?
    ensures p.status == StatusFailed <==> outcome.Failed?
    ensures outcome.Success? ==> p.reason == "" && p.data == outcome.data
    ensures outcome.Failed? ==> p.reason == outcome.reason && p.data == map[]
  {
    match outcome
    case Success(data) =>
      Payload(event.stackId, StatusSuccess, "", event.requestId, event.logicalResourceId, physicalId, data)
    case Failed(reason) =>
      Payload(event.stackId, StatusFailed, reason, event.requestId, event.logicalResourceId, physicalId, map[])
  }

  /** The PUT of the payload to the event's ResponseURL. */
  function SendResponse(event: Event, outcome: Outcome, physicalId: string): (d: Delivery)
    ensures d.url == event.responseUrl
    ensures d.payload.stackId == event.stackId && d.payload.requestId == event.requestId
    ensures d.payload.logicalResourceId == event.logicalResourceId && d.payload.physicalResourceId == physicalId
    ensures d.payload.status == (if outcome.Success? then StatusSuccess else StatusFailed)
  {
    Delivery(event.responseUrl, BuildPayload(event, outcome, physicalId))
  }
}
