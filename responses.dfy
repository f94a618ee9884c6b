/** The status messages the firmware publishes after opening or closing a
    locker. JSON serialisation is not modelled: a message is the decoded
    document it would serialise. */
module Responses {

  import opened Optional

  /** The base topic for status messages (`mqtt_topic_pub`). */
  const RESPONSES_TOPIC: string := "locker/responses"

  /** The two transitions a status message reports. */
  datatype Status = Opened | Closed

  /** The text the firmware writes into the `status` field. */
  function StatusText(status: Status): (text: string)
    ensures text == "open" || text == "closed"
    ensures text == "open" <==> status == Opened
  {
    match status
    case Opened => "open"
    case Closed => "closed"
  }

  /** The JSON document `{success, locker_id, status, gpio}`; `status`
      holds the text written into the document. */
  datatype Response = Response(success: bool, lockerId: string, status: string, gpio: int)

  /** One call of `client.publish(topic, payload)`. */
  datatype Publication = Publication(topic: string, payload: Response)

  /** `mqtt_topic_pub + "/" + lockerId`. */
  function TopicFor(lockerId: string): (topic: string)
    ensures |topic| == |RESPONSES_TOPIC| + 1 + |lockerId|
    ensures topic[..|RESPONSES_TOPIC|] == RESPONSES_TOPIC && topic[|RESPONSES_TOPIC|] == '/'
    ensures topic[|RESPONSES_TOPIC| + 1..] == lockerId
  {
    RESPONSES_TOPIC + "/" + lockerId
  }

  /** Reads the locker id back out of a status topic; `None` for a topic
      outside `locker/responses/`. */
  function LockerIdOfTopic(topic: string): (id: Option<string>)
    ensures id.Some? ==> TopicFor(id.value) == topic
  {
    var n := |RESPONSES_TOPIC| + 1;
    if |topic| >= n && topic[..n] == RESPONSES_TOPIC + "/" then
      assert topic == topic[..n] + topic[n..];
      Some(topic[n..])
    else
      None
  }

  /** Every locker id gets its own status topic, and that topic names it:
      a subscriber to `locker/responses/<id>` hears about locker `<id>` only. */
  lemma TopicRoundTrip(lockerId: string)
    ensures LockerIdOfTopic(TopicFor(lockerId)) == Some(lockerId)
  {
  }

  /** The status message for a locker: sent with `success: true` to the
      locker's own topic, carrying its id, its gpio and the new status. */
  function Notice(lockerId: string, gpio: int, status: Status): (p: Publication)
    ensures LockerIdOfTopic(p.topic) == Some(lockerId)
    ensures p.payload.success
    ensures p.payload.lockerId == lockerId && p.payload.gpio == gpio
    ensures p.payload.status == StatusText(status)
  {
    TopicRoundTrip(lockerId);
    Publication(TopicFor(lockerId), Response(true, lockerId, StatusText(status), gpio))
  }
}
