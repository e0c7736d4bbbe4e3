/**
 * The ingestion service's publisher of `document.ingested` events. On construction it tries
 * up to twenty times to open a connection, a session and a producer on the queue; afterwards
 * each ingested book is announced by sending its number as a text message, or silently
 * dropped when no producer could be created.
 */
module EventPublisher {
  import opened Wrappers
  import opened JavaInt
  import opened Broker

  /** The calls of one attempt: createConnection, start, createSession, createQueue, createProducer. */
  const PublisherSteps := 5

  /** The text of the event for `bookId`: `String.valueOf(bookId)`. */
  function MessageText(bookId: int): string {
    IntToString(bookId)
  }

  /** The event text carries the book number back: parsing it gives the same `int`. */
  lemma MessageRoundTrip(bookId: int)
    requires IsInt32(bookId)
    ensures ParseInt(MessageText(bookId)) == Some(bookId)
  {
    ParseIntRoundTrip(bookId);
  }

  /** Different books give different event texts. */
  lemma MessageInjective(a: int, b: int)
    ensures MessageText(a) == MessageText(b) <==> a == b
  {
    IntToStringInjective(a, b);
  }

  class Publisher {
    const brokerUrl: string
    const queueName: string
    /** The broker objects held, each named by the attempt that created it. */
    var connection: Option<nat>
    var session: Option<nat>
    var producer: Option<nat>
    /** The texts the queue has received from this publisher, oldest first. */
    var sent: seq<string>

    /** The constructor stores the settings and runs `init`. */
    constructor(brokerUrl: string, queueName: string, broker: seq<Attempt>)
      ensures this.brokerUrl == brokerUrl && this.queueName == queueName
      ensures producer.Some? <==> Connects(broker, PublisherSteps)
      ensures sent == []
    {
      this.brokerUrl := brokerUrl;
      this.queueName := queueName;
      connection := None;
      session := None;
      producer := None;
      sent := [];
      new;
      var attempts, retries := Init(broker);
    }

    /**
     * `init`: attempt after attempt until one gets through all five calls or twenty have
     * failed. `retries` counts the failed attempts; a failed attempt may leave behind the
     * connection or session it had already created, but never a producer.
     */
    method Init(broker: seq<Attempt>) returns (attempts: nat, retries: nat)
      requires producer.None?
      modifies this
      ensures attempts == AttemptsMade(broker, PublisherSteps) && attempts <= MaxAttempts
      ensures retries == FirstSuccess(broker, PublisherSteps, 0)
      ensures attempts == retries + (if Connects(broker, PublisherSteps) then 1 else 0)
      ensures producer.Some? <==> Connects(broker, PublisherSteps)
      ensures producer.Some? ==> producer == session == connection == Some(retries)
      ensures sent == old(sent)
    {
      retries := 0;
      attempts := 0;
      while retries < MaxAttempts
        invariant retries <= MaxAttempts && attempts == retries
        invariant FirstSuccess(broker, PublisherSteps, 0) == FirstSuccess(broker, PublisherSteps, retries)
        invariant producer.None? && sent == old(sent)
      {
        attempts := attempts + 1;
        var outcome := Outcome(broker, retries);
        if outcome.completed >= 1 {
          connection := Some(retries);
        }
        if outcome.completed >= 3 {
          session := Some(retries);
        }
        if outcome.completed >= PublisherSteps {
          producer := Some(retries);
          return;
        }
        retries := retries + 1;
      }
    }

    /**
     * `publishBookIngested`: without a producer nothing is sent; otherwise the book number is
     * sent as text. `delivered` is the broker's answer to the send; a refusal is caught and
     * leaves the queue as it was.
     */
    method PublishBookIngested(bookId: int, delivered: bool)
      modifies this
      ensures connection == old(connection) && session == old(session) && producer == old(producer)
      ensures sent == old(sent) + if producer.Some? && delivered then [MessageText(bookId)] else []
    {
      if producer.None? {
        return;
      }
      var text := MessageText(bookId);
      if delivered {
        sent := sent + [text];
      }
    }
  }
}
