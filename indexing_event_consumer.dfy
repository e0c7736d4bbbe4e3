/**
 * The indexing service's subscriber to `document.ingested`. `run` tries up to twenty times to
 * register a listener on the queue; the listener reads each message as a book number and
 * hands it to the indexer, swallowing whatever goes wrong.
 */
module IndexingEventConsumer {
  import opened Wrappers
  import opened JavaInt
  import opened Broker
  import opened IndexingDatamart
  import opened Indexing
  import EventPublisher

  /** The calls of one attempt: createConnection, start, createSession, createQueue, createConsumer, setMessageListener. */
  const ConsumerSteps := 6

  /** A delivered message: a text message, whose text may be null, or a message of another kind. */
  datatype Message = TextMessage(text: Option<string>) | OtherMessage

  /**
   * The book number `Integer.parseInt(((TextMessage) msg).getText())` yields, or `None` when the
   * cast, the null text or the parse throws.
   */
  function MessageId(msg: Message): (r: Option<int>)
    ensures r.Some? ==> IsInt32(r.value)
  {
    match msg
    case TextMessage(Some(text)) => ParseInt(text)
    case _ => None
  }

  /** Every event the publisher sends is read back as the number of the book it announces. */
  lemma PublishedEventIsRead(bookId: int)
    requires IsInt32(bookId)
    ensures MessageId(TextMessage(Some(EventPublisher.MessageText(bookId)))) == Some(bookId)
  {
    EventPublisher.MessageRoundTrip(bookId);
  }

  class Consumer {
    const indexer: Indexer
    /** A message listener is registered on the queue. */
    var listening: bool

    constructor(indexer: Indexer)
      ensures this.indexer == indexer && !listening
    {
      this.indexer := indexer;
      listening := false;
    }

    /**
     * `run`: attempt after attempt until one registers the listener or twenty have failed.
     * `retries` counts the failed attempts.
     */
    method Run(broker: seq<Attempt>) returns (attempts: nat, retries: nat)
      modifies this
      ensures attempts == AttemptsMade(broker, ConsumerSteps) && attempts <= MaxAttempts
      ensures retries == FirstSuccess(broker, ConsumerSteps, 0)
      ensures attempts == retries + (if Connects(broker, ConsumerSteps) then 1 else 0)
      ensures listening == (old(listening) || Connects(broker, ConsumerSteps))
    {
      retries := 0;
      attempts := 0;
      while retries < MaxAttempts
        invariant retries <= MaxAttempts && attempts == retries
        invariant FirstSuccess(broker, ConsumerSteps, 0) == FirstSuccess(broker, ConsumerSteps, retries)
        invariant listening == old(listening)
      {
        attempts := attempts + 1;
        if Outcome(broker, retries).completed >= ConsumerSteps {
          listening := true;
          return;
        }
        retries := retries + 1;
      }
    }

    /**
     * The listener's body for one message. `indexed` is the number handed to `indexDocument`,
     * `None` when the message is not read as a number: then the indexer is not called and
     * the index is untouched. Nothing escapes, and the listener stays registered.
     */
    method OnMessage(msg: Message, lake: seq<Dir>) returns (indexed: Option<int>)
      modifies indexer.repo
      ensures indexed == MessageId(msg)
      ensures indexed.Some? ==> indexer.repo.State() == AfterIndexBook(old(indexer.repo.State()), lake, indexed.value)
      ensures indexed.None? ==> indexer.repo.State() == old(indexer.repo.State())
    {
      indexed := None;
      if msg.TextMessage? && msg.text.Some? {
        var id := ParseInt(msg.text.value);
        if id.Some? {
          var ok := indexer.IndexDocument(id.value, lake);
          indexed := id;
        }
      }
    }
  }
}
