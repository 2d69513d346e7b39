/** The slice of the DynamoDB enhanced client the batch writers use: one
    `batchWriteItem` call with a single write batch for one table, answered with
    the items the store did not process. The store itself is an oracle. */
module EnhancedDynamoDb {

  /** A `WriteBatch` for one table holding put requests, in the order added. */
  datatype WriteBatch<T> = WriteBatch(table: string, puts: seq<T>)

  /** One call to the store: what was sent and what came back unprocessed. */
  datatype Submission<T> = Submission(batch: WriteBatch<T>, unprocessed: seq<T>)

  /** The client, with the history of its calls and the items the store has
      accepted so far. */
  class EnhancedClient<T(==)> {
    var submissions: seq<Submission<T>>
    var accepted: multiset<T>

    constructor ()
      ensures submissions == [] && accepted == multiset{}
    {
      submissions := [];
      accepted := multiset{};
    }

    /** `batchWriteItem(request).unprocessedPutItemsForTable(table)`. The store
        may leave any part of the batch unprocessed (capacity throttling), so
        the reply is a sub-list of the puts; it is assumed to accept at least one
        item of a nonempty batch on each call. */
    method BatchWriteItem(batch: WriteBatch<T>) returns (unprocessed: seq<T>)
      modifies this
      ensures multiset(unprocessed) <= multiset(batch.puts)
      ensures |batch.puts| > 0 ==> |unprocessed| < |batch.puts|
      ensures submissions == old(submissions) + [Submission(batch, unprocessed)]
      ensures accepted == old(accepted) + (multiset(batch.puts) - multiset(unprocessed))
    {
      var none: seq<T> := [];
      assert multiset(none) <= multiset(batch.puts);
      unprocessed :| multiset(unprocessed) <= multiset(batch.puts) && (|batch.puts| > 0 ==> |unprocessed| < |batch.puts|);
      submissions := submissions + [Submission(batch, unprocessed)];
      accepted := accepted + (multiset(batch.puts) - multiset(unprocessed));
    }
  }
}
