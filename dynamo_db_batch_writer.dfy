/** `DynamoDbBatchWriter`: the same partition-and-retry write as
    `DynamoDbUtil.batchWrite`, offered as an instance method. */
module DynamoDbBatchWriter {
  import opened EnhancedDynamoDb
  import DynamoDbUtil

  class DynamoDbBatchWriter {
    constructor () {}

    /** `batchWrite`: chunks of at most 25 in iteration order, each drained before
        the next starts, every item accepted in the end. */
    method BatchWrite<T>(items: seq<T>, client: EnhancedClient<T>, table: string)
      returns (ghost rounds: seq<seq<Submission<T>>>)
      modifies client
      ensures |rounds| == |DynamoDbUtil.Partition(items)|
      ensures forall k :: 0 <= k < |rounds| ==> DynamoDbUtil.DrainsChunk(rounds[k], table, DynamoDbUtil.Partition(items)[k])
      ensures client.submissions == old(client.submissions) + DynamoDbUtil.Flatten(rounds)
      ensures client.accepted == old(client.accepted) + multiset(items)
    {
      rounds := DynamoDbUtil.BatchWrite(items, client, table);
    }
  }
}
