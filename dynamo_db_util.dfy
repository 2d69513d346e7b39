/** `DynamoDbUtil.batchWrite`: split the items into chunks of at most 25 (the
    store's limit), submit each chunk, and resubmit what the store reports as
    unprocessed until nothing is left, one chunk after another. */
module DynamoDbUtil {
  import opened EnhancedDynamoDb
  import JavaLang

  /** `DYNAMODB_MAX_BATCH_SIZE`. */
  const MaxBatchSize: nat := 25

  function Flatten<T>(chunks: seq<seq<T>>): seq<T> {
    if chunks == [] then [] else chunks[0] + Flatten(chunks[1..])
  }

  lemma {:induction false} FlattenAppend<T>(chunks: seq<seq<T>>, last: seq<T>)
    ensures Flatten(chunks + [last]) == Flatten(chunks) + last
  {
    if chunks == [] {
      assert [] + [last] == [last];
    } else {
      assert (chunks + [last])[1..] == chunks[1..] + [last];
      FlattenAppend(chunks[1..], last);
    }
  }

  /** `Iterables.partition(items, DYNAMODB_MAX_BATCH_SIZE)`: consecutive slices
      of 25 items in iteration order, the last one possibly shorter; none for no
      items. */
  function Partition<T>(items: seq<T>): (chunks: seq<seq<T>>)
    ensures Flatten(chunks) == items
    ensures forall k :: 0 <= k < |chunks| ==> 0 < |chunks[k]| <= MaxBatchSize
    ensures forall k :: 0 <= k < |chunks| - 1 ==> |chunks[k]| == MaxBatchSize
    ensures |chunks| == (|items| + MaxBatchSize - 1) / MaxBatchSize
    decreases |items|
  {
    if items == [] then []
    else if |items| <= MaxBatchSize then
      assert Flatten([items]) == items + Flatten([]);
      [items]
    else
      var rest := Partition(items[MaxBatchSize..]);
      assert ([items[..MaxBatchSize]] + rest)[1..] == rest;
      assert items[..MaxBatchSize] + items[MaxBatchSize..] == items;
      [items[..MaxBatchSize]] + rest
  }

  /** The calls made for one chunk so far: the chunk itself first, then each time
      exactly the previous reply, every reply a sub-list of what was sent, and
      each call but the latest answered with something left over. */
  ghost predicate RetryChain<T>(rounds: seq<Submission<T>>, table: string, chunk: seq<T>) {
    && |rounds| > 0
    && rounds[0].batch == WriteBatch(table, chunk)
    && (forall i, j :: 0 <= i && j == i + 1 < |rounds| ==> rounds[j].batch == WriteBatch(table, rounds[i].unprocessed))
    && (forall k :: 0 <= k < |rounds| - 1 ==> rounds[k].unprocessed != [])
    && (forall k :: 0 <= k < |rounds| ==> multiset(rounds[k].unprocessed) <= multiset(rounds[k].batch.puts))
  }

  /** A chunk's calls once its retry loop has exited: the latest reply is empty. */
  ghost predicate DrainsChunk<T>(rounds: seq<Submission<T>>, table: string, chunk: seq<T>) {
    RetryChain(rounds, table, chunk) && rounds[|rounds| - 1].unprocessed == []
  }

  /** `submitBatchWrite`: every item goes, in order, as a put into one write
      batch for the one table, and the store's reply is returned. */
  method SubmitBatchWrite<T>(items: seq<T>, client: EnhancedClient<T>, table: string) returns (unprocessed: seq<T>)
    modifies client
    ensures client.submissions == old(client.submissions) + [Submission(WriteBatch(table, items), unprocessed)]
    ensures multiset(unprocessed) <= multiset(items)
    ensures |items| > 0 ==> |unprocessed| < |items|
    ensures client.accepted == old(client.accepted) + (multiset(items) - multiset(unprocessed))
  {
    var puts: seq<T> := [];
    for i := 0 to |items|
      invariant puts == items[..i]
    {
      puts := puts + [items[i]];
    }
    assert puts == items;
    unprocessed := client.BatchWriteItem(WriteBatch(table, puts));
  }

  /** The `forEach` body of `batchWrite` for one chunk: submit it, then resubmit
      the reply until the store reports nothing unprocessed. */
  method WriteChunk<T>(chunk: seq<T>, client: EnhancedClient<T>, table: string)
    returns (ghost chunkRounds: seq<Submission<T>>)
    modifies client
    ensures DrainsChunk(chunkRounds, table, chunk)
    ensures client.submissions == old(client.submissions) + chunkRounds
    ensures client.accepted == old(client.accepted) + multiset(chunk)
  {
    ghost var before := client.submissions;
    var unprocessed := SubmitBatchWrite(chunk, client, table);
    chunkRounds := [Submission(WriteBatch(table, chunk), unprocessed)];
    while unprocessed != []
      invariant client.submissions == before + chunkRounds
      invariant RetryChain(chunkRounds, table, chunk)
      invariant chunkRounds[|chunkRounds| - 1].unprocessed == unprocessed
      invariant client.accepted + multiset(unprocessed) == old(client.accepted) + multiset(chunk)
      decreases |unprocessed|
    {
      ghost var sent := unprocessed;
      unprocessed := SubmitBatchWrite(unprocessed, client, table);
      RetryChainGrows(chunkRounds, Submission(WriteBatch(table, sent), unprocessed), table, chunk);
      chunkRounds := chunkRounds + [Submission(WriteBatch(table, sent), unprocessed)];
    }
  }

  /** A resubmission of the latest nonempty reply extends a retry chain. */
  lemma RetryChainGrows<T>(rounds: seq<Submission<T>>, next: Submission<T>, table: string, chunk: seq<T>)
    requires RetryChain(rounds, table, chunk)
    requires rounds[|rounds| - 1].unprocessed != []
    requires next.batch == WriteBatch(table, rounds[|rounds| - 1].unprocessed)
    requires multiset(next.unprocessed) <= multiset(next.batch.puts)
    ensures RetryChain(rounds + [next], table, chunk)
  {
    var grown := rounds + [next];
    assert forall k :: 0 <= k < |rounds| ==> grown[k] == rounds[k];
  }

  /** `batchWrite`, with `items` the set in its iteration order. The calls it makes
      are, in order, those of chunk 0 until it drains, then those of chunk 1, and
      so on; every item ends up accepted by the store. */
  method BatchWrite<T>(items: seq<T>, client: EnhancedClient<T>, table: string)
    returns (ghost rounds: seq<seq<Submission<T>>>)
    modifies client
    ensures |rounds| == |Partition(items)|
    ensures forall k :: 0 <= k < |rounds| ==> DrainsChunk(rounds[k], table, Partition(items)[k])
    ensures client.submissions == old(client.submissions) + Flatten(rounds)
    ensures client.accepted == old(client.accepted) + multiset(items)
  {
    var chunks := Partition(items);
    rounds := [];
    ghost var calls: seq<Submission<T>> := [];
    ghost var done: seq<T> := [];
    var k := 0;
    while k < |chunks|
      invariant 0 <= k <= |chunks| && |rounds| == k
      invariant Progress(rounds, calls, done, table, chunks)
      invariant client.submissions == old(client.submissions) + calls
      invariant client.accepted == old(client.accepted) + multiset(done)
    {
      rounds, calls, done := WriteNextChunk(chunks, k, client, table, rounds, calls, done,
                                               old(client.submissions), old(client.accepted));
      k := k + 1;
    }
    assert chunks[..k] == chunks;
  }

  /** The loop state of `batchWrite` after the first |rounds| chunks: one drained
      retry chain per chunk, `calls` all of their calls in order and `done` the
      items of those chunks. */
  ghost predicate Progress<T>(rounds: seq<seq<Submission<T>>>, calls: seq<Submission<T>>, done: seq<T>,
                              table: string, chunks: seq<seq<T>>) {
    && AllDrained(rounds, table, chunks)
    && calls == Flatten(rounds)
    && done == Flatten(chunks[..|rounds|])
  }

  /** One turn of the `forEach` in `batchWrite`: write the next chunk. */
  method WriteNextChunk<T>(chunks: seq<seq<T>>, k: nat, client: EnhancedClient<T>, table: string,
                           ghost rounds: seq<seq<Submission<T>>>, ghost calls: seq<Submission<T>>, ghost done: seq<T>,
                           ghost submitted0: seq<Submission<T>>, ghost accepted0: multiset<T>)
    returns (ghost rounds': seq<seq<Submission<T>>>, ghost calls': seq<Submission<T>>, ghost done': seq<T>)
    requires k == |rounds| < |chunks|
    requires Progress(rounds, calls, done, table, chunks)
    requires client.submissions == submitted0 + calls
    requires client.accepted == accepted0 + multiset(done)
    modifies client
    ensures |rounds'| == |rounds| + 1
    ensures Progress(rounds', calls', done', table, chunks)
    ensures client.submissions == submitted0 + calls'
    ensures client.accepted == accepted0 + multiset(done')
  {
    ghost var chunkRounds := WriteChunk(chunks[k], client, table);
    assert client.submissions == submitted0 + (calls + chunkRounds) by {
      assert (submitted0 + calls) + chunkRounds == submitted0 + (calls + chunkRounds);
    }
    assert client.accepted == accepted0 + multiset(done + chunks[k]) by {
      assert multiset(done + chunks[k]) == multiset(done) + multiset(chunks[k]);
    }
    DrainedChunksGrow(rounds, chunkRounds, table, chunks);
    FlattenAppend(rounds, chunkRounds);
    FlattenAppend(chunks[..k], chunks[k]);
    PrefixGrows(chunks, k);
    rounds', calls', done' := rounds + [chunkRounds], calls + chunkRounds, done + chunks[k];
  }

  /** The calls made so far for the first chunks: one drained retry chain each. */
  ghost predicate AllDrained<T>(rounds: seq<seq<Submission<T>>>, table: string, chunks: seq<seq<T>>) {
    |rounds| <= |chunks| && forall j :: 0 <= j < |rounds| ==> DrainsChunk(rounds[j], table, chunks[j])
  }

  /** Appending the calls of the next chunk keeps every chunk so far drained. */
  lemma DrainedChunksGrow<T>(rounds: seq<seq<Submission<T>>>, next: seq<Submission<T>>, table: string, chunks: seq<seq<T>>)
    requires |rounds| < |chunks|
    requires AllDrained(rounds, table, chunks)
    requires DrainsChunk(next, table, chunks[|rounds|])
    ensures AllDrained(rounds + [next], table, chunks)
  {
    forall j | 0 <= j <= |rounds| ensures DrainsChunk((rounds + [next])[j], table, chunks[j]) {
      if j < |rounds| {
        assert (rounds + [next])[j] == rounds[j];
      } else {
        assert (rounds + [next])[j] == next;
      }
    }
  }

  lemma PrefixGrows<T>(s: seq<T>, k: nat)
    requires k < |s|
    ensures s[..k + 1] == s[..k] + [s[k]]
  {
  }

  /** Retries never grow: every call made for a chunk sends at most as many
      items as the chunk, and each retry no more than the call before. */
  lemma {:induction false} RetriesNeverGrow<T>(rounds: seq<Submission<T>>, table: string, chunk: seq<T>, k: nat)
    requires RetryChain(rounds, table, chunk)
    requires k < |rounds|
    ensures |rounds[k].batch.puts| <= |chunk|
    ensures 0 < k ==> |rounds[k].batch.puts| <= |rounds[k - 1].batch.puts|
  {
    if k > 0 {
      RetriesNeverGrow(rounds, table, chunk, k - 1);
      assert |multiset(rounds[k - 1].unprocessed)| <= |multiset(rounds[k - 1].batch.puts)| by {
        MultisetSubsetSize(multiset(rounds[k - 1].unprocessed), multiset(rounds[k - 1].batch.puts));
      }
    }
  }

  lemma MultisetSubsetSize<T>(a: multiset<T>, b: multiset<T>)
    requires a <= b
    ensures |a| <= |b|
  {
    assert b == a + (b - a);
  }

  /** Every call `BatchWrite` makes carries at most 25 items. */
  lemma {:induction false} EverySubmissionWithinLimit<T>(rounds: seq<seq<Submission<T>>>, chunks: seq<seq<T>>, table: string)
    requires |rounds| == |chunks|
    requires forall k :: 0 <= k < |chunks| ==> |chunks[k]| <= MaxBatchSize
    requires forall k :: 0 <= k < |rounds| ==> DrainsChunk(rounds[k], table, chunks[k])
    ensures forall s :: s in Flatten(rounds) ==> |s.batch.puts| <= MaxBatchSize
  {
    if rounds != [] {
      forall s | s in rounds[0] ensures |s.batch.puts| <= MaxBatchSize {
        var j :| 0 <= j < |rounds[0]| && rounds[0][j] == s;
        RetriesNeverGrow(rounds[0], table, chunks[0], j);
      }
      EverySubmissionWithinLimit(rounds[1..], chunks[1..], table);
    }
  }

  /** Writing N items starts ceil(N / 25) chunks, none for no items, and every
      call any of them makes holds at most 25 items. */
  lemma BatchWriteShape<T>(items: seq<T>, rounds: seq<seq<Submission<T>>>, table: string)
    requires |rounds| == |Partition(items)|
    requires forall k :: 0 <= k < |rounds| ==> DrainsChunk(rounds[k], table, Partition(items)[k])
    ensures |rounds| == (|items| + 24) / 25
    ensures items == [] <==> Flatten(rounds) == []
    ensures forall s :: s in Flatten(rounds) ==> |s.batch.puts| <= MaxBatchSize
  {
    var chunks := Partition(items);
    EverySubmissionWithinLimit(rounds, chunks, table);
    if rounds != [] {
      assert rounds[0] != [];
      assert Flatten(rounds) == rounds[0] + Flatten(rounds[1..]);
    }
  }

  /** Chunk k is the slice of the items from 25 * k, 25 long or up to the end. */
  lemma {:induction false} PartitionSlice<T>(items: seq<T>, k: nat)
    requires k < |Partition(items)|
    ensures 25 * k < |items|
    ensures Partition(items)[k] == items[25 * k..if 25 * k + 25 <= |items| then 25 * k + 25 else |items|]
    decreases |items|
  {
    if k > 0 {
      var rest := items[MaxBatchSize..];
      PartitionSlice(rest, k - 1);
      var lo := 25 * (k - 1);
      var hi := if lo + 25 <= |rest| then lo + 25 else |rest|;
      JavaLang.SliceOfSuffix(items, MaxBatchSize, lo, hi);
    }
  }
}
