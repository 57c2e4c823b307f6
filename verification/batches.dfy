/** The batching of the current loader: messages are appended to a buffer, and as soon as
    the buffer holds more than 10000 of them it is sent and cleared. Every batch sent from
    inside the loop therefore holds exactly 10001 messages; what is left at the end is
    fewer than that. */
module Batches {

  /** `messages.size() > 10000` triggers a flush. */
  const FlushThreshold: nat := 10000

  /** The size of every batch flushed inside the loop. */
  const BatchSize: nat := 10001

  /** The batches flushed inside the loop for a stream of messages, cut from the front. */
  function FullBatches<M>(ms: seq<M>): (r: seq<seq<M>>)
    ensures |r| == |ms| / BatchSize
    ensures forall i :: 0 <= i < |r| ==> |r[i]| == BatchSize
    decreases |ms|
  {
    if |ms| < BatchSize then [] else [ms[..BatchSize]] + FullBatches(ms[BatchSize..])
  }

  /** What remains in the buffer after the loop: the messages after the last full batch. */
  function Leftover<M>(ms: seq<M>): (r: seq<M>)
    ensures |r| == |ms| % BatchSize
    decreases |ms|
  {
    if |ms| < BatchSize then ms else Leftover(ms[BatchSize..])
  }

  /** The batches laid end to end. */
  function Flatten<M>(bs: seq<seq<M>>): seq<M>
  {
    if bs == [] then [] else bs[0] + Flatten(bs[1..])
  }

  lemma {:induction false} FlattenAppend<M>(bs: seq<seq<M>>, b: seq<M>)
    ensures Flatten(bs + [b]) == Flatten(bs) + b
  {
    if bs != [] {
      assert (bs + [b])[1..] == bs[1..] + [b];
      FlattenAppend(bs[1..], b);
    }
  }

  /** Nothing is lost, duplicated or reordered: the full batches followed by the leftover
      are the message stream. */
  lemma {:induction false} BatchesCoverStream<M>(ms: seq<M>)
    ensures Flatten(FullBatches(ms)) + Leftover(ms) == ms
    decreases |ms|
  {
    if |ms| >= BatchSize {
      BatchesCoverStream(ms[BatchSize..]);
      assert ms == ms[..BatchSize] + ms[BatchSize..];
    }
  }

  /** With the final flush, the batches sent are the message stream. */
  lemma AllBatchesCoverStream<M>(ms: seq<M>)
    ensures Flatten(FullBatches(ms) + [Leftover(ms)]) == ms
  {
    FlattenAppend(FullBatches(ms), Leftover(ms));
    BatchesCoverStream(ms);
  }

  /** Without the final flush, the batches sent are the stream up to its last full batch. */
  lemma FullBatchesArePrefix<M>(ms: seq<M>)
    ensures Flatten(FullBatches(ms)) == ms[..|ms| - |ms| % BatchSize]
  {
    BatchesCoverStream(ms);
    var flushed := Flatten(FullBatches(ms));
    assert flushed + Leftover(ms) == ms;
    assert |flushed| == |ms| - |ms| % BatchSize;
  }

  /** Counting one more message: the position within the current batch advances, and
      wraps to zero exactly when a batch is completed. */
  lemma CountStep(n: nat)
    ensures (n + 1) % BatchSize == 0 <==> n % BatchSize == FlushThreshold
    ensures (n + 1) / BatchSize == if n % BatchSize == FlushThreshold then n / BatchSize + 1 else n / BatchSize
  {
    var q, r := n / BatchSize, n % BatchSize;
    assert n == q * BatchSize + r;
    if r == FlushThreshold {
      assert n + 1 == (q + 1) * BatchSize + 0;
    } else {
      assert n + 1 == q * BatchSize + (r + 1);
    }
  }

  /** One step of the loop: appending a message either completes a batch (the buffer had
      10000 messages), which is then flushed and leaves the buffer empty, or just grows
      the buffer. */
  lemma {:induction false} PushMessage<M>(ms: seq<M>, m: M)
    ensures |Leftover(ms)| + 1 > FlushThreshold ==>
              FullBatches(ms + [m]) == FullBatches(ms) + [Leftover(ms) + [m]] && Leftover(ms + [m]) == []
    ensures |Leftover(ms)| + 1 <= FlushThreshold ==>
              FullBatches(ms + [m]) == FullBatches(ms) && Leftover(ms + [m]) == Leftover(ms) + [m]
    decreases |ms|
  {
    if |ms| >= BatchSize {
      assert (ms + [m])[..BatchSize] == ms[..BatchSize];
      assert (ms + [m])[BatchSize..] == ms[BatchSize..] + [m];
      PushMessage(ms[BatchSize..], m);
    } else if |ms| + 1 == BatchSize {
      assert (ms + [m])[BatchSize..] == [];
      assert (ms + [m])[..BatchSize] == ms + [m];
    }
  }
}
