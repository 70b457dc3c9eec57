/** The chunk aggregator's arithmetic: a list of batches, its concatenation,
    and the split of a record list into fixed-size batches. */
module Batching {

  /** The batches concatenated in order (pd.concat over the chunk frames). */
  function Flatten<T>(bs: seq<seq<T>>): seq<T>
  {
    if bs == [] then [] else Flatten(bs[..|bs| - 1]) + bs[|bs| - 1]
  }

  lemma {:induction false} FlattenCons<T>(b: seq<T>, bs: seq<seq<T>>)
    ensures Flatten([b] + bs) == b + Flatten(bs)
    decreases |bs|
  {
    if bs != [] {
      var l := |bs| - 1;
      assert ([b] + bs)[..l + 1] == [b] + bs[..l];
      FlattenCons(b, bs[..l]);
    }
  }

  /** Every batch holds exactly k items. */
  ghost predicate AllOfSize<T>(bs: seq<seq<T>>, k: int)
  {
    forall i :: 0 <= i < |bs| ==> |bs[i]| == k
  }

  /** Batches that all hold exactly k items hold k times as many in total. */
  lemma {:induction false} FlattenFullLength<T>(bs: seq<seq<T>>, k: nat)
    requires AllOfSize(bs, k)
    ensures |Flatten(bs)| == k * |bs|
  {
    if bs != [] {
      var init := bs[..|bs| - 1];
      assert AllOfSize(init, k) by {
        forall i | 0 <= i < |init| ensures |init[i]| == k { assert init[i] == bs[i]; }
      }
      FlattenFullLength(init, k);
      assert |Flatten(bs)| == |Flatten(init)| + |bs[|bs| - 1]|;
      assert k * |bs| == k * |init| + k;
    }
  }

  /** The records cut into consecutive batches of k, the last one shorter when
      k does not divide their number; concatenating them gives the records
      back, so the cut is invisible in the combined table. */
  function Batches<T>(xs: seq<T>, k: nat): (bs: seq<seq<T>>)
    requires k >= 1
    ensures bs == [] <==> xs == []
    decreases |xs|
  {
    if xs == [] then []
    else if |xs| <= k then [xs]
    else [xs[..k]] + Batches(xs[k..], k)
  }

  /** Concatenating the batches gives the items back. */
  lemma {:induction false} BatchesFlatten<T>(xs: seq<T>, k: nat)
    requires k >= 1
    ensures Flatten(Batches(xs, k)) == xs
    decreases |xs|
  {
    if xs == [] {
    } else if |xs| <= k {
      assert Flatten([xs]) == Flatten([xs][..0]) + xs;
    } else {
      var rest := Batches(xs[k..], k);
      BatchesFlatten(xs[k..], k);
      FlattenCons(xs[..k], rest);
      assert xs == xs[..k] + xs[k..];
    }
  }

  /** Every batch holds between 1 and k items, and all but the last exactly
      k. */
  lemma {:induction false} BatchSizes<T>(xs: seq<T>, k: nat)
    requires k >= 1
    ensures forall i :: 0 <= i < |Batches(xs, k)| ==> 1 <= |Batches(xs, k)[i]| <= k
    ensures forall i :: 0 <= i < |Batches(xs, k)| - 1 ==> |Batches(xs, k)[i]| == k
    decreases |xs|
  {
    if |xs| > k {
      var bs := Batches(xs, k);
      var rest := Batches(xs[k..], k);
      BatchSizes(xs[k..], k);
      assert bs == [xs[..k]] + rest;
      forall i | 1 <= i < |bs| ensures bs[i] == rest[i - 1] {
      }
    }
  }

  /** Full batches followed by a shorter, non-empty remainder are exactly the
      batches of their concatenation: the partition is unique. */
  lemma {:induction false} BatchesOfFull<T>(bs: seq<seq<T>>, tail: seq<T>, k: nat)
    requires k >= 1
    requires AllOfSize(bs, k)
    requires |tail| < k
    ensures Batches(Flatten(bs) + tail, k) == bs + (if tail == [] then [] else [tail])
  {
    if bs == [] {
      assert Flatten(bs) + tail == tail;
    } else {
      var rest := bs[1..];
      var last: seq<seq<T>> := if tail == [] then [] else [tail];
      assert AllOfSize(rest, k) by {
        forall i | 0 <= i < |rest| ensures |rest[i]| == k { assert rest[i] == bs[i + 1]; }
      }
      BatchesOfFull(rest, tail, k);
      assert bs == [bs[0]] + rest;
      assert Flatten(bs) + tail == bs[0] + (Flatten(rest) + tail) by {
        FlattenCons(bs[0], rest);
      }
      calc {
        Batches(Flatten(bs) + tail, k);
        Batches(bs[0] + (Flatten(rest) + tail), k);
        { BatchesStep(bs[0], Flatten(rest) + tail, k); }
        [bs[0]] + Batches(Flatten(rest) + tail, k);
        [bs[0]] + (rest + last);
        bs + last;
      }
    }
  }

  /** One full batch in front of the rest becomes the first batch. */
  lemma BatchesStep<T>(b: seq<T>, ys: seq<T>, k: nat)
    requires k >= 1 && |b| == k
    ensures Batches(b + ys, k) == [b] + Batches(ys, k)
  {
    var xs := b + ys;
    if ys == [] {
      assert xs == b;
    } else {
      assert xs[..k] == b;
      assert xs[k..] == ys;
    }
  }

  /** The number of full batches is the item count divided by k, rounded
      down. */
  lemma BatchCount<T>(bs: seq<seq<T>>, tail: seq<T>, k: nat)
    requires k >= 1
    requires AllOfSize(bs, k)
    requires |tail| < k
    ensures k * |bs| <= |Flatten(bs) + tail| < k * |bs| + k
  {
  }

  /** Appending the remaining items as a last batch when there are any. */
  function WithLeftover<T>(bs: seq<seq<T>>, tail: seq<T>): (all: seq<seq<T>>)
    ensures Flatten(all) == Flatten(bs) + tail
  {
    if tail == [] then
      assert Flatten(bs) + tail == Flatten(bs);
      bs
    else
      assert (bs + [tail])[..|bs|] == bs;
      bs + [tail]
  }

  /** With a chunk size below 1, every backtick of the row loop flushes the
      chunk, which then holds at most the one record of that row. */
  ghost predicate AtMostOne<T>(bs: seq<seq<T>>)
  {
    forall i :: 0 <= i < |bs| ==> |bs[i]| <= 1
  }

  /** The shape the chunk buffer keeps between rows: full batches and a
      shorter chunk being filled, or (chunk size below 1) batches of at most
      one item and an empty chunk. */
  ghost predicate ChunkShape<T>(bs: seq<seq<T>>, chunk: seq<T>, k: int)
  {
    (k >= 1 ==> |chunk| < k && AllOfSize(bs, k)) &&
    (k < 1 ==> chunk == [] && AtMostOne(bs))
  }

  /** Once the leftover chunk is appended, the batches are the items cut into
      batches of k, and the in-loop count is the number of full batches. */
  lemma Leftover<T>(bs: seq<seq<T>>, chunk: seq<T>, k: int, xs: seq<T>)
    requires Flatten(bs) + chunk == xs
    requires ChunkShape(bs, chunk, k)
    ensures Flatten(WithLeftover(bs, chunk)) == xs
    ensures k >= 1 ==> WithLeftover(bs, chunk) == Batches(xs, k)
    ensures k >= 1 ==> |bs| * k <= |xs| < |bs| * k + k
    ensures k < 1 ==> WithLeftover(bs, chunk) == bs && AtMostOne(bs)
  {
    if k >= 1 {
      BatchesOfFull(bs, chunk, k);
      BatchCount(bs, chunk, k);
    }
  }

  /** Flushing a chunk that has reached the chunk size keeps the shape. */
  lemma Flush<T>(bs: seq<seq<T>>, chunk: seq<T>, k: int)
    requires k >= 1 ==> |chunk| <= k && AllOfSize(bs, k)
    requires k < 1 ==> |chunk| <= 1 && AtMostOne(bs)
    requires |chunk| >= k
    ensures ChunkShape(bs + [chunk], [], k)
    ensures Flatten(bs + [chunk]) == Flatten(bs) + chunk
  {
  }
}
