/** The N host-side transfer buffers of a texture reader: how they grow, how
    a view onto one of them is cut, and how their indices are shared out
    between the producer queue, the consumer queue and the transfers in
    flight. */
module BufferPool {
  import opened Texels

  // ---------------------------------------------------------------------
  // Buffer contents
  // ---------------------------------------------------------------------

  /** All buffers have the same byte length. */
  predicate Uniform(buffers: seq<seq<byte>>) {
    forall i :: 0 <= i < |buffers| ==> |buffers[i]| == |buffers[0]|
  }

  /** A new zero-filled buffer of `size` bytes with the old bytes copied to
      its start, as `new Uint8Array(size)` followed by `set(buffer)` makes. */
  function Enlarged(buffer: seq<byte>, size: nat): (bigger: seq<byte>)
    requires |buffer| <= size
    ensures |bigger| == size
    ensures bigger[..|buffer|] == buffer
    ensures forall k :: |buffer| <= k < size ==> bigger[k] == 0
  {
    buffer + Zeros(size - |buffer|)
  }

  /** The buffers after a reallocation to `size` bytes: unchanged when the
      first buffer already holds `size` bytes; otherwise every buffer is
      enlarged to exactly `size` bytes. */
  function Grown(buffers: seq<seq<byte>>, size: nat): (grown: seq<seq<byte>>)
    requires |buffers| > 0 && Uniform(buffers)
    ensures |grown| == |buffers| && Uniform(grown)
    ensures |grown[0]| == Max(size, |buffers[0]|)
    ensures |grown[0]| >= |buffers[0]| && |grown[0]| >= size
    ensures forall i :: 0 <= i < |buffers| ==> grown[i][..|buffers[i]|] == buffers[i]
    ensures forall i, k :: 0 <= i < |buffers| && |buffers[i]| <= k < |grown[i]| ==> grown[i][k] == 0
  {
    if size <= |buffers[0]| then buffers
    else seq(|buffers|, i requires 0 <= i < |buffers| => Enlarged(buffers[i], size))
  }

  /** A request that fits changes nothing, and once the buffers have grown
      to `size` bytes, asking again for `size` bytes or fewer changes nothing. */
  lemma GrownFits(buffers: seq<seq<byte>>, size: nat, smaller: nat)
    requires |buffers| > 0 && Uniform(buffers) && smaller <= size
    ensures size <= |buffers[0]| ==> Grown(buffers, size) == buffers
    ensures Grown(Grown(buffers, size), smaller) == Grown(buffers, size)
  {
  }

  /** Growing to a and then to b is the same as growing to the larger of the
      two at once: capacity only ever tracks the largest request so far. */
  lemma {:induction false} GrownTwice(buffers: seq<seq<byte>>, a: nat, b: nat)
    requires |buffers| > 0 && Uniform(buffers)
    ensures Grown(Grown(buffers, a), b) == Grown(buffers, Max(a, b))
  {
    var once := Grown(buffers, a);
    var twice := Grown(once, b);
    var direct := Grown(buffers, Max(a, b));
    assert |twice| == |direct|;
    forall i | 0 <= i < |buffers|
      ensures twice[i] == direct[i]
    {
      assert |twice[i]| == |direct[i]|;
      assert twice[i][..|buffers[i]|] == buffers[i] by {
        assert twice[i][..|once[i]|] == once[i];
        assert once[i][..|buffers[i]|] == buffers[i];
      }
      forall k | 0 <= k < |twice[i]|
        ensures twice[i][k] == direct[i][k]
      {
        if k < |buffers[i]| {
          assert twice[i][k] == twice[i][..|buffers[i]|][k];
          assert direct[i][k] == direct[i][..|buffers[i]|][k];
        } else if k < |once[i]| {
          assert twice[i][k] == twice[i][..|once[i]|][k] == once[i][k];
        }
      }
    }
  }

  /** `buffer.subarray(0, end)`: the first `end` bytes, or the whole buffer
      when it is shorter. */
  function Subarray(buffer: seq<byte>, end: nat): (view: seq<byte>)
    ensures |view| == Min(end, |buffer|)
    ensures view <= buffer
  {
    if end <= |buffer| then buffer[..end] else buffer
  }

  // ---------------------------------------------------------------------
  // Buffer indices
  // ---------------------------------------------------------------------

  /** The indices of N buffers. */
  function Range(n: nat): (indices: set<nat>)
    ensures forall i: nat :: i in indices <==> i < n
  {
    if n == 0 then {} else Range(n - 1) + {n - 1}
  }

  /** The list [0, 1, ..., n - 1]. */
  function Indices(n: nat): (s: seq<nat>)
    ensures |s| == n
    ensures forall i :: 0 <= i < n ==> s[i] == i
  {
    if n == 0 then [] else Indices(n - 1) + [n - 1]
  }

  /** Every buffer index appears exactly once in the producer queue, the
      consumer queue and the set of transfers in flight taken together. */
  ghost predicate Partition(n: nat, producer: seq<nat>, consumer: seq<nat>, inFlight: set<nat>) {
    multiset(producer) + multiset(consumer) + multiset(inFlight) == multiset(Range(n))
  }

  /** No index occurs twice in a queue. */
  predicate Distinct(s: seq<nat>) {
    forall a, b :: 0 <= a < b < |s| ==> s[a] != s[b]
  }

  lemma {:induction false} RangeSize(n: nat)
    ensures |Range(n)| == n
  {
    if n > 0 {
      RangeSize(n - 1);
      assert n - 1 !in Range(n - 1);
    }
  }

  lemma {:induction false} IndicesCoverRange(n: nat)
    ensures multiset(Indices(n)) == multiset(Range(n))
  {
    if n > 0 {
      var last: nat := n - 1;
      IndicesCoverRange(last);
      AppendOne(Indices(last), last);
      AddOne(Range(last), last);
    }
  }

  lemma AppendOne(s: seq<nat>, x: nat)
    ensures multiset(s + [x]) == multiset(s) + multiset{x}
  {
  }

  lemma AddOne(s: set<nat>, x: nat)
    requires x !in s
    ensures multiset(s + {x}) == multiset(s) + multiset{x}
  {
  }

  /** The freshly constructed reader: all indices ready for the consumer,
      none for the producer, nothing in flight. */
  lemma InitialPartition(n: nat)
    ensures Partition(n, [], Indices(n), {})
  {
    IndicesCoverRange(n);
  }

  lemma DistinctWhenSingle(s: seq<nat>)
    requires forall v :: multiset(s)[v] <= 1
    ensures Distinct(s)
  {
    forall a, b | 0 <= a < b < |s|
      ensures s[a] != s[b]
    {
      assert s == s[..b] + s[b..];
      assert multiset(s) == multiset(s[..b]) + multiset(s[b..]);
      assert s[a] in multiset(s[..b]) && s[b] in multiset(s[b..]);
      assert multiset(s)[s[b]] == multiset(s[..b])[s[b]] + multiset(s[b..])[s[b]];
    }
  }

  /** What the partition means: the three places hold N indices in all,
      each below N, no index is in two places and no queue repeats one.
      (So the two queues alone hold N indices only when nothing is in flight.) */
  lemma PartitionFacts(n: nat, producer: seq<nat>, consumer: seq<nat>, inFlight: set<nat>)
    requires Partition(n, producer, consumer, inFlight)
    ensures |producer| + |consumer| + |inFlight| == n
    ensures forall v :: v in producer ==> v < n && v !in consumer && v !in inFlight
    ensures forall v :: v in consumer ==> v < n && v !in inFlight
    ensures forall v :: v in inFlight ==> v < n
    ensures Distinct(producer) && Distinct(consumer)
  {
    var all := multiset(producer) + multiset(consumer) + multiset(inFlight);
    RangeSize(n);
    assert |all| == |multiset(Range(n))| == n;
    forall v: nat
      ensures multiset(producer)[v] + multiset(consumer)[v] + multiset(inFlight)[v] <= 1
      ensures multiset(producer)[v] + multiset(consumer)[v] + multiset(inFlight)[v] == 1 <==> v < n
    {
      assert all[v] == multiset(Range(n))[v];
    }
    forall v | v in producer
      ensures v < n && v !in consumer && v !in inFlight
    {
      assert v in multiset(producer);
    }
    forall v | v in consumer
      ensures v < n && v !in inFlight
    {
      assert v in multiset(consumer);
    }
    forall v | v in inFlight
      ensures v < n
    {
      assert v in multiset(inFlight);
    }
    DistinctWhenSingle(producer);
    DistinctWhenSingle(consumer);
  }

  /** Starting a transfer moves the head of the producer queue in flight. */
  lemma StartKeepsPartition(n: nat, producer: seq<nat>, consumer: seq<nat>, inFlight: set<nat>)
    requires Partition(n, producer, consumer, inFlight) && producer != []
    ensures producer[0] !in inFlight
    ensures Partition(n, producer[1..], consumer, inFlight + {producer[0]})
  {
    PartitionFacts(n, producer, consumer, inFlight);
    assert producer == [producer[0]] + producer[1..];
    assert multiset(inFlight + {producer[0]}) == multiset(inFlight) + multiset{producer[0]};
  }

  /** Completing a transfer appends its index to the consumer queue. */
  lemma CompleteKeepsPartition(n: nat, producer: seq<nat>, consumer: seq<nat>, inFlight: set<nat>, index: nat)
    requires Partition(n, producer, consumer, inFlight) && index in inFlight
    ensures Partition(n, producer, consumer + [index], inFlight - {index})
  {
    assert inFlight == (inFlight - {index}) + {index};
    assert multiset(inFlight) == multiset(inFlight - {index}) + multiset{index};
  }

  /** Consuming moves the head of the consumer queue to the tail of the
      producer queue. */
  lemma ConsumeKeepsPartition(n: nat, producer: seq<nat>, consumer: seq<nat>, inFlight: set<nat>)
    requires Partition(n, producer, consumer, inFlight) && consumer != []
    ensures Partition(n, producer + [consumer[0]], consumer[1..], inFlight)
  {
    assert consumer == [consumer[0]] + consumer[1..];
  }
}
