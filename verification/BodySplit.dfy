/** Splitting one generated overlay body into translation units of bounded length. */
module BodySplit {
  import opened Basics

  datatype Split = Shards(buckets: seq<seq<string>>) | NoFunctions | NeedsMoreShards(needed: nat)

  /** `text.count("\n")` */
  function Lines(text: string): nat {
    if text == "" then 0
    else (if text[0] == '\n' then 1 else 0) + Lines(text[1..])
  }

  function TotalLines(functions: seq<string>): nat {
    if functions == [] then 0 else TotalLines(functions[..|functions| - 1]) + Lines(functions[|functions| - 1])
  }

  /** A shard may be over budget only when it is a single function. */
  predicate Fits(bucket: seq<string>, budget: int) {
    |bucket| == 1 || (|bucket| > 1 && TotalLines(bucket) <= budget)
  }

  /** Any way of cutting the functions, in order, into shards that fit. */
  ghost predicate IsSplit(buckets: seq<seq<string>>, functions: seq<string>, budget: int) {
    && Flatten(buckets) == functions
    && forall i :: 0 <= i < |buckets| ==> Fits(buckets[i], budget)
  }

  lemma {:induction false} TotalOfSlice(functions: seq<string>, i: nat, j: nat, k: nat)
    requires i <= j <= k <= |functions|
    ensures TotalLines(functions[j..k]) <= TotalLines(functions[i..k])
    decreases k
  {
    if j < k {
      assert functions[j..k][..k - j - 1] == functions[j..k - 1];
      assert functions[i..k][..k - i - 1] == functions[i..k - 1];
      TotalOfSlice(functions, i, j, k - 1);
    }
  }

  lemma {:induction false} TotalGrows(functions: seq<string>, i: nat, j: nat, k: nat)
    requires i <= j <= k <= |functions|
    ensures TotalLines(functions[i..j]) <= TotalLines(functions[i..k])
    decreases k
  {
    if j < k {
      assert functions[i..k][..k - i - 1] == functions[i..k - 1];
      TotalGrows(functions, i, j, k - 1);
    }
  }

  /** Where the greedy bucket that holds functions[start..at] ends. */
  function End(functions: seq<string>, start: nat, at: nat, budget: int): (end: nat)
    requires start < at <= |functions|
    ensures at <= end <= |functions|
    decreases |functions| - at
  {
    if at < |functions| && TotalLines(functions[start..at + 1]) <= budget then End(functions, start, at + 1, budget)
    else at
  }

  function Greedy(functions: seq<string>, start: nat, budget: int): (buckets: seq<seq<string>>)
    requires start <= |functions|
    decreases |functions| - start
  {
    if start == |functions| then []
    else
      var end := End(functions, start, start + 1, budget);
      [functions[start..end]] + Greedy(functions, end, budget)
  }

  lemma {:induction false} EndFits(functions: seq<string>, start: nat, at: nat, budget: int)
    requires start < at <= |functions| && Fits(functions[start..at], budget)
    ensures Fits(functions[start..End(functions, start, at, budget)], budget)
    decreases |functions| - at
  {
    if at < |functions| && TotalLines(functions[start..at + 1]) <= budget {
      EndFits(functions, start, at + 1, budget);
    }
  }

  /** No longer bucket from `start` fits. */
  lemma {:induction false} EndIsLongest(functions: seq<string>, start: nat, at: nat, other: nat, budget: int)
    requires start < at <= other <= |functions| && (at == other || TotalLines(functions[start..other]) <= budget)
    ensures other <= End(functions, start, at, budget)
    decreases other - at
  {
    if at < other {
      TotalGrows(functions, start, at + 1, other);
      EndIsLongest(functions, start, at + 1, other, budget);
    }
  }

  lemma {:induction false} GreedyIsSplit(functions: seq<string>, start: nat, budget: int)
    requires start <= |functions|
    ensures IsSplit(Greedy(functions, start, budget), functions[start..], budget)
    decreases |functions| - start
  {
    if start < |functions| {
      var end := End(functions, start, start + 1, budget);
      EndFits(functions, start, start + 1, budget);
      GreedyIsSplit(functions, end, budget);
      assert functions[start..] == functions[start..end] + functions[end..];
      var rest := Greedy(functions, end, budget);
      assert Greedy(functions, start, budget) == [functions[start..end]] + rest;
      assert Greedy(functions, start, budget)[1..] == rest;
    }
  }

  /** Greedy stays ahead: from any later point it needs no more shards than any split needs. */
  lemma {:induction false} GreedyStaysAhead(
    functions: seq<string>, start: nat, from: nat, other: seq<seq<string>>, budget: int)
    requires from <= start <= |functions|
    requires IsSplit(other, functions[from..], budget)
    ensures |Greedy(functions, start, budget)| <= |other|
    decreases |other|
  {
    if start < |functions| {
      assert other != [];
      var next := from + |other[0]|;
      assert functions[from..] == other[0] + Flatten(other[1..]);
      assert functions[from..next] == functions[from..][..|other[0]|] == other[0];
      assert functions[next..] == functions[from..][|other[0]|..] == Flatten(other[1..]);
      var end := End(functions, start, start + 1, budget);
      if start + 1 < next {
        TotalOfSlice(functions, from, start, next);
        EndIsLongest(functions, start, start + 1, next, budget);
      }
      GreedyStaysAhead(functions, end, next, other[1..], budget);
    }
  }

  /** The greedy split is a split, and no split has fewer shards. */
  lemma GreedyIsOptimal(functions: seq<string>, budget: int)
    ensures IsSplit(Greedy(functions, 0, budget), functions, budget)
    ensures forall s :: IsSplit(s, functions, budget) ==> |Greedy(functions, 0, budget)| <= |s|
  {
    GreedyIsSplit(functions, 0, budget);
    assert functions[0..] == functions;
    forall s | IsSplit(s, functions, budget)
      ensures |Greedy(functions, 0, budget)| <= |s|
    {
      GreedyStaysAhead(functions, 0, 0, s, budget);
    }
  }

  /** What is known while the bucket, `lines` lines long, holds functions[start..i]. */
  ghost predicate Packing(
    functions: seq<string>, budget: int, buckets: seq<seq<string>>, bucket: seq<string>, lines: int, start: nat, i: nat)
  {
    && start <= i <= |functions| && (start == i ==> i == 0)
    && bucket == functions[start..i] && lines == TotalLines(bucket)
    && (start < i ==> End(functions, start, i, budget) == End(functions, start, start + 1, budget))
    && buckets + Greedy(functions, start, budget) == Greedy(functions, 0, budget)
  }

  lemma GrowBucket(
    functions: seq<string>, budget: int, buckets: seq<seq<string>>, bucket: seq<string>, lines: int, start: nat, i: nat)
    requires i < |functions| && Packing(functions, budget, buckets, bucket, lines, start, i)
    requires bucket == [] || lines + Lines(functions[i]) <= budget
    ensures Packing(functions, budget, buckets, bucket + [functions[i]], lines + Lines(functions[i]), start, i + 1)
  {
    assert functions[start..i + 1] == bucket + [functions[i]];
  }

  lemma CloseBucket(
    functions: seq<string>, budget: int, buckets: seq<seq<string>>, bucket: seq<string>, lines: int, start: nat, i: nat)
    requires bucket != [] && Packing(functions, budget, buckets, bucket, lines, start, i)
    requires i == |functions| || lines + Lines(functions[i]) > budget
    ensures buckets + [bucket] + Greedy(functions, i, budget) == Greedy(functions, 0, budget)
  {
    if i < |functions| {
      assert functions[start..i + 1] == bucket + [functions[i]];
    }
    assert Greedy(functions, start, budget) == [bucket] + Greedy(functions, i, budget);
    assert buckets + [bucket] + Greedy(functions, i, budget) == buckets + ([bucket] + Greedy(functions, i, budget));
  }

  lemma OpenBucket(functions: seq<string>, budget: int, buckets: seq<seq<string>>, i: nat)
    requires i < |functions| && buckets + Greedy(functions, i, budget) == Greedy(functions, 0, budget)
    ensures Packing(functions, budget, buckets, [functions[i]], Lines(functions[i]), i, i + 1)
  {
    assert [] + [functions[i]] == [functions[i]] == functions[i..i + 1];
  }

  /** The packing loop. */
  method Pack(functions: seq<string>, lineBudget: int) returns (buckets: seq<seq<string>>)
    ensures buckets == Greedy(functions, 0, lineBudget)
  {
    buckets := [];
    var bucket: seq<string> := [];
    var bucketLines := 0;
    ghost var start := 0;
    for i := 0 to |functions|
      invariant Packing(functions, lineBudget, buckets, bucket, bucketLines, start, i)
    {
      var functionLines := Lines(functions[i]);
      if bucket != [] && bucketLines + functionLines > lineBudget {
        CloseBucket(functions, lineBudget, buckets, bucket, bucketLines, start, i);
        buckets := buckets + [bucket];
        OpenBucket(functions, lineBudget, buckets, i);
        bucket, bucketLines, start := [], 0, i;
        assert bucket + [functions[i]] == [functions[i]];
      } else {
        GrowBucket(functions, lineBudget, buckets, bucket, bucketLines, start, i);
      }
      bucket := bucket + [functions[i]];
      bucketLines := bucketLines + functionLines;
    }
    if bucket != [] {
      CloseBucket(functions, lineBudget, buckets, bucket, bucketLines, start, |functions|);
      buckets := buckets + [bucket];
    }
  }

  /** The packer is lossless and optimal, and it gives up only when every in-order split needs more
      shards than there are slots. */
  method SplitOverlayBody(functions: seq<string>, shardCount: int, lineBudget: int) returns (r: Split)
    ensures r.NoFunctions? <==> functions == []
    ensures r.Shards? ==> |r.buckets| <= shardCount && IsSplit(r.buckets, functions, lineBudget)
    ensures r.Shards? ==> forall s :: IsSplit(s, functions, lineBudget) ==> |r.buckets| <= |s|
    ensures functions != [] ==>
              (r.NeedsMoreShards? <==> forall s :: IsSplit(s, functions, lineBudget) ==> |s| > shardCount)
    ensures r.NeedsMoreShards? ==> exists s :: IsSplit(s, functions, lineBudget) && |s| == r.needed
  {
    if functions == [] {
      return NoFunctions;
    }
    var buckets := Pack(functions, lineBudget);
    GreedyIsOptimal(functions, lineBudget);
    if |buckets| > shardCount {
      return NeedsMoreShards(|buckets|);
    }
    return Shards(buckets);
  }
}
