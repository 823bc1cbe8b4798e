/** Batch export: every task is composed by a worker that turns an exception
    into a failed result, and the results are collected as the workers
    complete. The thread pool is replaced by its observable effect: the order
    in which the tasks complete, a permutation of the task indices. */
module BatchWorker {
  import opened Base
  import Exporter

  /** One task: the arguments of a compose call; absent keys take defaults. */
  datatype Task = Task(
    srcPath: string,
    dstPath: string,
    watermark: Size,
    anchor: Option<Anchor>,
    outputFormat: Option<string>,
    jpegQuality: Option<int>,
    resizeTo: Option<Size>)

  /** What the compose call did for one task: returned, or raised an
      exception whose text is `message`. */
  datatype Attempt = Completed | Raised(message: string)

  /** A result entry: success flag and message. */
  type Outcome = (bool, string)

  /** One invocation of the progress callback. */
  datatype ProgressCall = ProgressCall(index: int, total: int, success: bool, message: string)

  /** The compose request a task stands for: centre anchor, PNG, quality 90 and
      no resize unless the task says otherwise. */
  function RequestOf(t: Task): (r: Exporter.Request)
    ensures r.srcPath == t.srcPath && r.dstPath == t.dstPath && r.watermark == t.watermark
    ensures t.anchor.None? ==> r.anchor == Anchor(0.5, 0.5)
    ensures t.anchor.Some? ==> r.anchor == t.anchor.value
    ensures t.outputFormat.None? ==> r.outputFormat == "png"
    ensures t.outputFormat.Some? ==> r.outputFormat == t.outputFormat.value
    ensures t.jpegQuality.None? ==> r.jpegQuality == 90
    ensures t.jpegQuality.Some? ==> r.jpegQuality == t.jpegQuality.value
    ensures t.resizeTo.None? ==> r.resizeTo.None?
    ensures t.resizeTo.Some? ==> r.resizeTo == t.resizeTo
  {
    Exporter.Request(t.srcPath, t.dstPath, t.watermark, t.anchor.GetOr(Anchor(0.5, 0.5)),
                     t.outputFormat.GetOr("png"), t.jpegQuality.GetOr(90), t.resizeTo)
  }

  /** The worker: success with an empty message, or failure carrying the exception's text. */
  function Worker(a: Attempt): (r: Outcome)
    ensures r.0 <==> a.Completed?
    ensures r.0 ==> r.1 == ""
    ensures !r.0 ==> r.1 == a.message
  {
    match a
    case Completed => (true, "")
    case Raised(m) => (false, m)
  }

  /** Each task's own outcome, in submission order. */
  function Outcomes(attempts: seq<Attempt>): (r: seq<Outcome>)
    ensures |r| == |attempts|
  {
    seq(|attempts|, i requires 0 <= i < |attempts| => Worker(attempts[i]))
  }

  predicate IndicesBelow(order: seq<nat>, n: nat) {
    forall k :: 0 <= k < |order| ==> order[k] < n
  }

  /** The outcomes in the order the tasks listed in `order` completed. */
  function Collected(attempts: seq<Attempt>, order: seq<nat>): (r: seq<Outcome>)
    requires IndicesBelow(order, |attempts|)
    ensures |r| == |order|
  {
    seq(|order|, k requires 0 <= k < |order| => Worker(attempts[order[k]]))
  }

  function Indices(n: nat): (r: seq<nat>)
    ensures |r| == n && forall i :: 0 <= i < n ==> r[i] == i
  {
    seq(n, i requires 0 <= i < n => i)
  }

  /** A completion order: every task completes exactly once. */
  ghost predicate IsCompletionOrder(order: seq<nat>, n: nat) {
    multiset(order) == multiset(Indices(n))
  }

  /** The number of tasks whose compose call returned. */
  function Successes(attempts: seq<Attempt>): (s: nat)
    ensures s <= |attempts|
  {
    if attempts == [] then 0
    else Successes(attempts[..|attempts| - 1]) + (if attempts[|attempts| - 1].Completed? then 1 else 0)
  }

  lemma CompletionOrderBounded(order: seq<nat>, n: nat)
    requires IsCompletionOrder(order, n)
    ensures |order| == n && IndicesBelow(order, n)
  {
    assert |order| == |multiset(order)| == |multiset(Indices(n))| == n;
    forall k | 0 <= k < |order| ensures order[k] < n {
      assert order[k] in multiset(Indices(n));
    }
  }

  /** Removing the element at `p` removes one occurrence of it. */
  lemma RemoveAt(t: seq<nat>, p: nat)
    requires p < |t|
    ensures t[..p] + [t[p]] + t[p + 1..] == t
    ensures multiset(t[..p] + t[p + 1..]) == multiset(t) - multiset{t[p]}
  {
    assert t == t[..p] + [t[p]] + t[p + 1..];
  }

  lemma PositionOf(t: seq<nat>, x: nat) returns (p: nat)
    requires x in multiset(t)
    ensures p < |t| && t[p] == x
  {
    p :| p < |t| && t[p] == x;
  }

  lemma CollectedConcat(attempts: seq<Attempt>, u: seq<nat>, v: seq<nat>)
    requires IndicesBelow(u, |attempts|) && IndicesBelow(v, |attempts|)
    ensures IndicesBelow(u + v, |attempts|)
    ensures Collected(attempts, u + v) == Collected(attempts, u) + Collected(attempts, v)
  {
  }

  /** Collecting with one more index adds that task's outcome once. */
  lemma CollectedInsert(attempts: seq<Attempt>, u: seq<nat>, x: nat, v: seq<nat>)
    requires IndicesBelow(u, |attempts|) && x < |attempts| && IndicesBelow(v, |attempts|)
    ensures IndicesBelow(u + [x] + v, |attempts|) && IndicesBelow(u + v, |attempts|)
    ensures multiset(Collected(attempts, u + [x] + v)) ==
            multiset(Collected(attempts, u + v)) + multiset{Worker(attempts[x])}
  {
    CollectedConcat(attempts, u, [x]);
    CollectedConcat(attempts, u + [x], v);
    CollectedConcat(attempts, u, v);
  }

  /** Collecting along index sequences with the same elements gives the same outcomes. */
  lemma {:induction false} CollectedRespectsMultiset(attempts: seq<Attempt>, s: seq<nat>, t: seq<nat>)
    requires IndicesBelow(s, |attempts|) && IndicesBelow(t, |attempts|)
    requires multiset(s) == multiset(t)
    ensures multiset(Collected(attempts, s)) == multiset(Collected(attempts, t))
    decreases |s|
  {
    if s != [] {
      var x := s[0];
      assert x in multiset(s);
      var p := PositionOf(t, x);
      var s0, s1, t1, t2 := s[..0], s[1..], t[..p], t[p + 1..];
      assert IndicesBelow(s0, |attempts|) && IndicesBelow(s1, |attempts|);
      assert IndicesBelow(t1, |attempts|) && IndicesBelow(t2, |attempts|);
      RemoveAt(s, 0);
      RemoveAt(t, p);
      CollectedInsert(attempts, s0, x, s1);
      CollectedInsert(attempts, t1, x, t2);
      CollectedRespectsMultiset(attempts, s0 + s1, t1 + t2);
    } else {
      assert |t| == |multiset(t)| == 0;
    }
  }

  /** The results of a batch are the tasks' own outcomes, one each, whatever
      order the tasks complete in. */
  lemma {:induction false} CollectedArePerTaskOutcomes(attempts: seq<Attempt>, order: seq<nat>)
    requires IsCompletionOrder(order, |attempts|)
    ensures |order| == |attempts| && IndicesBelow(order, |attempts|)
    ensures multiset(Collected(attempts, order)) == multiset(Outcomes(attempts))
  {
    CompletionOrderBounded(order, |attempts|);
    CollectedRespectsMultiset(attempts, order, Indices(|attempts|));
    assert Collected(attempts, Indices(|attempts|)) == Outcomes(attempts);
  }

  /** Two completion orders (a different pool size, a different schedule)
      produce the same results up to order. */
  lemma CompletionOrderIrrelevant(attempts: seq<Attempt>, o1: seq<nat>, o2: seq<nat>)
    requires IsCompletionOrder(o1, |attempts|) && IsCompletionOrder(o2, |attempts|)
    ensures IndicesBelow(o1, |attempts|) && IndicesBelow(o2, |attempts|)
    ensures multiset(Collected(attempts, o1)) == multiset(Collected(attempts, o2))
  {
    CollectedArePerTaskOutcomes(attempts, o1);
    CollectedArePerTaskOutcomes(attempts, o2);
  }

  /** Successful results number exactly the tasks whose compose call returned;
      all other results are failures. */
  lemma {:induction false} SuccessfulOutcomesCounted(attempts: seq<Attempt>)
    ensures multiset(Outcomes(attempts))[(true, "")] == Successes(attempts)
  {
    if attempts != [] {
      var n := |attempts|;
      var front := attempts[..n - 1];
      SuccessfulOutcomesCounted(front);
      assert Outcomes(attempts) == Outcomes(front) + [Worker(attempts[n - 1])];
    }
  }

  /** A single failing task among otherwise successful ones yields exactly one
      failure, carrying that task's message, and `n - 1` successes. */
  lemma OneFailureAmongSuccesses(attempts: seq<Attempt>, order: seq<nat>, k: nat)
    requires IsCompletionOrder(order, |attempts|)
    requires k < |attempts| && attempts[k].Raised?
    requires forall i :: 0 <= i < |attempts| && i != k ==> attempts[i].Completed?
    ensures IndicesBelow(order, |attempts|)
    ensures multiset(Collected(attempts, order))[(true, "")] == |attempts| - 1
    ensures (false, attempts[k].message) in Collected(attempts, order)
  {
    CollectedArePerTaskOutcomes(attempts, order);
    SuccessfulOutcomesCounted(attempts);
    OnlyOneFailureCounted(attempts, k);
    assert Outcomes(attempts)[k] == (false, attempts[k].message);
    assert (false, attempts[k].message) in multiset(Outcomes(attempts));
  }

  lemma {:induction false} OnlyOneFailureCounted(attempts: seq<Attempt>, k: nat)
    requires k < |attempts| && attempts[k].Raised?
    requires forall i :: 0 <= i < |attempts| && i != k ==> attempts[i].Completed?
    ensures Successes(attempts) == |attempts| - 1
  {
    AllCompletedCounted(attempts[..k]);
    SuccessesSplit(attempts, k);
    AllCompletedCounted(attempts[k + 1..]);
  }

  lemma {:induction false} AllCompletedCounted(attempts: seq<Attempt>)
    requires forall i :: 0 <= i < |attempts| ==> attempts[i].Completed?
    ensures Successes(attempts) == |attempts|
  {
    if attempts != [] {
      AllCompletedCounted(attempts[..|attempts| - 1]);
    }
  }

  /** Counting is additive over a split at `k`. */
  lemma {:induction false} SuccessesSplit(attempts: seq<Attempt>, k: nat)
    requires k < |attempts|
    ensures Successes(attempts) == Successes(attempts[..k]) + Successes([attempts[k]]) + Successes(attempts[k + 1..])
    decreases |attempts|
  {
    var n := |attempts|;
    if n - 1 == k {
      assert attempts[..n - 1] == attempts[..k];
      assert attempts[k + 1..] == [];
    } else {
      SuccessesSplit(attempts[..n - 1], k);
      assert attempts[..n - 1][..k] == attempts[..k];
      assert attempts[..n - 1][k + 1..] == attempts[k + 1..n - 1];
      var tail := attempts[k + 1..];
      assert tail[..|tail| - 1] == attempts[k + 1..n - 1] && tail[|tail| - 1] == attempts[n - 1];
      assert Successes(tail) == Successes(attempts[k + 1..n - 1]) + (if attempts[n - 1].Completed? then 1 else 0);
    }
    assert Successes([attempts[k]]) == (if attempts[k].Completed? then 1 else 0) by {
      assert [attempts[k]][..0] == [];
    }
  }

  /** `batch_export`: one result per task, appended as tasks complete; when a
      callback is given it is invoked once per result with the running index
      1, 2, ..., the total and that same result. */
  method BatchExport(tasks: seq<Task>, attempts: seq<Attempt>, order: seq<nat>, maxWorkers: int, hasCallback: bool)
    returns (results: seq<Outcome>, calls: seq<ProgressCall>)
    requires |attempts| == |tasks|
    requires IsCompletionOrder(order, |tasks|)
    ensures IndicesBelow(order, |attempts|) && results == Collected(attempts, order)
    ensures |results| == |tasks|
    ensures multiset(results) == multiset(Outcomes(attempts))
    ensures hasCallback ==>
              && |calls| == |tasks|
              && forall k :: 0 <= k < |calls| ==> calls[k] == ProgressCall(k + 1, |tasks|, results[k].0, results[k].1)
    ensures !hasCallback ==> calls == []
  {
    CollectedArePerTaskOutcomes(attempts, order);
    var total := |tasks|;
    results, calls := [], [];
    var i := 1;
    while i <= |order|
      invariant 1 <= i <= |order| + 1
      invariant results == Collected(attempts, order[..i - 1])
      invariant hasCallback ==>
                  && |calls| == i - 1
                  && forall k :: 0 <= k < |calls| ==> calls[k] == ProgressCall(k + 1, total, results[k].0, results[k].1)
      invariant !hasCallback ==> calls == []
    {
      var (success, msg) := Worker(attempts[order[i - 1]]);
      if hasCallback {
        calls := calls + [ProgressCall(i, total, success, msg)];
      }
      results := results + [(success, msg)];
      assert order[..i] == order[..i - 1] + [order[i - 1]];
      i := i + 1;
    }
    assert order[..|order|] == order;
  }
}
