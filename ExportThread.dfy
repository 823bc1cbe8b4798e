/** The export thread of the main window: it composes the tasks one after
    another, counts the successful ones and reports progress after every task,
    then signals that it has finished. The signals are modelled as the log of
    what was emitted, in order. */
module ExportThread {
  import opened PathText
  import opened BatchWorker

  datatype Signal = Progress(done: int, total: int, message: string) | Finished

  /** The progress report after a task: the success count so far and either
      the saved destination or the source's file name with the error text. */
  function Report(t: Task, a: Attempt, done: nat, total: nat): (s: Signal)
    ensures s.Progress? && s.done == done && s.total == total
  {
    match a
    case Completed => Progress(done, total, "已保存: " + t.dstPath)
    case Raised(m) => Progress(done, total, "错误 (" + Name(t.srcPath) + "): " + m)
  }

  /** `ExportWorker.run`: one progress signal per task, carrying the number of
      tasks that have succeeded so far, then one finished signal. */
  method Run(tasks: seq<Task>, attempts: seq<Attempt>) returns (emitted: seq<Signal>)
    requires |attempts| == |tasks|
    ensures |emitted| == |tasks| + 1
    ensures emitted[|tasks|] == Finished
    ensures forall k :: 0 <= k < |tasks| ==>
              emitted[k] == Report(tasks[k], attempts[k], Successes(attempts[..k + 1]), |tasks|)
  {
    var total := |tasks|;
    var done := 0;
    emitted := [];
    var k := 0;
    while k < |tasks|
      invariant 0 <= k <= |tasks|
      invariant done == Successes(attempts[..k])
      invariant |emitted| == k
      invariant forall j :: 0 <= j < k ==>
                  emitted[j] == Report(tasks[j], attempts[j], Successes(attempts[..j + 1]), total)
    {
      DoneStep(attempts, k);
      if attempts[k].Completed? {
        done := done + 1;
      }
      ghost var prev := emitted;
      emitted := emitted + [Report(tasks[k], attempts[k], done, total)];
      assert forall j :: 0 <= j < k ==> emitted[j] == prev[j];
      k := k + 1;
    }
    ghost var reports := emitted;
    emitted := emitted + [Finished];
    assert forall j :: 0 <= j < |tasks| ==> emitted[j] == reports[j];
  }

  /** Each task adds one to the count when it succeeds and nothing when it fails. */
  lemma DoneStep(attempts: seq<Attempt>, k: nat)
    requires k < |attempts|
    ensures Successes(attempts[..k + 1]) == Successes(attempts[..k]) + (if attempts[k].Completed? then 1 else 0)
  {
    assert attempts[..k + 1][..k] == attempts[..k];
  }

  /** The reported count never decreases, stays within the number of tasks
      reported so far, and stands still exactly at a failure. */
  lemma DoneCountsUp(attempts: seq<Attempt>, k: nat)
    requires k + 1 < |attempts|
    ensures Successes(attempts[..k + 1]) <= Successes(attempts[..k + 2]) <= k + 2
    ensures Successes(attempts[..k + 2]) == Successes(attempts[..k + 1]) <==> attempts[k + 1].Raised?
  {
    DoneStep(attempts, k + 1);
  }

  /** The count in the last progress signal is the number of successful
      tasks, which is also the number of successful results a batch export of
      the same tasks collects. */
  lemma {:induction false} FinalDoneIsSuccessCount(attempts: seq<Attempt>)
    ensures Successes(attempts[..|attempts|]) == multiset(Outcomes(attempts))[(true, "")]
  {
    assert attempts[..|attempts|] == attempts;
    SuccessfulOutcomesCounted(attempts);
  }
}
