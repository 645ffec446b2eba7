/**
 * The writing of one batch, segment by segment among all other tasks, does to its pipe what the
 * write loop does when nothing disturbs it: after a failed write nothing of the batch is sent.
 */
module StreamBatches {
  import opened Common
  import opened Streams
  import opened StreamProtocol
  import opened StreamRuns

  ghost predicate HasBatch(s: State, t: nat, items: seq<bytes>) {
    t < |s.tasks| && s.tasks[t].phase == Looping(items) && s.tasks[t].w < |s.pipes|
  }

  /** The steps of task t for a batch when its k-th write from now on can get `reach(k)` bytes through. */
  function BatchSteps(t: nat, items: seq<bytes>, reach: nat -> nat, k: nat): seq<Step> {
    if items == [] then []
    else if reach(k) >= |items[0]| then [Send(t, |items[0]|)] + BatchSteps(t, items[1..], reach, k + 1)
    else if reach(k) == 0 then [Fail(t)]
    else [Send(t, reach(k)), Fail(t)]
  }

  /** Only the batch and its pipe have changed: so much more was delivered, and the batch is over. */
  ghost predicate BatchOver(s: State, s': State, t: nat, sent: bytes)
    requires t < |s.tasks| && s.tasks[t].w < |s.pipes|
  {
    var w := s.tasks[t].w;
    && s'.table == s.table && s'.current == s.current
    && s'.tasks == SetPhase(s.tasks, t, Looping([]))
    && |s'.pipes| == |s.pipes| && (forall v | 0 <= v < |s.pipes| && v != w :: s'.pipes[v] == s.pipes[v])
    && s'.pipes[w].delivered == s.pipes[w].delivered + sent
    && s'.pipes[w].shutdowns == s.pipes[w].shutdowns
  }

  lemma OneStep(s: State, a: Step)
    requires Enabled(s, a) && Fresh(s, a)
    ensures Run(s, [a]) && After(s, [a]) == Apply(s, a)
  {
    assert [a][0] == a && [a][1..] == [];
    assert After(Apply(s, a), []) == Apply(s, a);
  }

  lemma FailedWrite(s: State, t: nat, items: seq<bytes>, n: nat)
    requires HasBatch(s, t, items) && items != [] && n < |items[0]|
    ensures var run := if n == 0 then [Fail(t)] else [Send(t, n), Fail(t)];
            Run(s, run) && BatchOver(s, After(s, run), t, items[0][..n])
  {
    if n == 0 {
      OneStep(s, Fail(t));
    } else {
      assert [Send(t, n), Fail(t)][1..] == [Fail(t)];
      OneStep(Apply(s, Send(t, n)), Fail(t));
    }
  }

  lemma FullWrite(s: State, s': State, t: nat, items: seq<bytes>, sent: bytes)
    requires HasBatch(s, t, items) && items != []
    requires var s1 := Apply(s, Send(t, |items[0]|));
             HasBatch(s1, t, items[1..]) && BatchOver(s1, s', t, sent)
    ensures BatchOver(s, s', t, items[0] + sent)
  {
    var w := s.tasks[t].w;
    ConcatAssoc(s.pipes[w].delivered, items[0], sent);
  }

  /** Whatever its writes get through, a batch is over after them, and has sent exactly that. */
  lemma {:induction false} BatchSends(s: State, t: nat, items: seq<bytes>, reach: nat -> nat, k: nat)
    requires HasBatch(s, t, items)
    ensures var run := BatchSteps(t, items, reach, k);
            Run(s, run) && BatchOver(s, After(s, run), t, GetsThrough(items, reach, k))
    decreases items
  {
    if items == [] {
      assert s.tasks == SetPhase(s.tasks, t, Looping([]));
    } else if reach(k) < |items[0]| {
      FailedWrite(s, t, items, reach(k));
    } else {
      var run := BatchSteps(t, items, reach, k);
      var s1 := Apply(s, Send(t, |items[0]|));
      assert run[0] == Send(t, |items[0]|) && run[1..] == BatchSteps(t, items[1..], reach, k + 1);
      BatchSends(s1, t, items[1..], reach, k + 1);
      FullWrite(s, After(s1, run[1..]), t, items, GetsThrough(items[1..], reach, k + 1));
    }
  }
}
