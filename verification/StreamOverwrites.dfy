/** What inserting a stream under an id that is in use can cost, over every continuation. */
module StreamOverwrites {
  import opened Common
  import opened Streams
  import opened StreamProtocol
  import opened StreamRuns

  // ------------------------------------------------------------------ bytes lost for good

  /** Nobody holds the half of the pipe any more: no record, and no task that is not done. */
  ghost predicate Gone(s: State, w: nat) {
    && (forall id | id in s.table :: s.table[id].write != Some(w))
    && (forall t | 0 <= t < |s.tasks| :: s.tasks[t].phase.Done? || s.tasks[t].w != w)
  }

  /** Accepted bytes that were not delivered, will not be, and were not lost to a failed write. */
  ghost predicate LosesBytes(s: State, w: nat) {
    && w < |s.pipes| && Gone(s, w)
    && NothingDiscarded(s.pipes[w].fates) && s.pipes[w].delivered != Flat(s.pipes[w].accepted)
  }

  lemma GoneStep(s: State, a: Step, w: nat)
    requires w < |s.pipes| && Gone(s, w) && Enabled(s, a)
    ensures var s' := Apply(s, a);
            && w < |s'.pipes| && Gone(s', w)
            && s'.pipes[w].delivered == s.pipes[w].delivered && s'.pipes[w].fates == s.pipes[w].fates
  {
  }

  /** Such a pipe gets no byte more, whatever the steps and the inserts. */
  lemma {:induction false} GoneForGood(s: State, run: seq<Step>, w: nat)
    requires w < |s.pipes| && Gone(s, w) && AnyRun(s, run)
    ensures var s' := Reached(s, run);
            && w < |s'.pipes| && Gone(s', w)
            && s'.pipes[w].delivered == s.pipes[w].delivered && s'.pipes[w].fates == s.pipes[w].fates
    decreases |run|
  {
    if run != [] {
      GoneStep(s, run[0], w);
      GoneForGood(Apply(s, run[0]), run[1..], w);
    }
  }

  ghost function Reached(s: State, run: seq<Step>): State
    requires AnyRun(s, run)
    decreases |run|
  {
    if run == [] then s else Reached(Apply(s, run[0]), run[1..])
  }

  ghost predicate NoFailure(run: seq<Step>) { forall i | 0 <= i < |run| :: !run[i].Fail? }

  /** In some continuation in which no write fails, and no id in use is inserted, bytes are lost. */
  ghost predicate CanLose(s: State) {
    exists run, w :: Run(s, run) && NoFailure(run) && LosesBytes(After(s, run), w)
  }

  // ------------------------------------------------------------------ over an idle record

  /** The state as if the half of a pipe had been shut down. */
  ghost function Retired(s: State, o: nat): State
    requires o < |s.pipes|
  {
    s.(pipes := s.pipes[o := s.pipes[o].(owner := Shut, shutdowns := 1)])
  }

  lemma RetiredPeerStep(s: State, o: nat, a: Step)
    requires o < |s.pipes| && Inv(Retired(s, o)) && (a.Insert? || a.Write? || a.Remove?)
    ensures o < |Apply(s, a).pipes| && Apply(Retired(s, o), a) == Retired(Apply(s, a), o)
  {
    var r := Retired(s, o);
    if a.id in s.table {
      assert RecordOk(r, a.id);
      assert PipeOk(r, r.current[a.id]);
    }
    assert Apply(r, a).pipes == Retired(Apply(s, a), o).pipes;
  }

  lemma RetiredTaskStep(s: State, o: nat, a: Step)
    requires o < |s.pipes| && Inv(Retired(s, o)) && Enabled(s, a)
    requires a.Turn? || a.Send? || a.Fail? || a.Shutdown?
    ensures o < |Apply(s, a).pipes| && Apply(Retired(s, o), a) == Retired(Apply(s, a), o)
  {
    var r := Retired(s, o);
    assert TaskOk(r, a.t);
    assert Apply(r, a).pipes == Retired(Apply(s, a), o).pipes;
  }

  /** No step can tell the difference. */
  lemma {:induction false} RetiredRun(s: State, o: nat, run: seq<Step>)
    requires o < |s.pipes| && Inv(Retired(s, o)) && Run(s, run)
    ensures Run(Retired(s, o), run) && o < |After(s, run).pipes|
    ensures After(Retired(s, o), run) == Retired(After(s, run), o)
    ensures Inv(Retired(After(s, run), o))
    decreases |run|
  {
    if run != [] {
      var a := run[0];
      if a.Insert? || a.Write? || a.Remove? {
        RetiredPeerStep(s, o, a);
      } else {
        RetiredTaskStep(s, o, a);
      }
      StepKeepsInv(Retired(s, o), a);
      RetiredRun(Apply(s, a), o, run[1..]);
    }
  }

  lemma IdlePipeRetires(s: State, id: nat)
    requires Inv(s) && id in s.table && s.table[id].write.Some?
    ensures s.current[id] < |s.pipes| && Inv(Retired(Apply(s, Insert(id)), s.current[id]))
  {
    assert RecordOk(s, id);
    var o := s.current[id];
    assert PipeOk(s, o);
    var r := Retired(Apply(s, Insert(id)), o);
    forall w | 0 <= w < |r.pipes| ensures PipeOk(r, w) {
      if w < |s.pipes| {
        assert PipeOk(s, w);
      }
    }
    forall t | 0 <= t < |r.tasks| ensures TaskOk(r, t) {
      assert TaskOk(s, t);
    }
    forall id' | id' in r.table ensures RecordOk(r, id') {
      if id' != id {
        assert RecordOk(s, id');
      }
    }
  }

  /** A pipe that nobody holds has, in a state that keeps the invariant, all that was accepted. */
  lemma NobodyHoldsNothingMissing(r: State, w: nat)
    requires Inv(r) && w < |r.pipes| && Gone(r, w) && NothingDiscarded(r.pipes[w].fates)
    ensures r.pipes[w].delivered == Flat(r.pipes[w].accepted)
  {
    assert PipeOk(r, w);
    KeptIsSettled(r.pipes[w].fates);
  }

  /** An insert over an idle record never costs a byte, in whatever continuation. */
  lemma IdleInsertLosesNothing(s: State, id: nat, run: seq<Step>, w: nat)
    requires Inv(s) && id in s.table && s.table[id].write.Some? && Run(Apply(s, Insert(id)), run)
    ensures !LosesBytes(After(Apply(s, Insert(id)), run), w)
  {
    var s', o := Apply(s, Insert(id)), s.current[id];
    IdlePipeRetires(s, id);
    RetiredRun(s', o, run);
    var end := After(s', run);
    if w < |end.pipes| && Gone(end, w) && NothingDiscarded(end.pipes[w].fates) {
      NobodyHoldsNothingMissing(Retired(end, o), w);
    }
  }

  // ------------------------------------------------------------------ over a busy record

  /** The state after an insert over a busy record, while the old loop sends its batch. */
  ghost predicate Diverted(s: State, id: nat, t: nat, n: nat) {
    && id in s.table && s.table[id] == StreamRec(Some(n), [], false)
    && id in s.current && s.current[id] == n && n < |s.pipes|
    && s.pipes[n].accepted == [] && s.pipes[n].fates == [] && s.pipes[n].delivered == []
    && t < |s.tasks| && s.tasks[t].id == id && s.tasks[t].w < n && s.tasks[t].phase.Looping?
    && (forall id' | id' in s.table && id' != id :: s.table[id'].write != Some(n))
    && (forall t' | 0 <= t' < |s.tasks| :: s.tasks[t'].phase.Done? || s.tasks[t'].w != n)
  }

  lemma BusyIsDiverted(s: State, id: nat) returns (t: nat)
    requires Inv(s) && id in s.table && s.table[id].write.None?
    ensures Diverted(Apply(s, Insert(id)), id, t, |s.pipes|)
  {
    assert RecordOk(s, id);
    assert PipeOk(s, s.current[id]);
    t := s.pipes[s.current[id]].owner.task;
    var n := |s.pipes|;
    forall id' | id' in s.table ensures s.table[id'].write != Some(n) {
      assert RecordOk(s, id');
      assert PipeOk(s, s.current[id']);
    }
    forall t' | 0 <= t' < |s.tasks| ensures s.tasks[t'].phase.Done? || s.tasks[t'].w != n {
      assert TaskOk(s, t');
    }
  }

  /** The old loop hands its own half back to the new record, and the new half is dropped. */
  lemma OldHalfComesBack(s: State, id: nat, t: nat, n: nat)
    requires Diverted(s, id, t, n) && s.tasks[t].phase.items == []
    ensures Enabled(s, Turn(t))
    ensures var s' := Apply(s, Turn(t)); s'.table[id].write == Some(s.tasks[t].w) && Gone(s', n)
  {
  }

  lemma SegmentGoesAstray(s: State, id: nat, t: nat, n: nat, buf: bytes)
    requires Diverted(s, id, t, n) && s.tasks[t].phase.items == [] && buf != []
    ensures Run(s, [Turn(t), Write(id, buf)]) && LosesBytes(After(s, [Turn(t), Write(id, buf)]), n)
  {
    OldHalfComesBack(s, id, t, n);
    var s1 := Apply(s, Turn(t));
    var s2 := Apply(s1, Write(id, buf));
    var run := [Turn(t), Write(id, buf)];
    assert run[1..] == [Write(id, buf)] && run[1..][1..] == [];
    assert Run(s2, []) && Run(s1, run[1..]);
    assert After(s1, run[1..]) == After(s2, []) == s2;
    FlatOne(buf);
    assert s2.pipes[n].accepted == [buf];
    GoneStep(s1, Write(id, buf), n);
  }

  /** The old loop sends its batch and takes its turn; the next segment for the new pipe is lost. */
  lemma {:induction false} LosesNextSegment(s: State, id: nat, t: nat, n: nat, buf: bytes)
    returns (run: seq<Step>)
    requires Diverted(s, id, t, n) && buf != []
    ensures Run(s, run) && NoFailure(run) && LosesBytes(After(s, run), n)
    decreases |s.tasks[t].phase.items|
  {
    var items := s.tasks[t].phase.items;
    if items == [] {
      SegmentGoesAstray(s, id, t, n, buf);
      run := [Turn(t), Write(id, buf)];
    } else {
      var a := Send(t, |items[0]|);
      var rest := LosesNextSegment(Apply(s, a), id, t, n, buf);
      run := [a] + rest;
      assert run[1..] == rest;
    }
  }

  lemma BusyInsertCanLose(s: State, id: nat)
    requires Inv(s) && id in s.table && s.table[id].write.None?
    ensures CanLose(Apply(s, Insert(id)))
  {
    var t := BusyIsDiverted(s, id);
    var run := LosesNextSegment(Apply(s, Insert(id)), id, t, |s.pipes|, [1]);
  }

  /**
   * An insert under an id in use can cost accepted bytes, without any failed write, exactly when
   * the record there is busy: when a write loop is out with its half.
   */
  lemma InsertCanLoseIffBusy(s: State, id: nat)
    requires Inv(s) && id in s.table
    ensures CanLose(Apply(s, Insert(id))) <==> s.table[id].write.None?
  {
    if s.table[id].write.None? {
      BusyInsertCanLose(s, id);
    } else {
      forall run, w | Run(Apply(s, Insert(id)), run) ensures !LosesBytes(After(Apply(s, Insert(id)), run), w) {
        IdleInsertLosesNothing(s, id, run, w);
      }
    }
  }

  // ------------------------------------------------------------------ ended while the loop is out

  /** A loop that finds its record gone shuts its half down. */
  lemma LoopWithoutRecordShuts(s: State, t: nat)
    requires Enabled(s, Turn(t)) && s.tasks[t].id !in s.table && s.tasks[t].w < |s.pipes|
    ensures Run(s, [Turn(t), Shutdown(t)])
    ensures var w, s' := s.tasks[t].w, After(s, [Turn(t), Shutdown(t)]);
            && s'.table == s.table && |s'.tasks| == |s.tasks| && s'.tasks[t].phase.Done? && |s'.pipes| == |s.pipes|
            && s'.pipes[w].shutdowns == s.pipes[w].shutdowns + 1
            && s'.pipes[w].delivered == s.pipes[w].delivered
  {
    var s1 := Apply(s, Turn(t));
    var run := [Turn(t), Shutdown(t)];
    assert run[1..] == [Shutdown(t)] && run[1..][1..] == [];
    assert Run(Apply(s1, Shutdown(t)), []) && Run(s1, run[1..]);
    assert After(s1, run[1..]) == After(Apply(s1, Shutdown(t)), []);
  }

  /**
   * A stream inserted over a busy one and ended before the old loop comes back: the old loop finds
   * no record, and shuts the old half down once.
   */
  lemma OldHalfIsShut(s: State, id: nat) returns (t: nat)
    requires Inv(s) && id in s.table && s.table[id].write.None?
    ensures s.current[id] < |s.pipes| && t < |s.tasks|
    ensures var s' := Apply(Apply(s, Insert(id)), Remove(id));
            && id !in s'.table && s'.tasks[t].phase == s.tasks[t].phase && s.tasks[t].phase.Looping?
            && (s.tasks[t].phase.items == [] ==>
                  Run(s', [Turn(t), Shutdown(t)])
                  && var end := After(s', [Turn(t), Shutdown(t)]);
                     |end.pipes| == |s.pipes| + 1 && end.pipes[s.current[id]].shutdowns == 1)
  {
    assert RecordOk(s, id);
    assert PipeOk(s, s.current[id]);
    t := s.pipes[s.current[id]].owner.task;
    var s' := Apply(Apply(s, Insert(id)), Remove(id));
    if s.tasks[t].phase.items == [] {
      LoopWithoutRecordShuts(s', t);
    }
  }
}
