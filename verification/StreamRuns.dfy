/** What holds over whole runs of the stream table: order, loss, ownership, shutdown, termination. */
module StreamRuns {
  import opened Common
  import opened Streams
  import opened StreamProtocol

  /** Steps that can be taken one after the other, with every insert under an id not in use. */
  ghost predicate Run(s: State, run: seq<Step>)
    decreases |run|
  {
    run == [] ||
    (Enabled(s, run[0]) && Fresh(s, run[0]) && Run(Apply(s, run[0]), run[1..]))
  }

  ghost function After(s: State, run: seq<Step>): State
    requires Run(s, run)
    decreases |run|
  {
    if run == [] then s else After(Apply(s, run[0]), run[1..])
  }

  lemma {:induction false} RunKeepsInv(s: State, run: seq<Step>)
    requires Inv(s) && Run(s, run)
    ensures Inv(After(s, run))
    decreases |run|
  {
    if run != [] {
      StepKeepsInv(s, run[0]);
      RunKeepsInv(Apply(s, run[0]), run[1..]);
    }
  }

  // ------------------------------------------------------------------ order and loss

  /**
   * FIFO and lossless: after any run, what a pipe received, what was lost to failed writes and
   * what is still queued make up, in order, exactly the segments accepted for it; and without a
   * failed write nothing is missing.
   */
  lemma DeliveryIsFifo(run: seq<Step>, w: nat)
    requires Run(INIT, run) && w < |After(INIT, run).pipes|
    ensures var s := After(INIT, run); var p := s.pipes[w];
            && p.delivered == Kept(p.fates)
            && Settled(p.fates) + Pending(s, w) == Flat(p.accepted)
            && (NothingDiscarded(p.fates) ==> p.delivered + Pending(s, w) == Flat(p.accepted))
            && (NothingDiscarded(p.fates) && p.owner == Shut ==> p.delivered == Flat(p.accepted))
  {
    RunKeepsInv(INIT, run);
    var s := After(INIT, run);
    assert PipeOk(s, w);
    if NothingDiscarded(s.pipes[w].fates) {
      KeptIsSettled(s.pipes[w].fates);
    }
  }

  /** The segment that a step queues for a pipe: a write made while its record is present. */
  ghost function WriteFor(s: State, a: Step, w: nat): seq<bytes> {
    if a.Write? && a.id in s.table && a.id in s.current && s.current[a.id] == w then [a.buf] else []
  }

  ghost function WritesFor(s: State, run: seq<Step>, w: nat): seq<bytes>
    requires Run(s, run)
    decreases |run|
  {
    if run == [] then []
    else WriteFor(s, run[0], w) + WritesFor(Apply(s, run[0]), run[1..], w)
  }

  lemma AcceptedStep(s: State, a: Step, w: nat)
    requires Inv(s) && Enabled(s, a) && w < |s.pipes|
    ensures w < |Apply(s, a).pipes|
    ensures Apply(s, a).pipes[w].accepted == s.pipes[w].accepted + WriteFor(s, a, w)
  {
    if a.Write? && a.id in s.table {
      assert RecordOk(s, a.id);
      assert PipeOk(s, s.current[a.id]);
    }
  }

  /** `accepted` is nothing but those writes, in the order in which they were made. */
  lemma {:induction false} AcceptedAreTheWrites(s: State, run: seq<Step>, w: nat)
    requires Inv(s) && Run(s, run) && w < |s.pipes|
    ensures w < |After(s, run).pipes|
    ensures After(s, run).pipes[w].accepted == s.pipes[w].accepted + WritesFor(s, run, w)
    decreases |run|
  {
    if run != [] {
      var s1 := Apply(s, run[0]);
      assert Inv(s1) by { StepKeepsInv(s, run[0]); }
      AcceptedStep(s, run[0], w);
      AcceptedAreTheWrites(s1, run[1..], w);
      ConcatAssoc(s.pipes[w].accepted, WriteFor(s, run[0], w), WritesFor(s1, run[1..], w));
    }
  }

  // ------------------------------------------------------------------ ownership

  ghost predicate LoopOn(s: State, t: nat, id: nat) {
    t < |s.tasks| && s.tasks[t].phase.Looping? && s.tasks[t].id == id
  }

  /** A present record holds its half, idle and with nothing to do, or exactly one loop holds it. */
  lemma OneHolder(run: seq<Step>, id: nat)
    requires Run(INIT, run) && id in After(INIT, run).table
    ensures var s := After(INIT, run); var rec := s.table[id];
            if rec.write.Some? then
              rec.q == [] && !rec.ended && forall t: nat :: !LoopOn(s, t, id)
            else
              exists t: nat :: LoopOn(s, t, id) && forall t': nat :: LoopOn(s, t', id) ==> t' == t
  {
    RunKeepsInv(INIT, run);
    var s := After(INIT, run);
    assert RecordOk(s, id);
    var w := s.current[id];
    assert PipeOk(s, w);
    forall t: nat | LoopOn(s, t, id) ensures s.pipes[w].owner == HeldBy(t) {
      assert TaskOk(s, t);
      assert PipeOk(s, s.tasks[t].w);
    }
    if s.table[id].write.None? {
      assert LoopOn(s, s.pipes[w].owner.task, id);
    }
  }

  /** A live loop always finds its record, so its missing-record branch is never taken. */
  lemma RecordNeverMissing(run: seq<Step>, t: nat)
    requires Run(INIT, run) && Enabled(After(INIT, run), Turn(t))
    ensures var s := After(INIT, run);
            && s.tasks[t].id in s.table
            && (LoopTurn(s.table, s.tasks[t].id, s.tasks[t].w, []).1 == Close
                <==> s.table[s.tasks[t].id].q == [] && s.table[s.tasks[t].id].ended)
  {
    RunKeepsInv(INIT, run);
    var s := After(INIT, run);
    assert TaskOk(s, t);
    assert PipeOk(s, s.tasks[t].w);
  }

  // ------------------------------------------------------------------ shutdown

  /** A half is shut down at most once, and no live task works on a half that was. */
  lemma ShutAtMostOnce(run: seq<Step>, w: nat, t: nat)
    requires Run(INIT, run)
    requires var s := After(INIT, run); w < |s.pipes| && t < |s.tasks|
    ensures var s := After(INIT, run);
            && s.pipes[w].shutdowns <= 1
            && (s.tasks[t].w == w && !s.tasks[t].phase.Done? ==> s.pipes[w].shutdowns == 0)
  {
    RunKeepsInv(INIT, run);
    var s := After(INIT, run);
    assert PipeOk(s, w);
    assert TaskOk(s, t);
  }

  /** The pipe a step works on, or -1. */
  ghost function Target(s: State, a: Step): int
    requires Enabled(s, a)
  {
    match a
    case Insert(_) => -1
    case Write(id, _) => if id in s.table && id in s.current then s.current[id] else -1
    case Remove(id) => if id in s.table && id in s.current then s.current[id] else -1
    case Turn(t) => s.tasks[t].w
    case Send(t, _) => s.tasks[t].w
    case Fail(t) => s.tasks[t].w
    case Shutdown(t) => s.tasks[t].w
  }

  /** What matters to a pipe: its own state, its record and the task that holds it. */
  ghost predicate SameView(s: State, s': State, w: nat)
    requires w < |s.pipes|
  {
    && w < |s'.pipes| && s'.pipes[w] == s.pipes[w]
    && (s.pipes[w].owner.HeldBy? ==>
          var t, id := s.pipes[w].owner.task, s.pipes[w].id;
          && t < |s.tasks| <= |s'.tasks| && s'.tasks[t] == s.tasks[t]
          && id in s.table && id in s'.table && s'.table[id] == s.table[id])
  }

  lemma PeerElsewhere(s: State, a: Step, w: nat)
    requires Inv(s) && (a.Insert? || a.Write? || a.Remove?) && Fresh(s, a)
    requires w < |s.pipes| && Target(s, a) != w
    ensures SameView(s, Apply(s, a), w)
  {
    assert PipeOk(s, w);
    if a.id in s.table {
      assert RecordOk(s, a.id);
      assert PipeOk(s, s.current[a.id]);
    }
  }

  lemma TaskElsewhere(s: State, a: Step, w: nat)
    requires Inv(s) && Enabled(s, a) && (a.Turn? || a.Send? || a.Fail? || a.Shutdown?)
    requires w < |s.pipes| && Target(s, a) != w
    ensures SameView(s, Apply(s, a), w)
  {
    assert PipeOk(s, w);
    assert TaskOk(s, a.t);
    assert PipeOk(s, s.tasks[a.t].w);
  }

  lemma StepElsewhere(s: State, a: Step, w: nat)
    requires Inv(s) && Enabled(s, a) && Fresh(s, a) && w < |s.pipes| && Target(s, a) != w
    ensures SameView(s, Apply(s, a), w)
  {
    if a.Insert? || a.Write? || a.Remove? {
      PeerElsewhere(s, a, w);
    } else {
      TaskElsewhere(s, a, w);
    }
  }

  lemma ShutStep(s: State, a: Step, w: nat)
    requires Inv(s) && Enabled(s, a) && Fresh(s, a) && w < |s.pipes| && s.pipes[w].owner == Shut
    ensures SameView(s, Apply(s, a), w)
  {
    if a.Write? || a.Remove? {
      assert a.id in s.table ==> RecordOk(s, a.id);
    } else if !a.Insert? {
      assert TaskOk(s, a.t);
    }
    StepElsewhere(s, a, w);
  }

  /** Once a half is shut down, its pipe never changes again. */
  lemma {:induction false} ShutIsFinal(s: State, run: seq<Step>, w: nat)
    requires Inv(s) && Run(s, run) && w < |s.pipes| && s.pipes[w].owner == Shut
    ensures w < |After(s, run).pipes| && After(s, run).pipes[w] == s.pipes[w]
    decreases |run|
  {
    if run != [] {
      ShutStep(s, run[0], w);
      StepKeepsInv(s, run[0]);
      ShutIsFinal(Apply(s, run[0]), run[1..], w);
    }
  }

  // ------------------------------------------------------------------ termination

  function Cost(items: seq<bytes>): nat {
    if items == [] then 0 else |items[0]| + 1 + Cost(items[1..])
  }

  lemma {:induction false} CostAppend(items: seq<bytes>, buf: bytes)
    ensures Cost(items + [buf]) == Cost(items) + |buf| + 1
  {
    if items == [] {
      assert [buf][1..] == [];
    } else {
      assert (items + [buf])[1..] == items[1..] + [buf];
      CostAppend(items[1..], buf);
    }
  }

  /** An upper bound on the steps that tasks can still take for a pipe if nothing more is queued. */
  function Potential(s: State, w: nat): nat
    requires w < |s.pipes|
  {
    var p := s.pipes[w];
    match p.owner
    case InTable => 0
    case Shut => 0
    case ClosedBy(_) => 1
    case HeldBy(t) =>
      if t < |s.tasks| && s.tasks[t].phase.Looping? && p.id in s.table
      then 2 + Cost(s.tasks[t].phase.items) + 2 * Cost(s.table[p.id].q) else 0
  }

  /** 1 when the step is taken by the task that works on the pipe. */
  ghost function Moves(s: State, a: Step, w: nat): nat
    requires Enabled(s, a)
  {
    if (a.Turn? || a.Send? || a.Fail? || a.Shutdown?) && s.tasks[a.t].w == w then 1 else 0
  }

  /** What a new segment or an end adds to the work to be done for a pipe. */
  function Charge(s: State, a: Step, w: nat): nat {
    match a
    case Write(id, buf) =>
      if id in s.table && id in s.current && s.current[id] == w then 2 * |buf| + 4 else 0
    case Remove(id) =>
      if id in s.table && id in s.current && s.current[id] == w then 1 else 0
    case _ => 0
  }

  lemma TurnPays(s: State, t: nat, w: nat)
    requires Inv(s) && Enabled(s, Turn(t)) && w < |s.pipes| && s.tasks[t].w == w
    ensures 1 + Potential(Apply(s, Turn(t)), w) <= Potential(s, w)
  {
    assert TaskOk(s, t);
    assert PipeOk(s, w);
    var q := s.table[s.pipes[w].id].q;
    assert q != [] ==> Cost(q) >= 1;
  }

  lemma SendPays(s: State, t: nat, n: nat, w: nat)
    requires Inv(s) && Enabled(s, Send(t, n)) && w < |s.pipes| && s.tasks[t].w == w
    ensures 1 + Potential(Apply(s, Send(t, n)), w) <= Potential(s, w)
  {
    assert TaskOk(s, t);
    assert PipeOk(s, w);
    var items := s.tasks[t].phase.items;
    if n < |items[0]| {
      assert Unsent(items, n)[0] == items[0][n..] && Unsent(items, n)[1..] == items[1..];
    }
    assert Cost(Unsent(items, n)) < Cost(items);
  }

  lemma WritePays(s: State, id: nat, buf: bytes, w: nat)
    requires Inv(s) && id in s.table && w < |s.pipes| && id in s.current && s.current[id] == w
    ensures Potential(Apply(s, Write(id, buf)), w) <= Potential(s, w) + 2 * |buf| + 4
  {
    assert RecordOk(s, id);
    assert PipeOk(s, w);
    CostAppend(s.table[id].q, buf);
  }

  lemma StepPays(s: State, a: Step, w: nat)
    requires Inv(s) && Enabled(s, a) && Fresh(s, a) && w < |s.pipes|
    ensures w < |Apply(s, a).pipes|
    ensures Moves(s, a, w) + Potential(Apply(s, a), w) <= Potential(s, w) + Charge(s, a, w)
  {
    if Target(s, a) != w {
      StepElsewhere(s, a, w);
    } else {
      match a
      case Insert(_) =>
      case Write(id, buf) => WritePays(s, id, buf, w);
      case Remove(id) =>
        assert RecordOk(s, id);
        assert PipeOk(s, w);
      case Turn(t) => TurnPays(s, t, w);
      case Send(t, n) => SendPays(s, t, n, w);
      case Fail(t) =>
        assert TaskOk(s, t);
        assert PipeOk(s, w);
        assert Cost(s.tasks[t].phase.items) >= 1;
      case Shutdown(t) => assert TaskOk(s, t);
    }
  }

  ghost function Work(s: State, run: seq<Step>, w: nat): nat
    requires Run(s, run)
    decreases |run|
  {
    if run == [] then 0 else Moves(s, run[0], w) + Work(Apply(s, run[0]), run[1..], w)
  }

  ghost function Charges(s: State, run: seq<Step>, w: nat): nat
    requires Run(s, run)
    decreases |run|
  {
    if run == [] then 0 else Charge(s, run[0], w) + Charges(Apply(s, run[0]), run[1..], w)
  }

  /** In any run, the steps taken for a pipe are bounded by what was queued for it. */
  lemma {:induction false} WorkIsBounded(s: State, run: seq<Step>, w: nat)
    requires Inv(s) && Run(s, run) && w < |s.pipes|
    ensures w < |After(s, run).pipes|
    ensures Work(s, run, w) + Potential(After(s, run), w) <= Potential(s, w) + Charges(s, run, w)
    decreases |run|
  {
    if run != [] {
      StepKeepsInv(s, run[0]);
      StepPays(s, run[0], w);
      WorkIsBounded(Apply(s, run[0]), run[1..], w);
    }
  }

  /** The stream of this pipe was ended by the peer. */
  ghost predicate Ending(s: State, w: nat)
    requires w < |s.pipes|
  {
    var p := s.pipes[w];
    p.owner == Shut || p.owner.ClosedBy? ||
    (p.owner.HeldBy? && p.id in s.table && s.table[p.id].ended)
  }

  /** Some task can take a step for the pipe. */
  ghost predicate CanMove(s: State, w: nat) {
    exists a: Step :: Enabled(s, a) && Moves(s, a, w) == 1
  }

  /** The end of a stream takes effect at once. */
  lemma RemoveEnds(s: State, id: nat)
    requires Inv(s) && id in s.table
    ensures s.current[id] < |s.pipes| && Ending(Apply(s, Remove(id)), s.current[id])
  {
    assert RecordOk(s, id);
    assert PipeOk(s, s.current[id]);
  }

  lemma EndingStep(s: State, a: Step, w: nat)
    requires Inv(s) && Enabled(s, a) && Fresh(s, a) && w < |s.pipes| && Ending(s, w)
    ensures w < |Apply(s, a).pipes| && Ending(Apply(s, a), w)
  {
    if Target(s, a) != w {
      StepElsewhere(s, a, w);
    } else {
      assert PipeOk(s, w);
      if a.Write? || a.Remove? {
        assert RecordOk(s, a.id);
      } else {
        assert TaskOk(s, a.t);
      }
    }
  }

  lemma {:induction false} EndingLasts(s: State, run: seq<Step>, w: nat)
    requires Inv(s) && Run(s, run) && w < |s.pipes| && Ending(s, w)
    ensures w < |After(s, run).pipes| && Ending(After(s, run), w)
    decreases |run|
  {
    if run != [] {
      StepKeepsInv(s, run[0]);
      EndingStep(s, run[0], w);
      EndingLasts(Apply(s, run[0]), run[1..], w);
    }
  }

  /** A pipe whose half is held by a task is never stuck: its task has a step to take. */
  lemma HolderCanMove(s: State, w: nat)
    requires Inv(s) && w < |s.pipes|
    ensures CanMove(s, w) <==> s.pipes[w].owner.HeldBy? || s.pipes[w].owner.ClosedBy?
    ensures CanMove(s, w) <==> Potential(s, w) > 0
  {
    assert PipeOk(s, w);
    match s.pipes[w].owner
    case HeldBy(t) =>
      var items := s.tasks[t].phase.items;
      var a := if items == [] then Turn(t) else Send(t, |items[0]|);
      assert Enabled(s, a) && Moves(s, a, w) == 1;
    case ClosedBy(t) =>
      assert Enabled(s, Shutdown(t)) && Moves(s, Shutdown(t), w) == 1;
    case _ =>
      forall a: Step | Enabled(s, a) ensures Moves(s, a, w) == 0 {
        if a.Turn? || a.Send? || a.Fail? || a.Shutdown? {
          assert TaskOk(s, a.t);
        }
      }
  }

  /**
   * An ended stream closes: from the end on, its tasks take only boundedly many steps, they stop
   * only after shutting the half down, and by then, unless a write failed, every segment that was
   * accepted (before or after the end) has been delivered.
   */
  lemma EndedStreamCloses(s: State, run: seq<Step>, w: nat)
    requires Inv(s) && Run(s, run) && w < |s.pipes| && Ending(s, w)
    ensures var s' := After(s, run);
            && w < |s'.pipes|
            && Work(s, run, w) <= Potential(s, w) + Charges(s, run, w)
            && (!CanMove(s', w) || Work(s, run, w) == Potential(s, w) + Charges(s, run, w) ==>
                  s'.pipes[w].owner == Shut && s'.pipes[w].shutdowns == 1 &&
                  (NothingDiscarded(s'.pipes[w].fates) ==>
                     s'.pipes[w].delivered == Flat(s'.pipes[w].accepted)))
  {
    WorkIsBounded(s, run, w);
    EndingLasts(s, run, w);
    RunKeepsInv(s, run);
    var s' := After(s, run);
    HolderCanMove(s', w);
    assert PipeOk(s', w);
    if s'.pipes[w].owner == Shut && NothingDiscarded(s'.pipes[w].fates) {
      KeptIsSettled(s'.pipes[w].fates);
    }
  }

  lemma {:induction false} NoWritesNoSegments(s: State, run: seq<Step>, w: nat)
    requires Run(s, run) && forall i | 0 <= i < |run| :: !run[i].Write?
    ensures WritesFor(s, run, w) == []
    decreases |run|
  {
    if run != [] {
      NoWritesNoSegments(Apply(s, run[0]), run[1..], w);
    }
  }

  ghost function EndedAtOnce(id: nat, b1: bytes, b2: bytes): State {
    Apply(Apply(Apply(Apply(INIT, Insert(id)), Write(id, b1)), Write(id, b2)), Remove(id))
  }

  lemma EndedAtOnceIsEnding(id: nat, b1: bytes, b2: bytes)
    ensures var s := EndedAtOnce(id, b1, b2);
            Inv(s) && |s.pipes| == 1 && Ending(s, 0) && s.pipes[0].accepted == [b1, b2]
  {
    var s1 := Apply(INIT, Insert(id));
    InsertKeepsInv(INIT, id);
    var s2 := Apply(s1, Write(id, b1));
    WriteKeepsInv(s1, id, b1);
    var s3 := Apply(s2, Write(id, b2));
    WriteKeepsInv(s2, id, b2);
    RemoveKeepsInv(s3, id);
    RemoveEnds(s3, id);
  }

  /**
   * A stream that gets two segments and is ended at once, however the loop is scheduled after
   * that: when its tasks have no step left the half is shut down, and unless a write to this
   * stream failed both segments have arrived.
   */
  lemma ImmediateEndDeliversAll(id: nat, b1: bytes, b2: bytes, rest: seq<Step>)
    requires var s := EndedAtOnce(id, b1, b2);
             && Run(s, rest) && (forall i | 0 <= i < |rest| :: !rest[i].Write?)
             && !CanMove(After(s, rest), 0)
    ensures var s' := After(EndedAtOnce(id, b1, b2), rest);
            && |s'.pipes| > 0 && s'.pipes[0].shutdowns == 1
            && (NothingDiscarded(s'.pipes[0].fates) ==> s'.pipes[0].delivered == b1 + b2)
  {
    var s := EndedAtOnce(id, b1, b2);
    EndedAtOnceIsEnding(id, b1, b2);
    EndedStreamCloses(s, rest, 0);
    AcceptedAreTheWrites(s, rest, 0);
    NoWritesNoSegments(s, rest, 0);
    assert [b1, b2][1..] == [b2];
    FlatOne(b2);
  }

  // ------------------------------------------------------------------ which inserts are safe

  /** An insert keeps the invariant exactly when its id has no record. */
  lemma InsertSafeIffFresh(s: State, id: nat)
    requires Inv(s)
    ensures Inv(Apply(s, Insert(id))) <==> id !in s.table
  {
    if id in s.table {
      assert RecordOk(s, id);
      assert PipeOk(s, s.current[id]);
      assert !PipeOk(Apply(s, Insert(id)), s.current[id]);
    } else {
      InsertKeepsInv(s, id);
    }
  }

  /**
   * What an insert over a record costs the pipe that was there, at once: the bytes still in the
   * record's queue, and nothing else.
   */
  lemma OldPipeLosesItsQueue(s: State, id: nat)
    requires Inv(s) && id in s.table
    ensures s.current[id] < |s.pipes| && s.pipes[s.current[id]].id == id
    ensures var w, s' := s.current[id], Apply(s, Insert(id)); var p := s'.pipes[w];
            && Settled(p.fates) + Pending(s', w) + Flat(s.table[id].q) == Flat(p.accepted)
            && (Settled(p.fates) + Pending(s', w) == Flat(p.accepted) <==> Flat(s.table[id].q) == [])
  {
    assert RecordOk(s, id);
    var w, s' := s.current[id], Apply(s, Insert(id));
    assert PipeOk(s, w);
    var kept, lost := Settled(s'.pipes[w].fates) + Pending(s', w), Flat(s.table[id].q);
    if s.pipes[w].owner.HeldBy? {
      var items := Flat(s.tasks[s.pipes[w].owner.task].phase.items);
      assert Pending(s', w) == items + Flat([]) == items;
      ConcatAssoc(Settled(s'.pipes[w].fates), items, lost);
    }
    assert kept + lost == Flat(s'.pipes[w].accepted);
    assert kept == kept + lost <==> |lost| == 0;
  }

  /** Inserting under `id` loses the accepted bytes of pipe 0 although no write failed. */
  ghost predicate InsertLoses(s: State, id: nat, buf: bytes) {
    && Inv(s) && id in s.table
    && var s' := Apply(s, Insert(id));
       && |s'.pipes| > 0 && NothingDiscarded(s'.pipes[0].fates)
       && s'.pipes[0].delivered + Pending(s', 0) == []
       && Flat(s'.pipes[0].accepted) == buf
  }

  lemma OverwritingInsertLosesBytes()
    ensures exists s, id, buf :: buf != [] && InsertLoses(s, id, buf)
  {
    var buf: bytes := [1];
    var s1 := Apply(INIT, Insert(7));
    InsertKeepsInv(INIT, 7);
    WriteKeepsInv(s1, 7, buf);
    var s := Apply(s1, Write(7, buf));
    FlatOne(buf);
    assert s.pipes[0].accepted == [buf];
    var s' := Apply(s, Insert(7));
    assert s'.tasks[0].phase.items == [] && s'.table[7].q == [];
    assert InsertLoses(s, 7, buf);
  }

  // ------------------------------------------------------------------ ids from the counter

  lemma IdsRepeatAfterWrap(j: nat, k: nat)
    requires j <= k
    ensures MessageId(j) == MessageId(k) <==> (k - j) % 0x1_0000_0000 == 0
  {
    var qj, qk := j / ID_RANGE, k / ID_RANGE;
    assert j == qj * ID_RANGE + MessageId(j) && k == qk * ID_RANGE + MessageId(k);
    if MessageId(j) == MessageId(k) {
      assert k - j == (qk - qj) * ID_RANGE;
    }
  }

  ghost predicate DistinctInserts(run: seq<Step>) {
    forall i, j | 0 <= i < j < |run| && run[i].Insert? && run[j].Insert? :: run[i].id != run[j].id
  }

  /** Steps that can be taken one after the other, whatever ids are inserted. */
  ghost predicate AnyRun(s: State, run: seq<Step>)
    decreases |run|
  {
    run == [] || (Enabled(s, run[0]) && AnyRun(Apply(s, run[0]), run[1..]))
  }

  /** Every id in the table was inserted; so pairwise distinct inserts are fresh inserts. */
  lemma {:induction false} DistinctIdsAreFresh(s: State, run: seq<Step>)
    requires AnyRun(s, run) && DistinctInserts(run)
    requires forall j | 0 <= j < |run| && run[j].Insert? :: run[j].id !in s.table
    ensures Run(s, run)
    decreases |run|
  {
    if run != [] {
      var s' := Apply(s, run[0]);
      assert forall id | id in s'.table :: id in s.table || (run[0].Insert? && id == run[0].id);
      DistinctIdsAreFresh(s', run[1..]);
    }
  }

  /**
   * The whole protocol with ids drawn from the counter, inserted in any order: while fewer than
   * 2^32 ids were handed out, every insert is fresh, so everything above holds of every run.
   */
  lemma CounterIdsAreSafe(run: seq<Step>, draws: seq<nat>)
    requires AnyRun(INIT, run) && |draws| == |run|
    requires forall i | 0 <= i < |run| && run[i].Insert? :: run[i].id == MessageId(draws[i])
    requires forall i, j | 0 <= i < j < |run| && run[i].Insert? && run[j].Insert? ::
               draws[i] != draws[j] && draws[i] < ID_RANGE && draws[j] < ID_RANGE
    ensures Run(INIT, run)
  {
    forall i, j | 0 <= i < j < |run| && run[i].Insert? && run[j].Insert?
      ensures run[i].id != run[j].id
    {
      assert MessageId(draws[i]) == draws[i] && MessageId(draws[j]) == draws[j];
    }
    DistinctIdsAreFresh(INIT, run);
  }
}
