/**
 * When the loop gets through what it read.  The loop is the only consumer of its channel, and it
 * consumes only in its select; so while it dispatches, nothing ever leaves the channel.
 */
module TransportProgress {
  import opened Common
  import opened Rpc
  import opened Transport

  /** A call of a registered duplex method with the right parameters opens its streams. */
  predicate Announces(methods: map<string, Method>, f: Frame) {
    f.msg.Some? && f.cb.paramsError.None? &&
    match Registered(methods, f.msg.value)
    case Some(Duplex(_)) => true
    case _ => false
  }

  /** A request for a sync method, or for none that is registered. */
  predicate AnsweredAtOnce(methods: map<string, Method>, f: Frame) {
    && f.msg.Some? && f.msg.value.method_.Some? && f.msg.value.id.Some?
    && Registered(methods, f.msg.value) in {None, Some(Sync)}
  }

  /**
   * Whether the loop itself sends into the channel for a frame: the announcement of streams, and on
   * the MessagePack transport a response given at once.
   */
  function OwnSend(direct: bool, methods: map<string, Method>, f: Frame): nat {
    if Announces(methods, f) || (AnsweredAtOnce(methods, f) && !direct) then 1 else 0
  }

  function OwnSends(direct: bool, methods: map<string, Method>, frames: seq<Frame>): nat {
    if frames == [] then 0
    else OwnSend(direct, methods, frames[0]) + OwnSends(direct, methods, frames[1..])
  }

  /** A frame without method and id makes the dispatcher panic. */
  predicate Panics(frames: seq<Frame>) {
    exists f | f in frames :: f.msg.Some? && f.msg.value.method_.None? && f.msg.value.id.None?
  }

  function FramesLeft(loop: Loop): seq<Frame> {
    if loop.Idle? then [] else loop.frames
  }

  /** The messages in the channel, and those the loop still has to put there before its next select. */
  function Demand(s: State): nat {
    |s.queue| + OwnSends(s.direct, s.methods, FramesLeft(s.loop))
    + if s.loop.Sending? || s.loop.Announcing? then 1 else 0
  }

  /** The loop is in a send, and the channel is full. */
  ghost predicate Blocked(s: State) {
    (s.loop.Sending? || s.loop.Announcing?) && !HasRoom(s)
  }

  ghost predicate Busy(s: State) {
    !s.loop.Idle? && |s.queue| <= CAPACITY
  }

  /** 1 when another task sends into the channel. */
  ghost function TaskPush(s: State, a: Step): nat
    requires Enabled(s, a)
  {
    if a.PushRead? || (a.Respond? && s.tasks[a.t].response.Some?) then 1 else 0
  }

  lemma DemandStep(s: State, a: Step)
    requires Busy(s) && Enabled(s, a)
    ensures Demand(Apply(s, a)) == Demand(s) + TaskPush(s, a)
    ensures |Apply(s, a).queue| <= CAPACITY
    ensures !s.loop.Panic? && Panics(FramesLeft(s.loop)) ==>
              Apply(s, a).loop.Panic? || Panics(FramesLeft(Apply(s, a).loop))
    ensures Apply(s, a).methods == s.methods && Apply(s, a).direct == s.direct
  {
    if a.Dispatch? {
      DispatchDemand(s);
    }
  }

  /** What a frame leads to, told by the kind of its method. */
  lemma DispatchKind(s: State, f: Frame)
    ensures var r := ResultOf(s, f);
            && (r.Stream? && r.dto.Some? <==> Announces(s.methods, f))
            && (r.Stream? && r.dto.Some? ==> |r.dto.value.ids| == StreamsOf(s.methods, f))
            && (r.Now? && r.response.Some? <==> AnsweredAtOnce(s.methods, f))
            && (r.Panicked? <==> Panics([f]))
  {
    if f.msg.Some? {
      AnsweredByKind(s.methods, f.msg.value, f.cb, s.draws);
      AnsweredExactlyWhenAsked(s.methods, f.msg.value, f.cb, s.draws);
    }
  }

  lemma DispatchDemand(s: State)
    requires Enabled(s, Dispatch)
    ensures var s' := Apply(s, Dispatch);
            && Demand(s') == Demand(s) && s'.queue == s.queue
            && (Panics(FramesLeft(s.loop)) ==>
                  s'.loop.Panic? || Panics(FramesLeft(s'.loop)))
            && s'.methods == s.methods && s'.direct == s.direct
  {
    DispatchKind(s, s.loop.frames[0]);
  }

  // ------------------------------------------------------------------ stuck

  /** Once the loop blocks on its own full channel, no step of any task changes anything for it. */
  lemma {:induction false} BlockedForEver(s: State, run: seq<Step>)
    requires Blocked(s) && Run(s, run)
    ensures var s' := After(s, run);
            Blocked(s') && s'.loop == s.loop && s'.queue == s.queue && s'.written == s.written
    decreases |run|
  {
    if run != [] {
      assert !run[0].PushRead?;
      BlockedForEver(Apply(s, run[0]), run[1..]);
    }
  }

  /** Too much to send, or a panic ahead: the loop never gets back to its select. */
  lemma {:induction false} OvercommittedNeverFinishes(s: State, run: seq<Step>)
    requires Busy(s) && Run(s, run)
    requires Demand(s) > CAPACITY || s.loop.Panic? || Panics(FramesLeft(s.loop))
    ensures !After(s, run).loop.Idle?
    decreases |run|
  {
    if run != [] {
      DemandStep(s, run[0]);
      OvercommittedNeverFinishes(Apply(s, run[0]), run[1..]);
    }
  }

  // ------------------------------------------------------------------ and not stuck

  /** The one step the loop can take when it is neither idle nor blocked. */
  function NextLoopStep(s: State): Step
    requires !s.loop.Idle? && !s.loop.Panic?
  {
    match s.loop
    case Batch(frames) => if frames == [] then EndBatch else Dispatch
    case Sending(_, _) => Push
    case Announcing(_, _, _) => Push
    case Registering(_, _, _) => Register
  }

  function StreamsOf(methods: map<string, Method>, f: Frame): nat {
    if Announces(methods, f) then Registered(methods, f.msg.value).value.streams else 0
  }

  function StepsFor(methods: map<string, Method>, frames: seq<Frame>): nat {
    if frames == [] then 0 else StreamsOf(methods, frames[0]) + 3 + StepsFor(methods, frames[1..])
  }

  /** A bound on the steps the loop takes until its select. */
  function LoopSteps(s: State): nat {
    StepsFor(s.methods, FramesLeft(s.loop)) +
    match s.loop
    case Idle => 0
    case Panic(_) => 0
    case Batch(_) => 1
    case Sending(_, _) => 2
    case Announcing(dto, _, _) => |dto.ids| + 3
    case Registering(ids, _, _) => |ids| + 2
  }

  lemma LoopStepDescends(s: State)
    requires Busy(s) && !s.loop.Panic? && !Panics(FramesLeft(s.loop)) && !Blocked(s)
    ensures Enabled(s, NextLoopStep(s))
    ensures var s' := Apply(s, NextLoopStep(s));
            && LoopSteps(s') < LoopSteps(s) && !s'.loop.Panic?
            && !Panics(FramesLeft(s'.loop))
            && Demand(s') == Demand(s) && |s'.queue| <= CAPACITY
  {
    DemandStep(s, NextLoopStep(s));
    if NextLoopStep(s).Dispatch? {
      DispatchKind(s, s.loop.frames[0]);
    }
  }

  /** With room for all it has to send, the loop can work its batch off on its own. */
  lemma {:induction false} Finishes(s: State) returns (run: seq<Step>)
    requires |s.queue| <= CAPACITY && !s.loop.Panic? && !Panics(FramesLeft(s.loop))
    requires Demand(s) <= CAPACITY
    ensures Run(s, run) && After(s, run).loop.Idle?
    decreases LoopSteps(s)
  {
    if s.loop.Idle? {
      run := [];
    } else {
      LoopStepDescends(s);
      var a := NextLoopStep(s);
      var rest := Finishes(Apply(s, a));
      run := [a] + rest;
      assert run[1..] == rest;
    }
  }

  // ------------------------------------------------------------------ other tasks

  /** A run during which the loop does not return to its select. */
  ghost predicate BusyRun(s: State, run: seq<Step>)
    decreases |run|
  {
    run == [] || (Busy(s) && Enabled(s, run[0]) && BusyRun(Apply(s, run[0]), run[1..]))
  }

  ghost function TaskPushes(s: State, run: seq<Step>): nat
    requires BusyRun(s, run)
    decreases |run|
  {
    if run == [] then 0 else TaskPush(s, run[0]) + TaskPushes(Apply(s, run[0]), run[1..])
  }

  ghost function Last(s: State, run: seq<Step>): State
    requires BusyRun(s, run)
    decreases |run|
  {
    if run == [] then s else Last(Apply(s, run[0]), run[1..])
  }

  /**
   * Other tasks compete for the room: each of their sends during a batch adds to the demand.  So
   * the loop never blocks in any run with room for its own sends and theirs together.
   */
  lemma {:induction false} CompetingSends(s: State, run: seq<Step>)
    requires Busy(s) && BusyRun(s, run)
    ensures var s' := Last(s, run);
            && Demand(s') == Demand(s) + TaskPushes(s, run) && |s'.queue| <= CAPACITY
            && (Demand(s) + TaskPushes(s, run) <= CAPACITY ==> !Blocked(s'))
    decreases |run|
  {
    if run != [] {
      var s1 := Apply(s, run[0]);
      DemandStep(s, run[0]);
      if s1.loop.Idle? {
        assert run[1..] == [];
      } else {
        CompetingSends(s1, run[1..]);
      }
    }
  }

  predicate IsLoopStep(a: Step) { a.Dispatch? || a.Push? || a.Register? || a.EndBatch? }

  /** The steps of a run that the loop itself takes. */
  ghost function LoopWork(s: State, run: seq<Step>): nat
    requires BusyRun(s, run)
    decreases |run|
  {
    if run == [] then 0
    else (if IsLoopStep(run[0]) then 1 else 0) + LoopWork(Apply(s, run[0]), run[1..])
  }

  lemma OtherStepsKeepLoop(s: State, a: Step)
    requires Busy(s) && Enabled(s, a) && !IsLoopStep(a)
    ensures Apply(s, a).loop == s.loop && Apply(s, a).methods == s.methods
  {
  }

  lemma LoopStepIsNext(s: State, a: Step)
    requires Busy(s) && !s.loop.Panic? && Enabled(s, a) && IsLoopStep(a)
    ensures a == NextLoopStep(s) && !Blocked(s)
  {
  }

  /** In every run of a batch the loop takes boundedly many steps, whatever the others do. */
  lemma {:induction false} LoopWorkIsBounded(s: State, run: seq<Step>)
    requires Busy(s) && BusyRun(s, run) && !s.loop.Panic? && !Panics(FramesLeft(s.loop))
    ensures var s' := Last(s, run);
            && LoopWork(s, run) + LoopSteps(s') <= LoopSteps(s)
            && !s'.loop.Panic? && !Panics(FramesLeft(s'.loop)) && |s'.queue| <= CAPACITY
    decreases |run|
  {
    if run != [] {
      var s1 := Apply(s, run[0]);
      if IsLoopStep(run[0]) {
        LoopStepIsNext(s, run[0]);
        LoopStepDescends(s);
      } else {
        OtherStepsKeepLoop(s, run[0]);
        DemandStep(s, run[0]);
      }
      if s1.loop.Idle? {
        assert run[1..] == [];
      } else {
        LoopWorkIsBounded(s1, run[1..]);
      }
    }
  }

  lemma ProgressesWithRoom(s: State, run: seq<Step>)
    requires Busy(s) && BusyRun(s, run) && !s.loop.Panic? && !Panics(FramesLeft(s.loop))
    requires Demand(s) + TaskPushes(s, run) <= CAPACITY
    ensures Progresses(s, run)
  {
    CompetingSends(s, run);
    LoopWorkIsBounded(s, run);
    var s' := Last(s, run);
    if !s'.loop.Idle? {
      LoopStepDescends(s');
    }
  }

  // ------------------------------------------------------------------ possible and inevitable

  ghost predicate CanFinish(s: State) {
    exists run :: Run(s, run) && After(s, run).loop.Idle?
  }

  /**
   * However the tasks take turns, as long as no other task sends into the channel: the loop never
   * blocks, has a step to take until it is back in its select, and gets there in at most
   * `LoopSteps` steps of its own.
   */
  ghost predicate MustFinish(s: State) {
    forall run | BusyRun(s, run) && TaskPushes(s, run) == 0 :: Progresses(s, run)
  }

  ghost predicate Progresses(s: State, run: seq<Step>)
    requires BusyRun(s, run)
  {
    var s' := Last(s, run);
    && !Blocked(s')
    && (s'.loop.Idle? || (!s'.loop.Panic? && Enabled(s', NextLoopStep(s'))))
    && LoopWork(s, run) <= LoopSteps(s)
    && (LoopWork(s, run) == LoopSteps(s) ==> s'.loop.Idle?)
  }

  /** In any state of a batch, with room for all that the loop still has to send it must finish. */
  lemma MustFinishWithRoom(s: State)
    requires Busy(s) && !s.loop.Panic? && !Panics(FramesLeft(s.loop))
    requires Demand(s) <= CAPACITY
    ensures MustFinish(s)
  {
    forall run | BusyRun(s, run) && TaskPushes(s, run) == 0 ensures Progresses(s, run) {
      ProgressesWithRoom(s, run);
    }
  }

  /**
   * In any state of a batch: when the channel has room for everything the loop has to send and no
   * frame panics, the loop gets back to its select in every undisturbed run; otherwise it does in
   * none, disturbed or not.
   */
  lemma FinishesIffRoom(s: State)
    requires Busy(s) && !s.loop.Panic?
    ensures CanFinish(s) <==> Demand(s) <= CAPACITY && !Panics(FramesLeft(s.loop))
    ensures CanFinish(s) ==> MustFinish(s)
  {
    if Demand(s) <= CAPACITY && !Panics(FramesLeft(s.loop)) {
      var run := Finishes(s);
      MustFinishWithRoom(s);
    } else {
      forall run | Run(s, run) ensures !After(s, run).loop.Idle? {
        OvercommittedNeverFinishes(s, run);
      }
    }
  }

  /** From the select: k queued messages and a batch with m sends of the loop need k + m <= 8. */
  lemma BatchFinishesIffRoom(s: State, frames: seq<Frame>)
    requires s.loop.Idle? && |s.queue| <= CAPACITY && !Panics(frames)
    ensures CanFinish(Apply(s, Receive(frames))) <==>
            |s.queue| + OwnSends(s.direct, s.methods, frames) <= 8
    ensures CanFinish(Apply(s, Receive(frames))) ==> MustFinish(Apply(s, Receive(frames)))
  {
    FinishesIffRoom(Apply(s, Receive(frames)));
  }

  /** A line of the JSON transport needs room for one message, and only when it opens streams. */
  lemma OneLineNeedsRoomForAnAnnouncement(s: State, f: Frame)
    requires s.loop.Idle? && s.direct && |s.queue| <= CAPACITY && !Panics([f])
    ensures CanFinish(Apply(s, Receive([f]))) <==> |s.queue| < 8 || !Announces(s.methods, f)
    ensures CanFinish(Apply(s, Receive([f]))) ==> MustFinish(Apply(s, Receive([f])))
  {
    BatchFinishesIffRoom(s, [f]);
    assert [f][1..] == [];
  }

  // ------------------------------------------------------------------ the responses

  /** The loop will write no response of its own on the way through its batch. */
  ghost predicate Silent(s: State) {
    s.direct ==> forall f | f in FramesLeft(s.loop) :: !AnsweredAtOnce(s.methods, f)
  }

  lemma OverfullStep(s: State, a: Step)
    requires Busy(s) && Enabled(s, a) && Demand(s) > CAPACITY && Silent(s)
    ensures var s' := Apply(s, a);
            && s'.written == s.written && s'.input == s.input && s'.methods == s.methods
            && Busy(s') && Demand(s') > CAPACITY && Silent(s')
  {
    DemandStep(s, a);
    if a.Dispatch? {
      DispatchKind(s, s.loop.frames[0]);
      assert s.loop.frames[0] in s.loop.frames;
    }
  }

  /** With more to send than there is room for, nothing is ever written again. */
  lemma {:induction false} OverfullWritesNothing(s: State, run: seq<Step>)
    requires Busy(s) && Run(s, run) && Demand(s) > CAPACITY && Silent(s)
    ensures var s' := After(s, run);
            s'.written == s.written && s'.input == s.input && s'.methods == s.methods
    decreases |run|
  {
    if run != [] {
      OverfullStep(s, run[0]);
      OverfullWritesNothing(Apply(s, run[0]), run[1..]);
    }
  }

  /** Every response asked for so far is on the wire, exactly as often as it was asked for. */
  ghost predicate AllWritten(s: State) {
    forall r: Response :: OnWire(s.written, r) == AskedAll(s.methods, s.input, r)
  }

  ghost predicate AllConserved(s: State) {
    forall r: Response :: Conserved(s, r)
  }

  lemma {:induction false} RunAppend(s: State, a: seq<Step>, b: seq<Step>)
    requires Run(s, a) && Run(After(s, a), b)
    ensures Run(s, a + b) && After(s, a + b) == After(After(s, a), b)
    decreases |a|
  {
    if a == [] {
      assert a + b == b;
    } else {
      assert (a + b)[1..] == a[1..] + b;
      RunAppend(Apply(s, a[0]), a[1..], b);
    }
  }

  /** From its select the loop can write everything that is queued. */
  lemma {:induction false} DrainsQueue(s: State) returns (run: seq<Step>)
    requires s.loop.Idle?
    ensures Run(s, run) && After(s, run).loop.Idle? && After(s, run).queue == []
    ensures After(s, run).tasks == s.tasks
    decreases |s.queue|
  {
    run := [];
    if s.queue != [] {
      var rest := DrainsQueue(Apply(s, WriteOut));
      run := [WriteOut] + rest;
      assert run[1..] == rest;
    }
  }

  ghost predicate Answered(t: Task) { t.Responder? ==> t.response.None? }

  /** And then let the pending futures finish, one after the other, and write their responses. */
  lemma {:induction false} FinishesFutures(s: State, k: nat) returns (run: seq<Step>)
    requires s.loop.Idle? && s.queue == [] && k <= |s.tasks|
    requires forall i | 0 <= i < k :: Answered(s.tasks[i])
    ensures Run(s, run)
    ensures var s' := After(s, run);
            s'.loop.Idle? && s'.queue == [] && forall i | 0 <= i < |s'.tasks| :: Answered(s'.tasks[i])
    decreases |s.tasks| - k
  {
    run := [];
    if k < |s.tasks| {
      if Answered(s.tasks[k]) {
        run := FinishesFutures(s, k + 1);
      } else {
        var s1 := Apply(s, Respond(k));
        var s2 := Apply(s1, WriteOut);
        var rest := FinishesFutures(s2, k + 1);
        run := [Respond(k)] + ([WriteOut] + rest);
        assert run[1..] == [WriteOut] + rest && ([WriteOut] + rest)[1..] == rest;
        assert Run(s1, [WriteOut] + rest);
      }
    }
  }

  lemma SettledIsWritten(s: State)
    requires AllConserved(s) && s.loop.Idle? && s.queue == []
    requires forall i | 0 <= i < |s.tasks| :: Answered(s.tasks[i])
    ensures AllWritten(s)
  {
    forall r: Response ensures OnWire(s.written, r) == AskedAll(s.methods, s.input, r) {
      assert Conserved(s, r);
      NoResponders(s.tasks, r);
    }
  }

  lemma StaysConserved(s: State, run: seq<Step>)
    requires AllConserved(s) && Run(s, run)
    ensures AllConserved(After(s, run))
  {
    forall r: Response ensures Conserved(After(s, run), r) {
      assert Conserved(s, r);
      RunConserves(s, run, r);
    }
  }

  /** With room for the batch, there is a way to write every response asked for. */
  lemma WritesAll(s: State) returns (run: seq<Step>)
    requires AllConserved(s) && |s.queue| <= CAPACITY && !s.loop.Panic?
    requires !Panics(FramesLeft(s.loop)) && Demand(s) <= CAPACITY
    ensures Run(s, run) && AllWritten(After(s, run))
  {
    var batch := Finishes(s);
    var drain := DrainsQueue(After(s, batch));
    var s' := After(After(s, batch), drain);
    var futures := FinishesFutures(s', 0);
    RunAppend(After(s, batch), drain, futures);
    RunAppend(s, batch, drain + futures);
    run := batch + (drain + futures);
    StaysConserved(s, run);
    SettledIsWritten(After(s, run));
  }

  lemma {:induction false} QueueIsBounded(s: State, run: seq<Step>)
    requires |s.queue| <= CAPACITY && Run(s, run)
    ensures |After(s, run).queue| <= CAPACITY
    ensures After(s, run).methods == s.methods && After(s, run).direct == s.direct
    decreases |run|
  {
    if run != [] {
      QueueStep(s, run[0]);
      ConfigurationStays(s, run[0]);
      QueueIsBounded(Apply(s, run[0]), run[1..]);
    }
  }

  lemma QueueStep(s: State, a: Step)
    requires |s.queue| <= CAPACITY && Enabled(s, a)
    ensures |Apply(s, a).queue| <= CAPACITY
  {
    if a.Dispatch? {
      DispatchKeeps(s, ResultOf(s, s.loop.frames[0]), s.loop.frames[1..]);
    }
  }

  lemma DispatchKeeps(s: State, r: MaybeSync, rest: seq<Frame>)
    ensures var s' := AfterDispatch(s, r, rest);
            s'.queue == s.queue && s'.methods == s.methods && s'.direct == s.direct
  {
  }

  lemma ConfigurationStays(s: State, a: Step)
    requires Enabled(s, a)
    ensures Apply(s, a).methods == s.methods && Apply(s, a).direct == s.direct
  {
    if a.Dispatch? {
      DispatchKeeps(s, ResultOf(s, s.loop.frames[0]), s.loop.frames[1..]);
    }
  }

  ghost predicate CanWriteAll(s: State) {
    exists run :: Run(s, run) && AllWritten(After(s, run))
  }

  lemma WritesAllIffRoom(s: State)
    requires AllConserved(s) && Busy(s) && !s.loop.Panic? && !Panics(FramesLeft(s.loop))
    requires Demand(s) > CAPACITY ==> Silent(s)
    ensures CanWriteAll(s) <==> Demand(s) <= CAPACITY || AllWritten(s)
  {
    if Demand(s) <= CAPACITY {
      var run := WritesAll(s);
    } else {
      if AllWritten(s) {
        assert Run(s, []) && After(s, []) == s;
      }
      forall run | Run(s, run) && AllWritten(After(s, run)) ensures AllWritten(s) {
        OverfullWritesNothing(s, run);
        AsWritten(s, After(s, run));
      }
    }
  }

  lemma AsWritten(s: State, s': State)
    requires s'.written == s.written && s'.input == s.input && s'.methods == s.methods && AllWritten(s')
    ensures AllWritten(s)
  {
    forall r: Response ensures OnWire(s.written, r) == AskedAll(s.methods, s.input, r) {
      assert OnWire(s'.written, r) == AskedAll(s'.methods, s'.input, r);
    }
  }

  lemma ReachedFacts(direct: bool, methods: map<string, Method>, before: seq<Step>, frames: seq<Frame>)
    requires Run(Init(direct, methods), before) && After(Init(direct, methods), before).loop.Idle?
    ensures var s := After(Init(direct, methods), before);
            && |s.queue| <= CAPACITY && s.methods == methods && s.direct == direct
            && AllConserved(Apply(s, Receive(frames)))
  {
    var init := Init(direct, methods);
    QueueIsBounded(init, before);
    StaysConserved(init, before);
    var s := After(init, before);
    forall r: Response ensures Conserved(Apply(s, Receive(frames)), r) {
      assert Conserved(s, r);
      StepConserves(s, Receive(frames), r);
    }
  }

  /**
   * The promise that every frame's response is written, for the MessagePack transport: after any
   * run that ends in the select with k messages queued, and a batch that makes the loop send m
   * more, all responses asked for can still be written exactly when k + m <= 8, or when nothing
   * was left to write anyway; above that bound no run writes anything more.
   */
  lemma ResponsesWrittenIffRoom(methods: map<string, Method>, before: seq<Step>, frames: seq<Frame>)
    requires Run(Init(false, methods), before) && After(Init(false, methods), before).loop.Idle?
    requires !Panics(frames)
    ensures var s := After(Init(false, methods), before); var batch := Apply(s, Receive(frames));
            && (CanWriteAll(batch) <==>
                  |s.queue| + OwnSends(false, methods, frames) <= 8 || AllWritten(batch))
            && (|s.queue| + OwnSends(false, methods, frames) > 8 ==>
                  forall run | Run(batch, run) :: After(batch, run).written == s.written)
  {
    ReachedFacts(false, methods, before, frames);
    var s := After(Init(false, methods), before);
    var batch := Apply(s, Receive(frames));
    WritesAllIffRoom(batch);
    if Demand(batch) > CAPACITY {
      forall run | Run(batch, run) ensures After(batch, run).written == s.written {
        OverfullWritesNothing(batch, run);
      }
    }
  }

  /** And for a line of the JSON transport: unless it opens streams while the channel is full. */
  lemma LineIsAnsweredIffRoom(methods: map<string, Method>, before: seq<Step>, f: Frame)
    requires Run(Init(true, methods), before) && After(Init(true, methods), before).loop.Idle?
    requires !Panics([f])
    ensures var s := After(Init(true, methods), before); var line := Apply(s, Receive([f]));
            CanWriteAll(line) <==> |s.queue| < 8 || !Announces(methods, f) || AllWritten(line)
  {
    ReachedFacts(true, methods, before, [f]);
    var s := After(Init(true, methods), before);
    var line := Apply(s, Receive([f]));
    assert [f][1..] == [];
    assert OwnSends(true, methods, [f]) == OwnSend(true, methods, f);
    assert Demand(line) == |s.queue| + OwnSend(true, methods, f);
    assert FramesLeft(line.loop) == [f];
    WritesAllIffRoom(line);
  }
}
