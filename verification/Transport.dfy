/**
 * The two transport loops with everything that runs beside them: response futures and stream
 * readers, all sending into one bounded channel that only the loop itself empties.
 *
 * A batch is what one wake-up of the loop has to dispatch: all frames decoded after one read of
 * the MessagePack transport, one line of the JSON transport.  Each send, receive, read and
 * dispatch is one step, and any task may take the next one.
 */
module Transport {
  import opened Common
  import opened Rpc

  const CAPACITY: nat := 8
  const READ_SIZE: nat := 4096

  /** An incoming message (None when it cannot be deserialized) and what its callback will do. */
  datatype Frame = Frame(msg: Option<Incoming>, cb: Callback)

  datatype Wire =
    | Answered(response: Response)
    | Started(reqId: nat, ids: seq<nat>)
    | Data(id: nat, segment: bytes)
    | Ended(id: nat)
    | Outbound                       // a message of the caller's own receiver

  datatype Loop =
    | Idle                                                          // in its select
    | Batch(frames: seq<Frame>)                                     // frames still to dispatch
    | Sending(response: Response, frames: seq<Frame>)
    | Announcing(dto: StreamDto, pending: Option<Response>, frames: seq<Frame>)
    | Registering(ids: seq<nat>, pending: Option<Response>, frames: seq<Frame>)
    | Panic(frames: seq<Frame>)

  datatype Reading = Waiting | Holding(segment: bytes) | AtEnd | Finished

  datatype Task =
    | Responder(response: Option<Response>)
    | Reader(id: nat, reading: Reading)
    | Over

  /**
   * `direct` tells the JSON transport, which writes the responses of sync methods itself.  `input`
   * (the frames read so far), `read` (the bytes read from each stream) and `at` (where a stream is)
   * are history.
   */
  datatype Place = InAnnouncement | InRegistration | ReadBy(task: nat)

  datatype State = State(
    direct: bool, methods: map<string, Method>,
    loop: Loop, queue: seq<Wire>, written: seq<Wire>, tasks: seq<Task>,
    draws: nat, streams: set<nat>,
    input: seq<Frame>, read: map<nat, bytes>, at: map<nat, Place>)

  datatype Step =
    | Receive(frames: seq<Frame>)
    | Dispatch
    | Push                          // the loop's own send goes through
    | Register                      // the next stream is inserted and its reader spawned
    | EndBatch
    | WriteOut                      // the loop takes a message from the channel and writes it
    | WriteOutbound
    | Respond(t: nat)               // a future finishes and its response goes through
    | ReadSome(t: nat, segment: bytes)
    | ReadEnd(t: nat)
    | PushRead(t: nat)              // a reader's send goes through
    | OtherDraw

  function Init(direct: bool, methods: map<string, Method>): State {
    State(direct, methods, Idle, [], [], [], 0, {}, [], map[], map[])
  }

  function ResultOf(s: State, f: Frame): MaybeSync {
    if f.msg.None? then Now(None) else Dispatched(s.methods, f.msg.value, f.cb, s.draws)
  }

  ghost predicate HasRoom(s: State) { |s.queue| < CAPACITY }

  ghost predicate Enabled(s: State, a: Step) {
    match a
    case Receive(frames) => s.loop.Idle?
    case Dispatch => s.loop.Batch? && s.loop.frames != []
    case Push => (s.loop.Sending? || s.loop.Announcing?) && HasRoom(s)
    case Register => s.loop.Registering?
    case EndBatch => s.loop == Batch([])
    case WriteOut => s.loop.Idle? && s.queue != []
    case WriteOutbound => s.loop.Idle?
    case Respond(t) =>
      && t < |s.tasks| && s.tasks[t].Responder?
      && (s.tasks[t].response.Some? ==> HasRoom(s))
    case ReadSome(t, segment) =>
      && t < |s.tasks| && s.tasks[t].Reader? && s.tasks[t].reading.Waiting?
      && 1 <= |segment| <= READ_SIZE
    case ReadEnd(t) => t < |s.tasks| && s.tasks[t].Reader? && s.tasks[t].reading.Waiting?
    case PushRead(t) =>
      && t < |s.tasks| && s.tasks[t].Reader?
      && (s.tasks[t].reading.Holding? || s.tasks[t].reading.AtEnd?) && HasRoom(s)
    case OtherDraw => true
  }

  /** Places the streams of an announcement. */
  function PlaceAll(at: map<nat, Place>, ids: seq<nat>, p: Place): map<nat, Place> {
    map id | id in at.Keys + (set i | i in ids) :: if id in ids then p else at[id]
  }

  ghost function AfterDispatch(s: State, r: MaybeSync, rest: seq<Frame>): State {
    match r
    case Now(None) => s.(loop := Batch(rest))
    case Now(Some(v)) =>
      if s.direct then s.(loop := Batch(rest), written := s.written + [Answered(v)])
      else s.(loop := Sending(v, rest))
    case Later(response) => s.(loop := Batch(rest), tasks := s.tasks + [Responder(response)])
    case Stream(None, response) => s.(loop := Batch(rest), tasks := s.tasks + [Responder(response)])
    case Stream(Some(dto), response) =>
      s.(loop := Announcing(dto, response, rest), draws := s.draws + |dto.ids|,
         at := PlaceAll(s.at, dto.ids, InAnnouncement))
    case Panicked => s.(loop := Panic(rest))
  }

  ghost function Apply(s: State, a: Step): State
    requires Enabled(s, a)
  {
    match a
    case Receive(frames) => s.(loop := Batch(frames), input := s.input + frames)
    case Dispatch => AfterDispatch(s, ResultOf(s, s.loop.frames[0]), s.loop.frames[1..])
    case Push =>
      (match s.loop
       case Sending(v, rest) => s.(loop := Batch(rest), queue := s.queue + [Answered(v)])
       case Announcing(dto, response, rest) =>
         s.(loop := Registering(dto.ids, response, rest),
            queue := s.queue + [Started(dto.reqId, dto.ids)],
            at := PlaceAll(s.at, dto.ids, InRegistration)))
    case Register =>
      if s.loop.ids == [] then
        s.(loop := Batch(s.loop.frames), tasks := s.tasks + [Responder(s.loop.pending)])
      else
        var id := s.loop.ids[0];
        s.(loop := Registering(s.loop.ids[1..], s.loop.pending, s.loop.frames), streams := s.streams + {id},
           tasks := s.tasks + [Reader(id, Waiting)],
           at := s.at[id := ReadBy(|s.tasks|)], read := s.read[id := []])
    case EndBatch => s.(loop := Idle)
    case WriteOut => s.(written := s.written + [s.queue[0]], queue := s.queue[1..])
    case WriteOutbound => s.(written := s.written + [Outbound])
    case Respond(t) =>
      var response := s.tasks[t].response;
      s.(tasks := s.tasks[t := Over],
         queue := if response.Some? then s.queue + [Answered(response.value)] else s.queue)
    case ReadSome(t, segment) =>
      var id := s.tasks[t].id;
      s.(tasks := s.tasks[t := Reader(id, Holding(segment))],
         read := s.read[id := (if id in s.read then s.read[id] else []) + segment])
    case ReadEnd(t) => s.(tasks := s.tasks[t := Reader(s.tasks[t].id, AtEnd)])
    case PushRead(t) =>
      var id := s.tasks[t].id;
      if s.tasks[t].reading.Holding? then
        s.(tasks := s.tasks[t := Reader(id, Waiting)],
           queue := s.queue + [Data(id, s.tasks[t].reading.segment)])
      else
        s.(tasks := s.tasks[t := Reader(id, Finished)], queue := s.queue + [Ended(id)])
    case OtherDraw => s.(draws := s.draws + 1)
  }

  ghost predicate Run(s: State, run: seq<Step>)
    decreases |run|
  {
    run == [] || (Enabled(s, run[0]) && Run(Apply(s, run[0]), run[1..]))
  }

  ghost function After(s: State, run: seq<Step>): State
    requires Run(s, run)
    decreases |run|
  {
    if run == [] then s else After(Apply(s, run[0]), run[1..])
  }

  // ------------------------------------------------------------------ exactly one response

  /** 1 when the optional response is r. */
  function One(response: Option<Response>, r: Response): nat {
    if response == Some(r) then 1 else 0
  }

  /** Whether a frame asks for the response r; that does not depend on the ids its streams get. */
  function Asked(methods: map<string, Method>, f: Frame, r: Response): nat {
    if f.msg.None? then 0 else One(ResponseOf(Dispatched(methods, f.msg.value, f.cb, 0)), r)
  }

  function AskedAll(methods: map<string, Method>, frames: seq<Frame>, r: Response): nat {
    if frames == [] then 0 else Asked(methods, frames[0], r) + AskedAll(methods, frames[1..], r)
  }

  function OfMessage(m: Wire, r: Response): nat {
    if m == Answered(r) then 1 else 0
  }

  /** How often r is among the messages. */
  function OnWire(wire: seq<Wire>, r: Response): nat {
    if wire == [] then 0 else OfMessage(wire[0], r) + OnWire(wire[1..], r)
  }

  function OfTask(t: Task, r: Response): nat {
    if t.Responder? then One(t.response, r) else 0
  }

  function InTasks(tasks: seq<Task>, r: Response): nat {
    if tasks == [] then 0 else OfTask(tasks[0], r) + InTasks(tasks[1..], r)
  }

  /** Responses that the loop itself still owes: the one in its hands and those of its frames. */
  function InLoop(methods: map<string, Method>, loop: Loop, r: Response): nat {
    match loop
    case Idle => 0
    case Batch(frames) => AskedAll(methods, frames, r)
    case Sending(v, frames) => One(Some(v), r) + AskedAll(methods, frames, r)
    case Announcing(_, pending, frames) => One(pending, r) + AskedAll(methods, frames, r)
    case Registering(_, pending, frames) => One(pending, r) + AskedAll(methods, frames, r)
    case Panic(frames) => AskedAll(methods, frames, r)
  }

  ghost function Total(s: State, r: Response): nat {
    OnWire(s.written, r) + OnWire(s.queue, r) + InTasks(s.tasks, r) + InLoop(s.methods, s.loop, r)
  }

  /** Every response asked for is in exactly one place. */
  ghost predicate Conserved(s: State, r: Response) {
    AskedAll(s.methods, s.input, r) == Total(s, r)
  }

  lemma {:induction false} AskedAppend(
    methods: map<string, Method>, a: seq<Frame>, b: seq<Frame>, r: Response)
    ensures AskedAll(methods, a + b, r) == AskedAll(methods, a, r) + AskedAll(methods, b, r)
  {
    if a == [] {
      assert a + b == b;
    } else {
      assert (a + b)[1..] == a[1..] + b;
      AskedAppend(methods, a[1..], b, r);
    }
  }

  lemma {:induction false} OnWireSnoc(wire: seq<Wire>, m: Wire, r: Response)
    ensures OnWire(wire + [m], r) == OnWire(wire, r) + OfMessage(m, r)
  {
    if wire == [] {
      assert [m][1..] == [];
    } else {
      assert (wire + [m])[1..] == wire[1..] + [m];
      OnWireSnoc(wire[1..], m, r);
    }
  }

  lemma {:induction false} InTasksSnoc(tasks: seq<Task>, t: Task, r: Response)
    ensures InTasks(tasks + [t], r) == InTasks(tasks, r) + OfTask(t, r)
  {
    if tasks == [] {
      assert [t][1..] == [];
    } else {
      assert (tasks + [t])[1..] == tasks[1..] + [t];
      InTasksSnoc(tasks[1..], t, r);
    }
  }

  lemma {:induction false} InTasksUpdate(tasks: seq<Task>, k: nat, t: Task, r: Response)
    requires k < |tasks|
    ensures InTasks(tasks[k := t], r) + OfTask(tasks[k], r) == InTasks(tasks, r) + OfTask(t, r)
  {
    if k == 0 {
      assert tasks[0 := t][1..] == tasks[1..];
    } else {
      assert tasks[k := t][1..] == tasks[1..][k - 1 := t];
      InTasksUpdate(tasks[1..], k - 1, t, r);
    }
  }

  ghost predicate SameTotal(s: State, s': State, r: Response) {
    s'.input == s.input && s'.methods == s.methods && Total(s', r) == Total(s, r)
  }

  lemma DispatchConserves(s: State, r: Response)
    requires Enabled(s, Dispatch)
    ensures SameTotal(s, Apply(s, Dispatch), r)
  {
    var f := s.loop.frames[0];
    SameAnswer(s, f, r);
    ResultConserves(s, ResultOf(s, f), f, s.loop.frames[1..], r);
  }

  lemma SameAnswer(s: State, f: Frame, r: Response)
    ensures One(ResponseOf(ResultOf(s, f)), r) == Asked(s.methods, f, r)
  {
  }

  lemma ResultConserves(s: State, result: MaybeSync, f: Frame, rest: seq<Frame>, r: Response)
    requires s.loop.Batch? && s.loop.frames == [f] + rest
    requires One(ResponseOf(result), r) == Asked(s.methods, f, r)
    ensures SameTotal(s, AfterDispatch(s, result, rest), r)
  {
    assert s.loop.frames[1..] == rest;
    match result
    case Now(_) => AnswerConserves(s, result, f, rest, r);
    case Later(response) => InTasksSnoc(s.tasks, Responder(response), r);
    case Stream(None, response) => InTasksSnoc(s.tasks, Responder(response), r);
    case Stream(Some(_), _) =>
    case Panicked =>
  }

  lemma AnswerConserves(s: State, result: MaybeSync, f: Frame, rest: seq<Frame>, r: Response)
    requires s.loop.Batch? && s.loop.frames == [f] + rest && result.Now?
    requires One(result.response, r) == Asked(s.methods, f, r)
    ensures SameTotal(s, AfterDispatch(s, result, rest), r)
  {
    assert s.loop.frames[1..] == rest;
    if result.response.Some? {
      OnWireSnoc(s.written, Answered(result.response.value), r);
    }
  }

  lemma PushConserves(s: State, r: Response)
    requires Enabled(s, Push)
    ensures SameTotal(s, Apply(s, Push), r)
  {
    if s.loop.Sending? {
      OnWireSnoc(s.queue, Answered(s.loop.response), r);
    } else {
      OnWireSnoc(s.queue, Started(s.loop.dto.reqId, s.loop.dto.ids), r);
    }
  }

  lemma RegisterConserves(s: State, r: Response)
    requires Enabled(s, Register)
    ensures SameTotal(s, Apply(s, Register), r)
  {
    if s.loop.ids == [] {
      InTasksSnoc(s.tasks, Responder(s.loop.pending), r);
    } else {
      InTasksSnoc(s.tasks, Reader(s.loop.ids[0], Waiting), r);
    }
  }

  lemma SelectConserves(s: State, a: Step, r: Response)
    requires Enabled(s, a) && (a.EndBatch? || a.WriteOut? || a.WriteOutbound?)
    ensures SameTotal(s, Apply(s, a), r)
  {
    match a
    case EndBatch =>
    case WriteOut => OnWireSnoc(s.written, s.queue[0], r);
    case WriteOutbound => OnWireSnoc(s.written, Outbound, r);
  }

  lemma RespondConserves(s: State, t: nat, r: Response)
    requires Enabled(s, Respond(t))
    ensures SameTotal(s, Apply(s, Respond(t)), r)
  {
    InTasksUpdate(s.tasks, t, Over, r);
    if s.tasks[t].response.Some? {
      OnWireSnoc(s.queue, Answered(s.tasks[t].response.value), r);
    }
  }

  lemma ReaderConserves(s: State, a: Step, r: Response)
    requires Enabled(s, a) && (a.ReadSome? || a.ReadEnd? || a.PushRead?)
    ensures SameTotal(s, Apply(s, a), r)
  {
    InTasksUpdate(s.tasks, a.t, Apply(s, a).tasks[a.t], r);
    if a.PushRead? {
      var id := s.tasks[a.t].id;
      if s.tasks[a.t].reading.Holding? {
        OnWireSnoc(s.queue, Data(id, s.tasks[a.t].reading.segment), r);
      } else {
        OnWireSnoc(s.queue, Ended(id), r);
      }
    }
  }

  lemma StepConserves(s: State, a: Step, r: Response)
    requires Conserved(s, r) && Enabled(s, a)
    ensures Conserved(Apply(s, a), r)
  {
    if a.Receive? {
      AskedAppend(s.methods, s.input, a.frames, r);
    } else {
      TotalStays(s, a, r);
    }
  }

  lemma TotalStays(s: State, a: Step, r: Response)
    requires Enabled(s, a) && !a.Receive?
    ensures SameTotal(s, Apply(s, a), r)
  {
    match a
    case Dispatch => DispatchConserves(s, r);
    case OtherDraw =>
    case Push => PushConserves(s, r);
    case Register => RegisterConserves(s, r);
    case Respond(t) => RespondConserves(s, t, r);
    case ReadSome(_, _) => ReaderConserves(s, a, r);
    case ReadEnd(_) => ReaderConserves(s, a, r);
    case PushRead(_) => ReaderConserves(s, a, r);
    case _ => SelectConserves(s, a, r);
  }

  lemma {:induction false} RunConserves(s: State, run: seq<Step>, r: Response)
    requires Conserved(s, r) && Run(s, run)
    ensures Conserved(After(s, run), r)
    decreases |run|
  {
    if run != [] {
      StepConserves(s, run[0], r);
      RunConserves(Apply(s, run[0]), run[1..], r);
    }
  }

  lemma {:induction false} NoResponders(tasks: seq<Task>, r: Response)
    requires forall t | t in tasks :: t.Responder? ==> t.response.None?
    ensures InTasks(tasks, r) == 0
  {
    if tasks != [] {
      assert tasks[0] in tasks;
      NoResponders(tasks[1..], r);
    }
  }

  /**
   * Exactly one response a request, over every run of either transport: a response is written at
   * most as often as it was asked for; and when the loop is idle, the channel empty and every
   * future finished, exactly as often.
   */
  lemma ExactlyOneResponse(direct: bool, methods: map<string, Method>, run: seq<Step>, r: Response)
    requires Run(Init(direct, methods), run)
    ensures var s := After(Init(direct, methods), run);
            && OnWire(s.written, r) <= AskedAll(s.methods, s.input, r)
            && (s.loop.Idle? && s.queue == []
                && (forall t | t in s.tasks :: t.Responder? ==> t.response.None?) ==>
                  OnWire(s.written, r) == AskedAll(s.methods, s.input, r))
  {
    RunConserves(Init(direct, methods), run, r);
    var s := After(Init(direct, methods), run);
    if forall t | t in s.tasks :: t.Responder? ==> t.response.None? {
      NoResponders(s.tasks, r);
    }
  }
}
