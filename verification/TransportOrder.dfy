/** The order in which the messages of one stream go out, for every interleaving. */
module TransportOrder {
  import opened Common
  import opened Rpc
  import opened Transport

  /** What the messages so far tell about one stream. */
  datatype Heard = Unseen | Open(data: bytes) | Closed(data: bytes) | Broken

  /** A stream is announced once, then come data segments of 1 to 4096 bytes, then at most one end. */
  function Hear(h: Heard, m: Wire, id: nat): Heard {
    match m
    case Started(_, ids) => if id !in ids then h else if h.Unseen? then Open([]) else Broken
    case Data(i, segment) =>
      if i != id then h
      else if h.Open? && 1 <= |segment| <= 4096 then Open(h.data + segment) else Broken
    case Ended(i) => if i != id then h else if h.Open? then Closed(h.data) else Broken
    case _ => h
  }

  function HearAll(h: Heard, wire: seq<Wire>, id: nat): Heard
    decreases wire
  {
    if wire == [] then h else HearAll(Hear(h, wire[0], id), wire[1..], id)
  }

  lemma {:induction false} HearAppend(h: Heard, a: seq<Wire>, b: seq<Wire>, id: nat)
    ensures HearAll(h, a + b, id) == HearAll(HearAll(h, a, id), b, id)
    decreases a
  {
    if a == [] {
      assert a + b == b;
    } else {
      assert (a + b)[1..] == a[1..] + b;
      HearAppend(Hear(h, a[0], id), a[1..], b, id);
    }
  }

  lemma HearOne(h: Heard, m: Wire, id: nat)
    ensures HearAll(h, [m], id) == Hear(h, m, id)
  {
    assert [m][1..] == [];
    assert HearAll(Hear(h, m, id), [], id) == Hear(h, m, id);
  }

  lemma {:induction false} BrokenStays(wire: seq<Wire>, id: nat)
    ensures HearAll(Broken, wire, id) == Broken
  {
    if wire != [] {
      BrokenStays(wire[1..], id);
    }
  }

  /** All messages sent: those written and those still in the channel. */
  function Outgoing(s: State, id: nat): Heard {
    HearAll(HearAll(Unseen, s.written, id), s.queue, id)
  }

  // ------------------------------------------------------------------ the invariant

  /** The bytes of a stream that were read but are not on the wire yet. */
  function Held(r: Reading): bytes {
    if r.Holding? then r.segment else []
  }

  ghost predicate StreamOk(s: State, id: nat) {
    if id !in s.at then Outgoing(s, id) == Unseen
    else match s.at[id]
      case InAnnouncement => s.loop.Announcing? && id in s.loop.dto.ids && Outgoing(s, id) == Unseen
      case InRegistration => s.loop.Registering? && id in s.loop.ids && Outgoing(s, id) == Open([])
      case ReadBy(t) =>
        && t < |s.tasks| && s.tasks[t].Reader? && s.tasks[t].id == id
        && id in s.streams && id in s.read
        && (s.tasks[t].reading.Holding? ==> 1 <= |s.tasks[t].reading.segment| <= READ_SIZE)
        && (if s.tasks[t].reading.Finished? then Outgoing(s, id) == Closed(s.read[id])
            else Outgoing(s, id).Open? && Outgoing(s, id).data + Held(s.tasks[t].reading) == s.read[id])
  }

  ghost predicate TasksOk(s: State) {
    forall t | 0 <= t < |s.tasks| && s.tasks[t].Reader? ::
      s.tasks[t].id in s.at && s.at[s.tasks[t].id] == ReadBy(t)
  }

  ghost predicate Distinct(ids: seq<nat>) {
    forall i, j | 0 <= i < j < |ids| :: ids[i] != ids[j]
  }

  ghost predicate LoopOk(s: State) {
    match s.loop
    case Announcing(dto, _, _) =>
      Distinct(dto.ids) && forall id | id in dto.ids :: id in s.at && s.at[id] == InAnnouncement
    case Registering(ids, _, _) =>
      Distinct(ids) && forall id | id in ids :: id in s.at && s.at[id] == InRegistration
    case _ => true
  }

  ghost predicate Inv(s: State) {
    && (forall id: nat :: StreamOk(s, id))
    && TasksOk(s) && LoopOk(s)
    && (forall id | id in s.at :: id < s.draws)
    && (forall id | id in s.read :: id in s.at && s.at[id].ReadBy?)
  }

  lemma {:induction false} MessageIdsAreFresh(counter: nat, n: nat)
    requires counter + n <= ID_RANGE
    ensures forall i | 0 <= i < n :: MessageIds(counter, n)[i] == counter + i
  {
    if n > 0 {
      MessageIdsAreFresh(counter, n - 1);
    }
  }

  lemma MessagesSeen(s: State, s': State, m: Wire, id: nat)
    requires (s'.written == s.written && s'.queue == s.queue + [m])
             || (s'.written == s.written + [m] && s'.queue == s.queue && Hear(Outgoing(s, id), m, id) == Outgoing(s, id)
                 && (m.Answered? || m.Outbound?))
    ensures Outgoing(s', id) == Hear(Outgoing(s, id), m, id)
  {
    var w := HearAll(Unseen, s.written, id);
    if s'.queue == s.queue + [m] && s'.written == s.written {
      HearAppend(w, s.queue, [m], id);
      HearOne(HearAll(w, s.queue, id), m, id);
    } else {
      HearAppend(Unseen, s.written, [m], id);
      HearOne(w, m, id);
    }
  }

  lemma WriteOutKeepsHeard(s: State, id: nat)
    requires Enabled(s, WriteOut)
    ensures Outgoing(Apply(s, WriteOut), id) == Outgoing(s, id)
  {
    var w := HearAll(Unseen, s.written, id);
    HearAppend(Unseen, s.written, [s.queue[0]], id);
    HearOne(w, s.queue[0], id);
  }

  lemma AnnouncedInv(s: State, s': State, dto: StreamDto, pending: Option<Response>, rest: seq<Frame>)
    requires Inv(s) && s.loop.Batch?
    requires s' == s.(loop := Announcing(dto, pending, rest), draws := s.draws + |dto.ids|,
                      at := PlaceAll(s.at, dto.ids, InAnnouncement))
    requires Distinct(dto.ids)
    requires forall id | id in dto.ids :: s.draws <= id < s'.draws
    ensures Inv(s')
  {
    forall id: nat ensures StreamOk(s', id) {
      assert StreamOk(s, id);
      assert Outgoing(s', id) == Outgoing(s, id);
    }
  }

  /** A step of the loop after which no stream is elsewhere, and no stream message was sent. */
  lemma QuietInv(s: State, s': State)
    requires Inv(s) && s.loop.Batch? && !s'.loop.Announcing? && !s'.loop.Registering?
    requires s' == s.(loop := s'.loop, written := s'.written, tasks := s'.tasks)
    requires s'.written == s.written || exists v :: s'.written == s.written + [Answered(v)]
    requires s'.tasks == s.tasks || exists o :: s'.tasks == s.tasks + [Responder(o)]
    ensures Inv(s')
  {
    forall id: nat ensures StreamOk(s', id) {
      assert StreamOk(s, id);
      if s'.written != s.written {
        var v :| s'.written == s.written + [Answered(v)];
        MessagesSeen(s, s', Answered(v), id);
      }
    }
  }

  lemma AnnouncedIds(s: State, f: Frame, dto: StreamDto)
    requires ResultOf(s, f).Stream? && ResultOf(s, f).dto == Some(dto) && s.draws + |dto.ids| <= ID_RANGE
    ensures Distinct(dto.ids) && forall id | id in dto.ids :: s.draws <= id < s.draws + |dto.ids|
  {
    MessageIdsAreFresh(s.draws, |dto.ids|);
  }

  lemma StreamDispatchKeepsInv(s: State, dto: StreamDto)
    requires Inv(s) && Enabled(s, Dispatch) && Apply(s, Dispatch).draws <= ID_RANGE
    requires ResultOf(s, s.loop.frames[0]).Stream? && ResultOf(s, s.loop.frames[0]).dto == Some(dto)
    ensures Inv(Apply(s, Dispatch))
  {
    AnnouncedIds(s, s.loop.frames[0], dto);
    AnnouncedInv(s, Apply(s, Dispatch), dto, ResultOf(s, s.loop.frames[0]).response, s.loop.frames[1..]);
  }

  lemma DispatchKeepsInv(s: State)
    requires Inv(s) && Enabled(s, Dispatch) && Apply(s, Dispatch).draws <= ID_RANGE
    ensures Inv(Apply(s, Dispatch))
  {
    match ResultOf(s, s.loop.frames[0])
    case Stream(Some(dto), _) => StreamDispatchKeepsInv(s, dto);
    case Stream(None, _) => QuietInv(s, Apply(s, Dispatch));
    case Now(_) => QuietInv(s, Apply(s, Dispatch));
    case Later(_) => QuietInv(s, Apply(s, Dispatch));
    case Panicked => QuietInv(s, Apply(s, Dispatch));
  }

  lemma PushKeepsInv(s: State)
    requires Inv(s) && Enabled(s, Push)
    ensures Inv(Apply(s, Push))
  {
    var s' := Apply(s, Push);
    var m := s'.queue[|s.queue|];
    forall id: nat ensures StreamOk(s', id) {
      assert StreamOk(s, id);
      MessagesSeen(s, s', m, id);
    }
  }

  lemma RegisterKeepsInv(s: State)
    requires Inv(s) && Enabled(s, Register)
    ensures Inv(Apply(s, Register))
  {
    var s' := Apply(s, Register);
    assert s.loop.ids != [] ==> s.loop.ids[0] in s.loop.ids;
    forall id: nat ensures StreamOk(s', id) {
      assert StreamOk(s, id);
      if s.loop.ids != [] && id in s.loop.ids && id != s.loop.ids[0] {
        var i :| 0 <= i < |s.loop.ids| && s.loop.ids[i] == id;
        assert s.loop.ids[1..][i - 1] == id;
      }
    }
  }

  lemma ReaderKeepsInv(s: State, a: Step)
    requires Inv(s) && Enabled(s, a) && (a.ReadSome? || a.ReadEnd?)
    ensures Inv(Apply(s, a))
  {
    var s' := Apply(s, a);
    var id' := s.tasks[a.t].id;
    assert StreamOk(s, id');
    forall id: nat ensures StreamOk(s', id) {
      assert StreamOk(s, id);
    }
  }

  lemma PushReadKeepsInv(s: State, t: nat)
    requires Inv(s) && Enabled(s, PushRead(t))
    ensures Inv(Apply(s, PushRead(t)))
  {
    var s' := Apply(s, PushRead(t));
    var m := s'.queue[|s.queue|];
    assert StreamOk(s, s.tasks[t].id);
    forall id: nat ensures StreamOk(s', id) {
      assert StreamOk(s, id);
      MessagesSeen(s, s', m, id);
    }
  }

  lemma OtherKeepsInv(s: State, a: Step)
    requires Inv(s) && Enabled(s, a)
    requires a.Receive? || a.EndBatch? || a.WriteOut? || a.WriteOutbound? || a.Respond? || a.OtherDraw?
    ensures Inv(Apply(s, a))
  {
    var s' := Apply(s, a);
    forall id: nat ensures StreamOk(s', id) {
      assert StreamOk(s, id);
      if a.WriteOut? {
        WriteOutKeepsHeard(s, id);
      } else if a.WriteOutbound? {
        MessagesSeen(s, s', Outbound, id);
      } else if a.Respond? && s.tasks[a.t].response.Some? {
        MessagesSeen(s, s', Answered(s.tasks[a.t].response.value), id);
      }
    }
  }

  lemma StepKeepsInv(s: State, a: Step)
    requires Inv(s) && Enabled(s, a) && Apply(s, a).draws <= ID_RANGE
    ensures Inv(Apply(s, a))
  {
    match a
    case Dispatch => DispatchKeepsInv(s);
    case Push => PushKeepsInv(s);
    case Register => RegisterKeepsInv(s);
    case ReadSome(_, _) => ReaderKeepsInv(s, a);
    case ReadEnd(_) => ReaderKeepsInv(s, a);
    case PushRead(t) => PushReadKeepsInv(s, t);
    case _ => OtherKeepsInv(s, a);
  }

  lemma {:induction false} DrawsGrow(s: State, run: seq<Step>)
    requires Run(s, run)
    ensures s.draws <= After(s, run).draws
    decreases |run|
  {
    if run != [] {
      DrawsGrow(Apply(s, run[0]), run[1..]);
    }
  }

  lemma {:induction false} RunKeepsInv(s: State, run: seq<Step>)
    requires Inv(s) && Run(s, run) && After(s, run).draws <= ID_RANGE
    ensures Inv(After(s, run))
    decreases |run|
  {
    if run != [] {
      DrawsGrow(Apply(s, run[0]), run[1..]);
      StepKeepsInv(s, run[0]);
      RunKeepsInv(Apply(s, run[0]), run[1..]);
    }
  }

  /**
   * For any interleaving, as long as fewer than 2^32 ids were drawn: what the peer is sent of a
   * stream is its announcement, then non-empty segments of at most 4096 bytes which together are
   * the bytes read from the stream so far (but for a segment still in the reader's hands), then at
   * most one end, and that only after all bytes read.  What was written by any time obeys this too.
   */
  lemma StreamsGoOutInOrder(direct: bool, methods: map<string, Method>, run: seq<Step>, id: nat)
    requires Run(Init(direct, methods), run) && After(Init(direct, methods), run).draws <= ID_RANGE
    ensures var s := After(Init(direct, methods), run); var h := Outgoing(s, id);
            && h != Broken && HearAll(Unseen, s.written, id) != Broken
            && (h.Open? && id in s.read ==>
                  exists t: nat :: t < |s.tasks| && s.tasks[t].Reader? && s.tasks[t].id == id
                    && h.data + Held(s.tasks[t].reading) == s.read[id])
            && (h.Closed? ==> id in s.read && h.data == s.read[id])
  {
    RunKeepsInv(Init(direct, methods), run);
    var s := After(Init(direct, methods), run);
    assert StreamOk(s, id);
    BrokenStays(s.queue, id);
    if Outgoing(s, id).Open? && id in s.read {
      assert s.tasks[s.at[id].task].id == id;
    }
  }

  /** Before the next frame is dispatched, every stream announced so far is in the stream table. */
  lemma InsertedBeforeNextDispatch(direct: bool, methods: map<string, Method>, run: seq<Step>, id: nat)
    requires Run(Init(direct, methods), run) && After(Init(direct, methods), run).draws <= ID_RANGE
    requires Enabled(After(Init(direct, methods), run), Dispatch)
    ensures var s := After(Init(direct, methods), run);
            Outgoing(s, id) != Unseen ==> id in s.streams
  {
    RunKeepsInv(Init(direct, methods), run);
    assert StreamOk(After(Init(direct, methods), run), id);
  }
}
