/**
 * Every call of a duplex method is announced once, under the id of its request, with as many
 * streams as the method was registered with.
 */
module TransportAnnouncements {
  import opened Common
  import opened Rpc
  import opened Transport
  import opened TransportProgress

  /** An announcement of `streams` streams for the request `reqId`. */
  datatype Notice = Notice(reqId: nat, streams: nat)

  function OneIf(b: bool): nat { if b then 1 else 0 }

  /** Whether a frame calls for the announcement: its method, its parameters and its id say so. */
  predicate CallsFor(methods: map<string, Method>, f: Frame, a: Notice) {
    && Announces(methods, f)
    && Registered(methods, f.msg.value) == Some(Duplex(a.streams))
    && a.reqId == (if f.msg.value.id.Some? then f.msg.value.id.value else 0)
  }

  function CalledFor(methods: map<string, Method>, frames: seq<Frame>, a: Notice): nat {
    if frames == [] then 0 else OneIf(CallsFor(methods, frames[0], a)) + CalledFor(methods, frames[1..], a)
  }

  predicate Tells(m: Wire, a: Notice) { m.Started? && m.reqId == a.reqId && |m.ids| == a.streams }

  function Told(wire: seq<Wire>, a: Notice): nat {
    if wire == [] then 0 else OneIf(Tells(wire[0], a)) + Told(wire[1..], a)
  }

  /** Announcements the loop still owes. */
  function Owed(methods: map<string, Method>, loop: Loop, a: Notice): nat {
    CalledFor(methods, FramesLeft(loop), a)
    + OneIf(loop.Announcing? && Tells(Started(loop.dto.reqId, loop.dto.ids), a))
  }

  ghost predicate Balanced(s: State, a: Notice) {
    CalledFor(s.methods, s.input, a) == Told(s.written, a) + Told(s.queue, a) + Owed(s.methods, s.loop, a)
  }

  lemma {:induction false} ToldSnoc(wire: seq<Wire>, m: Wire, a: Notice)
    ensures Told(wire + [m], a) == Told(wire, a) + OneIf(Tells(m, a))
  {
    if wire == [] {
      assert [m][1..] == [];
    } else {
      assert (wire + [m])[1..] == wire[1..] + [m];
      ToldSnoc(wire[1..], m, a);
    }
  }

  lemma {:induction false} CalledForAppend(methods: map<string, Method>, x: seq<Frame>, y: seq<Frame>, a: Notice)
    ensures CalledFor(methods, x + y, a) == CalledFor(methods, x, a) + CalledFor(methods, y, a)
  {
    if x == [] {
      assert x + y == y;
    } else {
      assert (x + y)[1..] == x[1..] + y;
      CalledForAppend(methods, x[1..], y, a);
    }
  }

  /** A dispatch takes an announcement in hand exactly when its frame calls for it. */
  lemma DispatchBalances(s: State, a: Notice)
    requires Balanced(s, a) && Enabled(s, Dispatch)
    ensures Balanced(Apply(s, Dispatch), a)
  {
    var f := s.loop.frames[0];
    DispatchKind(s, f);
    if f.msg.Some? {
      AnsweredByKind(s.methods, f.msg.value, f.cb, s.draws);
    }
    var r := ResultOf(s, f);
    if r.Now? && r.response.Some? {
      ToldSnoc(s.written, Answered(r.response.value), a);
    }
  }

  lemma PushBalances(s: State, a: Notice)
    requires Balanced(s, a) && Enabled(s, Push)
    ensures Balanced(Apply(s, Push), a)
  {
    match s.loop
    case Sending(v, _) => ToldSnoc(s.queue, Answered(v), a);
    case Announcing(dto, _, _) => ToldSnoc(s.queue, Started(dto.reqId, dto.ids), a);
  }

  lemma TaskBalances(s: State, step: Step, a: Notice)
    requires Balanced(s, a) && Enabled(s, step) && (step.Respond? || step.PushRead?)
    ensures Balanced(Apply(s, step), a)
  {
    var t := s.tasks[step.t];
    if step.Respond? {
      if t.response.Some? {
        ToldSnoc(s.queue, Answered(t.response.value), a);
      }
    } else if t.reading.Holding? {
      ToldSnoc(s.queue, Data(t.id, t.reading.segment), a);
    } else {
      ToldSnoc(s.queue, Ended(t.id), a);
    }
  }

  lemma StepBalances(s: State, step: Step, a: Notice)
    requires Balanced(s, a) && Enabled(s, step)
    ensures Balanced(Apply(s, step), a)
  {
    match step
    case Receive(frames) => CalledForAppend(s.methods, s.input, frames, a);
    case Dispatch => DispatchBalances(s, a);
    case Push => PushBalances(s, a);
    case WriteOut => ToldSnoc(s.written, s.queue[0], a);
    case WriteOutbound => ToldSnoc(s.written, Outbound, a);
    case Respond(_) => TaskBalances(s, step, a);
    case PushRead(_) => TaskBalances(s, step, a);
    case _ =>
  }

  lemma {:induction false} RunBalances(s: State, run: seq<Step>, a: Notice)
    requires Balanced(s, a) && Run(s, run)
    ensures Balanced(After(s, run), a)
    decreases |run|
  {
    if run != [] {
      StepBalances(s, run[0], a);
      RunBalances(Apply(s, run[0]), run[1..], a);
    }
  }

  /**
   * Over every run of either transport, streams are announced for a request at most as often as
   * calls of a duplex method with that id and that many streams came in; and, whenever the loop
   * is in its select and the channel is empty, exactly as often.
   */
  lemma AnnouncedExactlyOnce(direct: bool, methods: map<string, Method>, run: seq<Step>, a: Notice)
    requires Run(Init(direct, methods), run)
    ensures var s := After(Init(direct, methods), run);
            && Told(s.written, a) <= CalledFor(s.methods, s.input, a)
            && (s.loop.Idle? && s.queue == [] ==> Told(s.written, a) == CalledFor(s.methods, s.input, a))
  {
    RunBalances(Init(direct, methods), run, a);
  }
}
