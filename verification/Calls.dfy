/**
 * Outbound calls and their replies.  A call draws an id, sends its request and only then files its
 * callback; replies are dispatched by another task, between any two of these steps.
 */
module Calls {
  import opened Common

  datatype Phase<+R> =
    | Drawn                    // has its id
    | Sent                     // the request is on its way, the callback is not filed yet
    | Waiting                  // the callback is filed
    | Completed(reply: R)
    | Dropped                  // the caller sees a closed channel

  /** `draw` is the number of ids handed out before this call took its own. */
  datatype CallRec<+R> = CallRec(draw: nat, phase: Phase<R>) {
    function Id(): nat { MessageId(draw) }
  }

  datatype State<+R> = State(draws: nat, calls: seq<CallRec<R>>, callbacks: map<nat, nat>)

  datatype Step<+R> =
    | Begin
    | OtherDraw                // a stream takes an id from the same counter
    | Send(c: nat, ok: bool)
    | File(c: nat)
    | Reply(id: nat, reply: R)

  ghost predicate Enabled<R>(s: State<R>, a: Step<R>) {
    match a
    case Send(c, _) => c < |s.calls| && s.calls[c].phase.Drawn?
    case File(c) => c < |s.calls| && s.calls[c].phase.Sent?
    case _ => true
  }

  function SetPhase<R>(calls: seq<CallRec<R>>, c: nat, p: Phase<R>): seq<CallRec<R>> {
    if c < |calls| then calls[c := calls[c].(phase := p)] else calls
  }

  ghost function Apply<R>(s: State<R>, a: Step<R>): State<R>
    requires Enabled(s, a)
  {
    match a
    case Begin => s.(draws := s.draws + 1, calls := s.calls + [CallRec(s.draws, Drawn)])
    case OtherDraw => s.(draws := s.draws + 1)
    case Send(c, ok) => s.(calls := SetPhase(s.calls, c, if ok then Sent else Dropped))
    case File(c) =>
      var id := s.calls[c].Id();
      var rest := if id in s.callbacks then SetPhase(s.calls, s.callbacks[id], Dropped) else s.calls;
      s.(calls := SetPhase(rest, c, Waiting), callbacks := s.callbacks[id := c])
    case Reply(id, reply) =>
      if id in s.callbacks then
        s.(calls := SetPhase(s.calls, s.callbacks[id], Completed(reply)),
           callbacks := s.callbacks - {id})
      else s
  }

  ghost predicate Run<R>(s: State<R>, run: seq<Step<R>>)
    decreases |run|
  {
    run == [] || (Enabled(s, run[0]) && Run(Apply(s, run[0]), run[1..]))
  }

  ghost function After<R>(s: State<R>, run: seq<Step<R>>): State<R>
    requires Run(s, run)
    decreases |run|
  {
    if run == [] then s else After(Apply(s, run[0]), run[1..])
  }

  // ------------------------------------------------------------------ the invariant

  /** A callback is filed under an id exactly while the call with that id waits. */
  ghost predicate Inv<R>(s: State<R>) {
    && (forall c, c' | 0 <= c < c' < |s.calls| :: s.calls[c].draw < s.calls[c'].draw)
    && (forall c | 0 <= c < |s.calls| :: s.calls[c].draw < s.draws)
    && (forall id | id in s.callbacks :: s.callbacks[id] < |s.calls|
          && s.calls[s.callbacks[id]].phase.Waiting? && s.calls[s.callbacks[id]].Id() == id)
    && (forall c | 0 <= c < |s.calls| && s.calls[c].phase.Waiting? ::
          s.calls[c].Id() in s.callbacks && s.callbacks[s.calls[c].Id()] == c)
  }

  lemma IdsAreUnique<R>(s: State<R>, c: nat, c': nat)
    requires Inv(s) && s.draws <= ID_RANGE && c < |s.calls| && c' < |s.calls|
    ensures s.calls[c].Id() == s.calls[c'].Id() <==> c == c'
  {
  }

  lemma StepKeepsInv<R>(s: State<R>, a: Step<R>)
    requires Inv(s) && Enabled(s, a) && s.draws <= ID_RANGE
    ensures Inv(Apply(s, a))
  {
    match a
    case File(c) => FileKeepsInv(s, c);
    case Reply(id, reply) => ReplyKeepsInv(s, id, reply);
    case _ =>
  }

  lemma FileKeepsInv<R>(s: State<R>, c: nat)
    requires Inv(s) && Enabled(s, File(c)) && s.draws <= ID_RANGE
    ensures Inv(Apply(s, File(c)))
  {
    var id := s.calls[c].Id();
    if id in s.callbacks {
      IdsAreUnique(s, c, s.callbacks[id]);
    }
    forall c' | 0 <= c' < |s.calls| ensures s.calls[c'].Id() == id <==> c' == c {
      IdsAreUnique(s, c', c);
    }
  }

  lemma ReplyKeepsInv<R>(s: State<R>, id: nat, reply: R)
    requires Inv(s)
    ensures Inv(Apply(s, Reply(id, reply)))
  {
  }

  lemma DrawsGrow<R>(s: State<R>, run: seq<Step<R>>)
    requires Run(s, run)
    ensures s.draws <= After(s, run).draws
    ensures |s.calls| <= |After(s, run).calls|
    ensures forall c | 0 <= c < |s.calls| :: After(s, run).calls[c].draw == s.calls[c].draw
    decreases |run|
  {
    if run != [] {
      DrawsGrow(Apply(s, run[0]), run[1..]);
    }
  }

  // ------------------------------------------------------------------ the ids of the calls

  /** How many ids the steps of a run draw from the counter. */
  function Draws<R>(run: seq<Step<R>>): nat {
    if run == [] then 0 else (if run[0].Begin? || run[0].OtherDraw? then 1 else 0) + Draws(run[1..])
  }

  lemma {:induction false} DrawsCounted<R>(s: State<R>, run: seq<Step<R>>)
    requires Run(s, run)
    ensures After(s, run).draws == s.draws + Draws(run)
    decreases |run|
  {
    if run != [] {
      DrawsCounted(Apply(s, run[0]), run[1..]);
    }
  }

  /** A call that begins after a run gets the next id, whoever drew the earlier ones. */
  lemma NextCallId<R>(run: seq<Step<R>>)
    requires Run(State(0, [], map[]), run)
    ensures var s := After(State(0, [], map[]), run); var s' := Apply(s, Begin);
            && |s'.calls| == |s.calls| + 1 && s'.calls[|s.calls|].phase.Drawn?
            && s'.calls[|s.calls|].Id() == Draws(run) % 0x1_0000_0000
  {
    DrawsCounted(State(0, [], map[]), run);
  }

  /**
   * Once the counter has wrapped, a call can file its callback under the id of one that still
   * waits: the older call is dropped, and the next reply under that id goes to the newer one.
   */
  lemma WrappedIdDropsOlderCall<R>(s: State<R>, c: nat, d: nat, reply: R)
    requires c < d < |s.calls| && s.calls[c].draw <= s.calls[d].draw
    requires (s.calls[d].draw - s.calls[c].draw) % 0x1_0000_0000 == 0
    requires s.calls[c].phase.Waiting? && s.calls[d].phase.Sent?
    requires s.calls[c].Id() in s.callbacks && s.callbacks[s.calls[c].Id()] == c
    ensures var filed := Apply(s, File(d)); var replied := Apply(filed, Reply(s.calls[c].Id(), reply));
            && |replied.calls| == |filed.calls| == |s.calls|
            && filed.calls[c].phase.Dropped? && filed.calls[d].phase.Waiting?
            && replied.calls[c].phase.Dropped? && replied.calls[d].phase == Completed(reply)
  {
    var i, j := s.calls[c].draw, s.calls[d].draw;
    assert j == i + ID_RANGE * ((j - i) / ID_RANGE);
    assert s.calls[c].Id() == s.calls[d].Id();
  }

  // ------------------------------------------------------------------ one step of one call

  /**
   * A call changes phase only by its own steps or by the dispatch of a reply under its own id;
   * once completed it stays as it is.
   */
  lemma CallStep<R>(s: State<R>, a: Step<R>, c: nat)
    requires Inv(s) && Enabled(s, a) && s.draws <= ID_RANGE && c < |s.calls|
    ensures c < |Apply(s, a).calls| && Apply(s, a).calls[c].draw == s.calls[c].draw
    ensures Apply(s, a).calls[c].phase ==
            if a.Send? && a.c == c then (if a.ok then Sent else Dropped)
            else if a.File? && a.c == c then Waiting
            else if a.Reply? && a.id == s.calls[c].Id() && s.calls[c].phase.Waiting? then Completed(a.reply)
            else s.calls[c].phase
  {
    if a.File? && s.calls[a.c].Id() in s.callbacks {
      IdsAreUnique(s, a.c, s.callbacks[s.calls[a.c].Id()]);
    }
  }

  /** The reply that a run brings to a call: the first one dispatched while its callback is filed. */
  ghost function ReplyFor<R>(run: seq<Step<R>>, c: nat, id: nat, filed: bool): Option<R>
    decreases |run|
  {
    if run == [] then None
    else if run[0].Reply? && run[0].id == id && filed then Some(run[0].reply)
    else ReplyFor(run[1..], c, id, filed || run[0] == File(c))
  }

  /**
   * Correlation over whole runs, while fewer than 2^32 ids are drawn: a call completes at most
   * once, exactly when a reply under its own id is dispatched after its callback was filed, and
   * with the first such reply.
   */
  lemma {:induction false} CompletedByOwnReply<R>(s: State<R>, run: seq<Step<R>>, c: nat)
    requires Inv(s) && Run(s, run) && After(s, run).draws <= ID_RANGE && c < |s.calls|
    ensures c < |After(s, run).calls|
    ensures var before, after := s.calls[c].phase, After(s, run).calls[c].phase;
            if before.Completed? || before.Dropped? then after == before
            else match ReplyFor(run, c, s.calls[c].Id(), before.Waiting?)
              case Some(reply) => after == Completed(reply)
              case None => !after.Completed?
    decreases |run|
  {
    if run != [] {
      var s' := Apply(s, run[0]);
      DrawsGrow(s', run[1..]);
      StepKeepsInv(s, run[0]);
      CallStep(s, run[0], c);
      CompletedByOwnReply(s', run[1..], c);
      if run[0] == Send(c, false) {
        NeverFiled(s', run[1..], c);
      }
    }
  }

  /** A call whose request was not sent never files a callback. */
  lemma {:induction false} NeverFiled<R>(s: State<R>, run: seq<Step<R>>, c: nat)
    requires Inv(s) && Run(s, run) && After(s, run).draws <= ID_RANGE && c < |s.calls|
    requires s.calls[c].phase.Dropped? || s.calls[c].phase.Completed?
    ensures ReplyFor(run, c, s.calls[c].Id(), false) == None
    decreases |run|
  {
    if run != [] {
      var s' := Apply(s, run[0]);
      DrawsGrow(s', run[1..]);
      StepKeepsInv(s, run[0]);
      CallStep(s, run[0], c);
      NeverFiled(s', run[1..], c);
    }
  }

  /** `ReplyFor` in plain words: some reply under the id comes after the callback was filed. */
  lemma {:induction false} ReplyAfterFiling<R>(run: seq<Step<R>>, c: nat, id: nat, filed: bool)
    ensures ReplyFor(run, c, id, filed).Some? <==>
            exists j :: 0 <= j < |run| && run[j].Reply? && run[j].id == id
              && (filed || File(c) in run[..j])
    decreases |run|
  {
    if run != [] {
      var filed' := filed || run[0] == File(c);
      ReplyAfterFiling(run[1..], c, id, filed');
      if ReplyFor(run, c, id, filed).Some? {
        if run[0].Reply? && run[0].id == id && filed {
          assert run[0].Reply?;
        } else {
          var j :| 0 <= j < |run[1..]| && run[1..][j].Reply? && run[1..][j].id == id
                   && (filed' || File(c) in run[1..][..j]);
          assert run[j + 1] == run[1..][j] && run[..j + 1] == [run[0]] + run[1..][..j];
          assert filed || File(c) in run[..j + 1];
        }
      }
      if j :| 0 <= j < |run| && run[j].Reply? && run[j].id == id && (filed || File(c) in run[..j]) {
        if j > 0 {
          assert run[..j] == [run[0]] + run[1..][..j - 1] && run[1..][j - 1] == run[j];
        }
      }
    }
  }

  /** A reply that overtakes the filing is lost: the call waits on although it was answered. */
  lemma EarlyReplyIsLost<R>(reply: R)
    ensures var run := [Begin, Send(0, true), Reply(0, reply), File(0)];
            var init := State(0, [], map[]);
            Run(init, run) && After(init, run).calls == [CallRec(0, Waiting)]
  {
    var init: State<R> := State(0, [], map[]);
    var s1 := Apply(init, Begin);
    var s2 := Apply(s1, Send(0, true));
    var s3 := Apply(s2, Reply(0, reply));
    var s4 := Apply(s3, File(0));
    var run := [Begin, Send(0, true), Reply(0, reply), File(0)];
    assert run[1..] == [Send(0, true), Reply(0, reply), File(0)];
    assert run[1..][1..] == [Reply(0, reply), File(0)];
    assert run[1..][1..][1..] == [File(0)];
    assert Run(s4, []) && Run(s3, [File(0)]);
    assert Run(s2, [Reply(0, reply), File(0)]) && Run(s1, run[1..]);
    assert After(s3, [File(0)]) == s4 && After(s2, [Reply(0, reply), File(0)]) == s4;
  }
}
