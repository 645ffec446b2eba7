/**
 * The RPC dispatcher: what one incoming message leads to, for the three kinds of methods, and the
 * table of outbound calls that waits for replies.
 */
module Rpc {
  import opened Common

  /** The part of a message that decides what it is. */
  datatype Incoming = Incoming(id: Option<nat>, method_: Option<string>, error: Option<string>)

  /** A registered method; a duplex method opens a fixed number of streams. */
  datatype Method = Sync | Async | Duplex(streams: nat)

  /** What the message's parameters and the method's callback turn out to be. */
  datatype Callback = Callback(paramsError: Option<string>, result: Result<string, string>)

  datatype Response =
    | Success(id: nat, result: string)
    | Failure(id: nat, code: int, message: string)

  /** Streams opened for a request. */
  datatype StreamDto = StreamDto(reqId: nat, ids: seq<nat>)

  /** A dispatch answers at once, or with a future, or with streams and a future; or it panics. */
  datatype MaybeSync =
    | Now(response: Option<Response>)
    | Later(response: Option<Response>)
    | Stream(dto: Option<StreamDto>, response: Option<Response>)
    | Panicked

  function Answer(id: Option<nat>, cb: Callback): Option<Response> {
    match id
    case None => None
    case Some(i) =>
      if cb.paramsError.Some? then Some(Failure(i, 0, cb.paramsError.value))
      else match cb.result
        case Ok(v) => Some(Success(i, v))
        case Err(e) => Some(Failure(i, -1, e))
  }

  function MessageIds(counter: nat, n: nat): (ids: seq<nat>)
    ensures |ids| == n
  {
    if n == 0 then [] else MessageIds(counter, n - 1) + [MessageId(counter + n - 1)]
  }

  function Dispatched(methods: map<string, Method>, m: Incoming, cb: Callback, counter: nat): MaybeSync {
    if m.method_.Some? then
      if m.method_.value in methods then
        match methods[m.method_.value]
        case Sync => Now(Answer(m.id, cb))
        case Async => Later(Answer(m.id, cb))
        case Duplex(n) =>
          if cb.paramsError.Some? then Stream(None, Answer(m.id, cb))
          else
            var reqId := if m.id.Some? then m.id.value else 0;
            Stream(Some(StreamDto(reqId, MessageIds(counter, n))), Answer(m.id, cb))
      else
        Now(if m.id.Some? then Some(Failure(m.id.value, -1, "Method not found: " + m.method_.value)) else None)
    else if m.id.None? then Panicked
    else Now(None)
  }

  /** How many ids a dispatch draws from the counter. */
  function Drawn(r: MaybeSync): nat {
    if r.Stream? && r.dto.Some? then |r.dto.value.ids| else 0
  }

  /** The one response of a message, whether it comes at once or later. */
  function ResponseOf(r: MaybeSync): Option<Response> {
    if r.Panicked? then None else r.response
  }

  /**
   * Exactly the requests that carry an id are answered, once and under their own id, with a
   * success just when the method exists, its parameters are right and its callback succeeds.
   */
  lemma AnsweredExactlyWhenAsked(
    methods: map<string, Method>, m: Incoming, cb: Callback, counter: nat)
    ensures var r := Dispatched(methods, m, cb, counter); var response := ResponseOf(r);
            && (response.Some? <==> m.method_.Some? && m.id.Some?)
            && (response.Some? ==> response.value.id == m.id.value)
            && (response.Some? && response.value.Success? <==>
                  m.method_.Some? && m.id.Some? && m.method_.value in methods
                  && cb.paramsError.None? && cb.result.Ok?)
            && (response.Some? && response.value.Success? ==> cb.result == Ok(response.value.result))
            && (response.Some? && response.value.Failure? ==>
                  && response.value.code in {0, -1}
                  && (response.value.code == 0 <==> m.method_.value in methods && cb.paramsError.Some?)
                  && (response.value.code == 0 ==> cb.paramsError == Some(response.value.message))
                  && (response.value.code == -1 && m.method_.value in methods ==>
                        cb.result == Err(response.value.message))
                  && (m.method_.value !in methods ==>
                        response.value.message == "Method not found: " + m.method_.value))
            && (r.Panicked? <==> m.method_.None? && m.id.None?)
  {
  }

  /** The registered method that a message calls. */
  function Registered(methods: map<string, Method>, m: Incoming): Option<Method> {
    if m.method_.Some? && m.method_.value in methods then Some(methods[m.method_.value]) else None
  }

  /** The ids of the streams that a message opens: the next ones of the 32-bit counter. */
  ghost predicate ConsecutiveIds(ids: seq<nat>, counter: nat, n: nat) {
    |ids| == n && forall k | 0 <= k < n :: ids[k] == (counter + k) % 0x1_0000_0000
  }

  lemma {:induction false} MessageIdsFollow(counter: nat, n: nat)
    ensures ConsecutiveIds(MessageIds(counter, n), counter, n)
  {
    if n > 0 {
      MessageIdsFollow(counter, n - 1);
    }
  }

  /**
   * In which way a message is answered follows from the kind of its method alone: a registered
   * async method answers from a future; a duplex one too, and opens its streams exactly when its
   * parameters are right; everything else is settled at once.
   */
  lemma AnsweredByKind(methods: map<string, Method>, m: Incoming, cb: Callback, counter: nat)
    ensures var r := Dispatched(methods, m, cb, counter); var kind := Registered(methods, m);
            && (r.Later? <==> kind == Some(Async))
            && (r.Stream? <==> kind.Some? && kind.value.Duplex?)
            && (r.Stream? ==> (r.dto.Some? <==> cb.paramsError.None?))
            && (r.Stream? && r.dto.Some? ==>
                  && ConsecutiveIds(r.dto.value.ids, counter, kind.value.streams)
                  && r.dto.value.reqId == (if m.id.Some? then m.id.value else 0))
            && (r.Panicked? <==> m.method_.None? && m.id.None?)
            && (r.Now? <==> (m.method_.Some? || m.id.Some?) && kind in {None, Some(Sync)})
            && Drawn(r) == (if kind.Some? && kind.value.Duplex? && cb.paramsError.None? then kind.value.streams else 0)
  {
    var kind := Registered(methods, m);
    if kind.Some? && kind.value.Duplex? {
      MessageIdsFollow(counter, kind.value.streams);
    }
  }

  lemma NextId(k: nat)
    ensures MessageId(k + 1) == (MessageId(k) + 1) % ID_RANGE
  {
  }

  datatype Outcome = Replied(body: string) | Failed(error: string)

  class Dispatcher {
    const methods: map<string, Method>
    var counter: nat                      // MESSAGE_ID_COUNTER, a 32-bit atomic
    var calls: map<nat, nat>              // callbacks waiting for a reply, by message id
    var completed: seq<(nat, Outcome)>    // callbacks that were run
    var poisoned: bool                    // a panic happened under the lock of `calls`

    constructor (methods: map<string, Method>)
      ensures this.methods == methods && counter == 0 && calls == map[] && completed == [] && !poisoned
    {
      this.methods := methods;
      counter, calls, completed, poisoned := 0, map[], [], false;
    }

    method NextMessageId() returns (id: nat)
      requires counter < ID_RANGE
      modifies this`counter
      ensures id == old(counter) && counter == (old(counter) + 1) % ID_RANGE
    {
      id := counter;
      counter := (counter + 1) % ID_RANGE;
    }

    method DrawIds(n: nat) returns (ids: seq<nat>)
      requires counter < ID_RANGE
      modifies this`counter
      ensures ids == MessageIds(old(counter), n) && counter == (old(counter) + n) % ID_RANGE
    {
      ids := [];
      for k := 0 to n
        invariant counter == MessageId(old(counter) + k)
        invariant ids == MessageIds(old(counter), k)
      {
        NextId(old(counter) + k);
        var id := NextMessageId();
        ids := ids + [id];
      }
    }

    /**
     * An outbound call: its callback is filed only after the request was sent; with a poisoned lock
     * that panics.
     */
    method Call(callback: nat, sendOk: bool) returns (id: nat, panicked: bool)
      requires counter < ID_RANGE
      modifies this
      ensures id == old(counter) && counter == (old(counter) + 1) % ID_RANGE
      ensures panicked <==> sendOk && old(poisoned)
      ensures calls == if sendOk && !panicked then old(calls)[id := callback] else old(calls)
      ensures completed == old(completed) && poisoned == old(poisoned)
    {
      panicked := false;
      id := NextMessageId();
      if !sendOk {
        return;
      }
      if poisoned {
        panicked := true;
        return;
      }
      calls := calls[id := callback];
    }

    method DispatchWithPartial(m: Incoming, body: string, cb: Callback) returns (r: MaybeSync)
      requires counter < ID_RANGE
      modifies this
      ensures r == if m.method_.None? && old(poisoned) then Panicked else Dispatched(methods, m, cb, old(counter))
      ensures poisoned <==> old(poisoned) || r.Panicked?
      ensures counter == (old(counter) + Drawn(r)) % ID_RANGE
      ensures if m.method_.None? && !poisoned && m.id.value in old(calls) then
                && calls == old(calls) - {m.id.value}
                && completed == old(completed) + [(old(calls)[m.id.value],
                     if m.error.Some? then Failed(m.error.value) else Replied(body))]
              else calls == old(calls) && completed == old(completed)
    {
      match m.method_
      case Some(name) =>
        if name !in methods {
          return Now(if m.id.Some? then Some(Failure(m.id.value, -1, "Method not found: " + name)) else None);
        }
        match methods[name] {
          case Sync => r := Now(Answer(m.id, cb));
          case Async => r := Later(Answer(m.id, cb));
          case Duplex(n) =>
            if cb.paramsError.Some? {
              return Stream(None, Answer(m.id, cb));
            }
            var ids := DrawIds(n);
            r := Stream(Some(StreamDto(if m.id.Some? then m.id.value else 0, ids)), Answer(m.id, cb));
        }
      case None =>
        if poisoned {
          return Panicked;
        }
        if m.id.None? {
          poisoned := true;
          return Panicked;
        }
        if m.id.value in calls {
          var callback := calls[m.id.value];
          calls := calls - {m.id.value};
          var outcome := if m.error.Some? then Failed(m.error.value) else Replied(body);
          completed := completed + [(callback, outcome)];
        }
        r := Now(None);
    }
  }
}
