/**
 * Write loops, ends and inserts on one stream table, interleaved in any order.
 *
 * Every section under the table's lock is one step, and so is every piece of a segment that a
 * `write_all` manages to hand to its pipe; a step may be taken by any task at any time.  Besides
 * what the program holds, the state records its history: for each pipe who holds its half, which
 * segments were accepted for it, and what became of their bytes, in order.
 */
module StreamProtocol {
  import opened Common
  import opened Streams

  datatype Phase = Looping(items: seq<bytes>) | Closing | Done

  /** A spawned write loop, or a `remove` that still has to shut its half down. */
  datatype Task = Task(id: nat, w: nat, phase: Phase)

  datatype Owner = InTable | HeldBy(task: nat) | ClosedBy(task: nat) | Shut

  datatype Fate = Delivered(data: bytes) | Discarded(data: bytes)

  /** One duplex pipe; its half is named by its index in `State.pipes`. */
  datatype PipeRec = PipeRec(
    id: nat, delivered: bytes, shutdowns: nat,
    owner: Owner, accepted: seq<bytes>, fates: seq<Fate>)

  datatype State = State(
    table: Table<nat>, tasks: seq<Task>, pipes: seq<PipeRec>, current: map<nat, nat>)

  datatype Step =
    | Insert(id: nat)
    | Write(id: nat, buf: bytes)
    | Remove(id: nat)
    | Turn(t: nat)             // a write loop takes its turn under the lock
    | Send(t: nat, n: nat)     // a write loop gets n more bytes of its first segment through
    | Fail(t: nat)             // the write fails: the rest of the batch is dropped
    | Shutdown(t: nat)

  const INIT := State(map[], [], [], map[])

  ghost predicate Enabled(s: State, a: Step) {
    match a
    case Insert(_) => true
    case Write(_, _) => true
    case Remove(_) => true
    case Turn(t) => t < |s.tasks| && s.tasks[t].phase == Looping([])
    case Send(t, n) =>
      && t < |s.tasks| && s.tasks[t].phase.Looping? && s.tasks[t].phase.items != []
      && n <= |s.tasks[t].phase.items[0]|
      && (n == 0 ==> s.tasks[t].phase.items[0] == [])
    case Fail(t) => t < |s.tasks| && s.tasks[t].phase.Looping? && s.tasks[t].phase.items != []
    case Shutdown(t) => t < |s.tasks| && s.tasks[t].phase == Closing
  }

  function SetOwner(pipes: seq<PipeRec>, w: nat, owner: Owner): seq<PipeRec> {
    if w < |pipes| then pipes[w := pipes[w].(owner := owner)] else pipes
  }

  function Accept(pipes: seq<PipeRec>, w: nat, buf: bytes): seq<PipeRec> {
    if w < |pipes| then pipes[w := pipes[w].(accepted := pipes[w].accepted + [buf])] else pipes
  }

  function Deliver(pipes: seq<PipeRec>, w: nat, data: bytes): seq<PipeRec> {
    if w < |pipes| then
      var p := pipes[w];
      pipes[w := p.(delivered := p.delivered + data, fates := p.fates + [Delivered(data)])]
    else pipes
  }

  function Discard(pipes: seq<PipeRec>, w: nat, data: bytes): seq<PipeRec> {
    if w < |pipes| then pipes[w := pipes[w].(fates := pipes[w].fates + [Discarded(data)])] else pipes
  }

  function CountShutdown(pipes: seq<PipeRec>, w: nat): seq<PipeRec> {
    if w < |pipes| then
      pipes[w := pipes[w].(shutdowns := pipes[w].shutdowns + 1, owner := Shut)]
    else pipes
  }

  function SetPhase(tasks: seq<Task>, t: nat, phase: Phase): seq<Task>
    requires t < |tasks|
  {
    tasks[t := tasks[t].(phase := phase)]
  }

  /** A batch after n more bytes of its first segment went through. */
  function Unsent(items: seq<bytes>, n: nat): seq<bytes>
    requires items != [] && n <= |items[0]|
  {
    if n == |items[0]| then items[1..] else [items[0][n..]] + items[1..]
  }

  ghost function Apply(s: State, a: Step): State
    requires Enabled(s, a)
  {
    match a
    case Insert(id) =>
      var w := |s.pipes|;
      s.(table := Inserted(s.table, id, w),
         pipes := s.pipes + [PipeRec(id, [], 0, InTable, [], [])],
         current := s.current[id := w])
    case Write(id, buf) =>
      var (table, spawn) := Written(s.table, id, buf);
      var pipes := if id in s.table && id in s.current
                   then Accept(s.pipes, s.current[id], buf) else s.pipes;
      if spawn.None? then s.(table := table, pipes := pipes)
      else s.(table := table,
              pipes := SetOwner(pipes, spawn.value, HeldBy(|s.tasks|)),
              tasks := s.tasks + [Task(id, spawn.value, Looping([]))])
    case Remove(id) =>
      var (table, shut) := Removed(s.table, id);
      if shut.None? then s.(table := table)
      else s.(table := table,
              pipes := SetOwner(s.pipes, shut.value, ClosedBy(|s.tasks|)),
              tasks := s.tasks + [Task(id, shut.value, Closing)])
    case Turn(t) =>
      var task := s.tasks[t];
      var (table, turn) := LoopTurn(s.table, task.id, task.w, task.phase.items);
      (match turn
       case Batch(items) =>
         s.(table := table, tasks := SetPhase(s.tasks, t, Looping(items)))
       case HandedBack =>
         s.(table := table, tasks := SetPhase(s.tasks, t, Done),
            pipes := SetOwner(s.pipes, task.w, InTable))
       case Close =>
         s.(table := table, tasks := SetPhase(s.tasks, t, Closing),
            pipes := SetOwner(s.pipes, task.w, ClosedBy(t))))
    case Send(t, n) =>
      var items := s.tasks[t].phase.items;
      s.(tasks := SetPhase(s.tasks, t, Looping(Unsent(items, n))),
         pipes := Deliver(s.pipes, s.tasks[t].w, items[0][..n]))
    case Fail(t) =>
      s.(tasks := SetPhase(s.tasks, t, Looping([])),
         pipes := Discard(s.pipes, s.tasks[t].w, Flat(s.tasks[t].phase.items)))
    case Shutdown(t) =>
      s.(tasks := SetPhase(s.tasks, t, Done),
         pipes := CountShutdown(s.pipes, s.tasks[t].w))
  }

  // ------------------------------------------------------------------ fates

  /** All bytes whose fate is settled, in the order in which they were accepted. */
  function Settled(fates: seq<Fate>): bytes {
    if fates == [] then [] else fates[0].data + Settled(fates[1..])
  }

  /** Those of them that went through the pipe. */
  function Kept(fates: seq<Fate>): bytes {
    if fates == [] then []
    else (if fates[0].Delivered? then fates[0].data else []) + Kept(fates[1..])
  }

  ghost predicate NothingDiscarded(fates: seq<Fate>) {
    forall f :: f in fates ==> f.Delivered?
  }

  lemma {:induction false} SettledAppend(fates: seq<Fate>, f: Fate)
    ensures Settled(fates + [f]) == Settled(fates) + f.data
  {
    if fates == [] {
      assert [f][1..] == [];
    } else {
      assert (fates + [f])[1..] == fates[1..] + [f];
      SettledAppend(fates[1..], f);
    }
  }

  lemma {:induction false} KeptAppend(fates: seq<Fate>, f: Fate)
    ensures Kept(fates + [f]) == if f.Delivered? then Kept(fates) + f.data else Kept(fates)
  {
    if fates == [] {
      assert [f][1..] == [];
    } else {
      assert (fates + [f])[1..] == fates[1..] + [f];
      KeptAppend(fates[1..], f);
    }
  }

  lemma FatesAppend(fates: seq<Fate>, f: Fate)
    ensures Settled(fates + [f]) == Settled(fates) + f.data
    ensures Kept(fates + [f]) == if f.Delivered? then Kept(fates) + f.data else Kept(fates)
  {
    SettledAppend(fates, f);
    KeptAppend(fates, f);
  }

  lemma {:induction false} KeptIsSettled(fates: seq<Fate>)
    requires NothingDiscarded(fates)
    ensures Kept(fates) == Settled(fates)
  {
    if fates != [] {
      KeptIsSettled(fates[1..]);
    }
  }

  // ------------------------------------------------------------------ the invariant

  /** The bytes accepted for a pipe that are neither delivered nor discarded yet. */
  function Pending(s: State, w: nat): bytes
    requires w < |s.pipes|
  {
    var p := s.pipes[w];
    if p.owner.HeldBy? && p.owner.task < |s.tasks| && s.tasks[p.owner.task].phase.Looping?
       && p.id in s.table
    then Flat(s.tasks[p.owner.task].phase.items) + Flat(s.table[p.id].q)
    else []
  }

  ghost predicate IsCurrent(s: State, w: nat)
    requires w < |s.pipes|
  {
    var id := s.pipes[w].id;
    id in s.table && id in s.current && s.current[id] == w
  }

  ghost predicate PipeOk(s: State, w: nat)
    requires w < |s.pipes|
  {
    var p := s.pipes[w];
    && p.delivered == Kept(p.fates)
    && Settled(p.fates) + Pending(s, w) == Flat(p.accepted)
    && p.shutdowns == (if p.owner == Shut then 1 else 0)
    && match p.owner
       case InTable => IsCurrent(s, w) && s.table[p.id] == StreamRec(Some(w), [], false)
       case HeldBy(t) =>
         && IsCurrent(s, w) && s.table[p.id].write == None
         && t < |s.tasks| && s.tasks[t].id == p.id && s.tasks[t].w == w
         && s.tasks[t].phase.Looping?
       case ClosedBy(t) => t < |s.tasks| && s.tasks[t].w == w && s.tasks[t].phase == Closing
       case Shut => true
  }

  ghost predicate TaskOk(s: State, t: nat)
    requires t < |s.tasks|
  {
    var task := s.tasks[t];
    task.phase.Done? ||
    (task.w < |s.pipes| &&
     s.pipes[task.w].owner == if task.phase.Looping? then HeldBy(t) else ClosedBy(t))
  }

  ghost predicate RecordOk(s: State, id: nat)
    requires id in s.table
  {
    && id in s.current && s.current[id] < |s.pipes|
    && s.pipes[s.current[id]].id == id
    && (s.pipes[s.current[id]].owner.InTable? || s.pipes[s.current[id]].owner.HeldBy?)
  }

  ghost predicate Inv(s: State) {
    && (forall w | 0 <= w < |s.pipes| :: PipeOk(s, w))
    && (forall t | 0 <= t < |s.tasks| :: TaskOk(s, t))
    && (forall id | id in s.table :: RecordOk(s, id))
  }

  /** An insert is fresh when the table has no record under its id. */
  ghost predicate Fresh(s: State, a: Step) {
    a.Insert? ==> a.id !in s.table
  }

  // ------------------------------------------------------------------ every step keeps it

  lemma InsertKeepsInv(s: State, id: nat)
    requires Inv(s) && id !in s.table
    ensures Inv(Apply(s, Insert(id)))
  {
    var s' := Apply(s, Insert(id));
    forall w | 0 <= w < |s'.pipes| ensures PipeOk(s', w) {
      if w < |s.pipes| {
        assert PipeOk(s, w);
      }
    }
    forall t | 0 <= t < |s'.tasks| ensures TaskOk(s', t) {
      assert TaskOk(s, t);
    }
    forall id' | id' in s'.table ensures RecordOk(s', id') {
      if id' != id {
        assert RecordOk(s, id');
      }
    }
  }

  /** Accepting one more segment, for the pipe whose record it goes to. */
  lemma PendingAfterWrite(s: State, id: nat, buf: bytes)
    requires id in s.table && id in s.current && s.current[id] < |s.pipes|
    requires PipeOk(s, s.current[id]) && RecordOk(s, id)
    ensures Pending(Apply(s, Write(id, buf)), s.current[id]) == Pending(s, s.current[id]) + buf
  {
    var v := s.current[id];
    var s' := Apply(s, Write(id, buf));
    FlatAppend(s.table[id].q, [buf]);
    FlatOne(buf);
    if s.pipes[v].owner.InTable? {
      assert s'.table[id].q == [buf] && s'.tasks[|s.tasks|].phase == Looping([]);
      assert Pending(s', v) == [] + buf;
    } else {
      var items, q := Flat(s.tasks[s.pipes[v].owner.task].phase.items), Flat(s.table[id].q);
      assert items + (q + buf) == (items + q) + buf;
    }
  }

  lemma WrittenPipeOk(s: State, id: nat, buf: bytes)
    requires id in s.table && id in s.current && s.current[id] < |s.pipes|
    requires PipeOk(s, s.current[id]) && RecordOk(s, id)
    ensures PipeOk(Apply(s, Write(id, buf)), s.current[id])
  {
    var v := s.current[id];
    var p := s.pipes[v];
    PendingAfterWrite(s, id, buf);
    FlatAppend(p.accepted, [buf]);
    FlatOne(buf);
    assert Settled(p.fates) + (Pending(s, v) + buf) == (Settled(p.fates) + Pending(s, v)) + buf;
  }

  lemma WriteKeepsInv(s: State, id: nat, buf: bytes)
    requires Inv(s)
    ensures Inv(Apply(s, Write(id, buf)))
  {
    var s' := Apply(s, Write(id, buf));
    if id in s.table {
      assert RecordOk(s, id);
      var v := s.current[id];
      assert PipeOk(s, v);
      forall w | 0 <= w < |s'.pipes| ensures PipeOk(s', w) {
        assert PipeOk(s, w);
        if w == v {
          WrittenPipeOk(s, id, buf);
        }
      }
      forall t | 0 <= t < |s'.tasks| ensures TaskOk(s', t) {
        if t < |s.tasks| {
          assert TaskOk(s, t);
        }
      }
      forall id' | id' in s'.table ensures RecordOk(s', id') {
        assert RecordOk(s, id');
      }
    }
  }

  lemma RemoveKeepsInv(s: State, id: nat)
    requires Inv(s)
    ensures Inv(Apply(s, Remove(id)))
  {
    var s' := Apply(s, Remove(id));
    if id in s.table {
      assert RecordOk(s, id);
      assert PipeOk(s, s.current[id]);
      forall w | 0 <= w < |s'.pipes| ensures PipeOk(s', w) {
        assert PipeOk(s, w);
      }
      forall t | 0 <= t < |s'.tasks| ensures TaskOk(s', t) {
        if t < |s.tasks| {
          assert TaskOk(s, t);
        }
      }
      forall id' | id' in s'.table ensures RecordOk(s', id') {
        assert RecordOk(s, id');
      }
    }
  }

  /** A pipe other than the one a step works on keeps its part of the invariant. */
  lemma OtherPipesKeep(s: State, s': State, t: nat, v: nat, w: nat)
    requires Inv(s) && v < |s.pipes| && w < |s.pipes| && w != v
    requires t < |s.tasks| && s.tasks[t].w == v && TaskOk(s, t) && !s.tasks[t].phase.Done?
    requires |s'.pipes| == |s.pipes| && s'.pipes[w] == s.pipes[w]
    requires |s'.tasks| == |s.tasks|
    requires forall k | 0 <= k < |s.tasks| && k != t :: s'.tasks[k] == s.tasks[k]
    requires s'.current == s.current
    requires forall id | id in s.table && id != s.pipes[v].id :: id in s'.table && s'.table[id] == s.table[id]
    requires s'.table == s.table || IsCurrent(s, v)
    ensures PipeOk(s', w)
  {
    assert PipeOk(s, w);
    if s.pipes[w].owner.InTable? || s.pipes[w].owner.HeldBy? {
      assert s'.table == s.table || s.pipes[w].id != s.pipes[v].id;
    }
  }

  lemma TurnKeepsInv(s: State, t: nat)
    requires Inv(s) && Enabled(s, Turn(t))
    ensures Inv(Apply(s, Turn(t)))
  {
    var s' := Apply(s, Turn(t));
    assert TaskOk(s, t);
    var v := s.tasks[t].w;
    assert PipeOk(s, v);
    var id := s.tasks[t].id;
    assert id in s.table && IsCurrent(s, v) && s.pipes[v].owner == HeldBy(t);
    assert Pending(s, v) == Flat(s.table[id].q);
    assert PipeOk(s', v) by {
      if s.table[id].q == [] {
      } else {
        assert s'.table[id].q == [];
        assert Pending(s', v) == Flat(s.table[id].q) + [];
      }
    }
    forall w | 0 <= w < |s'.pipes| ensures PipeOk(s', w) {
      if w != v {
        OtherPipesKeep(s, s', t, v, w);
      }
    }
    forall t' | 0 <= t' < |s'.tasks| ensures TaskOk(s', t') {
      assert TaskOk(s, t');
    }
    forall id' | id' in s'.table ensures RecordOk(s', id') {
      assert RecordOk(s, id');
    }
  }

  lemma SameWithTail(a: bytes, b: bytes, c: bytes, d: bytes, tail: bytes)
    requires a + b == c + d
    ensures a + (b + tail) == c + (d + tail)
  {
    assert a + (b + tail) == (a + b) + tail && c + (d + tail) == (c + d) + tail;
  }

  /** The pipe a task works on after a step that only settles bytes of its own batch. */
  lemma SettleKeepsInv(s: State, t: nat, items: seq<bytes>, p: PipeRec)
    requires Inv(s) && t < |s.tasks| && s.tasks[t].phase.Looping? && s.tasks[t].w < |s.pipes|
    requires var was := s.pipes[s.tasks[t].w];
             && p == was.(delivered := p.delivered, fates := p.fates)
             && p.delivered == Kept(p.fates)
             && Settled(p.fates) + Flat(items) == Settled(was.fates) + Flat(s.tasks[t].phase.items)
    ensures Inv(s.(tasks := SetPhase(s.tasks, t, Looping(items)), pipes := s.pipes[s.tasks[t].w := p]))
  {
    var s' := s.(tasks := SetPhase(s.tasks, t, Looping(items)), pipes := s.pipes[s.tasks[t].w := p]);
    assert TaskOk(s, t);
    var v := s.tasks[t].w;
    assert PipeOk(s, v);
    forall w | 0 <= w < |s'.pipes| ensures PipeOk(s', w) {
      if w == v {
        SameWithTail(Settled(p.fates), Flat(items),
          Settled(s.pipes[v].fates), Flat(s.tasks[t].phase.items), Flat(s.table[p.id].q));
      } else {
        OtherPipesKeep(s, s', t, v, w);
      }
    }
    forall t' | 0 <= t' < |s'.tasks| ensures TaskOk(s', t') {
      assert TaskOk(s, t');
    }
    forall id' | id' in s'.table ensures RecordOk(s', id') {
      assert RecordOk(s, id');
    }
  }

  /** Splitting off the first n bytes of a batch. */
  lemma SplitFirst(items: seq<bytes>, n: nat)
    requires items != [] && n <= |items[0]|
    ensures Flat(items) == items[0][..n] + Flat(Unsent(items, n))
  {
    var x, rest := items[0], items[1..];
    if n == |x| {
      assert x[..n] == x;
    } else {
      assert ([x[n..]] + rest)[1..] == rest;
      assert x[..n] + (x[n..] + Flat(rest)) == x + Flat(rest);
    }
  }

  lemma SentIsSettled(fates: seq<Fate>, items: seq<bytes>, n: nat)
    requires items != [] && n <= |items[0]|
    ensures var fates' := fates + [Delivered(items[0][..n])];
            && Settled(fates') + Flat(Unsent(items, n)) == Settled(fates) + Flat(items)
            && Kept(fates') == Kept(fates) + items[0][..n]
  {
    var sent, rest, done := items[0][..n], Flat(Unsent(items, n)), Settled(fates);
    FatesAppend(fates, Delivered(sent));
    SplitFirst(items, n);
    assert (done + sent) + rest == done + (sent + rest);
  }

  lemma SendKeepsInv(s: State, t: nat, n: nat)
    requires Inv(s) && Enabled(s, Send(t, n))
    ensures Inv(Apply(s, Send(t, n)))
  {
    assert TaskOk(s, t);
    var items := s.tasks[t].phase.items;
    var p := s.pipes[s.tasks[t].w];
    assert p.delivered == Kept(p.fates) by {
      assert PipeOk(s, s.tasks[t].w);
    }
    SentIsSettled(p.fates, items, n);
    SettleKeepsInv(s, t, Unsent(items, n),
      p.(delivered := p.delivered + items[0][..n], fates := p.fates + [Delivered(items[0][..n])]));
  }

  lemma FailKeepsInv(s: State, t: nat)
    requires Inv(s) && Enabled(s, Fail(t))
    ensures Inv(Apply(s, Fail(t)))
  {
    assert TaskOk(s, t);
    var lost := Flat(s.tasks[t].phase.items);
    var p := s.pipes[s.tasks[t].w];
    assert PipeOk(s, s.tasks[t].w);
    FatesAppend(p.fates, Discarded(lost));
    SettleKeepsInv(s, t, [], p.(fates := p.fates + [Discarded(lost)]));
  }

  lemma ShutdownKeepsInv(s: State, t: nat)
    requires Inv(s) && Enabled(s, Shutdown(t))
    ensures Inv(Apply(s, Shutdown(t)))
  {
    var s' := Apply(s, Shutdown(t));
    assert TaskOk(s, t);
    assert PipeOk(s, s.tasks[t].w);
    forall w | 0 <= w < |s'.pipes| ensures PipeOk(s', w) {
      assert PipeOk(s, w);
    }
    forall t' | 0 <= t' < |s'.tasks| ensures TaskOk(s', t') {
      assert TaskOk(s, t');
    }
    forall id' | id' in s'.table ensures RecordOk(s', id') {
      assert RecordOk(s, id');
    }
  }

  lemma StepKeepsInv(s: State, a: Step)
    requires Inv(s) && Enabled(s, a) && Fresh(s, a)
    ensures Inv(Apply(s, a))
  {
    match a
    case Insert(id) => InsertKeepsInv(s, id);
    case Write(id, buf) => WriteKeepsInv(s, id, buf);
    case Remove(id) => RemoveKeepsInv(s, id);
    case Turn(t) => TurnKeepsInv(s, t);
    case Send(t, n) => SendKeepsInv(s, t, n);
    case Fail(t) => FailKeepsInv(s, t);
    case Shutdown(t) => ShutdownKeepsInv(s, t);
  }
}
