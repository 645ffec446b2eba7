/**
 * The table of duplex streams behind the RPC dispatcher: one record a stream, holding the write
 * half while no write loop runs, the segments still to be written, and whether the peer ended it.
 *
 * The functions give the effect of each section that runs under the table's lock; the class is
 * the table itself, updated in place, and its methods are proved to have exactly those effects.
 */
module Streams {
  import opened Common

  datatype StreamRec<W> = StreamRec(write: Option<W>, q: seq<bytes>, ended: bool)

  type Table<W> = map<nat, StreamRec<W>>

  /** What a write loop does after its turn under the lock. */
  datatype Turn =
    | Batch(items: seq<bytes>)   // segments taken from the record, to be written next
    | HandedBack                 // the half is back in the record and the loop is over
    | Close                      // the record is gone: shut the half down

  function Inserted<W>(m: Table<W>, id: nat, w: W): Table<W> {
    m[id := StreamRec(Some(w), [], false)]
  }

  /** Queues a segment; the result carries the half when a write loop has to be started with it. */
  function Written<W>(m: Table<W>, id: nat, buf: bytes): (Table<W>, Option<W>) {
    if id !in m then (m, None)
    else (m[id := m[id].(q := m[id].q + [buf], write := None)], m[id].write)
  }

  /** Ends a stream; the result carries the half when the caller has to shut it down itself. */
  function Removed<W>(m: Table<W>, id: nat): (Table<W>, Option<W>) {
    if id !in m then (m, None)
    else if m[id].write.Some? then (m - {id}, m[id].write)
    else (m[id := m[id].(ended := true)], None)
  }

  /** The write loop's turn under the lock: `items` is its own, drained, vector. */
  function LoopTurn<W>(m: Table<W>, id: nat, w: W, items: seq<bytes>): (Table<W>, Turn) {
    if id !in m then (m, Close)
    else if m[id].q == [] then
      if m[id].ended then (m - {id}, Close)
      else (m[id := m[id].(write := Some(w))], HandedBack)
    else (m[id := m[id].(q := items)], Batch(m[id].q))
  }

  /**
   * What gets through of a batch when the k-th write from now on can get `reach(k)` bytes through; a
   * write that cannot take all of its segment fails, and the rest of the batch is dropped.
   */
  function GetsThrough(items: seq<bytes>, reach: nat -> nat, k: nat): bytes {
    if items == [] then []
    else if reach(k) < |items[0]| then items[0][..reach(k)]
    else items[0] + GetsThrough(items[1..], reach, k + 1)
  }

  /** That is always a prefix of the batch, and all of it exactly when no write fails. */
  lemma {:induction false} AllGetsThroughIffNoFailure(items: seq<bytes>, reach: nat -> nat, k: nat)
    ensures GetsThrough(items, reach, k) <= Flat(items)
    ensures GetsThrough(items, reach, k) == Flat(items) <==>
            forall i | 0 <= i < |items| :: reach(k + i) >= |items[i]|
  {
    if items != [] {
      AllGetsThroughIffNoFailure(items[1..], reach, k + 1);
      if reach(k) < |items[0]| {
        assert reach(k + 0) < |items[0]|;
        assert |GetsThrough(items, reach, k)| < |items[0]| <= |Flat(items)|;
      } else {
        FirstGetsThrough(items, reach, k);
      }
    }
  }

  lemma FirstGetsThrough(items: seq<bytes>, reach: nat -> nat, k: nat)
    requires items != [] && reach(k) >= |items[0]|
    ensures (forall i | 0 <= i < |items| :: reach(k + i) >= |items[i]|) <==>
            (forall i | 0 <= i < |items[1..]| :: reach((k + 1) + i) >= |items[1..][i]|)
    ensures GetsThrough(items, reach, k) == Flat(items) <==>
            GetsThrough(items[1..], reach, k + 1) == Flat(items[1..])
    ensures GetsThrough(items[1..], reach, k + 1) <= Flat(items[1..]) ==>
            GetsThrough(items, reach, k) <= Flat(items)
  {
    var head, some, all := items[0], GetsThrough(items[1..], reach, k + 1), Flat(items[1..]);
    assert (head + some)[|head|..] == some && (head + all)[|head|..] == all;
    forall i | 0 <= i < |items[1..]| ensures items[1..][i] == items[i + 1] && reach((k + 1) + i) == reach(k + (i + 1)) {
    }
    forall i | 0 < i < |items| ensures items[i] == items[1..][i - 1] && reach(k + i) == reach((k + 1) + (i - 1)) {
    }
  }

  /** The far side of a write half. */
  class Pipe {
    var delivered: bytes
    var shutdowns: nat

    constructor ()
      ensures delivered == [] && shutdowns == 0
    {
      delivered, shutdowns := [], 0;
    }
  }

  class StreamTable {
    var streams: Table<Pipe>

    constructor ()
      ensures streams == map[]
    {
      streams := map[];
    }

    method Insert(id: nat, w: Pipe)
      modifies this
      ensures streams == Inserted(old(streams), id, w)
    {
      streams := streams[id := StreamRec(Some(w), [], false)];
    }

    method Write(id: nat, buf: bytes) returns (spawn: Option<Pipe>)
      modifies this
      ensures (streams, spawn) == Written(old(streams), id, buf)
    {
      spawn := None;
      if id in streams {
        var rec := streams[id];
        rec := rec.(q := rec.q + [buf]);
        if rec.write.Some? {
          spawn := rec.write;
          rec := rec.(write := None);
        }
        streams := streams[id := rec];
      }
    }

    method Remove(id: nat) returns (shut: Option<Pipe>)
      modifies this
      ensures (streams, shut) == Removed(old(streams), id)
    {
      shut := None;
      if id in streams {
        if streams[id].write.Some? {
          shut := streams[id].write;
          streams := streams - {id};
        } else {
          streams := streams[id := streams[id].(ended := true)];
        }
      }
    }

    method TakeTurn(id: nat, w: Pipe, items: seq<bytes>) returns (turn: Turn)
      modifies this
      ensures (streams, turn) == LoopTurn(old(streams), id, w, items)
    {
      if id !in streams {
        return Close;
      }
      if streams[id].q == [] {
        if streams[id].ended {
          streams := streams - {id};
          return Close;
        }
        streams := streams[id := streams[id].(write := Some(w))];
        return HandedBack;
      }
      turn := Batch(streams[id].q);
      streams := streams[id := streams[id].(q := items)];
    }

    /**
     * The whole write loop when nothing else touches the table: it writes the queued segments in
     * order, up to the first write that fails, and then either hands the half back or shuts it down.
     */
    method WriteLoop(id: nat, w: Pipe, reach: nat -> nat)
      requires id in streams && streams[id].write == None
      modifies this, w
      ensures w.delivered == old(w.delivered) + GetsThrough(old(streams)[id].q, reach, 0)
      ensures old(streams)[id].ended ==>
                streams == old(streams) - {id} && w.shutdowns == old(w.shutdowns) + 1
      ensures !old(streams)[id].ended ==>
                streams == Inserted(old(streams), id, w) && w.shutdowns == old(w.shutdowns)
    {
      ghost var rec := streams[id];
      ghost var table := streams;
      ghost var all := old(w.delivered) + GetsThrough(rec.q, reach, 0);
      var items: seq<bytes>, k := [], 0;
      while true
        invariant items == []
        invariant id in streams && streams == table[id := rec.(q := streams[id].q)]
        invariant w.delivered + GetsThrough(streams[id].q, reach, k) == all
        invariant w.shutdowns == old(w.shutdowns)
        decreases |streams[id].q|
      {
        var turn := TakeTurn(id, w, items);
        match turn {
          case Close =>
            w.shutdowns := w.shutdowns + 1;
            return;
          case HandedBack =>
            return;
          case Batch(taken) =>
            items := taken;
            while items != []
              invariant streams == table[id := rec.(q := [])]
              invariant w.delivered + GetsThrough(items, reach, k) == all
              invariant w.shutdowns == old(w.shutdowns)
              decreases |items|
            {
              if reach(k) < |items[0]| {
                w.delivered := w.delivered + items[0][..reach(k)];
                items := [];
              } else {
                ConcatAssoc(w.delivered, items[0], GetsThrough(items[1..], reach, k + 1));
                w.delivered := w.delivered + items[0];
                items := items[1..];
              }
              k := k + 1;
            }
        }
      }
    }
  }
}
