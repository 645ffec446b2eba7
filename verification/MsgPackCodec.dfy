/**
 * Frames out of a byte stream that arrives in pieces.
 *
 * The codec is generic in the message type, given by a function that reads one message from the
 * front of a buffer; the last section takes the MessagePack reader for it.
 */
module MsgPackCodec {
  import opened Common
  import opened MsgPack

  type Reader<T> = bytes -> Parsed<T>

  /** A message takes at least one byte, and what follows a message does not change it. */
  ghost predicate Sound<T(!new)>(read: Reader<T>) {
    && (forall b: bytes :: read(b).Done? ==> 1 <= read(b).len <= |b|)
    && (forall b: bytes, more: bytes :: Settled(read, b, more))
  }

  ghost predicate Settled<T>(read: Reader<T>, b: bytes, more: bytes) {
    !read(b).Eof? ==> read(b + more) == read(b)
  }

  /** A decoded message together with the very bytes it was read from. */
  datatype Frame<+T> = Frame(obj: T, vec: bytes)

  /** One call of the decoder: its answer, and what it leaves in the buffer. */
  function DecodeFront<T>(read: Reader<T>, b: bytes): (Result<Option<Frame<T>>, string>, bytes) {
    match read(b)
    case Done(v, len) =>
      if len <= |b| then (Ok(Some(Frame(v, b[..len]))), b[len..]) else (Err("invalid data"), b)
    case Eof => (Ok(None), b)
    case Bad => (Err("invalid data"), b)
  }

  /** All frames at the front of a buffer, what is left of it, and whether decoding failed there. */
  datatype Drained<+T> = Drained(frames: seq<Frame<T>>, rest: bytes, failed: bool)

  ghost function Drain<T(!new)>(read: Reader<T>, b: bytes): Drained<T>
    requires Sound(read)
    decreases |b|
  {
    match read(b)
    case Done(v, len) =>
      var more := Drain(read, b[len..]);
      more.(frames := [Frame(v, b[..len])] + more.frames)
    case Eof => Drained([], b, false)
    case Bad => Drained([], b, true)
  }

  /** One call of the decoder, and draining from there. */
  lemma DrainFrame<T(!new)>(read: Reader<T>, b: bytes)
    requires Sound(read)
    ensures var (r, rest) := DecodeFront(read, b);
            if r.Ok? && r.value.Some? then
              |rest| < |b| && var more := Drain(read, rest);
              Drain(read, b) == more.(frames := [r.value.value] + more.frames)
            else Drain(read, b) == Drained([], rest, r.Err?)
    ensures read(b).Done? ==>
              var len := read(b).len;
              DecodeFront(read, b) == (Ok(Some(Frame(read(b).value, b[..len]))), b[len..])
  {
  }

  /** The connection reads one chunk after the other, and ends at the first failure. */
  ghost function Feed<T(!new)>(read: Reader<T>, buf: bytes, chunks: seq<bytes>): Drained<T>
    requires Sound(read)
    decreases chunks
  {
    if chunks == [] then Drained([], buf, false)
    else
      var now := Drain(read, buf + chunks[0]);
      if now.failed then now
      else
        var later := Feed(read, now.rest, chunks[1..]);
        later.(frames := now.frames + later.frames)
  }

  class BytesMut {
    var data: bytes

    constructor ()
      ensures data == []
    {
      data := [];
    }
  }

  class Codec<T(!new)> {
    const read: Reader<T>

    constructor (read: Reader<T>)
      ensures this.read == read
    {
      this.read := read;
    }

    /** Takes one frame off the front of the buffer, if there is a whole one. */
    method Decode(src: BytesMut) returns (r: Result<Option<Frame<T>>, string>)
      requires Sound(read)
      modifies src
      ensures (r, src.data) == DecodeFront(read, old(src.data))
    {
      match read(src.data)
      case Done(v, len) =>
        var vec := src.data[..len];
        src.data := src.data[len..];
        r := Ok(Some(Frame(v, vec)));
      case Eof =>
        r := Ok(None);
      case Bad =>
        r := Err("invalid data");
    }

    /** What the transport does with one read: it decodes until no whole frame is left. */
    method OnRead(src: BytesMut, chunk: bytes) returns (frames: seq<Frame<T>>, failed: bool)
      requires Sound(read)
      modifies src
      ensures Drained(frames, src.data, failed) == Drain(read, old(src.data) + chunk)
    {
      src.data := src.data + chunk;
      frames, failed := [], false;
      ghost var all := Drain(read, src.data);
      DrainFrame(read, src.data);
      var next := Decode(src);
      while next.Ok? && next.value.Some?
        invariant next.Ok? && next.value.Some? ==>
                    var more := Drain(read, src.data);
                    all == more.(frames := frames + ([next.value.value] + more.frames))
        invariant next.Err? || next.value.None? ==> all == Drained(frames, src.data, next.Err?)
        decreases |src.data| + if next.Ok? && next.value.Some? then 1 else 0
      {
        ConcatAssoc(frames, [next.value.value], Drain(read, src.data).frames);
        frames := frames + [next.value.value];
        DrainFrame(read, src.data);
        next := Decode(src);
      }
      failed := next.Err?;
    }
  }

  // ------------------------------------------------------------------ nothing lost or made up

  /** Draining ends at a front that is no message yet, or that never will be one. */
  lemma {:induction false} DrainEnds<T(!new)>(read: Reader<T>, b: bytes)
    requires Sound(read)
    ensures var d := Drain(read, b); if d.failed then read(d.rest).Bad? else read(d.rest).Eof?
    decreases |b|
  {
    if read(b).Done? {
      DrainEnds(read, b[read(b).len..]);
    }
  }

  /** A connection fails exactly when what it is left with is no message; its frames do not fail. */
  lemma {:induction false} FeedEnds<T(!new)>(read: Reader<T>, buf: bytes, chunks: seq<bytes>)
    requires Sound(read) && read(buf).Eof?
    ensures var fed := Feed(read, buf, chunks); if fed.failed then read(fed.rest).Bad? else read(fed.rest).Eof?
    decreases chunks
  {
    if chunks != [] {
      var now := Drain(read, buf + chunks[0]);
      DrainEnds(read, buf + chunks[0]);
      if !now.failed {
        FeedEnds(read, now.rest, chunks[1..]);
      }
    }
  }

  function Vecs<T>(frames: seq<Frame<T>>): bytes {
    if frames == [] then [] else frames[0].vec + Vecs(frames[1..])
  }

  /** The frames and the leftover are exactly the buffer. */
  lemma {:induction false} DrainKeepsBytes<T(!new)>(read: Reader<T>, b: bytes)
    requires Sound(read)
    ensures Vecs(Drain(read, b).frames) + Drain(read, b).rest == b
    decreases |b|
  {
    match read(b)
    case Done(v, len) =>
      DrainKeepsBytes(read, b[len..]);
      DrainFrame(read, b);
      VecsFirst(Frame(v, b[..len]), Drain(read, b[len..]).frames, Drain(read, b[len..]).rest);
      HeadAndTail(b, len);
    case Eof =>
    case Bad =>
  }

  lemma HeadAndTail(b: bytes, n: nat)
    requires n <= |b|
    ensures b[..n] + b[n..] == b
  {
  }

  lemma VecsFirst<T>(f: Frame<T>, frames: seq<Frame<T>>, rest: bytes)
    ensures Vecs([f] + frames) + rest == f.vec + (Vecs(frames) + rest)
  {
    assert ([f] + frames)[1..] == frames;
  }

  // ------------------------------------------------------------------ any chunking

  /** Draining after more bytes arrived, from what an earlier drain left. */
  lemma {:induction false} DrainInTwo<T(!new)>(read: Reader<T>, a: bytes, b: bytes)
    requires Sound(read)
    ensures var first := Drain(read, a);
            if first.failed then Drain(read, a + b) == first.(rest := first.rest + b)
            else var second := Drain(read, first.rest + b);
                 Drain(read, a + b) == second.(frames := first.frames + second.frames)
    decreases |a|
  {
    match read(a)
    case Done(v, len) =>
      DrainInTwo(read, a[len..], b);
      FrameThenMore(read, a, b);
      var first, f := Drain(read, a[len..]), Frame(v, a[..len]);
      ConcatAssoc([f], first.frames, Drain(read, first.rest + b).frames);
    case Eof =>
    case Bad => assert Settled(read, a, b);
  }

  lemma FrameThenMore<T(!new)>(read: Reader<T>, a: bytes, b: bytes)
    requires Sound(read) && read(a).Done?
    ensures var len := read(a).len; var more := Drain(read, a[len..] + b);
            Drain(read, a + b) == more.(frames := [Frame(read(a).value, a[..len])] + more.frames)
  {
    var len := read(a).len;
    assert Settled(read, a, b);
    assert (a + b)[len..] == a[len..] + b && (a + b)[..len] == a[..len];
  }

  /** What a drain leaves has no whole frame in front. */
  lemma {:induction false} RestIsDrained<T(!new)>(read: Reader<T>, b: bytes)
    requires Sound(read) && !Drain(read, b).failed
    ensures Drain(read, Drain(read, b).rest) == Drained([], Drain(read, b).rest, false)
    decreases |b|
  {
    if read(b).Done? {
      RestIsDrained(read, b[read(b).len..]);
    }
  }

  /**
   * Chunking does not matter: however a byte stream is cut into reads, the connection delivers
   * the frames of the whole stream, fails or not as that does, and is left with the same bytes.
   */
  lemma {:induction false} ChunkingInvariance<T(!new)>(read: Reader<T>, buf: bytes, chunks: seq<bytes>)
    requires Sound(read) && Drain(read, buf) == Drained([], buf, false)
    ensures var whole := Drain(read, buf + Flat(chunks)); var fed := Feed(read, buf, chunks);
            && fed.frames == whole.frames && fed.failed == whole.failed
            && (if fed.failed then fed.rest <= whole.rest else fed.rest == whole.rest)
    decreases chunks
  {
    if chunks == [] {
      assert buf + Flat(chunks) == buf;
    } else {
      var now := Drain(read, buf + chunks[0]);
      FlatFirst(buf, chunks);
      DrainInTwo(read, buf + chunks[0], Flat(chunks[1..]));
      if !now.failed {
        RestIsDrained(read, buf + chunks[0]);
        ChunkingInvariance(read, now.rest, chunks[1..]);
      }
    }
  }

  /** Two ways of cutting the same stream into reads. */
  lemma SameFramesHoweverCut<T(!new)>(read: Reader<T>, chunks: seq<bytes>, chunks': seq<bytes>)
    requires Sound(read) && read([]).Eof? && Flat(chunks) == Flat(chunks')
    ensures var fed, fed' := Feed(read, [], chunks), Feed(read, [], chunks');
            && fed.frames == fed'.frames && fed.failed == fed'.failed
            && (!fed.failed ==> fed.rest == fed'.rest && Vecs(fed.frames) + fed.rest == Flat(chunks))
  {
    ChunkingInvariance(read, [], chunks);
    ChunkingInvariance(read, [], chunks');
    DrainKeepsBytes(read, Flat(chunks));
    assert [] + Flat(chunks) == Flat(chunks);
  }

  // ------------------------------------------------------------------ messages in, messages out

  const MSGPACK: Reader<Value> := b => Parse(b)

  lemma MsgPackIsSound()
    ensures Sound(MSGPACK) && MSGPACK([]).Eof?
  {
    forall b: bytes, more: bytes ensures Settled(MSGPACK, b, more) {
      MoreBytes(b, more);
    }
  }

  /** Each frame carries the one encoding of its message. */
  lemma {:induction false} FramesAreEncodings(b: bytes)
    requires Sound(MSGPACK)
    ensures forall f | f in Drain(MSGPACK, b).frames :: WellFormed(f.obj) && f.vec == Encode(f.obj)
    decreases |b|
  {
    if MSGPACK(b).Done? {
      EncodeParse(b);
      FramesAreEncodings(b[MSGPACK(b).len..]);
    }
  }

  ghost predicate FramesOf(frames: seq<Frame<Value>>, messages: seq<Value>) {
    && |frames| == |messages|
    && forall i | 0 <= i < |frames| ::
         WellFormed(messages[i]) && frames[i] == Frame(messages[i], Encode(messages[i]))
  }

  lemma DrainStep<T(!new)>(read: Reader<T>, v: T, first: bytes, others: bytes)
    requires Sound(read) && read(first + others) == Done(v, |first|)
    ensures var more := Drain(read, others);
            Drain(read, first + others) == more.(frames := [Frame(v, first)] + more.frames)
  {
    assert (first + others)[|first|..] == others && (first + others)[..|first|] == first;
  }

  lemma ReadFirst(m: Value, others: bytes)
    requires WellFormed(m)
    ensures MSGPACK(Encode(m) + others) == Done(m, |Encode(m)|)
  {
    ParseEncode(m, others);
  }

  lemma {:induction false} DrainMessages(messages: seq<Value>, tail: bytes)
    requires Sound(MSGPACK) && AllWellFormed(messages) && MSGPACK(tail).Eof?
    ensures var d := Drain(MSGPACK, EncodeAll(messages) + tail);
            FramesOf(d.frames, messages) && d.rest == tail && !d.failed
    decreases messages
  {
    if messages == [] {
      assert EncodeAll(messages) + tail == tail;
    } else {
      var m, others := messages[0], EncodeAll(messages[1..]) + tail;
      EncodeFirst(messages, tail);
      DrainMessages(messages[1..], tail);
      DrainFirst(m, others, messages[1..]);
      assert [m] + messages[1..] == messages;
    }
  }

  lemma EncodeFirst(messages: seq<Value>, tail: bytes)
    requires AllWellFormed(messages) && messages != []
    ensures EncodeAll(messages) + tail == Encode(messages[0]) + (EncodeAll(messages[1..]) + tail)
  {
  }

  lemma DrainFirst(m: Value, others: bytes, messages: seq<Value>)
    requires Sound(MSGPACK) && WellFormed(m) && FramesOf(Drain(MSGPACK, others).frames, messages)
    ensures var d, d' := Drain(MSGPACK, others), Drain(MSGPACK, Encode(m) + others);
            FramesOf(d'.frames, [m] + messages) && d'.rest == d.rest && d'.failed == d.failed
  {
    ReadFirst(m, others);
    DrainStep(MSGPACK, m, Encode(m), others);
    FramesOfCons(m, Drain(MSGPACK, others).frames, messages);
  }

  lemma FramesOfCons(m: Value, frames: seq<Frame<Value>>, messages: seq<Value>)
    requires WellFormed(m) && FramesOf(frames, messages)
    ensures FramesOf([Frame(m, Encode(m))] + frames, [m] + messages)
  {
  }

  /**
   * Messages sent one after the other, and perhaps the first n bytes of a further one, arrive as
   * those messages for every way of cutting the stream into reads; the cut-off one stays behind.
   */
  lemma MessagesArrive(messages: seq<Value>, last: Value, n: nat, chunks: seq<bytes>)
    requires AllWellFormed(messages) && WellFormed(last) && n < |Encode(last)|
    requires Flat(chunks) == EncodeAll(messages) + Encode(last)[..n]
    ensures Sound(MSGPACK)
    ensures var fed := Feed(MSGPACK, [], chunks);
            FramesOf(fed.frames, messages) && !fed.failed && fed.rest == Encode(last)[..n]
  {
    MsgPackIsSound();
    CutOffIsEof(last, n);
    DrainMessages(messages, Encode(last)[..n]);
    ChunkingInvariance(MSGPACK, [], chunks);
    assert [] + Flat(chunks) == Flat(chunks);
  }
}
