/** Small datatypes shared by every module of the model. */
module Common {

  datatype Option<+T> = None | Some(value: T)

  datatype Result<+T, +E> = Ok(value: T) | Err(error: E)

  newtype byte = x: int | 0 <= x < 256

  type bytes = seq<byte>

  const ID_RANGE: nat := 0x1_0000_0000

  /** The id handed out by the k-th call to `next_message_id`: a 32-bit counter that wraps. */
  function MessageId(k: nat): nat { k % ID_RANGE }

  function Max(a: nat, b: nat): nat { if a >= b then a else b }

  /** The concatenation of a sequence of segments. */
  function Flat<T>(segments: seq<seq<T>>): seq<T> {
    if segments == [] then [] else segments[0] + Flat(segments[1..])
  }

  lemma {:induction false} FlatAppend<T>(a: seq<seq<T>>, b: seq<seq<T>>)
    ensures Flat(a + b) == Flat(a) + Flat(b)
  {
    if a == [] {
      assert a + b == b;
    } else {
      assert (a + b)[1..] == a[1..] + b;
      FlatAppend(a[1..], b);
    }
  }

  lemma ConcatAssoc<T>(a: seq<T>, b: seq<T>, c: seq<T>)
    ensures (a + b) + c == a + (b + c)
  {
  }

  lemma FlatFirst<T>(a: seq<T>, segments: seq<seq<T>>)
    requires segments != []
    ensures a + Flat(segments) == (a + segments[0]) + Flat(segments[1..])
  {
  }

  lemma FlatOne<T>(x: seq<T>)
    ensures Flat([x]) == x
  {
    assert [x][1..] == [];
  }
}
