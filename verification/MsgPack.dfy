/**
 * MessagePack values on the wire, following the "Formats" section of the MessagePack
 * specification, and reading one value from the front of a buffer.
 */
module MsgPack {
  import opened Common

  /** How a value goes on after its first byte. */
  datatype Shape =
    | Reserved
    | Raw(lenBytes: nat, fixed: nat)                // a length, then fixed + length bytes
    | Nested(lenBytes: nat, fixed: nat, per: nat)   // a count, then fixed + per * count values

  function ShapeOf(tag: byte): Shape {
    var t := tag as int;
    if t <= 0x7f then Raw(0, 0)                     // positive fixint
    else if t <= 0x8f then Nested(0, 2 * (t - 0x80), 2)   // fixmap
    else if t <= 0x9f then Nested(0, t - 0x90, 1)   // fixarray
    else if t <= 0xbf then Raw(0, t - 0xa0)         // fixstr
    else if t == 0xc0 then Raw(0, 0)                // nil
    else if t == 0xc1 then Reserved
    else if t <= 0xc3 then Raw(0, 0)                // false, true
    else if t == 0xc4 then Raw(1, 0)                // bin 8, 16, 32
    else if t == 0xc5 then Raw(2, 0)
    else if t == 0xc6 then Raw(4, 0)
    else if t == 0xc7 then Raw(1, 1)                // ext 8, 16, 32
    else if t == 0xc8 then Raw(2, 1)
    else if t == 0xc9 then Raw(4, 1)
    else if t == 0xca then Raw(0, 4)                // float 32, 64
    else if t == 0xcb then Raw(0, 8)
    else if t == 0xcc || t == 0xd0 then Raw(0, 1)   // uint and int 8, 16, 32, 64
    else if t == 0xcd || t == 0xd1 then Raw(0, 2)
    else if t == 0xce || t == 0xd2 then Raw(0, 4)
    else if t == 0xcf || t == 0xd3 then Raw(0, 8)
    else if t == 0xd4 then Raw(0, 2)                // fixext 1, 2, 4, 8, 16
    else if t == 0xd5 then Raw(0, 3)
    else if t == 0xd6 then Raw(0, 5)
    else if t == 0xd7 then Raw(0, 9)
    else if t == 0xd8 then Raw(0, 17)
    else if t == 0xd9 then Raw(1, 0)                // str 8, 16, 32
    else if t == 0xda then Raw(2, 0)
    else if t == 0xdb then Raw(4, 0)
    else if t == 0xdc then Nested(2, 0, 1)          // array 16, 32
    else if t == 0xdd then Nested(4, 0, 1)
    else if t == 0xde then Nested(2, 0, 2)          // map 16, 32
    else if t == 0xdf then Nested(4, 0, 2)
    else Raw(0, 0)                                  // negative fixint
  }

  datatype Value =
    | Scalar(tag: byte, data: bytes)
    | Items(tag: byte, items: seq<Value>)

  datatype Parsed<+T> = Done(value: T, len: nat) | Eof | Bad

  // ------------------------------------------------------------------ lengths

  function Power256(k: nat): nat {
    if k == 0 then 1 else 256 * Power256(k - 1)
  }

  /** The big-endian number in the first k bytes. */
  function GetLen(b: bytes, k: nat): nat
    requires k <= |b|
  {
    if k == 0 then 0 else GetLen(b, k - 1) * 256 + b[k - 1] as nat
  }

  function PutLen(n: nat, k: nat): bytes {
    if k == 0 then [] else PutLen(n / 256, k - 1) + [(n % 256) as byte]
  }

  lemma {:induction false} PutLenLength(n: nat, k: nat)
    ensures |PutLen(n, k)| == k
  {
    if k > 0 {
      PutLenLength(n / 256, k - 1);
    }
  }

  lemma {:induction false} GetLenOfPrefix(a: bytes, b: bytes, k: nat)
    requires k <= |a| && k <= |b| && a[..k] == b[..k]
    ensures GetLen(a, k) == GetLen(b, k)
  {
    if k > 0 {
      assert a[..k][..k - 1] == a[..k - 1] && b[..k][..k - 1] == b[..k - 1];
      assert a[k - 1] == a[..k][k - 1] == b[..k][k - 1] == b[k - 1];
      GetLenOfPrefix(a, b, k - 1);
    }
  }

  lemma {:induction false} GetPutLen(n: nat, k: nat)
    requires n < Power256(k)
    ensures |PutLen(n, k)| == k && GetLen(PutLen(n, k), k) == n
  {
    PutLenLength(n, k);
    if k > 0 {
      GetPutLen(n / 256, k - 1);
      GetLenOfPrefix(PutLen(n, k), PutLen(n / 256, k - 1), k - 1);
    }
  }

  lemma {:induction false} PutGetLen(b: bytes, k: nat)
    requires k <= |b|
    ensures GetLen(b, k) < Power256(k) && PutLen(GetLen(b, k), k) == b[..k]
  {
    if k > 0 {
      PutGetLen(b, k - 1);
      assert b[..k] == b[..k - 1] + [b[k - 1]];
    }
  }

  // ------------------------------------------------------------------ reading

  /** The length or count in the k bytes after the first one. */
  function TakeLen(b: bytes, k: nat): (r: Parsed<nat>)
    ensures r.Done? ==> r.len == 1 + k <= |b|
  {
    if |b| < 1 + k then Eof else Done(GetLen(b[1..], k), 1 + k)
  }

  /** The fixed + length bytes after a length of k bytes. */
  function TakeRaw(b: bytes, k: nat, fixed: nat): (r: Parsed<bytes>)
    ensures r.Done? ==> 1 <= r.len <= |b|
  {
    match TakeLen(b, k)
    case Done(n, m) =>
      if |b| < m + fixed + n then Eof else Done(b[m..m + fixed + n], m + fixed + n)
    case Eof => Eof
    case Bad => Bad
  }

  /** Reads one value from the front of b, or says that b ends too early, or is no MessagePack. */
  function Parse(b: bytes): (r: Parsed<Value>)
    ensures r.Done? ==> 1 <= r.len <= |b|
    decreases |b|, 1
  {
    if b == [] then Eof else ParseAs(b, ShapeOf(b[0]))
  }

  /** Reads a value whose first byte announces the given shape. */
  function ParseAs(b: bytes, shape: Shape): (r: Parsed<Value>)
    requires b != []
    ensures r.Done? ==> 1 <= r.len <= |b|
    decreases |b|, 0
  {
    match shape
    case Reserved => Bad
    case Raw(k, fixed) =>
      (match TakeRaw(b, k, fixed)
       case Done(data, m) => Done(Scalar(b[0], data), m)
       case Eof => Eof
       case Bad => Bad)
    case Nested(k, fixed, per) =>
      match TakeLen(b, k)
      case Done(count, m) =>
        (match ParseItems(b[m..], fixed + per * count)
         case Done(items, m') => Done(Items(b[0], items), m + m')
         case Eof => Eof
         case Bad => Bad)
      case Eof => Eof
      case Bad => Bad
  }

  function ParseItems(b: bytes, n: nat): (r: Parsed<seq<Value>>)
    ensures r.Done? ==> r.len <= |b|
    decreases |b|, n + 2
  {
    if n == 0 then Done([], 0)
    else
      match Parse(b)
      case Done(v, m) =>
        (match ParseItems(b[m..], n - 1)
         case Done(vs, m') => Done([v] + vs, m + m')
         case Eof => Eof
         case Bad => Bad)
      case Eof => Eof
      case Bad => Bad
  }

  lemma MoreBytesLen(b: bytes, k: nat, more: bytes)
    ensures TakeLen(b, k).Done? ==> TakeLen(b + more, k) == TakeLen(b, k)
  {
    if 1 + k <= |b| {
      assert (b + more)[1..][..k] == b[1..][..k];
      GetLenOfPrefix(b[1..], (b + more)[1..], k);
    }
  }

  lemma MoreBytesRaw(b: bytes, k: nat, fixed: nat, more: bytes)
    ensures TakeRaw(b, k, fixed).Done? ==> TakeRaw(b + more, k, fixed) == TakeRaw(b, k, fixed)
  {
    MoreBytesLen(b, k, more);
    if TakeRaw(b, k, fixed).Done? {
      var m := TakeRaw(b, k, fixed).len;
      assert (b + more)[1 + k..m] == b[1 + k..m];
    }
  }

  /** More bytes behind a value, or behind what is no value, change nothing. */
  lemma {:induction false} MoreBytes(b: bytes, more: bytes)
    ensures !Parse(b).Eof? ==> Parse(b + more) == Parse(b)
    decreases |b|, 1
  {
    if b != [] {
      assert (b + more)[0] == b[0];
      MoreBytesAs(b, ShapeOf(b[0]), more);
    }
  }

  lemma {:induction false} MoreBytesAs(b: bytes, shape: Shape, more: bytes)
    requires b != []
    ensures !ParseAs(b, shape).Eof? ==> ParseAs(b + more, shape) == ParseAs(b, shape)
    decreases |b|, 0
  {
    match shape
    case Reserved =>
    case Raw(k, fixed) => MoreBytesRaw(b, k, fixed, more);
    case Nested(k, fixed, per) =>
      MoreBytesLen(b, k, more);
      if TakeLen(b, k).Done? {
        var m := TakeLen(b, k).len;
        assert (b + more)[m..] == b[m..] + more;
        MoreBytesItems(b[m..], fixed + per * TakeLen(b, k).value, more);
      }
  }

  lemma {:induction false} MoreBytesItems(b: bytes, n: nat, more: bytes)
    ensures !ParseItems(b, n).Eof? ==> ParseItems(b + more, n) == ParseItems(b, n)
    decreases |b|, n + 2
  {
    if n > 0 {
      MoreBytes(b, more);
      if Parse(b).Done? {
        var m := Parse(b).len;
        assert (b + more)[m..] == b[m..] + more;
        MoreBytesItems(b[m..], n - 1, more);
      }
    }
  }

  // ------------------------------------------------------------------ writing

  /** What follows the tag: a length or count in k bytes, and then the body. */
  function Header(tag: byte, n: nat, k: nat): bytes {
    [tag] + PutLen(n, k)
  }

  ghost predicate RawFits(shape: Shape, size: nat) {
    shape.Raw? && shape.fixed <= size < shape.fixed + Power256(shape.lenBytes)
  }

  ghost predicate CountFits(shape: Shape, items: nat, count: nat) {
    shape.Nested? && items == shape.fixed + shape.per * count && count < Power256(shape.lenBytes)
  }

  function CountOf(shape: Shape, items: nat): nat {
    if shape.Nested? && shape.per > 0 && shape.fixed <= items
    then (items - shape.fixed) / shape.per else 0
  }

  /** The tag says how much data or how many items follow. */
  ghost predicate WellFormed(v: Value) {
    match v
    case Scalar(tag, data) => RawFits(ShapeOf(tag), |data|)
    case Items(tag, items) =>
      AllWellFormed(items) && CountFits(ShapeOf(tag), |items|, CountOf(ShapeOf(tag), |items|))
  }

  ghost predicate AllWellFormed(items: seq<Value>) {
    items == [] || (WellFormed(items[0]) && AllWellFormed(items[1..]))
  }

  ghost function Encode(v: Value): bytes
    requires WellFormed(v)
  {
    match v
    case Scalar(tag, data) =>
      var shape := ShapeOf(tag);
      Header(tag, |data| - shape.fixed, shape.lenBytes) + data
    case Items(tag, items) =>
      var shape := ShapeOf(tag);
      Header(tag, CountOf(shape, |items|), shape.lenBytes) + EncodeAll(items)
  }

  ghost function EncodeAll(items: seq<Value>): bytes
    requires AllWellFormed(items)
  {
    if items == [] then [] else Encode(items[0]) + EncodeAll(items[1..])
  }

  lemma TakeHeader(tag: byte, n: nat, k: nat, rest: bytes)
    requires n < Power256(k)
    ensures var b := Header(tag, n, k) + rest;
            TakeLen(b, k) == Done(n, 1 + k) && b[0] == tag && b[1 + k..] == rest
  {
    var b := Header(tag, n, k) + rest;
    GetPutLen(n, k);
    assert b[1..][..k] == PutLen(n, k)[..k];
    GetLenOfPrefix(b[1..], PutLen(n, k), k);
  }

  lemma TakeRawBack(tag: byte, data: bytes, k: nat, fixed: nat, rest: bytes)
    requires fixed <= |data| < fixed + Power256(k)
    ensures var b := Header(tag, |data| - fixed, k) + data;
            TakeRaw(b + rest, k, fixed) == Done(data, |b|) && (b + rest)[0] == tag
  {
    var h := Header(tag, |data| - fixed, k);
    assert (h + data) + rest == h + (data + rest);
    TakeHeader(tag, |data| - fixed, k, data + rest);
    PutLenLength(|data| - fixed, k);
    var b := h + (data + rest);
    assert b[1 + k..][..|data|] == data;
    assert b[1 + k..1 + k + |data|] == b[1 + k..][..|data|];
  }

  /** A tag with a count, and behind it items that read back. */
  lemma ItemsAfterHeader(tag: byte, shape: Shape, items: seq<Value>, count: nat, body: bytes, rest: bytes)
    requires CountFits(shape, |items|, count)
    requires ParseItems(body + rest, |items|) == Done(items, |body|)
    ensures var b := Header(tag, count, shape.lenBytes) + body;
            (b + rest)[0] == tag && ParseAs(b + rest, shape) == Done(Items(tag, items), |b|)
  {
    var h := Header(tag, count, shape.lenBytes);
    assert (h + body) + rest == h + (body + rest);
    TakeHeader(tag, count, shape.lenBytes, body + rest);
    PutLenLength(count, shape.lenBytes);
  }

  /** Reading what was written, whatever follows it. */
  lemma {:induction false} ParseEncode(v: Value, rest: bytes)
    requires WellFormed(v)
    ensures Parse(Encode(v) + rest) == Done(v, |Encode(v)|)
    decreases v
  {
    match v
    case Scalar(tag, data) => TakeRawBack(tag, data, ShapeOf(tag).lenBytes, ShapeOf(tag).fixed, rest);
    case Items(tag, items) =>
      ParseEncodeAll(items, rest);
      ItemsAfterHeader(tag, ShapeOf(tag), items, CountOf(ShapeOf(tag), |items|), EncodeAll(items), rest);
  }

  lemma {:induction false} ParseEncodeAll(items: seq<Value>, rest: bytes)
    requires AllWellFormed(items)
    ensures ParseItems(EncodeAll(items) + rest, |items|) == Done(items, |EncodeAll(items)|)
    decreases items
  {
    if items != [] {
      var first, others := Encode(items[0]), EncodeAll(items[1..]);
      var b := EncodeAll(items) + rest;
      assert b == first + (others + rest);
      ParseEncode(items[0], others + rest);
      assert b[|first|..] == others + rest;
      ParseEncodeAll(items[1..], rest);
      assert [items[0]] + items[1..] == items;
    }
  }

  lemma HeaderBack(b: bytes, k: nat)
    requires TakeLen(b, k).Done?
    ensures var n := TakeLen(b, k).value;
            n < Power256(k) && Header(b[0], n, k) == b[..1 + k]
  {
    PutGetLen(b[1..], k);
    assert b[..1 + k] == [b[0]] + b[1..][..k];
  }

  lemma CountRecovered(tag: byte, count: nat)
    requires ShapeOf(tag).Nested?
    ensures var s := ShapeOf(tag); CountOf(s, s.fixed + s.per * count) == count
  {
    var per := ShapeOf(tag).per;
    assert per == 1 || per == 2;
  }

  lemma RawBack(b: bytes, k: nat, fixed: nat)
    requires TakeRaw(b, k, fixed).Done?
    ensures var r := TakeRaw(b, k, fixed);
            && fixed <= |r.value| < fixed + Power256(k)
            && Header(b[0], |r.value| - fixed, k) + r.value == b[..r.len]
  {
    HeaderBack(b, k);
    var m := TakeRaw(b, k, fixed).len;
    assert b[..m] == b[..1 + k] + b[1 + k..m];
  }

  lemma NestedEncoding(tag: byte, items: seq<Value>, count: nat)
    requires CountFits(ShapeOf(tag), |items|, count) && AllWellFormed(items)
    ensures WellFormed(Items(tag, items))
    ensures Encode(Items(tag, items)) == Header(tag, count, ShapeOf(tag).lenBytes) + EncodeAll(items)
  {
    CountRecovered(tag, count);
    var shape := ShapeOf(tag);
    assert CountOf(shape, |items|) == count;
    NestedEncodingAs(tag, shape, items, count);
  }

  lemma NestedEncodingAs(tag: byte, shape: Shape, items: seq<Value>, count: nat)
    requires shape == ShapeOf(tag) && CountFits(shape, |items|, count) && AllWellFormed(items)
    requires CountOf(shape, |items|) == count
    ensures WellFormed(Items(tag, items))
    ensures Encode(Items(tag, items)) == Header(tag, count, shape.lenBytes) + EncodeAll(items)
  {
  }

  lemma ItemsBack(b: bytes, shape: Shape, items: seq<Value>, m: nat)
    requires b != [] && shape == ShapeOf(b[0]) && shape.Nested? && TakeLen(b, shape.lenBytes).Done?
    requires var k := shape.lenBytes; var count := TakeLen(b, k).value;
             && |items| == shape.fixed + shape.per * count && AllWellFormed(items)
             && m <= |b| - (1 + k) && EncodeAll(items) == b[1 + k..][..m]
    ensures WellFormed(Items(b[0], items))
    ensures Encode(Items(b[0], items)) == b[..1 + shape.lenBytes + m]
  {
    var k := shape.lenBytes;
    HeaderBack(b, k);
    NestedEncoding(b[0], items, TakeLen(b, k).value);
    SliceInTwo(b, 1 + k, m);
  }

  /** A value has one encoding only: the bytes it is read from. */
  lemma {:induction false} EncodeParse(b: bytes)
    requires Parse(b).Done?
    ensures WellFormed(Parse(b).value) && Encode(Parse(b).value) == b[..Parse(b).len]
    decreases |b|, 1
  {
    EncodeParseAs(b, ShapeOf(b[0]));
  }

  lemma {:induction false} EncodeParseAs(b: bytes, shape: Shape)
    requires b != [] && shape == ShapeOf(b[0]) && ParseAs(b, shape).Done?
    ensures var r := ParseAs(b, shape); WellFormed(r.value) && Encode(r.value) == b[..r.len]
    decreases |b|, 0
  {
    if shape.Raw? {
      RawParsed(b, shape);
    } else {
      NestedParsed(b, shape);
      var k := shape.lenBytes;
      var count := ItemCount(b, shape);
      EncodeParseItems(b[1 + k..], count);
      ItemsBack(b, shape, ParseItems(b[1 + k..], count).value, ParseItems(b[1 + k..], count).len);
    }
  }

  lemma RawParsed(b: bytes, shape: Shape)
    requires b != [] && shape == ShapeOf(b[0]) && shape.Raw? && ParseAs(b, shape).Done?
    ensures var r := ParseAs(b, shape); WellFormed(r.value) && Encode(r.value) == b[..r.len]
  {
    RawBack(b, shape.lenBytes, shape.fixed);
  }

  /** How many items follow the count in a nested value. */
  function ItemCount(b: bytes, shape: Shape): nat
    requires shape.Nested? && TakeLen(b, shape.lenBytes).Done?
  {
    shape.fixed + shape.per * TakeLen(b, shape.lenBytes).value
  }

  lemma NestedParsed(b: bytes, shape: Shape)
    requires b != [] && !shape.Raw? && ParseAs(b, shape).Done?
    ensures shape.Nested? && TakeLen(b, shape.lenBytes).Done?
    ensures var r := ParseItems(b[1 + shape.lenBytes..], ItemCount(b, shape));
            r.Done? && ParseAs(b, shape) == Done(Items(b[0], r.value), 1 + shape.lenBytes + r.len)
  {
  }

  lemma EncodeAllCons(v: Value, vs: seq<Value>)
    requires WellFormed(v) && AllWellFormed(vs)
    ensures AllWellFormed([v] + vs) && EncodeAll([v] + vs) == Encode(v) + EncodeAll(vs)
  {
    assert ([v] + vs)[1..] == vs;
  }

  lemma {:induction false} EncodeParseItems(b: bytes, n: nat)
    requires ParseItems(b, n).Done?
    ensures var r := ParseItems(b, n);
            && |r.value| == n && AllWellFormed(r.value) && EncodeAll(r.value) == b[..r.len]
    decreases |b|, n + 2
  {
    if n > 0 {
      var m := Parse(b).len;
      EncodeParse(b);
      EncodeParseItems(b[m..], n - 1);
      var tail := ParseItems(b[m..], n - 1);
      EncodeAllCons(Parse(b).value, tail.value);
      SliceInTwo(b, m, tail.len);
    }
  }

  lemma SliceInTwo(b: bytes, m: nat, n: nat)
    requires m + n <= |b|
    ensures b[..m + n] == b[..m] + b[m..][..n]
  {
  }

  /** No encoding is a strict prefix of another: a cut-off value always reads as incomplete. */
  lemma CutOffIsEof(v: Value, n: nat)
    requires WellFormed(v) && n < |Encode(v)|
    ensures Parse(Encode(v)[..n]) == Eof
  {
    var whole, part := Encode(v), Encode(v)[..n];
    assert part + whole[n..] == whole == whole + [];
    ParseEncode(v, []);
    MoreBytes(part, whole[n..]);
  }
}
