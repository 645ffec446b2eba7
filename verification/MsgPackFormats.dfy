/**
 * MessagePack written out format by format, from the "Formats" section of the MessagePack
 * specification, with every tag and every length spelled out; and that the reader takes exactly
 * what is written this way.
 */
module MsgPackFormats {
  import opened Common
  import opened MsgPack
  import opened MsgPackCodec

  /** Where the size stands: in the tag, or in the next one, two or four bytes. */
  datatype Width = Fix | W8 | W16 | W32

  datatype Numeric = U8 | U16 | U32 | U64 | I8 | I16 | I32 | I64 | F32 | F64

  datatype Message =
    | Nil
    | Bool(truth: bool)
    | Positive(n: nat)                         // positive fixint
    | Negative(n: nat)                         // negative fixint, for n - 32
    | Number(kind: Numeric, digits: bytes)
    | Str(w: Width, text: bytes)
    | Bin(w: Width, data: bytes)
    | Ext(w: Width, of: byte, data: bytes)
    | Array(w: Width, items: seq<Message>)
    | Map(w: Width, pairs: seq<Pair>)

  datatype Pair = Pair(key: Message, value: Message)

  function NumberTag(kind: Numeric): byte {
    match kind
    case F32 => 0xca
    case F64 => 0xcb
    case U8 => 0xcc
    case U16 => 0xcd
    case U32 => 0xce
    case U64 => 0xcf
    case I8 => 0xd0
    case I16 => 0xd1
    case I32 => 0xd2
    case I64 => 0xd3
  }

  function NumberSize(kind: Numeric): nat {
    match kind
    case F32 => 4
    case F64 => 8
    case U8 => 1
    case U16 => 2
    case U32 => 4
    case U64 => 8
    case I8 => 1
    case I16 => 2
    case I32 => 4
    case I64 => 8
  }

  /** A size that its bytes, or `fix` values of the tag, can tell. */
  predicate Fits(w: Width, n: nat, fix: nat) {
    match w
    case Fix => n < fix
    case W8 => n < 0x100
    case W16 => n < 0x1_0000
    case W32 => n < 0x1_0000_0000
  }

  function Be16(n: nat): bytes
    requires n < 0x1_0000
  {
    [(n / 0x100) as byte, (n % 0x100) as byte]
  }

  function Be32(n: nat): bytes
    requires n < 0x1_0000_0000
  {
    [(n / 0x100_0000) as byte, (n / 0x1_0000 % 0x100) as byte, (n / 0x100 % 0x100) as byte, (n % 0x100) as byte]
  }

  predicate Valid(m: Message) {
    match m
    case Nil => true
    case Bool(_) => true
    case Positive(n) => n < 0x80
    case Negative(n) => n < 32
    case Number(kind, digits) => |digits| == NumberSize(kind)
    case Str(w, text) => Fits(w, |text|, 32)
    case Bin(w, data) => w != Fix && Fits(w, |data|, 0)
    case Ext(w, _, data) => if w == Fix then |data| in {1, 2, 4, 8, 16} else Fits(w, |data|, 0)
    case Array(w, items) => w != W8 && Fits(w, |items|, 16) && AllValid(items)
    case Map(w, pairs) => w != W8 && Fits(w, |pairs|, 16) && PairsValid(pairs)
  }

  predicate AllValid(items: seq<Message>) {
    items == [] || (Valid(items[0]) && AllValid(items[1..]))
  }

  predicate PairsValid(pairs: seq<Pair>) {
    pairs == [] || (PairValid(pairs[0]) && PairsValid(pairs[1..]))
  }

  predicate PairValid(p: Pair) { Valid(p.key) && Valid(p.value) }

  /** What stands before the contents of a message. */
  function Head(m: Message): bytes
    requires Valid(m)
  {
    match m
    case Nil => [0xc0]
    case Bool(truth) => if truth then [0xc3] else [0xc2]
    case Positive(n) => [n as byte]
    case Negative(n) => [(0xe0 + n) as byte]
    case Number(kind, _) => [NumberTag(kind)]
    case Str(w, text) =>
      (match w
       case Fix => [(0xa0 + |text|) as byte]
       case W8 => [0xd9, |text| as byte]
       case W16 => [0xda] + Be16(|text|)
       case W32 => [0xdb] + Be32(|text|))
    case Bin(w, data) =>
      (match w
       case W8 => [0xc4, |data| as byte]
       case W16 => [0xc5] + Be16(|data|)
       case W32 => [0xc6] + Be32(|data|))
    case Ext(w, _, data) =>
      (match w
       case Fix =>
         if |data| == 1 then [0xd4] else if |data| == 2 then [0xd5] else if |data| == 4 then [0xd6]
         else if |data| == 8 then [0xd7] else [0xd8]
       case W8 => [0xc7, |data| as byte]
       case W16 => [0xc8] + Be16(|data|)
       case W32 => [0xc9] + Be32(|data|))
    case Array(w, items) =>
      (match w
       case Fix => [(0x90 + |items|) as byte]
       case W16 => [0xdc] + Be16(|items|)
       case W32 => [0xdd] + Be32(|items|))
    case Map(w, pairs) =>
      (match w
       case Fix => [(0x80 + |pairs|) as byte]
       case W16 => [0xde] + Be16(|pairs|)
       case W32 => [0xdf] + Be32(|pairs|))
  }

  function Write(m: Message): bytes
    requires Valid(m)
  {
    Head(m) +
    match m
    case Nil => []
    case Bool(_) => []
    case Positive(_) => []
    case Negative(_) => []
    case Number(_, digits) => digits
    case Str(_, text) => text
    case Bin(_, data) => data
    case Ext(_, of, data) => [of] + data
    case Array(_, items) => WriteAll(items)
    case Map(_, pairs) => WritePairs(pairs)
  }

  function WriteAll(items: seq<Message>): bytes
    requires AllValid(items)
  {
    if items == [] then [] else Write(items[0]) + WriteAll(items[1..])
  }

  function WritePairs(pairs: seq<Pair>): bytes
    requires PairsValid(pairs)
  {
    if pairs == [] then []
    else WritePair(pairs[0]) + WritePairs(pairs[1..])
  }

  function WritePair(p: Pair): bytes
    requires PairValid(p)
  {
    Write(p.key) + Write(p.value)
  }

  // ------------------------------------------------------------------ what the reader sees

  /** A head announces: k bytes of size, and then fixed more bytes or values. */
  ghost predicate Announces(head: bytes, k: nat, size: nat) {
    |head| == 1 + k && GetLen(head[1..], k) == size
  }

  lemma OneByte(tag: byte)
    ensures Announces([tag], 0, 0)
  {
  }

  lemma SizeIn8(tag: byte, n: nat)
    requires n < 0x100
    ensures Announces([tag, n as byte], 1, n)
  {
    var b := [n as byte];
    assert [tag, n as byte][1..] == b;
    assert GetLen(b, 0) == 0;
  }

  lemma SizeIn16(tag: byte, n: nat)
    requires n < 0x1_0000
    ensures Announces([tag] + Be16(n), 2, n)
  {
    var b := Be16(n);
    assert ([tag] + b)[1..] == b;
    assert GetLen(b, 0) == 0;
    assert GetLen(b, 1) == n / 0x100;
  }

  lemma DivTwice(n: nat, k: nat)
    requires k == 0x100 || k == 0x1_0000
    ensures n / (k * 0x100) == n / k / 0x100
  {
  }

  lemma SizeIn32(tag: byte, n: nat)
    requires n < 0x1_0000_0000
    ensures Announces([tag] + Be32(n), 4, n)
  {
    var b := Be32(n);
    assert ([tag] + b)[1..] == b;
    DivTwice(n, 0x100);
    DivTwice(n, 0x1_0000);
    assert GetLen(b, 0) == 0;
    assert GetLen(b, 1) == n / 0x100_0000;
    assert GetLen(b, 2) == n / 0x1_0000;
    assert GetLen(b, 3) == n / 0x100;
  }

  lemma SizeIsRead(head: bytes, k: nat, size: nat, rest: bytes)
    requires Announces(head, k, size)
    ensures TakeLen(head + rest, k) == Done(size, 1 + k) && (head + rest)[1 + k..] == rest
    ensures (head + rest)[0] == head[0]
  {
    var b := head + rest;
    assert b[1..][..k] == head[1..][..k];
    GetLenOfPrefix(head[1..], b[1..], k);
  }

  lemma ReadsData(head: bytes, k: nat, fixed: nat, data: bytes, rest: bytes)
    requires fixed <= |data| && Announces(head, k, |data| - fixed) && ShapeOf(head[0]) == Raw(k, fixed)
    ensures Parse((head + data) + rest).Done? && Parse((head + data) + rest).len == |head + data|
  {
    ConcatAssoc(head, data, rest);
    SizeIsRead(head, k, |data| - fixed, data + rest);
  }

  lemma ReadsValues(head: bytes, k: nat, fixed: nat, per: nat, size: nat, body: bytes, rest: bytes)
    requires Announces(head, k, size) && ShapeOf(head[0]) == Nested(k, fixed, per)
    requires var r := ParseItems(body + rest, fixed + per * size); r.Done? && r.len == |body|
    ensures Parse((head + body) + rest).Done? && Parse((head + body) + rest).len == |head + body|
  {
    ConcatAssoc(head, body, rest);
    SizeIsRead(head, k, size, body + rest);
  }

  lemma ReadsStr(m: Message, rest: bytes)
    requires Valid(m) && m.Str?
    ensures Parse(Write(m) + rest).Done? && Parse(Write(m) + rest).len == |Write(m)|
  {
    var n := |m.text|;
    match m.w
    case Fix => OneByte((0xa0 + n) as byte); ReadsData(Head(m), 0, n, m.text, rest);
    case W8 => SizeIn8(0xd9, n); ReadsData(Head(m), 1, 0, m.text, rest);
    case W16 => SizeIn16(0xda, n); ReadsData(Head(m), 2, 0, m.text, rest);
    case W32 => SizeIn32(0xdb, n); ReadsData(Head(m), 4, 0, m.text, rest);
  }

  lemma ReadsBin(m: Message, rest: bytes)
    requires Valid(m) && m.Bin?
    ensures Parse(Write(m) + rest).Done? && Parse(Write(m) + rest).len == |Write(m)|
  {
    var n := |m.data|;
    match m.w
    case W8 => SizeIn8(0xc4, n); ReadsData(Head(m), 1, 0, m.data, rest);
    case W16 => SizeIn16(0xc5, n); ReadsData(Head(m), 2, 0, m.data, rest);
    case W32 => SizeIn32(0xc6, n); ReadsData(Head(m), 4, 0, m.data, rest);
  }

  lemma ReadsExt(m: Message, rest: bytes)
    requires Valid(m) && m.Ext?
    ensures Parse(Write(m) + rest).Done? && Parse(Write(m) + rest).len == |Write(m)|
  {
    var n := |m.data|;
    var data := [m.of] + m.data;
    match m.w
    case Fix => OneByte(Head(m)[0]); ReadsData(Head(m), 0, n + 1, data, rest);
    case W8 => SizeIn8(0xc7, n); ReadsData(Head(m), 1, 1, data, rest);
    case W16 => SizeIn16(0xc8, n); ReadsData(Head(m), 2, 1, data, rest);
    case W32 => SizeIn32(0xc9, n); ReadsData(Head(m), 4, 1, data, rest);
  }

  lemma ReadsArray(m: Message, rest: bytes)
    requires Valid(m) && m.Array?
    requires var r := ParseItems(WriteAll(m.items) + rest, |m.items|); r.Done? && r.len == |WriteAll(m.items)|
    ensures Parse(Write(m) + rest).Done? && Parse(Write(m) + rest).len == |Write(m)|
  {
    var n, body := |m.items|, WriteAll(m.items);
    match m.w
    case Fix => OneByte((0x90 + n) as byte); ReadsValues(Head(m), 0, n, 1, 0, body, rest);
    case W16 => SizeIn16(0xdc, n); ReadsValues(Head(m), 2, 0, 1, n, body, rest);
    case W32 => SizeIn32(0xdd, n); ReadsValues(Head(m), 4, 0, 1, n, body, rest);
  }

  lemma ReadsMap(m: Message, rest: bytes)
    requires Valid(m) && m.Map?
    requires var r := ParseItems(WritePairs(m.pairs) + rest, 2 * |m.pairs|);
             r.Done? && r.len == |WritePairs(m.pairs)|
    ensures Parse(Write(m) + rest).Done? && Parse(Write(m) + rest).len == |Write(m)|
  {
    var n, body := |m.pairs|, WritePairs(m.pairs);
    match m.w
    case Fix => OneByte((0x80 + n) as byte); ReadsValues(Head(m), 0, 2 * n, 2, 0, body, rest);
    case W16 => SizeIn16(0xde, n); ReadsValues(Head(m), 2, 0, 2, n, body, rest);
    case W32 => SizeIn32(0xdf, n); ReadsValues(Head(m), 4, 0, 2, n, body, rest);
  }

  lemma NextItem(first: bytes, others: bytes, n: nat)
    requires Parse(first + others).Done? && Parse(first + others).len == |first|
    requires ParseItems(others, n).Done?
    ensures var r := ParseItems(first + others, n + 1);
            r.Done? && r.len == |first| + ParseItems(others, n).len
  {
    assert (first + others)[|first|..] == others;
  }

  /** Whatever follows it, a written message is read, and no byte more. */
  lemma {:induction false} ReadsWritten(m: Message, rest: bytes)
    requires Valid(m)
    ensures Parse(Write(m) + rest).Done? && Parse(Write(m) + rest).len == |Write(m)|
    decreases m
  {
    match m
    case Number(kind, digits) =>
      OneByte(NumberTag(kind));
      ReadsData(Head(m), 0, |digits|, digits, rest);
    case Str(_, _) => ReadsStr(m, rest);
    case Bin(_, _) => ReadsBin(m, rest);
    case Ext(_, _, _) => ReadsExt(m, rest);
    case Array(_, items) =>
      ReadsAll(items, rest);
      ReadsArray(m, rest);
    case Map(_, pairs) =>
      ReadsPairs(pairs, rest);
      ReadsMap(m, rest);
    case _ =>
      OneByte(Head(m)[0]);
      ReadsData(Head(m), 0, 0, [], rest);
  }

  lemma {:induction false} ReadsAll(items: seq<Message>, rest: bytes)
    requires AllValid(items)
    ensures var r := ParseItems(WriteAll(items) + rest, |items|); r.Done? && r.len == |WriteAll(items)|
    decreases items
  {
    if items != [] {
      ReadsAll(items[1..], rest);
      ReadsWritten(items[0], WriteAll(items[1..]) + rest);
      ConcatAssoc(Write(items[0]), WriteAll(items[1..]), rest);
      NextItem(Write(items[0]), WriteAll(items[1..]) + rest, |items| - 1);
    }
  }

  lemma {:induction false} ReadsPairs(pairs: seq<Pair>, rest: bytes)
    requires PairsValid(pairs)
    ensures var r := ParseItems(WritePairs(pairs) + rest, 2 * |pairs|);
            r.Done? && r.len == |WritePairs(pairs)|
    decreases pairs
  {
    if pairs != [] {
      var others := WritePairs(pairs[1..]);
      ReadsPairs(pairs[1..], rest);
      ReadsPair(pairs[0], others + rest, 2 * (|pairs| - 1));
      ConcatAssoc(WritePair(pairs[0]), others, rest);
    }
  }

  lemma {:induction false} ReadsPair(p: Pair, others: bytes, n: nat)
    requires PairValid(p) && ParseItems(others, n).Done?
    ensures var r := ParseItems(WritePair(p) + others, n + 2);
            r.Done? && r.len == |WritePair(p)| + ParseItems(others, n).len
    decreases p
  {
    ReadsWritten(p.value, others);
    NextItem(Write(p.value), others, n);
    ReadsWritten(p.key, Write(p.value) + others);
    NextItem(Write(p.key), Write(p.value) + others, n + 1);
    ConcatAssoc(Write(p.key), Write(p.value), others);
  }

  // ------------------------------------------------------------------ and nothing else

  lemma SizeBytes(n: nat)
    ensures n < 0x100 ==> PutLen(n, 1) == [n as byte]
    ensures n < 0x1_0000 ==> PutLen(n, 2) == Be16(n)
    ensures n < 0x1_0000_0000 ==> PutLen(n, 4) == Be32(n)
  {
    DivTwice(n, 0x100);
    DivTwice(n, 0x1_0000);
    assert PutLen(n / 0x100_0000 / 0x100, 0) == [];
    assert PutLen(n / 0x100_0000, 1) == [(n / 0x100_0000 % 0x100) as byte];
    assert PutLen(n / 0x1_0000, 2) == PutLen(n / 0x100_0000, 1) + [(n / 0x1_0000 % 0x100) as byte];
    assert PutLen(n / 0x100, 3) == PutLen(n / 0x1_0000, 2) + [(n / 0x100 % 0x100) as byte];
  }

  /** The header of a value, with its size written out. */
  lemma HeaderBytes(tag: byte, n: nat)
    ensures Header(tag, n, 0) == [tag]
    ensures n < Power256(1) ==> n < 0x100 && Header(tag, n, 1) == [tag, n as byte]
    ensures n < Power256(2) ==> n < 0x1_0000 && Header(tag, n, 2) == [tag] + Be16(n)
    ensures n < Power256(4) ==> n < 0x1_0000_0000 && Header(tag, n, 4) == [tag] + Be32(n)
  {
    SizeBytes(n);
    assert Power256(3) == 0x100_0000;
  }

  ghost predicate WritesAs(m: Message, b: bytes) { Valid(m) && Write(m) == b }

  lemma SmallScalar(tag: byte, data: bytes) returns (m: Message)
    requires WellFormed(Scalar(tag, data)) && (tag < 0xc4 || 0xe0 <= tag)
    ensures WritesAs(m, Encode(Scalar(tag, data)))
  {
    HeaderBytes(tag, 0);
    var t := tag as int;
    m := if t < 0x80 then Positive(t) else if t < 0xc0 then Str(Fix, data) else if t == 0xc0 then Nil
         else if t < 0xc4 then Bool(tag == 0xc3) else Negative(t - 0xe0);
  }

  lemma BinScalar(tag: byte, data: bytes) returns (m: Message)
    requires WellFormed(Scalar(tag, data)) && 0xc4 <= tag < 0xc7
    ensures WritesAs(m, Encode(Scalar(tag, data)))
  {
    HeaderBytes(tag, |data|);
    match tag
    case 0xc4 => m := Bin(W8, data);
    case 0xc5 => m := Bin(W16, data);
    case _ => m := Bin(W32, data);
  }

  lemma StrScalar(tag: byte, data: bytes) returns (m: Message)
    requires WellFormed(Scalar(tag, data)) && 0xd9 <= tag < 0xdc
    ensures WritesAs(m, Encode(Scalar(tag, data)))
  {
    HeaderBytes(tag, |data|);
    match tag
    case 0xd9 => m := Str(W8, data);
    case 0xda => m := Str(W16, data);
    case _ => m := Str(W32, data);
  }

  lemma ExtScalar(tag: byte, data: bytes) returns (m: Message)
    requires WellFormed(Scalar(tag, data)) && (0xc7 <= tag < 0xca || 0xd4 <= tag < 0xd9)
    ensures WritesAs(m, Encode(Scalar(tag, data)))
  {
    HeaderBytes(tag, |data| - 1);
    HeaderBytes(tag, 0);
    assert data == [data[0]] + data[1..];
    match tag
    case 0xc7 => m := Ext(W8, data[0], data[1..]);
    case 0xc8 => m := Ext(W16, data[0], data[1..]);
    case 0xc9 => m := Ext(W32, data[0], data[1..]);
    case _ => m := Ext(Fix, data[0], data[1..]);
  }

  function NumericOf(tag: byte): Numeric {
    match tag
    case 0xca => F32
    case 0xcb => F64
    case 0xcc => U8
    case 0xcd => U16
    case 0xce => U32
    case 0xcf => U64
    case 0xd0 => I8
    case 0xd1 => I16
    case 0xd2 => I32
    case _ => I64
  }

  lemma NumberShape(tag: byte)
    requires 0xca <= tag < 0xd4
    ensures NumberTag(NumericOf(tag)) == tag && ShapeOf(tag) == Raw(0, NumberSize(NumericOf(tag)))
  {
  }

  lemma NumberScalar(tag: byte, data: bytes) returns (m: Message)
    requires WellFormed(Scalar(tag, data)) && 0xca <= tag < 0xd4
    ensures WritesAs(m, Encode(Scalar(tag, data)))
  {
    NumberShape(tag);
    HeaderBytes(tag, 0);
    m := Number(NumericOf(tag), data);
  }

  predicate IsArray(tag: byte) { 0x90 <= tag < 0xa0 || tag == 0xdc || tag == 0xdd }

  predicate IsMap(tag: byte) { 0x80 <= tag < 0x90 || tag == 0xde || tag == 0xdf }

  function CountBytes(tag: byte): nat {
    if tag < 0xa0 then 0 else if tag == 0xdc || tag == 0xde then 2 else 4
  }

  function ItemShape(tag: byte): Shape
    requires IsArray(tag) || IsMap(tag)
  {
    var t := tag as int;
    if t < 0x90 then Nested(0, 2 * (t - 0x80), 2) else if t < 0xa0 then Nested(0, t - 0x90, 1)
    else Nested(CountBytes(tag), 0, if IsMap(tag) then 2 else 1)
  }

  lemma NestedShape(tag: byte)
    requires IsArray(tag) || IsMap(tag)
    ensures ShapeOf(tag) == ItemShape(tag)
  {
  }

  lemma CountTold(tag: byte, size: nat, count: nat)
    requires IsArray(tag) || IsMap(tag)
    requires CountFits(ItemShape(tag), size, count)
    ensures var n := if IsMap(tag) then size / 2 else size;
            && (IsMap(tag) ==> size % 2 == 0)
            && count == (if tag < 0xa0 then 0 else n)
            && (tag < 0x90 ==> tag as int == 0x80 + n) && (0x90 <= tag < 0xa0 ==> tag as int == 0x90 + n)
            && (tag == 0xdc || tag == 0xde ==> n < 0x1_0000)
            && (tag == 0xdd || tag == 0xdf ==> n < 0x1_0000_0000)
  {
    CountFitsIn(count);
  }

  lemma CountInEncoding(tag: byte, items: seq<Value>)
    requires WellFormed(Items(tag, items))
    ensures var shape := ShapeOf(tag);
            && CountFits(shape, |items|, CountOf(shape, |items|))
            && Encode(Items(tag, items)) == Header(tag, CountOf(shape, |items|), shape.lenBytes) + EncodeAll(items)
  {
  }

  lemma CountFitsIn(n: nat)
    ensures n < Power256(0) ==> n == 0
    ensures n < Power256(2) ==> n < 0x1_0000
    ensures n < Power256(4) ==> n < 0x1_0000_0000
  {
    assert Power256(3) == 0x100_0000;
  }

  /** The count of an array or a map stands in its tag, or in two or four bytes. */
  lemma ItemsEncoding(tag: byte, items: seq<Value>)
    requires WellFormed(Items(tag, items)) && (IsArray(tag) || IsMap(tag))
    ensures var n := if IsMap(tag) then |items| / 2 else |items|;
            && (IsMap(tag) ==> |items| % 2 == 0)
            && Encode(Items(tag, items)) == Header(tag, if tag < 0xa0 then 0 else n, CountBytes(tag)) + EncodeAll(items)
            && (tag < 0x90 ==> tag as int == 0x80 + n) && (0x90 <= tag < 0xa0 ==> tag as int == 0x90 + n)
            && (tag == 0xdc || tag == 0xde ==> n < 0x1_0000)
            && (tag == 0xdd || tag == 0xdf ==> n < 0x1_0000_0000)
  {
    NestedShape(tag);
    CountInEncoding(tag, items);
    CountTold(tag, |items|, CountOf(ItemShape(tag), |items|));
  }

  lemma CountHeader(tag: byte, n: nat)
    ensures Header(tag, 0, 0) == [tag]
    ensures n < 0x1_0000 ==> Header(tag, n, 2) == [tag] + Be16(n)
    ensures n < 0x1_0000_0000 ==> Header(tag, n, 4) == [tag] + Be32(n)
  {
    SizeBytes(n);
  }

  function WidthOf(tag: byte): Width { if tag < 0xa0 then Fix else if tag == 0xdc || tag == 0xde then W16 else W32 }

  lemma ArrayHead(tag: byte, ms: seq<Message>)
    requires IsArray(tag) && AllValid(ms) && (tag < 0xa0 ==> tag as int == 0x90 + |ms|)
    requires Fits(WidthOf(tag), |ms|, 16)
    ensures var m := Array(WidthOf(tag), ms);
            Valid(m) && Write(m) == Header(tag, if tag < 0xa0 then 0 else |ms|, CountBytes(tag)) + WriteAll(ms)
  {
    var n, m := |ms|, Array(WidthOf(tag), ms);
    CountHeader(tag, n);
    if tag < 0xa0 {
      assert Head(m) == [tag];
    } else if tag == 0xdc {
      assert Head(m) == [tag] + Be16(n);
    } else {
      assert Head(m) == [tag] + Be32(n);
    }
  }

  lemma MapHead(tag: byte, pairs: seq<Pair>)
    requires IsMap(tag) && PairsValid(pairs) && (tag < 0xa0 ==> tag as int == 0x80 + |pairs|)
    requires Fits(WidthOf(tag), |pairs|, 16)
    ensures var m := Map(WidthOf(tag), pairs);
            Valid(m) && Write(m) == Header(tag, if tag < 0xa0 then 0 else |pairs|, CountBytes(tag)) + WritePairs(pairs)
  {
    var n, m := |pairs|, Map(WidthOf(tag), pairs);
    CountHeader(tag, n);
    if tag < 0xa0 {
      assert Head(m) == [tag];
    } else if tag == 0xde {
      assert Head(m) == [tag] + Be16(n);
    } else {
      assert Head(m) == [tag] + Be32(n);
    }
  }

  lemma ArrayOf(tag: byte, items: seq<Value>, ms: seq<Message>) returns (m: Message)
    requires WellFormed(Items(tag, items)) && IsArray(tag)
    requires AllValid(ms) && |ms| == |items| && WriteAll(ms) == EncodeAll(items)
    ensures WritesAs(m, Encode(Items(tag, items)))
  {
    ItemsEncoding(tag, items);
    m := Array(WidthOf(tag), ms);
    ArrayHead(tag, ms);
  }

  function PairUp(ms: seq<Message>): seq<Pair> {
    if |ms| < 2 then [] else [Pair(ms[0], ms[1])] + PairUp(ms[2..])
  }

  lemma {:induction false} PairsWritten(ms: seq<Message>)
    requires AllValid(ms) && |ms| % 2 == 0
    ensures 2 * |PairUp(ms)| == |ms| && PairsValid(PairUp(ms)) && WritePairs(PairUp(ms)) == WriteAll(ms)
  {
    if ms != [] {
      assert ms[1..][1..] == ms[2..];
      PairsWritten(ms[2..]);
      ConcatAssoc(Write(ms[0]), Write(ms[1]), WriteAll(ms[2..]));
    }
  }

  lemma MapOf(tag: byte, items: seq<Value>, ms: seq<Message>) returns (m: Message)
    requires WellFormed(Items(tag, items)) && IsMap(tag)
    requires AllValid(ms) && |ms| == |items| && WriteAll(ms) == EncodeAll(items)
    ensures WritesAs(m, Encode(Items(tag, items)))
  {
    ItemsEncoding(tag, items);
    PairsWritten(ms);
    m := Map(WidthOf(tag), PairUp(ms));
    MapHead(tag, PairUp(ms));
  }

  /** Every value the reader can give is one of the messages, written in its format. */
  lemma {:induction false} ValueIsMessage(v: Value) returns (m: Message)
    requires WellFormed(v)
    ensures WritesAs(m, Encode(v))
    decreases v
  {
    match v
    case Scalar(tag, data) =>
      if tag < 0xc4 || 0xe0 <= tag {
        m := SmallScalar(tag, data);
      } else if 0xc7 <= tag < 0xca || 0xd4 <= tag < 0xd9 {
        m := ExtScalar(tag, data);
      } else if 0xca <= tag < 0xd4 {
        m := NumberScalar(tag, data);
      } else if tag < 0xc7 {
        m := BinScalar(tag, data);
      } else {
        m := StrScalar(tag, data);
      }
    case Items(tag, items) =>
      var ms := ValuesAreMessages(items);
      if IsArray(tag) {
        m := ArrayOf(tag, items, ms);
      } else {
        m := MapOf(tag, items, ms);
      }
  }

  lemma {:induction false} ValuesAreMessages(items: seq<Value>) returns (ms: seq<Message>)
    requires AllWellFormed(items)
    ensures AllValid(ms) && |ms| == |items| && WriteAll(ms) == EncodeAll(items)
    decreases items
  {
    ms := [];
    if items != [] {
      var m := ValueIsMessage(items[0]);
      var others := ValuesAreMessages(items[1..]);
      ms := [m] + others;
      assert ms[1..] == others;
    }
  }

  /**
   * The reader takes n bytes off the front of a buffer exactly when those are some message of the
   * specification, written in one of its formats.
   */
  lemma ReadsExactlyTheMessages(b: bytes, n: nat)
    requires n <= |b|
    ensures Parse(b).Done? && Parse(b).len == n <==> exists m :: WritesAs(m, b[..n])
  {
    if Parse(b).Done? && Parse(b).len == n {
      EncodeParse(b);
      var m := ValueIsMessage(Parse(b).value);
      assert WritesAs(m, b[..n]);
    }
    if m :| WritesAs(m, b[..n]) {
      ReadsWritten(m, b[n..]);
      assert b == Write(m) + b[n..];
    }
  }

  // ------------------------------------------------------------------ incomplete or no MessagePack

  function Zeros(n: nat): (r: bytes)
    ensures |r| == n
  {
    seq(n, _ => 0)
  }

  ghost predicate Completed(b: bytes, more: bytes) {
    Parse(b + more).Done? && Parse(b + more).len == |b + more|
  }

  ghost predicate ItemsCompleted(b: bytes, n: nat, more: bytes) {
    ParseItems(b + more, n).Done? && ParseItems(b + more, n).len == |b + more|
  }

  lemma {:induction false} ZeroItems(n: nat)
    ensures ItemsCompleted([], n, Zeros(n))
  {
    assert [] + Zeros(n) == Zeros(n);
    if n > 0 {
      ZeroItems(n - 1);
      ReadsWritten(Positive(0), Zeros(n - 1));
      assert [] + Zeros(n - 1) == Zeros(n - 1) && Zeros(n) == [0] + Zeros(n - 1);
      NextItem([0], Zeros(n - 1), n - 1);
    }
  }

  /** A buffer that ends too early can be completed. */
  lemma {:induction false} Completes(b: bytes) returns (more: bytes)
    requires Parse(b).Eof?
    ensures Completed(b, more)
    decreases |b|, 1
  {
    if b == [] {
      more := [0];
      assert b + more == [0];
    } else {
      match ShapeOf(b[0])
      case Raw(k, fixed) => more := CompletesRaw(b, k, fixed);
      case Nested(k, fixed, per) => more := CompletesNested(b, k, fixed, per);
      assert (b + more)[0] == b[0];
    }
  }

  /** The bytes of the size, when not all of them are there yet. */
  lemma SizeCompletes(b: bytes, k: nat) returns (more: bytes, size: nat)
    requires b != []
    ensures TakeLen(b + more, k) == Done(size, 1 + k)
    ensures if TakeLen(b, k).Done? then more == [] else |b + more| == 1 + k
  {
    more := Zeros(if |b| < 1 + k then 1 + k - |b| else 0);
    size := GetLen((b + more)[1..], k);
  }

  lemma CompletesRaw(b: bytes, k: nat, fixed: nat) returns (more: bytes)
    requires b != [] && TakeRaw(b, k, fixed).Eof?
    ensures TakeRaw(b + more, k, fixed).Done? && TakeRaw(b + more, k, fixed).len == |b + more|
  {
    var first, size := SizeCompletes(b, k);
    assert first == [] ==> b + first == b;
    var data := Zeros(1 + k + fixed + size - |b + first|);
    more := first + data;
    ConcatAssoc(b, first, data);
    MoreBytesLen(b + first, k, data);
  }

  lemma {:induction false} CompletesNested(b: bytes, k: nat, fixed: nat, per: nat) returns (more: bytes)
    requires b != [] && ParseAs(b, Nested(k, fixed, per)).Eof?
    ensures var r := ParseAs(b + more, Nested(k, fixed, per)); r.Done? && r.len == |b + more|
    decreases |b|, 0
  {
    var first, size := SizeCompletes(b, k);
    var count := fixed + per * size;
    if TakeLen(b, k).Done? {
      assert b + first == b;
      more := CompletesItems(b[1 + k..], count);
      NestedCompleted(b, k, fixed, per, size, more);
    } else {
      ZeroItems(count);
      NestedCompleted(b + first, k, fixed, per, size, Zeros(count));
      more := first + Zeros(count);
      ConcatAssoc(b, first, Zeros(count));
    }
  }

  lemma NestedCompleted(b: bytes, k: nat, fixed: nat, per: nat, size: nat, more: bytes)
    requires b != [] && TakeLen(b, k) == Done(size, 1 + k)
    requires ItemsCompleted(b[1 + k..], fixed + per * size, more)
    ensures var r := ParseAs(b + more, Nested(k, fixed, per)); r.Done? && r.len == |b + more|
  {
    MoreBytesLen(b, k, more);
    assert (b + more)[1 + k..] == b[1 + k..] + more;
  }

  lemma {:induction false} CompletesItems(b: bytes, n: nat) returns (more: bytes)
    requires ParseItems(b, n).Eof?
    ensures ItemsCompleted(b, n, more)
    decreases |b|, n + 2
  {
    if Parse(b).Done? {
      var m := Parse(b).len;
      more := CompletesItems(b[m..], n - 1);
      ItemThenMore(b, n, more);
    } else {
      var first := Completes(b);
      more := first + Zeros(n - 1);
      FirstThenZeros(b, first, n);
    }
  }

  lemma ItemThenMore(b: bytes, n: nat, more: bytes)
    requires n > 0 && Parse(b).Done? && ItemsCompleted(b[Parse(b).len..], n - 1, more)
    ensures ItemsCompleted(b, n, more)
  {
    var m := Parse(b).len;
    assert b[..m] + (b[m..] + more) == b + more;
    MoreBytes(b, more);
    NextItem(b[..m], b[m..] + more, n - 1);
  }

  lemma FirstThenZeros(b: bytes, first: bytes, n: nat)
    requires n > 0 && Completed(b, first)
    ensures ItemsCompleted(b, n, first + Zeros(n - 1))
  {
    var zeros := Zeros(n - 1);
    ConcatAssoc(b, first, zeros);
    MoreBytes(b + first, zeros);
    ZeroItems(n - 1);
    assert [] + zeros == zeros;
    NextItem(b + first, zeros, n - 1);
  }

  ghost predicate StartsWithMessage(b: bytes) {
    exists n: nat, m :: n <= |b| && WritesAs(m, b[..n])
  }

  ghost predicate CutOffMessage(b: bytes) {
    exists m, more :: more != [] && WritesAs(m, b + more)
  }

  /**
   * What the reader answers, for every buffer: a value exactly when a message stands in front,
   * "incomplete" exactly when the buffer is the beginning of a message, and an error otherwise.
   */
  lemma ReaderAnswers(b: bytes)
    ensures Parse(b).Done? <==> StartsWithMessage(b)
    ensures Parse(b).Eof? <==> CutOffMessage(b)
    ensures Parse(b).Bad? <==> !StartsWithMessage(b) && !CutOffMessage(b)
  {
    if Parse(b).Done? {
      ReadsExactlyTheMessages(b, Parse(b).len);
    }
    if n: nat, m :| n <= |b| && WritesAs(m, b[..n]) {
      ReadsExactlyTheMessages(b, n);
    }
    if Parse(b).Eof? {
      var more := Completes(b);
      ReadsExactlyTheMessages(b + more, |b + more|);
      assert (b + more)[..|b + more|] == b + more;
      assert b + [] == b;
    }
    if m, more :| more != [] && WritesAs(m, b + more) {
      ReadsWritten(m, []);
      assert Write(m) + [] == b + more;
      MoreBytes(b, more);
    }
  }

  // ------------------------------------------------------------------ on the connection

  ghost predicate FramesWrite(frames: seq<Frame<Value>>, ms: seq<Message>) {
    |frames| == |ms| && forall i | 0 <= i < |ms| :: WritesAs(ms[i], frames[i].vec)
  }

  /**
   * Written messages, and perhaps the beginning of a further one, arrive frame by frame for every
   * way of cutting the stream into reads.
   */
  lemma WrittenMessagesArrive(ms: seq<Message>, last: Message, n: nat, chunks: seq<bytes>)
    requires AllValid(ms) && Valid(last) && n < |Write(last)|
    requires Flat(chunks) == WriteAll(ms) + Write(last)[..n]
    ensures Sound(MSGPACK)
    ensures var fed := Feed(MSGPACK, [], chunks);
            FramesWrite(fed.frames, ms) && !fed.failed && fed.rest == Write(last)[..n]
  {
    MsgPackIsSound();
    CutOffReads(last, n);
    DrainsWritten(ms, Write(last)[..n]);
    ChunkingInvariance(MSGPACK, [], chunks);
    assert [] + Flat(chunks) == Flat(chunks);
  }

  lemma CutOffReads(m: Message, n: nat)
    requires Valid(m) && n < |Write(m)|
    ensures Parse(Write(m)[..n]).Eof?
  {
    var part, more := Write(m)[..n], Write(m)[n..];
    assert part + more == Write(m);
    assert WritesAs(m, part + more);
    ReaderAnswers(part);
  }

  lemma {:induction false} DrainsWritten(ms: seq<Message>, tail: bytes)
    requires Sound(MSGPACK) && AllValid(ms) && MSGPACK(tail).Eof?
    ensures var d := Drain(MSGPACK, WriteAll(ms) + tail);
            FramesWrite(d.frames, ms) && d.rest == tail && !d.failed
    decreases ms
  {
    if ms == [] {
      assert WriteAll(ms) + tail == tail;
    } else {
      var first, others := Write(ms[0]), WriteAll(ms[1..]) + tail;
      DrainsWritten(ms[1..], tail);
      ReadsWritten(ms[0], others);
      ConcatAssoc(first, WriteAll(ms[1..]), tail);
      DrainStep(MSGPACK, Parse(first + others).value, first, others);
      FramesWriteCons(ms, Frame(Parse(first + others).value, first), Drain(MSGPACK, others).frames);
    }
  }

  lemma FramesWriteCons(ms: seq<Message>, f: Frame<Value>, frames: seq<Frame<Value>>)
    requires ms != [] && WritesAs(ms[0], f.vec) && FramesWrite(frames, ms[1..])
    ensures FramesWrite([f] + frames, ms)
  {
    var all := [f] + frames;
    forall i | 0 <= i < |ms| ensures WritesAs(ms[i], all[i].vec) {
      if i > 0 {
        assert ms[i] == ms[1..][i - 1] && all[i] == frames[i - 1];
      }
    }
  }

  /** A map with one pair takes its key and its value: four bytes, one frame. */
  lemma OnePairIsOneFrame()
    ensures WritesAs(Map(Fix, [Pair(Str(Fix, [0x78]), Positive(1))]), [0x81, 0xa1, 0x78, 0x01])
  {
    var key, value := Str(Fix, [0x78]), Positive(1);
    assert Write(key) == [0xa1] + [0x78] && Write(value) == [1] + [];
    var pairs := [Pair(key, value)];
    assert pairs[1..] == [] && PairValid(pairs[0]);
    assert WritePairs(pairs) == WritePair(pairs[0]) + [];
  }
}
