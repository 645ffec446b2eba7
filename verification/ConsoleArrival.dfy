/**
 * What of the output arrives at the other side.  Each text given to the console is sent as JSON, or
 * as a notice when that is too long; the receiver parses it, and shows what it cannot parse as it
 * is, behind a remark.
 */
module ConsoleArrival {
  import opened Common
  import opened ConsoleText
  import opened ConsolePipe

  const UNABLE: string := "Unable to log remote console arguments"

  // ------------------------------------------------------------------ the receiver

  function HexValue(c: char): Option<nat> {
    if '0' <= c <= '9' then Some(c as int - '0' as int)
    else if 'a' <= c <= 'f' then Some(c as int - 'a' as int + 10)
    else if 'A' <= c <= 'F' then Some(c as int - 'A' as int + 10)
    else None
  }

  /** The character of four hexadecimal digits, if it stands for one on its own. */
  function HexChar(s: string): Option<char>
    requires |s| == 4
  {
    var a, b, c, d := HexValue(s[0]), HexValue(s[1]), HexValue(s[2]), HexValue(s[3]);
    if a.None? || b.None? || c.None? || d.None? then None
    else
      var n := ((a.value * 16 + b.value) * 16 + c.value) * 16 + d.value;
      if n < 0xD800 then Some(n as char) else None
  }

  function Letter(c: char): Option<char> {
    match c
    case '"' => Some('"')
    case '\\' => Some('\\')
    case '/' => Some('/')
    case 'n' => Some('\n')
    case 'r' => Some('\r')
    case 't' => Some('\t')
    case 'b' => Some(8 as char)
    case 'f' => Some(12 as char)
    case _ => None
  }

  function Cons(c: Option<char>, rest: Option<string>): Option<string> {
    if c.None? || rest.None? then None else Some([c.value] + rest.value)
  }

  /** The contents of a JSON string. */
  function Unescaped(s: string): Option<string> {
    if s == "" then Some("")
    else if s[0] == '"' || s[0] as int < 32 then None
    else if s[0] != '\\' then Cons(Some(s[0]), Unescaped(s[1..]))
    else if |s| < 2 then None
    else if s[1] != 'u' then Cons(Letter(s[1]), Unescaped(s[2..]))
    else if |s| < 6 then None
    else Cons(HexChar(s[2..6]), Unescaped(s[6..]))
  }

  /** An array of one string. */
  function OneString(m: string): Option<string> {
    if |m| >= 4 && m[..2] == "[\"" && m[|m| - 2..] == "\"]" then Unescaped(m[2..|m| - 2]) else None
  }

  /** The lines shown for a message. */
  function Received(m: string): seq<string> {
    match OneString(m)
    case Some(s) => Lines(s)
    case None => [UNABLE + " " + m]
  }

  lemma HexBack(n: nat, tens: char)
    requires n < 16 && (tens == '0' || tens == '1')
    ensures HexChar("00" + [tens, HexDigit(n)]) == Some((if tens == '0' then n else 16 + n) as char)
  {
    var s := "00" + [tens, HexDigit(n)];
    assert s[0] == '0' && s[1] == '0' && s[2] == tens && s[3] == HexDigit(n);
    assert HexValue(HexDigit(n)) == Some(n);
  }

  lemma CharBack(c: char, rest: string)
    ensures Unescaped(Escaped(c) + rest) == Cons(Some(c), Unescaped(rest))
  {
    var e, s := Escaped(c), Escaped(c) + rest;
    if |e| == 1 {
      assert s[1..] == rest;
    } else if |e| == 2 {
      assert s[2..] == rest && s[1] == e[1];
    } else {
      var n := c as int;
      assert s[6..] == rest && s[0] == '\\' && s[1] == 'u';
      if n < 16 {
        HexBack(n, '0');
        assert s[2..6] == "00" + ['0', HexDigit(n)];
      } else {
        HexBack(n - 16, '1');
        assert s[2..6] == "00" + ['1', HexDigit(n - 16)];
      }
    }
  }

  /** A JSON string reads back. */
  lemma {:induction false} EscapedBack(s: string)
    ensures Unescaped(EscapedAll(s)) == Some(s)
  {
    if s != "" {
      EscapedBack(s[1..]);
      CharBack(s[0], EscapedAll(s[1..]));
      assert [s[0]] + s[1..] == s;
    }
  }

  lemma {:induction false} EscapedAtMost(s: string)
    ensures |EscapedAll(s)| <= 6 * |s|
  {
    if s != "" {
      EscapedAtMost(s[1..]);
    }
  }

  // ------------------------------------------------------------------ one text

  predicate Fits(text: string) { |EscapedAll(text)| + 4 <= MAX_LENGTH }

  function Message(h: Heap, array_: nat, text: string): string
    requires NoneDangling(h) && array_ !in h
  {
    SentText(h, array_, [Other(Leaf(Quoted(text)))])
  }

  /** A text arrives, with all its lines, exactly when its JSON text is not too long. */
  lemma TextArrivesIffFits(h: Heap, array_: nat, text: string)
    requires NoneDangling(h) && array_ !in h
    ensures Received(Message(h, array_, text)) ==
            if Fits(text) then Lines(text) else [UNABLE + " " + OMITTED]
    ensures Fits(text) <==> OneString(Message(h, array_, text)) == Some(text)
  {
    MessageIs(h, array_, text);
    OneStringBack(text);
    NoticeIsNoString();
  }

  lemma MessageIs(h: Heap, array_: nat, text: string)
    requires NoneDangling(h) && array_ !in h
    ensures Message(h, array_, text) == if Fits(text) then "[" + Quoted(text) + "]" else OMITTED
  {
    LongStringIsOmitted(h, array_, text);
  }

  lemma OneStringBack(text: string)
    ensures OneString("[" + Quoted(text) + "]") == Some(text)
  {
    EscapedBack(text);
    var m := "[" + Quoted(text) + "]";
    assert m[..2] == "[\"" && m[|m| - 2..] == "\"]" && m[2..|m| - 2] == EscapedAll(text);
  }

  lemma NoticeIsNoString()
    ensures OneString(OMITTED) == None
  {
    var notice, closing := OMITTED, "\"]";
    var n := |notice|;
    assert notice[n - 1] == 's' && notice[n - 2..][1] == notice[n - 1];
    assert closing[1] == ']';
  }

  // ------------------------------------------------------------------ whole runs

  /** The lines shown for the texts sent. */
  function Arrived(h: Heap, array_: nat, sent: seq<Sent>): seq<string>
    requires NoneDangling(h) && array_ !in h
  {
    if sent == [] then []
    else Arrived(h, array_, sent[..|sent| - 1]) + Received(Message(h, array_, sent[|sent| - 1].text))
  }

  /** The same, by whether each text fits. */
  function Conveyed(sent: seq<Sent>): seq<string> {
    if sent == [] then []
    else Conveyed(sent[..|sent| - 1]) + ConveyedText(sent[|sent| - 1].text)
  }

  function ConveyedText(text: string): seq<string> {
    if Fits(text) then Lines(text) else [UNABLE + " " + OMITTED]
  }

  lemma {:induction false} ArrivedIsConveyed(h: Heap, array_: nat, sent: seq<Sent>)
    requires NoneDangling(h) && array_ !in h
    ensures Arrived(h, array_, sent) == Conveyed(sent)
  {
    if sent != [] {
      ArrivedIsConveyed(h, array_, sent[..|sent| - 1]);
      TextArrivesIffFits(h, array_, sent[|sent| - 1].text);
    }
  }

  predicate AllFit(sent: seq<Sent>) { forall i | 0 <= i < |sent| :: Fits(sent[i].text) }

  /** Texts without a line break behind them are those that were too long to wait for one. */
  predicate FlushedForLength(sent: seq<Sent>) {
    forall i | 0 <= i < |sent| :: !sent[i].newline ==> Overflows(sent[i].text)
  }

  lemma OverflowDoesNotFit(text: string)
    ensures Overflows(text) ==> !Fits(text)
  {
  }

  lemma {:induction false} FlushesAreLong(p: Piped, chunks: seq<string>)
    requires FlushedForLength(p.sent)
    ensures FlushedForLength(WriteAll(p, chunks).sent) && p.sent <= WriteAll(p, chunks).sent
    decreases chunks
  {
    if chunks != [] {
      FlushesAreLong(Written(p, chunks[0]), chunks[1..]);
    }
  }

  /** The space that lines take with a line break behind each. */
  function Space(lines: seq<string>): nat {
    if lines == [] then 0 else Space(lines[..|lines| - 1]) + |lines[|lines| - 1]| + 1
  }

  lemma {:induction false} SpaceAppend(a: seq<string>, b: seq<string>)
    ensures Space(a + b) == Space(a) + Space(b)
  {
    if b == [] {
      assert a + b == a;
    } else {
      assert (a + b)[..|a + b| - 1] == a + b[..|b| - 1];
      SpaceAppend(a, b[..|b| - 1]);
    }
  }

  lemma SpaceOne(line: string)
    ensures Space([line]) == |line| + 1
  {
    assert [line][..0] == [];
  }

  lemma {:induction false} SpaceOfLines(s: string)
    ensures Space(Lines(s)) == |s| + 1
  {
    if s == "" {
      SpaceOne("");
    } else {
      var lines, c := Lines(s[..|s| - 1]), s[|s| - 1];
      SpaceOfLines(s[..|s| - 1]);
      var n := |lines| - 1;
      if c == '\n' {
        SpaceAppend(lines, [""]);
        SpaceOne("");
      } else {
        SpaceAppend(lines[..n], [lines[n] + [c]]);
        SpaceOne(lines[n] + [c]);
      }
    }
  }

  /** What arrives takes the space of what was sent, exactly when all of it fits; else it takes less. */
  lemma {:induction false} SpaceOfConveyed(sent: seq<Sent>)
    requires FlushedForLength(sent)
    ensures Space(Conveyed(sent)) <= |Rebuilt(sent)|
    ensures Space(Conveyed(sent)) == |Rebuilt(sent)| <==> AllFit(sent)
  {
    if sent != [] {
      var before, last := sent[..|sent| - 1], sent[|sent| - 1];
      SpaceOfConveyed(before);
      assert sent == before + [last];
      ConveyedStep(before, last);
      SpaceOfText(last);
    }
  }

  lemma ConveyedStep(before: seq<Sent>, s: Sent)
    ensures Space(Conveyed(before + [s])) == Space(Conveyed(before)) + Space(ConveyedText(s.text))
    ensures |Rebuilt(before + [s])| == |Rebuilt(before)| + |s.text| + if s.newline then 1 else 0
    ensures AllFit(before + [s]) <==> AllFit(before) && Fits(s.text)
  {
    RebuiltSnoc(before, s);
    ConveyedSnoc(before, s);
    SpaceAppend(Conveyed(before), ConveyedText(s.text));
    var sent := before + [s];
    assert sent[|before|] == s && forall i | 0 <= i < |before| :: sent[i] == before[i];
  }

  lemma SpaceOfText(s: Sent)
    requires !s.newline ==> Overflows(s.text)
    ensures var space := Space(ConveyedText(s.text)); var size := |s.text| + if s.newline then 1 else 0;
            space <= size && (space == size <==> Fits(s.text))
  {
    OverflowDoesNotFit(s.text);
    if Fits(s.text) {
      SpaceOfLines(s.text);
    } else {
      EscapedAtMost(s.text);
      SpaceOne(UNABLE + " " + OMITTED);
    }
  }

  lemma {:induction false} FittingArrives(sent: seq<Sent>)
    requires AllFit(sent)
    ensures Conveyed(sent) == SentLines(sent)
  {
    if sent != [] {
      FittingArrives(sent[..|sent| - 1]);
    }
  }

  /** An overflow sends a text that does not fit. */
  lemma OverflowDoesNotArrive(p: Piped, chunks: seq<string>)
    requires chunks != [] && Overflows(p.buf + chunks[0]) && FlushedForLength(p.sent)
    ensures !AllFit(WriteAll(p, chunks).sent)
  {
    var p1, b := Written(p, chunks[0]), p.buf + chunks[0];
    FlushesAreLong(p1, chunks[1..]);
    OverflowDoesNotFit(b);
    var n := |p.sent|;
    assert b[..|b|] == b && p1.sent[n].text == b;
    assert WriteAll(p, chunks).sent[n] == p1.sent[n];
  }

  lemma {:induction false} FittingNeverOverflows(p: Piped, chunks: seq<string>)
    requires FlushedForLength(p.sent) && AllFit(WriteAll(p, chunks).sent)
    ensures NeverOverflows(p.buf, chunks)
    decreases chunks
  {
    if chunks != [] {
      if Overflows(p.buf + chunks[0]) {
        OverflowDoesNotArrive(p, chunks);
        assert false;
      }
      FittingNeverOverflows(Written(p, chunks[0]), chunks[1..]);
    }
  }

  /**
   * What arrives, over every run of writes: the lines of the whole input, the last of them still
   * being gathered, exactly when every text sent fits.
   */
  lemma InputArrivesIffAllFit(h: Heap, array_: nat, chunks: seq<string>)
    requires NoneDangling(h) && array_ !in h
    ensures var p := WriteAll(Piped([], ""), chunks);
            Arrived(h, array_, p.sent) + [p.buf] == Lines(Flat(chunks)) <==> AllFit(p.sent)
  {
    var start := Piped([], "");
    var p := WriteAll(start, chunks);
    FlushesAreLong(start, chunks);
    ArrivedIsConveyed(h, array_, p.sent);
    assert "" + Flat(chunks) == Flat(chunks);
    if AllFit(p.sent) {
      FittingNeverOverflows(start, chunks);
      CuttingDoesNotMatter(start, chunks);
      FittingArrives(p.sent);
      assert [] + Lines(Flat(chunks)) == Lines(Flat(chunks));
    }
    NothingLost(start, chunks);
    assert ("" + "") + Flat(chunks) == Flat(chunks);
    assert |Rebuilt(p.sent)| + |p.buf| == |Flat(chunks)|;
    SpaceOfConveyed(p.sent);
    SpaceAppend(Conveyed(p.sent), [p.buf]);
    SpaceOne(p.buf);
    SpaceOfLines(Flat(chunks));
  }

  // ------------------------------------------------------------------ inputs that do not arrive

  lemma LastNewlineIs(s: string, i: nat)
    requires i < |s| && s[i] == '\n' && forall k | i < k < |s| :: s[k] != '\n'
    ensures LastNewline(s) == i
  {
  }

  /** One write of a text that ends with its last line break. */
  lemma OneWrite(p: Piped, text: string)
    requires p.buf == "" && |text| + 1 <= MAX_STREAM_BUFFER_LENGTH
    ensures !Overflows(p.buf + (text + "\n"))
    ensures Written(p, text + "\n") == Piped(p.sent + [Sent(text, true)], "")
  {
    var b := text + "\n";
    LastNewlineIs(b, |text|);
    assert p.buf + b == b && b[..|text|] == text && b[|text| + 1..] == "";
  }

  /** A whole line that is too long for the console, although it is not for the stream. */
  lemma LongLineIsOmitted(h: Heap, array_: nat, line: string)
    requires NoneDangling(h) && array_ !in h && '\n' !in line && !Fits(line)
    requires |line| + 1 <= MAX_STREAM_BUFFER_LENGTH
    ensures NeverOverflows("", [line + "\n"])
    ensures var p := WriteAll(Piped([], ""), [line + "\n"]);
            p.sent == [Sent(line, true)] && Message(h, array_, line) == OMITTED
  {
    var start := Piped([], "");
    OneWrite(start, line);
    assert [line + "\n"][1..] == [];
    assert WriteAll(Written(start, line + "\n"), []) == Written(start, line + "\n");
    LongStringIsOmitted(h, array_, line);
  }

  lemma SameInput(a: string, b: string)
    ensures Flat([a + "\n", b + "\n"]) == Flat([(a + "\n" + b) + "\n"])
  {
    FlatOne((a + "\n" + b) + "\n");
    FlatOne(b + "\n");
    assert [a + "\n", b + "\n"][1..] == [b + "\n"];
    assert (a + "\n") + (b + "\n") == (a + "\n" + b) + "\n";
  }

  lemma ArrivesApart(h: Heap, array_: nat, a: string, b: string)
    requires NoneDangling(h) && array_ !in h && Fits(a) && Fits(b)
    requires |a| + 1 <= MAX_STREAM_BUFFER_LENGTH && |b| + 1 <= MAX_STREAM_BUFFER_LENGTH
    ensures Arrived(h, array_, WriteAll(Piped([], ""), [a + "\n", b + "\n"]).sent) == Lines(a) + Lines(b)
  {
    WritesApart(a, b);
    ArrivedTwo(h, array_, Sent(a, true), Sent(b, true));
  }

  lemma ArrivedTwo(h: Heap, array_: nat, s: Sent, t: Sent)
    requires NoneDangling(h) && array_ !in h
    ensures Arrived(h, array_, [s] + [t]) == ConveyedText(s.text) + ConveyedText(t.text)
  {
    ArrivedIsConveyed(h, array_, [s] + [t]);
    ConveyedTwo(s, t);
  }

  lemma ConveyedTwo(s: Sent, t: Sent)
    ensures Conveyed([s] + [t]) == ConveyedText(s.text) + ConveyedText(t.text)
  {
    ConveyedSnoc([s], t);
    ConveyedSnoc([], s);
    assert [] + [s] == [s] && [] + ConveyedText(s.text) == ConveyedText(s.text);
  }

  lemma NoticeInstead(h: Heap, array_: nat, text: string)
    requires NoneDangling(h) && array_ !in h && !Fits(text) && |text| + 1 <= MAX_STREAM_BUFFER_LENGTH
    ensures Arrived(h, array_, WriteAll(Piped([], ""), [text + "\n"]).sent) == [UNABLE + " " + OMITTED]
  {
    var start := Piped([], "");
    OneWrite(start, text);
    assert [text + "\n"][1..] == [];
    assert WriteAll(Written(start, text + "\n"), []) == Written(start, text + "\n");
    ArrivedIsConveyed(h, array_, [] + [Sent(text, true)]);
    ConveyedSnoc([], Sent(text, true));
  }

  /** Two lines that arrive when they are written one by one, but not when written together. */
  lemma CuttingDecides(h: Heap, array_: nat, a: string, b: string)
    requires NoneDangling(h) && array_ !in h && Fits(a) && Fits(b) && !Fits(a + "\n" + b)
    requires |a + "\n" + b| + 1 <= MAX_STREAM_BUFFER_LENGTH
    ensures Flat([a + "\n", b + "\n"]) == Flat([(a + "\n" + b) + "\n"])
    ensures Arrived(h, array_, WriteAll(Piped([], ""), [a + "\n", b + "\n"]).sent) == Lines(a) + Lines(b)
    ensures Arrived(h, array_, WriteAll(Piped([], ""), [(a + "\n" + b) + "\n"]).sent)
         == [UNABLE + " " + OMITTED]
  {
    SameInput(a, b);
    ArrivesApart(h, array_, a, b);
    NoticeInstead(h, array_, a + "\n" + b);
  }

  lemma WritesApart(a: string, b: string)
    requires |a| + 1 <= MAX_STREAM_BUFFER_LENGTH && |b| + 1 <= MAX_STREAM_BUFFER_LENGTH
    ensures WriteAll(Piped([], ""), [a + "\n", b + "\n"]).sent == [Sent(a, true)] + [Sent(b, true)]
  {
    var start := Piped([], "");
    var p := Written(start, a + "\n");
    OneWrite(start, a);
    OneWrite(p, b);
    assert [a + "\n", b + "\n"][1..] == [b + "\n"] && [b + "\n"][1..] == [];
    assert WriteAll(p, [b + "\n"]) == Written(p, b + "\n");
  }

  lemma ConveyedSnoc(sent: seq<Sent>, s: Sent)
    ensures Conveyed(sent + [s]) == Conveyed(sent) + ConveyedText(s.text)
  {
    assert (sent + [s])[..|sent|] == sent;
  }
}
