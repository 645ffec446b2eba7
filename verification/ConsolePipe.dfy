/**
 * The wrapped write function of stdout and stderr: it gathers what is written and sends it on to
 * the console in whole lines, or all at once when too much has gathered without a line break.
 */
module ConsolePipe {
  import opened Common
  import opened ConsoleText

  const MAX_STREAM_BUFFER_LENGTH: nat := 1024 * 1024

  /** The last line break of a text, or -1. */
  function LastNewline(s: string): (r: int)
    ensures -1 <= r < |s|
    ensures r >= 0 ==> s[r] == '\n'
    ensures forall k | r < k < |s| :: s[k] != '\n'
  {
    if s == "" then -1
    else if s[|s| - 1] == '\n' then |s| - 1
    else LastNewline(s[..|s| - 1])
  }

  /** `s.slice(i)`: nothing when i is past the end. */
  function SliceFrom(s: string, i: nat): string { if i <= |s| then s[i..] else "" }

  /** What goes to the console, and whether a line break was consumed behind it. */
  datatype Sent = Sent(text: string, newline: bool)

  predicate Overflows(gathered: string) { |gathered| > MAX_STREAM_BUFFER_LENGTH }

  /** What is sent of the gathered text, if anything, and what stays. */
  function Gathered(b: string): (Option<Sent>, string) {
    var eol := if Overflows(b) then |b| else LastNewline(b);
    if eol == -1 then (None, b)
    else (Some(Sent(b[..eol], !Overflows(b))), SliceFrom(b, eol + 1))
  }

  datatype Piped = Piped(sent: seq<Sent>, buf: string)

  function Written(p: Piped, chunk: string): Piped {
    var (sent, buf) := Gathered(p.buf + chunk);
    Piped(if sent.Some? then p.sent + [sent.value] else p.sent, buf)
  }

  function WriteAll(p: Piped, chunks: seq<string>): Piped
    decreases chunks
  {
    if chunks == [] then p else WriteAll(Written(p, chunks[0]), chunks[1..])
  }

  class WrappedStream {
    var buf: string
    ghost var sent: seq<Sent>
    var console: seq<string>       // the texts given to the console, one call each
    var original: seq<string>      // the chunks passed through to the wrapped function

    ghost function View(): Piped reads this { Piped(sent, buf) }

    ghost predicate Valid() reads this {
      && |console| == |sent|
      && forall i | 0 <= i < |sent| :: console[i] == sent[i].text
    }

    constructor ()
      ensures Valid() && View() == Piped([], "") && original == []
    {
      buf, sent, console, original := "", [], [], [];
    }

    method Write(chunk: string)
      requires Valid()
      modifies this
      ensures Valid() && View() == Written(old(View()), chunk)
      ensures original == old(original) + [chunk]
    {
      buf := buf + chunk;
      ghost var gathered := Gathered(buf);
      var eol := if |buf| > MAX_STREAM_BUFFER_LENGTH then |buf| else LastNewline(buf);
      if eol != -1 {
        console := console + [buf[..eol]];
        sent := sent + [gathered.0.value];
        buf := SliceFrom(buf, eol + 1);
      }
      assert buf == gathered.1;
      original := original + [chunk];
    }
  }

  // ------------------------------------------------------------------ nothing lost

  /** The texts with the line breaks consumed behind them. */
  function Rebuilt(sent: seq<Sent>): string {
    if sent == [] then ""
    else sent[0].text + (if sent[0].newline then "\n" else "") + Rebuilt(sent[1..])
  }

  lemma {:induction false} RebuiltSnoc(sent: seq<Sent>, s: Sent)
    ensures Rebuilt(sent + [s]) == Rebuilt(sent) + (s.text + if s.newline then "\n" else "")
  {
    if sent == [] {
      assert [s][1..] == [];
    } else {
      assert (sent + [s])[1..] == sent[1..] + [s];
      RebuiltSnoc(sent[1..], s);
    }
  }

  /** One write: text, consumed line break and rest are what was gathered. */
  lemma GatheredKeepsText(b: string)
    ensures var (sent, buf) := Gathered(b);
            && (sent.Some? ==> b == (sent.value.text + if sent.value.newline then "\n" else "") + buf)
            && (sent.None? ==> buf == b)
            && '\n' !in buf && |buf| <= 1048576
  {
    var last := LastNewline(b);
    if !Overflows(b) && last >= 0 {
      assert b == b[..last] + [b[last]] + b[last + 1..];
      assert [b[last]] == "\n";
    }
  }

  lemma WriteKeepsText(p: Piped, chunk: string)
    ensures var p' := Written(p, chunk);
            && Rebuilt(p'.sent) + p'.buf == (Rebuilt(p.sent) + p.buf) + chunk
            && '\n' !in p'.buf && |p'.buf| <= 1048576
  {
    var b := p.buf + chunk;
    GatheredKeepsText(b);
    var (sent, buf) := Gathered(b);
    ConcatAssoc(Rebuilt(p.sent), p.buf, chunk);
    if sent.Some? {
      var s := sent.value;
      RebuiltSnoc(p.sent, s);
      ConcatAssoc(Rebuilt(p.sent), s.text + (if s.newline then "\n" else ""), buf);
    }
  }

  /**
   * Over every run of writes: the texts sent, with their line breaks, and the gathered rest are
   * exactly the input; and the rest has no line break and is never longer than the limit.
   */
  lemma {:induction false} NothingLost(p: Piped, chunks: seq<string>)
    requires '\n' !in p.buf && |p.buf| <= 1048576
    ensures var p' := WriteAll(p, chunks);
            && Rebuilt(p'.sent) + p'.buf == (Rebuilt(p.sent) + p.buf) + Flat(chunks)
            && '\n' !in p'.buf && |p'.buf| <= 1048576
    decreases chunks
  {
    var before := Rebuilt(p.sent) + p.buf;
    if chunks == [] {
      assert before + Flat(chunks) == before;
    } else {
      WriteKeepsText(p, chunks[0]);
      NothingLost(Written(p, chunks[0]), chunks[1..]);
      FlatFirst(before, chunks);
    }
  }

  // ------------------------------------------------------------------ whole lines

  /** Whether no write finds too much gathered. */
  predicate NeverOverflows(buf: string, chunks: seq<string>)
    decreases chunks
  {
    chunks == [] ||
    (!Overflows(buf + chunks[0]) && NeverOverflows(Gathered(buf + chunks[0]).1, chunks[1..]))
  }

  /** A text cut at its line breaks; the last line is the one that is not complete yet. */
  function Lines(s: string): (r: seq<string>)
    ensures |r| >= 1
  {
    if s == "" then [""]
    else
      AddChar(Lines(s[..|s| - 1]), s[|s| - 1])
  }

  function AddChar(lines: seq<string>, c: char): (r: seq<string>)
    requires lines != []
    ensures r != []
  {
    if c == '\n' then lines + [""] else lines[..|lines| - 1] + [lines[|lines| - 1] + [c]]
  }

  lemma LinesSnoc(s: string, c: char)
    ensures Lines(s + [c]) == AddChar(Lines(s), c)
  {
    assert (s + [c])[..|s|] == s;
  }

  lemma AddCharAfter(a: seq<string>, b: seq<string>, c: char)
    requires b != []
    ensures AddChar(a + b, c) == a + AddChar(b, c)
  {
    LastOfTwo(a, b);
  }

  /** The lines of the texts given to the console. */
  function SentLines(sent: seq<Sent>): seq<string> {
    if sent == [] then [] else SentLines(sent[..|sent| - 1]) + Lines(sent[|sent| - 1].text)
  }

  /** Breaking a text at one of its line breaks. */
  lemma {:induction false} LinesAtNewline(a: string, b: string)
    ensures Lines(a + "\n" + b) == Lines(a) + Lines(b)
  {
    if b == "" {
      LinesSnoc(a, '\n');
      assert a + "\n" + b == a + ['\n'];
    } else {
      var init, c := b[..|b| - 1], b[|b| - 1];
      LinesAtNewline(a, init);
      assert b == init + [c] && a + "\n" + b == (a + "\n" + init) + [c];
      LinesSnoc(init, c);
      LinesSnoc(a + "\n" + init, c);
      AddCharAfter(Lines(a), Lines(init), c);
    }
  }

  lemma LastOfTwo(a: seq<string>, b: seq<string>)
    requires b != []
    ensures (a + b)[|a + b| - 1] == b[|b| - 1] && (a + b)[..|a + b| - 1] == a + b[..|b| - 1]
  {
  }

  /** A text without line breaks is one line. */
  lemma {:induction false} OneLine(s: string)
    requires '\n' !in s
    ensures Lines(s) == [s]
  {
    if s != "" {
      var init := s[..|s| - 1];
      assert '\n' !in init && s == init + [s[|s| - 1]];
      OneLine(init);
      assert s[|s| - 1] in s;
      assert [init][..0] == [];
    }
  }

  lemma NoOverflowIsWholeLines(p: Piped, chunk: string)
    requires !Overflows(p.buf + chunk) && '\n' !in p.buf
    ensures var p' := Written(p, chunk);
            SentLines(p'.sent) + [p'.buf] == SentLines(p.sent) + Lines(p.buf + chunk)
  {
    var b := p.buf + chunk;
    GatheredKeepsText(b);
    var (sent, buf) := Gathered(b);
    OneLine(buf);
    if sent.Some? {
      var text := sent.value.text;
      assert b == text + "\n" + buf;
      LinesAtNewline(text, buf);
      assert (p.sent + [sent.value])[..|p.sent|] == p.sent;
      ConcatAssoc(SentLines(p.sent), Lines(text), [buf]);
    }
  }

  /** Lines of a text that is continued. */
  lemma {:induction false} LinesContinued(a: string, done: seq<string>, last: string, more: string)
    requires Lines(a) == done + [last] && '\n' !in last
    ensures Lines(a + more) == done + Lines(last + more)
    decreases |more|
  {
    if more == "" {
      assert a + more == a && last + more == last;
      OneLine(last);
    } else {
      var init, c := more[..|more| - 1], more[|more| - 1];
      LinesContinued(a, done, last, init);
      assert a + more == (a + init) + [c] && last + more == (last + init) + [c];
      LinesSnoc(a + init, c);
      LinesSnoc(last + init, c);
      AddCharAfter(done, Lines(last + init), c);
    }
  }

  /**
   * Without overflow the way a text is cut into writes does not matter for the lines given to the
   * console: followed by the gathered rest, they are those of the whole text.
   */
  lemma {:induction false} CuttingDoesNotMatter(p: Piped, chunks: seq<string>)
    requires '\n' !in p.buf && NeverOverflows(p.buf, chunks)
    ensures var p' := WriteAll(p, chunks);
            SentLines(p'.sent) + [p'.buf] == SentLines(p.sent) + Lines(p.buf + Flat(chunks))
    decreases chunks
  {
    if chunks == [] {
      assert p.buf + Flat(chunks) == p.buf;
      OneLine(p.buf);
    } else {
      var p1 := Written(p, chunks[0]);
      var b := p.buf + chunks[0];
      GatheredKeepsText(b);
      NoOverflowIsWholeLines(p, chunks[0]);
      CuttingDoesNotMatter(p1, chunks[1..]);
      FlatFirst(p.buf, chunks);
      RestIsLastLine(SentLines(p1.sent), p1.buf, SentLines(p.sent), Lines(b));
      LinesContinued(b, Lines(b)[..|Lines(b)| - 1], p1.buf, Flat(chunks[1..]));
      ConcatAssoc(SentLines(p.sent), Lines(b)[..|Lines(b)| - 1], Lines(p1.buf + Flat(chunks[1..])));
    }
  }

  lemma RestIsLastLine(a: seq<string>, rest: string, b: seq<string>, lines: seq<string>)
    requires lines != [] && a + [rest] == b + lines
    ensures lines == lines[..|lines| - 1] + [rest] && a == b + lines[..|lines| - 1]
  {
    LastOfTwo(a, [rest]);
    LastOfTwo(b, lines);
    assert [rest][..0] == [];
    assert a + [] == a;
  }

  // ------------------------------------------------------------------ overflow

  /**
   * A text goes out without a line break behind it exactly when too much was gathered, and then all
   * of it does.  It never arrives: it is longer than what the console passes on, so a notice is sent
   * in its place.
   */
  lemma OverflowIsOmitted(b: string, h: Heap, array_: nat)
    requires NoneDangling(h) && array_ !in h
    ensures var (sent, rest) := Gathered(b);
            && (sent.Some? && !sent.value.newline <==> |b| > 1048576)
            && (|b| > 1048576 ==>
                  && sent.value.text == b && rest == ""
                  && SentText(h, array_, [Other(Leaf(Quoted(sent.value.text)))]) == OMITTED)
  {
    if Overflows(b) {
      LongStringIsOmitted(h, array_, b);
      assert Gathered(b).0.value.text == b;
    }
  }
}
