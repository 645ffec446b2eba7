/**
 * Console arguments as text.  They may refer to objects in a cycle, so the serialization keeps the
 * objects and arrays it has met and writes a mark when it meets one again.
 *
 * Objects and arrays live in a heap and are compared by their address there.
 */
module ConsoleText {
  import opened Common

  const MAX_LENGTH: nat := 100000
  const CIRCULAR: string := "\"[Circular]\""
  const OMITTED: string := "Output omitted for a large object that exceeds the limits"

  /** A value: its JSON text, none at all, one whose inspection throws, or an object or array. */
  datatype Value = Leaf(json: string) | Absent | Throws(error: string) | Ref(id: nat)

  /** The key is JSON text; that of an array item is not used. */
  datatype Member = Member(key: string, value: Value)

  datatype Container = Obj(members: seq<Member>) | Arr(members: seq<Member>)

  type Heap = map<nat, Container>

  predicate Valid(h: Heap, v: Value) { v.Ref? ==> v.id in h }

  predicate AllValid(h: Heap, ms: seq<Member>) { forall i | 0 <= i < |ms| :: Valid(h, ms[i].value) }

  /** Nothing refers to an address that is not there. */
  predicate NoneDangling(h: Heap) { forall id | id in h :: AllValid(h, h[id].members) }

  // ------------------------------------------------------------------ the traversal

  function Unseen(h: Heap, seen: seq<nat>): set<nat> { set id | id in h.Keys && id !in seen }

  lemma UnseenShrinks(h: Heap, seen: seq<nat>, more: seq<nat>)
    requires seen <= more
    ensures Unseen(h, more) <= Unseen(h, seen) && |Unseen(h, more)| <= |Unseen(h, seen)|
  {
    assert forall id | id in seen :: id in more;
    SubsetSize(Unseen(h, more), Unseen(h, seen));
  }

  lemma UnseenWithout(h: Heap, seen: seq<nat>, id: nat)
    requires id in h && id !in seen
    ensures |Unseen(h, seen + [id])| < |Unseen(h, seen)|
  {
    assert Unseen(h, seen + [id]) == Unseen(h, seen) - {id};
  }

  lemma SubsetSize(a: set<nat>, b: set<nat>)
    requires a <= b
    ensures |a| <= |b|
  {
    assert b == a + (b - a);
  }

  /** The text of a value or of the members of a container, and the containers met by then. */
  datatype Walked<+T> = Walked(text: Result<T, string>, seen: seq<nat>, marks: nat)

  function Joined(pieces: seq<string>): string {
    if pieces == [] then ""
    else if |pieces| == 1 then pieces[0]
    else pieces[0] + "," + Joined(pieces[1..])
  }

  function Enclosed(c: Container, pieces: seq<string>): string {
    if c.Arr? then "[" + Joined(pieces) + "]" else "{" + Joined(pieces) + "}"
  }

  /** What a member contributes; an object leaves out a member without text. */
  function Piece(isArray: bool, m: Member, text: Option<string>): seq<string> {
    match text
    case Some(t) => [if isArray then t else m.key + ":" + t]
    case None => if isArray then ["null"] else []
  }

  function WalkValue(h: Heap, v: Value, seen: seq<nat>): (w: Walked<Option<string>>)
    requires NoneDangling(h) && Valid(h, v)
    ensures seen <= w.seen
    decreases |Unseen(h, seen)|, 0
  {
    match v
    case Leaf(json) => Walked(Ok(Some(json)), seen, 0)
    case Absent => Walked(Ok(None), seen, 0)
    case Throws(e) => Walked(Err(e), seen, 0)
    case Ref(id) =>
      if id in seen then Walked(Ok(Some(CIRCULAR)), seen, 1)
      else
        UnseenWithout(h, seen, id);
        var c := h[id];
        var w := WalkMembers(h, c.Arr?, c.members, seen + [id]);
        match w.text
        case Ok(pieces) => Walked(Ok(Some(Enclosed(c, pieces))), w.seen, w.marks)
        case Err(e) => Walked(Err(e), w.seen, w.marks)
  }

  function WalkMembers(h: Heap, isArray: bool, ms: seq<Member>, seen: seq<nat>): (w: Walked<seq<string>>)
    requires NoneDangling(h) && AllValid(h, ms)
    ensures seen <= w.seen
    decreases |Unseen(h, seen)|, |ms| + 1
  {
    if ms == [] then Walked(Ok([]), seen, 0)
    else
      var first := WalkValue(h, ms[0].value, seen);
      UnseenShrinks(h, seen, first.seen);
      match first.text
      case Err(e) => Walked(Err(e), first.seen, first.marks)
      case Ok(text) =>
        var rest := WalkMembers(h, isArray, ms[1..], first.seen);
        match rest.text
        case Err(e) => Walked(Err(e), rest.seen, first.marks + rest.marks)
        case Ok(pieces) =>
          Walked(Ok(Piece(isArray, ms[0], text) + pieces), rest.seen, first.marks + rest.marks)
  }

  // ------------------------------------------------------------------ the serializer

  class Serializer {
    const heap: Heap
    var seen: seq<nat>

    constructor (heap: Heap)
      ensures this.heap == heap && seen == []
    {
      this.heap := heap;
      seen := [];
    }

    /** The replacer: a container met before becomes the mark, any other is remembered. */
    method Replace(value: Value) returns (r: Value)
      modifies this
      ensures r == if value.Ref? && value.id in old(seen) then Leaf(CIRCULAR) else value
      ensures seen == if r.Ref? then old(seen) + [value.id] else old(seen)
    {
      if value.Ref? {
        if value.id in seen {
          return Leaf(CIRCULAR);
        }
        seen := seen + [value.id];
      }
      r := value;
    }

    method Stringify(value: Value) returns (text: Result<Option<string>, string>)
      requires NoneDangling(heap) && Valid(heap, value)
      modifies this
      ensures var w := WalkValue(heap, value, old(seen)); text == w.text && seen == w.seen
      decreases |Unseen(heap, seen)|, 0
    {
      var v := Replace(value);
      match v
      case Leaf(json) => text := Ok(Some(json));
      case Absent => text := Ok(None);
      case Throws(e) => text := Err(e);
      case Ref(id) =>
        UnseenWithout(heap, old(seen), id);
        var pieces := StringifyMembers(heap[id].Arr?, heap[id].members);
        match pieces {
          case Ok(p) => text := Ok(Some(Enclosed(heap[id], p)));
          case Err(e) => text := Err(e);
        }
    }

    method StringifyMembers(isArray: bool, ms: seq<Member>) returns (pieces: Result<seq<string>, string>)
      requires NoneDangling(heap) && AllValid(heap, ms)
      modifies this
      ensures var w := WalkMembers(heap, isArray, ms, old(seen)); pieces == w.text && seen == w.seen
      decreases |Unseen(heap, seen)|, |ms| + 1
    {
      if ms == [] {
        return Ok([]);
      }
      var text := Stringify(ms[0].value);
      UnseenShrinks(heap, old(seen), seen);
      if text.Err? {
        return Err(text.error);
      }
      var rest := StringifyMembers(isArray, ms[1..]);
      match rest
      case Err(e) => pieces := Err(e);
      case Ok(p) => pieces := Ok(Piece(isArray, ms[0], text.value) + p);
    }
  }

  // ------------------------------------------------------------------ each container once

  predicate NoRepeats(seen: seq<nat>) { forall i, j | 0 <= i < j < |seen| :: seen[i] != seen[j] }

  /** No container is expanded twice. */
  lemma {:induction false} ValueOnce(h: Heap, v: Value, seen: seq<nat>)
    requires NoneDangling(h) && Valid(h, v) && NoRepeats(seen)
    ensures NoRepeats(WalkValue(h, v, seen).seen)
    decreases |Unseen(h, seen)|, 0
  {
    if v.Ref? && v.id !in seen {
      UnseenWithout(h, seen, v.id);
      MembersOnce(h, h[v.id].Arr?, h[v.id].members, seen + [v.id]);
    }
  }

  lemma {:induction false} MembersOnce(h: Heap, isArray: bool, ms: seq<Member>, seen: seq<nat>)
    requires NoneDangling(h) && AllValid(h, ms) && NoRepeats(seen)
    ensures NoRepeats(WalkMembers(h, isArray, ms, seen).seen)
    decreases |Unseen(h, seen)|, |ms| + 1
  {
    if ms != [] {
      var first := WalkValue(h, ms[0].value, seen);
      UnseenShrinks(h, seen, first.seen);
      ValueOnce(h, ms[0].value, seen);
      if first.text.Ok? {
        MembersOnce(h, isArray, ms[1..], first.seen);
      }
    }
  }

  // ------------------------------------------------------------------ and all that are reachable

  predicate RefersTo(c: Container, id: nat) {
    exists i :: 0 <= i < |c.members| && c.members[i].value == Ref(id)
  }

  /** A set of containers that leads nowhere else. */
  ghost predicate ClosedSet(h: Heap, s: set<nat>) {
    forall id, next | id in s && id in h && RefersTo(h[id], next) :: next in s
  }

  ghost predicate IsPath(h: Heap, path: seq<nat>) {
    && path != [] && (forall i | 0 <= i < |path| :: path[i] in h)
    && forall i | 0 <= i < |path| - 1 :: RefersTo(h[path[i]], path[i + 1])
  }

  ghost predicate Reaches(h: Heap, from: nat, to: nat) {
    exists path :: IsPath(h, path) && path[0] == from && path[|path| - 1] == to
  }

  /** A walk stays inside every closed set that it starts in. */
  lemma {:induction false} ValueStaysIn(h: Heap, v: Value, seen: seq<nat>, s: set<nat>)
    requires NoneDangling(h) && Valid(h, v) && ClosedSet(h, s) && (v.Ref? ==> v.id in s)
    ensures forall id | id in WalkValue(h, v, seen).seen :: id in seen || id in s
    decreases |Unseen(h, seen)|, 0
  {
    if v.Ref? && v.id !in seen {
      UnseenWithout(h, seen, v.id);
      var ms := h[v.id].members;
      forall i | 0 <= i < |ms| && ms[i].value.Ref? ensures ms[i].value.id in s {
        assert RefersTo(h[v.id], ms[i].value.id);
      }
      MembersStayIn(h, h[v.id].Arr?, ms, seen + [v.id], s);
    }
  }

  lemma {:induction false} MembersStayIn(
    h: Heap, isArray: bool, ms: seq<Member>, seen: seq<nat>, s: set<nat>)
    requires NoneDangling(h) && AllValid(h, ms) && ClosedSet(h, s)
    requires forall i | 0 <= i < |ms| && ms[i].value.Ref? :: ms[i].value.id in s
    ensures forall id | id in WalkMembers(h, isArray, ms, seen).seen :: id in seen || id in s
    decreases |Unseen(h, seen)|, |ms| + 1
  {
    if ms != [] {
      var first := WalkValue(h, ms[0].value, seen);
      UnseenShrinks(h, seen, first.seen);
      ValueStaysIn(h, ms[0].value, seen, s);
      if first.text.Ok? {
        MembersStayIn(h, isArray, ms[1..], first.seen, s);
      }
    }
  }

  /** The containers met anew have all they refer to among those met. */
  ghost predicate Complete(h: Heap, before: seq<nat>, after: seq<nat>) {
    forall id, next | id in after && id !in before && id in h && RefersTo(h[id], next) :: next in after
  }

  /** A walk that does not fail leaves nothing out. */
  lemma {:induction false} ValueComplete(h: Heap, v: Value, seen: seq<nat>)
    requires NoneDangling(h) && Valid(h, v)
    ensures var w := WalkValue(h, v, seen);
            w.text.Ok? ==> Complete(h, seen, w.seen) && (v.Ref? ==> v.id in w.seen)
    decreases |Unseen(h, seen)|, 0
  {
    if v.Ref? && v.id !in seen {
      UnseenWithout(h, seen, v.id);
      var w := WalkMembers(h, h[v.id].Arr?, h[v.id].members, seen + [v.id]);
      MembersComplete(h, h[v.id].Arr?, h[v.id].members, seen + [v.id]);
      assert v.id in seen + [v.id];
      assert v.id in w.seen;
    }
  }

  lemma {:induction false} MembersComplete(h: Heap, isArray: bool, ms: seq<Member>, seen: seq<nat>)
    requires NoneDangling(h) && AllValid(h, ms)
    ensures var w := WalkMembers(h, isArray, ms, seen);
            w.text.Ok? ==>
              && Complete(h, seen, w.seen)
              && forall i | 0 <= i < |ms| && ms[i].value.Ref? :: ms[i].value.id in w.seen
    decreases |Unseen(h, seen)|, |ms| + 1
  {
    if ms != [] {
      var first := WalkValue(h, ms[0].value, seen);
      UnseenShrinks(h, seen, first.seen);
      ValueComplete(h, ms[0].value, seen);
      if first.text.Ok? {
        var rest := WalkMembers(h, isArray, ms[1..], first.seen);
        MembersComplete(h, isArray, ms[1..], first.seen);
        assert forall id | id in first.seen :: id in rest.seen;
        assert forall i | 0 < i < |ms| :: ms[i] == ms[1..][i - 1];
      }
    }
  }

  lemma {:induction false} PathStaysIn(h: Heap, path: seq<nat>, s: set<nat>)
    requires IsPath(h, path) && ClosedSet(h, s) && path[0] in s
    ensures path[|path| - 1] in s
  {
    if |path| > 1 {
      assert RefersTo(h[path[0]], path[0 + 1]);
      var tail := path[1..];
      forall i | 0 <= i < |tail| - 1 ensures RefersTo(h[tail[i]], tail[i + 1]) {
        assert RefersTo(h[path[i + 1]], path[i + 1 + 1]);
      }
      PathStaysIn(h, tail, s);
    }
  }

  lemma ReachesNext(h: Heap, from: nat, id: nat, next: nat)
    requires NoneDangling(h) && Reaches(h, from, id) && RefersTo(h[id], next)
    ensures Reaches(h, from, next)
  {
    var path :| IsPath(h, path) && path[0] == from && path[|path| - 1] == id;
    var i :| 0 <= i < |h[id].members| && h[id].members[i].value == Ref(next);
    assert Valid(h, h[id].members[i].value);
    var longer := path + [next];
    forall j | 0 <= j < |longer| - 1 ensures RefersTo(h[longer[j]], longer[j + 1]) {
      if j < |path| - 1 {
        assert RefersTo(h[path[j]], path[j + 1]);
      }
    }
    assert IsPath(h, longer);
  }

  /**
   * On every finite graph, cyclic or not, the serialization ends.  It expands each container at
   * most once, and only reachable ones; when nothing throws, it expands exactly those.
   */
  lemma ExpandsEachReachableOnce(h: Heap, root: nat)
    requires NoneDangling(h) && root in h
    ensures var w := WalkValue(h, Ref(root), []);
            && NoRepeats(w.seen)
            && (forall id | id in w.seen :: Reaches(h, root, id))
            && (w.text.Ok? ==> forall id :: id in w.seen <==> Reaches(h, root, id))
  {
    var w := WalkValue(h, Ref(root), []);
    ValueOnce(h, Ref(root), []);
    var reachable := set id | id in h.Keys && Reaches(h, root, id);
    assert IsPath(h, [root]);
    assert ClosedSet(h, reachable) by {
      forall id, next | id in reachable && RefersTo(h[id], next) ensures next in reachable {
        ReachesNext(h, root, id, next);
        var i :| 0 <= i < |h[id].members| && h[id].members[i].value == Ref(next);
        assert Valid(h, h[id].members[i].value);
      }
    }
    ValueStaysIn(h, Ref(root), [], reachable);
    if w.text.Ok? {
      ValueComplete(h, Ref(root), []);
      var met := set id | id in w.seen;
      assert ClosedSet(h, met);
      forall id | Reaches(h, root, id) ensures id in met {
        var path :| IsPath(h, path) && path[0] == root && path[|path| - 1] == id;
        PathStaysIn(h, path, met);
      }
    }
  }

  // ------------------------------------------------------------------ how many marks

  /** How many of the members are objects or arrays. */
  function RefsIn(ms: seq<Member>): nat {
    if ms == [] then 0 else (if ms[0].value.Ref? then 1 else 0) + RefsIn(ms[1..])
  }

  /** The references in the containers of a list. */
  function RefsOf(h: Heap, ids: seq<nat>): nat
    requires forall i | 0 <= i < |ids| :: ids[i] in h
  {
    if ids == [] then 0 else RefsIn(h[ids[0]].members) + RefsOf(h, ids[1..])
  }

  lemma {:induction false} RefsOfAppend(h: Heap, a: seq<nat>, b: seq<nat>)
    requires forall i | 0 <= i < |a| :: a[i] in h
    requires forall i | 0 <= i < |b| :: b[i] in h
    ensures RefsOf(h, a + b) == RefsOf(h, a) + RefsOf(h, b)
  {
    if a == [] {
      assert a + b == b;
    } else {
      assert (a + b)[1..] == a[1..] + b;
      RefsOfAppend(h, a[1..], b);
    }
  }

  /** Every reference that is followed either leads to a new container or becomes a mark. */
  ghost predicate Accounted(h: Heap, from: seq<nat>, to: seq<nat>, marks: nat, refs: nat) {
    && from <= to && (forall i | |from| <= i < |to| :: to[i] in h)
    && marks + |to| - |from| == refs + RefsOf(h, to[|from|..])
  }

  lemma AccountedTogether(
    h: Heap, a: seq<nat>, b: seq<nat>, c: seq<nat>, m: nat, m': nat, refs: nat, refs': nat)
    requires Accounted(h, a, b, m, refs) && Accounted(h, b, c, m', refs')
    ensures Accounted(h, a, c, m + m', refs + refs')
  {
    assert c[|a|..] == b[|a|..] + c[|b|..];
    RefsOfAppend(h, b[|a|..], c[|b|..]);
  }

  lemma {:induction false} ValueAccounted(h: Heap, v: Value, seen: seq<nat>)
    requires NoneDangling(h) && Valid(h, v)
    ensures var w := WalkValue(h, v, seen);
            w.text.Ok? ==> Accounted(h, seen, w.seen, w.marks, if v.Ref? then 1 else 0)
    decreases |Unseen(h, seen)|, 0
  {
    if v.Ref? && v.id !in seen {
      UnseenWithout(h, seen, v.id);
      var ms := h[v.id].members;
      MembersAccounted(h, h[v.id].Arr?, ms, seen + [v.id]);
      var w := WalkMembers(h, h[v.id].Arr?, ms, seen + [v.id]);
      if w.text.Ok? {
        AccountedFrom(h, seen, v.id, w.seen, w.marks);
      }
    }
  }

  lemma AccountedFrom(h: Heap, seen: seq<nat>, id: nat, to: seq<nat>, marks: nat)
    requires id in h && Accounted(h, seen + [id], to, marks, RefsIn(h[id].members))
    ensures Accounted(h, seen, to, marks, 1)
  {
    var n := |seen|;
    assert to[n] == (seen + [id])[n] == id && to[n..] == [id] + to[n + 1..];
    assert |seen + [id]| == n + 1;
    var tail := to[n + 1..];
    forall i | 0 <= i < |tail| ensures tail[i] in h {
      assert tail[i] == to[n + 1 + i];
    }
    assert RefsOf(h, [id]) == RefsIn(h[id].members) by { assert [id][1..] == []; }
    RefsOfAppend(h, [id], tail);
  }

  lemma {:induction false} MembersAccounted(h: Heap, isArray: bool, ms: seq<Member>, seen: seq<nat>)
    requires NoneDangling(h) && AllValid(h, ms)
    ensures var w := WalkMembers(h, isArray, ms, seen);
            w.text.Ok? ==> Accounted(h, seen, w.seen, w.marks, RefsIn(ms))
    decreases |Unseen(h, seen)|, |ms| + 1
  {
    if ms != [] {
      var first := WalkValue(h, ms[0].value, seen);
      UnseenShrinks(h, seen, first.seen);
      ValueAccounted(h, ms[0].value, seen);
      if first.text.Ok? {
        MembersAccounted(h, isArray, ms[1..], first.seen);
        var rest := WalkMembers(h, isArray, ms[1..], first.seen);
        if rest.text.Ok? {
          AccountedTogether(h, seen, first.seen, rest.seen, first.marks, rest.marks,
                            if ms[0].value.Ref? then 1 else 0, RefsIn(ms[1..]));
        }
      }
    }
  }

  // ------------------------------------------------------------------ the arguments of a call

  datatype Argument =
    | Undefined
    | ErrorObject(stack: Option<string>, description: string)
    | Other(value: Value)

  function Escaped(c: char): string {
    if c == '"' then "\\\""
    else if c == '\\' then "\\\\"
    else if c == '\n' then "\\n"
    else if c == '\r' then "\\r"
    else if c == '\t' then "\\t"
    else if c as int == 8 then "\\b"
    else if c as int == 12 then "\\f"
    else if (c as int) < 16 then "\\u000" + [HexDigit(c as int)]
    else if (c as int) < 32 then "\\u001" + [HexDigit(c as int - 16)]
    else [c]
  }

  function HexDigit(n: nat): char
    requires n < 16
  {
    "0123456789abcdef"[n]
  }

  function EscapedAll(s: string): (r: string)
    ensures |r| >= |s|
  {
    if s == "" then "" else Escaped(s[0]) + EscapedAll(s[1..])
  }

  /** The JSON text of a string. */
  function Quoted(s: string): string { "\"" + EscapedAll(s) + "\"" }

  function Massaged(a: Argument): Value {
    match a
    case Undefined => Leaf(Quoted("undefined"))
    case ErrorObject(stack, description) =>
      Leaf(Quoted(if stack.Some? && stack.value != "" then stack.value else description))
    case Other(v) => v
  }

  function ArgsArray(args: seq<Argument>): seq<Member> {
    seq(|args|, i requires 0 <= i < |args| => Member("", Massaged(args[i])))
  }

  function NotInspected(error: string): string {
    "Output omitted for an object that cannot be inspected ('" + error + "')"
  }

  /** What becomes of a serialization. */
  function Outcome(text: Result<Option<string>, string>): string {
    match text
    case Err(e) => NotInspected(e)
    case Ok(None) => NotInspected("TypeError: Cannot read properties of undefined (reading 'length')")
    case Ok(Some(res)) => if |res| > MAX_LENGTH then OMITTED else res
  }

  predicate Acceptable(h: Heap, array_: nat, args: seq<Argument>) {
    NoneDangling(h) && array_ !in h && forall i | 0 <= i < |args| :: Valid(h, Massaged(args[i]))
  }

  lemma ArgumentsDoNotDangle(h: Heap, array_: nat, args: seq<Argument>)
    requires Acceptable(h, array_, args)
    ensures NoneDangling(h[array_ := Arr(ArgsArray(args))])
  {
    var h' := h[array_ := Arr(ArgsArray(args))];
    forall id | id in h' ensures AllValid(h', h'[id].members) {
      if id != array_ {
        assert AllValid(h, h[id].members);
      }
    }
  }

  /** The text sent for a call with these arguments; `array_` is where the new array of them is. */
  function SentText(h: Heap, array_: nat, args: seq<Argument>): string
    requires Acceptable(h, array_, args)
  {
    ArgumentsDoNotDangle(h, array_, args);
    Outcome(WalkValue(h[array_ := Arr(ArgsArray(args))], Ref(array_), []).text)
  }

  method Massage(args: seq<Argument>) returns (argsArray: seq<Member>)
    ensures argsArray == ArgsArray(args)
  {
    argsArray := [];
    for i := 0 to |args|
      invariant |argsArray| == i
      invariant forall j | 0 <= j < i :: argsArray[j] == Member("", Massaged(args[j]))
    {
      var arg: Value;
      match args[i] {
        case Undefined =>
          arg := Leaf(Quoted("undefined"));
        case ErrorObject(stack, description) =>
          if stack.Some? && stack.value != "" {
            arg := Leaf(Quoted(stack.value));
          } else {
            arg := Leaf(Quoted(description));
          }
        case Other(v) => arg := v;
      }
      assert arg == Massaged(args[i]);
      argsArray := argsArray + [Member("", arg)];
    }
  }

  method SafeToString(h: Heap, array_: nat, args: seq<Argument>) returns (text: string)
    requires Acceptable(h, array_, args)
    ensures text == SentText(h, array_, args)
  {
    var argsArray := Massage(args);
    ArgumentsDoNotDangle(h, array_, args);
    var serializer := new Serializer(h[array_ := Arr(argsArray)]);
    var res := serializer.Stringify(Ref(array_));
    text := Outcome(res);
  }

  lemma WalkOneLeaf(h: Heap, at: nat, json: string)
    requires NoneDangling(h) && at in h && h[at] == Arr([Member("", Leaf(json))])
    ensures WalkValue(h, Ref(at), []).text == Ok(Some("[" + json + "]"))
  {
    var ms := [Member("", Leaf(json))];
    assert ms[1..] == [];
    assert [] + [at] == [at];
    assert WalkMembers(h, true, [], [at]).text == Ok([]);
    assert Piece(true, ms[0], Some(json)) + [] == [json];
    assert WalkMembers(h, true, ms, [at]).text == Ok([json]);
  }

  /** A long string is not sent: the text in its place says only that it was too long. */
  lemma LongStringIsOmitted(h: Heap, array_: nat, s: string)
    requires Acceptable(h, array_, [Other(Leaf(Quoted(s)))])
    ensures SentText(h, array_, [Other(Leaf(Quoted(s)))]) ==
            if |EscapedAll(s)| + 4 > MAX_LENGTH then OMITTED else "[" + Quoted(s) + "]"
  {
    var args := [Other(Leaf(Quoted(s)))];
    ArgumentsDoNotDangle(h, array_, args);
    assert ArgsArray(args) == [Member("", Leaf(Quoted(s)))];
    WalkOneLeaf(h[array_ := Arr(ArgsArray(args))], array_, Quoted(s));
  }

  /** An empty object that is passed twice is written as a mark the second time. */
  lemma SharedIsMarked(array_: nat, id: nat)
    requires array_ != id
    ensures var h: Heap := map[id := Obj([])]; var args := [Other(Ref(id)), Other(Ref(id))];
            Acceptable(h, array_, args) && SentText(h, array_, args) == "[" + ("{}" + "," + CIRCULAR) + "]"
  {
    var h: Heap := map[id := Obj([])];
    var args := [Other(Ref(id)), Other(Ref(id))];
    ArgumentsDoNotDangle(h, array_, args);
    var ms := [Member("", Ref(id)), Member("", Ref(id))];
    assert ArgsArray(args) == ms;
    WalkSameTwice(h[array_ := Arr(ms)], array_, id);
  }

  lemma WalkSameTwice(h: Heap, at: nat, id: nat)
    requires NoneDangling(h) && at in h && id in h && at != id && h[id] == Obj([])
    requires h[at] == Arr([Member("", Ref(id)), Member("", Ref(id))])
    ensures WalkValue(h, Ref(at), []).text == Ok(Some("[" + ("{}" + "," + CIRCULAR) + "]"))
  {
    assert [] + [at] == [at];
    PiecesOfSameTwice(h, at, id);
    assert ["{}", CIRCULAR][1..] == [CIRCULAR];
    assert Joined(["{}", CIRCULAR]) == "{}" + "," + Joined([CIRCULAR]);
  }

  lemma PiecesOfSameTwice(h: Heap, at: nat, id: nat)
    requires NoneDangling(h) && at in h && id in h && at != id && h[id] == Obj([])
    ensures WalkMembers(h, true, [Member("", Ref(id)), Member("", Ref(id))], [at]).text == Ok(["{}", CIRCULAR])
  {
    var m := Member("", Ref(id));
    var ms, seen := [m, m], [at, id];
    assert ms[1..] == [m] && [m][1..] == [] && [at] + [id] == seen;
    assert WalkMembers(h, false, [], seen) == Walked(Ok([]), seen, 0);
    assert Enclosed(Obj([]), []) == "{}";
    assert WalkValue(h, Ref(id), [at]) == Walked(Ok(Some("{}")), seen, 0);
    assert WalkValue(h, Ref(id), seen) == Walked(Ok(Some(CIRCULAR)), seen, 1);
    assert WalkMembers(h, true, [], seen) == Walked(Ok([]), seen, 0);
    assert Piece(true, m, Some(CIRCULAR)) + [] == [CIRCULAR];
    assert WalkMembers(h, true, [m], seen).text == Ok([CIRCULAR]);
    assert Piece(true, m, Some("{}")) + [CIRCULAR] == ["{}", CIRCULAR];
  }
}
