/**
 * What the text of a value is: the tree that reading it from left to right unfolds, printed as
 * JSON.  A container is unfolded where it is met first, and is a mark wherever it is met again.
 */
module ConsoleTrees {
  import opened Common
  import opened ConsoleText

  datatype Tree = Text(json: string) | Gap | Again(id: nat) | Unfolded(id: nat, isArray: bool, entries: seq<Entry>)

  datatype Entry = Entry(key: string, tree: Tree)

  /** The value in the heap has the shape of the tree. */
  ghost predicate Denotes(h: Heap, v: Value, t: Tree)
    decreases t
  {
    match t
    case Text(json) => v == Leaf(json)
    case Gap => v == Absent
    case Again(id) => v == Ref(id)
    case Unfolded(id, isArray, entries) =>
      v == Ref(id) && id in h && h[id].Arr? == isArray && EntriesDenote(h, h[id].members, entries)
  }

  ghost predicate EntriesDenote(h: Heap, ms: seq<Member>, entries: seq<Entry>)
    decreases entries
  {
    if ms == [] || entries == [] then ms == [] && entries == []
    else EntryDenotes(h, ms[0], entries[0]) && EntriesDenote(h, ms[1..], entries[1..])
  }

  ghost predicate EntryDenotes(h: Heap, m: Member, e: Entry)
    decreases e
  {
    m.key == e.key && Denotes(h, m.value, e.tree)
  }

  // ------------------------------------------------------------------ its text

  function Print(t: Tree): Option<string>
    decreases t
  {
    match t
    case Text(json) => Some(json)
    case Gap => None
    case Again(_) => Some("\"[Circular]\"")
    case Unfolded(_, true, entries) => Some("[" + Listed(true, entries, "") + "]")
    case Unfolded(_, false, entries) => Some("{" + Listed(false, entries, "") + "}")
  }

  /** Entries with commas between them: `comma` is what goes before the first that is written. */
  function Listed(isArray: bool, entries: seq<Entry>, comma: string): string
    decreases entries
  {
    if entries == [] then ""
    else
      match PrintEntry(isArray, entries[0])
      case None => Listed(isArray, entries[1..], comma)
      case Some(text) => comma + text + Listed(isArray, entries[1..], ",")
  }

  /** An item without text is `null` in an array; an object leaves the property out. */
  function PrintEntry(isArray: bool, e: Entry): Option<string>
    decreases e
  {
    match Print(e.tree)
    case None => if isArray then Some("null") else None
    case Some(text) => if isArray then Some(text) else Some(e.key + ":" + text)
  }

  // ------------------------------------------------------------------ the order of reading

  datatype Visit = First(id: nat) | Later(id: nat)

  function Visits(t: Tree): seq<Visit>
    decreases t
  {
    match t
    case Text(_) => []
    case Gap => []
    case Again(id) => [Later(id)]
    case Unfolded(id, _, entries) => [First(id)] + EntryVisits(entries)
  }

  function EntryVisits(entries: seq<Entry>): seq<Visit>
    decreases entries
  {
    if entries == [] then [] else VisitsOf(entries[0]) + EntryVisits(entries[1..])
  }

  function VisitsOf(e: Entry): seq<Visit>
    decreases e
  {
    Visits(e.tree)
  }

  /** The containers met once the visits are over. */
  function Met(seen: seq<nat>, visits: seq<Visit>): seq<nat>
    decreases visits
  {
    if visits == [] then seen
    else Met(if visits[0].First? then seen + [visits[0].id] else seen, visits[1..])
  }

  /** A container is unfolded exactly when it was not met before. */
  predicate InOrder(seen: seq<nat>, visits: seq<Visit>)
    decreases visits
  {
    visits == [] ||
    match visits[0]
    case First(id) => id !in seen && InOrder(seen + [id], visits[1..])
    case Later(id) => id in seen && InOrder(seen, visits[1..])
  }

  function Marks(visits: seq<Visit>): nat {
    if visits == [] then 0 else (if visits[0].Later? then 1 else 0) + Marks(visits[1..])
  }

  lemma {:induction false} VisitsTogether(seen: seq<nat>, a: seq<Visit>, b: seq<Visit>)
    ensures Met(seen, a + b) == Met(Met(seen, a), b)
    ensures InOrder(seen, a + b) <==> InOrder(seen, a) && InOrder(Met(seen, a), b)
    ensures Marks(a + b) == Marks(a) + Marks(b)
    decreases a
  {
    if a == [] {
      assert a + b == b;
    } else {
      assert (a + b)[1..] == a[1..] + b;
      VisitsTogether(if a[0].First? then seen + [a[0].id] else seen, a[1..], b);
    }
  }

  // ------------------------------------------------------------------ pieces and commas

  lemma ListedPieces(isArray: bool, entries: seq<Entry>, pieces: seq<string>)
    requires PiecesOf(isArray, entries) == pieces
    ensures Listed(isArray, entries, "") == Joined(pieces)
    ensures Listed(isArray, entries, ",") == if pieces == [] then "" else "," + Joined(pieces)
  {
    if entries != [] {
      var rest := PiecesOf(isArray, entries[1..]);
      ListedPieces(isArray, entries[1..], rest);
      var text := PrintEntry(isArray, entries[0]);
      if text.Some? {
        assert pieces == [text.value] + rest && pieces[1..] == rest;
        CommaText(text.value, rest, Listed(isArray, entries[1..], ","));
      }
    }
  }

  lemma CommaText(text: string, rest: seq<string>, others: string)
    requires others == if rest == [] then "" else "," + Joined(rest)
    ensures Joined([text] + rest) == "" + text + others
    ensures "," + Joined([text] + rest) == "," + text + others
  {
    assert ([text] + rest)[1..] == rest;
  }

  function PiecesOf(isArray: bool, entries: seq<Entry>): seq<string> {
    if entries == [] then []
    else
      (match PrintEntry(isArray, entries[0])
       case None => []
       case Some(text) => [text]) + PiecesOf(isArray, entries[1..])
  }

  // ------------------------------------------------------------------ the walk unfolds the tree

  ghost predicate Unfolds(h: Heap, v: Value, seen: seq<nat>, w: Walked<Option<string>>, t: Tree) {
    && Denotes(h, v, t) && w.text == Ok(Print(t))
    && InOrder(seen, Visits(t)) && w.seen == Met(seen, Visits(t)) && w.marks == Marks(Visits(t))
  }

  ghost predicate UnfoldsAll(
    h: Heap, isArray: bool, ms: seq<Member>, seen: seq<nat>, w: Walked<seq<string>>, entries: seq<Entry>)
  {
    var visits := EntryVisits(entries);
    && EntriesDenote(h, ms, entries) && w.text == Ok(PiecesOf(isArray, entries))
    && InOrder(seen, visits) && w.seen == Met(seen, visits) && w.marks == Marks(visits)
  }

  lemma UnfoldsNew(h: Heap, id: nat, seen: seq<nat>, w: Walked<seq<string>>, entries: seq<Entry>)
    requires id in h && id !in seen
    requires UnfoldsAll(h, h[id].Arr?, h[id].members, seen + [id], w, entries)
    ensures Unfolds(h, Ref(id), seen, Walked(Ok(Some(Enclosed(h[id], w.text.value))), w.seen, w.marks),
              Unfolded(id, h[id].Arr?, entries))
  {
    ListedPieces(h[id].Arr?, entries, w.text.value);
    assert ([First(id)] + EntryVisits(entries))[1..] == EntryVisits(entries);
  }

  lemma UnfoldsFirst(h: Heap, isArray: bool, ms: seq<Member>, seen: seq<nat>, t: Tree, others: seq<Entry>,
    first: Walked<Option<string>>, rest: Walked<seq<string>>)
    requires ms != [] && Unfolds(h, ms[0].value, seen, first, t)
    requires UnfoldsAll(h, isArray, ms[1..], first.seen, rest, others)
    ensures UnfoldsAll(h, isArray, ms, seen,
              Walked(Ok(Piece(isArray, ms[0], first.text.value) + rest.text.value), rest.seen,
                first.marks + rest.marks),
              [Entry(ms[0].key, t)] + others)
  {
    var entries := [Entry(ms[0].key, t)] + others;
    assert entries[1..] == others;
    VisitsTogether(seen, Visits(t), EntryVisits(others));
    assert VisitsOf(entries[0]) == Visits(t);
    PieceIsEntry(isArray, ms[0], entries[0]);
  }

  lemma PieceIsEntry(isArray: bool, m: Member, e: Entry)
    requires m.key == e.key
    ensures Piece(isArray, m, Print(e.tree)) ==
            match PrintEntry(isArray, e) case None => [] case Some(text) => [text]
  {
  }

  lemma {:induction false} ValueUnfolds(h: Heap, v: Value, seen: seq<nat>) returns (t: Tree)
    requires NoneDangling(h) && Valid(h, v) && WalkValue(h, v, seen).text.Ok?
    ensures Unfolds(h, v, seen, WalkValue(h, v, seen), t)
    decreases |Unseen(h, seen)|, 0
  {
    match v
    case Leaf(json) => t := Text(json);
    case Absent => t := Gap;
    case Ref(id) =>
      if id in seen {
        t := Again(id);
      } else {
        UnseenWithout(h, seen, id);
        var entries := MembersUnfold(h, h[id].Arr?, h[id].members, seen + [id]);
        t := Unfolded(id, h[id].Arr?, entries);
        UnfoldsNew(h, id, seen, WalkMembers(h, h[id].Arr?, h[id].members, seen + [id]), entries);
      }
  }

  lemma {:induction false} MembersUnfold(h: Heap, isArray: bool, ms: seq<Member>, seen: seq<nat>)
    returns (entries: seq<Entry>)
    requires NoneDangling(h) && AllValid(h, ms) && WalkMembers(h, isArray, ms, seen).text.Ok?
    ensures UnfoldsAll(h, isArray, ms, seen, WalkMembers(h, isArray, ms, seen), entries)
    decreases |Unseen(h, seen)|, |ms| + 1
  {
    entries := [];
    if ms != [] {
      var first := WalkValue(h, ms[0].value, seen);
      UnseenShrinks(h, seen, first.seen);
      var t := ValueUnfolds(h, ms[0].value, seen);
      var others := MembersUnfold(h, isArray, ms[1..], first.seen);
      UnfoldsFirst(h, isArray, ms, seen, t, others, first, WalkMembers(h, isArray, ms[1..], first.seen));
      entries := [Entry(ms[0].key, t)] + others;
    }
  }

  // ------------------------------------------------------------------ when it fails

  /** A member of the container throws. */
  predicate Throwing(c: Container, error: string) {
    exists i :: 0 <= i < |c.members| && c.members[i].value == Throws(error)
  }

  lemma {:induction false} ValueFails(h: Heap, v: Value, seen: seq<nat>)
    requires NoneDangling(h) && Valid(h, v)
    ensures var w := WalkValue(h, v, seen);
            w.text.Err? ==> v == Throws(w.text.error) ||
                            exists id :: id in w.seen && id in h && Throwing(h[id], w.text.error)
    decreases |Unseen(h, seen)|, 0
  {
    if v.Ref? && v.id !in seen {
      UnseenWithout(h, seen, v.id);
      var ms := h[v.id].members;
      MembersFail(h, h[v.id].Arr?, ms, seen + [v.id]);
      var w := WalkMembers(h, h[v.id].Arr?, ms, seen + [v.id]);
      assert v.id in seen + [v.id];
      if w.text.Err? && exists i :: 0 <= i < |ms| && ms[i].value == Throws(w.text.error) {
        assert Throwing(h[v.id], w.text.error);
      }
    }
  }

  lemma {:induction false} MembersFail(h: Heap, isArray: bool, ms: seq<Member>, seen: seq<nat>)
    requires NoneDangling(h) && AllValid(h, ms)
    ensures var w := WalkMembers(h, isArray, ms, seen);
            w.text.Err? ==> (exists i :: 0 <= i < |ms| && ms[i].value == Throws(w.text.error)) ||
                            exists id :: id in w.seen && id in h && Throwing(h[id], w.text.error)
    decreases |Unseen(h, seen)|, |ms| + 1
  {
    if ms != [] {
      var first := WalkValue(h, ms[0].value, seen);
      UnseenShrinks(h, seen, first.seen);
      ValueFails(h, ms[0].value, seen);
      if first.text.Ok? {
        MembersFail(h, isArray, ms[1..], first.seen);
        assert forall i | 0 < i < |ms| :: ms[i] == ms[1..][i - 1];
      }
    }
  }

  ghost predicate NoneThrows(h: Heap, before: seq<nat>, after: seq<nat>) {
    forall id, e | id in after && id !in before && id in h :: !Throwing(h[id], e)
  }

  lemma {:induction false} ValueSucceeds(h: Heap, v: Value, seen: seq<nat>)
    requires NoneDangling(h) && Valid(h, v)
    ensures var w := WalkValue(h, v, seen); w.text.Ok? ==> !v.Throws? && NoneThrows(h, seen, w.seen)
    decreases |Unseen(h, seen)|, 0
  {
    if v.Ref? && v.id !in seen {
      UnseenWithout(h, seen, v.id);
      MembersSucceed(h, h[v.id].Arr?, h[v.id].members, seen + [v.id]);
    }
  }

  lemma {:induction false} MembersSucceed(h: Heap, isArray: bool, ms: seq<Member>, seen: seq<nat>)
    requires NoneDangling(h) && AllValid(h, ms)
    ensures var w := WalkMembers(h, isArray, ms, seen);
            w.text.Ok? ==> (forall i | 0 <= i < |ms| :: !ms[i].value.Throws?) && NoneThrows(h, seen, w.seen)
    decreases |Unseen(h, seen)|, |ms| + 1
  {
    if ms != [] {
      var first := WalkValue(h, ms[0].value, seen);
      UnseenShrinks(h, seen, first.seen);
      ValueSucceeds(h, ms[0].value, seen);
      if first.text.Ok? {
        MembersSucceed(h, isArray, ms[1..], first.seen);
        assert forall i | 0 < i < |ms| :: ms[i] == ms[1..][i - 1];
      }
    }
  }

  // ------------------------------------------------------------------ what is sent

  /** A container that can be reached has a member that throws this. */
  ghost predicate ThrowsSomewhere(h: Heap, root: nat, error: string) {
    exists id :: id in h && Reaches(h, root, id) && Throwing(h[id], error)
  }

  ghost predicate TreeOf(h: Heap, root: nat, t: Tree) {
    t.Unfolded? && Denotes(h, Ref(root), t) && InOrder([], Visits(t))
  }

  /**
   * The serialization fails exactly when something that can be reached throws, and then with such
   * an error; otherwise it is the text of a tree, which unfolds each container where it is first met.
   */
  lemma SerializesTree(h: Heap, root: nat)
    requires NoneDangling(h) && root in h
    ensures var text := WalkValue(h, Ref(root), []).text;
            && (text.Err? <==> exists e :: ThrowsSomewhere(h, root, e))
            && (text.Err? ==> ThrowsSomewhere(h, root, text.error))
            && (text.Ok? ==> exists t :: TreeOf(h, root, t) && text == Ok(Print(t)))
  {
    var w := WalkValue(h, Ref(root), []);
    ExpandsEachReachableOnce(h, root);
    if w.text.Err? {
      ValueFails(h, Ref(root), []);
      var id :| id in w.seen && id in h && Throwing(h[id], w.text.error);
      assert ThrowsSomewhere(h, root, w.text.error);
    } else {
      ValueSucceeds(h, Ref(root), []);
      forall id, e | id in h && Reaches(h, root, id) ensures !Throwing(h[id], e) {
        assert id in w.seen;
      }
      var t := ValueUnfolds(h, Ref(root), []);
      assert TreeOf(h, root, t);
    }
  }

  /**
   * The text sent for a call of a console method: the array of its arguments as such a tree, up to
   * 100000 characters; a notice for a longer one, and a notice with the error when something throws.
   */
  lemma SentTextIs(h: Heap, array_: nat, args: seq<Argument>)
    requires Acceptable(h, array_, args)
    ensures var h' := h[array_ := Arr(ArgsArray(args))]; var text := SentText(h, array_, args);
            if exists e :: ThrowsSomewhere(h', array_, e) then
              exists e :: ThrowsSomewhere(h', array_, e) &&
                text == "Output omitted for an object that cannot be inspected ('" + e + "')"
            else
              exists t :: TreeOf(h', array_, t) && Print(t).Some? &&
                text == if |Print(t).value| <= 100000 then Print(t).value
                        else "Output omitted for a large object that exceeds the limits"
  {
    ArgumentsDoNotDangle(h, array_, args);
    var h' := h[array_ := Arr(ArgsArray(args))];
    SerializesTree(h', array_);
  }

  /**
   * The special arguments: `undefined` is sent as that word, an error as its stack, or as its
   * description when it has none.
   */
  lemma MassagedAre(args: seq<Argument>, i: nat)
    requires i < |args|
    ensures |ArgsArray(args)| == |args|
    ensures var v := ArgsArray(args)[i].value;
            match args[i]
            case Undefined => v == Leaf(Quoted("undefined"))
            case ErrorObject(stack, description) =>
              if stack.None? || stack.value == "" then v == Leaf(Quoted(description))
              else v == Leaf(Quoted(stack.value))
            case Other(value) => v == value
  {
  }
}
