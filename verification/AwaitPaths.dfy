/**
 * Function bodies as the accessor rule sees them, and what can happen when one runs.
 *
 * A path is one way through a piece of code: the awaits and the uses of the accessor on it, in
 * order, and whether it leaves the function.  Bodies without loops have finitely many paths.
 */
module AwaitPaths {
  import opened Common

  /** The nodes the rule distinguishes; `id` tells nodes apart as object identity does. */
  datatype Node =
    | Ident(id: nat, name: string)
    | Leaf(id: nat)                                   // nothing to visit inside
    | Function(id: nat, body: seq<Node>)              // a nested function scope
    | Member(id: nat, target: Node, property: Option<Node>)   // the property only when computed
    | Call(id: nat, callee: Node, args: seq<Node>)
    | AwaitExpr(id: nat, argument: Node)
    | Conditional(id: nat, test: Node, consequent: Node, alternate: Node)
    | Logical(id: nat, left: Node, right: Node)
    | Ordered(id: nat, children: seq<Node>)           // operands evaluated from left to right
    | Block(id: nat, body: seq<Node>)
    | If(id: nat, test: Node, consequent: Node, otherwise: Option<Node>)
    | Return(id: nat, result: Option<Node>)
    | Throw(id: nat, thrown: Node)

  /** `accessor.f(...)`, or the accessor itself passed as an argument of a call. */
  predicate IsUsage(n: Node, isArg: bool, acc: string) {
    || (n.Call? && n.callee.Member? && n.callee.target.Ident? && n.callee.target.name == acc)
    || (n.Ident? && n.name == acc && isArg)
  }

  datatype Event = Await | Use(id: nat)

  datatype Path = Path(events: seq<Event>, exits: bool)

  const SKIP: set<Path> := {Path([], false)}

  /** One after the other: the second part only runs when the first completes normally. */
  function Then(p: set<Path>, q: set<Path>): set<Path> {
    (set x | x in p && x.exits)
    + (set x, y | x in p && !x.exits && y in q :: Path(x.events + y.events, y.exits))
  }

  /**
   * Where a use is placed: where the walk enters its node, or where it happens: a call, and with it
   * the hand-over of its arguments, happens once its callee and all its arguments were evaluated.
   */
  datatype UseAt = Entry | Exit

  function Uses(n: Node, isArg: bool, acc: string): set<Path> {
    if IsUsage(n, isArg, acc) then {Path([Use(n.id)], false)} else SKIP
  }

  /** The uses that the call makes by handing the accessor over as one of its arguments. */
  function HandOvers(args: seq<Node>, acc: string): set<Path> {
    if args == [] then SKIP
    else Then(if args[0].Ident? then Uses(args[0], true, acc) else SKIP, HandOvers(args[1..], acc))
  }

  function Paths(n: Node, isArg: bool, acc: string, at: UseAt): set<Path> {
    match n
    case Ident(_, _) => if at == Entry then Uses(n, isArg, acc) else SKIP
    case Leaf(_) => SKIP
    case Function(_, _) => SKIP
    case Member(_, target, property) =>
      Then(Paths(target, false, acc, at), OptPaths(property, acc, at))
    case Call(_, callee, args) =>
      var inner := Then(Paths(callee, false, acc, at), ListPaths(args, true, acc, at));
      if at == Entry then Then(Uses(n, isArg, acc), inner)
      else Then(Then(inner, HandOvers(args, acc)), Uses(n, isArg, acc))
    case AwaitExpr(_, argument) => Then(Paths(argument, false, acc, at), {Path([Await], false)})
    case Conditional(_, test, consequent, alternate) =>
      Then(Paths(test, false, acc, at),
           Paths(consequent, false, acc, at) + Paths(alternate, false, acc, at))
    case Logical(_, left, right) =>
      Then(Paths(left, false, acc, at), SKIP + Paths(right, false, acc, at))
    case Ordered(_, children) => ListPaths(children, false, acc, at)
    case Block(_, body) => ListPaths(body, false, acc, at)
    case If(_, test, consequent, otherwise) =>
      Then(Paths(test, false, acc, at),
           Paths(consequent, false, acc, at) + OptPaths(otherwise, acc, at))
    case Return(_, result) => Then(OptPaths(result, acc, at), {Path([], true)})
    case Throw(_, thrown) => Then(Paths(thrown, false, acc, at), {Path([], true)})
  }

  function OptPaths(o: Option<Node>, acc: string, at: UseAt): set<Path> {
    match o
    case None => SKIP
    case Some(n) => Paths(n, false, acc, at)
  }

  function ListPaths(nodes: seq<Node>, isArg: bool, acc: string, at: UseAt): set<Path> {
    if nodes == [] then SKIP
    else Then(Paths(nodes[0], isArg, acc, at), ListPaths(nodes[1..], isArg, acc, at))
  }

  // ------------------------------------------------------------------ what a path does

  /** Whether something was awaited by the end, when `before` tells whether it was at the start. */
  function Awaited(events: seq<Event>, before: bool): bool {
    before || Await in events
  }

  /** Whether the accessor is used after an await. */
  function Misuse(events: seq<Event>, before: bool): bool {
    if events == [] then false
    else match events[0]
      case Await => Misuse(events[1..], true)
      case Use(_) => before || Misuse(events[1..], before)
  }

  /** The use of node `id` comes after an await. */
  ghost predicate MisuseOf(events: seq<Event>, before: bool, id: nat) {
    exists i :: 0 <= i < |events| && events[i] == Use(id) && Awaited(events[..i], before)
  }

  lemma {:induction false} MisuseAppend(x: seq<Event>, y: seq<Event>, before: bool)
    ensures Misuse(x + y, before) <==> Misuse(x, before) || Misuse(y, Awaited(x, before))
  {
    if x == [] {
      assert x + y == y;
    } else {
      assert (x + y)[1..] == x[1..] + y;
      MisuseAppend(x[1..], y, before || x[0] == Await);
    }
  }

  lemma {:induction false} MisuseMonotone(x: seq<Event>)
    ensures Misuse(x, false) ==> Misuse(x, true)
  {
    if x != [] {
      MisuseMonotone(x[1..]);
    }
  }

  /** `Misuse` says exactly that some node's use comes after an await. */
  lemma {:induction false} MisuseHasNode(x: seq<Event>, before: bool)
    ensures Misuse(x, before) <==> exists id :: MisuseOf(x, before, id)
  {
    if x != [] {
      var before' := before || x[0] == Await;
      MisuseHasNode(x[1..], before');
      if x[0].Use? && before {
        assert Awaited(x[..0], before) && MisuseOf(x, before, x[0].id);
      }
      forall id ensures MisuseOf(x, before, id) <==>
                        MisuseOf(x[1..], before', id) || (before && x[0] == Use(id)) {
        MisuseOfTail(x, before, id);
      }
    }
  }

  lemma MisuseOfTail(x: seq<Event>, before: bool, id: nat)
    requires x != []
    ensures MisuseOf(x, before, id) <==>
            MisuseOf(x[1..], before || x[0] == Await, id) || (before && x[0] == Use(id))
  {
    var before' := before || x[0] == Await;
    if i :| 0 <= i < |x[1..]| && x[1..][i] == Use(id) && Awaited(x[1..][..i], before') {
      assert x[..i + 1] == [x[0]] + x[1..][..i];
      assert x[i + 1] == Use(id) && Awaited(x[..i + 1], before);
    }
    if i :| 0 <= i < |x| && x[i] == Use(id) && Awaited(x[..i], before) {
      if i > 0 {
        assert x[..i] == [x[0]] + x[1..][..i - 1];
        assert x[1..][i - 1] == Use(id) && Awaited(x[1..][..i - 1], before');
      }
    }
    if before && x[0] == Use(id) {
      assert Awaited(x[..0], before);
    }
  }

  // ------------------------------------------------------------------ what a set of paths does

  ghost predicate MayMisuse(p: set<Path>, before: bool) {
    exists x :: x in p && Misuse(x.events, before)
  }

  ghost predicate MayMisuseAt(p: set<Path>, before: bool, id: nat) {
    exists x :: x in p && MisuseOf(x.events, before, id)
  }

  /** Some path completes normally, and by then something was (or was not) awaited. */
  ghost predicate MayReach(p: set<Path>, before: bool, after: bool) {
    exists x :: x in p && !x.exits && Awaited(x.events, before) == after
  }

  ghost predicate MayComplete(p: set<Path>) {
    exists x :: x in p && !x.exits
  }

  lemma InThen(p: set<Path>, q: set<Path>, x: Path, y: Path)
    requires x in p && !x.exits && y in q
    ensures Path(x.events + y.events, y.exits) in Then(p, q)
  {
  }

  lemma ReachThen(p: set<Path>, q: set<Path>, before: bool, after: bool)
    ensures MayReach(Then(p, q), before, after) <==>
            exists mid :: MayReach(p, before, mid) && MayReach(q, mid, after)
  {
    if z :| z in Then(p, q) && !z.exits && Awaited(z.events, before) == after {
      var x, y :| x in p && !x.exits && y in q && z == Path(x.events + y.events, y.exits);
      assert MayReach(p, before, Awaited(x.events, before));
      assert MayReach(q, Awaited(x.events, before), after);
    }
    if mid :| MayReach(p, before, mid) && MayReach(q, mid, after) {
      var x :| x in p && !x.exits && Awaited(x.events, before) == mid;
      var y :| y in q && !y.exits && Awaited(y.events, mid) == after;
      InThen(p, q, x, y);
      assert Awaited(x.events + y.events, before) == after;
    }
  }

  lemma MisuseThen(p: set<Path>, q: set<Path>, before: bool)
    ensures MayMisuse(Then(p, q), before) <==>
            || (exists x :: x in p && Misuse(x.events, before) && (x.exits || q != {}))
            || exists mid :: MayReach(p, before, mid) && MayMisuse(q, mid)
  {
    if z :| z in Then(p, q) && Misuse(z.events, before) {
      if z in p && z.exits {
      } else {
        var x, y :| x in p && !x.exits && y in q && z == Path(x.events + y.events, y.exits);
        MisuseAppend(x.events, y.events, before);
        if !Misuse(x.events, before) {
          assert MayReach(p, before, Awaited(x.events, before));
          assert MayMisuse(q, Awaited(x.events, before));
        }
      }
    }
    if x :| x in p && Misuse(x.events, before) && (x.exits || q != {}) {
      if x.exits {
        assert x in Then(p, q);
      } else {
        var y :| y in q;
        InThen(p, q, x, y);
        MisuseAppend(x.events, y.events, before);
      }
    }
    if mid :| MayReach(p, before, mid) && MayMisuse(q, mid) {
      var x :| x in p && !x.exits && Awaited(x.events, before) == mid;
      var y :| y in q && Misuse(y.events, mid);
      InThen(p, q, x, y);
      MisuseAppend(x.events, y.events, before);
    }
  }

  lemma CompleteThen(p: set<Path>, q: set<Path>)
    ensures MayComplete(Then(p, q)) <==> MayComplete(p) && MayComplete(q)
  {
    if MayComplete(Then(p, q)) {
      var z :| z in Then(p, q) && !z.exits;
      var x, y :| x in p && !x.exits && y in q && z == Path(x.events + y.events, y.exits);
    }
    if MayComplete(p) && MayComplete(q) {
      var x :| x in p && !x.exits;
      var y :| y in q && !y.exits;
      InThen(p, q, x, y);
    }
  }

  lemma MisuseOfExtends(x: seq<Event>, y: seq<Event>, before: bool, id: nat)
    ensures MisuseOf(x, before, id) ==> MisuseOf(x + y, before, id)
    ensures MisuseOf(y, Awaited(x, before), id) ==> MisuseOf(x + y, before, id)
  {
    if i :| 0 <= i < |x| && x[i] == Use(id) && Awaited(x[..i], before) {
      assert (x + y)[..i] == x[..i] && (x + y)[i] == Use(id);
    }
    if i :| 0 <= i < |y| && y[i] == Use(id) && Awaited(y[..i], Awaited(x, before)) {
      assert (x + y)[..|x| + i] == x + y[..i] && (x + y)[|x| + i] == Use(id);
    }
  }

  lemma MisuseAtFirst(p: set<Path>, q: set<Path>, before: bool, id: nat)
    requires MayMisuseAt(p, before, id) && q != {}
    ensures MayMisuseAt(Then(p, q), before, id)
  {
    var x :| x in p && MisuseOf(x.events, before, id);
    if x.exits {
      assert x in Then(p, q);
    } else {
      var y :| y in q;
      InThen(p, q, x, y);
      MisuseOfExtends(x.events, y.events, before, id);
    }
  }

  lemma MisuseAtSecond(p: set<Path>, q: set<Path>, before: bool, mid: bool, id: nat)
    requires MayReach(p, before, mid) && MayMisuseAt(q, mid, id)
    ensures MayMisuseAt(Then(p, q), before, id)
  {
    var x :| x in p && !x.exits && Awaited(x.events, before) == mid;
    var y :| y in q && MisuseOf(y.events, mid, id);
    InThen(p, q, x, y);
    MisuseOfExtends(x.events, y.events, before, id);
  }

  /** Three parts in a row, the last of which runs. */
  lemma ThreeInARow(p: set<Path>, q: set<Path>, r: set<Path>, x: Path, y: Path, c: Path)
    requires x in p && !x.exits && y in q && !y.exits && c in r
    ensures Path((x.events + y.events) + c.events, c.exits) in Then(Then(p, q), r)
    ensures Path((x.events + y.events) + c.events, c.exits) in Then(p, Then(q, r))
  {
    InThen(p, q, x, y);
    InThen(Then(p, q), r, Path(x.events + y.events, y.exits), c);
    InThen(q, r, y, c);
    InThen(p, Then(q, r), x, Path(y.events + c.events, c.exits));
    ConcatAssoc(x.events, y.events, c.events);
  }

  /** Two parts, the second of which exits. */
  lemma ExitInSecond(p: set<Path>, q: set<Path>, r: set<Path>, x: Path, y: Path)
    requires x in p && !x.exits && y in q && y.exits
    ensures Path(x.events + y.events, y.exits) in Then(Then(p, q), r)
    ensures Path(x.events + y.events, y.exits) in Then(p, Then(q, r))
  {
    InThen(p, q, x, y);
    InThen(p, Then(q, r), x, y);
  }

  lemma SplitThen(p: set<Path>, q: set<Path>, z: Path) returns (x: Path, y: Path)
    requires z in Then(p, q) && !(z in p && z.exits)
    ensures x in p && !x.exits && y in q && z == Path(x.events + y.events, y.exits)
  {
    x, y :| x in p && !x.exits && y in q && z == Path(x.events + y.events, y.exits);
  }

  lemma ExitStays(p: set<Path>, q: set<Path>, z: Path)
    requires z in p && z.exits
    ensures z in Then(p, q)
  {
  }

  lemma ThenAssocLeft(p: set<Path>, q: set<Path>, r: set<Path>, z: Path)
    requires z in Then(Then(p, q), r)
    ensures z in Then(p, Then(q, r))
  {
    if z in p && z.exits {
      ExitStays(p, Then(q, r), z);
    } else if z in Then(p, q) && z.exits {
      var x, y := SplitThen(p, q, z);
      ExitInSecond(p, q, r, x, y);
    } else {
      var xy, c := SplitThen(Then(p, q), r, z);
      var x, y := SplitThen(p, q, xy);
      ThreeInARow(p, q, r, x, y, c);
    }
  }

  lemma ThenAssocRight(p: set<Path>, q: set<Path>, r: set<Path>, z: Path)
    requires z in Then(p, Then(q, r))
    ensures z in Then(Then(p, q), r)
  {
    if z in p && z.exits {
      ExitStays(p, q, z);
      ExitStays(Then(p, q), r, z);
    } else {
      var x, yc := SplitThen(p, Then(q, r), z);
      if yc in q && yc.exits {
        ExitInSecond(p, q, r, x, yc);
      } else {
        var y, c := SplitThen(q, r, yc);
        ThreeInARow(p, q, r, x, y, c);
        ConcatAssoc(x.events, y.events, c.events);
      }
    }
  }

  lemma ThenAssoc(p: set<Path>, q: set<Path>, r: set<Path>)
    ensures Then(Then(p, q), r) == Then(p, Then(q, r))
  {
    var left, right := Then(Then(p, q), r), Then(p, Then(q, r));
    forall z | z in left ensures z in right {
      ThenAssocLeft(p, q, r, z);
    }
    forall z | z in right ensures z in left {
      ThenAssocRight(p, q, r, z);
    }
  }

  lemma ThenNothing(p: set<Path>, q: set<Path>)
    requires !MayComplete(p)
    ensures Then(p, q) == p
  {
  }
}
