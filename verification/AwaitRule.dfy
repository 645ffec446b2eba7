/**
 * The rule that reports a use of the accessor after an await: its walk over a function body, and
 * what its reports say about the paths of that body.
 */
module AwaitRule {
  import opened Common
  import opened AwaitPaths

  /** What the walk carries along: whether it saw an await, and the nodes it reported. */
  datatype Walked = Walked(saw: bool, reports: seq<nat>)

  /** Whether a statement always leaves the function. */
  predicate AlwaysExits(n: Node) {
    match n
    case Return(_, _) => true
    case Throw(_, _) => true
    case Block(_, body) => body != [] && AlwaysExits(body[|body| - 1])
    case If(_, _, consequent, otherwise) =>
      AlwaysExits(consequent) && otherwise.Some? && AlwaysExits(otherwise.value)
    case _ => false
  }

  /** The await state after an `if`, from the states after its branches. */
  function Merge(n: Node, afterConsequent: bool, afterAlternate: bool): bool
    requires n.If?
  {
    var consequentExits := AlwaysExits(n.consequent);
    var alternateExits := n.otherwise.Some? && AlwaysExits(n.otherwise.value);
    if consequentExits && alternateExits then afterConsequent || afterAlternate
    else if consequentExits then afterAlternate
    else if alternateExits then afterConsequent
    else afterConsequent || afterAlternate
  }

  function Walk(n: Node, isArg: bool, acc: string, st: Walked): Walked {
    match n
    case Function(_, _) => st
    case AwaitExpr(_, argument) => Walk(argument, false, acc, st).(saw := true)
    case Ident(id, _) =>
      if IsUsage(n, isArg, acc) && st.saw then st.(reports := st.reports + [id]) else st
    case Leaf(_) => st
    case Member(_, target, property) => WalkOpt(property, acc, Walk(target, false, acc, st))
    case Call(id, callee, args) =>
      if IsUsage(n, isArg, acc) && st.saw then st.(reports := st.reports + [id])
      else WalkList(args, true, acc, Walk(callee, false, acc, st))
    case Conditional(_, test, consequent, alternate) =>
      var st1 := Walk(test, false, acc, st);
      var st2 := Walk(consequent, false, acc, st1);
      var st3 := Walk(alternate, false, acc, st2.(saw := st1.saw));
      st3.(saw := st3.saw || st2.saw)
    case Logical(_, left, right) => Walk(right, false, acc, Walk(left, false, acc, st))
    case Ordered(_, children) => WalkList(children, false, acc, st)
    case Block(_, body) => WalkList(body, false, acc, st)
    case If(_, test, consequent, otherwise) =>
      var st1 := Walk(test, false, acc, st);
      var st2 := Walk(consequent, false, acc, st1);
      var st3 := WalkOpt(otherwise, acc, st2.(saw := st1.saw));
      st3.(saw := Merge(n, st2.saw, st3.saw))
    case Return(_, result) => WalkOpt(result, acc, st)
    case Throw(_, thrown) => Walk(thrown, false, acc, st)
  }

  function WalkOpt(o: Option<Node>, acc: string, st: Walked): Walked {
    match o
    case None => st
    case Some(n) => Walk(n, false, acc, st)
  }

  function WalkList(nodes: seq<Node>, isArg: bool, acc: string, st: Walked): Walked {
    if nodes == [] then st
    else WalkList(nodes[1..], isArg, acc, Walk(nodes[0], isArg, acc, st))
  }

  /** What the rule reports for a function body. */
  function Reports(body: Node, acc: string): seq<nat> {
    Walk(body, false, acc, Walked(false, [])).reports
  }

  // ------------------------------------------------------------------ the walk itself

  function Ids(n: Node): set<nat> {
    {n.id} +
    match n
    case Ident(_, _) => {}
    case Leaf(_) => {}
    case Function(_, body) => ListIds(body)
    case Member(_, target, property) => Ids(target) + OptIds(property)
    case Call(_, callee, args) => Ids(callee) + ListIds(args)
    case AwaitExpr(_, argument) => Ids(argument)
    case Conditional(_, test, consequent, alternate) =>
      Ids(test) + Ids(consequent) + Ids(alternate)
    case Logical(_, left, right) => Ids(left) + Ids(right)
    case Ordered(_, children) => ListIds(children)
    case Block(_, body) => ListIds(body)
    case If(_, test, consequent, otherwise) => Ids(test) + Ids(consequent) + OptIds(otherwise)
    case Return(_, result) => OptIds(result)
    case Throw(_, thrown) => Ids(thrown)
  }

  function OptIds(o: Option<Node>): set<nat> {
    match o
    case None => {}
    case Some(n) => Ids(n)
  }

  function ListIds(nodes: seq<Node>): set<nat> {
    if nodes == [] then {} else Ids(nodes[0]) + ListIds(nodes[1..])
  }

  /** The nodes form a tree: no node occurs in two places. */
  predicate Tree(n: Node) {
    match n
    case Ident(_, _) => true
    case Leaf(_) => true
    case Function(id, body) => id !in ListIds(body) && ListTree(body)
    case Member(id, target, property) =>
      && id !in Ids(target) + OptIds(property) && Ids(target) !! OptIds(property)
      && Tree(target) && OptTree(property)
    case Call(id, callee, args) =>
      && id !in Ids(callee) + ListIds(args) && Ids(callee) !! ListIds(args)
      && Tree(callee) && ListTree(args)
    case AwaitExpr(id, argument) => id !in Ids(argument) && Tree(argument)
    case Conditional(id, test, consequent, alternate) =>
      && id !in Ids(test) + Ids(consequent) + Ids(alternate)
      && Ids(test) !! Ids(consequent) !! Ids(alternate)
      && Tree(test) && Tree(consequent) && Tree(alternate)
    case Logical(id, left, right) =>
      id !in Ids(left) + Ids(right) && Ids(left) !! Ids(right) && Tree(left) && Tree(right)
    case Ordered(id, children) => id !in ListIds(children) && ListTree(children)
    case Block(id, body) => id !in ListIds(body) && ListTree(body)
    case If(id, test, consequent, otherwise) =>
      && id !in Ids(test) + Ids(consequent) + OptIds(otherwise)
      && Ids(test) !! Ids(consequent) !! OptIds(otherwise)
      && Tree(test) && Tree(consequent) && OptTree(otherwise)
    case Return(id, result) => id !in OptIds(result) && OptTree(result)
    case Throw(id, thrown) => id !in Ids(thrown) && Tree(thrown)
  }

  predicate OptTree(o: Option<Node>) {
    match o
    case None => true
    case Some(n) => Tree(n)
  }

  predicate ListTree(nodes: seq<Node>) {
    nodes == [] ||
    (Ids(nodes[0]) !! ListIds(nodes[1..]) && Tree(nodes[0]) && ListTree(nodes[1..]))
  }

  /** The checker for one function: the closure variables of the walk. */
  class Checker {
    const accessor: string
    var sawAwait: bool
    var reports: seq<nat>
    var visited: set<nat>

    constructor (accessor: string)
      ensures this.accessor == accessor && !sawAwait && reports == [] && visited == {}
    {
      this.accessor := accessor;
      sawAwait, reports, visited := false, [], {};
    }

    /** On a tree the set of visited nodes never cuts the walk short. */
    method Visit(n: Node, isArg: bool)
      requires Tree(n) && Ids(n) !! visited
      modifies this
      ensures Walked(sawAwait, reports) == Walk(n, isArg, accessor, Walked(old(sawAwait), old(reports)))
      ensures old(visited) <= visited <= old(visited) + Ids(n)
      decreases n, 1
    {
      if n.id in visited {
        return;
      }
      visited := visited + {n.id};
      if n.Function? {
        return;
      }
      if n.AwaitExpr? {
        Visit(n.argument, false);
        sawAwait := true;
        return;
      }
      if IsUsage(n, isArg, accessor) && sawAwait {
        reports := reports + [n.id];
        return;
      }
      match n
      case If(_, _, _, _) => VisitIf(n);
      case Conditional(_, _, _, _) => VisitConditional(n);
      case Member(_, target, property) =>
        Visit(target, false);
        VisitOpt(property);
      case Call(_, callee, args) =>
        Visit(callee, false);
        VisitList(args, true);
      case Logical(_, left, right) =>
        Visit(left, false);
        Visit(right, false);
      case Ordered(_, children) => VisitList(children, false);
      case Block(_, body) => VisitList(body, false);
      case Return(_, result) => VisitOpt(result);
      case Throw(_, thrown) => Visit(thrown, false);
      case _ =>
    }

    method VisitIf(n: Node)
      requires n.If? && Tree(n) && Ids(n) - {n.id} !! visited
      modifies this
      ensures Walked(sawAwait, reports) == Walk(n, false, accessor, Walked(old(sawAwait), old(reports)))
      ensures old(visited) <= visited <= old(visited) + Ids(n)
      decreases n, 0
    {
      Visit(n.test, false);
      var beforeBranches := sawAwait;
      Visit(n.consequent, false);
      var afterConsequent := sawAwait;
      var consequentExits := AlwaysExits(n.consequent);
      sawAwait := beforeBranches;
      VisitOpt(n.otherwise);
      var afterAlternate := sawAwait;
      var alternateExits := n.otherwise.Some? && AlwaysExits(n.otherwise.value);
      if consequentExits && alternateExits {
        sawAwait := afterConsequent || afterAlternate;
      } else if consequentExits {
        sawAwait := afterAlternate;
      } else if alternateExits {
        sawAwait := afterConsequent;
      } else {
        sawAwait := afterConsequent || afterAlternate;
      }
    }

    method VisitConditional(n: Node)
      requires n.Conditional? && Tree(n) && Ids(n) - {n.id} !! visited
      modifies this
      ensures Walked(sawAwait, reports) == Walk(n, false, accessor, Walked(old(sawAwait), old(reports)))
      ensures old(visited) <= visited <= old(visited) + Ids(n)
      decreases n, 0
    {
      Visit(n.test, false);
      var beforeBranches := sawAwait;
      Visit(n.consequent, false);
      var afterConsequent := sawAwait;
      sawAwait := beforeBranches;
      Visit(n.alternate, false);
      sawAwait := sawAwait || afterConsequent;
    }

    method VisitOpt(o: Option<Node>)
      requires OptTree(o) && OptIds(o) !! visited
      modifies this
      ensures Walked(sawAwait, reports) == WalkOpt(o, accessor, Walked(old(sawAwait), old(reports)))
      ensures old(visited) <= visited <= old(visited) + OptIds(o)
      decreases o
    {
      if o.Some? {
        Visit(o.value, false);
      }
    }

    method VisitList(nodes: seq<Node>, isArg: bool)
      requires ListTree(nodes) && ListIds(nodes) !! visited
      modifies this
      ensures Walked(sawAwait, reports)
           == WalkList(nodes, isArg, accessor, Walked(old(sawAwait), old(reports)))
      ensures old(visited) <= visited <= old(visited) + ListIds(nodes)
      decreases nodes
    {
      for i := 0 to |nodes|
        invariant ListTree(nodes[i..]) && ListIds(nodes[i..]) !! visited
        invariant ListIds(nodes[i..]) <= ListIds(nodes)
        invariant old(visited) <= visited <= old(visited) + ListIds(nodes)
        invariant WalkList(nodes, isArg, accessor, Walked(old(sawAwait), old(reports)))
               == WalkList(nodes[i..], isArg, accessor, Walked(sawAwait, reports))
      {
        assert nodes[i..][0] == nodes[i] && nodes[i..][1..] == nodes[i + 1..];
        Visit(nodes[i], isArg);
      }
    }
  }
}
