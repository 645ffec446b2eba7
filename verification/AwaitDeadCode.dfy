/**
 * Dead code that does not mislead the rule: statements behind one that always exits in which the
 * accessor is not used, and which end, if there are any, in one that always exits too, so that the
 * rule still sees that the block does.
 */
module AwaitDeadCode {
  import opened Common
  import opened AwaitPaths
  import opened AwaitRule
  import opened AwaitTheorems
  import opened AwaitExactness

  /** The accessor is not used anywhere that the walk comes to. */
  predicate Unused(n: Node, isArg: bool, acc: string) {
    !IsUsage(n, isArg, acc) &&
    match n
    case Ident(_, _) => true
    case Leaf(_) => true
    case Function(_, _) => true
    case Member(_, target, property) => Unused(target, false, acc) && OptUnused(property, acc)
    case Call(_, callee, args) => Unused(callee, false, acc) && ListUnused(args, true, acc)
    case AwaitExpr(_, argument) => Unused(argument, false, acc)
    case Conditional(_, test, consequent, alternate) =>
      Unused(test, false, acc) && Unused(consequent, false, acc) && Unused(alternate, false, acc)
    case Logical(_, left, right) => Unused(left, false, acc) && Unused(right, false, acc)
    case Ordered(_, children) => ListUnused(children, false, acc)
    case Block(_, body) => ListUnused(body, false, acc)
    case If(_, test, consequent, otherwise) =>
      Unused(test, false, acc) && Unused(consequent, false, acc) && OptUnused(otherwise, acc)
    case Return(_, result) => OptUnused(result, acc)
    case Throw(_, thrown) => Unused(thrown, false, acc)
  }

  predicate OptUnused(o: Option<Node>, acc: string) {
    match o
    case None => true
    case Some(n) => Unused(n, false, acc)
  }

  predicate ListUnused(nodes: seq<Node>, isArg: bool, acc: string) {
    nodes == [] || (Unused(nodes[0], isArg, acc) && ListUnused(nodes[1..], isArg, acc))
  }

  predicate ListExits(nodes: seq<Node>) { nodes != [] && AlwaysExits(nodes[|nodes| - 1]) }

  /** All dead statements are of that kind. */
  predicate Harmless(n: Node, acc: string) {
    match n
    case Block(_, body) => ListHarmless(body, acc)
    case If(_, _, consequent, otherwise) => Harmless(consequent, acc) && OptHarmless(otherwise, acc)
    case _ => true
  }

  predicate OptHarmless(o: Option<Node>, acc: string) {
    match o
    case None => true
    case Some(n) => Harmless(n, acc)
  }

  predicate ListHarmless(nodes: seq<Node>, acc: string) {
    nodes == [] ||
    (Harmless(nodes[0], acc) &&
     if AlwaysExits(nodes[0]) && |nodes| > 1 then ListUnused(nodes[1..], false, acc) && ListExits(nodes)
     else ListHarmless(nodes[1..], acc))
  }

  // ------------------------------------------------------------------ nothing to report

  lemma {:induction false} UnusedReportsNothing(n: Node, isArg: bool, acc: string, st: Walked)
    requires Unused(n, isArg, acc)
    ensures Walk(n, isArg, acc, st).reports == st.reports
    decreases n
  {
    match n
    case Ident(_, _) =>
    case Leaf(_) =>
    case Function(_, _) =>
    case Member(_, target, property) =>
      UnusedReportsNothing(target, false, acc, st);
      OptReportsNothing(property, acc, Walk(target, false, acc, st));
    case Call(_, callee, args) =>
      UnusedReportsNothing(callee, false, acc, st);
      ListReportsNothing(args, true, acc, Walk(callee, false, acc, st));
    case AwaitExpr(_, argument) => UnusedReportsNothing(argument, false, acc, st);
    case Conditional(_, test, consequent, alternate) =>
      var st1 := Walk(test, false, acc, st);
      var st2 := Walk(consequent, false, acc, st1);
      UnusedReportsNothing(test, false, acc, st);
      UnusedReportsNothing(consequent, false, acc, st1);
      UnusedReportsNothing(alternate, false, acc, st2.(saw := st1.saw));
    case Logical(_, left, right) =>
      UnusedReportsNothing(left, false, acc, st);
      UnusedReportsNothing(right, false, acc, Walk(left, false, acc, st));
    case Ordered(_, children) => ListReportsNothing(children, false, acc, st);
    case Block(_, body) => ListReportsNothing(body, false, acc, st);
    case If(_, test, consequent, otherwise) =>
      var st1 := Walk(test, false, acc, st);
      var st2 := Walk(consequent, false, acc, st1);
      UnusedReportsNothing(test, false, acc, st);
      UnusedReportsNothing(consequent, false, acc, st1);
      OptReportsNothing(otherwise, acc, st2.(saw := st1.saw));
    case Return(_, result) => OptReportsNothing(result, acc, st);
    case Throw(_, thrown) => UnusedReportsNothing(thrown, false, acc, st);
  }

  lemma {:induction false} OptReportsNothing(o: Option<Node>, acc: string, st: Walked)
    requires OptUnused(o, acc)
    ensures WalkOpt(o, acc, st).reports == st.reports
    decreases o
  {
    if o.Some? {
      UnusedReportsNothing(o.value, false, acc, st);
    }
  }

  lemma {:induction false} ListReportsNothing(nodes: seq<Node>, isArg: bool, acc: string, st: Walked)
    requires ListUnused(nodes, isArg, acc)
    ensures WalkList(nodes, isArg, acc, st).reports == st.reports
    decreases nodes
  {
    if nodes != [] {
      UnusedReportsNothing(nodes[0], isArg, acc, st);
      ListReportsNothing(nodes[1..], isArg, acc, Walk(nodes[0], isArg, acc, st));
    }
  }

  // ------------------------------------------------------------------ with and without

  lemma {:induction false} PruneKeepsExits(n: Node, acc: string)
    requires Harmless(n, acc)
    ensures AlwaysExits(Prune(n)) <==> AlwaysExits(n)
    decreases n
  {
    match n
    case Block(_, body) => PruneListKeepsExits(body, acc);
    case If(_, _, consequent, otherwise) =>
      PruneKeepsExits(consequent, acc);
      if otherwise.Some? {
        PruneKeepsExits(otherwise.value, acc);
      }
    case _ =>
  }

  lemma {:induction false} PruneListKeepsExits(nodes: seq<Node>, acc: string)
    requires ListHarmless(nodes, acc)
    ensures ListExits(PruneList(nodes)) <==> ListExits(nodes)
    ensures PruneList(nodes) == [] <==> nodes == []
    decreases nodes
  {
    if nodes != [] {
      PruneKeepsExits(nodes[0], acc);
      if !AlwaysExits(nodes[0]) {
        PruneListKeepsExits(nodes[1..], acc);
      }
    }
  }

  /** The walks with and without dead statements report the same; their states agree where it counts. */
  ghost predicate SameWalk(with: Walked, without: Walked, exits: bool) {
    with.reports == without.reports && (!exits ==> with.saw == without.saw)
  }

  lemma {:induction false} SameWithoutDead(n: Node, acc: string, st: Walked)
    requires Harmless(n, acc)
    ensures SameWalk(Walk(n, false, acc, st), Walk(Prune(n), false, acc, st), AlwaysExits(n))
    decreases n
  {
    match n
    case Block(_, body) => SameListWithoutDead(body, acc, st);
    case If(_, test, consequent, otherwise) =>
      var st1 := Walk(test, false, acc, st);
      var st2 := Walk(consequent, false, acc, st1).(saw := st1.saw);
      SameWithoutDead(consequent, acc, st1);
      PruneKeepsExits(consequent, acc);
      if otherwise.Some? {
        SameWithoutDead(otherwise.value, acc, st2);
        PruneKeepsExits(otherwise.value, acc);
      }
    case _ =>
  }

  lemma {:induction false} SameListWithoutDead(nodes: seq<Node>, acc: string, st: Walked)
    requires ListHarmless(nodes, acc)
    ensures SameWalk(WalkList(nodes, false, acc, st), WalkList(PruneList(nodes), false, acc, st), ListExits(nodes))
    decreases nodes
  {
    if nodes != [] {
      var st1, h := Walk(nodes[0], false, acc, st), Prune(nodes[0]);
      SameWithoutDead(nodes[0], acc, st);
      PruneKeepsExits(nodes[0], acc);
      if AlwaysExits(nodes[0]) {
        assert PruneList(nodes) == [h] && [h][1..] == [];
        assert WalkList([h], false, acc, st) == Walk(h, false, acc, st);
        if |nodes| > 1 {
          ListReportsNothing(nodes[1..], false, acc, st1);
        } else {
          assert nodes[1..] == [];
        }
      } else {
        assert PruneList(nodes)[1..] == PruneList(nodes[1..]);
        SameListWithoutDead(nodes[1..], acc, st1);
      }
    }
  }

  /**
   * On bodies whose dead statements are all of that kind the rule is exact: it reports something
   * exactly when some path uses the accessor after an await.
   */
  lemma HarmlessDeadCodeIsExact(body: Node, acc: string)
    requires Stmt(body) && Harmless(body, acc)
    ensures Reports(body, acc) != [] <==> MayMisuse(Paths(body, false, acc, Entry), false)
  {
    SameWithoutDead(body, acc, Walked(false, []));
    RuleIsExactUpToDeadCode(body, acc);
  }
}
