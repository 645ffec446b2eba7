/** The rule is sound for every body, exact once unreachable statements are left out. */
module AwaitTheorems {
  import opened Common
  import opened AwaitPaths
  import opened AwaitRule

  // ------------------------------------------------------------------ soundness

  /** A walk from `st` to `st'` accounts for the paths p. */
  ghost predicate Covers(st: Walked, st': Walked, p: set<Path>) {
    && st.reports <= st'.reports
    && (MayMisuse(p, st.saw) ==> |st'.reports| > |st.reports|)
    && (MayReach(p, st.saw, true) ==> st'.saw)
  }

  lemma MayMisuseMonotone(p: set<Path>)
    ensures MayMisuse(p, false) ==> MayMisuse(p, true)
  {
    if x :| x in p && Misuse(x.events, false) {
      MisuseMonotone(x.events);
      assert MayMisuse(p, true);
    }
  }

  lemma CoversThen(st: Walked, st1: Walked, st2: Walked, p: set<Path>, q: set<Path>)
    requires Covers(st, st1, p) && Covers(st1, st2, q)
    ensures Covers(st, st2, Then(p, q))
  {
    if MayMisuse(Then(p, q), st.saw) {
      MisuseThen(p, q, st.saw);
      if !MayMisuse(p, st.saw) {
        var mid :| MayReach(p, st.saw, mid) && MayMisuse(q, mid);
        MayMisuseMonotone(q);
        assert MayMisuse(q, st1.saw);
      }
    }
    if MayReach(Then(p, q), st.saw, true) {
      ReachThen(p, q, st.saw, true);
      var mid :| MayReach(p, st.saw, mid) && MayReach(q, mid, true);
      if !mid && st1.saw {
        var y :| y in q && !y.exits && Awaited(y.events, mid);
        assert Awaited(y.events, st1.saw);
      }
      assert MayReach(q, st1.saw, true);
    }
  }

  lemma UsesSummary(n: Node, isArg: bool, acc: string, before: bool)
    ensures MayMisuse(Uses(n, isArg, acc), before) <==> IsUsage(n, isArg, acc) && before
    ensures MayReach(Uses(n, isArg, acc), before, before)
    ensures !MayReach(Uses(n, isArg, acc), before, !before)
  {
    var x := Path([Use(n.id)], false);
    assert Misuse(x.events, before) == before;
    if IsUsage(n, isArg, acc) {
      assert x in Uses(n, isArg, acc) && !x.exits && Awaited(x.events, before) == before;
    } else {
      assert Path([], false) in Uses(n, isArg, acc);
    }
  }

  lemma {:induction false} ExitsNeverCompletes(n: Node, isArg: bool, acc: string, at: UseAt)
    requires AlwaysExits(n)
    ensures !MayComplete(Paths(n, isArg, acc, at))
  {
    match n
    case Return(_, result) => CompleteThen(OptPaths(result, acc, at), {Path([], true)});
    case Throw(_, thrown) => CompleteThen(Paths(thrown, false, acc, at), {Path([], true)});
    case Block(_, body) => LastExits(body, acc, at);
    case If(_, test, consequent, otherwise) =>
      ExitsNeverCompletes(consequent, false, acc, at);
      ExitsNeverCompletes(otherwise.value, false, acc, at);
      CompleteThen(Paths(test, false, acc, at),
        Paths(consequent, false, acc, at) + OptPaths(otherwise, acc, at));
  }

  lemma {:induction false} LastExits(body: seq<Node>, acc: string, at: UseAt)
    requires body != [] && AlwaysExits(body[|body| - 1])
    ensures !MayComplete(ListPaths(body, false, acc, at))
  {
    CompleteThen(Paths(body[0], false, acc, at), ListPaths(body[1..], false, acc, at));
    if |body| == 1 {
      ExitsNeverCompletes(body[0], false, acc, at);
    } else {
      assert body[1..][|body[1..]| - 1] == body[|body| - 1];
      LastExits(body[1..], acc, at);
    }
  }

  /** Two branches walked from the same state, one after the other. */
  lemma CoversBranches(st: Walked, st1: Walked, st2: Walked, saw: bool, p: set<Path>, q: set<Path>)
    requires Covers(st, st1, p) && Covers(st1.(saw := st.saw), st2, q)
    requires MayComplete(p) && st1.saw ==> saw
    requires MayComplete(q) && st2.saw ==> saw
    ensures Covers(st, st2.(saw := saw), p + q)
  {
    if MayMisuse(p + q, st.saw) {
      var x :| x in p + q && Misuse(x.events, st.saw);
      assert MayMisuse(if x in p then p else q, st.saw);
    }
    if MayReach(p + q, st.saw, true) {
      var x :| x in p + q && !x.exits && Awaited(x.events, st.saw);
      assert MayReach(if x in p then p else q, st.saw, true);
      assert MayComplete(if x in p then p else q);
    }
  }

  /** A test followed by two branches, both walked from the state after the test. */
  lemma CoversTestThenBranches(
    st: Walked, st1: Walked, st2: Walked, st3: Walked, saw: bool,
    test: set<Path>, p: set<Path>, q: set<Path>)
    requires Covers(st, st1, test) && Covers(st1, st2, p) && Covers(st2.(saw := st1.saw), st3, q)
    requires MayComplete(p) && st2.saw ==> saw
    requires MayComplete(q) && st3.saw ==> saw
    ensures Covers(st, st3.(saw := saw), Then(test, p + q))
  {
    CoversBranches(st1, st2, st3, saw, p, q);
    CoversThen(st, st1, st3.(saw := saw), test, p + q);
  }

  lemma CallCovers(n: Node, isArg: bool, acc: string, st: Walked)
    requires n.Call?
    requires var st1 := Walk(n.callee, false, acc, st);
             && Covers(st, st1, Paths(n.callee, false, acc, Entry))
             && Covers(st1, WalkList(n.args, true, acc, st1), ListPaths(n.args, true, acc, Entry))
    ensures Covers(st, Walk(n, isArg, acc, st), Paths(n, isArg, acc, Entry))
  {
    var p, q := Paths(n.callee, false, acc, Entry), ListPaths(n.args, true, acc, Entry);
    var st1 := Walk(n.callee, false, acc, st);
    if IsUsage(n, isArg, acc) && st.saw {
      assert Walk(n, isArg, acc, st) == st.(reports := st.reports + [n.id]);
    } else {
      UsesSummary(n, isArg, acc, st.saw);
      CallParts(st, st1, WalkList(n.args, true, acc, st1), Uses(n, isArg, acc), p, q);
    }
  }

  lemma CallParts(st: Walked, st1: Walked, st2: Walked, u: set<Path>, p: set<Path>, q: set<Path>)
    requires Covers(st, st, u) && Covers(st, st1, p) && Covers(st1, st2, q)
    ensures Covers(st, st2, Then(u, Then(p, q)))
  {
    CoversThen(st, st1, st2, p, q);
    CoversThen(st, st, st2, u, Then(p, q));
  }

  /** The await state only grows over a walk. */
  lemma SawGrows(n: Node, isArg: bool, acc: string, st: Walked)
    ensures st.saw ==> Walk(n, isArg, acc, st).saw
    decreases n
  {
    if st.saw {
      match n
      case Member(_, target, property) =>
        SawGrows(target, false, acc, st);
        if property.Some? {
          SawGrows(property.value, false, acc, Walk(target, false, acc, st));
        }
      case Call(_, callee, args) =>
        SawGrows(callee, false, acc, st);
        SawGrowsList(args, true, acc, Walk(callee, false, acc, st));
      case Conditional(_, test, consequent, _) =>
        SawGrows(test, false, acc, st);
        SawGrows(consequent, false, acc, Walk(test, false, acc, st));
      case Logical(_, left, right) =>
        SawGrows(left, false, acc, st);
        SawGrows(right, false, acc, Walk(left, false, acc, st));
      case Ordered(_, children) => SawGrowsList(children, false, acc, st);
      case Block(_, body) => SawGrowsList(body, false, acc, st);
      case If(_, test, consequent, otherwise) =>
        var st1 := Walk(test, false, acc, st);
        var st2 := Walk(consequent, false, acc, st1);
        SawGrows(test, false, acc, st);
        SawGrows(consequent, false, acc, st1);
        if otherwise.Some? {
          SawGrows(otherwise.value, false, acc, st2.(saw := st1.saw));
        }
      case Return(_, result) =>
        if result.Some? {
          SawGrows(result.value, false, acc, st);
        }
      case Throw(_, thrown) => SawGrows(thrown, false, acc, st);
      case _ =>
    }
  }

  lemma SawGrowsList(nodes: seq<Node>, isArg: bool, acc: string, st: Walked)
    ensures st.saw ==> WalkList(nodes, isArg, acc, st).saw
    decreases nodes
  {
    if nodes != [] {
      SawGrows(nodes[0], isArg, acc, st);
      SawGrowsList(nodes[1..], isArg, acc, Walk(nodes[0], isArg, acc, st));
    }
  }

  lemma IfCovers(n: Node, isArg: bool, acc: string, st: Walked)
    requires n.If?
    requires var st1 := Walk(n.test, false, acc, st);
             var st2 := Walk(n.consequent, false, acc, st1);
             && Covers(st, st1, Paths(n.test, false, acc, Entry))
             && Covers(st1, st2, Paths(n.consequent, false, acc, Entry))
             && Covers(st2.(saw := st1.saw), WalkOpt(n.otherwise, acc, st2.(saw := st1.saw)),
                       OptPaths(n.otherwise, acc, Entry))
    ensures Covers(st, Walk(n, isArg, acc, st), Paths(n, isArg, acc, Entry))
  {
    var st1 := Walk(n.test, false, acc, st);
    var st2 := Walk(n.consequent, false, acc, st1);
    var st3 := WalkOpt(n.otherwise, acc, st2.(saw := st1.saw));
    MergeKeepsAwaits(n, acc, st2.saw, st3.saw);
    CoversTestThenBranches(st, st1, st2, st3, Merge(n, st2.saw, st3.saw),
      Paths(n.test, false, acc, Entry), Paths(n.consequent, false, acc, Entry),
      OptPaths(n.otherwise, acc, Entry));
  }

  /** The merge keeps the state of every branch that can complete. */
  lemma MergeKeepsAwaits(n: Node, acc: string, afterConsequent: bool, afterAlternate: bool)
    requires n.If?
    ensures MayComplete(Paths(n.consequent, false, acc, Entry)) && afterConsequent ==>
              Merge(n, afterConsequent, afterAlternate)
    ensures MayComplete(OptPaths(n.otherwise, acc, Entry)) && afterAlternate ==>
              Merge(n, afterConsequent, afterAlternate)
  {
    var consequentExits := AlwaysExits(n.consequent);
    var alternateExits := n.otherwise.Some? && AlwaysExits(n.otherwise.value);
    if consequentExits && !alternateExits {
      ExitsNeverCompletes(n.consequent, false, acc, Entry);
    }
    if alternateExits && !consequentExits {
      ExitsNeverCompletes(n.otherwise.value, false, acc, Entry);
      assert OptPaths(n.otherwise, acc, Entry) == Paths(n.otherwise.value, false, acc, Entry);
    }
  }

  lemma {:induction false} WalkCovers(n: Node, isArg: bool, acc: string, st: Walked)
    ensures Covers(st, Walk(n, isArg, acc, st), Paths(n, isArg, acc, Entry))
    decreases n
  {
    match n
    case Ident(_, _) => UsesSummary(n, isArg, acc, st.saw);
    case Leaf(_) =>
    case Function(_, _) =>
    case Member(_, target, property) =>
      var st1 := Walk(target, false, acc, st);
      WalkCovers(target, false, acc, st);
      OptCovers(property, acc, st1);
      CoversThen(st, st1, WalkOpt(property, acc, st1),
        Paths(target, false, acc, Entry), OptPaths(property, acc, Entry));
    case Call(_, callee, args) =>
      WalkCovers(callee, false, acc, st);
      ListCovers(args, true, acc, Walk(callee, false, acc, st));
      CallCovers(n, isArg, acc, st);
    case AwaitExpr(_, argument) =>
      var st1 := Walk(argument, false, acc, st);
      WalkCovers(argument, false, acc, st);
      CoversThen(st, st1, st1.(saw := true),
        Paths(argument, false, acc, Entry), {Path([Await], false)});
    case Conditional(_, test, consequent, alternate) =>
      var st1 := Walk(test, false, acc, st);
      var st2 := Walk(consequent, false, acc, st1);
      var st3 := Walk(alternate, false, acc, st2.(saw := st1.saw));
      WalkCovers(test, false, acc, st);
      WalkCovers(consequent, false, acc, st1);
      WalkCovers(alternate, false, acc, st2.(saw := st1.saw));
      CoversTestThenBranches(st, st1, st2, st3, st3.saw || st2.saw,
        Paths(test, false, acc, Entry), Paths(consequent, false, acc, Entry),
        Paths(alternate, false, acc, Entry));
    case Logical(_, left, right) =>
      var st1 := Walk(left, false, acc, st);
      var st2 := Walk(right, false, acc, st1);
      WalkCovers(left, false, acc, st);
      WalkCovers(right, false, acc, st1);
      SawGrows(right, false, acc, st1);
      CoversSkipOr(st1, st2, Paths(right, false, acc, Entry));
      CoversThen(st, st1, st2,
        Paths(left, false, acc, Entry), SKIP + Paths(right, false, acc, Entry));
    case Ordered(_, children) => ListCovers(children, false, acc, st);
    case Block(_, body) => ListCovers(body, false, acc, st);
    case If(_, test, consequent, otherwise) =>
      var st1 := Walk(test, false, acc, st);
      var st2 := Walk(consequent, false, acc, st1);
      WalkCovers(test, false, acc, st);
      WalkCovers(consequent, false, acc, st1);
      OptCovers(otherwise, acc, st2.(saw := st1.saw));
      IfCovers(n, isArg, acc, st);
    case Return(_, result) =>
      var st1 := WalkOpt(result, acc, st);
      OptCovers(result, acc, st);
      CoversThen(st, st1, st1, OptPaths(result, acc, Entry), {Path([], true)});
    case Throw(_, thrown) =>
      var st1 := Walk(thrown, false, acc, st);
      WalkCovers(thrown, false, acc, st);
      CoversThen(st, st1, st1, Paths(thrown, false, acc, Entry), {Path([], true)});
  }

  /** A right operand may be skipped. */
  lemma CoversSkipOr(st: Walked, st': Walked, p: set<Path>)
    requires Covers(st, st', p) && (st.saw ==> st'.saw)
    ensures Covers(st, st', SKIP + p)
  {
    if MayMisuse(SKIP + p, st.saw) {
      assert MayMisuse(p, st.saw);
    }
    if MayReach(SKIP + p, st.saw, true) {
      assert MayReach(p, st.saw, true) || st.saw;
    }
  }

  lemma {:induction false} OptCovers(o: Option<Node>, acc: string, st: Walked)
    ensures Covers(st, WalkOpt(o, acc, st), OptPaths(o, acc, Entry))
    decreases o
  {
    if o.Some? {
      WalkCovers(o.value, false, acc, st);
    }
  }

  lemma {:induction false} ListCovers(nodes: seq<Node>, isArg: bool, acc: string, st: Walked)
    ensures Covers(st, WalkList(nodes, isArg, acc, st), ListPaths(nodes, isArg, acc, Entry))
    decreases nodes
  {
    if nodes != [] {
      var st1 := Walk(nodes[0], isArg, acc, st);
      WalkCovers(nodes[0], isArg, acc, st);
      ListCovers(nodes[1..], isArg, acc, st1);
      CoversThen(st, st1, WalkList(nodes, isArg, acc, st),
        Paths(nodes[0], isArg, acc, Entry), ListPaths(nodes[1..], isArg, acc, Entry));
    }
  }

  /** Soundness, for every body: a path that uses the accessor after an await gets a report. */
  lemma RuleIsSound(body: Node, acc: string)
    ensures MayMisuse(Paths(body, false, acc, Entry), false) ==> Reports(body, acc) != []
  {
    WalkCovers(body, false, acc, Walked(false, []));
  }
}
