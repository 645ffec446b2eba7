/** When the reports of the rule are exactly the misuses that can happen. */
module AwaitExactness {
  import opened Common
  import opened AwaitPaths
  import opened AwaitRule
  import opened AwaitTheorems

  // ------------------------------------------------------------------ well-formed bodies

  predicate Expr(n: Node) {
    match n
    case Ident(_, _) => true
    case Leaf(_) => true
    case Function(_, _) => true
    case Member(_, target, property) => Expr(target) && OptExpr(property)
    case Call(_, callee, args) => Expr(callee) && ListExpr(args)
    case AwaitExpr(_, argument) => Expr(argument)
    case Conditional(_, test, consequent, alternate) =>
      Expr(test) && Expr(consequent) && Expr(alternate)
    case Logical(_, left, right) => Expr(left) && Expr(right)
    case Ordered(_, children) => ListExpr(children)
    case _ => false
  }

  predicate OptExpr(o: Option<Node>) {
    match o
    case None => true
    case Some(n) => Expr(n)
  }

  predicate ListExpr(nodes: seq<Node>) {
    nodes == [] || (Expr(nodes[0]) && ListExpr(nodes[1..]))
  }

  /** Statements, with expressions where the grammar wants them. */
  predicate Stmt(n: Node) {
    match n
    case Block(_, body) => ListStmt(body)
    case If(_, test, consequent, otherwise) => Expr(test) && Stmt(consequent) && OptStmt(otherwise)
    case Return(_, result) => OptExpr(result)
    case Throw(_, thrown) => Expr(thrown)
    case _ => Expr(n)
  }

  predicate OptStmt(o: Option<Node>) {
    match o
    case None => true
    case Some(n) => Stmt(n)
  }

  predicate ListStmt(nodes: seq<Node>) {
    nodes == [] || (Stmt(nodes[0]) && ListStmt(nodes[1..]))
  }

  /** No statement follows one that always exits. */
  predicate Clean(n: Node) {
    match n
    case Block(_, body) => CleanList(body)
    case If(_, _, consequent, otherwise) => Clean(consequent) && OptClean(otherwise)
    case _ => true
  }

  predicate OptClean(o: Option<Node>) {
    match o
    case None => true
    case Some(n) => Clean(n)
  }

  predicate CleanList(nodes: seq<Node>) {
    nodes == [] ||
    (Clean(nodes[0]) && (|nodes| > 1 ==> !AlwaysExits(nodes[0])) && CleanList(nodes[1..]))
  }

  // ------------------------------------------------------------------ what completes

  lemma {:induction false} ExprCompletes(n: Node, isArg: bool, acc: string, at: UseAt)
    requires Expr(n)
    ensures MayComplete(Paths(n, isArg, acc, at))
    decreases n
  {
    UsesComplete(n, isArg, acc);
    match n
    case Ident(_, _) => SkipCompletes();
    case Leaf(_) => SkipCompletes();
    case Function(_, _) => SkipCompletes();
    case Member(_, target, property) =>
      ExprCompletes(target, false, acc, at);
      OptCompletes(property, acc, at);
      CompleteThen(Paths(target, false, acc, at), OptPaths(property, acc, at));
    case Call(_, callee, args) =>
      ExprCompletes(callee, false, acc, at);
      ListCompletes(args, true, acc, at);
      var p, q := Paths(callee, false, acc, at), ListPaths(args, true, acc, at);
      CompleteThen(p, q);
      CompleteThen(Uses(n, isArg, acc), Then(p, q));
      HandOversComplete(args, acc);
      CompleteThen(Then(p, q), HandOvers(args, acc));
      CompleteThen(Then(Then(p, q), HandOvers(args, acc)), Uses(n, isArg, acc));
    case AwaitExpr(_, argument) =>
      ExprCompletes(argument, false, acc, at);
      var await_ := Path([Await], false);
      assert await_ in {await_} && !await_.exits;
      CompleteThen(Paths(argument, false, acc, at), {await_});
    case Conditional(_, test, consequent, alternate) =>
      ExprCompletes(test, false, acc, at);
      ExprCompletes(consequent, false, acc, at);
      CompleteUnion(Paths(consequent, false, acc, at), Paths(alternate, false, acc, at));
      CompleteThen(Paths(test, false, acc, at),
        Paths(consequent, false, acc, at) + Paths(alternate, false, acc, at));
    case Logical(_, left, right) =>
      ExprCompletes(left, false, acc, at);
      SkipCompletes();
      CompleteUnion(SKIP, Paths(right, false, acc, at));
      CompleteThen(Paths(left, false, acc, at), SKIP + Paths(right, false, acc, at));
    case Ordered(_, children) => ListCompletes(children, false, acc, at);
  }

  lemma SkipCompletes()
    ensures MayComplete(SKIP)
  {
    assert Path([], false) in SKIP && !Path([], false).exits;
  }

  lemma UsesComplete(n: Node, isArg: bool, acc: string)
    ensures MayComplete(Uses(n, isArg, acc))
  {
    SkipCompletes();
    if IsUsage(n, isArg, acc) {
      assert Path([Use(n.id)], false) in Uses(n, isArg, acc);
    }
  }

  lemma {:induction false} HandOversComplete(args: seq<Node>, acc: string)
    ensures MayComplete(HandOvers(args, acc))
  {
    SkipCompletes();
    if args != [] {
      UsesComplete(args[0], true, acc);
      HandOversComplete(args[1..], acc);
      CompleteThen(if args[0].Ident? then Uses(args[0], true, acc) else SKIP, HandOvers(args[1..], acc));
    }
  }

  lemma CompleteUnion(p: set<Path>, q: set<Path>)
    ensures MayComplete(p + q) <==> MayComplete(p) || MayComplete(q)
  {
    if x :| x in p + q && !x.exits {
      assert MayComplete(if x in p then p else q);
    }
    if x :| x in p && !x.exits {
      assert x in p + q;
    }
    if x :| x in q && !x.exits {
      assert x in p + q;
    }
  }

  lemma {:induction false} OptCompletes(o: Option<Node>, acc: string, at: UseAt)
    requires OptExpr(o)
    ensures MayComplete(OptPaths(o, acc, at))
    decreases o
  {
    SkipCompletes();
    if o.Some? {
      ExprCompletes(o.value, false, acc, at);
    }
  }

  lemma {:induction false} ListCompletes(nodes: seq<Node>, isArg: bool, acc: string, at: UseAt)
    requires ListExpr(nodes)
    ensures MayComplete(ListPaths(nodes, isArg, acc, at))
    decreases nodes
  {
    SkipCompletes();
    if nodes != [] {
      ExprCompletes(nodes[0], isArg, acc, at);
      ListCompletes(nodes[1..], isArg, acc, at);
      CompleteThen(Paths(nodes[0], isArg, acc, at), ListPaths(nodes[1..], isArg, acc, at));
    }
  }

  /** Without dead statements, `AlwaysExits` says exactly which statements never complete. */
  lemma {:induction false} StmtCompletes(n: Node, acc: string, at: UseAt)
    requires Stmt(n) && Clean(n)
    ensures MayComplete(Paths(n, false, acc, at)) <==> !AlwaysExits(n)
    decreases n
  {
    if AlwaysExits(n) {
      ExitsNeverCompletes(n, false, acc, at);
    } else {
      match n
      case Block(_, body) => BlockCompletes(body, acc, at);
      case If(_, test, consequent, otherwise) =>
        ExprCompletes(test, false, acc, at);
        StmtCompletes(consequent, acc, at);
        if otherwise.Some? {
          StmtCompletes(otherwise.value, acc, at);
        } else {
          SkipCompletes();
        }
        CompleteUnion(Paths(consequent, false, acc, at), OptPaths(otherwise, acc, at));
        CompleteThen(Paths(test, false, acc, at),
          Paths(consequent, false, acc, at) + OptPaths(otherwise, acc, at));
      case _ => ExprCompletes(n, false, acc, at);
    }
  }

  lemma {:induction false} BlockCompletes(nodes: seq<Node>, acc: string, at: UseAt)
    requires ListStmt(nodes) && CleanList(nodes)
    requires nodes == [] || !AlwaysExits(nodes[|nodes| - 1])
    ensures MayComplete(ListPaths(nodes, false, acc, at))
    decreases nodes
  {
    SkipCompletes();
    if nodes != [] {
      StmtCompletes(nodes[0], acc, at);
      BlockCompletes(nodes[1..], acc, at);
      CompleteThen(Paths(nodes[0], false, acc, at), ListPaths(nodes[1..], false, acc, at));
    }
  }

  // ------------------------------------------------------------------ exactness

  /** A walk from `st` to `st'` reports and remembers nothing that some path in p does not do. */
  ghost predicate Tracks(st: Walked, st': Walked, p: set<Path>) {
    && p != {}
    && st.reports <= st'.reports
    && (forall i | |st.reports| <= i < |st'.reports| :: MayMisuseAt(p, st.saw, st'.reports[i]))
    && (st'.saw && MayComplete(p) ==> MayReach(p, st.saw, true))
  }

  lemma MisuseAtMonotone(p: set<Path>, id: nat)
    ensures MayMisuseAt(p, false, id) ==> MayMisuseAt(p, true, id)
  {
    if x :| x in p && MisuseOf(x.events, false, id) {
      var i :| 0 <= i < |x.events| && x.events[i] == Use(id) && Awaited(x.events[..i], false);
      assert Awaited(x.events[..i], true);
      assert MisuseOf(x.events, true, id);
    }
  }

  lemma ThenNonEmpty(p: set<Path>, q: set<Path>)
    requires p != {} && q != {}
    ensures Then(p, q) != {}
  {
    var x :| x in p;
    var y :| y in q;
    if x.exits {
      assert x in Then(p, q);
    } else {
      InThen(p, q, x, y);
    }
  }

  lemma TracksThen(st: Walked, st1: Walked, st2: Walked, p: set<Path>, q: set<Path>)
    requires Tracks(st, st1, p) && Tracks(st1, st2, q) && (MayComplete(p) || st2 == st1)
    ensures Tracks(st, st2, Then(p, q))
  {
    ThenNonEmpty(p, q);
    if !MayComplete(p) {
      ThenNothing(p, q);
    } else {
      var x :| x in p && !x.exits;
      var mid := if st1.saw then true else Awaited(x.events, st.saw);
      assert MayReach(p, st.saw, mid) && (st1.saw ==> mid);
      forall i | |st.reports| <= i < |st2.reports|
        ensures MayMisuseAt(Then(p, q), st.saw, st2.reports[i])
      {
        if i < |st1.reports| {
          assert st2.reports[i] == st1.reports[i];
          MisuseAtFirst(p, q, st.saw, st2.reports[i]);
        } else {
          MisuseAtMonotone(q, st2.reports[i]);
          MisuseAtSecond(p, q, st.saw, mid, st2.reports[i]);
        }
      }
      CompleteThen(p, q);
      if st2.saw && MayComplete(q) {
        var y :| y in q && !y.exits && Awaited(y.events, st1.saw) == true;
        assert Awaited(y.events, mid) == true;
        assert MayReach(q, mid, true);
        ReachThen(p, q, st.saw, true);
      }
    }
  }

  lemma TracksBranches(st: Walked, st1: Walked, st2: Walked, saw: bool, p: set<Path>, q: set<Path>)
    requires Tracks(st, st1, p) && Tracks(st1.(saw := st.saw), st2, q)
    requires saw && MayComplete(p + q) ==> (MayComplete(p) && st1.saw) || (MayComplete(q) && st2.saw)
    ensures Tracks(st, st2.(saw := saw), p + q)
  {
    forall i | |st.reports| <= i < |st2.reports|
      ensures MayMisuseAt(p + q, st.saw, st2.reports[i])
    {
      var id := st2.reports[i];
      if i < |st1.reports| {
        assert st2.reports[i] == st1.reports[i];
        var x :| x in p && MisuseOf(x.events, st.saw, id);
        assert x in p + q;
      } else {
        var x :| x in q && MisuseOf(x.events, st.saw, id);
        assert x in p + q;
      }
    }
    if saw && MayComplete(p + q) {
      if MayComplete(p) && st1.saw {
        var x :| x in p && !x.exits && Awaited(x.events, st.saw) == true;
        assert x in p + q;
      } else {
        var x :| x in q && !x.exits && Awaited(x.events, st.saw) == true;
        assert x in p + q;
      }
    }
  }

  lemma SkipTracks(st: Walked)
    ensures Tracks(st, st, SKIP)
  {
    assert Path([], false) in SKIP && Awaited([], st.saw) == st.saw;
  }

  /** A reported use, and then code that is not walked. */
  lemma UseTracks(n: Node, isArg: bool, acc: string, st: Walked)
    requires IsUsage(n, isArg, acc) && st.saw
    ensures Tracks(st, st.(reports := st.reports + [n.id]), Uses(n, isArg, acc))
  {
    var x := Path([Use(n.id)], false);
    assert x in Uses(n, isArg, acc) && x.events[0] == Use(n.id) && Awaited(x.events[..0], true);
    assert MisuseOf(x.events, true, n.id);
    assert Awaited(x.events, true) == true;
  }

  lemma UnwalkedTracks(st: Walked, p: set<Path>)
    requires st.saw && MayComplete(p)
    ensures Tracks(st, st, p)
  {
    var x :| x in p && !x.exits;
    assert Awaited(x.events, true) == true;
  }

  lemma NoUsageTracks(n: Node, isArg: bool, acc: string, st: Walked)
    requires !(IsUsage(n, isArg, acc) && st.saw)
    ensures Tracks(st, st, Uses(n, isArg, acc))
  {
    SkipTracks(st);
    if IsUsage(n, isArg, acc) {
      assert Path([Use(n.id)], false) in Uses(n, isArg, acc);
    }
  }

  lemma IdentTracks(n: Node, isArg: bool, acc: string, st: Walked)
    requires n.Ident?
    ensures Tracks(st, Walk(n, isArg, acc, st), Paths(n, isArg, acc, Entry))
  {
    if IsUsage(n, isArg, acc) && st.saw {
      UseTracks(n, isArg, acc, st);
    } else {
      NoUsageTracks(n, isArg, acc, st);
    }
  }

  lemma CallTracks(n: Node, isArg: bool, acc: string, st: Walked)
    requires n.Call? && Expr(n)
    requires var st1 := Walk(n.callee, false, acc, st);
             && Tracks(st, st1, Paths(n.callee, false, acc, Entry))
             && Tracks(st1, WalkList(n.args, true, acc, st1), ListPaths(n.args, true, acc, Entry))
    ensures Tracks(st, Walk(n, isArg, acc, st), Paths(n, isArg, acc, Entry))
  {
    var p, q := Paths(n.callee, false, acc, Entry), ListPaths(n.args, true, acc, Entry);
    var st1 := Walk(n.callee, false, acc, st);
    ExprCompletes(n.callee, false, acc, Entry);
    ListCompletes(n.args, true, acc, Entry);
    CompleteThen(p, q);
    if IsUsage(n, isArg, acc) && st.saw {
      var reported := st.(reports := st.reports + [n.id]);
      UseTracks(n, isArg, acc, st);
      UnwalkedTracks(reported, Then(p, q));
      UsesComplete(n, isArg, acc);
      TracksThen(st, reported, reported, Uses(n, isArg, acc), Then(p, q));
    } else {
      NoUsageTracks(n, isArg, acc, st);
      UsesComplete(n, isArg, acc);
      TracksCallParts(st, st1, WalkList(n.args, true, acc, st1), Uses(n, isArg, acc), p, q);
    }
  }

  lemma TracksCallParts(st: Walked, st1: Walked, st2: Walked, u: set<Path>, p: set<Path>, q: set<Path>)
    requires Tracks(st, st, u) && Tracks(st, st1, p) && Tracks(st1, st2, q)
    requires MayComplete(u) && MayComplete(p)
    ensures Tracks(st, st2, Then(u, Then(p, q)))
  {
    TracksThen(st, st1, st2, p, q);
    TracksThen(st, st, st2, u, Then(p, q));
  }

  lemma TestThenBranchesTrack(
    st: Walked, st1: Walked, st2: Walked, st3: Walked, saw: bool,
    test: set<Path>, p: set<Path>, q: set<Path>)
    requires Tracks(st, st1, test) && Tracks(st1, st2, p) && Tracks(st2.(saw := st1.saw), st3, q)
    requires MayComplete(test)
    requires saw && MayComplete(p + q) ==> (MayComplete(p) && st2.saw) || (MayComplete(q) && st3.saw)
    ensures Tracks(st, st3.(saw := saw), Then(test, p + q))
  {
    TracksBranches(st1, st2, st3, saw, p, q);
    TracksThen(st, st1, st3.(saw := saw), test, p + q);
  }

  /** Leaving the function after evaluating something. */
  lemma ExitTracks(st: Walked, st1: Walked, p: set<Path>)
    requires Tracks(st, st1, p) && MayComplete(p)
    ensures Tracks(st, st1, Then(p, {Path([], true)}))
  {
    var q := {Path([], true)};
    assert !MayComplete(q) && Path([], true) in q;
    TracksThen(st, st1, st1, p, q);
  }

  lemma SkipOrTracks(st: Walked, st': Walked, p: set<Path>)
    requires Tracks(st, st', p) && MayComplete(p)
    ensures Tracks(st, st', SKIP + p)
  {
    forall i | |st.reports| <= i < |st'.reports| ensures MayMisuseAt(SKIP + p, st.saw, st'.reports[i]) {
      var x :| x in p && MisuseOf(x.events, st.saw, st'.reports[i]);
      assert x in SKIP + p;
    }
    if st'.saw {
      var x :| x in p && !x.exits && Awaited(x.events, st.saw) == true;
      assert x in SKIP + p;
    }
  }

  lemma {:induction false} ExprTracks(n: Node, isArg: bool, acc: string, st: Walked)
    requires Expr(n)
    ensures Tracks(st, Walk(n, isArg, acc, st), Paths(n, isArg, acc, Entry))
    decreases n
  {
    match n
    case Ident(_, _) => IdentTracks(n, isArg, acc, st);
    case Leaf(_) => SkipTracks(st);
    case Function(_, _) => SkipTracks(st);
    case Member(_, target, property) =>
      var st1 := Walk(target, false, acc, st);
      ExprTracks(target, false, acc, st);
      OptExprTracks(property, acc, st1);
      ExprCompletes(target, false, acc, Entry);
      TracksThen(st, st1, WalkOpt(property, acc, st1),
        Paths(target, false, acc, Entry), OptPaths(property, acc, Entry));
    case Call(_, callee, args) =>
      ExprTracks(callee, false, acc, st);
      ListExprTracks(args, true, acc, Walk(callee, false, acc, st));
      CallTracks(n, isArg, acc, st);
    case AwaitExpr(_, argument) =>
      var st1 := Walk(argument, false, acc, st);
      ExprTracks(argument, false, acc, st);
      ExprCompletes(argument, false, acc, Entry);
      var x := Path([Await], false);
      assert x in {x} && !x.exits && Awaited(x.events, st1.saw) == true;
      TracksThen(st, st1, st1.(saw := true), Paths(argument, false, acc, Entry), {x});
    case Conditional(_, test, consequent, alternate) =>
      var st1 := Walk(test, false, acc, st);
      var st2 := Walk(consequent, false, acc, st1);
      var st3 := Walk(alternate, false, acc, st2.(saw := st1.saw));
      ExprTracks(test, false, acc, st);
      ExprTracks(consequent, false, acc, st1);
      ExprTracks(alternate, false, acc, st2.(saw := st1.saw));
      ExprCompletes(test, false, acc, Entry);
      ExprCompletes(consequent, false, acc, Entry);
      ExprCompletes(alternate, false, acc, Entry);
      TestThenBranchesTrack(st, st1, st2, st3, st3.saw || st2.saw,
        Paths(test, false, acc, Entry), Paths(consequent, false, acc, Entry),
        Paths(alternate, false, acc, Entry));
    case Logical(_, left, right) =>
      var st1 := Walk(left, false, acc, st);
      ExprTracks(left, false, acc, st);
      ExprTracks(right, false, acc, st1);
      ExprCompletes(left, false, acc, Entry);
      ExprCompletes(right, false, acc, Entry);
      SkipOrTracks(st1, Walk(right, false, acc, st1), Paths(right, false, acc, Entry));
      TracksThen(st, st1, Walk(right, false, acc, st1),
        Paths(left, false, acc, Entry), SKIP + Paths(right, false, acc, Entry));
    case Ordered(_, children) => ListExprTracks(children, false, acc, st);
  }

  lemma {:induction false} OptExprTracks(o: Option<Node>, acc: string, st: Walked)
    requires OptExpr(o)
    ensures Tracks(st, WalkOpt(o, acc, st), OptPaths(o, acc, Entry))
    decreases o
  {
    if o.Some? {
      ExprTracks(o.value, false, acc, st);
    } else {
      SkipTracks(st);
    }
  }

  lemma {:induction false} ListExprTracks(nodes: seq<Node>, isArg: bool, acc: string, st: Walked)
    requires ListExpr(nodes)
    ensures Tracks(st, WalkList(nodes, isArg, acc, st), ListPaths(nodes, isArg, acc, Entry))
    decreases nodes
  {
    if nodes == [] {
      SkipTracks(st);
    } else {
      var st1 := Walk(nodes[0], isArg, acc, st);
      ExprTracks(nodes[0], isArg, acc, st);
      ListExprTracks(nodes[1..], isArg, acc, st1);
      ExprCompletes(nodes[0], isArg, acc, Entry);
      TracksThen(st, st1, WalkList(nodes, isArg, acc, st),
        Paths(nodes[0], isArg, acc, Entry), ListPaths(nodes[1..], isArg, acc, Entry));
    }
  }

  lemma IfTracks(n: Node, acc: string, st: Walked)
    requires n.If? && Stmt(n) && Clean(n)
    requires var st1 := Walk(n.test, false, acc, st);
             var st2 := Walk(n.consequent, false, acc, st1);
             && Tracks(st, st1, Paths(n.test, false, acc, Entry))
             && Tracks(st1, st2, Paths(n.consequent, false, acc, Entry))
             && Tracks(st2.(saw := st1.saw), WalkOpt(n.otherwise, acc, st2.(saw := st1.saw)),
                       OptPaths(n.otherwise, acc, Entry))
    ensures Tracks(st, Walk(n, false, acc, st), Paths(n, false, acc, Entry))
  {
    var st1 := Walk(n.test, false, acc, st);
    var st2 := Walk(n.consequent, false, acc, st1);
    var st3 := WalkOpt(n.otherwise, acc, st2.(saw := st1.saw));
    var p, q := Paths(n.consequent, false, acc, Entry), OptPaths(n.otherwise, acc, Entry);
    ExprCompletes(n.test, false, acc, Entry);
    StmtCompletes(n.consequent, acc, Entry);
    if n.otherwise.Some? {
      StmtCompletes(n.otherwise.value, acc, Entry);
    } else {
      SkipCompletes();
    }
    CompleteUnion(p, q);
    TestThenBranchesTrack(st, st1, st2, st3, Merge(n, st2.saw, st3.saw),
      Paths(n.test, false, acc, Entry), p, q);
  }

  lemma {:induction false} StmtTracks(n: Node, acc: string, st: Walked)
    requires Stmt(n) && Clean(n)
    ensures Tracks(st, Walk(n, false, acc, st), Paths(n, false, acc, Entry))
    decreases n
  {
    match n
    case Block(_, body) => BlockTracks(body, acc, st);
    case If(_, test, consequent, otherwise) =>
      var st1 := Walk(test, false, acc, st);
      var st2 := Walk(consequent, false, acc, st1);
      ExprTracks(test, false, acc, st);
      StmtTracks(consequent, acc, st1);
      if otherwise.Some? {
        StmtTracks(otherwise.value, acc, st2.(saw := st1.saw));
      } else {
        SkipTracks(st2.(saw := st1.saw));
      }
      IfTracks(n, acc, st);
    case Return(_, result) =>
      OptExprTracks(result, acc, st);
      OptCompletes(result, acc, Entry);
      ExitTracks(st, WalkOpt(result, acc, st), OptPaths(result, acc, Entry));
    case Throw(_, thrown) =>
      ExprTracks(thrown, false, acc, st);
      ExprCompletes(thrown, false, acc, Entry);
      ExitTracks(st, Walk(thrown, false, acc, st), Paths(thrown, false, acc, Entry));
    case _ => ExprTracks(n, false, acc, st);
  }

  lemma {:induction false} BlockTracks(nodes: seq<Node>, acc: string, st: Walked)
    requires ListStmt(nodes) && CleanList(nodes)
    ensures Tracks(st, WalkList(nodes, false, acc, st), ListPaths(nodes, false, acc, Entry))
    decreases nodes
  {
    if nodes == [] {
      SkipTracks(st);
    } else {
      var st1 := Walk(nodes[0], false, acc, st);
      StmtTracks(nodes[0], acc, st);
      BlockTracks(nodes[1..], acc, st1);
      StmtCompletes(nodes[0], acc, Entry);
      TracksThen(st, st1, WalkList(nodes, false, acc, st),
        Paths(nodes[0], false, acc, Entry), ListPaths(nodes[1..], false, acc, Entry));
    }
  }

  lemma MisuseSomewhere(p: set<Path>, before: bool)
    ensures MayMisuse(p, before) <==> exists id :: MayMisuseAt(p, before, id)
  {
    if x :| x in p && Misuse(x.events, before) {
      MisuseHasNode(x.events, before);
      var id :| MisuseOf(x.events, before, id);
      assert MayMisuseAt(p, before, id);
    }
    if id :| MayMisuseAt(p, before, id) {
      var x :| x in p && MisuseOf(x.events, before, id);
      MisuseHasNode(x.events, before);
    }
  }

  /**
   * The await state is exact: after a clean statement that can complete, walked from any state,
   * it is set exactly when some path through the statement has awaited.
   */
  lemma AwaitStateIsExact(n: Node, acc: string, st: Walked)
    requires Stmt(n) && Clean(n) && !AlwaysExits(n)
    ensures Walk(n, false, acc, st).saw <==> MayReach(Paths(n, false, acc, Entry), st.saw, true)
  {
    StmtTracks(n, acc, st);
    WalkCovers(n, false, acc, st);
    StmtCompletes(n, acc, Entry);
  }

  /** On clean bodies every report is a misuse some path commits, and no misuse goes unreported. */
  lemma CleanBodiesAreExact(body: Node, acc: string)
    requires Stmt(body) && Clean(body)
    ensures Reports(body, acc) != [] <==> MayMisuse(Paths(body, false, acc, Entry), false)
    ensures forall id | id in Reports(body, acc) ::
              MayMisuseAt(Paths(body, false, acc, Entry), false, id)
  {
    RuleIsSound(body, acc);
    StmtTracks(body, acc, Walked(false, []));
    MisuseSomewhere(Paths(body, false, acc, Entry), false);
    if Reports(body, acc) != [] {
      assert MayMisuseAt(Paths(body, false, acc, Entry), false, Reports(body, acc)[0]);
    }
  }

  // ------------------------------------------------------------------ dead statements

  /** The body without the statements that follow one that always exits. */
  function Prune(n: Node): Node {
    match n
    case Block(id, body) => Block(id, PruneList(body))
    case If(id, test, consequent, otherwise) => If(id, test, Prune(consequent), PruneOpt(otherwise))
    case _ => n
  }

  function PruneOpt(o: Option<Node>): Option<Node> {
    match o
    case None => None
    case Some(n) => Some(Prune(n))
  }

  function PruneList(nodes: seq<Node>): seq<Node> {
    if nodes == [] then []
    else if AlwaysExits(Prune(nodes[0])) then [Prune(nodes[0])]
    else [Prune(nodes[0])] + PruneList(nodes[1..])
  }

  lemma {:induction false} PruneIsClean(n: Node)
    requires Stmt(n)
    ensures Stmt(Prune(n)) && Clean(Prune(n))
    decreases n
  {
    match n
    case Block(_, body) => PruneListIsClean(body);
    case If(_, _, consequent, otherwise) =>
      PruneIsClean(consequent);
      if otherwise.Some? {
        PruneIsClean(otherwise.value);
      }
    case _ =>
  }

  lemma {:induction false} PruneListIsClean(nodes: seq<Node>)
    requires ListStmt(nodes)
    ensures ListStmt(PruneList(nodes)) && CleanList(PruneList(nodes))
    decreases nodes
  {
    if nodes != [] {
      PruneIsClean(nodes[0]);
      if AlwaysExits(Prune(nodes[0])) {
        assert PruneList(nodes)[1..] == [];
      } else {
        PruneListIsClean(nodes[1..]);
        assert PruneList(nodes)[1..] == PruneList(nodes[1..]);
      }
    }
  }

  lemma {:induction false} PruneKeepsPaths(n: Node, acc: string, at: UseAt)
    ensures Paths(Prune(n), false, acc, at) == Paths(n, false, acc, at)
    decreases n
  {
    match n
    case Block(_, body) => PruneListKeepsPaths(body, acc, at);
    case If(_, _, consequent, otherwise) =>
      PruneKeepsPaths(consequent, acc, at);
      if otherwise.Some? {
        PruneKeepsPaths(otherwise.value, acc, at);
      }
    case _ =>
  }

  lemma {:induction false} PruneListKeepsPaths(nodes: seq<Node>, acc: string, at: UseAt)
    ensures ListPaths(PruneList(nodes), false, acc, at) == ListPaths(nodes, false, acc, at)
    decreases nodes
  {
    if nodes != [] {
      PruneKeepsPaths(nodes[0], acc, at);
      var h := Prune(nodes[0]);
      if AlwaysExits(h) {
        ExitsNeverCompletes(h, false, acc, at);
        assert [h][1..] == [];
        ThenNothing(Paths(h, false, acc, at), ListPaths([], false, acc, at));
        ThenNothing(Paths(h, false, acc, at), ListPaths(nodes[1..], false, acc, at));
      } else {
        PruneListKeepsPaths(nodes[1..], acc, at);
        assert PruneList(nodes)[1..] == PruneList(nodes[1..]);
      }
    }
  }

  /**
   * For every body: some path uses the accessor after an await exactly when the rule reports
   * something on the body without its dead statements.  So a report without a misuse only ever
   * comes from code behind a statement that always exits.
   */
  lemma RuleIsExactUpToDeadCode(body: Node, acc: string)
    requires Stmt(body)
    ensures MayMisuse(Paths(body, false, acc, Entry), false) <==> Reports(Prune(body), acc) != []
    ensures Reports(Prune(body), acc) != [] ==> Reports(body, acc) != []
  {
    PruneIsClean(body);
    PruneKeepsPaths(body, acc, Entry);
    CleanBodiesAreExact(Prune(body), acc);
    RuleIsSound(body, acc);
  }

  // `return; await x; f(accessor)`
  const DEAD_CALL := Call(5, Leaf(6), [Ident(7, "accessor")])
  const DEAD_BODY := Block(1, [Return(2, None), AwaitExpr(3, Leaf(4)), DEAD_CALL])

  lemma DeadBodyReport()
    ensures Reports(DEAD_BODY, "accessor") == [7]
  {
    var start, seen := Walked(false, []), Walked(true, []);
    assert [Ident(7, "accessor")][1..] == [];
    assert Walk(DEAD_CALL, false, "accessor", seen).reports == [7];
    assert [DEAD_CALL][1..] == [];
    assert WalkList([DEAD_CALL], false, "accessor", seen).reports == [7];
    var tail := [AwaitExpr(3, Leaf(4)), DEAD_CALL];
    assert tail[1..] == [DEAD_CALL] && Walk(tail[0], false, "accessor", start) == seen;
    assert WalkList(tail, false, "accessor", start).reports == [7];
    var body := DEAD_BODY.body;
    assert body[1..] == tail && body[0] == Return(2, None);
    assert WalkOpt(None, "accessor", start) == start;
    assert Walk(body[0], false, "accessor", start) == start;
    assert WalkList(body, false, "accessor", start) == WalkList(tail, false, "accessor", start);
    assert Walk(DEAD_BODY, false, "accessor", start) == WalkList(body, false, "accessor", start);
  }

  lemma DeadBodyIsStmt()
    ensures Stmt(DEAD_BODY)
  {
    assert ListExpr(DEAD_CALL.args);
    assert Stmt(DEAD_CALL);
    assert [DEAD_CALL][1..] == [];
    assert ListStmt([DEAD_CALL]);
    var tail := [AwaitExpr(3, Leaf(4)), DEAD_CALL];
    assert tail[1..] == [DEAD_CALL] && ListStmt(tail);
    assert DEAD_BODY.body[1..] == tail;
  }

  /** It is reported although no path gets that far. */
  lemma DeadCodeIsReported()
    ensures exists body, acc :: Stmt(body) && Reports(body, acc) != []
              && !MayMisuse(Paths(body, false, acc, Entry), false)
  {
    DeadBodyReport();
    DeadBodyIsStmt();
    var only := [Return(2, None)];
    assert DEAD_BODY.body[0] == Return(2, None) == Prune(DEAD_BODY.body[0]);
    assert PruneList(DEAD_BODY.body) == only;
    assert Prune(DEAD_BODY) == Block(1, only) && only[1..] == [];
    assert Walk(only[0], false, "accessor", Walked(false, [])) == Walked(false, []);
    assert Reports(Prune(DEAD_BODY), "accessor") == [];
    RuleIsExactUpToDeadCode(DEAD_BODY, "accessor");
  }
}
