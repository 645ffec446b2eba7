/**
 * The rule takes a use where the walk enters the node.  A call, though, happens after its callee
 * and its arguments were evaluated: `accessor.get(await x)` and `f(accessor, await x)` use the
 * accessor after an await and are not reported.  For the uses that the rule knows, these are the
 * only two ways in which the orders differ.
 */
module AwaitEvaluation {
  import opened Common
  import opened AwaitPaths
  import opened AwaitRule
  import opened AwaitTheorems
  import opened AwaitExactness

  predicate ContainsAwait(n: Node) {
    match n
    case AwaitExpr(_, _) => true
    case Member(_, target, property) => ContainsAwait(target) || OptContainsAwait(property)
    case Call(_, callee, args) => ContainsAwait(callee) || ListContainsAwait(args)
    case Conditional(_, test, consequent, alternate) =>
      ContainsAwait(test) || ContainsAwait(consequent) || ContainsAwait(alternate)
    case Logical(_, left, right) => ContainsAwait(left) || ContainsAwait(right)
    case Ordered(_, children) => ListContainsAwait(children)
    case _ => false
  }

  predicate OptContainsAwait(o: Option<Node>) {
    match o
    case None => false
    case Some(n) => ContainsAwait(n)
  }

  predicate ListContainsAwait(nodes: seq<Node>) {
    nodes != [] && (ContainsAwait(nodes[0]) || ListContainsAwait(nodes[1..]))
  }

  predicate IsAccessor(n: Node, acc: string) { n.Ident? && n.name == acc }

  /** The accessor is among the arguments, and a later argument awaits. */
  predicate HandedBeforeAwait(args: seq<Node>, acc: string) {
    args != [] &&
    ((IsAccessor(args[0], acc) && ListContainsAwait(args[1..])) || HandedBeforeAwait(args[1..], acc))
  }

  /**
   * Some call on the accessor has an await inside its callee or its arguments, or some call takes
   * the accessor as an argument and has an await in a later one.
   */
  predicate AwaitingUse(n: Node, acc: string) {
    match n
    case Member(_, target, property) => AwaitingUse(target, acc) || OptAwaitingUse(property, acc)
    case Call(_, callee, args) =>
      || AwaitingUse(callee, acc) || ListAwaitingUse(args, acc)
      || (IsUsage(n, false, acc) && (ContainsAwait(callee) || ListContainsAwait(args)))
      || HandedBeforeAwait(args, acc)
    case AwaitExpr(_, argument) => AwaitingUse(argument, acc)
    case Conditional(_, test, consequent, alternate) =>
      AwaitingUse(test, acc) || AwaitingUse(consequent, acc) || AwaitingUse(alternate, acc)
    case Logical(_, left, right) => AwaitingUse(left, acc) || AwaitingUse(right, acc)
    case Ordered(_, children) => ListAwaitingUse(children, acc)
    case Block(_, body) => ListAwaitingUse(body, acc)
    case If(_, test, consequent, otherwise) =>
      AwaitingUse(test, acc) || AwaitingUse(consequent, acc) || OptAwaitingUse(otherwise, acc)
    case Return(_, result) => OptAwaitingUse(result, acc)
    case Throw(_, thrown) => AwaitingUse(thrown, acc)
    case _ => false
  }

  predicate OptAwaitingUse(o: Option<Node>, acc: string) {
    match o
    case None => false
    case Some(n) => AwaitingUse(n, acc)
  }

  predicate ListAwaitingUse(nodes: seq<Node>, acc: string) {
    nodes != [] && (AwaitingUse(nodes[0], acc) || ListAwaitingUse(nodes[1..], acc))
  }

  // ------------------------------------------------------------------ the two orders compared

  /** p and q await alike, and q misuses the accessor where p does, or whenever h holds. */
  ghost predicate Agree(p: set<Path>, q: set<Path>, h: bool) {
    && p != {} && q != {}
    && (forall before, after :: MayReach(q, before, after) <==> MayReach(p, before, after))
    && (forall before :: MayMisuse(q, before) <==> MayMisuse(p, before) || h)
  }

  lemma MisuseFollows(p: set<Path>, q: set<Path>, before: bool)
    requires q != {}
    ensures MayMisuse(Then(p, q), before) <==>
            || MayMisuse(p, before)
            || (MayReach(p, before, true) && MayMisuse(q, true))
            || (MayReach(p, before, false) && MayMisuse(q, false))
  {
    MisuseThen(p, q, before);
  }

  lemma ReachFollows(p: set<Path>, q: set<Path>, before: bool, after: bool)
    ensures MayReach(Then(p, q), before, after) <==>
            || (MayReach(p, before, true) && MayReach(q, true, after))
            || (MayReach(p, before, false) && MayReach(q, false, after))
  {
    ReachThen(p, q, before, after);
  }

  lemma CompletesSomehow(p: set<Path>, before: bool)
    ensures MayComplete(p) <==> MayReach(p, before, true) || MayReach(p, before, false)
  {
    if x :| x in p && !x.exits {
      assert MayReach(p, before, Awaited(x.events, before));
    }
  }

  lemma AgreeThen(p: set<Path>, q: set<Path>, h: bool, p': set<Path>, q': set<Path>, h': bool)
    requires Agree(p, q, h) && Agree(p', q', h') && (h' ==> MayComplete(p))
    ensures Agree(Then(p, p'), Then(q, q'), h || h')
  {
    ThenNonEmpty(p, p');
    ThenNonEmpty(q, q');
    forall before, after
      ensures MayReach(Then(q, q'), before, after) <==> MayReach(Then(p, p'), before, after)
    {
      ReachFollows(p, p', before, after);
      ReachFollows(q, q', before, after);
    }
    forall before
      ensures MayMisuse(Then(q, q'), before) <==> MayMisuse(Then(p, p'), before) || h || h'
    {
      MisuseFollows(p, p', before);
      MisuseFollows(q, q', before);
      CompletesSomehow(p, before);
    }
  }

  lemma UnionParts(p: set<Path>, q: set<Path>, before: bool)
    ensures MayMisuse(p + q, before) <==> MayMisuse(p, before) || MayMisuse(q, before)
    ensures forall after ::
              MayReach(p + q, before, after) <==>
              MayReach(p, before, after) || MayReach(q, before, after)
  {
    if x :| x in p + q && Misuse(x.events, before) {
      assert MayMisuse(if x in p then p else q, before);
    }
    if x :| x in p && Misuse(x.events, before) { assert x in p + q; }
    if x :| x in q && Misuse(x.events, before) { assert x in p + q; }
    forall after
      ensures MayReach(p + q, before, after) <==> MayReach(p, before, after) || MayReach(q, before, after)
    {
      if x :| x in p + q && !x.exits && Awaited(x.events, before) == after {
        assert MayReach(if x in p then p else q, before, after);
      }
      if x :| x in p && !x.exits && Awaited(x.events, before) == after { assert x in p + q; }
      if x :| x in q && !x.exits && Awaited(x.events, before) == after { assert x in p + q; }
    }
  }

  lemma AgreeUnion(p: set<Path>, q: set<Path>, h: bool, p': set<Path>, q': set<Path>, h': bool)
    requires Agree(p, q, h) && Agree(p', q', h')
    ensures Agree(p + p', q + q', h || h')
  {
    var x :| x in p;
    assert x in p + p';
    var y :| y in q;
    assert y in q + q';
    forall before, after
      ensures MayReach(q + q', before, after) <==> MayReach(p + p', before, after)
    {
      UnionParts(p, p', before);
      UnionParts(q, q', before);
    }
    forall before
      ensures MayMisuse(q + q', before) <==> MayMisuse(p + p', before) || h || h'
    {
      UnionParts(p, p', before);
      UnionParts(q, q', before);
    }
  }

  lemma AgreeSame(p: set<Path>)
    requires p != {}
    ensures Agree(p, p, false)
  {
  }

  /** What a use does to the await state, and when it is a misuse. */
  ghost predicate IsUse(u: set<Path>, used: bool) {
    && u != {}
    && (forall before :: MayMisuse(u, before) <==> used && before)
    && (forall before, after :: MayReach(u, before, after) <==> after == before)
  }

  lemma MovedMisuse(u: set<Path>, used: bool, p: set<Path>, q: set<Path>, h: bool, before: bool)
    requires Agree(p, q, h) && MayComplete(p) && IsUse(u, used)
    ensures MayMisuse(Then(q, u), before)
       <==> MayMisuse(Then(u, p), before) || h || (used && MayReach(p, false, true))
  {
    MisuseFollows(u, p, before);
    MisuseFollows(q, u, before);
    AwaitedOrBefore(p);
  }

  lemma MovedReach(u: set<Path>, used: bool, p: set<Path>, q: set<Path>, h: bool, before: bool, after: bool)
    requires Agree(p, q, h) && IsUse(u, used)
    ensures MayReach(Then(q, u), before, after) <==> MayReach(Then(u, p), before, after)
  {
    ReachFollows(u, p, before, after);
    ReachFollows(q, u, before, after);
  }

  /** A use moved from before its parts (p in one order, q in the other) to after them. */
  lemma AgreeMoved(u: set<Path>, used: bool, p: set<Path>, q: set<Path>, h: bool)
    requires Agree(p, q, h) && MayComplete(p) && IsUse(u, used)
    ensures Agree(Then(u, p), Then(q, u), h || (used && MayReach(p, false, true)))
  {
    ThenNonEmpty(u, p);
    ThenNonEmpty(q, u);
    forall before, after
      ensures MayReach(Then(q, u), before, after) <==> MayReach(Then(u, p), before, after)
    {
      MovedReach(u, used, p, q, h, before, after);
    }
    forall before
      ensures MayMisuse(Then(q, u), before)
         <==> MayMisuse(Then(u, p), before) || h || (used && MayReach(p, false, true))
    {
      MovedMisuse(u, used, p, q, h, before);
    }
  }

  lemma AwaitedOrBefore(p: set<Path>)
    requires MayComplete(p)
    ensures MayReach(p, true, true)
    ensures MayReach(p, false, true) ==> MayReach(p, true, true)
  {
    var x :| x in p && !x.exits;
    assert Awaited(x.events, true) == true;
  }

  // ------------------------------------------------------------------ awaits in expressions

  lemma ReachThenAwait(p: set<Path>, q: set<Path>)
    requires MayComplete(p) && MayComplete(q)
    ensures MayReach(Then(p, q), false, true) <==> MayReach(p, false, true) || MayReach(q, false, true)
  {
    ReachFollows(p, q, false, true);
    AwaitedOrBefore(q);
    CompletesSomehow(p, false);
  }

  lemma SkipAwaitsNothing()
    ensures !MayReach(SKIP, false, true)
  {
  }

  lemma {:induction false} AwaitsAreReached(n: Node, isArg: bool, acc: string)
    requires Expr(n)
    ensures MayReach(Paths(n, isArg, acc, Entry), false, true) <==> ContainsAwait(n)
    decreases n
  {
    UsesSummary(n, isArg, acc, false);
    match n
    case Ident(_, _) =>
    case Leaf(_) => SkipAwaitsNothing();
    case Function(_, _) => SkipAwaitsNothing();
    case Member(_, target, property) =>
      AwaitsAreReached(target, false, acc);
      OptAwaitsAreReached(property, acc);
      ExprCompletes(target, false, acc, Entry);
      OptCompletes(property, acc, Entry);
      ReachThenAwait(Paths(target, false, acc, Entry), OptPaths(property, acc, Entry));
    case Call(_, callee, args) =>
      AwaitsAreReached(callee, false, acc);
      ListAwaitsAreReached(args, true, acc);
      ExprCompletes(callee, false, acc, Entry);
      ListCompletes(args, true, acc, Entry);
      UsesComplete(n, isArg, acc);
      var p, q := Paths(callee, false, acc, Entry), ListPaths(args, true, acc, Entry);
      CompleteThen(p, q);
      ReachThenAwait(p, q);
      ReachThenAwait(Uses(n, isArg, acc), Then(p, q));
    case AwaitExpr(_, argument) =>
      ExprCompletes(argument, false, acc, Entry);
      var x := Path([Await], false);
      assert x in {x} && !x.exits && Awaited(x.events, false) == true;
      ReachThenAwait(Paths(argument, false, acc, Entry), {x});
    case Conditional(_, test, consequent, alternate) =>
      AwaitsAreReached(test, false, acc);
      AwaitsAreReached(consequent, false, acc);
      AwaitsAreReached(alternate, false, acc);
      ExprCompletes(test, false, acc, Entry);
      ExprCompletes(consequent, false, acc, Entry);
      var p, q := Paths(consequent, false, acc, Entry), Paths(alternate, false, acc, Entry);
      CompleteUnion(p, q);
      UnionParts(p, q, false);
      ReachThenAwait(Paths(test, false, acc, Entry), p + q);
    case Logical(_, left, right) =>
      AwaitsAreReached(left, false, acc);
      AwaitsAreReached(right, false, acc);
      ExprCompletes(left, false, acc, Entry);
      SkipCompletes();
      SkipAwaitsNothing();
      CompleteUnion(SKIP, Paths(right, false, acc, Entry));
      UnionParts(SKIP, Paths(right, false, acc, Entry), false);
      ReachThenAwait(Paths(left, false, acc, Entry), SKIP + Paths(right, false, acc, Entry));
    case Ordered(_, children) => ListAwaitsAreReached(children, false, acc);
  }

  lemma {:induction false} OptAwaitsAreReached(o: Option<Node>, acc: string)
    requires OptExpr(o)
    ensures MayReach(OptPaths(o, acc, Entry), false, true) <==> OptContainsAwait(o)
    decreases o
  {
    SkipAwaitsNothing();
    if o.Some? {
      AwaitsAreReached(o.value, false, acc);
    }
  }

  lemma {:induction false} ListAwaitsAreReached(nodes: seq<Node>, isArg: bool, acc: string)
    requires ListExpr(nodes)
    ensures MayReach(ListPaths(nodes, isArg, acc, Entry), false, true) <==> ListContainsAwait(nodes)
    decreases nodes
  {
    SkipAwaitsNothing();
    if nodes != [] {
      AwaitsAreReached(nodes[0], isArg, acc);
      ListAwaitsAreReached(nodes[1..], isArg, acc);
      ExprCompletes(nodes[0], isArg, acc, Entry);
      ListCompletes(nodes[1..], isArg, acc, Entry);
      ReachThenAwait(Paths(nodes[0], isArg, acc, Entry), ListPaths(nodes[1..], isArg, acc, Entry));
    }
  }

  // ------------------------------------------------------------------ the comparison

  lemma {:induction false} ExprAgrees(n: Node, isArg: bool, acc: string)
    requires Expr(n) && !(isArg && IsAccessor(n, acc))
    ensures Agree(Paths(n, isArg, acc, Entry), Paths(n, isArg, acc, Exit), AwaitingUse(n, acc))
    decreases n
  {
    UsesComplete(n, isArg, acc);
    AgreeSame(Uses(n, isArg, acc));
    SkipCompletes();
    AgreeSame(SKIP);
    match n
    case Ident(_, _) =>
    case Leaf(_) =>
    case Function(_, _) =>
    case Member(_, target, property) =>
      ExprAgrees(target, false, acc);
      OptExprAgrees(property, acc);
      ExprCompletes(target, false, acc, Entry);
      AgreeThen(Paths(target, false, acc, Entry), Paths(target, false, acc, Exit), AwaitingUse(target, acc),
        OptPaths(property, acc, Entry), OptPaths(property, acc, Exit), OptAwaitingUse(property, acc));
    case Call(_, callee, args) =>
      ExprAgrees(callee, false, acc);
      ArgsAgree(args, acc);
      CallAgrees(n, isArg, acc);
    case AwaitExpr(_, argument) =>
      ExprAgrees(argument, false, acc);
      var x := {Path([Await], false)};
      AgreeSame(x);
      AgreeThen(Paths(argument, false, acc, Entry), Paths(argument, false, acc, Exit),
        AwaitingUse(argument, acc), x, x, false);
    case Conditional(_, test, consequent, alternate) =>
      ExprAgrees(test, false, acc);
      ExprAgrees(consequent, false, acc);
      ExprAgrees(alternate, false, acc);
      ExprCompletes(test, false, acc, Entry);
      TestThenBranchesAgree(test, acc,
        Paths(consequent, false, acc, Entry), Paths(consequent, false, acc, Exit), AwaitingUse(consequent, acc),
        Paths(alternate, false, acc, Entry), Paths(alternate, false, acc, Exit), AwaitingUse(alternate, acc));
    case Logical(_, left, right) =>
      ExprAgrees(left, false, acc);
      ExprAgrees(right, false, acc);
      ExprCompletes(left, false, acc, Entry);
      TestThenBranchesAgree(left, acc, SKIP, SKIP, false,
        Paths(right, false, acc, Entry), Paths(right, false, acc, Exit), AwaitingUse(right, acc));
    case Ordered(_, children) => ListExprAgrees(children, acc);
  }

  lemma TestThenBranchesAgree(test: Node, acc: string,
    p: set<Path>, q: set<Path>, h: bool, p': set<Path>, q': set<Path>, h': bool)
    requires Agree(Paths(test, false, acc, Entry), Paths(test, false, acc, Exit), AwaitingUse(test, acc))
    requires MayComplete(Paths(test, false, acc, Entry))
    requires Agree(p, q, h) && Agree(p', q', h')
    ensures Agree(Then(Paths(test, false, acc, Entry), p + p'),
                  Then(Paths(test, false, acc, Exit), q + q'), AwaitingUse(test, acc) || h || h')
  {
    AgreeUnion(p, q, h, p', q', h');
    AgreeThen(Paths(test, false, acc, Entry), Paths(test, false, acc, Exit), AwaitingUse(test, acc),
      p + p', q + q', h || h');
  }

  lemma CallAgrees(n: Node, isArg: bool, acc: string)
    requires n.Call? && Expr(n)
    requires Agree(Paths(n.callee, false, acc, Entry), Paths(n.callee, false, acc, Exit),
                   AwaitingUse(n.callee, acc))
    requires Agree(ListPaths(n.args, true, acc, Entry),
                   Then(ListPaths(n.args, true, acc, Exit), HandOvers(n.args, acc)),
                   ListAwaitingUse(n.args, acc) || HandedBeforeAwait(n.args, acc))
    ensures Agree(Paths(n, isArg, acc, Entry), Paths(n, isArg, acc, Exit), AwaitingUse(n, acc))
  {
    CallPaths(n, isArg, acc);
    CallFacts(n.callee, n.args, acc);
    UseOfCall(n, isArg, acc);
    CallPartsAgree(Uses(n, isArg, acc), IsUsage(n, false, acc),
      Paths(n.callee, false, acc, Entry), Paths(n.callee, false, acc, Exit), AwaitingUse(n.callee, acc),
      ListPaths(n.args, true, acc, Entry), Then(ListPaths(n.args, true, acc, Exit), HandOvers(n.args, acc)),
      ListAwaitingUse(n.args, acc) || HandedBeforeAwait(n.args, acc));
  }

  lemma CallPaths(n: Node, isArg: bool, acc: string)
    requires n.Call? && Expr(n)
    ensures Expr(n.callee) && ListExpr(n.args)
    ensures Paths(n, isArg, acc, Entry) ==
            Then(Uses(n, isArg, acc),
                 Then(Paths(n.callee, false, acc, Entry), ListPaths(n.args, true, acc, Entry)))
    ensures Paths(n, isArg, acc, Exit) ==
            Then(Then(Paths(n.callee, false, acc, Exit),
                      Then(ListPaths(n.args, true, acc, Exit), HandOvers(n.args, acc))),
                 Uses(n, isArg, acc))
    ensures AwaitingUse(n, acc) <==>
            || AwaitingUse(n.callee, acc) || (ListAwaitingUse(n.args, acc) || HandedBeforeAwait(n.args, acc))
            || (IsUsage(n, false, acc) && (ContainsAwait(n.callee) || ListContainsAwait(n.args)))
  {
    ThenAssoc(Paths(n.callee, false, acc, Exit), ListPaths(n.args, true, acc, Exit), HandOvers(n.args, acc));
  }

  lemma CallFacts(callee: Node, args: seq<Node>, acc: string)
    requires Expr(callee) && ListExpr(args)
    ensures var p, q := Paths(callee, false, acc, Entry), ListPaths(args, true, acc, Entry);
            && MayComplete(p) && MayComplete(q)
            && (MayReach(p, false, true) <==> ContainsAwait(callee))
            && (MayReach(q, false, true) <==> ListContainsAwait(args))
  {
    ExprCompletes(callee, false, acc, Entry);
    ListCompletes(args, true, acc, Entry);
    AwaitsAreReached(callee, false, acc);
    ListAwaitsAreReached(args, true, acc);
  }

  lemma UseOfCall(n: Node, isArg: bool, acc: string)
    requires n.Call?
    ensures IsUse(Uses(n, isArg, acc), IsUsage(n, false, acc))
  {
    UsesSummary(n, isArg, acc, true);
    UsesSummary(n, isArg, acc, false);
    UsesComplete(n, isArg, acc);
  }

  lemma CallPartsAgree(u: set<Path>, used: bool,
    p: set<Path>, p': set<Path>, h: bool, q: set<Path>, q': set<Path>, h': bool)
    requires IsUse(u, used) && Agree(p, p', h) && Agree(q, q', h') && MayComplete(p) && MayComplete(q)
    ensures Agree(Then(u, Then(p, q)), Then(Then(p', q'), u),
              h || h' || (used && (MayReach(p, false, true) || MayReach(q, false, true))))
  {
    CompleteThen(p, q);
    AgreeThen(p, p', h, q, q', h');
    ReachThenAwait(p, q);
    AgreeMoved(u, used, Then(p, q), Then(p', q'), h || h');
  }

  lemma {:induction false} OptExprAgrees(o: Option<Node>, acc: string)
    requires OptExpr(o)
    ensures Agree(OptPaths(o, acc, Entry), OptPaths(o, acc, Exit), OptAwaitingUse(o, acc))
    decreases o
  {
    SkipCompletes();
    if o.Some? {
      ExprAgrees(o.value, false, acc);
    } else {
      AgreeSame(SKIP);
    }
  }

  lemma {:induction false} ListExprAgrees(nodes: seq<Node>, acc: string)
    requires ListExpr(nodes)
    ensures Agree(ListPaths(nodes, false, acc, Entry), ListPaths(nodes, false, acc, Exit),
                  ListAwaitingUse(nodes, acc))
    decreases nodes
  {
    SkipCompletes();
    if nodes == [] {
      AgreeSame(SKIP);
    } else {
      ExprAgrees(nodes[0], false, acc);
      ListExprAgrees(nodes[1..], acc);
      ExprCompletes(nodes[0], false, acc, Entry);
      AgreeThen(Paths(nodes[0], false, acc, Entry), Paths(nodes[0], false, acc, Exit),
        AwaitingUse(nodes[0], acc), ListPaths(nodes[1..], false, acc, Entry),
        ListPaths(nodes[1..], false, acc, Exit), ListAwaitingUse(nodes[1..], acc));
    }
  }

  lemma ThenIsUse(u: set<Path>, used: bool, o: set<Path>, handed: bool)
    requires IsUse(u, used) && IsUse(o, handed) && MayComplete(u)
    ensures IsUse(Then(u, o), used || handed)
  {
    ThenNonEmpty(u, o);
    forall before ensures MayMisuse(Then(u, o), before) <==> (used || handed) && before {
      MisuseFollows(u, o, before);
    }
    forall before, after ensures MayReach(Then(u, o), before, after) <==> after == before {
      ReachFollows(u, o, before, after);
    }
  }

  /** A hand-over u in front of p, moved behind the evaluation x of what p stands for. */
  lemma HandOverMoved(u: set<Path>, p: set<Path>, x: set<Path>, o: set<Path>, handed: bool, h: bool)
    requires IsUse(u, true) && IsUse(o, handed) && MayComplete(u) && MayComplete(x)
    requires Agree(p, Then(x, o), h)
    ensures Agree(Then(u, p), Then(x, Then(u, o)), h || MayReach(p, false, true))
  {
    ThenIsUse(u, true, o, handed);
    ThenNonEmpty(u, p);
    ThenNonEmpty(x, Then(u, o));
    forall before, after
      ensures MayReach(Then(x, Then(u, o)), before, after) <==> MayReach(Then(u, p), before, after)
    {
      ReachFollows(x, o, before, after);
      ReachFollows(u, p, before, after);
      ReachFollows(x, Then(u, o), before, after);
    }
    forall before
      ensures MayMisuse(Then(x, Then(u, o)), before)
         <==> MayMisuse(Then(u, p), before) || h || MayReach(p, false, true)
    {
      HandOverMisuse(u, p, x, o, handed, h, before);
    }
  }

  lemma HandOverMisuse(
    u: set<Path>, p: set<Path>, x: set<Path>, o: set<Path>, handed: bool, h: bool, before: bool)
    requires IsUse(u, true) && IsUse(o, handed) && IsUse(Then(u, o), true) && MayComplete(x)
    requires Agree(p, Then(x, o), h)
    ensures MayMisuse(Then(x, Then(u, o)), before)
       <==> MayMisuse(Then(u, p), before) || h || MayReach(p, false, true)
  {
    AwaitedOrBefore(x);
    ReachFollows(x, o, false, true);
    MisuseFollows(x, o, before);
    MisuseFollows(x, Then(u, o), before);
    MisuseFollows(u, p, before);
  }

  lemma {:induction false} HandOversAreUses(args: seq<Node>, acc: string) returns (handed: bool)
    ensures IsUse(HandOvers(args, acc), handed)
  {
    SkipIsUse();
    handed := false;
    if args != [] {
      var u := if args[0].Ident? then Uses(args[0], true, acc) else SKIP;
      if args[0].Ident? {
        UsesSummary(args[0], true, acc, true);
        UsesSummary(args[0], true, acc, false);
        UsesComplete(args[0], true, acc);
      }
      SkipCompletes();
      var rest := HandOversAreUses(args[1..], acc);
      ThenIsUse(u, IsAccessor(args[0], acc), HandOvers(args[1..], acc), rest);
      handed := IsAccessor(args[0], acc) || rest;
    }
  }

  lemma SkipIsUse()
    ensures IsUse(SKIP, false)
  {
    assert Path([], false) in SKIP;
  }

  /** Arguments in the walk's order, and evaluated first and handed over afterwards. */
  lemma {:induction false} ArgsAgree(args: seq<Node>, acc: string)
    requires ListExpr(args)
    ensures Agree(ListPaths(args, true, acc, Entry),
                  Then(ListPaths(args, true, acc, Exit), HandOvers(args, acc)),
                  ListAwaitingUse(args, acc) || HandedBeforeAwait(args, acc))
    decreases args
  {
    if args == [] {
      SkipCompletes();
      AgreeSame(SKIP);
      SkipThen(SKIP);
    } else {
      ArgsAgree(args[1..], acc);
      if IsAccessor(args[0], acc) {
        AccessorFirst(args, acc);
      } else {
        ExprAgrees(args[0], true, acc);
        OtherFirst(args, acc);
      }
    }
  }

  lemma SkipThen(p: set<Path>)
    ensures Then(SKIP, p) == p
  {
    forall x | x in p ensures x in Then(SKIP, p) {
      InThen(SKIP, p, Path([], false), x);
      assert Path([] + x.events, x.exits) == x;
    }
    forall z | z in Then(SKIP, p) ensures z in p {
      NothingFirst(p, z);
    }
  }

  lemma NothingFirst(p: set<Path>, z: Path)
    requires z in Then(SKIP, p)
    ensures z in p
  {
    var x, y :| x in SKIP && !x.exits && y in p && z == Path(x.events + y.events, y.exits);
    assert x == Path([], false) && [] + y.events == y.events;
    assert z == y;
  }

  lemma AccessorFirst(args: seq<Node>, acc: string)
    requires ListExpr(args) && args != [] && IsAccessor(args[0], acc)
    requires Agree(ListPaths(args[1..], true, acc, Entry),
                   Then(ListPaths(args[1..], true, acc, Exit), HandOvers(args[1..], acc)),
                   ListAwaitingUse(args[1..], acc) || HandedBeforeAwait(args[1..], acc))
    ensures Agree(ListPaths(args, true, acc, Entry),
                  Then(ListPaths(args, true, acc, Exit), HandOvers(args, acc)),
                  ListAwaitingUse(args, acc) || HandedBeforeAwait(args, acc))
  {
    AccessorParts(args, acc);
    AccessorIsUse(args[0], acc);
    ListCompletes(args[1..], true, acc, Exit);
    ListAwaitsAreReached(args[1..], true, acc);
    var handed := HandOversAreUses(args[1..], acc);
    HandOverMoved(Uses(args[0], true, acc), ListPaths(args[1..], true, acc, Entry),
      ListPaths(args[1..], true, acc, Exit), HandOvers(args[1..], acc), handed,
      ListAwaitingUse(args[1..], acc) || HandedBeforeAwait(args[1..], acc));
  }

  lemma AccessorIsUse(n: Node, acc: string)
    requires IsAccessor(n, acc)
    ensures IsUse(Uses(n, true, acc), true) && MayComplete(Uses(n, true, acc))
  {
    UsesSummary(n, true, acc, true);
    UsesSummary(n, true, acc, false);
    UsesComplete(n, true, acc);
  }

  lemma AccessorParts(args: seq<Node>, acc: string)
    requires args != [] && IsAccessor(args[0], acc)
    ensures var u, rest := Uses(args[0], true, acc), args[1..];
            && ListPaths(args, true, acc, Entry) == Then(u, ListPaths(rest, true, acc, Entry))
            && ListPaths(args, true, acc, Exit) == ListPaths(rest, true, acc, Exit)
            && HandOvers(args, acc) == Then(u, HandOvers(rest, acc))
            && (ListAwaitingUse(args, acc) || HandedBeforeAwait(args, acc) <==>
                ListAwaitingUse(rest, acc) || HandedBeforeAwait(rest, acc) || ListContainsAwait(rest))
  {
    SkipThen(ListPaths(args[1..], true, acc, Exit));
    assert !AwaitingUse(args[0], acc);
    assert ListAwaitingUse(args, acc) <==> ListAwaitingUse(args[1..], acc);
  }

  lemma OtherFirst(args: seq<Node>, acc: string)
    requires ListExpr(args) && args != [] && !IsAccessor(args[0], acc)
    requires Agree(Paths(args[0], true, acc, Entry), Paths(args[0], true, acc, Exit), AwaitingUse(args[0], acc))
    requires Agree(ListPaths(args[1..], true, acc, Entry),
                   Then(ListPaths(args[1..], true, acc, Exit), HandOvers(args[1..], acc)),
                   ListAwaitingUse(args[1..], acc) || HandedBeforeAwait(args[1..], acc))
    ensures Agree(ListPaths(args, true, acc, Entry),
                  Then(ListPaths(args, true, acc, Exit), HandOvers(args, acc)),
                  ListAwaitingUse(args, acc) || HandedBeforeAwait(args, acc))
  {
    var o := HandOvers(args[1..], acc);
    var a, a' := Paths(args[0], true, acc, Entry), Paths(args[0], true, acc, Exit);
    var p, x := ListPaths(args[1..], true, acc, Entry), ListPaths(args[1..], true, acc, Exit);
    ExprCompletes(args[0], true, acc, Entry);
    AgreeThen(a, a', AwaitingUse(args[0], acc), p, Then(x, o),
      ListAwaitingUse(args[1..], acc) || HandedBeforeAwait(args[1..], acc));
    SkipThen(o);
    assert HandOvers(args, acc) == o;
    ThenAssoc(a', x, o);
  }

  lemma {:induction false} StmtAgrees(n: Node, acc: string)
    requires Stmt(n) && Clean(n)
    ensures Agree(Paths(n, false, acc, Entry), Paths(n, false, acc, Exit), AwaitingUse(n, acc))
    decreases n
  {
    match n
    case Block(_, body) => BlockAgrees(body, acc);
    case If(_, test, consequent, otherwise) =>
      ExprAgrees(test, false, acc);
      StmtAgrees(consequent, acc);
      if otherwise.Some? {
        StmtAgrees(otherwise.value, acc);
      } else {
        SkipCompletes();
        AgreeSame(SKIP);
      }
      ExprCompletes(test, false, acc, Entry);
      TestThenBranchesAgree(test, acc,
        Paths(consequent, false, acc, Entry), Paths(consequent, false, acc, Exit), AwaitingUse(consequent, acc),
        OptPaths(otherwise, acc, Entry), OptPaths(otherwise, acc, Exit), OptAwaitingUse(otherwise, acc));
    case Return(_, result) =>
      OptExprAgrees(result, acc);
      var x := {Path([], true)};
      AgreeSame(x);
      AgreeThen(OptPaths(result, acc, Entry), OptPaths(result, acc, Exit),
        OptAwaitingUse(result, acc), x, x, false);
    case Throw(_, thrown) =>
      ExprAgrees(thrown, false, acc);
      var x := {Path([], true)};
      AgreeSame(x);
      AgreeThen(Paths(thrown, false, acc, Entry), Paths(thrown, false, acc, Exit),
        AwaitingUse(thrown, acc), x, x, false);
    case _ => ExprAgrees(n, false, acc);
  }

  lemma {:induction false} BlockAgrees(nodes: seq<Node>, acc: string)
    requires ListStmt(nodes) && CleanList(nodes)
    ensures Agree(ListPaths(nodes, false, acc, Entry), ListPaths(nodes, false, acc, Exit),
                  ListAwaitingUse(nodes, acc))
    decreases nodes
  {
    SkipCompletes();
    if nodes == [] {
      AgreeSame(SKIP);
    } else {
      StmtAgrees(nodes[0], acc);
      BlockAgrees(nodes[1..], acc);
      StmtCompletes(nodes[0], acc, Entry);
      AgreeThen(Paths(nodes[0], false, acc, Entry), Paths(nodes[0], false, acc, Exit),
        AwaitingUse(nodes[0], acc), ListPaths(nodes[1..], false, acc, Entry),
        ListPaths(nodes[1..], false, acc, Exit), ListAwaitingUse(nodes[1..], acc));
    }
  }

  /**
   * With uses placed where they happen, the accessor can be used after an await exactly when the
   * rule reports something on the live part of the body, or that part has a call on the accessor
   * that awaits while it is being evaluated, or a call that is handed the accessor and awaits in a
   * later argument.
   */
  lemma CallOrderIsTheOnlyGap(body: Node, acc: string)
    requires Stmt(body)
    ensures MayMisuse(Paths(body, false, acc, Exit), false) <==>
            Reports(Prune(body), acc) != [] || AwaitingUse(Prune(body), acc)
  {
    PruneIsClean(body);
    PruneKeepsPaths(body, acc, Entry);
    PruneKeepsPaths(body, acc, Exit);
    StmtAgrees(Prune(body), acc);
    RuleIsExactUpToDeadCode(body, acc);
  }

  // `accessor.get(await x)`
  const AWAITING_CALL :=
    Call(1, Member(2, Ident(3, "accessor"), None), [AwaitExpr(4, Leaf(5))])

  lemma AwaitingCallShape()
    ensures Expr(AWAITING_CALL) && Clean(AWAITING_CALL)
    ensures AwaitingUse(AWAITING_CALL, "accessor")
  {
    var args := AWAITING_CALL.args;
    assert args[0] == AwaitExpr(4, Leaf(5)) && args[1..] == [];
    assert ListExpr(args) && ListContainsAwait(args);
  }

  lemma AwaitingCallReport()
    ensures Reports(AWAITING_CALL, "accessor") == []
  {
    var args, start := AWAITING_CALL.args, Walked(false, []);
    assert args[0] == AwaitExpr(4, Leaf(5)) && args[1..] == [];
    assert Walk(args[0], true, "accessor", start) == Walked(true, []);
    assert WalkList(args, true, "accessor", start) == Walked(true, []);
    assert Walk(AWAITING_CALL.callee, false, "accessor", start) == start;
  }

  // `f(accessor, await x)`
  const HANDING_CALL := Call(1, Leaf(2), [Ident(3, "accessor"), AwaitExpr(4, Leaf(5))])

  lemma HandingCallShape()
    ensures Expr(HANDING_CALL) && Clean(HANDING_CALL)
    ensures AwaitingUse(HANDING_CALL, "accessor")
  {
    var args := HANDING_CALL.args;
    assert args[1..] == [AwaitExpr(4, Leaf(5))] && args[1..][1..] == [];
    assert ListExpr(args[1..][1..]) && Expr(args[1]);
    assert ListExpr(args[1..]) && ListContainsAwait(args[1..]);
    assert ListExpr(args) && HandedBeforeAwait(args, "accessor");
  }

  lemma HandingCallReport()
    ensures Reports(HANDING_CALL, "accessor") == []
  {
    var args, start := HANDING_CALL.args, Walked(false, []);
    var rest := args[1..];
    assert rest == [AwaitExpr(4, Leaf(5))] && rest[1..] == [];
    assert Walk(rest[0], true, "accessor", start) == Walked(true, []);
    assert WalkList(rest, true, "accessor", start) == Walked(true, []);
    assert Walk(args[0], true, "accessor", start) == start;
    assert WalkList(args, true, "accessor", start) == Walked(true, []);
    assert Walk(HANDING_CALL.callee, false, "accessor", start) == start;
  }

  /** Another one: the accessor is handed over after an await in a later argument. */
  lemma AwaitBehindAccessorIsMissed()
    ensures Stmt(HANDING_CALL) && Reports(HANDING_CALL, "accessor") == []
    ensures MayMisuse(Paths(HANDING_CALL, false, "accessor", Exit), false)
  {
    HandingCallShape();
    HandingCallReport();
    CallOrderIsTheOnlyGap(HANDING_CALL, "accessor");
  }

  /** A misuse the rule misses. */
  lemma AwaitInArgumentIsMissed()
    ensures exists body, acc :: Stmt(body) && Reports(body, acc) == []
              && MayMisuse(Paths(body, false, acc, Exit), false)
  {
    AwaitingCallShape();
    AwaitingCallReport();
    CallOrderIsTheOnlyGap(AWAITING_CALL, "accessor");
  }
}
