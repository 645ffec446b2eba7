/**
 * What the rule reports: calls of a method of the accessor, and the accessor as an argument of a
 * call.  These are told by their shape here, apart from how the walk recognizes them.
 */
module AwaitUses {
  import opened Common
  import opened AwaitPaths
  import opened AwaitRule
  import opened AwaitTheorems

  /** `accessor.name(...)`. */
  predicate CallsMethodOf(n: Node, acc: string) {
    match n
    case Call(_, Member(_, Ident(_, name), _), _) => name == acc
    case _ => false
  }

  /** The arguments of a call that are the accessor itself. */
  function Handed(args: seq<Node>, acc: string): set<nat> {
    set i | 0 <= i < |args| && args[i].Ident? && args[i].name == acc :: args[i].id
  }

  /** The uses in a node; a call of a method of the accessor hides those inside when `outermost`. */
  function UsesIn(n: Node, acc: string, outermost: bool): set<nat> {
    match n
    case Ident(_, _) => {}
    case Leaf(_) => {}
    case Function(_, _) => {}
    case Member(_, target, property) => UsesIn(target, acc, outermost) + OptUses(property, acc, outermost)
    case Call(id, callee, args) =>
      var inside := UsesIn(callee, acc, outermost) + Handed(args, acc) + ListUses(args, acc, outermost);
      if CallsMethodOf(n, acc) then if outermost then {id} else {id} + inside else inside
    case AwaitExpr(_, argument) => UsesIn(argument, acc, outermost)
    case Conditional(_, test, consequent, alternate) =>
      UsesIn(test, acc, outermost) + UsesIn(consequent, acc, outermost) + UsesIn(alternate, acc, outermost)
    case Logical(_, left, right) => UsesIn(left, acc, outermost) + UsesIn(right, acc, outermost)
    case Ordered(_, children) => ListUses(children, acc, outermost)
    case Block(_, body) => ListUses(body, acc, outermost)
    case If(_, test, consequent, otherwise) =>
      UsesIn(test, acc, outermost) + UsesIn(consequent, acc, outermost) + OptUses(otherwise, acc, outermost)
    case Return(_, result) => OptUses(result, acc, outermost)
    case Throw(_, thrown) => UsesIn(thrown, acc, outermost)
  }

  function OptUses(o: Option<Node>, acc: string, outermost: bool): set<nat> {
    match o
    case None => {}
    case Some(n) => UsesIn(n, acc, outermost)
  }

  function ListUses(nodes: seq<Node>, acc: string, outermost: bool): set<nat> {
    if nodes == [] then {} else UsesIn(nodes[0], acc, outermost) + ListUses(nodes[1..], acc, outermost)
  }

  /** The uses of a node that stands in the given place. */
  function UsesAt(n: Node, isArg: bool, acc: string, outermost: bool): set<nat> {
    UsesIn(n, acc, outermost) + if isArg then Handed([n], acc) else {}
  }

  function ListUsesAt(nodes: seq<Node>, isArg: bool, acc: string, outermost: bool): set<nat> {
    ListUses(nodes, acc, outermost) + if isArg then Handed(nodes, acc) else {}
  }

  /** A walk reports uses only, and, once something was awaited, all the outermost ones. */
  ghost predicate Tells(before: Walked, after: Walked, all: set<nat>, outermost: set<nat>) {
    && before.reports <= after.reports
    && (forall i | |before.reports| <= i < |after.reports| :: after.reports[i] in all)
    && (before.saw ==> after.saw && forall id | id in outermost :: id in after.reports[|before.reports|..])
  }

  lemma TellsThen(a: Walked, b: Walked, c: Walked, all: set<nat>, out: set<nat>, all': set<nat>, out': set<nat>)
    requires Tells(a, b, all, out) && Tells(b, c, all', out')
    ensures Tells(a, c, all + all', out + out')
  {
    forall i | |a.reports| <= i < |c.reports| ensures c.reports[i] in all + all' {
      if i < |b.reports| {
        assert c.reports[i] == b.reports[i];
      }
    }
    if a.saw {
      assert c.reports[|a.reports|..] == b.reports[|a.reports|..] + c.reports[|b.reports|..];
    }
  }

  /** Two branches, the second walked from the state before the first. */
  lemma TellsBranch(a: Walked, b: Walked, c: Walked, saw: bool,
    all: set<nat>, out: set<nat>, all': set<nat>, out': set<nat>)
    requires Tells(a, b, all, out) && Tells(b.(saw := a.saw), c, all', out') && (a.saw ==> saw)
    ensures Tells(a, c.(saw := saw), all + all', out + out')
  {
    forall i | |a.reports| <= i < |c.reports| ensures c.reports[i] in all + all' {
      if i < |b.reports| {
        assert c.reports[i] == b.reports[i];
      }
    }
    if a.saw {
      assert c.reports[|a.reports|..] == b.reports[|a.reports|..] + c.reports[|b.reports|..];
    }
  }

  lemma HandedFirst(nodes: seq<Node>, acc: string)
    requires nodes != []
    ensures Handed(nodes, acc) == Handed([nodes[0]], acc) + Handed(nodes[1..], acc)
  {
    forall id | id in Handed(nodes, acc) ensures id in Handed([nodes[0]], acc) + Handed(nodes[1..], acc) {
      var i :| 0 <= i < |nodes| && nodes[i].Ident? && nodes[i].name == acc && nodes[i].id == id;
      if i == 0 {
        assert [nodes[0]][0] == nodes[0];
      } else {
        assert nodes[1..][i - 1] == nodes[i];
      }
    }
    forall id | id in Handed(nodes[1..], acc) ensures id in Handed(nodes, acc) {
      var i :| 0 <= i < |nodes[1..]| && nodes[1..][i].Ident? && nodes[1..][i].name == acc && nodes[1..][i].id == id;
      assert nodes[i + 1] == nodes[1..][i];
    }
  }

  lemma HandedNode(n: Node, acc: string)
    ensures Handed([n], acc) == if n.Ident? && n.name == acc then {n.id} else {}
  {
    assert [n][0] == n;
  }

  lemma CallTells(n: Node, isArg: bool, acc: string, st: Walked)
    requires n.Call?
    requires var st1 := Walk(n.callee, false, acc, st);
             && Tells(st, st1, UsesAt(n.callee, false, acc, false), UsesAt(n.callee, false, acc, true))
             && Tells(st1, WalkList(n.args, true, acc, st1),
                      ListUsesAt(n.args, true, acc, false), ListUsesAt(n.args, true, acc, true))
    ensures Tells(st, Walk(n, isArg, acc, st), UsesAt(n, isArg, acc, false), UsesAt(n, isArg, acc, true))
  {
    HandedNode(n, acc);
    var st1 := Walk(n.callee, false, acc, st);
    TellsThen(st, st1, WalkList(n.args, true, acc, st1), UsesAt(n.callee, false, acc, false),
      UsesAt(n.callee, false, acc, true), ListUsesAt(n.args, true, acc, false), ListUsesAt(n.args, true, acc, true));
  }

  lemma IfTells(n: Node, isArg: bool, acc: string, st: Walked)
    requires n.If?
    requires var st1 := Walk(n.test, false, acc, st); var st2 := Walk(n.consequent, false, acc, st1);
             && Tells(st, st1, UsesAt(n.test, false, acc, false), UsesAt(n.test, false, acc, true))
             && Tells(st1, st2, UsesAt(n.consequent, false, acc, false), UsesAt(n.consequent, false, acc, true))
             && Tells(st2.(saw := st1.saw), WalkOpt(n.otherwise, acc, st2.(saw := st1.saw)),
                      OptUses(n.otherwise, acc, false), OptUses(n.otherwise, acc, true))
    ensures Tells(st, Walk(n, isArg, acc, st), UsesAt(n, isArg, acc, false), UsesAt(n, isArg, acc, true))
  {
    var st1 := Walk(n.test, false, acc, st);
    var st2 := Walk(n.consequent, false, acc, st1);
    var st3 := WalkOpt(n.otherwise, acc, st2.(saw := st1.saw));
    HandedNode(n, acc);
    TellsBranch(st1, st2, st3, Merge(n, st2.saw, st3.saw),
      UsesIn(n.consequent, acc, false), UsesIn(n.consequent, acc, true),
      OptUses(n.otherwise, acc, false), OptUses(n.otherwise, acc, true));
    TellsThen(st, st1, st3.(saw := Merge(n, st2.saw, st3.saw)),
      UsesIn(n.test, acc, false), UsesIn(n.test, acc, true),
      UsesIn(n.consequent, acc, false) + OptUses(n.otherwise, acc, false),
      UsesIn(n.consequent, acc, true) + OptUses(n.otherwise, acc, true));
  }

  lemma ConditionalTells(n: Node, isArg: bool, acc: string, st: Walked)
    requires n.Conditional?
    requires var st1 := Walk(n.test, false, acc, st); var st2 := Walk(n.consequent, false, acc, st1);
             && Tells(st, st1, UsesAt(n.test, false, acc, false), UsesAt(n.test, false, acc, true))
             && Tells(st1, st2, UsesAt(n.consequent, false, acc, false), UsesAt(n.consequent, false, acc, true))
             && Tells(st2.(saw := st1.saw), Walk(n.alternate, false, acc, st2.(saw := st1.saw)),
                      UsesAt(n.alternate, false, acc, false), UsesAt(n.alternate, false, acc, true))
    ensures Tells(st, Walk(n, isArg, acc, st), UsesAt(n, isArg, acc, false), UsesAt(n, isArg, acc, true))
  {
    var st1 := Walk(n.test, false, acc, st);
    var st2 := Walk(n.consequent, false, acc, st1);
    var st3 := Walk(n.alternate, false, acc, st2.(saw := st1.saw));
    HandedNode(n, acc);
    TellsBranch(st1, st2, st3, st3.saw || st2.saw,
      UsesIn(n.consequent, acc, false), UsesIn(n.consequent, acc, true),
      UsesIn(n.alternate, acc, false), UsesIn(n.alternate, acc, true));
    TellsThen(st, st1, st3.(saw := st3.saw || st2.saw),
      UsesIn(n.test, acc, false), UsesIn(n.test, acc, true),
      UsesIn(n.consequent, acc, false) + UsesIn(n.alternate, acc, false),
      UsesIn(n.consequent, acc, true) + UsesIn(n.alternate, acc, true));
  }

  lemma {:induction false} WalkTells(n: Node, isArg: bool, acc: string, st: Walked)
    ensures Tells(st, Walk(n, isArg, acc, st), UsesAt(n, isArg, acc, false), UsesAt(n, isArg, acc, true))
    decreases n
  {
    HandedNode(n, acc);
    match n
    case Ident(_, _) =>
    case Leaf(_) =>
    case Function(_, _) =>
    case Member(_, target, property) =>
      var st1 := Walk(target, false, acc, st);
      WalkTells(target, false, acc, st);
      OptTells(property, acc, st1);
      TellsThen(st, st1, WalkOpt(property, acc, st1), UsesIn(target, acc, false), UsesIn(target, acc, true),
        OptUses(property, acc, false), OptUses(property, acc, true));
    case Call(_, callee, args) =>
      WalkTells(callee, false, acc, st);
      ListTells(args, true, acc, Walk(callee, false, acc, st));
      CallTells(n, isArg, acc, st);
    case AwaitExpr(_, argument) => WalkTells(argument, false, acc, st);
    case Conditional(_, test, consequent, alternate) =>
      var st1 := Walk(test, false, acc, st);
      WalkTells(test, false, acc, st);
      WalkTells(consequent, false, acc, st1);
      WalkTells(alternate, false, acc, Walk(consequent, false, acc, st1).(saw := st1.saw));
      ConditionalTells(n, isArg, acc, st);
    case Logical(_, left, right) =>
      var st1 := Walk(left, false, acc, st);
      WalkTells(left, false, acc, st);
      WalkTells(right, false, acc, st1);
      TellsThen(st, st1, Walk(right, false, acc, st1), UsesIn(left, acc, false), UsesIn(left, acc, true),
        UsesIn(right, acc, false), UsesIn(right, acc, true));
    case Ordered(_, children) => ListTells(children, false, acc, st);
    case Block(_, body) => ListTells(body, false, acc, st);
    case If(_, test, consequent, otherwise) =>
      var st1 := Walk(test, false, acc, st);
      WalkTells(test, false, acc, st);
      WalkTells(consequent, false, acc, st1);
      OptTells(otherwise, acc, Walk(consequent, false, acc, st1).(saw := st1.saw));
      IfTells(n, isArg, acc, st);
    case Return(_, result) => OptTells(result, acc, st);
    case Throw(_, thrown) => WalkTells(thrown, false, acc, st);
  }

  lemma {:induction false} OptTells(o: Option<Node>, acc: string, st: Walked)
    ensures Tells(st, WalkOpt(o, acc, st), OptUses(o, acc, false), OptUses(o, acc, true))
    decreases o
  {
    if o.Some? {
      WalkTells(o.value, false, acc, st);
    }
  }

  lemma {:induction false} ListTells(nodes: seq<Node>, isArg: bool, acc: string, st: Walked)
    ensures Tells(st, WalkList(nodes, isArg, acc, st),
                  ListUsesAt(nodes, isArg, acc, false), ListUsesAt(nodes, isArg, acc, true))
    decreases nodes
  {
    if nodes != [] {
      var st1 := Walk(nodes[0], isArg, acc, st);
      WalkTells(nodes[0], isArg, acc, st);
      ListTells(nodes[1..], isArg, acc, st1);
      HandedFirst(nodes, acc);
      TellsThen(st, st1, WalkList(nodes, isArg, acc, st),
        UsesAt(nodes[0], isArg, acc, false), UsesAt(nodes[0], isArg, acc, true),
        ListUsesAt(nodes[1..], isArg, acc, false), ListUsesAt(nodes[1..], isArg, acc, true));
      assert ListUsesAt(nodes, isArg, acc, false)
          == UsesAt(nodes[0], isArg, acc, false) + ListUsesAt(nodes[1..], isArg, acc, false);
      assert ListUsesAt(nodes, isArg, acc, true)
          == UsesAt(nodes[0], isArg, acc, true) + ListUsesAt(nodes[1..], isArg, acc, true);
    }
  }

  /**
   * From every entry state the walk reports only calls of methods of the accessor and hand-overs of
   * it to calls; and from a state in which something was awaited, exactly the outermost of them.
   */
  lemma ReportsAreUses(n: Node, acc: string, st: Walked)
    ensures var after := Walk(n, false, acc, st);
            && st.reports <= after.reports
            && var added := after.reports[|st.reports|..];
            && (forall id | id in added :: id in UsesIn(n, acc, false))
            && (st.saw ==> forall id | id in UsesIn(n, acc, true) :: id in added)
  {
    WalkTells(n, false, acc, st);
  }

  // ------------------------------------------------------------------ bodies without the accessor

  /** Some identifier that the walk comes to has the name. */
  predicate Mentions(n: Node, acc: string) {
    match n
    case Ident(_, name) => name == acc
    case Leaf(_) => false
    case Function(_, _) => false
    case Member(_, target, property) => Mentions(target, acc) || OptMentions(property, acc)
    case Call(_, callee, args) => Mentions(callee, acc) || ListMentions(args, acc)
    case AwaitExpr(_, argument) => Mentions(argument, acc)
    case Conditional(_, test, consequent, alternate) =>
      Mentions(test, acc) || Mentions(consequent, acc) || Mentions(alternate, acc)
    case Logical(_, left, right) => Mentions(left, acc) || Mentions(right, acc)
    case Ordered(_, children) => ListMentions(children, acc)
    case Block(_, body) => ListMentions(body, acc)
    case If(_, test, consequent, otherwise) =>
      Mentions(test, acc) || Mentions(consequent, acc) || OptMentions(otherwise, acc)
    case Return(_, result) => OptMentions(result, acc)
    case Throw(_, thrown) => Mentions(thrown, acc)
  }

  predicate OptMentions(o: Option<Node>, acc: string) {
    match o
    case None => false
    case Some(n) => Mentions(n, acc)
  }

  predicate ListMentions(nodes: seq<Node>, acc: string) {
    nodes != [] && (Mentions(nodes[0], acc) || ListMentions(nodes[1..], acc))
  }

  /** A body without an identifier of that name gets no report, from whatever entry state. */
  lemma {:induction false} NoMentionNoReport(n: Node, isArg: bool, acc: string, st: Walked)
    requires !Mentions(n, acc)
    ensures Walk(n, isArg, acc, st).reports == st.reports
    decreases n
  {
    match n
    case Ident(_, _) =>
    case Leaf(_) =>
    case Function(_, _) =>
    case Member(_, target, property) =>
      NoMentionNoReport(target, false, acc, st);
      OptNoReport(property, acc, Walk(target, false, acc, st));
    case Call(_, callee, args) =>
      assert callee.Member? && Mentions(callee.target, acc) ==> Mentions(callee, acc);
      NoMentionNoReport(callee, false, acc, st);
      ListNoReport(args, true, acc, Walk(callee, false, acc, st));
    case AwaitExpr(_, argument) => NoMentionNoReport(argument, false, acc, st);
    case Conditional(_, test, consequent, alternate) =>
      var st1 := Walk(test, false, acc, st);
      NoMentionNoReport(test, false, acc, st);
      NoMentionNoReport(consequent, false, acc, st1);
      NoMentionNoReport(alternate, false, acc, Walk(consequent, false, acc, st1).(saw := st1.saw));
    case Logical(_, left, right) =>
      NoMentionNoReport(left, false, acc, st);
      NoMentionNoReport(right, false, acc, Walk(left, false, acc, st));
    case Ordered(_, children) => ListNoReport(children, false, acc, st);
    case Block(_, body) => ListNoReport(body, false, acc, st);
    case If(_, test, consequent, otherwise) =>
      var st1 := Walk(test, false, acc, st);
      NoMentionNoReport(test, false, acc, st);
      NoMentionNoReport(consequent, false, acc, st1);
      OptNoReport(otherwise, acc, Walk(consequent, false, acc, st1).(saw := st1.saw));
    case Return(_, result) => OptNoReport(result, acc, st);
    case Throw(_, thrown) => NoMentionNoReport(thrown, false, acc, st);
  }

  lemma {:induction false} OptNoReport(o: Option<Node>, acc: string, st: Walked)
    requires !OptMentions(o, acc)
    ensures WalkOpt(o, acc, st).reports == st.reports
    decreases o
  {
    if o.Some? {
      NoMentionNoReport(o.value, false, acc, st);
    }
  }

  lemma {:induction false} ListNoReport(nodes: seq<Node>, isArg: bool, acc: string, st: Walked)
    requires !ListMentions(nodes, acc)
    ensures WalkList(nodes, isArg, acc, st).reports == st.reports
    decreases nodes
  {
    if nodes != [] {
      NoMentionNoReport(nodes[0], isArg, acc, st);
      ListNoReport(nodes[1..], isArg, acc, Walk(nodes[0], isArg, acc, st));
    }
  }
}
