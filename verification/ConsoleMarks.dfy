/**
 * Which of the marks in a serialization are true.  The mark says that a reference is circular, that
 * is, that it leads back to a container inside of which it is; it is written for every reference to
 * a container met before.
 */
module ConsoleMarks {
  import opened Common
  import opened ConsoleText

  // ------------------------------------------------------------------ the marks that are written

  /**
   * For each mark written, in order, whether it is true.  `path` are the containers being written
   * at that moment, each inside of the one before.
   */
  function ValueMarks(h: Heap, v: Value, seen: seq<nat>, path: seq<nat>): seq<bool>
    requires NoneDangling(h) && Valid(h, v)
    decreases |Unseen(h, seen)|, 0
  {
    if !v.Ref? then []
    else if v.id in seen then [v.id in path]
    else
      UnseenWithout(h, seen, v.id);
      MembersMarks(h, h[v.id].Arr?, h[v.id].members, seen + [v.id], path + [v.id])
  }

  function MembersMarks(h: Heap, isArray: bool, ms: seq<Member>, seen: seq<nat>, path: seq<nat>): seq<bool>
    requires NoneDangling(h) && AllValid(h, ms)
    decreases |Unseen(h, seen)|, |ms| + 1
  {
    if ms == [] then []
    else
      var first := WalkValue(h, ms[0].value, seen);
      UnseenShrinks(h, seen, first.seen);
      ValueMarks(h, ms[0].value, seen, path) +
      if first.text.Ok? then MembersMarks(h, isArray, ms[1..], first.seen, path) else []
  }

  /** These are the marks that the walk writes. */
  lemma {:induction false} ValueMarksCounted(h: Heap, v: Value, seen: seq<nat>, path: seq<nat>)
    requires NoneDangling(h) && Valid(h, v)
    ensures |ValueMarks(h, v, seen, path)| == WalkValue(h, v, seen).marks
    decreases |Unseen(h, seen)|, 0
  {
    if v.Ref? && v.id !in seen {
      UnseenWithout(h, seen, v.id);
      MembersMarksCounted(h, h[v.id].Arr?, h[v.id].members, seen + [v.id], path + [v.id]);
    }
  }

  lemma {:induction false} MembersMarksCounted(
    h: Heap, isArray: bool, ms: seq<Member>, seen: seq<nat>, path: seq<nat>)
    requires NoneDangling(h) && AllValid(h, ms)
    ensures |MembersMarks(h, isArray, ms, seen, path)| == WalkMembers(h, isArray, ms, seen).marks
    decreases |Unseen(h, seen)|, |ms| + 1
  {
    if ms != [] {
      var first := WalkValue(h, ms[0].value, seen);
      UnseenShrinks(h, seen, first.seen);
      ValueMarksCounted(h, ms[0].value, seen, path);
      if first.text.Ok? {
        MembersMarksCounted(h, isArray, ms[1..], first.seen, path);
      }
    }
  }

  // ------------------------------------------------------------------ routes

  function Next(h: Heap, from: nat, i: nat): nat
    requires from in h && i < |h[from].members| && h[from].members[i].value.Ref?
  {
    h[from].members[i].value.id
  }

  /** A route is a list of member positions, each holding a reference to the next container. */
  predicate Follows(h: Heap, from: nat, route: seq<nat>)
    requires NoneDangling(h) && from in h
    decreases route
  {
    route == [] ||
    (route[0] < |h[from].members| && h[from].members[route[0]].value.Ref? &&
     (assert Valid(h, h[from].members[route[0]].value);
      Follows(h, Next(h, from, route[0]), route[1..])))
  }

  /** The containers along a route, and the one at its end. */
  function Visits(h: Heap, from: nat, route: seq<nat>): (r: seq<nat>)
    requires NoneDangling(h) && from in h && Follows(h, from, route)
    ensures |r| == |route| + 1 && r[0] == from
    decreases route
  {
    [from] + if route == [] then [] else Visits(h, Next(h, from, route[0]), route[1..])
  }

  function EndOf(h: Heap, from: nat, route: seq<nat>): (r: nat)
    requires NoneDangling(h) && from in h && Follows(h, from, route)
    ensures r in h
    decreases route
  {
    if route == [] then from else EndOf(h, Next(h, from, route[0]), route[1..])
  }

  /** A route between two containers. */
  ghost predicate Leads(h: Heap, from: nat, route: seq<nat>, to: nat)
    requires NoneDangling(h) && from in h
  {
    Follows(h, from, route) && EndOf(h, from, route) == to
  }

  /** One that comes by no container twice. */
  ghost predicate LeadsSimply(h: Heap, from: nat, route: seq<nat>, to: nat)
    requires NoneDangling(h) && from in h
  {
    Leads(h, from, route, to) && NoRepeats(Visits(h, from, route))
  }

  ghost predicate OneRoute(h: Heap, from: nat, to: nat)
    requires NoneDangling(h) && from in h
  {
    && (exists r :: Leads(h, from, r, to))
    && forall r, r' | Leads(h, from, r, to) && Leads(h, from, r', to) :: r == r'
  }

  ghost predicate OneSimpleRoute(h: Heap, from: nat, to: nat)
    requires NoneDangling(h) && from in h
  {
    && (exists r :: LeadsSimply(h, from, r, to))
    && forall r, r' | LeadsSimply(h, from, r, to) && LeadsSimply(h, from, r', to) :: r == r'
  }

  lemma {:induction false} RouteSnoc(h: Heap, from: nat, route: seq<nat>, k: nat)
    requires NoneDangling(h) && from in h && Follows(h, from, route)
    requires k < |h[EndOf(h, from, route)].members| && h[EndOf(h, from, route)].members[k].value.Ref?
    ensures var next := Next(h, EndOf(h, from, route), k);
            && Leads(h, from, route + [k], next)
            && Visits(h, from, route + [k]) == Visits(h, from, route) + [next]
    decreases route
  {
    if route == [] {
      assert [k][1..] == [] && route + [k] == [k];
      assert Valid(h, h[from].members[k].value);
    } else {
      assert (route + [k])[1..] == route[1..] + [k] && (route + [k])[0] == route[0];
      RouteSnoc(h, Next(h, from, route[0]), route[1..], k);
    }
  }

  lemma {:induction false} RouteIsPath(h: Heap, from: nat, route: seq<nat>)
    requires NoneDangling(h) && from in h && Follows(h, from, route)
    ensures var path := Visits(h, from, route);
            IsPath(h, path) && path[|path| - 1] == EndOf(h, from, route)
    decreases route
  {
    if route != [] {
      var tail := Visits(h, Next(h, from, route[0]), route[1..]);
      RouteIsPath(h, Next(h, from, route[0]), route[1..]);
      assert h[from].members[route[0]].value == Ref(tail[0]);
      PathCons(h, from, tail);
    }
  }

  lemma PathCons(h: Heap, from: nat, tail: seq<nat>)
    requires from in h && IsPath(h, tail) && RefersTo(h[from], tail[0])
    ensures IsPath(h, [from] + tail)
  {
    var path := [from] + tail;
    forall i | 0 <= i < |path| - 1 ensures RefersTo(h[path[i]], path[i + 1]) {
      if i > 0 {
        assert RefersTo(h[tail[i - 1]], tail[i - 1 + 1]);
      }
    }
  }

  lemma RouteReaches(h: Heap, from: nat, route: seq<nat>)
    requires NoneDangling(h) && from in h && Follows(h, from, route)
    ensures Reaches(h, from, EndOf(h, from, route))
  {
    RouteIsPath(h, from, route);
  }

  // ------------------------------------------------------------------ true marks: one route

  /** A route that the marks do not cut off: there are none, or all are true and it is simple. */
  ghost predicate Clear(h: Heap, marks: seq<bool>, path: seq<nat>, from: nat, route: seq<nat>)
    requires NoneDangling(h) && from in h && Follows(h, from, route)
  {
    marks == [] || (false !in marks && NoRepeats(path + Visits(h, from, route)))
  }

  lemma NotOnPath(path: seq<nat>, id: nat, rest: seq<nat>)
    requires NoRepeats(path + ([id] + rest))
    ensures id !in path
  {
    assert (path + ([id] + rest))[|path|] == id;
    assert forall k | 0 <= k < |path| :: (path + ([id] + rest))[k] == path[k];
  }

  lemma ClearIsNew(h: Heap, v: Value, seen: seq<nat>, path: seq<nat>, route: seq<nat>)
    requires NoneDangling(h) && v.Ref? && v.id in h && Follows(h, v.id, route)
    requires Clear(h, ValueMarks(h, v, seen, path), path, v.id, route)
    ensures v.id !in seen
  {
    var visits := Visits(h, v.id, route);
    assert visits == [v.id] + visits[1..];
    if NoRepeats(path + visits) {
      NotOnPath(path, v.id, visits[1..]);
    }
  }

  lemma ClearInside(h: Heap, v: Value, seen: seq<nat>, path: seq<nat>, route: seq<nat>)
    requires NoneDangling(h) && v.Ref? && v.id in h && Follows(h, v.id, route) && route != []
    requires v.id !in seen && Clear(h, ValueMarks(h, v, seen, path), path, v.id, route)
    ensures Valid(h, h[v.id].members[route[0]].value)
    ensures Clear(h, MembersMarks(h, h[v.id].Arr?, h[v.id].members, seen + [v.id], path + [v.id]),
                  path + [v.id], Next(h, v.id, route[0]), route[1..])
  {
    ConcatAssoc(path, [v.id], Visits(h, Next(h, v.id, route[0]), route[1..]));
  }

  /** Such a route ends at a container that its part of the walk meets for the first time. */
  lemma {:induction false} ValueRoutes(h: Heap, v: Value, seen: seq<nat>, path: seq<nat>, route: seq<nat>)
    requires NoneDangling(h) && v.Ref? && v.id in h && Follows(h, v.id, route)
    requires WalkValue(h, v, seen).text.Ok? && Clear(h, ValueMarks(h, v, seen, path), path, v.id, route)
    ensures v.id !in seen
    ensures EndOf(h, v.id, route) in WalkValue(h, v, seen).seen && EndOf(h, v.id, route) !in seen
    decreases |Unseen(h, seen)|, 0
  {
    ClearIsNew(h, v, seen, path, route);
    UnseenWithout(h, seen, v.id);
    assert v.id in seen + [v.id];
    if route != [] {
      ClearInside(h, v, seen, path, route);
      MembersRoutes(h, h[v.id].Arr?, h[v.id].members, seen + [v.id], path + [v.id], route[0], route[1..]);
    }
  }

  lemma {:induction false} MembersRoutes(
    h: Heap, isArray: bool, ms: seq<Member>, seen: seq<nat>, path: seq<nat>, i: nat, route: seq<nat>)
    requires NoneDangling(h) && AllValid(h, ms) && i < |ms| && ms[i].value.Ref?
    requires Valid(h, ms[i].value) && Follows(h, ms[i].value.id, route)
    requires WalkMembers(h, isArray, ms, seen).text.Ok?
    requires Clear(h, MembersMarks(h, isArray, ms, seen, path), path, ms[i].value.id, route)
    ensures var end := EndOf(h, ms[i].value.id, route);
            end in WalkMembers(h, isArray, ms, seen).seen && end !in seen
    decreases |Unseen(h, seen)|, |ms| + 1
  {
    MembersInParts(h, isArray, ms, seen, path);
    var first := WalkValue(h, ms[0].value, seen);
    UnseenShrinks(h, seen, first.seen);
    if i == 0 {
      ValueRoutes(h, ms[0].value, seen, path, route);
    } else {
      assert ms[1..][i - 1] == ms[i];
      MembersRoutes(h, isArray, ms[1..], first.seen, path, i - 1, route);
    }
  }

  /** The first member and the others, in a walk that does not fail. */
  lemma MembersInParts(h: Heap, isArray: bool, ms: seq<Member>, seen: seq<nat>, path: seq<nat>)
    requires NoneDangling(h) && AllValid(h, ms) && ms != [] && WalkMembers(h, isArray, ms, seen).text.Ok?
    ensures var first := WalkValue(h, ms[0].value, seen); var rest := WalkMembers(h, isArray, ms[1..], first.seen);
            && first.text.Ok? && rest.text.Ok? && WalkMembers(h, isArray, ms, seen).seen == rest.seen
            && MembersMarks(h, isArray, ms, seen, path) ==
                 ValueMarks(h, ms[0].value, seen, path) + MembersMarks(h, isArray, ms[1..], first.seen, path)
  {
  }

  lemma EndsElsewhere(h: Heap, v: Value, seen: seq<nat>, path: seq<nat>, route: seq<nat>)
    requires NoneDangling(h) && v.Ref? && v.id in h && Follows(h, v.id, route) && route != []
    requires WalkValue(h, v, seen).text.Ok? && Clear(h, ValueMarks(h, v, seen, path), path, v.id, route)
    ensures EndOf(h, v.id, route) != v.id
  {
    ClearIsNew(h, v, seen, path, route);
    ClearInside(h, v, seen, path, route);
    MembersRoutes(h, h[v.id].Arr?, h[v.id].members, seen + [v.id], path + [v.id], route[0], route[1..]);
    assert v.id in seen + [v.id];
  }

  lemma {:induction false} ValueUnique(
    h: Heap, v: Value, seen: seq<nat>, path: seq<nat>, r: seq<nat>, r': seq<nat>)
    requires NoneDangling(h) && v.Ref? && v.id in h && Follows(h, v.id, r) && Follows(h, v.id, r')
    requires WalkValue(h, v, seen).text.Ok? && Clear(h, ValueMarks(h, v, seen, path), path, v.id, r)
    requires Clear(h, ValueMarks(h, v, seen, path), path, v.id, r')
    ensures EndOf(h, v.id, r) == EndOf(h, v.id, r') ==> r == r'
    decreases |Unseen(h, seen)|, 0
  {
    if r == [] {
      if r' != [] {
        EndsElsewhere(h, v, seen, path, r');
      }
    } else if r' == [] {
      EndsElsewhere(h, v, seen, path, r);
    } else {
      ClearIsNew(h, v, seen, path, r);
      UnseenWithout(h, seen, v.id);
      ClearInside(h, v, seen, path, r);
      ClearInside(h, v, seen, path, r');
      MembersUnique(h, h[v.id].Arr?, h[v.id].members, seen + [v.id], path + [v.id], r[0], r[1..], r'[0], r'[1..]);
      assert r == [r[0]] + r[1..] && r' == [r'[0]] + r'[1..];
    }
  }

  lemma {:induction false} MembersUnique(h: Heap, isArray: bool, ms: seq<Member>, seen: seq<nat>,
    path: seq<nat>, i: nat, r: seq<nat>, i': nat, r': seq<nat>)
    requires NoneDangling(h) && AllValid(h, ms) && WalkMembers(h, isArray, ms, seen).text.Ok?
    requires i < |ms| && ms[i].value.Ref? && Valid(h, ms[i].value) && Follows(h, ms[i].value.id, r)
    requires i' < |ms| && ms[i'].value.Ref? && Valid(h, ms[i'].value) && Follows(h, ms[i'].value.id, r')
    requires Clear(h, MembersMarks(h, isArray, ms, seen, path), path, ms[i].value.id, r)
    requires Clear(h, MembersMarks(h, isArray, ms, seen, path), path, ms[i'].value.id, r')
    ensures EndOf(h, ms[i].value.id, r) == EndOf(h, ms[i'].value.id, r') ==> i == i' && r == r'
    decreases |Unseen(h, seen)|, |ms| + 1
  {
    var first := WalkValue(h, ms[0].value, seen);
    UnseenShrinks(h, seen, first.seen);
    if i == 0 && i' == 0 {
      ValueUnique(h, ms[0].value, seen, path, r, r');
    } else if i == 0 {
      FirstEndsElsewhere(h, isArray, ms, seen, path, r, i', r');
    } else if i' == 0 {
      FirstEndsElsewhere(h, isArray, ms, seen, path, r', i, r);
    } else {
      assert ms[1..][i - 1] == ms[i] && ms[1..][i' - 1] == ms[i'];
      MembersUnique(h, isArray, ms[1..], first.seen, path, i - 1, r, i' - 1, r');
    }
  }

  /** Routes through the first member and through a later one end at different containers. */
  lemma FirstEndsElsewhere(h: Heap, isArray: bool, ms: seq<Member>, seen: seq<nat>,
    path: seq<nat>, r: seq<nat>, i: nat, r': seq<nat>)
    requires NoneDangling(h) && AllValid(h, ms) && WalkMembers(h, isArray, ms, seen).text.Ok?
    requires 0 < i < |ms| && ms[0].value.Ref? && Valid(h, ms[0].value) && Follows(h, ms[0].value.id, r)
    requires ms[i].value.Ref? && Valid(h, ms[i].value) && Follows(h, ms[i].value.id, r')
    requires Clear(h, MembersMarks(h, isArray, ms, seen, path), path, ms[0].value.id, r)
    requires Clear(h, MembersMarks(h, isArray, ms, seen, path), path, ms[i].value.id, r')
    ensures EndOf(h, ms[0].value.id, r) != EndOf(h, ms[i].value.id, r')
  {
    var first := WalkValue(h, ms[0].value, seen);
    ValueRoutes(h, ms[0].value, seen, path, r);
    assert ms[1..][i - 1] == ms[i];
    MembersRoutes(h, isArray, ms[1..], first.seen, path, i - 1, r');
  }

  // ------------------------------------------------------------------ other marks: two routes

  /** The route r is taken by the walk before it comes to q. */
  ghost predicate Before(r: seq<nat>, q: seq<nat>) {
    exists j :: 0 <= j < |q| && j <= |r| && r[..j] == q[..j] && (j == |r| || r[j] < q[j])
  }

  lemma BeforeLater(r: seq<nat>, q: seq<nat>, k: nat, k': nat)
    requires Before(r, q + [k]) && k <= k'
    ensures Before(r, q + [k'])
  {
    var j :| 0 <= j < |q + [k]| && j <= |r| && r[..j] == (q + [k])[..j] && (j == |r| || r[j] < (q + [k])[j]);
    assert (q + [k])[..j] == q[..j] == (q + [k'])[..j];
  }

  lemma BeforeDeeper(r: seq<nat>, q: seq<nat>, k: nat)
    requires r == q || Before(r, q)
    ensures Before(r, q + [k])
  {
    if r == q {
      assert r[..|q|] == (q + [k])[..|q|];
    } else {
      var j :| 0 <= j < |q| && j <= |r| && r[..j] == q[..j] && (j == |r| || r[j] < q[j]);
      assert (q + [k])[..j] == q[..j];
    }
  }

  lemma BeforeNext(r: seq<nat>, q: seq<nat>, k: nat, n: nat)
    requires Before(r, (q + [k]) + [n])
    ensures Before(r, q + [k + 1])
  {
    var s, t := (q + [k]) + [n], q + [k + 1];
    var j :| 0 <= j < |s| && j <= |r| && r[..j] == s[..j] && (j == |r| || r[j] < s[j]);
    if j <= |q| {
      assert s[..j] == q[..j] == t[..j];
    } else {
      assert r[..|q|] == r[..j][..|q|] == s[..j][..|q|] == q == t[..|q|];
      assert r[|q|] == r[..j][|q|] == s[..j][|q|] == k;
    }
  }

  /** The walk has come to this container on a simple route before it comes to q. */
  ghost predicate Known(h: Heap, root: nat, id: nat, q: seq<nat>)
    requires NoneDangling(h) && root in h
  {
    exists r :: LeadsSimply(h, root, r, id) && Before(r, q)
  }

  ghost predicate AllKnown(h: Heap, root: nat, seen: seq<nat>, q: seq<nat>)
    requires NoneDangling(h) && root in h
  {
    forall id | id in seen :: Known(h, root, id, q)
  }

  lemma KnownLater(h: Heap, root: nat, seen: seq<nat>, q: seq<nat>, k: nat, k': nat)
    requires NoneDangling(h) && root in h && AllKnown(h, root, seen, q + [k]) && k <= k'
    ensures AllKnown(h, root, seen, q + [k'])
  {
    forall id | id in seen ensures Known(h, root, id, q + [k']) {
      var r :| LeadsSimply(h, root, r, id) && Before(r, q + [k]);
      BeforeLater(r, q, k, k');
    }
  }

  lemma KnownNext(h: Heap, root: nat, seen: seq<nat>, q: seq<nat>, k: nat, n: nat)
    requires NoneDangling(h) && root in h && AllKnown(h, root, seen, (q + [k]) + [n])
    ensures AllKnown(h, root, seen, q + [k + 1])
  {
    forall id | id in seen ensures Known(h, root, id, q + [k + 1]) {
      var r :| LeadsSimply(h, root, r, id) && Before(r, (q + [k]) + [n]);
      BeforeNext(r, q, k, n);
    }
  }

  lemma KnownInside(h: Heap, root: nat, seen: seq<nat>, q: seq<nat>, id: nat)
    requires NoneDangling(h) && root in h && AllKnown(h, root, seen, q) && LeadsSimply(h, root, q, id)
    ensures AllKnown(h, root, seen + [id], q + [0])
  {
    forall x | x in seen + [id] ensures Known(h, root, x, q + [0]) {
      if x in seen {
        var r :| LeadsSimply(h, root, r, x) && Before(r, q);
        BeforeDeeper(r, q, 0);
      } else {
        BeforeDeeper(q, q, 0);
      }
    }
  }

  ghost predicate TwoRoutes(h: Heap, root: nat)
    requires NoneDangling(h) && root in h
  {
    exists id, r, r' :: Leads(h, root, r, id) && Leads(h, root, r', id) && r != r'
  }

  ghost predicate TwoSimpleRoutes(h: Heap, root: nat)
    requires NoneDangling(h) && root in h
  {
    exists id, r, r' :: LeadsSimply(h, root, r, id) && LeadsSimply(h, root, r', id) && r != r'
  }

  /** What a mark tells about the routes from the root. */
  ghost predicate Told(h: Heap, root: nat, marks: seq<bool>)
    requires NoneDangling(h) && root in h
  {
    (marks != [] ==> TwoRoutes(h, root)) && (false in marks ==> TwoSimpleRoutes(h, root))
  }

  /** The walk stands in front of member k at the end of a simple route; `seen` includes that route. */
  ghost predicate At(h: Heap, root: nat, route: seq<nat>, k: nat, seen: seq<nat>)
    requires NoneDangling(h) && root in h
  {
    && Follows(h, root, route) && NoRepeats(Visits(h, root, route))
    && (forall x | x in Visits(h, root, route) :: x in seen)
    && k <= |h[EndOf(h, root, route)].members|
    && AllKnown(h, root, seen, route + [k])
  }

  lemma MarkTells(h: Heap, root: nat, route: seq<nat>, k: nat, seen: seq<nat>)
    requires NoneDangling(h) && root in h && At(h, root, route, k, seen)
    requires var end := EndOf(h, root, route);
             && k < |h[end].members| && h[end].members[k].value.Ref? && Next(h, end, k) in seen
    ensures Told(h, root, [Next(h, EndOf(h, root, route), k) in Visits(h, root, route)])
  {
    var id := Next(h, EndOf(h, root, route), k);
    RouteSnoc(h, root, route, k);
    var r :| LeadsSimply(h, root, r, id) && Before(r, route + [k]);
    assert r != route + [k];
    assert Leads(h, root, r, id) && Leads(h, root, route + [k], id);
    if id !in Visits(h, root, route) {
      assert LeadsSimply(h, root, route + [k], id);
    }
  }

  lemma {:induction false} ValueTells(h: Heap, root: nat, route: seq<nat>, k: nat, seen: seq<nat>)
    requires NoneDangling(h) && root in h && At(h, root, route, k, seen)
    requires k < |h[EndOf(h, root, route)].members| && Valid(h, h[EndOf(h, root, route)].members[k].value)
    ensures var v := h[EndOf(h, root, route)].members[k].value;
            && AllKnown(h, root, WalkValue(h, v, seen).seen, route + [k + 1])
            && Told(h, root, ValueMarks(h, v, seen, Visits(h, root, route)))
    decreases |Unseen(h, seen)|, 0
  {
    var v := h[EndOf(h, root, route)].members[k].value;
    KnownLater(h, root, seen, route, k, k + 1);
    if v.Ref? {
      if v.id in seen {
        MarkTells(h, root, route, k, seen);
      } else {
        UnseenWithout(h, seen, v.id);
        RouteSnoc(h, root, route, k);
        assert LeadsSimply(h, root, route + [k], v.id);
        KnownInside(h, root, seen, route + [k], v.id);
        MembersTell(h, root, route + [k], 0, seen + [v.id]);
        assert h[v.id].members[0..] == h[v.id].members;
        KnownNext(h, root, WalkValue(h, v, seen).seen, route, k, |h[v.id].members|);
      }
    }
  }

  lemma {:induction false} MembersTell(h: Heap, root: nat, route: seq<nat>, k: nat, seen: seq<nat>)
    requires NoneDangling(h) && root in h && At(h, root, route, k, seen)
    requires AllValid(h, h[EndOf(h, root, route)].members[k..])
    ensures var c := h[EndOf(h, root, route)]; var path := Visits(h, root, route);
            && AllKnown(h, root, WalkMembers(h, c.Arr?, c.members[k..], seen).seen, route + [|c.members|])
            && Told(h, root, MembersMarks(h, c.Arr?, c.members[k..], seen, path))
    decreases |Unseen(h, seen)|, |h[EndOf(h, root, route)].members| - k + 1
  {
    var c := h[EndOf(h, root, route)];
    var ms, path := c.members[k..], Visits(h, root, route);
    if k < |c.members| {
      assert ms[0] == c.members[k] && ms[1..] == c.members[k + 1..];
      var first := WalkValue(h, ms[0].value, seen);
      UnseenShrinks(h, seen, first.seen);
      ValueTells(h, root, route, k, seen);
      if first.text.Ok? {
        assert At(h, root, route, k + 1, first.seen);
        MembersTell(h, root, route, k + 1, first.seen);
        ToldTogether(h, root, ValueMarks(h, ms[0].value, seen, path),
                     MembersMarks(h, c.Arr?, ms[1..], first.seen, path));
      } else {
        KnownLater(h, root, first.seen, route, k + 1, |c.members|);
        assert MembersMarks(h, c.Arr?, ms, seen, path) == ValueMarks(h, ms[0].value, seen, path);
      }
    } else {
      assert ms == [];
    }
  }

  lemma ToldTogether(h: Heap, root: nat, a: seq<bool>, b: seq<bool>)
    requires NoneDangling(h) && root in h && Told(h, root, a) && Told(h, root, b)
    ensures Told(h, root, a + b)
  {
  }

  lemma RootTells(h: Heap, root: nat)
    requires NoneDangling(h) && root in h
    ensures Told(h, root, ValueMarks(h, Ref(root), [], []))
    ensures forall id | id in WalkValue(h, Ref(root), []).seen :: exists r :: LeadsSimply(h, root, r, id)
  {
    UnseenWithout(h, [], root);
    assert [] + [root] == [root];
    assert LeadsSimply(h, root, [], root);
    KnownInside(h, root, [], [], root);
    MembersTell(h, root, [], 0, [root]);
    assert h[root].members[0..] == h[root].members;
    assert Visits(h, root, []) == [root];
    assert ValueMarks(h, Ref(root), [], []) == MembersMarks(h, h[root].Arr?, h[root].members, [root], [root]);
    var w := WalkValue(h, Ref(root), []);
    forall id | id in w.seen ensures exists r :: LeadsSimply(h, root, r, id) {
      assert Known(h, root, id, [] + [|h[root].members|]);
    }
  }

  // ------------------------------------------------------------------ exactly when

  lemma TrueMarksOneRoute(h: Heap, root: nat, r: seq<nat>, r': seq<nat>, id: nat)
    requires NoneDangling(h) && root in h && WalkValue(h, Ref(root), []).text.Ok?
    requires Leads(h, root, r, id) && Leads(h, root, r', id)
    requires var marks := ValueMarks(h, Ref(root), [], []);
             marks == [] || (false !in marks && LeadsSimply(h, root, r, id) && LeadsSimply(h, root, r', id))
    ensures r == r'
  {
    assert [] + Visits(h, root, r) == Visits(h, root, r);
    assert [] + Visits(h, root, r') == Visits(h, root, r');
    ValueUnique(h, Ref(root), [], [], r, r');
  }

  /**
   * When nothing throws, the mark is written for circular references only, exactly when every
   * reachable container has one simple route from the root; and it is not written at all exactly
   * when every reachable container has one route from the root, that is, when they form a tree.
   */
  lemma MarksAreTrueIff(h: Heap, root: nat)
    requires NoneDangling(h) && root in h && WalkValue(h, Ref(root), []).text.Ok?
    ensures var marks := ValueMarks(h, Ref(root), [], []);
            && |marks| == WalkValue(h, Ref(root), []).marks
            && (false !in marks <==> forall id | Reaches(h, root, id) :: OneSimpleRoute(h, root, id))
            && (marks == [] <==> forall id | Reaches(h, root, id) :: OneRoute(h, root, id))
  {
    var marks := ValueMarks(h, Ref(root), [], []);
    ValueMarksCounted(h, Ref(root), [], []);
    RootTells(h, root);
    ExpandsEachReachableOnce(h, root);
    if false !in marks {
      forall id | Reaches(h, root, id) ensures OneSimpleRoute(h, root, id) {
        forall r, r' | LeadsSimply(h, root, r, id) && LeadsSimply(h, root, r', id) ensures r == r' {
          TrueMarksOneRoute(h, root, r, r', id);
        }
      }
    } else {
      var id, r, r' :| LeadsSimply(h, root, r, id) && LeadsSimply(h, root, r', id) && r != r';
      RouteReaches(h, root, r);
      assert !OneSimpleRoute(h, root, id);
    }
    if marks == [] {
      forall id | Reaches(h, root, id) ensures OneRoute(h, root, id) {
        var q :| LeadsSimply(h, root, q, id);
        assert Leads(h, root, q, id);
        forall r, r' | Leads(h, root, r, id) && Leads(h, root, r', id) ensures r == r' {
          TrueMarksOneRoute(h, root, r, r', id);
        }
      }
    } else {
      var id, r, r' :| Leads(h, root, r, id) && Leads(h, root, r', id) && r != r';
      RouteReaches(h, root, r);
      assert !OneRoute(h, root, id);
    }
  }

  // ------------------------------------------------------------------ how many marks

  lemma {:induction false} RefsOfWithout(h: Heap, ids: seq<nat>, k: nat)
    requires k < |ids| && forall i | 0 <= i < |ids| :: ids[i] in h
    ensures RefsOf(h, ids) == RefsIn(h[ids[k]].members) + RefsOf(h, ids[..k] + ids[k + 1..])
  {
    RefsOfAppend(h, ids[..k], ids[k..]);
    RefsOfAppend(h, ids[..k], ids[k + 1..]);
    assert ids == ids[..k] + ids[k..] && ids[k..][1..] == ids[k + 1..];
  }

  /** The references in some containers do not depend on the order in which these are listed. */
  lemma {:induction false} RefsOfListings(h: Heap, a: seq<nat>, b: seq<nat>)
    requires NoRepeats(a) && NoRepeats(b) && forall id :: id in a <==> id in b
    requires forall i | 0 <= i < |a| :: a[i] in h
    ensures |a| == |b| && (forall i | 0 <= i < |b| :: b[i] in h) && RefsOf(h, a) == RefsOf(h, b)
    decreases |a|
  {
    forall i | 0 <= i < |b| ensures b[i] in h {
      assert b[i] in a;
    }
    if a == [] {
      if b != [] {
        FirstIsListed(b);
        assert false;
      }
    } else {
      assert a[0] in b;
      var k :| 0 <= k < |b| && b[k] == a[0];
      RefsOfWithout(h, b, k);
      ListedWithoutFirst(a, b, k);
      RefsOfListings(h, a[1..], b[..k] + b[k + 1..]);
    }
  }

  lemma FirstIsListed(b: seq<nat>)
    requires b != []
    ensures exists id :: id in b
  {
    assert b[0] in b;
  }

  lemma ListedWithoutFirst(a: seq<nat>, b: seq<nat>, k: nat)
    requires NoRepeats(a) && NoRepeats(b) && (forall id :: id in a <==> id in b)
    requires a != [] && k < |b| && b[k] == a[0]
    ensures var rest := b[..k] + b[k + 1..];
            NoRepeats(rest) && forall id :: id in a[1..] <==> id in rest
  {
    var rest := b[..k] + b[k + 1..];
    assert a == [a[0]] + a[1..] && b == b[..k] + [b[k]] + b[k + 1..];
    assert a[0] !in a[1..] && b[k] !in rest;
    forall id ensures id in a[1..] <==> id in rest {
      assert id in a <==> id == a[0] || id in a[1..];
      assert id in b <==> id == b[k] || id in rest;
    }
  }

  /** The marks are the references in the reachable containers beyond those a tree of them has. */
  lemma MarksAreExtraReferences(h: Heap, root: nat, reachable: seq<nat>)
    requires NoneDangling(h) && root in h && WalkValue(h, Ref(root), []).text.Ok?
    requires NoRepeats(reachable) && forall id :: id in reachable <==> Reaches(h, root, id)
    ensures forall i | 0 <= i < |reachable| :: reachable[i] in h
    ensures WalkValue(h, Ref(root), []).marks + |reachable| == 1 + RefsOf(h, reachable)
  {
    var w := WalkValue(h, Ref(root), []);
    ExpandsEachReachableOnce(h, root);
    ValueAccounted(h, Ref(root), []);
    assert w.seen[0..] == w.seen;
    RefsOfListings(h, w.seen, reachable);
  }
}
