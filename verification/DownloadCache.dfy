/**
 * The cache of downloaded servers: directories on disk and a list of their names, most recently
 * used first, which is kept in memory and in a file.
 */
module DownloadCache {
  import opened Common

  const KEEP_LRU: nat := 5
  const STAGING_SUFFIX: string := ".staging"
  const RENAME_ATTEMPTS: nat := 20

  predicate IsStaging(name: string) {
    |name| >= |STAGING_SUFFIX| && name[|name| - |STAGING_SUFFIX|..] == STAGING_SUFFIX
  }

  function Staging(name: string): string { name + STAGING_SUFFIX }

  // ------------------------------------------------------------------ the list

  function Without(l: seq<string>, name: string): seq<string> {
    if l == [] then []
    else if l[0] == name then Without(l[1..], name) else [l[0]] + Without(l[1..], name)
  }

  /** The list without the first occurrence of a name. */
  function RemoveFirst(l: seq<string>, name: string): seq<string> {
    if l == [] then [] else if l[0] == name then l[1..] else [l[0]] + RemoveFirst(l[1..], name)
  }

  /** A list over the limit loses its last name with its directory, unless the removal fails. */
  function Evicted(l: seq<string>, dirs: set<string>, evictOk: bool): (seq<string>, set<string>) {
    if |l| <= KEEP_LRU then (l, dirs)
    else
      var last := l[|l| - 1];
      if last !in dirs || evictOk then (l[..|l| - 1], dirs - {last}) else (l, dirs)
  }

  /** The last name of the list after touching a name. */
  function LastAfterTouch(l: seq<string>, name: string): string {
    var l' := [name] + RemoveFirst(l, name);
    l'[|l'| - 1]
  }

  /** Whether touching a name makes the list too long while its last name still has a directory. */
  predicate EvictionDue(l: seq<string>, dirs: set<string>, name: string) {
    |[name] + RemoveFirst(l, name)| > KEEP_LRU && LastAfterTouch(l, name) in dirs
  }

  /** The list and the directories after a touch. */
  function Touched(l: seq<string>, dirs: set<string>, name: string, evictOk: bool)
    : (seq<string>, set<string>)
  {
    Evicted([name] + RemoveFirst(l, name), dirs, evictOk)
  }

  // ------------------------------------------------------------------ the cache

  /** What becomes of a write of the list file; one cut short cannot be parsed afterwards. */
  datatype Save = Saved | CannotOpen | CutShort

  datatype State = State(memory: Option<seq<string>>, file: Option<seq<string>>, dirs: set<string>)

  function Loaded(s: State): seq<string> {
    if s.memory.Some? then s.memory.value else if s.file.Some? then s.file.value else []
  }

  function SavedList(s: State, l: seq<string>, save: Save): State {
    s.(memory := Some(l),
       file := match save case Saved => Some(l) case CannotOpen => s.file case CutShort => None)
  }

  function TouchState(s: State, name: string, evictOk: bool, save: Save): State {
    var (l, dirs) := Touched(Loaded(s), s.dirs, name, evictOk);
    SavedList(s.(dirs := dirs), l, save)
  }

  function ExistsState(s: State, name: string, evictOk: bool, save: Save): State {
    if name in s.dirs then TouchState(s, name, evictOk, save) else s
  }

  function DeleteState(s: State, name: string, removeOk: bool, save: Save): State {
    if name in s.dirs && !removeOk then s
    else SavedList(s.(dirs := s.dirs - {name}), Without(Loaded(s), name), save)
  }

  /** How the parts of a creation go. */
  datatype Creation = Creation(
    cleaned: bool, staged: bool, created: bool, evictOk: bool, save: Save, renames: seq<bool>)

  /** Whether one of the attempts to rename the staging directory works. */
  function Renamed(renames: seq<bool>): bool {
    exists k :: 0 <= k < |renames| && k <= RENAME_ATTEMPTS && renames[k]
  }

  function CreateState(s: State, name: string, c: Creation): State {
    if name in s.dirs then s
    else
      var cleaned := if c.cleaned then s.(dirs := s.dirs - {Staging(name)}) else s;
      if !c.staged then cleaned
      else
        var staged := cleaned.(dirs := cleaned.dirs + {Staging(name)});
        if !c.created then staged
        else
          var touched := TouchState(staged, name, c.evictOk, c.save);
          if Renamed(c.renames)
          then touched.(dirs := touched.dirs - {Staging(name)} + {name}) else touched
  }

  class Cache {
    var memory: Option<seq<string>>
    var file: Option<seq<string>>
    var dirs: set<string>

    function View(): State reads this { State(memory, file, dirs) }

    constructor (file: Option<seq<string>>, dirs: set<string>)
      ensures View() == State(None, file, dirs)
    {
      memory := None;
      this.file, this.dirs := file, dirs;
    }

    method LoadOrGet() returns (l: seq<string>)
      modifies this`memory
      ensures l == Loaded(old(View())) && memory == Some(l)
    {
      if memory.Some? {
        return memory.value;
      }
      l := if file.Some? then file.value else [];
      memory := Some(l);
    }

    method SaveList(l: seq<string>, save: Save)
      modifies this`memory, this`file
      ensures View() == SavedList(old(View()), l, save)
    {
      memory := Some(l);
      match save
      case Saved => file := Some(l);
      case CannotOpen =>
      case CutShort => file := None;
    }

    method RemovePosition(l: seq<string>, name: string) returns (r: seq<string>)
      ensures r == RemoveFirst(l, name)
    {
      var i := 0;
      while i < |l| && l[i] != name
        invariant i <= |l|
        invariant forall j | 0 <= j < i :: l[j] != name
      {
        i := i + 1;
      }
      ghost var p := RemovedAt(l, name);
      if i < |l| {
        r := l[..i] + l[i + 1..];
      } else {
        r := l;
      }
    }

    method Touch(name: string, evictOk: bool, save: Save)
      modifies this
      ensures View() == TouchState(old(View()), name, evictOk, save)
    {
      var l := LoadOrGet();
      l := RemovePosition(l, name);
      l := [name] + l;
      if |l| > KEEP_LRU {
        var last := l[|l| - 1];
        if last !in dirs {
          assert dirs - {last} == dirs;
          l := l[..|l| - 1];
        } else if evictOk {
          dirs := dirs - {last};
          l := l[..|l| - 1];
        }
      }
      SaveList(l, save);
    }

    method Exists(name: string, evictOk: bool, save: Save) returns (found: bool)
      modifies this
      ensures found == (name in old(dirs))
      ensures View() == ExistsState(old(View()), name, evictOk, save)
    {
      if name !in dirs {
        return false;
      }
      Touch(name, evictOk, save);
      found := true;
    }

    method Delete(name: string, removeOk: bool, save: Save) returns (ok: bool)
      modifies this
      ensures View() == DeleteState(old(View()), name, removeOk, save)
      ensures ok <==> (name in old(dirs) ==> removeOk) && save == Saved
    {
      if name in dirs {
        if !removeOk {
          return false;
        }
        dirs := dirs - {name};
      }
      assert dirs == old(dirs) - {name};
      var l := LoadOrGet();
      var kept, i := [], 0;
      while i < |l|
        invariant i <= |l|
        invariant Without(l, name) == kept + Without(l[i..], name)
      {
        if l[i] != name {
          kept := kept + [l[i]];
        }
        i := i + 1;
      }
      assert l[i..] == [] && kept == Without(l, name);
      SaveList(kept, save);
      ok := save == Saved;
    }

    method RenameStaging(name: string, renames: seq<bool>) returns (ok: bool)
      modifies this`dirs
      ensures ok == Renamed(renames)
      ensures ok <==> exists k :: 0 <= k < 21 && k < |renames| && renames[k]
      ensures dirs == if ok then old(dirs) - {Staging(name)} + {name} else old(dirs)
    {
      for attempt := 0 to RENAME_ATTEMPTS + 1
        invariant dirs == old(dirs)
        invariant forall k | 0 <= k < attempt && k < |renames| :: !renames[k]
      {
        if attempt < |renames| && renames[attempt] {
          dirs := dirs - {Staging(name)} + {name};
          return true;
        }
      }
      ok := false;
    }

    method Create(name: string, c: Creation) returns (ok: bool)
      modifies this
      ensures View() == CreateState(old(View()), name, c)
      ensures ok <==> name in old(dirs) || (c.staged && c.created && Renamed(c.renames))
    {
      if name in dirs {
        return true;
      }
      if c.cleaned {
        dirs := dirs - {Staging(name)};
      }
      if !c.staged {
        return false;
      }
      dirs := dirs + {Staging(name)};
      if !c.created {
        return false;
      }
      Touch(name, c.evictOk, c.save);
      ok := RenameStaging(name, c.renames);
    }
  }

  // ------------------------------------------------------------------ the list is an LRU list

  ghost predicate NoDuplicates(l: seq<string>) {
    forall i, j | 0 <= i < j < |l| :: l[i] != l[j]
  }

  /** The distinct names of a history, most recently touched first. */
  function Recent(history: seq<string>): seq<string> {
    if history == [] then []
    else
      var last := |history| - 1;
      [history[last]] + Without(Recent(history[..last]), history[last])
  }

  function TouchAll(history: seq<string>): seq<string> {
    if history == [] then []
    else
      var last := |history| - 1;
      Touched(TouchAll(history[..last]), {}, history[last], true).0
  }

  function Take(l: seq<string>, n: nat): seq<string> {
    if |l| <= n then l else l[..n]
  }

  lemma {:induction false} WithoutIsFilter(l: seq<string>, name: string)
    ensures name !in Without(l, name)
    ensures forall x :: x in Without(l, name) <==> x in l && x != name
    ensures |Without(l, name)| <= |l|
    ensures name !in l ==> Without(l, name) == l
  {
    if l != [] {
      WithoutIsFilter(l[1..], name);
    }
  }

  /** Where a name is removed from a list. */
  lemma {:induction false} RemovedAt(l: seq<string>, name: string) returns (p: nat)
    ensures p <= |l| && (p < |l| ==> l[p] == name) && forall i | 0 <= i < p :: l[i] != name
    ensures RemoveFirst(l, name) == if p < |l| then l[..p] + l[p + 1..] else l
  {
    if l == [] || l[0] == name {
      p := 0;
    } else {
      var k := RemovedAt(l[1..], name);
      p := k + 1;
      assert l[..p] == [l[0]] + l[1..][..k];
      if p < |l| {
        assert [l[0]] + (l[1..][..k] + l[1..][k + 1..]) == l[..p] + l[p + 1..];
      }
    }
  }

  lemma RemovingKeepsDistinct(l: seq<string>, name: string)
    requires NoDuplicates(l)
    ensures NoDuplicates(RemoveFirst(l, name)) && name !in RemoveFirst(l, name)
  {
    var p := RemovedAt(l, name);
  }

  lemma {:induction false} WithoutIsRemoveFirst(l: seq<string>, name: string)
    requires NoDuplicates(l)
    ensures Without(l, name) == RemoveFirst(l, name)
  {
    if l != [] {
      WithoutIsRemoveFirst(l[1..], name);
      WithoutIsFilter(l[1..], name);
    }
  }

  lemma {:induction false} RecentIsDistinct(history: seq<string>)
    ensures NoDuplicates(Recent(history))
    ensures forall x :: x in Recent(history) <==> x in history
  {
    if history != [] {
      var last := |history| - 1;
      var before := Recent(history[..last]);
      RecentIsDistinct(history[..last]);
      RemovingKeepsDistinct(before, history[last]);
      WithoutIsRemoveFirst(before, history[last]);
      WithoutIsFilter(before, history[last]);
      assert history == history[..last] + [history[last]];
    }
  }

  /** A name among the first five moves to the front. */
  lemma TouchInsidePrefix(all: seq<string>, name: string, p: nat)
    requires p < KEEP_LRU && p < |all| && all[p] == name && forall i | 0 <= i < p :: all[i] != name
    requires RemoveFirst(all, name) == all[..p] + all[p + 1..]
    ensures Touched(Take(all, KEEP_LRU), {}, name, true).0
         == Take([name] + RemoveFirst(all, name), KEEP_LRU)
  {
    var top := Take(all, KEEP_LRU);
    var k := RemovedAt(top, name);
    assert top[p] == name && k == p;
    var l1 := [name] + (top[..p] + top[p + 1..]);
    assert |l1| == |top| && Touched(top, {}, name, true).0 == l1;
    assert ([name] + (all[..p] + all[p + 1..]))[..|top|] == l1;
  }

  /** Any other name pushes the fifth one out. */
  lemma AbsentIsNotRemoved(l: seq<string>, name: string)
    requires name !in l
    ensures RemoveFirst(l, name) == l
  {
    var p := RemovedAt(l, name);
  }

  lemma RemovedBehind(all: seq<string>, name: string, n: nat)
    requires n <= |all| && name !in all[..n]
    ensures |RemoveFirst(all, name)| >= n - 1 && (n > 0 ==> RemoveFirst(all, name)[..n - 1] == all[..n - 1])
  {
    var p := RemovedAt(all, name);
    assert p < |all| ==> p >= n;
  }

  lemma TouchOutsidePrefix(all: seq<string>, name: string)
    requires name !in Take(all, KEEP_LRU)
    ensures Touched(Take(all, KEEP_LRU), {}, name, true).0
         == Take([name] + RemoveFirst(all, name), KEEP_LRU)
  {
    var top := Take(all, KEEP_LRU);
    AbsentIsNotRemoved(top, name);
    if |all| >= KEEP_LRU {
      RemovedBehind(all, name, KEEP_LRU);
      assert Take([name] + RemoveFirst(all, name), KEEP_LRU) == [name] + all[..KEEP_LRU - 1];
      assert ([name] + top)[..KEEP_LRU] == [name] + all[..KEEP_LRU - 1];
    }
  }

  /** Touching the first five of a list is touching the list and keeping the first five. */
  lemma TouchOfPrefix(all: seq<string>, name: string)
    ensures Touched(Take(all, KEEP_LRU), {}, name, true).0
         == Take([name] + RemoveFirst(all, name), KEEP_LRU)
  {
    var p := RemovedAt(all, name);
    if p < KEEP_LRU && p < |all| {
      TouchInsidePrefix(all, name, p);
    } else {
      TouchOutsidePrefix(all, name);
    }
  }

  /**
   * With evictions that succeed, after any touches the list is the up to five most recently
   * touched distinct names, newest first.
   */
  lemma {:induction false} ListIsMostRecent(history: seq<string>)
    ensures TouchAll(history) == Take(Recent(history), 5)
  {
    if history != [] {
      var last := |history| - 1;
      var name, all := history[last], Recent(history[..last]);
      ListIsMostRecent(history[..last]);
      RecentIsDistinct(history[..last]);
      WithoutIsRemoveFirst(all, name);
      TouchOfPrefix(all, name);
    }
  }

  // ------------------------------------------------------------------ whole runs

  datatype Step =
    | Exists(name: string, evictOk: bool, save: Save)
    | Delete(name: string, removeOk: bool, save: Save)
    | Create(name: string, creation: Creation)
    | Restart

  function Apply(s: State, a: Step): State {
    match a
    case Exists(name, evictOk, save) => ExistsState(s, name, evictOk, save)
    case Delete(name, removeOk, save) => DeleteState(s, name, removeOk, save)
    case Create(name, creation) => CreateState(s, name, creation)
    case Restart => s.(memory := None)
  }

  /** The file holds what memory holds. */
  predicate InStep(s: State) {
    s.memory.Some? ==> s.file == s.memory
  }

  /** Names are not staging names, and the process is only restarted while the file is up to date. */
  predicate Allowed(s: State, a: Step) {
    match a
    case Restart => InStep(s)
    case _ => !IsStaging(a.name)
  }

  ghost predicate Run(s: State, run: seq<Step>)
    decreases |run|
  {
    run == [] || (Allowed(s, run[0]) && Run(Apply(s, run[0]), run[1..]))
  }

  function After(s: State, run: seq<Step>): State
    decreases |run|
  {
    if run == [] then s else After(Apply(s, run[0]), run[1..])
  }

  /** Every directory that is not a staging directory is on the list, and the list is distinct. */
  ghost predicate Agrees(s: State) {
    NoDuplicates(Loaded(s)) && forall d | d in s.dirs && !IsStaging(d) :: d in Loaded(s)
  }

  lemma StagingIsStaging(name: string)
    ensures IsStaging(Staging(name))
  {
    assert Staging(name)[|name|..] == STAGING_SUFFIX;
  }

  lemma {:induction false} RemovedMembers(l: seq<string>, name: string)
    ensures forall d | d in l :: d == name || d in RemoveFirst(l, name)
    ensures forall d | d in RemoveFirst(l, name) :: d in l
    ensures |RemoveFirst(l, name)| == if name in l then |l| - 1 else |l|
  {
    if l != [] && l[0] != name {
      RemovedMembers(l[1..], name);
    }
  }

  /** A touch puts its name in front and evicts at most one other name, directory and all. */
  lemma TouchIsSafe(l: seq<string>, dirs: set<string>, name: string, evictOk: bool)
    requires NoDuplicates(l)
    ensures var (l', dirs') := Touched(l, dirs, name, evictOk);
            && NoDuplicates(l') && l' != [] && l'[0] == name
            && (name in dirs ==> name in dirs')
            && dirs' <= dirs
            && (forall d :: d in dirs' && d in l ==> d in l')
            && (forall x | x in l' :: x == name || x in l)
            && |l'| <= |l| + 1
            && (|l'| > KEEP_LRU ==> |l'| <= |l| || (EvictionDue(l, dirs, name) && !evictOk))
  {
    RemovingKeepsDistinct(l, name);
    RemovedMembers(l, name);
    EvictionIsSafe([name] + RemoveFirst(l, name), dirs, evictOk);
  }

  lemma EvictionIsSafe(l: seq<string>, dirs: set<string>, evictOk: bool)
    requires NoDuplicates(l) && l != []
    ensures var (l', dirs') := Evicted(l, dirs, evictOk);
            && NoDuplicates(l') && l' != [] && l'[0] == l[0]
            && (l[0] in dirs ==> l[0] in dirs')
            && dirs' <= dirs
            && (forall d :: d in dirs' && d in l ==> d in l')
            && (forall x | x in l' :: x in l)
            && |l'| <= |l|
            && (|l'| > KEEP_LRU ==> |l'| < |l| || (l[|l| - 1] in dirs && !evictOk))
  {
    if |l| > KEEP_LRU {
      var n := |l| - 1;
      assert l == l[..n] + [l[n]] && l[n] != l[0];
      assert forall d | d in l :: d in l[..n] || d == l[n];
      assert forall x | x in l[..n] :: x in l;
    }
  }

  lemma TouchKeepsAgreement(s: State, name: string, evictOk: bool, save: Save)
    requires Agrees(s)
    ensures Agrees(TouchState(s, name, evictOk, save))
    ensures name in Loaded(TouchState(s, name, evictOk, save))
  {
    TouchIsSafe(Loaded(s), s.dirs, name, evictOk);
  }

  lemma StepKeepsAgreement(s: State, a: Step)
    requires Agrees(s) && Allowed(s, a)
    ensures Agrees(Apply(s, a))
  {
    match a
    case Exists(name, evictOk, save) => TouchKeepsAgreement(s, name, evictOk, save);
    case Delete(name, _, _) =>
      WithoutIsFilter(Loaded(s), name);
      RemovingKeepsDistinct(Loaded(s), name);
      WithoutIsRemoveFirst(Loaded(s), name);
    case Create(name, c) =>
      StagingIsStaging(name);
      if name !in s.dirs {
        var cleaned := if c.cleaned then s.(dirs := s.dirs - {Staging(name)}) else s;
        var staged := cleaned.(dirs := cleaned.dirs + {Staging(name)});
        TouchKeepsAgreement(staged, name, c.evictOk, c.save);
      }
    case Restart =>
  }

  /** The directories at the moment a step touches its name, if it does, and how an eviction goes. */
  function TouchIn(s: State, a: Step): Option<(set<string>, bool)> {
    match a
    case Exists(name, evictOk, _) => if name in s.dirs then Some((s.dirs, evictOk)) else None
    case Create(name, c) =>
      if name !in s.dirs && c.staged && c.created
      then Some(((if c.cleaned then s.dirs - {Staging(name)} else s.dirs) + {Staging(name)}, c.evictOk))
      else None
    case _ => None
  }

  /** Whether a step has to evict a directory. */
  predicate Evicts(s: State, a: Step) {
    TouchIn(s, a).Some? && EvictionDue(Loaded(s), TouchIn(s, a).value.0, a.name)
  }

  /** 1 when the eviction of a step was due and failed. */
  function FailedEviction(s: State, a: Step): nat {
    if Evicts(s, a) && !TouchIn(s, a).value.1 then 1 else 0
  }

  function FailedEvictions(s: State, run: seq<Step>): nat
    decreases |run|
  {
    if run == [] then 0 else FailedEviction(s, run[0]) + FailedEvictions(Apply(s, run[0]), run[1..])
  }

  lemma StepBoundsList(s: State, a: Step, bound: nat)
    requires Agrees(s) && Allowed(s, a) && |Loaded(s)| <= bound && bound >= KEEP_LRU
    ensures |Loaded(Apply(s, a))| <= bound + FailedEviction(s, a)
  {
    match a
    case Exists(name, evictOk, _) => TouchIsSafe(Loaded(s), s.dirs, name, evictOk);
    case Delete(name, _, _) => WithoutIsFilter(Loaded(s), name);
    case Create(name, c) =>
      var cleaned := if c.cleaned then s.dirs - {Staging(name)} else s.dirs;
      TouchIsSafe(Loaded(s), cleaned + {Staging(name)}, name, c.evictOk);
    case Restart =>
  }

  lemma {:induction false} RunAgreesAndIsBounded(s: State, run: seq<Step>, bound: nat)
    requires Agrees(s) && Run(s, run) && |Loaded(s)| <= bound && bound >= KEEP_LRU
    ensures Agrees(After(s, run))
    ensures |Loaded(After(s, run))| <= bound + FailedEvictions(s, run)
    decreases |run|
  {
    if run != [] {
      StepKeepsAgreement(s, run[0]);
      StepBoundsList(s, run[0], bound);
      RunAgreesAndIsBounded(Apply(s, run[0]), run[1..], bound + FailedEviction(s, run[0]));
    }
  }

  lemma {:induction false} AtMostAsMany(names: set<string>, l: seq<string>)
    requires forall d | d in names :: d in l
    ensures |names| <= |l|
  {
    if l == [] {
      assert names == {};
    } else {
      AtMostAsMany(names - {l[0]}, l[1..]);
      assert names <= (names - {l[0]}) + {l[0]};
      assert |names| <= |names - {l[0]}| + 1;
    }
  }

  /**
   * Cache and disk agree in every sequential run from an empty cache, whatever fails: every
   * directory but the staging ones is on the list, and there are at most five of them, plus one
   * for every eviction that failed.
   */
  lemma DirectoriesAreListedAndBounded(run: seq<Step>)
    requires Run(State(None, None, {}), run)
    ensures var s := After(State(None, None, {}), run);
            var kept := set d | d in s.dirs && !IsStaging(d);
            && (forall d | d in kept :: d in Loaded(s))
            && |kept| <= 5 + FailedEvictions(State(None, None, {}), run)
  {
    var init := State(None, None, {});
    RunAgreesAndIsBounded(init, run, KEEP_LRU);
    var s := After(init, run);
    var kept := set d | d in s.dirs && !IsStaging(d);
    AtMostAsMany(kept, Loaded(s));
  }

  // ------------------------------------------------------------------ saves that fail

  /** How the list is saved in a step, if it comes to that. */
  function SaveOf(s: State, a: Step): Option<Save> {
    match a
    case Exists(name, _, save) => if name in s.dirs then Some(save) else None
    case Delete(name, removeOk, save) => if name in s.dirs && !removeOk then None else Some(save)
    case Create(name, c) => if name !in s.dirs && c.staged && c.created then Some(c.save) else None
    case Restart => None
  }

  /** A step makes the directory d, or removes it. */
  predicate Makes(s: State, a: Step, d: string) {
    a.Create? && a.name == d && TouchIn(s, a).Some? && Renamed(a.creation.renames)
  }

  predicate Removes(s: State, a: Step, d: string) {
    || (a.Delete? && a.name == d && a.removeOk)
    || (Evicts(s, a) && TouchIn(s, a).value.1 && d == LastAfterTouch(Loaded(s), a.name))
  }

  lemma TouchedDirs(l: seq<string>, dirs: set<string>, name: string, evictOk: bool, d: string)
    ensures d in Touched(l, dirs, name, evictOk).1 <==>
            d in dirs && !(EvictionDue(l, dirs, name) && evictOk && d == LastAfterTouch(l, name))
  {
  }

  /** What a step does to a directory that is no staging directory. */
  lemma DirsStep(s: State, a: Step, d: string)
    requires Agrees(s) && Allowed(s, a) && !IsStaging(d)
    ensures d in Apply(s, a).dirs <==> Makes(s, a, d) || (d in s.dirs && !Removes(s, a, d))
  {
    match a
    case Exists(name, evictOk, _) => TouchedDirs(Loaded(s), s.dirs, name, evictOk, d);
    case Delete(_, _, _) =>
    case Restart =>
    case Create(name, c) =>
      StagingIsStaging(name);
      var staged := (if c.cleaned then s.dirs - {Staging(name)} else s.dirs) + {Staging(name)};
      TouchedDirs(Loaded(s), staged, name, c.evictOk, d);
  }

  /** Steps of one process of which none saves the list. */
  predicate Lost(s: State, run: seq<Step>)
    decreases |run|
  {
    run == [] ||
    (!run[0].Restart? && Allowed(s, run[0]) && SaveOf(s, run[0]) != Some(Saved)
     && Lost(Apply(s, run[0]), run[1..]))
  }

  predicate CutShortIn(s: State, run: seq<Step>)
    decreases |run|
  {
    run != [] && (SaveOf(s, run[0]) == Some(CutShort) || CutShortIn(Apply(s, run[0]), run[1..]))
  }

  /**
   * Whether the steps leave a directory behind, by what each of them makes and removes; `there`
   * tells whether it was there before them.
   */
  predicate Left(s: State, run: seq<Step>, d: string, there: bool)
    decreases |run|
  {
    if run == [] then there
    else Left(Apply(s, run[0]), run[1..], d, Makes(s, run[0], d) || (there && !Removes(s, run[0], d)))
  }

  lemma {:induction false} LeftIsThere(s: State, run: seq<Step>, d: string)
    requires Agrees(s) && Run(s, run) && !IsStaging(d)
    ensures d in After(s, run).dirs <==> Left(s, run, d, d in s.dirs)
    decreases |run|
  {
    if run != [] {
      DirsStep(s, run[0], d);
      StepKeepsAgreement(s, run[0]);
      LeftIsThere(Apply(s, run[0]), run[1..], d);
    }
  }

  lemma {:induction false} LostFile(s: State, run: seq<Step>)
    requires Lost(s, run)
    ensures Run(s, run) && After(s, run).file == if CutShortIn(s, run) then None else s.file
    decreases |run|
  {
    if run != [] {
      FileStep(s, run[0]);
      LostFile(Apply(s, run[0]), run[1..]);
    }
  }

  lemma FileStep(s: State, a: Step)
    requires !a.Restart?
    ensures Apply(s, a).file == match SaveOf(s, a)
              case None => s.file
              case Some(Saved) => Some(Loaded(Apply(s, a)))
              case Some(CannotOpen) => s.file
              case Some(CutShort) => None
  {
  }

  /** A list without one name, and otherwise in the same order. */
  ghost predicate WithoutName(l: seq<string>, name: string, r: seq<string>) {
    if name !in l then r == l else exists p :: 0 <= p < |l| && l[p] == name && r == l[..p] + l[p + 1..]
  }

  /** The list after a touch, when `r` is the list before without the name. */
  ghost predicate TouchedList(r: seq<string>, dirs: set<string>, name: string, evictOk: bool, l': seq<string>) {
    if |r| < 5 || (r[|r| - 1] in dirs && !evictOk) then l' == [name] + r else l' == [name] + r[..|r| - 1]
  }

  lemma TouchList(l: seq<string>, dirs: set<string>, name: string, evictOk: bool)
    ensures WithoutName(l, name, RemoveFirst(l, name))
    ensures TouchedList(RemoveFirst(l, name), dirs, name, evictOk, Touched(l, dirs, name, evictOk).0)
  {
    RemovedName(l, name);
    EvictedList(RemoveFirst(l, name), dirs, name, evictOk);
  }

  lemma RemovedName(l: seq<string>, name: string)
    ensures WithoutName(l, name, RemoveFirst(l, name))
  {
    var p := RemovedAt(l, name);
    assert p < |l| ==> l[p] in l;
  }

  lemma EvictedList(r: seq<string>, dirs: set<string>, name: string, evictOk: bool)
    ensures TouchedList(r, dirs, name, evictOk, Evicted([name] + r, dirs, evictOk).0)
  {
    var l := [name] + r;
    if |r| > 0 {
      assert l[|l| - 1] == r[|r| - 1] && l[..|r|] == [name] + r[..|r| - 1];
    }
  }

  /**
   * What a step does to the list: a touch moves its name to the front and drops the last of more
   * than five, unless that one's directory cannot be removed; a delete takes its name out, unless
   * its directory cannot be removed; nothing else changes the list or the order of the others.
   */
  lemma ListStep(s: State, a: Step)
    requires Agrees(s) && !a.Restart?
    ensures var l, l' := Loaded(s), Loaded(Apply(s, a));
            if TouchIn(s, a).Some? then
              exists r :: WithoutName(l, a.name, r) &&
                TouchedList(r, TouchIn(s, a).value.0, a.name, TouchIn(s, a).value.1, l')
            else if a.Delete? && (a.removeOk || a.name !in s.dirs) then WithoutName(l, a.name, l')
            else l' == l
  {
    var l := Loaded(s);
    if TouchIn(s, a).Some? {
      TouchList(l, TouchIn(s, a).value.0, a.name, TouchIn(s, a).value.1);
    } else if a.Delete? {
      WithoutIsRemoveFirst(l, a.name);
      TouchList(l, s.dirs, a.name, true);
    }
  }

  /** The staging directory is there after a creation that made it and did not get it renamed. */
  lemma StagingStep(s: State, name: string, c: Creation)
    requires !IsStaging(name) && (forall x | x in Loaded(s) :: !IsStaging(x))
    ensures var staging := name + ".staging";
            staging in CreateState(s, name, c).dirs <==>
              if name in s.dirs then staging in s.dirs
              else if c.staged then !c.created || forall k | 0 <= k < 21 && k < |c.renames| :: !c.renames[k]
              else staging in s.dirs && !c.cleaned
  {
    StagingIsStaging(name);
    if name !in s.dirs && c.staged {
      var staged := (if c.cleaned then s.dirs - {Staging(name)} else s.dirs) + {Staging(name)};
      TouchedDirs(Loaded(s), staged, name, c.evictOk, Staging(name));
      RemovedMembers(Loaded(s), name);
      assert Renamed(c.renames) <==> exists k :: 0 <= k < 21 && k < |c.renames| && c.renames[k];
    }
  }

  /**
   * A process starts with its list file up to date, loses any number of saves and stops.  The next
   * one can go on from the file exactly when, of the directories that these steps leave behind,
   * every one is on the old list; and if a save was cut short, exactly when they leave none.
   */
  lemma RestartAfterLostSavesIff(s: State, run: seq<Step>)
    requires Agrees(s) && InStep(s) && Lost(s, run)
    ensures Agrees(Apply(After(s, run), Restart)) <==>
            forall d | !IsStaging(d) && Left(s, run, d, d in s.dirs) :: !CutShortIn(s, run) && d in Loaded(s)
  {
    LostFile(s, run);
    var stopped := After(s, run);
    var restarted := Apply(stopped, Restart);
    assert Loaded(restarted) == if CutShortIn(s, run) then [] else Loaded(s);
    forall d | !IsStaging(d) ensures d in stopped.dirs <==> Left(s, run, d, d in s.dirs) {
      LeftIsThere(s, run, d);
    }
  }

  /** A save that works brings the file up to date, so the above is about the steps since then. */
  lemma SaveBringsInStep(s: State, a: Step)
    requires SaveOf(s, a) == Some(Saved)
    ensures InStep(Apply(s, a))
  {
  }

  /** The directories a step leaves behind are all on the old list, which no cut-short save lost. */
  ghost predicate LeavesListed(s: State, a: Step) {
    forall d | !IsStaging(d) && (Makes(s, a, d) || (d in s.dirs && !Removes(s, a, d))) ::
      SaveOf(s, a) != Some(CutShort) && d in Loaded(s)
  }

  lemma RestartAfterLostStep(s: State, a: Step)
    requires Agrees(s) && InStep(s) && Allowed(s, a) && !a.Restart? && SaveOf(s, a) != Some(Saved)
    ensures Agrees(Apply(Apply(s, a), Restart)) <==> LeavesListed(s, a)
  {
    OneLostStep(s, a);
    RestartAfterLostSavesIff(s, [a]);
  }

  lemma RestartAfterSavedStep(s: State, a: Step)
    requires Agrees(s) && Allowed(s, a) && SaveOf(s, a) == Some(Saved)
    ensures Agrees(Apply(Apply(s, a), Restart))
  {
    StepKeepsAgreement(s, a);
    SaveBringsInStep(s, a);
    assert Loaded(Apply(Apply(s, a), Restart)) == Loaded(Apply(s, a));
  }

  lemma MakesOnlyItsName(s: State, a: Step, d: string)
    requires Makes(s, a, d)
    ensures d == a.name && SaveOf(s, a).Some?
  {
  }

  /** When a process that stops right after a step leaves the next one a file to go on from. */
  ghost predicate CanGoOn(s: State, a: Step)
    requires !a.Restart?
  {
    match SaveOf(s, a)
    case None => true
    case Some(Saved) => true
    case Some(CannotOpen) => Makes(s, a, a.name) ==> a.name in Loaded(s)
    case Some(CutShort) =>
      !Makes(s, a, a.name) && forall d | d in s.dirs :: IsStaging(d) || Removes(s, a, d)
  }

  lemma CanGoOnIffListed(s: State, a: Step)
    requires Agrees(s) && Allowed(s, a) && !a.Restart? && SaveOf(s, a) != Some(Saved)
    ensures CanGoOn(s, a) <==> LeavesListed(s, a)
  {
    forall d | Makes(s, a, d) ensures d == a.name && SaveOf(s, a).Some? {
      MakesOnlyItsName(s, a, d);
    }
  }

  /**
   * For a single step: the list was saved, or need not be; or its file could not be opened, but the
   * step made no directory whose name is not on it; or the file was cut short, but the step made no
   * directory and removed the only ones there were.
   */
  lemma RestartAfterStepIff(s: State, a: Step)
    requires Agrees(s) && InStep(s) && Allowed(s, a) && !a.Restart?
    ensures Agrees(Apply(Apply(s, a), Restart)) <==> CanGoOn(s, a)
  {
    if SaveOf(s, a) == Some(Saved) {
      RestartAfterSavedStep(s, a);
    } else {
      RestartAfterLostStep(s, a);
      CanGoOnIffListed(s, a);
    }
  }

  lemma OneLostStep(s: State, a: Step)
    requires Allowed(s, a) && !a.Restart? && SaveOf(s, a) != Some(Saved)
    ensures Lost(s, [a]) && After(s, [a]) == Apply(s, a)
    ensures CutShortIn(s, [a]) <==> SaveOf(s, a) == Some(CutShort)
    ensures forall d, there :: Left(s, [a], d, there) <==> Makes(s, a, d) || (there && !Removes(s, a, d))
  {
    var s' := Apply(s, a);
    assert [a][1..] == [] && [a][0] == a;
    assert Lost(s', []) && After(s', []) == s' && !CutShortIn(s', []);
    forall d, there ensures Left(s, [a], d, there) <==> Makes(s, a, d) || (there && !Removes(s, a, d)) {
      var after := Makes(s, a, d) || (there && !Removes(s, a, d));
      assert Left(s', [], d, after) == after;
    }
  }

  /** The first creation in an empty cache, with a list that cannot be saved, is such a case. */
  lemma LostSaveHidesDirectory(name: string)
    requires !IsStaging(name)
    ensures var s := Apply(State(None, None, {}), Create(name, Creation(true, true, true, true, CannotOpen, [true])));
            Agrees(s) && !Agrees(Apply(s, Restart))
  {
    var init := State(None, None, {});
    var a := Create(name, Creation(true, true, true, true, CannotOpen, [true]));
    assert Renamed(a.creation.renames) by { assert a.creation.renames[0]; }
    StepKeepsAgreement(init, a);
    RestartAfterStepIff(init, a);
  }
}
