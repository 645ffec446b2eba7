/**
 * Where a credential is kept: in the keyring, or in a token file once the keyring let the program
 * down; and what the next process finds there.
 *
 * C is the type of credentials; sealing turns one into a string that unsealing turns back.
 */
module Credentials {
  import opened Common
  import opened Keyring

  /** The token file.  A write cut short leaves a file whose content cannot be parsed. */
  datatype TokenFile = Absent | Present(content: Option<string>)

  datatype Disk = Disk(slots: Slots, file: TokenFile)

  /** What becomes of a write to the token file. */
  datatype Save = Saved | CannotOpen | CutShort

  datatype Backend = InKeyring | InFile

  /** The storage a process settled on, and the credential it read or stored last. */
  datatype Storage<+C> = Storage(backend: Backend, fallback: bool, lastRead: Option<C>)

  datatype Sealing<!C> = Sealing(seal: C -> string, unseal: string -> Option<C>, step: nat)

  ghost predicate Sound<C(!new)>(z: Sealing<C>) {
    z.step > 0 && forall c: C :: z.unseal(z.seal(c)) == Some(c)
  }

  function Unsealed<C>(z: Sealing<C>, content: Option<string>): Option<C> {
    if content.None? then None else z.unseal(content.value)
  }

  function FileContent(file: TokenFile): Option<string> {
    if file.Absent? then None else file.content
  }

  function SaveFile(file: TokenFile, content: Option<string>, save: Save): TokenFile {
    match save
    case Saved => Present(content)
    case CannotOpen => file
    case CutShort => Present(None)
  }

  /** The first use of the storage in a process. */
  function Opened<C>(z: Sealing<C>, disk: Disk, preferFile: bool, keyringAnswers: bool): Storage<C> {
    if !preferFile && disk.file.Absent? && keyringAnswers then
      match ReadFrom(disk.slots, {}, 0)
      case Found(sealed) => Storage(InKeyring, true, z.unseal(sealed))
      case _ => Storage(InKeyring, true, None)
    else Storage(InFile, false, Unsealed(z, FileContent(disk.file)))
  }

  /** How a keyring store goes: through, or failing after some chunks were written. */
  datatype Put = Through | FailsAfter(chunks: nat)

  predicate PutPossible<C>(z: Sealing<C>, c: C, put: Put)
    requires z.step > 0
  {
    put.FailsAfter? ==> put.chunks <= ChunkCount(|z.seal(c)|, z.step)
  }

  function StoreIn<C>(z: Sealing<C>, disk: Disk, s: Storage<C>, c: C, put: Put, save: Save)
    : (Disk, Storage<C>)
    requires z.step > 0 && PutPossible(z, c, put)
  {
    var sealed := z.seal(c);
    match s.backend
    case InFile =>
      (disk.(file := SaveFile(disk.file, Some(sealed), save)), s.(lastRead := Some(c)))
    case InKeyring =>
      match put
      case Through => (disk.(slots := Stored(disk.slots, sealed, z.step)), s.(lastRead := Some(c)))
      case FailsAfter(k) =>
        var slots := StoredTo(disk.slots, sealed, k, z.step);
        if s.fallback then
          (Disk(slots, SaveFile(disk.file, Some(sealed), save)), Storage(InFile, false, Some(c)))
        else (disk.(slots := slots), s.(lastRead := Some(c)))
  }

  /** A clear; of the keyring, whose entries in `failing` cannot be deleted, it may be in part. */
  function ClearIn<C>(disk: Disk, s: Storage<C>, failing: set<nat>, handles: nat, save: Save)
    : (Disk, Storage<C>)
  {
    match s.backend
    case InFile =>
      (disk.(file := SaveFile(disk.file, None, save)), if save == Saved then s.(lastRead := None) else s)
    case InKeyring =>
      var (slots, ok) := Cleared(disk.slots, failing, handles);
      (disk.(slots := slots), if ok then s.(lastRead := None) else s)
  }

  /** What a process meets when it has to open the storage. */
  datatype Opening = Opening(preferFile: bool, keyringAnswers: bool)

  /** The storage that a call works on: the one in use, or one that is opened by then. */
  function InUse<C>(z: Sealing<C>, disk: Disk, storage: Option<Storage<C>>, o: Opening): Storage<C> {
    match storage
    case Some(s) => s
    case None => Opened(z, disk, o.preferFile, o.keyringAnswers)
  }

  class Machine {
    var disk: Disk
  }

  class Auth<C(!new)> {
    const sealing: Sealing<C>
    const machine: Machine
    var storage: Option<Storage<C>>

    constructor (sealing: Sealing<C>, machine: Machine)
      ensures this.sealing == sealing && this.machine == machine && storage == None
    {
      this.sealing, this.machine := sealing, machine;
      storage := None;
    }

    method WithStorage(o: Opening)
      modifies this`storage
      ensures storage == Some(InUse(sealing, machine.disk, old(storage), o))
    {
      if storage.Some? {
        return;
      }
      var useFile := o.preferFile || machine.disk.file.Present? || !o.keyringAnswers;
      if !useFile {
        var read := ReadFrom(machine.disk.slots, {}, 0);
        var found := if read.Found? then sealing.unseal(read.sealed) else None;
        storage := Some(Storage(InKeyring, true, found));
      } else {
        storage := Some(Storage(InFile, false, Unsealed(sealing, FileContent(machine.disk.file))));
      }
    }

    method StoreCredentials(o: Opening, c: C, put: Put, save: Save)
      requires sealing.step > 0 && PutPossible(sealing, c, put)
      modifies this`storage, machine
      ensures storage.Some?
      ensures var used := InUse(sealing, old(machine.disk), old(storage), o);
              (machine.disk, storage.value) == StoreIn(sealing, old(machine.disk), used, c, put, save)
    {
      WithStorage(o);
      var s := storage.value;
      var sealed := sealing.seal(c);
      var ok := true;
      if s.backend == InKeyring {
        if put.Through? {
          machine.disk := machine.disk.(slots := Stored(machine.disk.slots, sealed, sealing.step));
        } else {
          machine.disk := machine.disk.(slots := StoredTo(machine.disk.slots, sealed, put.chunks, sealing.step));
          ok := false;
        }
      } else {
        machine.disk := machine.disk.(file := SaveFile(machine.disk.file, Some(sealed), save));
        ok := save == Saved;
      }
      if !ok && s.fallback && s.backend == InKeyring {
        s := s.(fallback := false, backend := InFile);
        machine.disk := machine.disk.(file := SaveFile(machine.disk.file, Some(sealed), save));
      }
      storage := Some(s.(lastRead := Some(c)));
    }

    method ClearCredentials(o: Opening, failing: set<nat>, handles: nat, save: Save)
      modifies this`storage, machine
      ensures storage.Some?
      ensures var used := InUse(sealing, old(machine.disk), old(storage), o);
              (machine.disk, storage.value) == ClearIn(old(machine.disk), used, failing, handles, save)
    {
      WithStorage(o);
      var s := storage.value;
      var ok: bool;
      if s.backend == InFile {
        machine.disk := machine.disk.(file := SaveFile(machine.disk.file, None, save));
        ok := save == Saved;
      } else {
        var (slots, done) := Cleared(machine.disk.slots, failing, handles);
        machine.disk := machine.disk.(slots := slots);
        ok := done;
      }
      if ok {
        storage := Some(s.(lastRead := None));
      }
    }

    method GetCurrentCredential(o: Opening) returns (c: Option<C>)
      modifies this`storage
      ensures storage == Some(InUse(sealing, machine.disk, old(storage), o)) && c == storage.value.lastRead
    {
      WithStorage(o);
      c := storage.value.lastRead;
    }
  }

  // ------------------------------------------------------------------ runs over many processes

  /** The last store or clear: one that can be read back by others, or one only its process knows of. */
  datatype Last<+C> = Has(c: C) | Lost(c: C) | Empty | Unknown

  datatype World<+C> = World(disk: Disk, storage: Option<Storage<C>>, last: Last<C>)

  datatype Step<+C> =
    | Restart
    | Get(open: Opening)
    | Store(open: Opening, c: C, put: Put, save: Save)
    | Clear(open: Opening, failing: set<nat>, handles: nat, save: Save)

  ghost predicate Enabled<C>(z: Sealing<C>, a: Step<C>) {
    a.Store? ==> z.step > 0 && PutPossible(z, a.c, a.put)
  }

  /** A store reaches the keyring, or the file, from where it can be read back. */
  ghost predicate Reaches<C>(z: Sealing<C>, s: Storage<C>, c: C, put: Put, save: Save)
    requires z.step > 0
  {
    if s.backend == InKeyring && put.Through? then ReadsBack(z.seal(c), z.step) else save == Saved
  }

  /** A clear goes through. */
  predicate Clears<C>(disk: Disk, s: Storage<C>, failing: set<nat>, handles: nat, save: Save) {
    if s.backend == InFile then save == Saved else Cleared(disk.slots, failing, handles).1
  }

  ghost function Apply<C>(z: Sealing<C>, w: World<C>, a: Step<C>): World<C>
    requires Enabled(z, a)
  {
    match a
    case Restart => World(w.disk, None, if w.last.Lost? then Unknown else w.last)
    case Get(o) => w.(storage := Some(InUse(z, w.disk, w.storage, o)))
    case Store(o, c, put, save) =>
      var s := InUse(z, w.disk, w.storage, o);
      var (disk, s') := StoreIn(z, w.disk, s, c, put, save);
      World(disk, Some(s'), if Reaches(z, s, c, put, save) then Has(c) else Lost(c))
    case Clear(o, failing, handles, save) =>
      var s := InUse(z, w.disk, w.storage, o);
      var (disk, s') := ClearIn(w.disk, s, failing, handles, save);
      World(disk, Some(s'), if Clears(w.disk, s, failing, handles, save) then Empty
                            else if w.last.Has? then Lost(w.last.c) else w.last)
  }

  ghost predicate Run<C>(z: Sealing<C>, w: World<C>, run: seq<Step<C>>)
    decreases |run|
  {
    run == [] || (Enabled(z, run[0]) && Run(z, Apply(z, w, run[0]), run[1..]))
  }

  ghost function After<C>(z: Sealing<C>, w: World<C>, run: seq<Step<C>>): World<C>
    requires Run(z, w, run)
    decreases |run|
  {
    if run == [] then w else After(z, Apply(z, w, run[0]), run[1..])
  }

  /** A credential is in the file, or in the keyring with no file to hide it. */
  ghost predicate Kept<C(!new)>(z: Sealing<C>, disk: Disk, last: Last<C>)
    requires z.step > 0
  {
    match last
    case Has(c) =>
      || disk.file == Present(Some(z.seal(c)))
      || (disk.file.Absent? && ReadFrom(disk.slots, {}, 0) == Found(z.seal(c)))
    case Empty => FileContent(disk.file) == None && (disk.file.Absent? ==> 0 !in disk.slots)
    case _ => true
  }

  ghost predicate Inv<C(!new)>(z: Sealing<C>, w: World<C>) {
    && Sound(z)
    && Kept(z, w.disk, w.last)
    && (w.storage.Some? && w.storage.value.backend == InKeyring ==>
          w.disk.file.Absent? && w.storage.value.fallback)
    && (w.last.Lost? ==> w.storage.Some?)
  }

  lemma StoreKeepsInv<C(!new)>(z: Sealing<C>, w: World<C>, a: Step<C>)
    requires Inv(z, w) && Enabled(z, a) && a.Store?
    ensures Inv(z, Apply(z, w, a))
  {
    StoreThenRead(w.disk.slots, z.seal(a.c), z.step);
  }

  lemma ClearKeepsInv<C(!new)>(z: Sealing<C>, w: World<C>, a: Step<C>)
    requires Inv(z, w) && Enabled(z, a) && a.Clear?
    ensures Inv(z, Apply(z, w, a))
  {
    ClearedReadsNothing(w.disk.slots, a.failing, a.handles);
  }

  lemma StepKeepsInv<C(!new)>(z: Sealing<C>, w: World<C>, a: Step<C>)
    requires Inv(z, w) && Enabled(z, a)
    ensures Inv(z, Apply(z, w, a))
  {
    match a
    case Store(_, _, _, _) => StoreKeepsInv(z, w, a);
    case Clear(_, _, _, _) => ClearKeepsInv(z, w, a);
    case _ =>
  }

  lemma {:induction false} RunKeepsInv<C(!new)>(z: Sealing<C>, w: World<C>, run: seq<Step<C>>)
    requires Inv(z, w) && Run(z, w, run)
    ensures Inv(z, After(z, w, run))
    decreases |run|
  {
    if run != [] {
      StepKeepsInv(z, w, run[0]);
      RunKeepsInv(z, Apply(z, w, run[0]), run[1..]);
    }
  }

  ghost function Start<C>(disk: Disk): World<C> { World(disk, None, Unknown) }

  /**
   * Durable read-your-writes, over any run of stores, clears and restarts from any disk: when the
   * last store reached its destination, a fresh process reads that credential exactly when the
   * token file exists by then, or nothing keeps the process from reading the keyring; after a
   * clear that went through, a fresh process reads nothing.
   */
  lemma FreshProcessReadsLastStore<C(!new)>(z: Sealing<C>, disk: Disk, run: seq<Step<C>>, o: Opening)
    requires Sound(z) && Run(z, Start(disk), run)
    ensures var w := After(z, Start(disk), run);
            var restarted := Apply(z, w, Restart);
            var found := InUse(z, restarted.disk, restarted.storage, o).lastRead;
            && restarted.disk == w.disk && !restarted.last.Lost?
            && (w.last.Has? ==>
                  (found == Some(w.last.c) <==>
                   w.disk.file.Present? || (!o.preferFile && o.keyringAnswers)))
            && (w.last.Empty? ==> found == None)
  {
    RunKeepsInv(z, Start(disk), run);
  }

  /** Nothing keeps the process from the keyring when it opens the storage, if it does. */
  ghost predicate Unhindered<C>(w: World<C>, a: Step<C>) {
    a.Restart? || w.storage.Some? || w.disk.file.Present? || (!a.open.preferFile && a.open.keyringAnswers)
  }

  ghost predicate UnhinderedRun<C>(z: Sealing<C>, w: World<C>, run: seq<Step<C>>)
    requires Run(z, w, run)
    decreases |run|
  {
    run == [] || (Unhindered(w, run[0]) && UnhinderedRun(z, Apply(z, w, run[0]), run[1..]))
  }

  /** The process knows the credential that was stored last, wherever that got to. */
  ghost predicate Current<C>(last: Last<C>, lastRead: Option<C>) {
    match last
    case Has(c) => lastRead == Some(c)
    case Lost(c) => lastRead == Some(c)
    case Empty => lastRead == None
    case Unknown => true
  }

  lemma OpensCurrent<C(!new)>(z: Sealing<C>, w: World<C>, a: Step<C>)
    requires Inv(z, w) && !a.Restart? && Unhindered(w, a)
    requires w.storage.Some? ==> Current(w.last, w.storage.value.lastRead)
    ensures Current(w.last, InUse(z, w.disk, w.storage, a.open).lastRead)
  {
  }

  lemma StepKeepsCurrent<C(!new)>(z: Sealing<C>, w: World<C>, a: Step<C>)
    requires Inv(z, w) && Enabled(z, a) && Unhindered(w, a)
    requires w.storage.Some? ==> Current(w.last, w.storage.value.lastRead)
    ensures var w' := Apply(z, w, a); w'.storage.Some? ==> Current(w'.last, w'.storage.value.lastRead)
  {
    if !a.Restart? {
      OpensCurrent(z, w, a);
    }
  }

  lemma {:induction false} RunKeepsCurrent<C(!new)>(z: Sealing<C>, w: World<C>, run: seq<Step<C>>)
    requires Inv(z, w) && Run(z, w, run) && UnhinderedRun(z, w, run)
    requires w.storage.Some? ==> Current(w.last, w.storage.value.lastRead)
    ensures var w' := After(z, w, run); w'.storage.Some? ==> Current(w'.last, w'.storage.value.lastRead)
    decreases |run|
  {
    if run != [] {
      StepKeepsInv(z, w, run[0]);
      StepKeepsCurrent(z, w, run[0]);
      RunKeepsCurrent(z, Apply(z, w, run[0]), run[1..]);
    }
  }

  /**
   * What `get_current_credential` yields, in a process that has used its storage before or has not:
   * over any run in which nothing keeps a process that opens the storage from the keyring, the
   * credential of the last store, whether or not that reached its destination, as long as its
   * process lives, and afterwards if it did; and none after a clear that went through.
   */
  lemma CurrentIsLastStored<C(!new)>(z: Sealing<C>, disk: Disk, run: seq<Step<C>>, o: Opening)
    requires Sound(z) && Run(z, Start(disk), run) && UnhinderedRun(z, Start(disk), run)
    requires Unhindered(After(z, Start(disk), run), Get(o))
    ensures var w := After(z, Start(disk), run);
            Current(w.last, InUse(z, w.disk, w.storage, o).lastRead)
  {
    RunKeepsInv(z, Start(disk), run);
    RunKeepsCurrent(z, Start(disk), run);
    OpensCurrent(z, After(z, Start(disk), run), Get(o));
  }

  /** Once the token file exists it stays, and nothing reads or writes the keyring any more. */
  lemma {:induction false} FileHidesKeyring<C(!new)>(z: Sealing<C>, w: World<C>, run: seq<Step<C>>)
    requires Inv(z, w) && Run(z, w, run) && w.disk.file.Present?
    ensures var w' := After(z, w, run);
            && w'.disk.file.Present? && w'.disk.slots == w.disk.slots
            && forall slots: Slots, preferFile, answers ::
                 Opened(z, w'.disk.(slots := slots), preferFile, answers)
                 == Opened(z, w'.disk, preferFile, answers)
    decreases |run|
  {
    if run != [] {
      StepKeepsInv(z, w, run[0]);
      FileHidesKeyring(z, Apply(z, w, run[0]), run[1..]);
    }
  }

  // ------------------------------------------------------------------ keyring or file

  /** What a fresh process works on, and what it finds there. */
  lemma OpensKeyringIff<C>(z: Sealing<C>, disk: Disk, preferFile: bool, keyringAnswers: bool)
    ensures var s := Opened(z, disk, preferFile, keyringAnswers);
            && (s.backend == InKeyring <==> !preferFile && disk.file == Absent && keyringAnswers)
            && (s.backend == InFile <==> preferFile || disk.file != Absent || !keyringAnswers)
            && (s.fallback <==> s.backend == InKeyring)
            && (forall sealed :: s.backend == InKeyring && ReadFrom(disk.slots, {}, 0) == Found(sealed) ==>
                  s.lastRead == z.unseal(sealed))
            && (s.backend == InKeyring && 0 !in disk.slots ==> s.lastRead == None)
            && (s.backend == InFile && disk.file == Absent ==> s.lastRead == None)
            && (forall sealed :: disk.file == Present(Some(sealed)) ==> s.lastRead == z.unseal(sealed))
  {
  }

  /**
   * What a store does, wherever the storage is: the credential is remembered in any case; the keyring
   * has the chunks that were written, and otherwise what it had; and the file is written exactly by a
   * storage on it, or one that falls back on it and stays there.
   */
  lemma StoreEffects<C>(z: Sealing<C>, disk: Disk, s: Storage<C>, c: C, put: Put, save: Save, j: nat)
    requires z.step > 0 && PutPossible(z, c, put)
    ensures var sealed := z.seal(c);
            var (disk', s') := StoreIn(z, disk, s, c, put, save);
            var chunks := if s.backend == InFile then 0
                          else if put.Through? then ChunkCount(|sealed|, z.step) else put.chunks;
            var falls := s.backend == InKeyring && put.FailsAfter? && s.fallback;
            && s'.lastRead == Some(c)
            && (s'.backend == InFile <==> s.backend == InFile || falls)
            && disk'.file == (if s.backend == InFile || falls then
                                match save
                                case Saved => Present(Some(sealed))
                                case CannotOpen => disk.file
                                case CutShort => Present(None)
                              else disk.file)
            && (if j < chunks then
                  j * z.step < |sealed| && j in disk'.slots && disk'.slots[j] == Chunk(sealed, j * z.step, z.step)
                else (j in disk'.slots <==> j in disk.slots) && (j in disk.slots ==> disk'.slots[j] == disk.slots[j]))
  {
    if s.backend == InKeyring {
      var k := if put.Through? then ChunkCount(|z.seal(c)|, z.step) else put.chunks;
      SlotOfPrefix(disk.slots, z.seal(c), k, z.step, j);
    }
  }

  /**
   * Which store can be read back: one that goes into the keyring with a length that is no multiple of
   * the step and without the marker at its end; or one that gets into the file, at once or after the
   * keyring failed.
   */
  lemma StoreReachesIff<C>(z: Sealing<C>, w: World<C>, a: Step<C>)
    requires Enabled(z, a) && a.Store?
    ensures var s, sealed := InUse(z, w.disk, w.storage, a.open), z.seal(a.c);
            var inKeyring := s.backend == InKeyring && a.put.Through?;
            Apply(z, w, a).last ==
              if inKeyring && |sealed| % z.step != 0 && !EndsWithMarker(sealed[Cut(sealed, z.step)..]) then Has(a.c)
              else if !inKeyring && a.save == Saved then Has(a.c) else Lost(a.c)
  {
  }

  /** Whether the call works on the file, for want of a keyring when the process began to use it. */
  predicate WorksOnFile<C>(w: World<C>, o: Opening) {
    match w.storage
    case Some(s) => s.backend == InFile
    case None => o.preferFile || !o.keyringAnswers
  }

  /** The steps that bring the token file about, where there is none. */
  predicate MakesFile<C>(w: World<C>, a: Step<C>) {
    match a
    case Restart => false
    case Get(_) => false
    case Store(o, _, put, save) => save != CannotOpen && (WorksOnFile(w, o) || put.FailsAfter?)
    case Clear(o, _, _, save) => save != CannotOpen && WorksOnFile(w, o)
  }

  lemma StepMakesFileIff<C(!new)>(z: Sealing<C>, w: World<C>, a: Step<C>)
    requires Inv(z, w) && Enabled(z, a) && w.disk.file.Absent?
    ensures Apply(z, w, a).disk.file.Present? <==> MakesFile(w, a)
  {
  }

  ghost predicate SomeStepMakesFile<C>(z: Sealing<C>, w: World<C>, run: seq<Step<C>>)
    requires Run(z, w, run)
    decreases |run|
  {
    run != [] && (MakesFile(w, run[0]) || SomeStepMakesFile(z, Apply(z, w, run[0]), run[1..]))
  }

  /**
   * Over any run: a token file is there in the end exactly when some step of a process that worked
   * on the file, or whose keyring store failed, wrote it.
   */
  lemma {:induction false} FileIsThereIff<C(!new)>(z: Sealing<C>, w: World<C>, run: seq<Step<C>>)
    requires Inv(z, w) && Run(z, w, run) && w.disk.file.Absent?
    ensures After(z, w, run).disk.file.Present? <==> SomeStepMakesFile(z, w, run)
    decreases |run|
  {
    if run != [] {
      var w1 := Apply(z, w, run[0]);
      StepKeepsInv(z, w, run[0]);
      StepMakesFileIff(z, w, run[0]);
      if w1.disk.file.Absent? {
        FileIsThereIff(z, w1, run[1..]);
      } else {
        FileHidesKeyring(z, w1, run[1..]);
      }
    }
  }

  ghost predicate KeyringWorks<C>(run: seq<Step<C>>) {
    forall a | a in run ::
      (a.Store? ==> a.put.Through?) && (!a.Restart? ==> !a.open.preferFile && a.open.keyringAnswers)
  }

  lemma {:induction false} NeverOnFile<C(!new)>(z: Sealing<C>, w: World<C>, run: seq<Step<C>>)
    requires Inv(z, w) && Run(z, w, run) && w.disk.file.Absent? && KeyringWorks(run)
    requires w.storage.Some? ==> w.storage.value.backend == InKeyring
    ensures var w' := After(z, w, run);
            w'.disk.file.Absent? && (w'.storage.Some? ==> w'.storage.value.backend == InKeyring)
    decreases |run|
  {
    if run != [] {
      assert run[0] in run;
      StepKeepsInv(z, w, run[0]);
      StepMakesFileIff(z, w, run[0]);
      NeverOnFile(z, Apply(z, w, run[0]), run[1..]);
    }
  }

  /**
   * Where a keyring answers and takes what is stored, every process works on it from the first
   * login on: no token file ever comes about, and the credential of the last store, when it can be
   * read back, is in the keyring.
   */
  lemma WorkingKeyringIsUsed<C(!new)>(z: Sealing<C>, slots: Slots, run: seq<Step<C>>)
    requires Sound(z) && Run(z, Start(Disk(slots, Absent)), run) && KeyringWorks(run)
    ensures var w := After(z, Start(Disk(slots, Absent)), run);
            && w.disk.file == Absent
            && (w.storage.Some? ==> w.storage.value.backend == InKeyring)
            && (w.last.Has? ==> ReadFrom(w.disk.slots, {}, 0) == Found(z.seal(w.last.c)))
            && (w.last.Empty? ==> 0 !in w.disk.slots)
  {
    RunKeepsInv(z, Start(Disk(slots, Absent)), run);
    NeverOnFile(z, Start(Disk(slots, Absent)), run);
  }
}
