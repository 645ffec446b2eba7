/**
 * Credentials in the system keyring, cut into chunks that fit one entry.  Every chunk but the last
 * carries a marker at its end that tells the reader to go on with the next entry.
 *
 * A sealed credential is a string of one-byte characters here, so that lengths are byte lengths.
 */
module Keyring {
  import opened Common

  const CONTINUE_MARKER: string := "<MORE>"

  /** The entries of the keyring, by number. */
  type Slots = map<nat, string>

  datatype ReadResult = Found(sealed: string) | Missing | Broken

  predicate EndsWithMarker(s: string) {
    |s| >= |CONTINUE_MARKER| && s[|s| - |CONTINUE_MARKER|..] == CONTINUE_MARKER
  }

  function WithoutMarker(s: string): string
    requires EndsWithMarker(s)
  {
    s[..|s| - |CONTINUE_MARKER|]
  }

  /** The chunk that starts at offset i. */
  function Chunk(sealed: string, i: nat, step: nat): string
    requires i < |sealed|
  {
    if i + step <= |sealed| then sealed[i..i + step] + CONTINUE_MARKER else sealed[i..]
  }

  /** The number of chunks of a sealed string. */
  function ChunkCount(size: nat, step: nat): nat
    requires step > 0
  {
    (size + step - 1) / step
  }

  /** The keyring after writing the first k chunks over what was there. */
  function StoredTo(slots: Slots, sealed: string, k: nat, step: nat): Slots
    requires step > 0 && k <= ChunkCount(|sealed|, step)
  {
    if k == 0 then slots
    else
      CountBounds(|sealed|, step, k - 1);
      StoredTo(slots, sealed, k - 1, step)[k - 1 := Chunk(sealed, (k - 1) * step, step)]
  }

  /** The keyring after writing all chunks. */
  function Stored(slots: Slots, sealed: string, step: nat): Slots
    requires step > 0
  {
    StoredTo(slots, sealed, ChunkCount(|sealed|, step), step)
  }

  /** Chunk j starts inside the string exactly when there is a chunk j. */
  lemma CountBounds(size: nat, step: nat, j: nat)
    requires step > 0
    ensures j < ChunkCount(size, step) <==> j * step < size
  {
    var c := ChunkCount(size, step);
    assert c * step <= size + step - 1 < c * step + step;
    if j < c {
      MulMonotone(j + 1, c, step);
      assert (j + 1) * step == j * step + step;
    } else {
      MulMonotone(c, j, step);
    }
  }

  lemma MulMonotone(a: nat, b: nat, c: nat)
    requires a <= b
    ensures a * c <= b * c
  {
  }

  function From(slots: Slots, n: nat): set<nat> {
    set i | i in slots.Keys && i >= n
  }

  lemma FromShrinks(slots: Slots, n: nat)
    requires n in slots
    ensures From(slots, n + 1) < From(slots, n)
  {
    assert n in From(slots, n) && n !in From(slots, n + 1);
    assert forall i | i in From(slots, n + 1) :: i in From(slots, n);
  }

  /** What reading from the n-th entry on yields; reading an entry in `failing` is an error. */
  function ReadFrom(slots: Slots, failing: set<nat>, n: nat): ReadResult
    decreases From(slots, n)
  {
    if n in failing then Broken
    else if n !in slots then Missing
    else if EndsWithMarker(slots[n]) then
      FromShrinks(slots, n);
      match ReadFrom(slots, failing, n + 1)
      case Found(rest) => Found(WithoutMarker(slots[n]) + rest)
      case Missing => Missing
      case Broken => Broken
    else Found(slots[n])
  }

  /** How many entries a read from the n-th one on has opened when it ends. */
  function EntriesOpened(slots: Slots, failing: set<nat>, n: nat): nat
    decreases From(slots, n)
  {
    if n in failing || n !in slots || !EndsWithMarker(slots[n]) then n + 1
    else
      FromShrinks(slots, n);
      EntriesOpened(slots, failing, n + 1)
  }

  /** What is left after deleting the first n entries. */
  function Behind(slots: Slots, n: nat): Slots { map j | j in slots && j >= n :: slots[j] }

  /** The first of the entries from n up to `tried` that is missing or cannot be deleted. */
  function FirstKept(slots: Slots, failing: set<nat>, tried: nat, n: nat): (k: nat)
    requires n <= tried
    ensures n <= k <= tried
    ensures forall j | n <= j < k :: j in slots && j !in failing
    ensures k < tried ==> k !in slots || k in failing
    decreases tried - n
  {
    if n == tried || n !in slots || n in failing then n else FirstKept(slots, failing, tried, n + 1)
  }

  /** What a clear leaves in the keyring, and whether it goes through. */
  function Cleared(slots: Slots, failing: set<nat>, handles: nat): (Slots, bool) {
    var tried := Max(handles, EntriesOpened(slots, failing, 0));
    var n := FirstKept(slots, failing, tried, 0);
    (Behind(slots, n), n == tried)
  }

  /** One chunk more. */
  lemma StoredNext(slots: Slots, sealed: string, k: nat, step: nat)
    requires step > 0 && k < ChunkCount(|sealed|, step)
    ensures k * step < |sealed| && (k + 1) * step == k * step + step
    ensures (k + 1) * step < |sealed| <==> k + 1 < ChunkCount(|sealed|, step)
    ensures StoredTo(slots, sealed, k + 1, step) ==
            StoredTo(slots, sealed, k, step)[k := Chunk(sealed, k * step, step)]
  {
    CountBounds(|sealed|, step, k);
    CountBounds(|sealed|, step, k + 1);
  }

  predicate NoneFails(failing: set<nat>, n: nat) {
    forall j: nat | j < n :: j !in failing
  }

  /** A store that came to its first failing entry, k, after writing those before it. */
  ghost predicate StoppedAt(
    before: Slots, after: Slots, failing: set<nat>, sealed: string, k: nat, step: nat)
    requires step > 0
  {
    && k < ChunkCount(|sealed|, step) && k in failing && NoneFails(failing, k)
    && after == StoredTo(before, sealed, k, step)
  }

  // ------------------------------------------------------------------ the storage

  class KeyringService {
    var slots: Slots
    var failing: set<nat>       // entries that cannot be accessed
  }

  class KeyringStorage {
    const limit: nat            // KEYCHAIN_ENTRY_LIMIT
    const service: KeyringService
    var handles: nat            // entry handles opened so far: those of entries 0 to handles - 1

    constructor (limit: nat, service: KeyringService)
      requires limit > |CONTINUE_MARKER|
      ensures this.limit == limit && this.service == service && handles == 0
    {
      this.limit, this.service := limit, service;
      handles := 0;
    }

    method GetNextEntry(i: nat) returns (entry: nat)
      requires i <= handles
      modifies this`handles
      ensures entry == i && handles == if old(handles) == i then i + 1 else old(handles)
    {
      if i == handles {
        handles := handles + 1;
      }
      entry := i;
    }

    method Read() returns (r: ReadResult)
      modifies this`handles
      ensures r == ReadFrom(service.slots, service.failing, 0)
      ensures handles == Max(old(handles), EntriesOpened(service.slots, service.failing, 0))
    {
      var str, i := "", 0;
      while true
        invariant handles == Max(old(handles), i)
        invariant EntriesOpened(service.slots, service.failing, 0) == EntriesOpened(service.slots, service.failing, i)
        invariant ReadFrom(service.slots, service.failing, 0) ==
                  match ReadFrom(service.slots, service.failing, i)
                  case Found(rest) => Found(str + rest)
                  case Missing => Missing
                  case Broken => Broken
        decreases From(service.slots, i)
      {
        var entry := GetNextEntry(i);
        if entry in service.failing {
          return Broken;
        }
        if entry !in service.slots {
          return Missing;
        }
        var nextChunk := service.slots[entry];
        if EndsWithMarker(nextChunk) {
          FromShrinks(service.slots, i);
          ghost var rest := ReadFrom(service.slots, service.failing, i + 1);
          assert rest.Found? ==>
                   str + (WithoutMarker(nextChunk) + rest.sealed) == (str + WithoutMarker(nextChunk)) + rest.sealed;
          str := str + WithoutMarker(nextChunk);
          i := i + 1;
        } else {
          return Found(str + nextChunk);
        }
      }
    }

    /** Writes chunk after chunk; at the first entry that fails it stops, with the others written. */
    method Store(sealed: string) returns (ok: bool)
      requires limit > |CONTINUE_MARKER|
      modifies this`handles, service`slots
      ensures var step := limit - |CONTINUE_MARKER|;
              && (ok <==> NoneFails(service.failing, ChunkCount(|sealed|, step)))
              && if ok then service.slots == Stored(old(service.slots), sealed, step)
                 else exists k: nat ::
                   StoppedAt(old(service.slots), service.slots, service.failing, sealed, k, step)
                   && handles == Max(old(handles), k + 1)
      ensures ok ==> handles == Max(old(handles), ChunkCount(|sealed|, limit - |CONTINUE_MARKER|))
    {
      var step := limit - |CONTINUE_MARKER|;
      var n, i := 0, 0;
      ghost var before, count := service.slots, ChunkCount(|sealed|, step);
      CountBounds(|sealed|, step, 0);
      while i < |sealed|
        invariant handles == Max(old(handles), n) && i == n * step
        invariant n <= count && (i < |sealed| <==> n < count)
        invariant NoneFails(service.failing, n)
        invariant service.slots == StoredTo(before, sealed, n, step)
        decreases count - n
      {
        var entry := GetNextEntry(n);
        var cutoff := i + step;
        if entry in service.failing {
          assert StoppedAt(before, service.slots, service.failing, sealed, n, step);
          return false;
        }
        var stored := sealed[i..];
        if cutoff <= |sealed| {
          var part := sealed[i..cutoff];
          part := part + CONTINUE_MARKER;
          stored := part;
        }
        StoredNext(before, sealed, n, step);
        service.slots := service.slots[entry := stored];
        n, i := n + 1, i + step;
      }
      return true;
    }

    /**
     * Deletes the entries that have a handle, after a read that opens those of the credential; it
     * stops with an error at the first that is missing or cannot be deleted.
     */
    method Clear() returns (ok: bool)
      modifies this`handles, service`slots
      ensures (service.slots, ok) == Cleared(old(service.slots), service.failing, old(handles))
      ensures var tried := Max(old(handles), EntriesOpened(old(service.slots), service.failing, 0));
              && (ok <==> Deletable(old(service.slots), service.failing, tried))
              && (ok ==> service.slots == Behind(old(service.slots), tried) && handles == 0)
              && (!ok ==> handles == tried && exists n: nat ::
                    n < tried && (n !in old(service.slots) || n in service.failing)
                    && Deletable(old(service.slots), service.failing, n)
                    && service.slots == Behind(old(service.slots), n))
    {
      var _ := Read();
      ghost var tried := handles;
      var n := 0;
      while n < handles
        invariant n <= handles == tried
        invariant service.slots == Behind(old(service.slots), n)
        invariant Deletable(old(service.slots), service.failing, n)
        invariant FirstKept(old(service.slots), service.failing, tried, 0)
               == FirstKept(old(service.slots), service.failing, tried, n)
      {
        if n !in service.slots || n in service.failing {
          return false;
        }
        service.slots := service.slots - {n};
        assert service.slots == Behind(old(service.slots), n + 1);
        n := n + 1;
      }
      handles := 0;
      ok := true;
    }
  }

  /** The first n entries are there and can be deleted. */
  predicate Deletable(slots: Slots, failing: set<nat>, n: nat) {
    forall j: nat | j < n :: j in slots && j !in failing
  }

  // ------------------------------------------------------------------ reading back

  function Prepend(s: string, r: ReadResult): ReadResult {
    match r
    case Found(rest) => Found(s + rest)
    case Missing => Missing
    case Broken => Broken
  }

  lemma {:induction false} SlotOfPrefix(slots: Slots, sealed: string, k: nat, step: nat, j: nat)
    requires step > 0 && k <= ChunkCount(|sealed|, step)
    ensures var after := StoredTo(slots, sealed, k, step);
            if j < k then j * step < |sealed| && j in after && after[j] == Chunk(sealed, j * step, step)
            else (j in after <==> j in slots) && (j in slots ==> after[j] == slots[j])
  {
    if k > 0 {
      CountBounds(|sealed|, step, j);
      SlotOfPrefix(slots, sealed, k - 1, step, j);
    }
  }

  lemma ChunkFits(sealed: string, i: nat, step: nat)
    requires i < |sealed| && step > 0
    ensures 0 < |Chunk(sealed, i, step)| <= step + |CONTINUE_MARKER|
  {
  }

  /** The entries a store writes are not empty and fit the limit; the others stay as they are. */
  lemma ChunksFit(slots: Slots, sealed: string, step: nat, j: nat)
    requires step > 0
    ensures var after := Stored(slots, sealed, step);
            if j < ChunkCount(|sealed|, step)
            then j in after && 0 < |after[j]| <= step + 6
            else (j in after <==> j in slots) && (j in slots ==> after[j] == slots[j])
  {
    var count := ChunkCount(|sealed|, step);
    SlotOfPrefix(slots, sealed, count, step, j);
    if j < count {
      var i := j * step;
      ChunkFits(sealed, i, step);
    }
  }

  // ------------------------------------------------------------------ what a read comes to

  predicate Continued(entry: string) { |entry| >= 6 && entry[|entry| - 6..] == "<MORE>" }

  /** Entry k is the first that cannot be accessed, is missing, or is not continued. */
  ghost predicate StopsAt(slots: Slots, failing: set<nat>, n: nat, k: nat) {
    && n <= k && (forall j | n <= j < k :: j !in failing && j in slots && Continued(slots[j]))
    && (k in failing || k !in slots || !Continued(slots[k]))
  }

  /** The entries from n to k without the markers between them. */
  function Strung(slots: Slots, n: nat, k: nat): string
    requires n <= k && k in slots && forall j | n <= j < k :: j in slots && Continued(slots[j])
    decreases k - n
  {
    if n == k then slots[k]
    else
      assert Continued(slots[n]);
      slots[n][..|slots[n]| - 6] + Strung(slots, n + 1, k)
  }

  /**
   * A read ends at the first entry that cannot be accessed, with an error; that is missing, with
   * nothing; or that is not continued, with all entries up to it put together.
   */
  lemma {:induction false} ReadStops(slots: Slots, failing: set<nat>, n: nat) returns (k: nat)
    ensures StopsAt(slots, failing, n, k) && EntriesOpened(slots, failing, n) == k + 1
    ensures ReadFrom(slots, failing, n) ==
            if k in failing then Broken else if k !in slots then Missing else Found(Strung(slots, n, k))
    decreases From(slots, n)
  {
    k := n;
    if n !in failing && n in slots && EndsWithMarker(slots[n]) {
      FromShrinks(slots, n);
      k := ReadStops(slots, failing, n + 1);
    }
  }

  /** Reading past the stored chunks only sees what was there before. */
  lemma {:induction false} ReadPastEnd(slots: Slots, sealed: string, step: nat, n: nat)
    requires step > 0 && n >= ChunkCount(|sealed|, step)
    ensures ReadFrom(Stored(slots, sealed, step), {}, n) == ReadFrom(slots, {}, n)
    decreases From(slots, n)
  {
    SlotOfPrefix(slots, sealed, ChunkCount(|sealed|, step), step, n);
    if n in slots && EndsWithMarker(slots[n]) {
      FromShrinks(slots, n);
      ReadPastEnd(slots, sealed, step, n + 1);
    }
  }

  lemma MarkedChunk(part: string)
    ensures EndsWithMarker(part + CONTINUE_MARKER) && WithoutMarker(part + CONTINUE_MARKER) == part
  {
    assert (part + CONTINUE_MARKER)[|part|..] == CONTINUE_MARKER;
    assert (part + CONTINUE_MARKER)[..|part|] == part;
  }

  lemma PrependTwice(a: string, b: string, r: ReadResult)
    ensures Prepend(a, Prepend(b, r)) == Prepend(a + b, r)
  {
    assert r.Found? ==> a + (b + r.sealed) == (a + b) + r.sealed;
  }

  /** One full chunk. */
  lemma ReadFullChunk(slots: Slots, sealed: string, step: nat, n: nat)
    requires step > 0 && n * step + step <= |sealed|
    ensures var after := Stored(slots, sealed, step);
            ReadFrom(after, {}, n) == Prepend(sealed[n * step..n * step + step], ReadFrom(after, {}, n + 1))
  {
    CountBounds(|sealed|, step, n);
    SlotOfPrefix(slots, sealed, ChunkCount(|sealed|, step), step, n);
    ReadMarked(Stored(slots, sealed, step), n, sealed[n * step..n * step + step]);
  }

  lemma ReadMarked(slots: Slots, n: nat, part: string)
    requires n in slots && slots[n] == part + CONTINUE_MARKER
    ensures ReadFrom(slots, {}, n) == Prepend(part, ReadFrom(slots, {}, n + 1))
  {
    MarkedChunk(part);
  }

  /** The first n chunks, when they are full ones. */
  lemma {:induction false} ReadFullChunks(slots: Slots, sealed: string, step: nat, n: nat)
    requires step > 0 && n * step <= |sealed|
    ensures var after := Stored(slots, sealed, step);
            ReadFrom(after, {}, 0) == Prepend(sealed[..n * step], ReadFrom(after, {}, n))
  {
    var after := Stored(slots, sealed, step);
    if n > 0 {
      assert (n - 1) * step + step == n * step;
      ReadFullChunks(slots, sealed, step, n - 1);
      ReadFullChunk(slots, sealed, step, n - 1);
      PrependTwice(sealed[..(n - 1) * step], sealed[(n - 1) * step..n * step], ReadFrom(after, {}, n));
      assert sealed[..(n - 1) * step] + sealed[(n - 1) * step..n * step] == sealed[..n * step];
    } else {
      var r := ReadFrom(after, {}, 0);
      assert r.Found? ==> sealed[..0] + r.sealed == r.sealed;
    }
  }

  /** The offset of the last, partial chunk; the length when all chunks are full. */
  function Cut(sealed: string, step: nat): nat
    requires step > 0
    ensures Cut(sealed, step) <= |sealed|
  {
    |sealed| / step * step
  }

  /** A string comes back when it leaves a partial last chunk that does not look continued. */
  predicate ReadsBack(sealed: string, step: nat)
    requires step > 0
  {
    |sealed| % step != 0 && !EndsWithMarker(sealed[Cut(sealed, step)..])
  }

  /** What a read yields after a store, whatever the keyring held before. */
  function ReadBack(slots: Slots, sealed: string, step: nat): ReadResult
    requires step > 0
  {
    if ReadsBack(sealed, step) then Found(sealed)
    else if |sealed| % step == 0 then Prepend(sealed, ReadFrom(slots, {}, |sealed| / step))
    else
      TailMarker(sealed, Cut(sealed, step));
      Prepend(WithoutMarker(sealed), ReadFrom(slots, {}, |sealed| / step + 1))
  }

  lemma TailMarker(sealed: string, cut: nat)
    requires cut <= |sealed|
    ensures EndsWithMarker(sealed[cut..]) ==>
              (EndsWithMarker(sealed)
               && sealed[..cut] + WithoutMarker(sealed[cut..]) == WithoutMarker(sealed))
  {
    if EndsWithMarker(sealed[cut..]) {
      assert sealed[|sealed| - |CONTINUE_MARKER|..]
          == sealed[cut..][|sealed[cut..]| - |CONTINUE_MARKER|..];
    }
  }

  /** The last, partial chunk. */
  lemma ReadLastChunk(slots: Slots, sealed: string, step: nat, q: nat)
    requires step > 0 && q * step < |sealed| < q * step + step
    ensures var after := Stored(slots, sealed, step); var tail := sealed[q * step..];
            && ChunkCount(|sealed|, step) == q + 1
            && ReadFrom(after, {}, q) ==
                 if EndsWithMarker(tail) then Prepend(WithoutMarker(tail), ReadFrom(after, {}, q + 1))
                 else Found(tail)
  {
    CountBounds(|sealed|, step, q);
    CountBounds(|sealed|, step, q + 1);
    assert (q + 1) * step == q * step + step;
    SlotOfPrefix(slots, sealed, ChunkCount(|sealed|, step), step, q);
  }

  lemma ReadWholeChunks(slots: Slots, sealed: string, step: nat, q: nat)
    requires step > 0 && |sealed| == q * step
    ensures ReadFrom(Stored(slots, sealed, step), {}, 0) == Prepend(sealed, ReadFrom(slots, {}, q))
  {
    ReadFullChunks(slots, sealed, step, q);
    assert sealed[..q * step] == sealed;
    CountBounds(|sealed|, step, q);
    ReadPastEnd(slots, sealed, step, q);
  }

  lemma ReadWithTail(slots: Slots, sealed: string, step: nat, q: nat)
    requires step > 0 && q * step < |sealed| < q * step + step
    ensures EndsWithMarker(sealed[q * step..]) ==> EndsWithMarker(sealed)
    ensures ReadFrom(Stored(slots, sealed, step), {}, 0) ==
            if EndsWithMarker(sealed[q * step..])
            then Prepend(WithoutMarker(sealed), ReadFrom(slots, {}, q + 1)) else Found(sealed)
  {
    var cut := q * step;
    var tail := sealed[cut..];
    ReadFullChunks(slots, sealed, step, q);
    ReadLastChunk(slots, sealed, step, q);
    assert sealed[..cut] + tail == sealed;
    TailMarker(sealed, cut);
    if EndsWithMarker(tail) {
      ReadPastEnd(slots, sealed, step, q + 1);
      PrependTwice(sealed[..cut], WithoutMarker(tail), ReadFrom(slots, {}, q + 1));
    }
  }

  /** The round trip through the keyring, for every string and over every earlier content. */
  lemma StoreThenRead(slots: Slots, sealed: string, step: nat)
    requires step > 0
    ensures ReadFrom(Stored(slots, sealed, step), {}, 0) == ReadBack(slots, sealed, step)
  {
    var q := |sealed| / step;
    assert |sealed| == q * step + |sealed| % step;
    if |sealed| % step == 0 {
      ReadWholeChunks(slots, sealed, step, q);
    } else {
      ReadWithTail(slots, sealed, step, q);
    }
  }

  /**
   * When the keyring has no older entries behind the new ones, the string comes back exactly when
   * its length is no multiple of the step and its last chunk does not end with the marker;
   * otherwise the credential is lost: the read finds nothing.
   */
  lemma RoundTripOverNothingStale(slots: Slots, sealed: string, step: nat)
    requires step > 0 && forall j | j in slots :: j < |sealed| / step
    ensures var r := ReadFrom(Stored(slots, sealed, step), {}, 0);
            && (r == Found(sealed) <==> ReadsBack(sealed, step))
            && (!ReadsBack(sealed, step) ==> r == Missing)
  {
    StoreThenRead(slots, sealed, step);
  }

  /** Over stale entries the unlucky strings come back with stale data behind them, or not at all. */
  lemma RoundTripOverStale(slots: Slots, sealed: string, step: nat)
    requires step > 0 && !ReadsBack(sealed, step)
    ensures var r := ReadFrom(Stored(slots, sealed, step), {}, 0); var q := |sealed| / step;
            r == Found(sealed) <==>
              if |sealed| % step == 0 then ReadFrom(slots, {}, q) == Found("")
              else ReadFrom(slots, {}, q + 1) == Found(CONTINUE_MARKER)
  {
    StoreThenRead(slots, sealed, step);
    var q, cut := |sealed| / step, Cut(sealed, step);
    if |sealed| % step == 0 {
      var r := ReadFrom(slots, {}, q);
      assert r.Found? ==> (sealed + r.sealed == sealed <==> |sealed + r.sealed| == |sealed|);
      assert sealed + "" == sealed;
    } else {
      TailMarker(sealed, cut);
      var r := ReadFrom(slots, {}, q + 1);
      var whole := WithoutMarker(sealed);
      assert whole + CONTINUE_MARKER == sealed;
      if r.Found? && whole + r.sealed == sealed {
        assert (whole + r.sealed)[|whole|..] == r.sealed;
        assert (whole + CONTINUE_MARKER)[|whole|..] == CONTINUE_MARKER;
      }
    }
  }

  // ------------------------------------------------------------------ clearing

  /**
   * A clear tries the entries that have a handle or that a read opens, in order.  It removes those
   * before the first that is missing or cannot be deleted, keeps all others as they are, and goes
   * through when it comes to no such entry.
   */
  lemma ClearedEntries(slots: Slots, failing: set<nat>, handles: nat) returns (k: nat, n: nat)
    ensures StopsAt(slots, failing, 0, k)
    ensures var tried := if handles > k then handles else k + 1; var (after, ok) := Cleared(slots, failing, handles);
            && n <= tried && (forall j | 0 <= j < n :: j in slots && j !in failing)
            && (n < tried ==> n !in slots || n in failing)
            && (ok <==> n == tried)
            && (forall j :: j in after <==> j in slots && j >= n)
            && (forall j | j in after :: after[j] == slots[j])
  {
    k := ReadStops(slots, failing, 0);
    n := FirstKept(slots, failing, Max(handles, k + 1), 0);
  }

  lemma OpenedMarked(slots: Slots, n: nat, part: string)
    requires n in slots && slots[n] == part + CONTINUE_MARKER
    ensures EntriesOpened(slots, {}, n) == EntriesOpened(slots, {}, n + 1)
  {
    MarkedChunk(part);
  }

  lemma {:induction false} OpenedFullChunks(slots: Slots, sealed: string, step: nat, n: nat)
    requires step > 0 && n * step <= |sealed|
    ensures var after := Stored(slots, sealed, step);
            EntriesOpened(after, {}, 0) == EntriesOpened(after, {}, n)
  {
    if n > 0 {
      assert (n - 1) * step + step == n * step;
      OpenedFullChunks(slots, sealed, step, n - 1);
      CountBounds(|sealed|, step, n - 1);
      SlotOfPrefix(slots, sealed, ChunkCount(|sealed|, step), step, n - 1);
      OpenedMarked(Stored(slots, sealed, step), n - 1, sealed[(n - 1) * step..(n - 1) * step + step]);
    }
  }

  /** The entries after a store with nothing stale are just the chunks. */
  lemma OnlyTheChunks(slots: Slots, sealed: string, step: nat, q: nat, j: nat)
    requires step > 0 && q * step <= |sealed| && forall i | i in slots :: i < q
    ensures j in Stored(slots, sealed, step) <==> j < ChunkCount(|sealed|, step)
  {
    SlotOfPrefix(slots, sealed, ChunkCount(|sealed|, step), step, j);
    if j in slots {
      CountBounds(|sealed|, step, j);
      MulMonotone(j + 1, q, step);
      assert (j + 1) * step == j * step + step;
    }
  }

  /** A read opens the chunks, and one entry more when the last chunk looks continued. */
  lemma OpenedAfterStore(slots: Slots, sealed: string, step: nat, q: nat)
    requires step > 0 && q * step <= |sealed| < q * step + step && forall j | j in slots :: j < q
    ensures var entries := EntriesOpened(Stored(slots, sealed, step), {}, 0);
            entries == ChunkCount(|sealed|, step) +
              if q * step < |sealed| && !EndsWithMarker(sealed[q * step..]) then 0 else 1
  {
    var count, after := ChunkCount(|sealed|, step), Stored(slots, sealed, step);
    OpenedFullChunks(slots, sealed, step, q);
    OnlyTheChunks(slots, sealed, step, q, q);
    if q * step == |sealed| {
      CountBounds(|sealed|, step, q);
      if q > 0 {
        CountBounds(|sealed|, step, q - 1);
        assert (q - 1) * step + step == q * step;
      }
    } else {
      ReadLastChunk(slots, sealed, step, q);
      SlotOfPrefix(slots, sealed, count, step, q);
      OnlyTheChunks(slots, sealed, step, q, q + 1);
    }
  }

  lemma ClearOf(slots: Slots, count: nat, n: nat)
    requires forall j: nat :: j in slots <==> j < count
    ensures Deletable(slots, {}, n) <==> n <= count
    ensures n >= count ==> Behind(slots, n) == map[]
  {
    if n > count {
      assert count !in slots;
    }
  }

  /** The end of a string as `ReadsBack` takes it, and as the stored chunks show it. */
  lemma LastChunk(sealed: string, step: nat, q: nat)
    requires step > 0 && q == |sealed| / step
    ensures q * step <= |sealed| < q * step + step
    ensures ReadsBack(sealed, step) <==> q * step < |sealed| && !EndsWithMarker(sealed[q * step..])
  {
    assert |sealed| == q * step + |sealed| % step;
  }

  lemma ClearsChunks(slots: Slots, sealed: string, step: nat, q: nat, handles: nat)
    requires step > 0 && q * step <= |sealed| < q * step + step && forall j | j in slots :: j < q
    requires handles <= ChunkCount(|sealed|, step)
    ensures var after := Stored(slots, sealed, step); var tried := Max(handles, EntriesOpened(after, {}, 0));
            && (Deletable(after, {}, tried) <==> q * step < |sealed| && !EndsWithMarker(sealed[q * step..]))
            && (Deletable(after, {}, tried) ==> Behind(after, tried) == map[])
  {
    var after, count := Stored(slots, sealed, step), ChunkCount(|sealed|, step);
    OpenedAfterStore(slots, sealed, step, q);
    forall j: nat ensures j in after <==> j < count {
      OnlyTheChunks(slots, sealed, step, q, j);
    }
    ClearOf(after, count, Max(handles, EntriesOpened(after, {}, 0)));
  }

  /**
   * A credential stored with nothing stale behind it can be cleared, and then leaves nothing,
   * exactly when it could be read back; otherwise the clear looks for one entry too many and is
   * an error.
   */
  lemma ClearsIffReadsBack(slots: Slots, sealed: string, step: nat, handles: nat)
    requires step > 0 && forall j | j in slots :: j < |sealed| / step
    requires handles <= ChunkCount(|sealed|, step)
    ensures var after := Stored(slots, sealed, step); var tried := Max(handles, EntriesOpened(after, {}, 0));
            && (Deletable(after, {}, tried) <==> ReadsBack(sealed, step))
            && (ReadsBack(sealed, step) ==> Behind(after, tried) == map[])
  {
    LastChunk(sealed, step, |sealed| / step);
    ClearsChunks(slots, sealed, step, |sealed| / step, handles);
  }

  lemma {:induction false} OpensPast(slots: Slots, failing: set<nat>, n: nat)
    ensures EntriesOpened(slots, failing, n) > n
    decreases From(slots, n)
  {
    if n !in failing && n in slots && EndsWithMarker(slots[n]) {
      FromShrinks(slots, n);
      OpensPast(slots, failing, n + 1);
    }
  }

  /** A clear that goes through leaves nothing to read. */
  lemma ClearedReadsNothing(slots: Slots, failing: set<nat>, handles: nat)
    ensures Cleared(slots, failing, handles).1 ==> 0 !in Cleared(slots, failing, handles).0
    ensures 0 !in slots ==> 0 !in Cleared(slots, failing, handles).0
  {
    OpensPast(slots, failing, 0);
  }

  lemma OpensTheChunks(slots: Slots, sealed: string, step: nat, q: nat)
    requires step > 0 && q * step < |sealed| < q * step + step && !EndsWithMarker(sealed[q * step..])
    ensures EntriesOpened(Stored(slots, sealed, step), {}, 0) == q + 1 == ChunkCount(|sealed|, step)
  {
    OpenedFullChunks(slots, sealed, step, q);
    ReadLastChunk(slots, sealed, step, q);
    SlotOfPrefix(slots, sealed, q + 1, step, q);
  }

  /**
   * Over any earlier content: clearing a credential that reads back goes through, and leaves exactly
   * the older entries behind its own, the rest of a longer credential of an earlier process.
   */
  lemma ClearLeavesStale(slots: Slots, sealed: string, step: nat, handles: nat)
    requires step > 0 && ReadsBack(sealed, step) && handles <= ChunkCount(|sealed|, step)
    ensures Cleared(Stored(slots, sealed, step), {}, handles)
         == (Behind(slots, ChunkCount(|sealed|, step)), true)
  {
    var q, count, after := |sealed| / step, ChunkCount(|sealed|, step), Stored(slots, sealed, step);
    LastChunk(sealed, step, q);
    OpensTheChunks(slots, sealed, step, q);
    forall j: nat ensures SameBehind(slots, after, count, j) {
      SlotOfPrefix(slots, sealed, count, step, j);
    }
    ClearedToCount(slots, after, count, handles);
  }

  /** The entries before `count` are there, and the others are as they were. */
  ghost predicate SameBehind(slots: Slots, after: Slots, count: nat, j: nat) {
    if j < count then j in after
    else (j in after <==> j in slots) && (j in slots ==> after[j] == slots[j])
  }

  lemma ClearedToCount(slots: Slots, after: Slots, count: nat, handles: nat)
    requires handles <= count == EntriesOpened(after, {}, 0)
    requires forall j: nat :: SameBehind(slots, after, count, j)
    ensures Cleared(after, {}, handles) == (Behind(slots, count), true)
  {
    var n := FirstKept(after, {}, count, 0);
    assert SameBehind(slots, after, count, n);
    assert forall j: nat | j in after || j in slots :: SameBehind(slots, after, count, j);
    assert Behind(after, count) == Behind(slots, count);
  }
}
