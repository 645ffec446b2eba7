/**
 * The timing of the two loops that talk to the authorization server: polling for the token of a
 * device code, and refreshing a token before it expires.  Times are in nanoseconds.
 */
module TokenTiming {
  import opened Common

  const SECOND: int := 1_000_000_000

  // ------------------------------------------------------------------ polling for a token

  datatype Reply = Granted | SlowDown | TooManyRequests | OtherError

  /** One turn of the loop: a sleep may last longer than asked for, and a request takes time. */
  datatype Turn = Turn(late: nat, took: nat, reply: Reply)

  /** A request: when it is sent, after how many seconds of sleep, and its reply. */
  datatype Poll = Poll(at: int, interval: nat, reply: Reply)

  predicate Slows(r: Reply) { r.SlowDown? || r.TooManyRequests? }

  function NextInterval(r: Reply, interval: nat): nat { if Slows(r) then interval + 5 else interval }

  /** The polls from the k-th turn on. */
  function Polls(turns: nat -> Turn, k: nat, now: int, expiresAt: int, interval: nat): seq<Poll>
    requires interval >= 5
    decreases expiresAt - now
  {
    if now >= expiresAt then []
    else
      var turn := turns(k);
      var at := now + interval * SECOND + turn.late;
      var poll := Poll(at, interval, turn.reply);
      if turn.reply.Granted? then [poll]
      else [poll] + Polls(turns, k + 1, at + turn.took, expiresAt, NextInterval(turn.reply, interval))
  }

  /** The polls for a code that was received at `start` and lives so many seconds. */
  function PollsForCode(turns: nat -> Turn, start: int, expiresIn: int): seq<Poll> {
    Polls(turns, 0, start, start + expiresIn * SECOND, 5)
  }

  /** The loop for one device code; without a grant it ends when the code has expired. */
  method PollForToken(turns: nat -> Turn, start: int, expiresIn: int)
    returns (granted: bool, polls: seq<Poll>, end: int)
    ensures polls == PollsForCode(turns, start, expiresIn)
    ensures granted <==> polls != [] && polls[|polls| - 1].reply.Granted?
    ensures !granted ==> end >= start + expiresIn * SECOND
    ensures polls != [] ==> end >= polls[|polls| - 1].at
  {
    var expiresAt := start + expiresIn * SECOND;
    var intervalS, k := 5, 0;
    polls, end := [], start;
    ghost var all := PollsForCode(turns, start, expiresIn);
    assert all == polls + all;
    while end < expiresAt
      invariant PolledSoFar(turns, all, polls, k, end, expiresAt, intervalS)
      decreases expiresAt - end
    {
      var turn := turns(k);
      NextPoll(turns, all, polls, k, end, expiresAt, intervalS);
      end := end + intervalS * SECOND + turn.late;
      polls := polls + [Poll(end, intervalS, turn.reply)];
      end := end + turn.took;
      if turn.reply.Granted? {
        return true, polls, end;
      }
      if Slows(turn.reply) {
        intervalS := intervalS + 5;
      }
      k := k + 1;
    }
    granted := false;
  }

  /** The loop has made the first of all polls, was granted none of them, and makes the others now. */
  ghost predicate PolledSoFar(
    turns: nat -> Turn, all: seq<Poll>, polls: seq<Poll>, k: nat, now: int, expiresAt: int, interval: nat)
  {
    && interval >= 5 && all == polls + Polls(turns, k, now, expiresAt, interval)
    && (polls != [] ==> !polls[|polls| - 1].reply.Granted? && now >= polls[|polls| - 1].at)
  }

  lemma NextPoll(
    turns: nat -> Turn, all: seq<Poll>, polls: seq<Poll>, k: nat, now: int, expiresAt: int, interval: nat)
    requires PolledSoFar(turns, all, polls, k, now, expiresAt, interval) && now < expiresAt
    ensures var turn := turns(k); var at := now + interval * SECOND + turn.late;
            && at > now
            && if turn.reply.Granted? then all == polls + [Poll(at, interval, turn.reply)]
               else PolledSoFar(turns, all, polls + [Poll(at, interval, turn.reply)], k + 1, at + turn.took,
                      expiresAt, NextInterval(turn.reply, interval))
  {
    var turn := turns(k);
    var at := now + interval * SECOND + turn.late;
    if !turn.reply.Granted? {
      ConcatAssoc(polls, [Poll(at, interval, turn.reply)],
        Polls(turns, k + 1, at + turn.took, expiresAt, NextInterval(turn.reply, interval)));
    }
  }

  /** The replies `slow_down`, and those with the status 429. */
  function SlowDowns(polls: seq<Poll>): nat {
    if polls == [] then 0
    else (match polls[0].reply
          case Granted => 0
          case SlowDown => 1
          case TooManyRequests => 1
          case OtherError => 0) + SlowDowns(polls[1..])
  }

  lemma {:induction false} SlowDownsSnoc(polls: seq<Poll>, p: Poll)
    ensures SlowDowns(polls + [p]) == SlowDowns(polls) + SlowDowns([p])
  {
    if polls == [] {
      assert polls + [p] == [p];
    } else {
      assert (polls + [p])[1..] == polls[1..] + [p];
      SlowDownsSnoc(polls[1..], p);
    }
  }

  /**
   * Section 3.5 of RFC 8628: a code is first polled after five seconds, and every reply that asks
   * to slow down adds five for all later requests; no other reply changes the interval.  Two polls
   * are apart by at least the interval of the second, and by no more than that and the delays.
   */
  lemma IntervalCountsSlowDowns(turns: nat -> Turn, start: int, expiresIn: int, i: nat)
    requires i < |PollsForCode(turns, start, expiresIn)|
    ensures var polls := PollsForCode(turns, start, expiresIn);
            && polls[i].interval == 5 + 5 * SlowDowns(polls[..i])
            && (i > 0 && polls[i - 1].reply == OtherError ==> polls[i].interval == polls[i - 1].interval)
            && (i > 0 && polls[i - 1].reply in {SlowDown, TooManyRequests} ==>
                  polls[i].interval == polls[i - 1].interval + 5)
            && polls[i].at - (if i == 0 then start else polls[i - 1].at + turns(i - 1).took)
               == polls[i].interval * 1_000_000_000 + turns(i).late
  {
    var polls, expiresAt := PollsForCode(turns, start, expiresIn), start + expiresIn * SECOND;
    IntervalsFrom(turns, 0, start, expiresAt, 5, i);
    if i > 0 {
      IntervalsFrom(turns, 0, start, expiresAt, 5, i - 1);
      SlowDownsSnoc(polls[..i - 1], polls[i - 1]);
      assert polls[..i] == polls[..i - 1] + [polls[i - 1]];
      OnlyLastMayBeLate(turns, 0, start, expiresAt, 5, i - 1);
    }
  }

  lemma {:induction false} IntervalsFrom(
    turns: nat -> Turn, k: nat, now: int, expiresAt: int, interval: nat, i: nat)
    requires interval >= 5 && i < |Polls(turns, k, now, expiresAt, interval)|
    ensures var polls := Polls(turns, k, now, expiresAt, interval);
            && polls[i].interval == interval + 5 * SlowDowns(polls[..i])
            && polls[i].at - (if i == 0 then now else polls[i - 1].at + turns(k + i - 1).took)
               == polls[i].interval * SECOND + turns(k + i).late
    decreases i
  {
    if i > 0 {
      var polls, turn := Polls(turns, k, now, expiresAt, interval), turns(k);
      var next := NextInterval(turn.reply, interval);
      var now' := now + interval * SECOND + turn.late + turn.took;
      IntervalsFrom(turns, k + 1, now', expiresAt, next, i - 1);
      assert (k + 1) + (i - 1) == k + i;
      assert polls[1..] == Polls(turns, k + 1, now', expiresAt, next);
      assert polls[..i][1..] == polls[1..][..i - 1];
    }
  }

  /** When the n-th turn from the k-th on sends its request, if the loop gets that far. */
  function SentAt(turns: nat -> Turn, k: nat, now: int, interval: nat, n: nat): int
    decreases n
  {
    var at := now + interval * SECOND + turns(k).late;
    if n == 0 then at
    else SentAt(turns, k + 1, at + turns(k).took, NextInterval(turns(k).reply, interval), n - 1)
  }

  /** The times of the polls follow from the turns alone, and poll n has the reply of turn k + n. */
  lemma {:induction false} PollsFollowTurns(
    turns: nat -> Turn, k: nat, now: int, expiresAt: int, interval: nat, n: nat)
    requires interval >= 5 && n < |Polls(turns, k, now, expiresAt, interval)|
    ensures var poll := Polls(turns, k, now, expiresAt, interval)[n];
            poll.at == SentAt(turns, k, now, interval, n) && poll.reply == turns(k + n).reply
    decreases n
  {
    if n > 0 {
      var turn := turns(k);
      var next := NextInterval(turn.reply, interval);
      var now' := now + interval * SECOND + turn.late + turn.took;
      PollsFollowTurns(turns, k + 1, now', expiresAt, next, n - 1);
      assert Polls(turns, k, now, expiresAt, interval)[1..] == Polls(turns, k + 1, now', expiresAt, next);
    }
  }

  /** Every poll but the last is before the expiry, reply and all, and not granted. */
  lemma {:induction false} OnlyLastMayBeLate(
    turns: nat -> Turn, k: nat, now: int, expiresAt: int, interval: nat, i: nat)
    requires interval >= 5 && i + 1 < |Polls(turns, k, now, expiresAt, interval)|
    ensures var polls := Polls(turns, k, now, expiresAt, interval);
            polls[i].at + turns(k + i).took < expiresAt && !polls[i].reply.Granted?
    decreases i
  {
    var turn := turns(k);
    var next := NextInterval(turn.reply, interval);
    var now' := now + interval * SECOND + turn.late + turn.took;
    assert Polls(turns, k, now, expiresAt, interval)[1..] == Polls(turns, k + 1, now', expiresAt, next);
    if i > 0 {
      OnlyLastMayBeLate(turns, k + 1, now', expiresAt, next, i - 1);
    }
  }

  /** The polls end at the first turn that is granted, or whose reply is there after the expiry. */
  ghost predicate EndsAt(turns: nat -> Turn, k: nat, now: int, expiresAt: int, interval: nat, n: nat) {
    && (forall i | 0 <= i < n :: GoesOn(turns, k, now, expiresAt, interval, i))
    && !GoesOn(turns, k, now, expiresAt, interval, n)
  }

  predicate GoesOn(turns: nat -> Turn, k: nat, now: int, expiresAt: int, interval: nat, n: nat) {
    !turns(k + n).reply.Granted? && SentAt(turns, k, now, interval, n) + turns(k + n).took < expiresAt
  }

  lemma {:induction false} LastPoll(turns: nat -> Turn, k: nat, now: int, expiresAt: int, interval: nat)
    requires interval >= 5 && now < expiresAt
    ensures var polls := Polls(turns, k, now, expiresAt, interval);
            polls != [] && EndsAt(turns, k, now, expiresAt, interval, |polls| - 1)
    decreases expiresAt - now
  {
    var polls, turn := Polls(turns, k, now, expiresAt, interval), turns(k);
    var next := NextInterval(turn.reply, interval);
    var now' := now + interval * SECOND + turn.late + turn.took;
    if !turn.reply.Granted? && now' < expiresAt {
      LastPoll(turns, k + 1, now', expiresAt, next);
      EndsLater(turns, k, now, expiresAt, interval, |polls| - 1);
    } else {
      assert k + 0 == k && SentAt(turns, k, now, interval, 0) + turn.took == now';
      assert !turn.reply.Granted? ==> Polls(turns, k + 1, now', expiresAt, next) == [];
      assert |polls| == 1;
      assert !GoesOn(turns, k, now, expiresAt, interval, 0);
    }
  }

  lemma EndsLater(turns: nat -> Turn, k: nat, now: int, expiresAt: int, interval: nat, n: nat)
    requires n > 0 && !turns(k).reply.Granted?
    requires var now' := now + interval * SECOND + turns(k).late + turns(k).took;
             var next := NextInterval(turns(k).reply, interval);
             now' < expiresAt && EndsAt(turns, k + 1, now', expiresAt, next, n - 1)
    ensures EndsAt(turns, k, now, expiresAt, interval, n)
  {
    var now' := now + interval * SECOND + turns(k).late + turns(k).took;
    var next := NextInterval(turns(k).reply, interval);
    forall i | 0 <= i < n ensures GoesOn(turns, k, now, expiresAt, interval, i) {
      if i > 0 {
        assert GoesOn(turns, k + 1, now', expiresAt, next, i - 1);
        assert (k + 1) + (i - 1) == k + i;
      }
    }
    assert !GoesOn(turns, k + 1, now', expiresAt, next, n - 1) && (k + 1) + (n - 1) == k + n;
  }

  ghost predicate AllInTime(polls: seq<Poll>, expiresAt: int) {
    forall i | 0 <= i < |polls| :: polls[i].at < expiresAt
  }

  /**
   * Exactly when no poll comes too late: the code is expired from the start, or the loop ends at a
   * turn that sends its request in time; that turn is granted, or its reply comes after the expiry.
   */
  lemma AllInTimeIff(turns: nat -> Turn, start: int, expiresIn: int)
    ensures var expiresAt := start + expiresIn * SECOND;
            AllInTime(PollsForCode(turns, start, expiresIn), expiresAt) <==>
            expiresIn <= 0 ||
            exists n: nat :: EndsAt(turns, 0, start, expiresAt, 5, n) && SentAt(turns, 0, start, 5, n) < expiresAt
  {
    var expiresAt := start + expiresIn * SECOND;
    var polls := PollsForCode(turns, start, expiresIn);
    if expiresIn > 0 {
      LastPoll(turns, 0, start, expiresAt, 5);
      var last := |polls| - 1;
      PollsFollowTurns(turns, 0, start, expiresAt, 5, last);
      if polls[last].at < expiresAt {
        forall i | 0 <= i < |polls| ensures polls[i].at < expiresAt {
          if i < last {
            OnlyLastMayBeLate(turns, 0, start, expiresAt, 5, i);
          }
        }
      }
      forall n: nat | EndsAt(turns, 0, start, expiresAt, 5, n) ensures n == last {
        OneEnd(turns, start, expiresAt, n, last);
      }
    }
  }

  lemma OneEnd(turns: nat -> Turn, start: int, expiresAt: int, n: nat, n': nat)
    requires EndsAt(turns, 0, start, expiresAt, 5, n) && EndsAt(turns, 0, start, expiresAt, 5, n')
    ensures n == n'
  {
    assert GoesOn(turns, 0, start, expiresAt, 5, n) ==> n' != n;
  }

  /**
   * With replies that come at once: no poll is too late exactly when the code was expired from the
   * start, or a poll is granted, and before the expiry.
   */
  lemma InTimeIffGrantedInTime(turns: nat -> Turn, start: int, expiresIn: int)
    requires forall k: nat :: turns(k).took == 0
    ensures var polls := PollsForCode(turns, start, expiresIn); var expiresAt := start + expiresIn * SECOND;
            AllInTime(polls, expiresAt) <==>
            polls == [] || (polls[|polls| - 1].reply.Granted? && polls[|polls| - 1].at < expiresAt)
  {
    var polls, expiresAt := PollsForCode(turns, start, expiresIn), start + expiresIn * SECOND;
    if polls != [] {
      var last := |polls| - 1;
      LastPoll(turns, 0, start, expiresAt, 5);
      PollsFollowTurns(turns, 0, start, expiresAt, 5, last);
      forall i | 0 <= i < last ensures polls[i].at < expiresAt {
        OnlyLastMayBeLate(turns, 0, start, expiresAt, 5, i);
      }
    }
  }

  /** A code that lives for seven seconds is polled a last time after ten. */
  lemma LastPollCanBeLate(turns: nat -> Turn)
    requires turns(0) == Turn(0, 0, OtherError) && turns(1).late == 0
    ensures |PollsForCode(turns, 0, 7)| == 2 && PollsForCode(turns, 0, 7)[1].at == 10 * SECOND
  {
    assert Polls(turns, 2, 10 * SECOND + turns(1).took, 7 * SECOND, 5) == [];
    assert Polls(turns, 2, 10 * SECOND + turns(1).took, 7 * SECOND, 10) == [];
    assert |Polls(turns, 1, 5 * SECOND, 7 * SECOND, 5)| == 1;
  }

  lemma {:induction false} PollsFit(turns: nat -> Turn, k: nat, now: int, expiresAt: int, interval: nat)
    requires interval >= 5
    ensures var n := |Polls(turns, k, now, expiresAt, interval)|;
            (now >= expiresAt <==> n == 0) && (n > 0 ==> 5 * SECOND * (n - 1) < expiresAt - now)
    decreases expiresAt - now
  {
    if now < expiresAt {
      var turn := turns(k);
      if !turn.reply.Granted? {
        var now' := now + interval * SECOND + turn.late + turn.took;
        PollsFit(turns, k + 1, now', expiresAt, NextInterval(turn.reply, interval));
      }
    }
  }

  /** A code is polled at most once every five seconds of its life, rounded up. */
  lemma PollsAreBounded(turns: nat -> Turn, start: int, expiresIn: int)
    ensures |PollsForCode(turns, start, expiresIn)| <= if expiresIn <= 0 then 0 else (expiresIn + 4) / 5
  {
    PollsFit(turns, 0, start, start + expiresIn * SECOND, 5);
  }

  ghost predicate QuickErrors(turns: nat -> Turn) {
    forall k: nat :: turns(k) == Turn(0, 0, OtherError)
  }

  lemma {:induction false} QuickErrorsFill(turns: nat -> Turn, k: nat, now: int, expiresAt: int, lives: nat)
    requires QuickErrors(turns) && expiresAt == now + lives * SECOND
    ensures |Polls(turns, k, now, expiresAt, 5)| == (lives + 4) / 5
    decreases lives
  {
    if 0 < lives <= 5 {
      assert Polls(turns, k + 1, now + 5 * SECOND, expiresAt, 5) == [];
    } else if lives > 5 {
      QuickErrorsFill(turns, k + 1, now + 5 * SECOND, expiresAt, lives - 5);
    }
  }

  /** The bound is sharp: it is met when every poll fails at once without asking to slow down. */
  lemma BoundIsReached(turns: nat -> Turn, start: int, expiresIn: nat)
    requires QuickErrors(turns)
    ensures |PollsForCode(turns, start, expiresIn)| == (expiresIn + 4) / 5
  {
    QuickErrorsFill(turns, 0, start, start + expiresIn * SECOND, expiresIn);
  }

  /** The seconds slept until the n-th poll when all earlier ones asked to slow down. */
  function Slept(n: nat, interval: nat): nat {
    if n == 0 then 0 else interval + Slept(n - 1, interval + 5)
  }

  lemma {:induction false} SleptIsQuadratic(n: nat, interval: nat)
    ensures 2 * Slept(n, interval) == 2 * n * interval + 5 * n * (n - 1)
  {
    if n > 0 {
      var m := n - 1;
      SleptIsQuadratic(m, interval + 5);
      QuadraticStep(m, interval);
    }
  }

  lemma QuadraticStep(m: nat, i: nat)
    ensures 2 * i + (2 * m * (i + 5) + 5 * m * (m - 1)) == 2 * (m + 1) * i + 5 * (m + 1) * m
  {
    var a, b := m * i, m * m;
    assert m * (i + 5) == a + 5 * m;
    assert m * (m - 1) == b - m;
    assert (m + 1) * i == a + i;
    assert (m + 1) * m == b + m;
  }

  /** The first n polls are all told to slow down. */
  ghost predicate SlowedDown(polls: seq<Poll>, n: nat)
    requires n <= |polls|
  {
    forall i | 0 <= i < n :: polls[i].reply in {SlowDown, TooManyRequests}
  }

  /** The polls after a first one that is told to slow down. */
  lemma SlowTail(turns: nat -> Turn, k: nat, now: int, expiresAt: int, interval: nat, n: nat)
    requires interval >= 5 && 1 < n <= |Polls(turns, k, now, expiresAt, interval)|
    requires SlowedDown(Polls(turns, k, now, expiresAt, interval), n - 1)
    ensures var polls := Polls(turns, k, now, expiresAt, interval);
            var now' := now + interval * SECOND + turns(k).late + turns(k).took;
            var rest := Polls(turns, k + 1, now', expiresAt, interval + 5);
            n - 1 <= |rest| && rest[n - 2] == polls[n - 1] && SlowedDown(rest, n - 2)
  {
    var polls := Polls(turns, k, now, expiresAt, interval);
    var now' := now + interval * SECOND + turns(k).late + turns(k).took;
    assert polls[0].reply in {SlowDown, TooManyRequests};
    assert polls[1..] == Polls(turns, k + 1, now', expiresAt, interval + 5);
    assert forall i | 0 <= i < n - 2 :: polls[1..][i] == polls[i + 1];
  }

  lemma {:induction false} SlowPollsTakeTime(
    turns: nat -> Turn, k: nat, now: int, expiresAt: int, interval: nat, n: nat)
    requires interval >= 5 && 0 < n <= |Polls(turns, k, now, expiresAt, interval)|
    requires SlowedDown(Polls(turns, k, now, expiresAt, interval), n - 1)
    ensures Polls(turns, k, now, expiresAt, interval)[n - 1].at - now >= Slept(n, interval) * SECOND
    decreases n
  {
    if n > 1 {
      SlowTail(turns, k, now, expiresAt, interval, n);
      var now' := now + interval * SECOND + turns(k).late + turns(k).took;
      SlowPollsTakeTime(turns, k + 1, now', expiresAt, interval + 5, n - 1);
    }
  }

  /** When every poll is told to slow down, n of them take at least 5 n (n + 1) / 2 seconds. */
  lemma AllSlowedDown(turns: nat -> Turn, start: int, expiresIn: int, n: nat)
    requires 0 < n <= |PollsForCode(turns, start, expiresIn)|
    requires SlowedDown(PollsForCode(turns, start, expiresIn), n - 1)
    ensures 2 * (PollsForCode(turns, start, expiresIn)[n - 1].at - start) >= 5 * n * (n + 1) * 1_000_000_000
  {
    SlowPollsTakeTime(turns, 0, start, start + expiresIn * SECOND, 5, n);
    SleptIsQuadratic(n, 5);
    assert n * (n + 1) == n * (n - 1) + 2 * n;
  }

  // ------------------------------------------------------------------ two thirds of a duration

  /** Integer division as the machine does it: towards zero. */
  function TruncDiv(a: int, b: int): int
    requires b > 0
  {
    if a >= 0 then a / b else -(-a / b)
  }

  function TruncRem(a: int, b: int): int
    requires b > 0
  {
    a - b * TruncDiv(a, b)
  }

  /** Seconds and nanoseconds; when balanced, of the same sign and less than a second of the latter. */
  datatype SignedDuration = SignedDuration(secs: int, nanos: int) {
    function AsNanos(): int { secs * SECOND + nanos }

    predicate Balanced() {
      -SECOND < nanos < SECOND && (secs > 0 ==> nanos >= 0) && (secs < 0 ==> nanos <= 0)
    }

    predicate IsNegative() { secs < 0 || nanos < 0 }

    function UnsignedAbs(): nat {
      (if secs < 0 then -secs else secs) * SECOND + (if nanos < 0 then -nanos else nanos)
    }
  }

  function Split(nanos: int): SignedDuration {
    SignedDuration(TruncDiv(nanos, SECOND), TruncRem(nanos, SECOND))
  }

  function TwoThirds(d: SignedDuration): int { TruncDiv(d.AsNanos() * 2, 3) }

  /** The parts are balanced and stand for the whole value, of either sign. */
  lemma SplitKeepsValue(nanos: int)
    ensures Split(nanos).Balanced() && Split(nanos).AsNanos() == nanos
    ensures Split(nanos).secs * 1_000_000_000 + Split(nanos).nanos == nanos
    ensures Split(nanos).IsNegative() <==> nanos < 0
    ensures Split(nanos).UnsignedAbs() == if nanos < 0 then -nanos else nanos
  {
    var n := if nanos < 0 then -nanos else nanos;
    assert n == SECOND * (n / SECOND) + n % SECOND;
  }

  const I64_LIMIT: int := 0x8000_0000_0000_0000
  const I128_LIMIT: int := 0x8000_0000_0000_0000_0000_0000_0000_0000

  /** No duration overflows on the way: 128 bits hold the doubled nanoseconds, 64 the seconds. */
  lemma TwoThirdsDoNotOverflow(d: SignedDuration)
    requires d.Balanced() && -I64_LIMIT <= d.secs < I64_LIMIT
    ensures -I128_LIMIT <= d.AsNanos() * 2 < I128_LIMIT
    ensures -I64_LIMIT <= Split(TwoThirds(d)).secs < I64_LIMIT
  {
    SplitKeepsValue(TwoThirds(d));
  }

  // ------------------------------------------------------------------ keeping a token alive

  const MIN_REFRESH: nat := 10 * SECOND
  const DEFAULT_REFRESH: nat := 3600 * SECOND

  /** How long the loop sleeps. */
  function SleepTime(lastDidError: bool, expiresAt: Option<int>, now: int): nat {
    var sleep :=
      if lastDidError then MIN_REFRESH
      else match expiresAt
        case Some(d) =>
          var scaled := Split(TwoThirds(Split(d - now)));
          if scaled.IsNegative() then MIN_REFRESH else scaled.UnsignedAbs()
        case None => DEFAULT_REFRESH;
    Max(sleep, MIN_REFRESH)
  }

  /**
   * Never less than ten seconds; otherwise two thirds of the time left, rounded down.  The token
   * is still good after the sleep exactly when ten seconds of it are left.
   */
  lemma SleepBounds(lastDidError: bool, expiresAt: Option<int>, now: int)
    ensures var s := SleepTime(lastDidError, expiresAt, now);
            && s >= 10 * SECOND
            && (lastDidError ==> s == 10 * SECOND)
            && (!lastDidError && expiresAt.None? ==> s == 3600 * SECOND)
            && (!lastDidError && expiresAt.Some? ==>
                  var left := expiresAt.value - now;
                  && (if left >= 15 * SECOND then 3 * s <= 2 * left < 3 * s + 3 else s == 10 * SECOND)
                  && (s <= left <==> left >= 10 * SECOND))
  {
    if expiresAt.Some? {
      var left := expiresAt.value - now;
      SplitKeepsValue(left);
      SplitKeepsValue(TwoThirds(Split(left)));
    }
  }

  datatype Credential = Credential(token: string, expiresAt: Option<int>)

  datatype Refreshed =
    | StatusError(code: nat)
    | NoRefreshToken
    | OtherFailure
    | Success(credential: Option<Credential>)

  /** One round of the loop: how late the sleep ends, how long the refresh takes, its outcome. */
  datatype Round = Round(late: nat, took: nat, reply: Refreshed)

  datatype End = Running | Rejected(code: nat) | Stopped

  /** `attempts` are the times of the refreshes, `stored` the credentials stored. */
  datatype KeepAlive = KeepAlive(
    now: int, credential: Credential, lastDidError: bool, end: End,
    attempts: seq<int>, stored: seq<Credential>)

  predicate Fatal(r: Refreshed) {
    r.NoRefreshToken? || (r.StatusError? && 400 <= r.code < 500)
  }

  /** After a refresh that began at a given time. */
  function AfterReply(k: KeepAlive, at: int, round: Round): KeepAlive {
    var tried := k.(now := at + round.took, attempts := k.attempts + [at]);
    if Fatal(round.reply) then
      tried.(end := if round.reply.NoRefreshToken? then Stopped else Rejected(round.reply.code))
    else
      match round.reply
      case Success(Some(c)) => tried.(lastDidError := false, credential := c, stored := k.stored + [c])
      case Success(None) => tried.(lastDidError := false)
      case _ => tried.(lastDidError := true)
  }

  function AfterRound(k: KeepAlive, round: Round): KeepAlive {
    if !k.end.Running? then k
    else AfterReply(k, k.now + SleepTime(k.lastDidError, k.credential.expiresAt, k.now) + round.late, round)
  }

  function AfterRounds(k: KeepAlive, rounds: seq<Round>): KeepAlive {
    if rounds == [] then k else AfterRound(AfterRounds(k, rounds[..|rounds| - 1]), rounds[|rounds| - 1])
  }

  function Starting(credential: Credential, now: int): KeepAlive {
    KeepAlive(now, credential, false, Running, [], [])
  }

  /** One refresh and what the loop makes of its outcome. */
  method Refresh(k: KeepAlive, at: int, round: Round) returns (r: KeepAlive)
    requires k.end.Running?
    ensures r == AfterReply(k, at, round)
  {
    var end, lastDidError, credential, stored := Running, k.lastDidError, k.credential, k.stored;
    match round.reply {
      case StatusError(code) =>
        if 400 <= code < 500 {
          end := Rejected(code);
        } else {
          lastDidError := true;
        }
      case NoRefreshToken => end := Stopped;
      case OtherFailure => lastDidError := true;
      case Success(c) =>
        lastDidError := false;
        if c.Some? {
          stored := stored + [c.value];
          credential := c.value;
        }
    }
    r := KeepAlive(at + round.took, credential, lastDidError, end, k.attempts + [at], stored);
  }

  /** The loop over the given rounds, or until it ends. */
  method KeepTokenAlive(first: Credential, start: int, rounds: seq<Round>) returns (k: KeepAlive)
    ensures k == AfterRounds(Starting(first, start), rounds)
  {
    k := Starting(first, start);
    for i := 0 to |rounds|
      invariant k.end.Running? && k == AfterRounds(Starting(first, start), rounds[..i])
    {
      var sleepTime := SleepTime(k.lastDidError, k.credential.expiresAt, k.now);
      NextRound(Starting(first, start), rounds, i);
      k := Refresh(k, k.now + sleepTime + rounds[i].late, rounds[i]);
      if !k.end.Running? {
        EndedForGood(Starting(first, start), rounds, i + 1);
        return;
      }
    }
    assert rounds[..|rounds|] == rounds;
  }

  lemma NextRound(k: KeepAlive, rounds: seq<Round>, i: nat)
    requires i < |rounds|
    ensures AfterRounds(k, rounds[..i + 1]) == AfterRound(AfterRounds(k, rounds[..i]), rounds[i])
  {
    assert rounds[..i + 1][..i] == rounds[..i];
  }

  /** After its end the loop does nothing more. */
  lemma {:induction false} EndedForGood(k: KeepAlive, rounds: seq<Round>, n: nat)
    requires n <= |rounds| && !AfterRounds(k, rounds[..n]).end.Running?
    ensures AfterRounds(k, rounds) == AfterRounds(k, rounds[..n])
    decreases |rounds| - n
  {
    if n < |rounds| {
      assert rounds[..n + 1][..n] == rounds[..n];
      EndedForGood(k, rounds, n + 1);
    } else {
      assert rounds[..n] == rounds;
    }
  }

  /** Everything but a 4xx status and a missing refresh token is worth another attempt. */
  predicate Retried(r: Refreshed) {
    match r
    case StatusError(code) => code <= 399 || 500 <= code
    case NoRefreshToken => false
    case OtherFailure => true
    case Success(_) => true
  }

  ghost predicate AllRetried(rounds: seq<Round>) {
    forall i | 0 <= i < |rounds| :: Retried(rounds[i].reply)
  }

  /** How the first n rounds end the loop: the first that is not retried does. */
  ghost predicate EndsLike(end: End, rounds: seq<Round>, n: nat) {
    0 < n <= |rounds| && AllRetried(rounds[..n - 1]) &&
    match rounds[n - 1].reply
    case StatusError(code) => 400 <= code <= 499 && end == Rejected(code)
    case NoRefreshToken => end == Stopped
    case _ => false
  }

  /**
   * The loop gives up only on a 4xx reply, with that status, or for want of a refresh token; it
   * does so at once, and after its end no refresh follows.
   */
  lemma {:induction false} GivesUpIffFatal(first: Credential, start: int, rounds: seq<Round>)
    ensures var k := AfterRounds(Starting(first, start), rounds); EndedBy(k.end, |k.attempts|, rounds)
  {
    if rounds != [] {
      var last := |rounds| - 1;
      GivesUpIffFatal(first, start, rounds[..last]);
      var before := AfterRounds(Starting(first, start), rounds[..last]);
      RoundEnds(before, rounds[last]);
      EndedNext(before.end, |before.attempts|, rounds, AfterRound(before, rounds[last]).end);
    }
  }

  ghost predicate EndedBy(end: End, attempts: nat, rounds: seq<Round>) {
    && (end.Running? <==> AllRetried(rounds))
    && (end.Running? ==> attempts == |rounds|)
    && (!end.Running? ==> EndsLike(end, rounds, attempts))
  }

  lemma RoundEnds(k: KeepAlive, round: Round)
    ensures var k' := AfterRound(k, round);
            if k.end.Running? then
              && |k'.attempts| == |k.attempts| + 1 && (k'.end.Running? <==> Retried(round.reply))
              && (!k'.end.Running? ==> EndsLike(k'.end, [round], 1))
            else k' == k
  {
  }

  lemma EndedNext(end: End, attempts: nat, rounds: seq<Round>, end': End)
    requires rounds != [] && EndedBy(end, attempts, rounds[..|rounds| - 1])
    requires var last := rounds[|rounds| - 1];
             if end.Running? then
               (end'.Running? <==> Retried(last.reply)) && (!end'.Running? ==> EndsLike(end', [last], 1))
             else end' == end
    ensures EndedBy(end', if end.Running? then attempts + 1 else attempts, rounds)
  {
    var last := |rounds| - 1;
    assert forall i | 0 <= i < last :: rounds[..last][i] == rounds[i];
    if !end.Running? {
      assert rounds[..last][..attempts - 1] == rounds[..attempts - 1];
    }
  }

  /** The credentials that the rounds bring. */
  function Gained(rounds: seq<Round>): seq<Credential> {
    if rounds == [] then []
    else
      var last := |rounds| - 1;
      Gained(rounds[..last]) +
      match rounds[last].reply
      case Success(Some(c)) => [c]
      case _ => []
  }

  lemma ReplyRemembers(k: KeepAlive, at: int, round: Round)
    requires Retried(round.reply)
    ensures var k' := AfterReply(k, at, round);
            && (k'.lastDidError <==> !round.reply.Success?)
            && (match round.reply
                case Success(Some(c)) => k'.stored == k.stored + [c] && k'.credential == c
                case _ => k'.stored == k.stored && k'.credential == k.credential)
  {
  }

  /**
   * While the loop runs: it has stored what the refreshes brought, in order, works with the last of
   * these, and remembers an error exactly when its last refresh was one.
   */
  lemma {:induction false} RemembersLastRound(first: Credential, start: int, rounds: seq<Round>)
    requires AllRetried(rounds)
    ensures var k := AfterRounds(Starting(first, start), rounds); var gained := Gained(rounds);
            && k.stored == gained
            && k.credential == (if gained == [] then first else gained[|gained| - 1])
            && (k.lastDidError <==> rounds != [] && !rounds[|rounds| - 1].reply.Success?)
  {
    if rounds != [] {
      var last := |rounds| - 1;
      GivesUpIffFatal(first, start, rounds[..last]);
      RemembersLastRound(first, start, rounds[..last]);
      var k := AfterRounds(Starting(first, start), rounds[..last]);
      var sleep := SleepTime(k.lastDidError, k.credential.expiresAt, k.now);
      ReplyRemembers(k, k.now + sleep + rounds[last].late, rounds[last]);
    }
  }

  /** What the loop keeps: it works with the last credential it stored, and waits between refreshes. */
  ghost predicate Steady(first: Credential, k: KeepAlive) {
    && k.credential == (if k.stored == [] then first else k.stored[|k.stored| - 1])
    && (k.attempts != [] ==> k.attempts[|k.attempts| - 1] <= k.now)
    && (forall i | 0 <= i < |k.attempts| - 1 :: k.attempts[i + 1] - k.attempts[i] >= 10 * SECOND)
  }

  lemma {:induction false} StaysSteady(first: Credential, start: int, rounds: seq<Round>)
    ensures Steady(first, AfterRounds(Starting(first, start), rounds))
  {
    if rounds != [] {
      var last := |rounds| - 1;
      StaysSteady(first, start, rounds[..last]);
      RoundStaysSteady(first, AfterRounds(Starting(first, start), rounds[..last]), rounds[last]);
    }
  }

  lemma RoundStaysSteady(first: Credential, k: KeepAlive, round: Round)
    requires Steady(first, k)
    ensures Steady(first, AfterRound(k, round))
  {
    var sleep := SleepTime(k.lastDidError, k.credential.expiresAt, k.now);
    SleepBounds(k.lastDidError, k.credential.expiresAt, k.now);
    ReplyStaysSteady(first, k, k.now + sleep + round.late, round);
  }

  lemma ReplyStaysSteady(first: Credential, k: KeepAlive, at: int, round: Round)
    requires Steady(first, k) && at >= k.now + 10 * SECOND
    ensures Steady(first, AfterReply(k, at, round))
  {
  }

  /**
   * When the next refresh begins: ten seconds after one that failed; otherwise after two thirds of
   * the time that the credential gained last still has, but ten seconds at least, and after an hour
   * for a credential without an end.
   */
  lemma NextRefreshTime(first: Credential, start: int, rounds: seq<Round>, next: Round)
    requires AllRetried(rounds)
    ensures var k := AfterRounds(Starting(first, start), rounds);
            var k' := AfterRounds(Starting(first, start), rounds + [next]);
            var all := [first] + Gained(rounds);
            var expiresAt := all[|all| - 1].expiresAt;
            && |k'.attempts| == |rounds| + 1
            && var slept := k'.attempts[|rounds|] - k.now - next.late;
            && k'.now == k'.attempts[|rounds|] + next.took
            && (rounds != [] && !rounds[|rounds| - 1].reply.Success? ==> slept == 10_000_000_000)
            && (rounds == [] || rounds[|rounds| - 1].reply.Success? ==>
                  match expiresAt
                  case None => slept == 3600_000_000_000
                  case Some(t) =>
                    if t - k.now >= 15_000_000_000 then 3 * slept <= 2 * (t - k.now) < 3 * slept + 3
                    else slept == 10_000_000_000)
  {
    var k := AfterRounds(Starting(first, start), rounds);
    GivesUpIffFatal(first, start, rounds);
    RemembersLastRound(first, start, rounds);
    assert (rounds + [next])[..|rounds|] == rounds;
    SleepBounds(k.lastDidError, k.credential.expiresAt, k.now);
    AttemptIsAdded(k, next);
  }

  lemma AttemptIsAdded(k: KeepAlive, round: Round)
    requires k.end.Running?
    ensures var k' := AfterRound(k, round);
            var at := k.now + SleepTime(k.lastDidError, k.credential.expiresAt, k.now) + round.late;
            k'.attempts == k.attempts + [at] && k'.now == at + round.took
  {
  }

  ghost predicate FailsSlowly(rounds: seq<Round>, delay: nat) {
    forall i | 0 <= i < |rounds| ::
      rounds[i].late + rounds[i].took <= delay && Retried(rounds[i].reply) && !rounds[i].reply.Success?
  }

  /** While refreshes fail, the next one comes ten seconds later, and delays add up. */
  lemma {:induction false} FailuresAreRetried(first: Credential, start: int, rounds: seq<Round>, delay: nat)
    requires FailsSlowly(rounds, delay)
    ensures var k := AfterRounds(Starting(first, start), rounds); var n := |rounds|;
            && k.end.Running? && |k.attempts| == n && k.credential == first && (k.lastDidError <==> n > 0)
            && k.now <= start + (if n == 0 then 0 else SleepTime(false, first.expiresAt, start) - MIN_REFRESH)
                        + n * (MIN_REFRESH + delay)
            && (n > 0 ==> k.attempts[n - 1] <= k.now)
  {
    if rounds != [] {
      var m := |rounds| - 1;
      FailuresAreRetried(first, start, rounds[..m], delay);
      assert (m + 1) * (MIN_REFRESH + delay) == m * (MIN_REFRESH + delay) + (MIN_REFRESH + delay);
    }
  }

  /**
   * A token with at least 15 seconds left, whose refreshes fail and take at most `delay`: refreshes
   * go on for the last third of the time left, so n of them are made before the token expires
   * whenever n - 1 pauses of ten seconds and n delays fit into that third.
   */
  lemma RetriesBeforeExpiry(first: Credential, start: int, rounds: seq<Round>, delay: nat)
    requires FailsSlowly(rounds, delay) && rounds != [] && first.expiresAt.Some?
    requires first.expiresAt.value - start >= 15 * SECOND
    requires 3 * ((|rounds| - 1) * (MIN_REFRESH + delay) + delay) <= first.expiresAt.value - start
    ensures var k := AfterRounds(Starting(first, start), rounds);
            && |k.attempts| == |rounds|
            && forall i | 0 <= i < |rounds| :: k.attempts[i] <= first.expiresAt.value
  {
    var n := |rounds|;
    var k := AfterRounds(Starting(first, start), rounds);
    FailuresAreRetried(first, start, rounds, delay);
    SleepBounds(false, first.expiresAt, start);
    assert n * (MIN_REFRESH + delay) == (n - 1) * (MIN_REFRESH + delay) + (MIN_REFRESH + delay);
    StaysSteady(first, start, rounds);
    AttemptsAreInOrder(k.attempts);
  }

  lemma {:induction false} AttemptsAreInOrder(attempts: seq<int>)
    requires forall i | 0 <= i < |attempts| - 1 :: attempts[i + 1] - attempts[i] >= 10 * SECOND
    ensures forall i | 0 <= i < |attempts| :: attempts[i] <= attempts[|attempts| - 1]
  {
    if |attempts| > 1 {
      var init := attempts[..|attempts| - 1];
      AttemptsAreInOrder(init);
      assert attempts[|init| - 1 + 1] - attempts[|init| - 1] >= 10 * SECOND;
    }
  }
}
