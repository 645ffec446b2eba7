/**
 * The daily digest: a ticker wakes a job that sends each user one mail in the local hour the user
 * chose, and remembers the day it did so.
 *
 * Times are seconds since the epoch; a time zone is a fixed offset from UTC in seconds.  A day is
 * the number of days since the epoch, which stands for its `2006-01-02` text.
 */
module Digest {
  import opened Common

  const HOUR: int := 3600
  const DAY: int := 86400

  /** The local calendar day and hour of an instant; division rounds down, also before 1970. */
  function LocalDay(t: int, offset: int): int { (t + offset) / DAY }

  function LocalHour(t: int, offset: int): int { (t + offset) % DAY / HOUR }

  /** The instant stored for a day: that date's midnight in UTC. */
  function DayKey(day: int): int { day * DAY }

  datatype Settings = Settings(offset: int, hour: int, lastSentOn: Option<int>)

  /** How the parts of one attempt go. */
  datatype Attempt = Attempt(hasAddress: bool, sent: bool, marked: bool)

  /** Whether a digest goes out in this attempt, and what is remembered afterwards. */
  function Processed(st: Settings, now: int, a: Attempt): (bool, Settings) {
    var today := LocalDay(now, st.offset);
    if LocalHour(now, st.offset) != st.hour then (false, st)
    else if st.lastSentOn.Some? && LocalDay(st.lastSentOn.value, st.offset) == today then (false, st)
    else if !a.hasAddress || !a.sent then (false, st)
    else (true, if a.marked then st.(lastSentOn := Some(DayKey(today))) else st)
  }

  datatype Mail = Mail(user: nat, day: int)

  /** A listed row, with the time at which it is processed and how that goes. */
  datatype Row = Row(user: nat, st: Settings, now: int, attempt: Attempt)

  function Outcome(row: Row): (bool, Settings) { Processed(row.st, row.now, row.attempt) }

  function Mails(rows: seq<Row>): seq<Mail> {
    if rows == [] then []
    else
      var last := rows[|rows| - 1];
      Mails(rows[..|rows| - 1]) +
      if Outcome(last).0 then [Mail(last.user, LocalDay(last.now, last.st.offset))] else []
  }

  class Jobs {
    var settings: map<nat, Settings>
    var outbox: seq<Mail>

    constructor (settings: map<nat, Settings>)
      ensures this.settings == settings && outbox == []
    {
      this.settings, outbox := settings, [];
    }

    /** One row of the digest settings, as listed when the tick began. */
    method ProcessDigest(user: nat, st: Settings, now: int, a: Attempt)
      modifies this
      ensures var (sent, after) := Processed(st, now, a);
              && outbox == (if sent then old(outbox) + [Mail(user, LocalDay(now, st.offset))] else old(outbox))
              && settings == (if sent && a.marked then old(settings)[user := after] else old(settings))
    {
      if LocalHour(now, st.offset) != st.hour {
        return;
      }
      var today := LocalDay(now, st.offset);
      if st.lastSentOn.Some? {
        if LocalDay(st.lastSentOn.value, st.offset) == today {
          return;
        }
      }
      if !a.hasAddress || !a.sent {
        return;
      }
      outbox := outbox + [Mail(user, today)];
      if a.marked {
        settings := settings[user := st.(lastSentOn := Some(DayKey(today)))];
      }
    }

    /** A tick goes over the rows it listed; each user has one. */
    method RunJobs(rows: seq<Row>)
      requires forall i | 0 <= i < |rows| :: rows[i].user in settings && settings[rows[i].user] == rows[i].st
      requires forall i, j | 0 <= i < j < |rows| :: rows[i].user != rows[j].user
      modifies this
      ensures outbox == old(outbox) + Mails(rows)
      ensures settings.Keys == old(settings).Keys
      ensures forall i | 0 <= i < |rows| :: settings[rows[i].user] == Outcome(rows[i]).1
      ensures forall u | u in old(settings) && (forall i | 0 <= i < |rows| :: rows[i].user != u) ::
                settings[u] == old(settings)[u]
    {
      for k := 0 to |rows|
        invariant outbox == old(outbox) + Mails(rows[..k])
        invariant settings.Keys == old(settings).Keys
        invariant forall i | 0 <= i < k :: settings[rows[i].user] == Outcome(rows[i]).1
        invariant forall i | k <= i < |rows| :: settings[rows[i].user] == rows[i].st
        invariant forall u | u in old(settings) && (forall i | 0 <= i < |rows| :: rows[i].user != u) ::
                    settings[u] == old(settings)[u]
      {
        ProcessDigest(rows[k].user, rows[k].st, rows[k].now, rows[k].attempt);
        assert rows[..k + 1][..k] == rows[..k];
      }
      assert rows[..|rows|] == rows;
    }
  }

  // ------------------------------------------------------------------ the day comes back

  /** The stored key reads back as its own day exactly for offsets from 0 to less than a day. */
  lemma KeyReadsBackIff(day: int, offset: int)
    ensures LocalDay(DayKey(day), offset) == day <==> 0 <= offset < DAY
  {
    var q, r := offset / DAY, offset % DAY;
    assert DayKey(day) + offset == (day + q) * DAY + r;
    assert (DayKey(day) + offset) / DAY == day + q;
  }

  // ------------------------------------------------------------------ who gets a mail

  /** The attempt falls into the user's hour of this day, for which no digest is remembered, and works. */
  predicate DueFor(st: Settings, now: int, a: Attempt, day: int) {
    && a.hasAddress && a.sent
    && day * 86400 + st.hour * 3600 <= now + st.offset < day * 86400 + st.hour * 3600 + 3600
    && (st.lastSentOn.Some? ==>
          !(day * 86400 <= st.lastSentOn.value + st.offset < day * 86400 + 86400))
  }

  lemma DayOf(t: int, offset: int, day: int)
    ensures LocalDay(t, offset) == day <==> day * 86400 <= t + offset < day * 86400 + 86400
  {
  }

  /** A row brings a mail, and a marked one is remembered as its day, exactly when it is due for one. */
  lemma ProcessedIff(st: Settings, now: int, a: Attempt)
    requires 0 <= st.hour < 24
    ensures var (mailed, after) := Processed(st, now, a); var today := LocalDay(now, st.offset);
            && (forall day :: DueFor(st, now, a, day) <==> mailed && day == today)
            && after == if mailed && a.marked then st.(lastSentOn := Some(today * 86400)) else st
  {
    forall day ensures DueFor(st, now, a, day) <==> Processed(st, now, a).0 && day == LocalDay(now, st.offset) {
      WindowIff(now, day, st.hour, st.offset);
      DayOf(now, st.offset, day);
      if st.lastSentOn.Some? {
        DayOf(st.lastSentOn.value, st.offset, day);
      }
    }
  }

  /** Over a whole tick: a user gets the mail of a day exactly when the user's row is due for it. */
  lemma {:induction false} MailsIff(rows: seq<Row>, user: nat, day: int)
    requires forall i | 0 <= i < |rows| :: 0 <= rows[i].st.hour < 24
    ensures Mail(user, day) in Mails(rows) <==>
            exists i :: 0 <= i < |rows| && rows[i].user == user
                        && DueFor(rows[i].st, rows[i].now, rows[i].attempt, day)
    ensures |Mails(rows)| <= |rows|
  {
    if rows != [] {
      var n := |rows| - 1;
      var before, last := rows[..n], rows[n];
      MailsIff(before, user, day);
      ProcessedIff(last.st, last.now, last.attempt);
      assert forall i | 0 <= i < n :: before[i] == rows[i];
    }
  }

  // ------------------------------------------------------------------ one user over many ticks

  datatype Tick = Tick(now: int, attempt: Attempt)

  /** Time does not run backwards from tick to tick. */
  ghost predicate InOrder(ticks: seq<Tick>) {
    forall i, j | 0 <= i < j < |ticks| :: ticks[i].now <= ticks[j].now
  }

  function AfterTicks(st: Settings, ticks: seq<Tick>): Settings {
    if ticks == [] then st
    else Processed(AfterTicks(st, ticks[..|ticks| - 1]), Back(ticks).now, Back(ticks).attempt).1
  }

  function Back(ticks: seq<Tick>): Tick
    requires ticks != []
  {
    ticks[|ticks| - 1]
  }

  /** The number of digests sent for a day. */
  function SentFor(st: Settings, ticks: seq<Tick>, day: int): nat {
    if ticks == [] then 0
    else
      var before, last := ticks[..|ticks| - 1], Back(ticks);
      SentFor(st, before, day) +
      if Processed(AfterTicks(st, before), last.now, last.attempt).0 && LocalDay(last.now, st.offset) == day
      then 1 else 0
  }

  /** Digests for the day that were sent but could not be marked as sent. */
  function UnmarkedFor(st: Settings, ticks: seq<Tick>, day: int): nat {
    if ticks == [] then 0
    else
      var before, last := ticks[..|ticks| - 1], Back(ticks);
      UnmarkedFor(st, before, day) +
      if Processed(AfterTicks(st, before), last.now, last.attempt).0 && !last.attempt.marked
         && LocalDay(last.now, st.offset) == day
      then 1 else 0
  }

  /** Ticks in the user's hour of the day. */
  function DueTicks(st: Settings, ticks: seq<Tick>, day: int): nat {
    if ticks == [] then 0
    else
      DueTicks(st, ticks[..|ticks| - 1], day) +
      if LocalDay(Back(ticks).now, st.offset) == day && LocalHour(Back(ticks).now, st.offset) == st.hour
      then 1 else 0
  }

  ghost predicate AllSucceed(ticks: seq<Tick>) {
    forall i | 0 <= i < |ticks| ::
      ticks[i].attempt.hasAddress && ticks[i].attempt.sent && ticks[i].attempt.marked
  }

  /** What is remembered at the start is from before the ticks, and from before the given day. */
  ghost predicate StartsBefore(st: Settings, ticks: seq<Tick>, day: int) {
    st.lastSentOn.Some? ==>
      && LocalDay(st.lastSentOn.value, st.offset) < day
      && forall i | 0 <= i < |ticks| ::
           LocalDay(st.lastSentOn.value, st.offset) <= LocalDay(ticks[i].now, st.offset)
  }

  lemma DaysInOrder(t: int, u: int, offset: int)
    requires t <= u
    ensures LocalDay(t, offset) <= LocalDay(u, offset)
  {
  }

  /** What is remembered never runs ahead of the ticks, and it is kept as the key of some day. */
  lemma {:induction false} RememberedDay(st: Settings, ticks: seq<Tick>, day: int)
    requires InOrder(ticks) && 0 <= st.offset < DAY && StartsBefore(st, ticks, day)
    ensures var after := AfterTicks(st, ticks);
            && after.offset == st.offset && after.hour == st.hour
            && (after.lastSentOn == st.lastSentOn ||
                (ticks != [] && after.lastSentOn.Some? &&
                 LocalDay(after.lastSentOn.value, st.offset) <= LocalDay(Back(ticks).now, st.offset)))
  {
    if ticks != [] {
      var before, last := ticks[..|ticks| - 1], Back(ticks);
      RememberedDay(st, before, day);
      KeyReadsBackIff(LocalDay(last.now, st.offset), st.offset);
      if before != [] {
        DaysInOrder(Back(before).now, last.now, st.offset);
      }
    }
  }

  /**
   * East of Greenwich (offsets of 0 up to a day), at most one digest a local day, but for those
   * that could not be marked as sent; a marked one is the last of its day.
   */
  lemma {:induction false} AtMostOneADay(st: Settings, ticks: seq<Tick>, day: int)
    requires InOrder(ticks) && 0 <= st.offset < DAY && StartsBefore(st, ticks, day)
    ensures SentFor(st, ticks, day) <= 1 + UnmarkedFor(st, ticks, day)
    ensures SentFor(st, ticks, day) == 1 + UnmarkedFor(st, ticks, day) ==>
              var after := AfterTicks(st, ticks);
              after.lastSentOn.Some? && LocalDay(after.lastSentOn.value, st.offset) >= day
  {
    if ticks != [] {
      var before, last := ticks[..|ticks| - 1], Back(ticks);
      AtMostOneADay(st, before, day);
      RememberedDay(st, before, day);
      KeyReadsBackIff(LocalDay(last.now, st.offset), st.offset);
      if before != [] {
        DaysInOrder(Back(before).now, last.now, st.offset);
      }
    }
  }

  /**
   * Exactly: when all sends and marks succeed, the digests of a day number one if the user's hour
   * saw a tick that day and the offset is not negative, and one for every such tick if it is.
   */
  lemma {:induction false} DigestsOfADay(st: Settings, ticks: seq<Tick>, day: int)
    requires InOrder(ticks) && AllSucceed(ticks) && StartsBefore(st, ticks, day)
    requires -DAY < st.offset < DAY
    ensures SentFor(st, ticks, day) ==
            if st.offset >= 0 then (if DueTicks(st, ticks, day) > 0 then 1 else 0)
            else DueTicks(st, ticks, day)
    ensures var after := AfterTicks(st, ticks);
            && after.offset == st.offset && after.hour == st.hour
            && (after.lastSentOn == st.lastSentOn ||
                (ticks != [] && after.lastSentOn.Some? &&
                 LocalDay(after.lastSentOn.value, st.offset) <=
                   LocalDay(Back(ticks).now, st.offset) - (if st.offset < 0 then 1 else 0)))
            && (st.offset >= 0 && DueTicks(st, ticks, day) > 0 ==>
                  after.lastSentOn.Some? && LocalDay(after.lastSentOn.value, st.offset) >= day)
            && (st.offset >= 0 && DueTicks(st, ticks, day) == 0 ==>
                  after.lastSentOn == st.lastSentOn || LocalDay(after.lastSentOn.value, st.offset) != day)
  {
    if ticks != [] {
      var before, last := ticks[..|ticks| - 1], Back(ticks);
      DigestsOfADay(st, before, day);
      var today := LocalDay(last.now, st.offset);
      KeyReadsBackIff(today, st.offset);
      if st.offset < 0 {
        WestReadsDayBefore(today, st.offset);
      }
      if before != [] {
        DaysInOrder(Back(before).now, last.now, st.offset);
      }
      assert last == ticks[|ticks| - 1] && last.attempt.sent;
    }
  }

  lemma WestReadsDayBefore(day: int, offset: int)
    requires -DAY < offset < 0
    ensures LocalDay(DayKey(day), offset) == day - 1
  {
    assert DayKey(day) + offset == (day - 1) * DAY + (DAY + offset);
  }

  // ------------------------------------------------------------------ the ticker

  /** The instant at which the given hour of a local day begins. */
  function WindowStart(day: int, hour: int, offset: int): int { day * DAY + hour * HOUR - offset }

  lemma WindowIff(t: int, day: int, hour: int, offset: int)
    requires 0 <= hour < 24
    ensures LocalDay(t, offset) == day && LocalHour(t, offset) == hour <==>
            WindowStart(day, hour, offset) <= t < WindowStart(day, hour, offset) + HOUR
  {
    var d, r := LocalDay(t, offset), (t + offset) % DAY;
    assert t + offset == d * DAY + r && 0 <= r < DAY;
    var h := r / HOUR;
    assert h * HOUR <= r < h * HOUR + HOUR && 0 <= h < 24;
    if WindowStart(day, hour, offset) <= t < WindowStart(day, hour, offset) + HOUR {
      assert d == day;
    }
  }

  /** The configured interval, with an hour in place of anything shorter than a minute. */
  function Period(interval: int): int { if interval < 60 then HOUR else interval }

  /** The time of the k-th tick of a ticker. */
  function TickAt(start: int, period: int, k: nat): int { start + k * period }

  /** Ticks are as far apart as configured, but never less than a minute: then it is an hour. */
  lemma TicksApart(interval: int, start: int, k: nat)
    ensures var apart := TickAt(start, Period(interval), k + 1) - TickAt(start, Period(interval), k);
            if interval >= 60 then apart == interval else apart == 3600
  {
    var p := Period(interval);
    assert (k + 1) * p == k * p + p;
  }

  ghost predicate HitsWindow(start: int, period: int, from: int) {
    exists k: nat :: from <= TickAt(start, period, k) < from + HOUR
  }

  lemma TickInWindow(start: int, period: int, from: int)
    requires 0 < period <= HOUR && start < from + HOUR
    ensures HitsWindow(start, period, from)
  {
    if start >= from {
      assert TickAt(start, period, 0) == start;
    } else {
      var k := (from - start + period - 1) / period;
      assert k * period >= from - start && k * period < from - start + period;
      assert from <= TickAt(start, period, k) < from + HOUR;
    }
  }

  /** A ticker started in time hits every user's hour exactly when its period is at most an hour. */
  lemma EveryHourIsHitIff(interval: int)
    ensures (forall start, from :: start < from + HOUR ==> HitsWindow(start, Period(interval), from))
       <==> interval <= HOUR
  {
    var p := Period(interval);
    if interval <= HOUR {
      forall start, from | start < from + HOUR ensures HitsWindow(start, p, from) {
        TickInWindow(start, p, from);
      }
    } else {
      assert !HitsWindow(-1, p, 0) by {
        forall k: nat ensures !(0 <= TickAt(-1, p, k) < HOUR) {
          if k >= 1 {
            assert k * p >= p by { assert (k - 1) * p >= 0; }
          }
        }
      }
    }
  }

  lemma {:induction false} DueTickCounts(st: Settings, ticks: seq<Tick>, day: int, i: nat)
    requires i < |ticks| && LocalDay(ticks[i].now, st.offset) == day
    requires LocalHour(ticks[i].now, st.offset) == st.hour
    ensures DueTicks(st, ticks, day) > 0
  {
    if i < |ticks| - 1 {
      DueTickCounts(st, ticks[..|ticks| - 1], day, i);
    }
  }

  /**
   * One digest a day: ticks at most an hour apart, from before the user's hour ends until after it
   * began, with sends and marks that succeed, bring exactly one digest for that day, for every
   * offset from 0 to less than a day.
   */
  lemma ExactlyOneADay(st: Settings, ticks: seq<Tick>, day: int)
    requires InOrder(ticks) && AllSucceed(ticks) && StartsBefore(st, ticks, day)
    requires 0 <= st.offset < DAY && 0 <= st.hour < 24 && ticks != []
    requires forall i | 0 <= i < |ticks| - 1 :: ticks[i + 1].now - ticks[i].now <= HOUR
    requires ticks[0].now < WindowStart(day, st.hour, st.offset) + HOUR
    requires Back(ticks).now >= WindowStart(day, st.hour, st.offset)
    ensures SentFor(st, ticks, day) == 1
  {
    var from := WindowStart(day, st.hour, st.offset);
    var i := 0;
    while ticks[i].now < from
      invariant i < |ticks| && ticks[i].now < from + HOUR
      decreases |ticks| - i
    {
      assert i < |ticks| - 1;
      i := i + 1;
    }
    WindowIff(ticks[i].now, day, st.hour, st.offset);
    DueTickCounts(st, ticks, day, i);
    DigestsOfADay(st, ticks, day);
  }
}
