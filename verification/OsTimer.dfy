/**
 * A timer that is a kqueue holding one EVFILT_TIMER: arming it with a deadline, disarming it, and
 * reading whether it fired.  One client gives absolute deadlines, the other times from now; some
 * systems count nanoseconds, one only milliseconds.
 */
module OsTimer {
  import opened Bytes
  import opened Errno

  const TWO64 := 0x1_0000_0000_0000_0000
  const TWO63 := 0x8000_0000_0000_0000
  const MS := 1_000_000                // nanoseconds in a millisecond

  type u64 = w: int | 0 <= w < TWO64

  /** absolute: deadlines are points in time; millis: the kernel reads the interval in milliseconds. */
  datatype Config = Config(absolute: bool, millis: bool)

  // ---- From a request to an interval ----

  function Remaining(c: Config, nsecs: u64, now: u64): u64 {
    if !c.absolute then nsecs else if nsecs > now then nsecs - now else 1
  }

  function Deadline(c: Config, nsecs: u64, now: u64): nat {
    if c.absolute then nsecs else now + nsecs
  }

  /** Rounded up; the addition is in 64 bits. */
  function Millis(rel: u64): u64 {
    var ms := (rel + (MS - 1)) % TWO64 / MS;
    if ms == 0 then 1 else ms
  }

  function Delay(c: Config, rel: u64): nat {
    if c.millis then Millis(rel) * MS else rel
  }

  /** The interval is one that neither the rounding nor the cast to a signed word spoils. */
  predicate Representable(c: Config, rel: u64) {
    if c.millis then rel + (MS - 1) < TWO64 else rel < TWO63
  }

  /** Rounding never shortens an interval, as long as the addition does not wrap, and then only. */
  lemma MillisNeverShort(rel: u64)
    ensures Millis(rel) * MS >= rel <==> rel + (MS - 1) < TWO64
    ensures rel > 0 && rel + (MS - 1) < TWO64 ==> Millis(rel) * MS < rel + MS
  {
    if rel + (MS - 1) >= TWO64 {
      var wrapped := rel + (MS - 1) - TWO64;
      ModUnique(rel + (MS - 1), TWO64, 1, wrapped);
      assert Millis(rel) == 1;
    }
  }

  /** Counted in milliseconds, a timer is not early if and only if the rounding does not wrap. */
  lemma NeverEarlyIff(c: Config, nsecs: u64, now: u64)
    requires c.millis
    ensures Deadline(c, nsecs, now) <= now + Delay(c, Remaining(c, nsecs, now))
       <==> Representable(c, Remaining(c, nsecs, now))
  {
    MillisNeverShort(Remaining(c, nsecs, now));
  }

  /** An armed timer goes off at or after its deadline, and less than a millisecond late if that is ahead. */
  lemma FiringTime(c: Config, nsecs: u64, now: u64)
    requires nsecs != 0 && Representable(c, Remaining(c, nsecs, now))
    ensures var at := now + Delay(c, Remaining(c, nsecs, now));
      && Deadline(c, nsecs, now) <= at && now < at
      && (now < Deadline(c, nsecs, now) ==> at < Deadline(c, nsecs, now) + MS)
      && (now >= Deadline(c, nsecs, now) ==> at <= now + MS)
  {
    MillisNeverShort(Remaining(c, nsecs, now));
  }

  /** Counted in nanoseconds, a timer goes off at its deadline, or in a nanosecond if that has passed. */
  lemma NanosecondsExact(c: Config, nsecs: u64, now: u64)
    requires !c.millis && nsecs != 0
    ensures now + Delay(c, Remaining(c, nsecs, now))
         == if now < Deadline(c, nsecs, now) then Deadline(c, nsecs, now) else now + 1
  {
  }

  // ---- Runs ----

  /** misread: when the kernel has the timer go off if the signed interval it is given is negative. */
  datatype Event =
    | Set(nsecs: u64, misread: Option<nat>)      // zero disarms
    | Wait(dt: nat)
    | Read(interrupted: bool)

  /** The clock, and when the armed timer goes off; it stays pending until it is read. */
  datatype State = State(now: nat, fireAt: Option<nat>)

  /** The interval as the signed word that the kernel is given, in its unit. */
  function Signed(c: Config, rel: u64): int {
    if c.millis then Millis(rel) else if rel < TWO63 then rel else rel - TWO64
  }

  /** When a timer armed now goes off. */
  function Arming(c: Config, now: nat, nsecs: u64, misread: Option<nat>): Option<nat> {
    var rel := Remaining(c, nsecs, now % TWO64);
    if Signed(c, rel) < 0 then misread else Some(now + Delay(c, rel))
  }

  predicate Fires(st: State, e: Event) {
    e.Read? && !e.interrupted && st.fireAt.Some? && st.fireAt.value <= st.now
  }

  function Step(c: Config, st: State, e: Event): State {
    match e
    case Set(nsecs, misread) => st.(fireAt := if nsecs == 0 then None else Arming(c, st.now, nsecs, misread))
    case Wait(dt) => st.(now := st.now + dt)
    case Read(_) => if Fires(st, e) then st.(fireAt := None) else st
  }

  function At(c: Config, start: nat, es: seq<Event>, i: nat): State
    requires i <= |es|
  {
    if i == 0 then State(start, None) else Step(c, At(c, start, es, i - 1), es[i - 1])
  }

  /** How long the events wait, all in all. */
  function Waited(es: seq<Event>): nat {
    if es == [] then 0
    else Waited(es[..|es| - 1]) + (match es[|es| - 1] case Wait(dt) => dt case _ => 0)
  }

  /** The clock shows how long was waited; nothing else moves it. */
  lemma {:induction false} ClockRuns(c: Config, start: nat, es: seq<Event>, i: nat)
    requires i <= |es|
    ensures At(c, start, es, i).now == start + Waited(es[..i])
    decreases i
  {
    if i > 0 {
      assert es[..i][..i - 1] == es[..i - 1];
      ClockRuns(c, start, es, i - 1);
    }
  }

  predicate FiresAt(c: Config, start: nat, es: seq<Event>, i: nat)
    requires i < |es|
  {
    Fires(At(c, start, es, i), es[i])
  }

  /** The arming at j is the one in force at i: not replaced, disarmed or reported in between. */
  ghost predicate InForce(c: Config, start: nat, es: seq<Event>, j: nat, i: nat)
    requires j < i <= |es|
  {
    && es[j].Set? && es[j].nsecs != 0
    && forall k :: j < k < i ==> !es[k].Set? && !FiresAt(c, start, es, k)
  }

  /** When the arming at j makes the timer go off. */
  function FireTime(c: Config, start: nat, es: seq<Event>, j: nat): Option<nat>
    requires j < |es| && es[j].Set?
  {
    Arming(c, At(c, start, es, j).now, es[j].nsecs, es[j].misread)
  }

  /** The arming at j has made the timer go off by i. */
  predicate DueAt(c: Config, start: nat, es: seq<Event>, j: nat, i: nat)
    requires j < i <= |es| && es[j].Set?
  {
    FireTime(c, start, es, j).Some? && FireTime(c, start, es, j).value <= At(c, start, es, i).now
  }

  lemma {:induction false} ArmedByInForce(c: Config, start: nat, es: seq<Event>, i: nat)
    returns (j: Option<nat>)
    requires i <= |es|
    ensures j.Some? ==> j.value < i && InForce(c, start, es, j.value, i)
    ensures At(c, start, es, i).fireAt == if j.Some? then FireTime(c, start, es, j.value) else None
    decreases i
  {
    if i == 0 {
      j := None;
    } else {
      var e := es[i - 1];
      if e.Set? {
        j := if e.nsecs == 0 then None else Some(i - 1);
      } else if FiresAt(c, start, es, i - 1) {
        j := None;
      } else {
        j := ArmedByInForce(c, start, es, i - 1);
      }
    }
  }

  lemma {:induction false} InForceIsArmed(c: Config, start: nat, es: seq<Event>, j: nat, i: nat)
    requires j < i <= |es| && InForce(c, start, es, j, i)
    ensures At(c, start, es, i).fireAt == FireTime(c, start, es, j)
    decreases i
  {
    if j < i - 1 {
      InForceIsArmed(c, start, es, j, i - 1);
    }
  }

  /**
   * In every run, an uninterrupted read reports the timer exactly when some arming is in force whose
   * firing time has come.
   */
  lemma ReadReportsIff(c: Config, start: nat, es: seq<Event>, i: nat)
    requires i < |es| && es[i] == Read(false)
    ensures FiresAt(c, start, es, i)
       <==> exists j :: 0 <= j < i && InForce(c, start, es, j, i) && DueAt(c, start, es, j, i)
  {
    if FiresAt(c, start, es, i) {
      var j := ArmedByInForce(c, start, es, i);
    }
    if j :| 0 <= j < i && InForce(c, start, es, j, i) && DueAt(c, start, es, j, i) {
      InForceIsArmed(c, start, es, j, i);
    }
  }

  /** No arming is reported twice: what a later read reports was armed after the earlier read. */
  lemma ReportedOnce(c: Config, start: nat, es: seq<Event>, i: nat, later: nat) returns (j: nat, j': nat)
    requires i < later < |es| && FiresAt(c, start, es, i) && FiresAt(c, start, es, later)
    ensures j < i < j' < later && InForce(c, start, es, j, i) && InForce(c, start, es, j', later)
    ensures forall k :: 0 <= k < i && InForce(c, start, es, k, i) ==> !InForce(c, start, es, k, later)
  {
    var arming := ArmedByInForce(c, start, es, i);
    var next := ArmedByInForce(c, start, es, later);
    j, j' := arming.value, next.value;
    assert es[i].Read?;
  }

  /** The clock and the interval requested at i, clear of 64-bit overflow. */
  predicate ClearAt(c: Config, start: nat, es: seq<Event>, i: nat)
    requires i < |es|
  {
    var now := At(c, start, es, i).now;
    now < TWO64 && (es[i].Set? ==> Representable(c, Remaining(c, es[i].nsecs, now)))
  }

  lemma FireTimeBounds(c: Config, start: nat, es: seq<Event>, j: nat)
    requires j < |es| && es[j].Set? && es[j].nsecs != 0 && ClearAt(c, start, es, j)
    ensures var now := At(c, start, es, j).now;
      var deadline := Deadline(c, es[j].nsecs, now);
      && FireTime(c, start, es, j).Some?
      && deadline <= FireTime(c, start, es, j).value
      && (now < deadline ==> FireTime(c, start, es, j).value < deadline + MS)
  {
    FiringTime(c, es[j].nsecs, At(c, start, es, j).now);
  }

  lemma MillisArming(c: Config, nsecs: u64, now: u64, misread: Option<nat>)
    requires c.millis
    ensures Arming(c, now, nsecs, misread) == Some(now + Delay(c, Remaining(c, nsecs, now)))
  {
    assert now % TWO64 == now;
  }

  /** In a run of a timer that counts milliseconds, an arming is for its deadline or later exactly if it is clear. */
  lemma MillisArmingIff(c: Config, start: nat, es: seq<Event>, j: nat, nsecs: u64, now: u64)
    requires j < |es| && es[j].Set? && es[j].nsecs != 0 && c.millis
    requires nsecs == es[j].nsecs && now == At(c, start, es, j).now
    ensures FireTime(c, start, es, j).Some?
    ensures Deadline(c, nsecs, now) <= FireTime(c, start, es, j).value <==> ClearAt(c, start, es, j)
  {
    MillisArming(c, nsecs, now, es[j].misread);
    NeverEarlyIff(c, nsecs, now);
  }

  /** An interval of 2^63 nanoseconds or more is a negative word to the kernel, which may make anything of it. */
  lemma LongIntervalMisread(c: Config, start: nat, es: seq<Event>, j: nat)
    requires j < |es| && es[j].Set? && !c.millis && At(c, start, es, j).now < TWO64
    ensures 0x8000_0000_0000_0000 <= Remaining(c, es[j].nsecs, At(c, start, es, j).now) ==>
      FireTime(c, start, es, j) == es[j].misread
  {
  }

  /** No timeout is reported early: the arming it reports had a deadline that has passed. */
  lemma NoEarlyTimeout(c: Config, start: nat, es: seq<Event>, i: nat) returns (j: nat)
    requires i < |es| && FiresAt(c, start, es, i)
    requires forall k :: 0 <= k < i ==> ClearAt(c, start, es, k)
    ensures j < i && InForce(c, start, es, j, i) && ClearAt(c, start, es, j)
    ensures Deadline(c, es[j].nsecs, At(c, start, es, j).now) <= At(c, start, es, i).now
  {
    var arming := ArmedByInForce(c, start, es, i);
    j := arming.value;
    FireTimeBounds(c, start, es, j);
  }

  /** Near the top of the 64-bit range the milliseconds wrap, and the timer does go off early. */
  lemma WrappedIntervalFiresEarly(start: nat, nsecs: u64)
    requires nsecs + (MS - 1) >= TWO64
    ensures var c := Config(false, true);
      var es := [Set(nsecs, None), Wait(MS), Read(false)];
      FiresAt(c, start, es, 2) && At(c, start, es, 2).now < Deadline(c, nsecs, 0) + start
  {
    var c := Config(false, true);
    var es := [Set(nsecs, None), Wait(MS), Read(false)];
    MillisNeverShort(nsecs);
    assert At(c, start, es, 1) == Step(c, State(start, None), es[0]);
    assert At(c, start, es, 2) == Step(c, At(c, start, es, 1), es[1]);
    ModUnique(nsecs + (MS - 1), TWO64, 1, nsecs + (MS - 1) - TWO64);
    assert Millis(nsecs) == 1;
  }

  // ---- The functions ----

  class KqueueTimer {
    const config: Config
    var now: u64                       // the kernel's clock, which no method sets
    var fireAt: Option<nat>

    constructor (c: Config, start: u64)
      ensures config == c && Current() == State(start, None)
    {
      config := c;
      now, fireAt := start, None;
    }

    ghost function Current(): State
      reads this
    {
      State(now, fireAt)
    }

    /**
     * kevent with EV_ADD | EV_ENABLE | EV_ONESHOT: replaces a timer that is already there.  The interval is
     * a signed word in the kernel's unit; what becomes of a negative one is up to the kernel.
     */
    method KeventAdd(data: int, misread: Option<nat>)
      requires -TWO63 <= data < TWO63
      modifies this`fireAt
      ensures fireAt == if data < 0 then misread else Some(now + (if config.millis then data * MS else data))
    {
      fireAt := if data < 0 then misread else Some(now + (if config.millis then data * MS else data));
    }

    method KeventDelete() returns (errno: int)
      modifies this`fireAt
      ensures fireAt == None && (errno == 0 || errno == ENOENT)
    {
      errno := if fireAt.None? then ENOENT else 0;
      fireAt := None;
    }

    /** kevent without a change list: how many events were returned, four at most, or -1 when interrupted. */
    method KeventPoll(interrupted: bool) returns (r: int)
      modifies this`fireAt
      ensures if interrupted then r == -1 else if Fires(old(Current()), Read(false)) then 1 <= r <= 4 else r == 0
      ensures Current() == Step(config, old(Current()), Read(interrupted))
    {
      if interrupted { return -1; }
      if fireAt.Some? && fireAt.value <= now {
        fireAt := None;
        r :| 1 <= r <= 4;
        return;
      }
      return 0;
    }

    /** (int64_t) */
    static function Cast(w: u64): (i: int)
      ensures -TWO63 <= i < TWO63
    {
      if w < TWO63 then w else w - TWO64
    }

    /** The interval to arm the timer with, in the kernel's unit. */
    method Interval(nsecs: u64) returns (data: int)
      ensures data == Signed(config, Remaining(config, nsecs, now))
    {
      var rel: u64 := nsecs;
      if config.absolute {
        rel := if nsecs > now then nsecs - now else 1;
      }
      if !config.millis {
        return Cast(rel);
      }
      var ms := (rel + 999999) % TWO64 / 1000000;
      if ms == 0 {
        ms := 1;
      }
      return Cast(ms);
    }

    method TimerSet(nsecs: u64, misread: Option<nat>) returns (r: int)
      modifies this`fireAt
      ensures r == 0 && Current() == Step(config, old(Current()), Set(nsecs, misread))
    {
      if nsecs == 0 {
        var errno := KeventDelete();
        if errno != 0 && errno != ENOENT { return -errno; }
        return 0;
      }
      var data := Interval(nsecs);
      KeventAdd(data, misread);
      return 0;
    }

    /** Drains the queue, however many events a round returns, and although later rounds may be interrupted. */
    method TimerRead(interrupted: bool) returns (fired: bool)
      modifies this`fireAt
      ensures fired == Fires(old(Current()), Read(interrupted))
      ensures Current() == Step(config, old(Current()), Read(interrupted))
    {
      fired := false;
      var stop := interrupted;
      var r := KeventPoll(stop);
      fired := r > 0;
      while r == 4
        invariant fired == Fires(old(Current()), Read(interrupted)) && (r == 4 ==> fired)
        invariant Current() == Step(config, old(Current()), Read(interrupted))
        decreases r
      {
        stop := *;
        r := KeventPoll(stop);
        if r > 0 {
          fired := true;
        }
      }
    }
  }
}
