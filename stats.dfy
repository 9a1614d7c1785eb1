/**
 * The activity accumulator: a page is active or inactive, and while active the time
 * elapsed since the last recorded instant is added to `activeTime`, unless that delta
 * reaches the 5-minute ceiling (a jump from sleep or resume). `Date.now()` is the
 * parameter `now`; the `setInterval` handle is a parameter of the constructor.
 */
module ActivityStats {
  import opened Wrappers
  import opened Strings

  /** Deltas of this many milliseconds or more are not added (5 * 60 * 1000). */
  const Ceiling: int := 300000

  /** The four fields of `Stats` that the handlers update. */
  datatype Tally = Tally(startTime: int, activeTime: int, lastActiveTime: int, active: bool)

  /** `recordActivity` at `now`. */
  function Record(t: Tally, now: int): (r: Tally)
    ensures !t.active ==> r == t
    ensures r.startTime == t.startTime && r.active == t.active
    ensures t.active ==> r.lastActiveTime == now
    ensures t.active && now - t.lastActiveTime < Ceiling ==> r.activeTime == t.activeTime + (now - t.lastActiveTime)
    ensures now - t.lastActiveTime >= Ceiling ==> r.activeTime == t.activeTime
    ensures now >= t.lastActiveTime ==> t.activeTime <= r.activeTime < t.activeTime + Ceiling
  {
    if !t.active then t
    else
      var delta := now - t.lastActiveTime;
      Tally(t.startTime, if delta < Ceiling then t.activeTime + delta else t.activeTime, now, true)
  }

  /** The `focus` handler, and `visibilitychange` to visible. */
  function Focus(t: Tally, now: int): (r: Tally)
    ensures r.active && r.lastActiveTime == now
    ensures r.activeTime == t.activeTime && r.startTime == t.startTime
  {
    Tally(t.startTime, t.activeTime, now, true)
  }

  /**
   * The `blur` handler, and `visibilitychange` to hidden, as their comment intends:
   * record the pending active time, then become inactive.
   */
  function Blur(t: Tally, now: int): (r: Tally)
    ensures !r.active && r.startTime == t.startTime
    ensures r.activeTime == Record(t, now).activeTime
    ensures r.lastActiveTime == Record(t, now).lastActiveTime
  {
    var recorded := Record(t, now);
    Tally(recorded.startTime, recorded.activeTime, recorded.lastActiveTime, false)
  }

  /**
   * The `blur` handler as written (stats.js lines 39-40): the flag is cleared first, so
   * the `recordActivity` that follows finds the page inactive and records nothing.
   */
  function BlurAsWritten(t: Tally, now: int): (r: Tally)
    ensures !r.active
    ensures r.activeTime == t.activeTime && r.lastActiveTime == t.lastActiveTime && r.startTime == t.startTime
  {
    Record(Tally(t.startTime, t.activeTime, t.lastActiveTime, false), now)
  }

  /** Active for 800 ms since the last record, then blurred: the code drops the 800 ms. */
  lemma BlurAsWrittenDropsPendingTime()
    ensures BlurAsWritten(Tally(0, 0, 0, true), 800).activeTime == 0
    ensures Blur(Tally(0, 0, 0, true), 800).activeTime == 800
  {
  }

  /** The two handlers differ exactly by the pending time that `Blur` records. */
  lemma BlurRecordsWhatAsWrittenDrops(t: Tally, now: int)
    requires t.active && t.lastActiveTime <= now < t.lastActiveTime + Ceiling
    ensures Blur(t, now).activeTime == BlurAsWritten(t, now).activeTime + (now - t.lastActiveTime)
  {
  }

  /** `reset`. */
  function ResetAt(now: int): (r: Tally)
    ensures r.activeTime == 0 && r.active
    ensures r.startTime == now && r.lastActiveTime == now
  {
    Tally(now, 0, now, true)
  }

  /**
   * The accumulator's invariant under a clock that does not go backwards: active time
   * never exceeds the time elapsed up to the last recorded instant, so
   * `inactiveTime = totalTime - activeTime` is never negative.
   */
  predicate Consistent(t: Tally) {
    t.startTime <= t.lastActiveTime && 0 <= t.activeTime <= t.lastActiveTime - t.startTime
  }

  /** The events the page delivers to `Stats`, each stamped with `Date.now()`. */
  datatype StatsEvent =
    | UserActivity(at: int)                   // mousedown, mousemove, keypress, scroll, touchstart, click
    | FocusGained(at: int)
    | FocusLost(at: int)
    | VisibilityChanged(visible: bool, at: int)
    | Tick(at: int)                           // the one-second updateTimeDisplay timer
    | ResetPressed(at: int)
    | Stopped(at: int)                        // beforeunload

  /**
   * Which `blur` and hidden handler runs: the one the code has (`AsWritten`, which clears
   * the flag before recording) or the one its comment intends (`RecordFirst`).
   */
  datatype BlurOrder = AsWritten | RecordFirst

  /** The handler for losing focus or visibility, in the given order. */
  function LoseFocus(t: Tally, now: int, order: BlurOrder): (r: Tally)
    ensures !r.active && r.startTime == t.startTime
    ensures order == AsWritten ==> r == BlurAsWritten(t, now)
    ensures order == RecordFirst ==> r == Blur(t, now)
  {
    if order == AsWritten then BlurAsWritten(t, now) else Blur(t, now)
  }

  /** The fields after one event, with the blur handlers in the given order. */
  function Step(t: Tally, e: StatsEvent, order: BlurOrder): (r: Tally)
    ensures Wakes(e) ==> r.active
    ensures Sleeps(e) ==> !r.active
    ensures !Wakes(e) && !t.active ==> r.activeTime == t.activeTime && !r.active
  {
    match e
    case UserActivity(now) => Record(t, now)
    case FocusGained(now) => Focus(t, now)
    case FocusLost(now) => LoseFocus(t, now, order)
    case VisibilityChanged(visible, now) => if visible then Focus(t, now) else LoseFocus(t, now, order)
    case Tick(now) => Record(t, now)
    case ResetPressed(now) => ResetAt(now)
    case Stopped(now) => Record(t, now)
  }

  /** The fields after a sequence of events: the last event that sets the flag decides it. */
  function Run(t: Tally, events: seq<StatsEvent>, order: BlurOrder): (r: Tally)
    ensures events != [] && Wakes(events[|events| - 1]) ==> r.active
    ensures events != [] && Sleeps(events[|events| - 1]) ==> !r.active
    decreases |events|
  {
    if events == [] then t else Run(Step(t, events[0], order), events[1..], order)
  }

  /** Event times never go below `from` and never go backwards. */
  predicate ClockFrom(from: int, events: seq<StatsEvent>) {
    && (forall i :: 0 <= i < |events| ==> from <= events[i].at)
    && (forall i, j :: 0 <= i < j < |events| ==> events[i].at <= events[j].at)
  }

  /**
   * One event keeps the invariant and leaves the last recorded instant no later than the
   * event, whichever order the blur handlers use.
   */
  lemma StepConsistent(t: Tally, e: StatsEvent, order: BlurOrder)
    requires Consistent(t) && t.lastActiveTime <= e.at
    ensures Consistent(Step(t, e, order)) && Step(t, e, order).lastActiveTime <= e.at
  {
  }

  /**
   * Every run of events under a non-decreasing clock keeps the invariant, both for the
   * handlers as written and for the ones that record before going inactive.
   */
  lemma {:induction false} RunConsistent(t: Tally, events: seq<StatsEvent>, order: BlurOrder)
    requires Consistent(t) && ClockFrom(t.lastActiveTime, events)
    ensures Consistent(Run(t, events, order))
    decreases |events|
  {
    if events != [] {
      var e := events[0];
      StepConsistent(t, e, order);
      var rest := events[1..];
      assert ClockFrom(Step(t, e, order).lastActiveTime, rest) by {
        forall i | 0 <= i < |rest| ensures Step(t, e, order).lastActiveTime <= rest[i].at {
          assert rest[i] == events[i + 1];
        }
        forall i, j | 0 <= i < j < |rest| ensures rest[i].at <= rest[j].at {
          assert rest[i] == events[i + 1] && rest[j] == events[j + 1];
        }
      }
      RunConsistent(Step(t, e, order), rest, order);
    }
  }

  /** An event that makes the page active again. */
  predicate Wakes(e: StatsEvent) {
    e.FocusGained? || (e.VisibilityChanged? && e.visible) || e.ResetPressed?
  }

  /** An event that makes the page inactive. */
  predicate Sleeps(e: StatsEvent) {
    e.FocusLost? || (e.VisibilityChanged? && !e.visible)
  }

  /**
   * While the page stays inactive no time is counted, however long it lasts; here the two
   * blur orders agree.
   */
  lemma {:induction false} IdleTimeNotCounted(t: Tally, events: seq<StatsEvent>, order: BlurOrder)
    requires !t.active
    requires forall i :: 0 <= i < |events| ==> !Wakes(events[i])
    ensures Run(t, events, order).activeTime == t.activeTime
    decreases |events|
  {
    if events != [] {
      assert !Wakes(events[0]);
      var next := Step(t, events[0], order);
      assert !next.active && next.activeTime == t.activeTime;
      var rest := events[1..];
      assert forall i :: 0 <= i < |rest| ==> rest[i] == events[i + 1];
      IdleTimeNotCounted(next, rest, order);
    }
  }

  // ---------------------------------------------------------------------------
  // formatTime

  /** `formatTime`: `h:mm:ss` from one hour, `m:ss` from one minute, else plain seconds. */
  function FormatTime(seconds: int): string {
    var hours := seconds / 3600;                 // Math.floor(seconds / 3600)
    var minutes := JsRem(seconds, 3600) / 60;    // Math.floor((seconds % 3600) / 60)
    var secs := JsRem(seconds, 60);
    if hours > 0 then IntToString(hours) + (":" + (Pad2(IntToString(minutes)) + (":" + Pad2(IntToString(secs)))))
    else if minutes > 0 then IntToString(minutes) + (":" + Pad2(IntToString(secs)))
    else IntToString(secs)
  }

  /** Minutes, then two digits of seconds, read back. */
  lemma NumbersOfMinSec(m: nat, c: nat)
    requires c < 60
    ensures Numbers(":" + Pad2(NatToString(c))) == [c]
    ensures Numbers(NatToString(m) + (":" + Pad2(NatToString(c)))) == [m, c]
  {
    var last := Pad2(NatToString(c));
    NumbersOfPadded(c, "");
    assert last + "" == last;
    assert Numbers(last) == [c];
    NumbersSeparator(":", last);
    NumbersOfNat(m, ":" + last);
  }

  /** Hours, then two digits of minutes and of seconds, read back. */
  lemma NumbersOfClock(h: nat, m: nat, c: nat)
    requires m < 60 && c < 60
    ensures Numbers(NatToString(h) + (":" + (Pad2(NatToString(m)) + (":" + Pad2(NatToString(c)))))) == [h, m, c]
  {
    var tail := ":" + Pad2(NatToString(c));
    var middle := Pad2(NatToString(m)) + tail;
    assert Numbers(tail) == [c] by {
      NumbersOfMinSec(0, c);
    }
    assert Numbers(middle) == [m, c] by {
      NumbersOfPadded(m, tail);
    }
    assert Numbers(":" + middle) == [m, c] by {
      NumbersSeparator(":", middle);
    }
    NumbersOfNat(h, ":" + middle);
  }

  /** `formatTime` writes its three fields; only the hour field decides the first branch. */
  lemma ClockTextOf(seconds: int, h: nat, m: nat, c: nat)
    requires seconds / 3600 == h && JsRem(seconds, 3600) / 60 == m && JsRem(seconds, 60) == c
    ensures h > 0 ==> FormatTime(seconds) == NatToString(h) + (":" + (Pad2(NatToString(m)) + (":" + Pad2(NatToString(c)))))
    ensures h == 0 && m > 0 ==> FormatTime(seconds) == NatToString(m) + (":" + Pad2(NatToString(c)))
    ensures h == 0 && m == 0 ==> FormatTime(seconds) == NatToString(c)
  {
    assert IntToString(h) == NatToString(h) && IntToString(m) == NatToString(m) && IntToString(c) == NatToString(c);
  }

  /** `formatTime` of a non-negative count, with JavaScript's `%` and `toString` unfolded. */
  lemma FormatTimeShape(s: nat)
    ensures s >= 3600 ==>
              FormatTime(s) == NatToString(s / 3600) + (":" + (Pad2(NatToString(s % 3600 / 60)) + (":" + Pad2(NatToString(s % 60)))))
    ensures 60 <= s < 3600 ==>
              FormatTime(s) == NatToString(s / 60) + (":" + Pad2(NatToString(s % 60)))
    ensures s < 60 ==>
              FormatTime(s) == NatToString(s)
  {
    var r := s % 3600;
    assert JsRem(s, 3600) == r && JsRem(s, 60) == s % 60;
    if s < 3600 {
      assert s / 3600 == 0 && r == s;
      if s < 60 {
        assert s / 60 == 0 && s % 60 == s;
      }
    }
    ClockTextOf(s, s / 3600, r / 60, s % 60);
  }

  /** The numbers a reader finds in `formatTime(s)`: hours, minutes below 60, seconds below 60. */
  lemma FormatTimeFields(s: nat)
    ensures Numbers(FormatTime(s)) ==
            if s >= 3600 then [s / 3600, s % 3600 / 60, s % 60]
            else if s >= 60 then [s / 60, s % 60]
            else [s]
  {
    FormatTimeShape(s);
    if s >= 3600 {
      NumbersOfClock(s / 3600, s % 3600 / 60, s % 60);
    } else if s >= 60 {
      NumbersOfMinSec(s / 60, s % 60);
    } else {
      NumbersOfNat(s, "");
      assert NatToString(s) + "" == NatToString(s);
    }
  }

  /** Reading `formatTime(s)` back in base 60 gives `s`: the fields recombine to the input. */
  lemma FormatTimeReadsBack(s: nat)
    ensures Base60(Numbers(FormatTime(s))) == s
  {
    FormatTimeFields(s);
    ClockArithmetic(s);
    if s >= 3600 {
      Base60Fields(s / 3600, s % 3600 / 60, s % 60);
    } else if s >= 60 {
      Base60Fields(s / 60, s % 60, 0);
    } else {
      Base60Fields(s, 0, 0);
    }
  }

  /** In `p:mm:ss` and `p:ss` with two-digit fields, where the separators and the digits stand. */
  lemma ClockTail(t: string, p: string, middle: string, last: string)
    requires |middle| == 2 && |last| == 2 && AllDigits(middle) && AllDigits(last)
    requires t == p + (":" + (middle + (":" + last))) || t == p + (":" + last)
    ensures |t| >= 3 && t[|t| - 3] == ':' && AllDigits(t[|t| - 2..])
    ensures t == p + (":" + (middle + (":" + last))) ==>
              |t| >= 6 && t[|t| - 6] == ':' && AllDigits(t[|t| - 5..|t| - 3])
  {
    if t == p + (":" + (middle + (":" + last))) {
      assert t[|t| - 2..] == last;
      assert t[|t| - 5..|t| - 3] == middle;
    } else {
      assert t[|t| - 2..] == last;
    }
  }

  /** After a leading field, minutes and seconds are written with exactly two digits. */
  lemma FormatTimePadded(s: nat)
    ensures var t := FormatTime(s);
            s >= 60 ==> |t| >= 4 && t[|t| - 3] == ':' && AllDigits(t[|t| - 2..])
    ensures var t := FormatTime(s);
            s >= 3600 ==> |t| >= 7 && t[|t| - 6] == ':' && AllDigits(t[|t| - 5..|t| - 3])
  {
    var t := FormatTime(s);
    FormatTimeShape(s);
    var last := Pad2(NatToString(s % 60));
    Pad2NatToString(s % 60);
    if s >= 3600 {
      var p, middle := NatToString(s / 3600), Pad2(NatToString(s % 3600 / 60));
      Pad2NatToString(s % 3600 / 60);
      assert t == p + (":" + (middle + (":" + last)));
      ClockTail(t, p, middle, last);
    } else if s >= 60 {
      var p := NatToString(s / 60);
      assert t == p + (":" + last);
      ClockTail(t, p, last, last);
    }
  }

  // ---------------------------------------------------------------------------
  // The Stats object

  /** `setInterval` handles are positive, so a stored handle is always truthy. */
  type TimerId = x: int | x > 0 witness 1

  /** `getDetailedStats`, less `activePercentage` (a floating-point ratio). */
  datatype DetailedStats = DetailedStats(
    startTime: int,
    currentTime: int,
    totalTime: int,
    activeTime: int,
    inactiveTime: int,
    isCurrentlyActive: bool,
    formattedTotalTime: string,
    formattedActiveTime: string,
    formattedInactiveTime: string)

  class Stats {
    var startTime: int
    var activeTime: int
    var lastActiveTime: int
    var isCurrentlyActive: bool
    var statsUpdateInterval: Option<TimerId>

    function Snapshot(): Tally
      reads this
    {
      Tally(startTime, activeTime, lastActiveTime, isCurrentlyActive)
    }

    /** `new Stats()`: fields at `now`, and the one-second display timer started. */
    constructor (now: int, interval: TimerId)
      ensures Snapshot() == ResetAt(now) && Consistent(Snapshot())
      ensures statsUpdateInterval == Some(interval)
    {
      startTime := now;
      activeTime := 0;
      lastActiveTime := now;
      isCurrentlyActive := true;
      statsUpdateInterval := Some(interval);
    }

    method RecordActivity(now: int)
      modifies this
      ensures Snapshot() == Record(old(Snapshot()), now)
      ensures statsUpdateInterval == old(statsUpdateInterval)
      ensures old(Consistent(Snapshot())) && now >= old(lastActiveTime) ==> Consistent(Snapshot())
    {
      if isCurrentlyActive {
        var timeDiff := now - lastActiveTime;
        if timeDiff < Ceiling {
          activeTime := activeTime + timeDiff;
        }
        lastActiveTime := now;
      }
    }

    method OnFocus(now: int)
      modifies this
      ensures Snapshot() == Focus(old(Snapshot()), now)
      ensures statsUpdateInterval == old(statsUpdateInterval)
      ensures old(Consistent(Snapshot())) && now >= old(lastActiveTime) ==> Consistent(Snapshot())
    {
      isCurrentlyActive := true;
      lastActiveTime := now;
    }

    /** The `blur` handler, recording the pending time before becoming inactive. */
    method OnBlur(now: int)
      modifies this
      ensures Snapshot() == Blur(old(Snapshot()), now)
      ensures statsUpdateInterval == old(statsUpdateInterval)
      ensures old(Consistent(Snapshot())) && now >= old(lastActiveTime) ==> Consistent(Snapshot())
    {
      RecordActivity(now);
      isCurrentlyActive := false;
    }

    method OnVisibilityChange(visible: bool, now: int)
      modifies this
      ensures Snapshot() == if visible then Focus(old(Snapshot()), now) else Blur(old(Snapshot()), now)
      ensures statsUpdateInterval == old(statsUpdateInterval)
      ensures old(Consistent(Snapshot())) && now >= old(lastActiveTime) ==> Consistent(Snapshot())
    {
      if visible {
        OnFocus(now);
      } else {
        OnBlur(now);
      }
    }

    /** `updateTimeDisplay`: records while active, then gives the two texts it displays. */
    method UpdateTimeDisplay(now: int) returns (activeText: string, totalText: string)
      modifies this
      ensures Snapshot() == Record(old(Snapshot()), now)
      ensures statsUpdateInterval == old(statsUpdateInterval)
      ensures activeText == FormatTime(activeTime / 1000)
      ensures totalText == FormatTime((now - startTime) / 1000)
    {
      if isCurrentlyActive {
        RecordActivity(now);
      }
      activeText := FormatTime(activeTime / 1000);
      totalText := FormatTime((now - startTime) / 1000);
    }

    method Reset(now: int)
      modifies this
      ensures Snapshot() == ResetAt(now) && Consistent(Snapshot())
      ensures statsUpdateInterval == old(statsUpdateInterval)
    {
      startTime := now;
      activeTime := 0;
      lastActiveTime := now;
      isCurrentlyActive := true;
    }

    /** `stop`: the display timer is cleared, then activity is recorded one last time. */
    method Stop(now: int)
      modifies this
      ensures statsUpdateInterval == None
      ensures Snapshot() == Record(old(Snapshot()), now)
    {
      if statsUpdateInterval.Some? {
        statsUpdateInterval := None;  // clearInterval
      }
      RecordActivity(now);
    }

    function GetDetailedStats(now: int): (r: DetailedStats)
      reads this
      ensures r.startTime == startTime && r.currentTime == now && r.activeTime == activeTime
      ensures r.totalTime == now - startTime && r.activeTime + r.inactiveTime == r.totalTime
      ensures Consistent(Snapshot()) && now >= lastActiveTime ==> 0 <= r.activeTime <= r.totalTime && r.inactiveTime >= 0
      ensures r.formattedTotalTime == FormatTime(r.totalTime / 1000)
      ensures r.formattedActiveTime == FormatTime(r.activeTime / 1000)
      ensures r.formattedInactiveTime == FormatTime(r.inactiveTime / 1000)
    {
      var totalTime := now - startTime;
      var inactiveTime := totalTime - activeTime;
      DetailedStats(
        startTime, now, totalTime, activeTime, inactiveTime, isCurrentlyActive,
        FormatTime(totalTime / 1000), FormatTime(activeTime / 1000), FormatTime(inactiveTime / 1000))
    }
  }
}
