/**
 * The page's event log: a newest-first list of entries capped at `MaxLogs`, with
 * `clear` and a filtered, limited view. Rendering an entry into the page is not part of
 * this model; the clock, `Math.random()` and the time text of `toLocaleTimeString` are
 * parameters.
 */
module EventLogging {
  import opened Wrappers

  /** `maxLogs`. */
  const MaxLogs: nat := 100

  /** One log entry; `kind` is the entry's `type` ('info', 'focus', 'action', ...). */
  datatype LogEntry = LogEntry(
    id: real,
    timestamp: int,
    message: string,
    kind: string,
    data: Option<string>,
    formattedTime: string)

  /** `s` with its order reversed. */
  function Reversed<T>(s: seq<T>): (r: seq<T>)
    ensures |r| == |s|
    ensures forall i :: 0 <= i < |s| ==> r[i] == s[|s| - 1 - i]
    decreases |s|
  {
    if s == [] then [] else Reversed(s[1..]) + [s[0]]
  }

  /** The first `MaxLogs` entries of `s`: what `slice(0, maxLogs)` keeps. */
  function Capped<T>(s: seq<T>): (r: seq<T>)
    ensures |r| == if |s| <= MaxLogs then |s| else MaxLogs
    ensures r <= s
  {
    if |s| <= MaxLogs then s else s[..MaxLogs]
  }

  /**
   * The list after `log` inserts `e`: `e` at the front, the earlier entries after it in
   * their previous order, and only when the cap is exceeded the oldest entry dropped.
   */
  function Pushed(logs: seq<LogEntry>, e: LogEntry): (r: seq<LogEntry>)
    requires |logs| <= MaxLogs
    ensures |r| == if |logs| < MaxLogs then |logs| + 1 else MaxLogs
    ensures r[0] == e
    ensures |logs| < MaxLogs ==> r[1..] == logs
    ensures |logs| == MaxLogs ==> r[1..] == logs[..MaxLogs - 1]
  {
    Capped([e] + logs)
  }

  /**
   * Logging `entries` one after the other keeps the newest `MaxLogs` of everything
   * logged so far, newest first: the cap never drops anything but the oldest entries.
   */
  lemma {:induction false} PushedAll(logs: seq<LogEntry>, entries: seq<LogEntry>)
    requires |logs| <= MaxLogs
    ensures PushAll(logs, entries) == Capped(Reversed(entries) + logs)
    decreases |entries|
  {
    if entries != [] {
      var init := entries[..|entries| - 1];
      var e := entries[|entries| - 1];
      PushedAll(logs, init);
      var before := Reversed(init) + logs;
      assert Reversed(entries) == [e] + Reversed(init);
      assert Reversed(entries) + logs == [e] + before;
      CappedFront(e, before);
    }
  }

  /** Capping before or after inserting at the front gives the same list. */
  lemma CappedFront(e: LogEntry, s: seq<LogEntry>)
    ensures Capped([e] + Capped(s)) == Capped([e] + s)
  {
    if |s| > MaxLogs {
      assert ([e] + s)[..MaxLogs] == [e] + s[..MaxLogs - 1];
      assert ([e] + s[..MaxLogs])[..MaxLogs] == [e] + s[..MaxLogs - 1];
    }
  }

  /** The list after logging each of `entries` in turn. */
  function PushAll(logs: seq<LogEntry>, entries: seq<LogEntry>): (r: seq<LogEntry>)
    requires |logs| <= MaxLogs
    ensures |r| <= MaxLogs
    decreases |entries|
  {
    if entries == [] then logs else Pushed(PushAll(logs, entries[..|entries| - 1]), entries[|entries| - 1])
  }

  /** The entries of `logs` whose type is `kind`, in order (`filter(log => log.type === type)`). */
  function OfKind(logs: seq<LogEntry>, kind: string): (r: seq<LogEntry>)
    ensures |r| <= |logs|
    ensures forall x :: x in r <==> x in logs && x.kind == kind
    decreases |logs|
  {
    if logs == [] then []
    else (if logs[0].kind == kind then [logs[0]] else []) + OfKind(logs[1..], kind)
  }

  /** `a` is `b` with some elements left out and the rest in their order. */
  predicate SubsequenceOf<T(==)>(a: seq<T>, b: seq<T>)
    decreases |b|
  {
    if b == [] then a == []
    else (a != [] && a[0] == b[0] && SubsequenceOf(a[1..], b[1..])) || SubsequenceOf(a, b[1..])
  }

  lemma {:induction false} EmptySubsequence<T>(b: seq<T>)
    ensures SubsequenceOf([], b)
    decreases |b|
  {
    if b != [] {
      EmptySubsequence(b[1..]);
    }
  }

  lemma {:induction false} SubsequenceOfSelf<T>(s: seq<T>)
    ensures SubsequenceOf(s, s)
    decreases |s|
  {
    if s != [] {
      SubsequenceOfSelf(s[1..]);
    }
  }

  /** A prefix of a subsequence is a subsequence. */
  lemma {:induction false} SubsequenceOfPrefix<T>(p: seq<T>, a: seq<T>, b: seq<T>)
    requires p <= a && SubsequenceOf(a, b)
    ensures SubsequenceOf(p, b)
    decreases |b|
  {
    if p == [] {
      EmptySubsequence(b);
    } else if b != [] {
      if a != [] && a[0] == b[0] && SubsequenceOf(a[1..], b[1..]) {
        assert p[0] == a[0] && p[1..] <= a[1..];
        SubsequenceOfPrefix(p[1..], a[1..], b[1..]);
      } else {
        SubsequenceOfPrefix(p, a, b[1..]);
      }
    }
  }

  /** Filtering keeps the order of what it keeps. */
  lemma {:induction false} OfKindSubsequence(logs: seq<LogEntry>, kind: string)
    ensures SubsequenceOf(OfKind(logs, kind), logs)
    decreases |logs|
  {
    if logs != [] {
      OfKindSubsequence(logs[1..], kind);
      var r := OfKind(logs, kind);
      if logs[0].kind == kind {
        assert r[0] == logs[0] && r[1..] == OfKind(logs[1..], kind);
      } else {
        assert r == OfKind(logs[1..], kind);
      }
    }
  }

  /** `type` used as a condition: `null` and `''` are false. */
  predicate KindGiven(kind: Option<string>) {
    kind.Some? && kind.value != ""
  }

  /** `limit` used as a condition: `null` and `0` are false. */
  predicate LimitGiven(limit: Option<int>) {
    limit.Some? && limit.value != 0
  }

  /**
   * How many entries `slice(0, limit)` keeps of `n`: a positive limit counts from the
   * front, a negative one drops that many from the end.
   */
  function SliceEnd(n: nat, limit: int): (k: nat)
    ensures k <= n
    ensures limit >= 0 ==> k == if limit < n then limit else n
    ensures limit < 0 ==> k == if n + limit > 0 then n + limit else 0
  {
    if limit >= 0 then (if limit < n then limit else n)
    else if n + limit > 0 then n + limit else 0
  }

  class EventLogger {
    var logs: seq<LogEntry>

    ghost predicate Valid()
      reads this
    {
      |logs| <= MaxLogs
    }

    constructor ()
      ensures Valid() && logs == []
    {
      logs := [];
    }

    /**
     * `log(message, type = 'info', data = null)`: inserts the new entry at the front, trims
     * to the cap, and returns that entry. An omitted `type` is `None`; `now` is `Date.now()`
     * and `random` is `Math.random()`, whose sum is the entry's id.
     */
    method Log(message: string, kind: Option<string>, data: Option<string>,
               now: int, random: real, timestamp: int, formattedTime: string)
      returns (entry: LogEntry)
      requires Valid()
      requires 0.0 <= random < 1.0
      modifies this
      ensures Valid()
      ensures entry == LogEntry(now as real + random, timestamp, message, kind.GetOr("info"), data, formattedTime)
      ensures now as real <= entry.id < now as real + 1.0
      ensures kind.None? ==> entry.kind == "info"
      ensures logs == Pushed(old(logs), entry)
    {
      entry := LogEntry(now as real + random, timestamp, message, kind.GetOr("info"), data, formattedTime);
      logs := [entry] + logs;
      if |logs| > MaxLogs {
        logs := logs[..MaxLogs];
      }
    }

    method Clear()
      modifies this
      ensures Valid() && logs == []
    {
      logs := [];
    }

    /**
     * `getLogs(type, limit)`: the entries of the given type, newest first, cut by `slice(0, limit)`.
     * Without a type every entry is a candidate; without a limit every candidate is kept.
     */
    function GetLogs(kind: Option<string>, limit: Option<int>): (r: seq<LogEntry>)
      reads this
      ensures KindGiven(kind) ==> forall x :: x in r ==> x in logs && x.kind == kind.value
      ensures KindGiven(kind) ==> r <= OfKind(logs, kind.value)
      ensures !KindGiven(kind) ==> r <= logs
      ensures !LimitGiven(limit) && KindGiven(kind) ==> r == OfKind(logs, kind.value)
      ensures !LimitGiven(limit) && !KindGiven(kind) ==> r == logs
      ensures LimitGiven(limit) && limit.value > 0 ==> |r| <= limit.value
      ensures LimitGiven(limit) ==>
                |r| == SliceEnd(|if KindGiven(kind) then OfKind(logs, kind.value) else logs|, limit.value)
    {
      var filtered := if KindGiven(kind) then OfKind(logs, kind.value) else logs;
      if LimitGiven(limit) then filtered[..SliceEnd(|filtered|, limit.value)] else filtered
    }

    /** Whatever the arguments, `getLogs` returns entries of the log in the log's order. */
    lemma GetLogsSubsequence(kind: Option<string>, limit: Option<int>)
      ensures SubsequenceOf(GetLogs(kind, limit), logs)
    {
      var r := GetLogs(kind, limit);
      if KindGiven(kind) {
        OfKindSubsequence(logs, kind.value);
        SubsequenceOfPrefix(r, OfKind(logs, kind.value), logs);
      } else {
        SubsequenceOfSelf(logs);
        SubsequenceOfPrefix(r, logs, logs);
      }
    }
  }
}

/**
 * The pure helpers of `utils`: duration text, and the browser and device classifiers
 * over the user-agent text (given as a parameter instead of read from `navigator`).
 */
module Utils {
  import opened Strings

  // ---------------------------------------------------------------------------
  // formatDuration

  /** `formatDuration(milliseconds)`, with `Math.floor` and JavaScript's `%` written out. */
  function FormatDuration(milliseconds: int): string {
    var seconds := milliseconds / 1000;    // Math.floor: Euclidean division by a positive divisor
    var minutes := seconds / 60;
    var hours := minutes / 60;
    if hours > 0 then
      IntToString(hours) + ("小時" + (IntToString(JsRem(minutes, 60)) + ("分鐘" + (IntToString(JsRem(seconds, 60)) + "秒"))))
    else if minutes > 0 then
      IntToString(minutes) + ("分鐘" + (IntToString(JsRem(seconds, 60)) + "秒"))
    else
      IntToString(seconds) + "秒"
  }

  /** `formatDuration` writes its fields, given how they were computed. */
  lemma DurationTextOf(milliseconds: int, h: nat, m: nat, c: nat)
    requires milliseconds / 1000 / 60 / 60 == h
    requires JsRem(milliseconds / 1000 / 60, 60) == m && JsRem(milliseconds / 1000, 60) == c
    ensures h > 0 ==>
              FormatDuration(milliseconds) == NatToString(h) + ("小時" + (NatToString(m) + ("分鐘" + (NatToString(c) + "秒"))))
  {
    assert IntToString(h) == NatToString(h) && IntToString(m) == NatToString(m) && IntToString(c) == NatToString(c);
  }

  /** `formatDuration` of a non-negative count: whole seconds, split into hours, minutes and seconds. */
  lemma FormatDurationShape(ms: nat)
    ensures ms / 1000 >= 3600 ==>
              FormatDuration(ms) ==
              NatToString(ms / 1000 / 3600) + ("小時" + (NatToString(ms / 1000 / 60 % 60) + ("分鐘" + (NatToString(ms / 1000 % 60) + "秒"))))
    ensures 60 <= ms / 1000 < 3600 ==>
              FormatDuration(ms) == NatToString(ms / 1000 / 60) + ("分鐘" + (NatToString(ms / 1000 % 60) + "秒"))
    ensures ms / 1000 < 60 ==>
              FormatDuration(ms) == NatToString(ms / 1000) + "秒"
  {
    var s := ms / 1000;
    var m := s / 60;
    assert m / 60 == s / 3600;
    assert JsRem(m, 60) == m % 60 && JsRem(s, 60) == s % 60;
    DurationTextOf(ms, s / 3600, m % 60, s % 60);
    if s < 3600 {
      assert m / 60 == 0;
      assert IntToString(m) == NatToString(m) && IntToString(s % 60) == NatToString(s % 60);
      if s < 60 {
        assert m == 0;
        assert IntToString(s) == NatToString(s);
      }
    }
  }

  lemma DurationUnits()
    ensures NoDigits("小時") && NoDigits("分鐘") && NoDigits("秒")
    ensures Numbers("秒") == []
  {
    NumbersSeparator("秒", "");
    assert "秒" + "" == "秒";
  }

  /** The three duration texts read back as their fields. */
  lemma NumbersOfDurationText(h: nat, m: nat, c: nat)
    ensures Numbers(NatToString(c) + "秒") == [c]
    ensures Numbers(NatToString(m) + ("分鐘" + (NatToString(c) + "秒"))) == [m, c]
    ensures Numbers(NatToString(h) + ("小時" + (NatToString(m) + ("分鐘" + (NatToString(c) + "秒"))))) == [h, m, c]
  {
    var tail := NatToString(c) + "秒";
    var mid := NatToString(m) + ("分鐘" + tail);
    assert Numbers(tail) == [c] by {
      DurationUnits();
      NumbersOfNat(c, "秒");
    }
    assert Numbers("分鐘" + tail) == [c] by {
      DurationUnits();
      NumbersSeparator("分鐘", tail);
    }
    assert Numbers(mid) == [m, c] by {
      NumbersOfNat(m, "分鐘" + tail);
    }
    assert Numbers("小時" + mid) == [m, c] by {
      DurationUnits();
      NumbersSeparator("小時", mid);
    }
    NumbersOfNat(h, "小時" + mid);
  }

  /** The numbers a reader finds in `formatDuration(ms)`: hours, minutes below 60, seconds below 60. */
  lemma FormatDurationFields(ms: nat)
    ensures var s := ms / 1000;
            Numbers(FormatDuration(ms)) ==
            if s >= 3600 then [s / 3600, s / 60 % 60, s % 60]
            else if s >= 60 then [s / 60, s % 60]
            else [s]
  {
    var s := ms / 1000;
    FormatDurationShape(ms);
    if s >= 3600 {
      NumbersOfDurationText(s / 3600, s / 60 % 60, s % 60);
    } else if s >= 60 {
      NumbersOfDurationText(0, s / 60, s % 60);
    } else {
      NumbersOfDurationText(0, 0, s);
    }
  }

  /** Reading `formatDuration(ms)` back in base 60 gives the whole seconds in `ms`. */
  lemma FormatDurationReadsBack(ms: nat)
    ensures Base60(Numbers(FormatDuration(ms))) == ms / 1000
  {
    var s := ms / 1000;
    FormatDurationFields(ms);
    ClockArithmetic(s);
    if s >= 3600 {
      Base60Fields(s / 3600, s / 60 % 60, s % 60);
    } else if s >= 60 {
      Base60Fields(s / 60, s % 60, 0);
    } else {
      Base60Fields(s, 0, 0);
    }
  }

  // ---------------------------------------------------------------------------
  // detectBrowser

  datatype Browser = Chrome | Firefox | Safari | Edge | Opera | UnknownBrowser

  /** `detectBrowser`: the first of five substring tests that matches. */
  function DetectBrowser(ua: string): (r: Browser)
    ensures r == Chrome <==> Contains(ua, "Chrome") && !Contains(ua, "Edg")
    ensures r == Firefox <==> !(Contains(ua, "Chrome") && !Contains(ua, "Edg")) && Contains(ua, "Firefox")
    ensures r == Safari <==>
              && !(Contains(ua, "Chrome") && !Contains(ua, "Edg")) && !Contains(ua, "Firefox")
              && Contains(ua, "Safari") && !Contains(ua, "Chrome")
    ensures r == Edge <==>
              && !(Contains(ua, "Chrome") && !Contains(ua, "Edg")) && !Contains(ua, "Firefox")
              && !(Contains(ua, "Safari") && !Contains(ua, "Chrome")) && Contains(ua, "Edg")
    ensures r == Opera <==>
              && !(Contains(ua, "Chrome") && !Contains(ua, "Edg")) && !Contains(ua, "Firefox")
              && !(Contains(ua, "Safari") && !Contains(ua, "Chrome")) && !Contains(ua, "Edg")
              && (Contains(ua, "Opera") || Contains(ua, "OPR"))
    ensures r == UnknownBrowser <==>
              && !Contains(ua, "Chrome") && !Contains(ua, "Firefox") && !Contains(ua, "Safari")
              && !Contains(ua, "Edg") && !Contains(ua, "Opera") && !Contains(ua, "OPR")
  {
    if Contains(ua, "Chrome") && !Contains(ua, "Edg") then Chrome
    else if Contains(ua, "Firefox") then Firefox
    else if Contains(ua, "Safari") && !Contains(ua, "Chrome") then Safari
    else if Contains(ua, "Edg") then Edge
    else if Contains(ua, "Opera") || Contains(ua, "OPR") then Opera
    else UnknownBrowser
  }

  // ---------------------------------------------------------------------------
  // detectDevice

  datatype Device = Mobile | Tablet | Desktop

  /** The alternatives of the first pattern, matched case-insensitively. */
  const MobileTokens: seq<string> := ["Android", "iPhone", "iPad", "iPod", "BlackBerry", "IEMobile", "Opera Mini"]

  /** The alternatives of the second pattern, matched case-insensitively. */
  const TabletTokens: seq<string> := ["Tablet", "iPad"]

  /** A `/a|b|.../i` test: some alternative occurs in `ua`, ignoring case. */
  predicate MatchesAny(ua: string, tokens: seq<string>) {
    exists i :: 0 <= i < |tokens| && ContainsIgnoreCase(ua, tokens[i])
  }

  /** `detectDevice`: mobile tokens first, then tablet tokens, else desktop. */
  function DetectDevice(ua: string): (r: Device)
    ensures ContainsIgnoreCase(ua, "iPad") ==> r == Mobile
    ensures ContainsIgnoreCase(ua, "Android") || ContainsIgnoreCase(ua, "iPhone") ==> r == Mobile
    ensures r == Tablet <==> ContainsIgnoreCase(ua, "Tablet") && !MatchesAny(ua, MobileTokens)
    ensures r == Desktop <==> !MatchesAny(ua, MobileTokens) && !ContainsIgnoreCase(ua, "Tablet")
  {
    assert MobileTokens[0] == "Android" && MobileTokens[1] == "iPhone" && MobileTokens[2] == "iPad";
    assert TabletTokens[0] == "Tablet" && TabletTokens[1] == "iPad";
    if MatchesAny(ua, MobileTokens) then Mobile
    else if MatchesAny(ua, TabletTokens) then Tablet
    else Desktop
  }

  /**
   * The `iPad` alternative of the tablet pattern never decides anything: a user agent
   * that contains it has already been classified as mobile.
   */
  lemma TabletIPadUnreachable(ua: string)
    ensures DetectDevice(ua) == Tablet ==> !ContainsIgnoreCase(ua, "iPad")
    ensures !MatchesAny(ua, MobileTokens) ==> (MatchesAny(ua, TabletTokens) <==> ContainsIgnoreCase(ua, "Tablet"))
  {
    assert MobileTokens[2] == "iPad";
    assert TabletTokens[0] == "Tablet" && TabletTokens[1] == "iPad";
  }
}
