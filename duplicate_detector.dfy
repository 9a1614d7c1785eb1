/**
 * The duplicate-tab detector of one page instance: a shared "last state" record
 * compared against the current URL within a 5000 ms window, a best-effort tab
 * counter, a first-writer-wins session id, per-tab `last_activity_<tabId>` records
 * listed within a 60000 ms window, and a bulk clean-up of these keys.
 *
 * `Date.now()` is the parameter `now`; `window.location.href` is `url`; the random
 * parts of generated ids are parameters.
 */
module DuplicateDetection {
  import opened Wrappers
  import opened LocalStorage

  const StateKey: string := "browser_tab_state"
  const TabCountKey: string := "browser_tab_count"
  const SessionKey: string := "browser_session_id"
  const ActivityPrefix: string := "last_activity_"
  /** A stored state younger than this (ms) with the same URL marks a duplicate. */
  const DuplicateWindow: int := 5000
  /** An activity record younger than this (ms) counts as an active instance. */
  const ActiveWindow: int := 60000

  type Items = map<string, Value>

  // ---------------------------------------------------------------------------
  // detectDuplicateTab

  /** `JSON.parse` of the stored state throws: it is truthy but not JSON. */
  predicate StateUnreadable(items: Items) {
    StateKey in items && items[StateKey].Truthy() && !items[StateKey].IsJson()
  }

  /**
   * The stored state parses, names `url` and is less than 5000 ms old. Any other JSON
   * (a number, an activity record) lacks `url` or `timestamp`, and a comparison with
   * `undefined` or NaN is false.
   */
  predicate MatchesRecentState(items: Items, url: string, now: int) {
    && StateKey in items
    && items[StateKey].State?
    && items[StateKey].state.url == url
    && now - items[StateKey].state.timestamp < DuplicateWindow
  }

  /** The store after `detectDuplicateTab`: the state record is overwritten unless parsing threw. */
  function AfterDetect(items: Items, tabId: string, url: string, userAgent: string, now: int): (r: Items)
    ensures StateUnreadable(items) ==> r == items
    ensures !StateUnreadable(items) ==> r.Keys == items.Keys + {StateKey}
    ensures !StateUnreadable(items) ==> r[StateKey] == State(TabState(tabId, url, now, userAgent))
    ensures forall k :: k in items && k != StateKey ==> k in r && r[k] == items[k]
  {
    if StateUnreadable(items) then items
    else items[StateKey := State(TabState(tabId, url, now, userAgent))]
  }

  /** A state record that parsed is replaced by this tab's own, whatever the verdict. */
  lemma DetectLeavesOwnRecord(items: Items, tabId: string, url: string, userAgent: string, now: int, later: int)
    requires !StateUnreadable(items)
    ensures !StateUnreadable(AfterDetect(items, tabId, url, userAgent, now))
    ensures MatchesRecentState(AfterDetect(items, tabId, url, userAgent, now), url, later)
            <==> later - now < DuplicateWindow
  {
  }

  /**
   * `isDuplicate` after `recheckDuplicate` at each of `times` in turn, starting from
   * the store `items` and the verdict `isDuplicate`.
   */
  function Rechecks(items: Items, isDuplicate: bool, tabId: string, url: string, userAgent: string, times: seq<int>): bool
    decreases |times|
  {
    if times == [] then isDuplicate
    else
      Rechecks(AfterDetect(items, tabId, url, userAgent, times[0]),
               isDuplicate || MatchesRecentState(items, url, times[0]),
               tabId, url, userAgent, times[1..])
  }

  /** Rechecking never clears the verdict. */
  lemma {:induction false} RechecksNeverClear(items: Items, tabId: string, url: string, userAgent: string, times: seq<int>)
    ensures Rechecks(items, true, tabId, url, userAgent, times)
    decreases |times|
  {
    if times != [] {
      RechecksNeverClear(AfterDetect(items, tabId, url, userAgent, times[0]), tabId, url, userAgent, times[1..]);
    }
  }

  /**
   * A tab that rechecks twice within 5000 ms matches the record it wrote itself (no
   * tab id is compared), so from then on it reports itself a duplicate.
   */
  lemma {:induction false} RechecksWithinWindowMarkDuplicate(
    items: Items, isDuplicate: bool, tabId: string, url: string, userAgent: string, times: seq<int>, i: nat)
    requires !StateUnreadable(items)
    requires i + 1 < |times| && times[i + 1] - times[i] < DuplicateWindow
    ensures Rechecks(items, isDuplicate, tabId, url, userAgent, times)
    decreases i
  {
    var next := AfterDetect(items, tabId, url, userAgent, times[0]);
    var verdict := isDuplicate || MatchesRecentState(items, url, times[0]);
    if i == 0 {
      assert MatchesRecentState(next, url, times[1]);
      var after := AfterDetect(next, tabId, url, userAgent, times[1]);
      RechecksNeverClear(after, tabId, url, userAgent, times[2..]);
      assert times[1..][1..] == times[2..];
    } else {
      assert times[1..][i] == times[i + 1] && times[1..][i - 1] == times[i];
      RechecksWithinWindowMarkDuplicate(next, verdict, tabId, url, userAgent, times[1..], i - 1);
    }
  }

  // ---------------------------------------------------------------------------
  // setupTabTracking and the beforeunload handler

  /** `parseInt(localStorage.getItem('browser_tab_count') || fallback)`; `None` is NaN. */
  function StoredCount(items: Items, fallback: int): (r: Option<int>)
    ensures TabCountKey !in items || items[TabCountKey] == Text("") ==> r == Some(fallback)
    ensures TabCountKey in items && items[TabCountKey].Num? ==> r == Some(items[TabCountKey].n)
    ensures r.None? <==> TabCountKey in items && items[TabCountKey] != Text("") && !items[TabCountKey].Num?
  {
    if TabCountKey in items && items[TabCountKey].Truthy() then ParseInt(items[TabCountKey]) else Some(fallback)
  }

  /** The session id is present and truthy. */
  predicate HasSession(items: Items) {
    SessionKey in items && items[SessionKey].Truthy()
  }

  /** The store after `setupTabTracking`; a generated id is "session_" followed by `suffix`. */
  function AfterTracking(items: Items, suffix: string): (r: Items)
    ensures TabCountKey in r && SessionKey in r
    ensures StoredCount(items, 0).Some? ==> ParseInt(r[TabCountKey]) == Some(StoredCount(items, 0).value + 1)
    ensures StoredCount(items, 0).None? ==> r[TabCountKey] == NotANumber
    ensures HasSession(items) ==> r[SessionKey] == items[SessionKey]
    ensures !HasSession(items) ==> r[SessionKey] == Text("session_" + suffix)
    ensures HasSession(r)
    ensures forall k :: k in items && k != TabCountKey && k != SessionKey ==> k in r && r[k] == items[k]
    ensures r.Keys == items.Keys + {TabCountKey, SessionKey}
  {
    var count := match StoredCount(items, 0)
      case Some(n) => Some(n + 1)
      case None => None;
    var counted := items[TabCountKey := NumberText(count)];
    if HasSession(counted) then counted else counted[SessionKey := Text("session_" + suffix)]
  }

  /** The store after the `beforeunload` handler: the count drops by one, never below zero. */
  function AfterUnload(items: Items): (r: Items)
    ensures TabCountKey in r
    ensures forall n :: ParseInt(r[TabCountKey]) == Some(n) ==> n >= 0
    ensures StoredCount(items, 1).Some? ==>
              ParseInt(r[TabCountKey]) == Some(if StoredCount(items, 1).value >= 1 then StoredCount(items, 1).value - 1 else 0)
    ensures StoredCount(items, 1).None? ==> r[TabCountKey] == NotANumber
    ensures forall k :: k in items && k != TabCountKey ==> k in r && r[k] == items[k]
    ensures r.Keys == items.Keys + {TabCountKey}
  {
    var count := match StoredCount(items, 1)
      case Some(n) => Some(if n - 1 > 0 then n - 1 else 0)  // Math.max(0, n - 1)
      case None => None;                                  // Math.max(0, NaN) is NaN
    items[TabCountKey := NumberText(count)]
  }

  /** Opening a tab and closing it again restores a non-negative count (an absent one reads as 0). */
  lemma TrackingThenUnloadRestoresCount(items: Items, suffix: string)
    requires StoredCount(items, 0).Some? && StoredCount(items, 0).value >= 0
    ensures StoredCount(AfterUnload(AfterTracking(items, suffix)), 0) == StoredCount(items, 0)
  {
    var afterOpen := AfterTracking(items, suffix);
    assert StoredCount(afterOpen, 1) == Some(StoredCount(items, 0).value + 1);
  }

  /** The first session id written survives every later tracking call. */
  lemma SessionFirstWriterWins(items: Items, first: string, second: string)
    ensures AfterTracking(AfterTracking(items, first), second)[SessionKey] == AfterTracking(items, first)[SessionKey]
  {
  }

  // ---------------------------------------------------------------------------
  // checkForDuplicateInstances

  predicate IsActivityKey(k: string) {
    ActivityPrefix <= k
  }

  /**
   * Reading key `k` throws: `getItem` gave `null` (whose `.lastActive` throws) or
   * text `JSON.parse` rejects.
   */
  predicate ReadThrows(items: Items, k: string) {
    !(k in items && items[k].IsJson())
  }

  /** Key `k` holds an activity record less than 60000 ms old. */
  predicate FreshActivity(items: Items, k: string, now: int) {
    k in items && items[k].Activity? && now - items[k].activity.lastActive < ActiveWindow
  }

  /**
   * The loop of `checkForDuplicateInstances` over `keys` in order: `None` when a read
   * throws, else the fresh activity records of the `last_activity_` keys.
   */
  function Scan(keys: seq<string>, items: Items, now: int): Option<seq<ActivityData>>
    decreases |keys|
  {
    if keys == [] then Some([])
    else
      match Scan(keys[..|keys| - 1], items, now)
      case None => None
      case Some(found) =>
        var k := keys[|keys| - 1];
        if !IsActivityKey(k) then Some(found)
        else if ReadThrows(items, k) then None
        else if FreshActivity(items, k, now) then Some(found + [items[k].activity])
        else Some(found)
  }

  /** What `checkForDuplicateInstances` returns: a throw yields the empty list. */
  function Instances(keys: seq<string>, items: Items, now: int): seq<ActivityData> {
    match Scan(keys, items, now)
    case None => []
    case Some(found) => found
  }

  /** The scan fails exactly when some `last_activity_` key cannot be read. */
  lemma {:induction false} ScanFailsIff(keys: seq<string>, items: Items, now: int)
    ensures Scan(keys, items, now).None? <==>
            exists i :: 0 <= i < |keys| && IsActivityKey(keys[i]) && ReadThrows(items, keys[i])
    decreases |keys|
  {
    if keys != [] {
      var init := keys[..|keys| - 1];
      ScanFailsIff(init, items, now);
      if exists i :: 0 <= i < |init| && IsActivityKey(init[i]) && ReadThrows(items, init[i]) {
        var i :| 0 <= i < |init| && IsActivityKey(init[i]) && ReadThrows(items, init[i]);
        assert keys[i] == init[i];
      }
      if exists i :: 0 <= i < |keys| && IsActivityKey(keys[i]) && ReadThrows(items, keys[i]) {
        var i :| 0 <= i < |keys| && IsActivityKey(keys[i]) && ReadThrows(items, keys[i]);
        if i < |init| {
          assert init[i] == keys[i];
        }
      }
    }
  }

  /**
   * A scan that succeeds lists exactly the records of the `last_activity_` keys that
   * are less than 60000 ms old.
   */
  lemma {:induction false} ScanLists(keys: seq<string>, items: Items, now: int, a: ActivityData)
    requires Scan(keys, items, now).Some?
    ensures a in Scan(keys, items, now).value <==>
            exists i :: 0 <= i < |keys| && IsActivityKey(keys[i]) && FreshActivity(items, keys[i], now)
                                        && items[keys[i]].activity == a
    decreases |keys|
  {
    if keys != [] {
      var init := keys[..|keys| - 1];
      ScanLists(init, items, now, a);
      if exists i :: 0 <= i < |init| && IsActivityKey(init[i]) && FreshActivity(items, init[i], now)
                     && items[init[i]].activity == a {
        var i :| 0 <= i < |init| && IsActivityKey(init[i]) && FreshActivity(items, init[i], now)
                 && items[init[i]].activity == a;
        assert keys[i] == init[i];
      }
      if exists i :: 0 <= i < |keys| && IsActivityKey(keys[i]) && FreshActivity(items, keys[i], now)
                     && items[keys[i]].activity == a {
        var i :| 0 <= i < |keys| && IsActivityKey(keys[i]) && FreshActivity(items, keys[i], now)
                 && items[keys[i]].activity == a;
        if i < |init| {
          assert init[i] == keys[i];
        }
      }
    }
  }

  /** A tab that recorded its activity less than 60000 ms ago is among the listed instances. */
  lemma OwnActivityListed(keys: seq<string>, items: Items, tabId: string, url: string, at: int, now: int)
    requires ActivityPrefix + tabId in keys
    requires Scan(keys, items[ActivityPrefix + tabId := Activity(ActivityData(tabId, at, url))], now).Some?
    requires now - at < ActiveWindow
    ensures ActivityData(tabId, at, url) in
            Instances(keys, items[ActivityPrefix + tabId := Activity(ActivityData(tabId, at, url))], now)
  {
    var k := ActivityPrefix + tabId;
    var updated := items[k := Activity(ActivityData(tabId, at, url))];
    var i :| 0 <= i < |keys| && keys[i] == k;
    assert IsActivityKey(keys[i]) && FreshActivity(updated, keys[i], now);
    ScanLists(keys, updated, now, ActivityData(tabId, at, url));
  }

  // ---------------------------------------------------------------------------
  // clearAllTracking

  predicate IsTrackingKey(k: string) {
    k == StateKey || k == TabCountKey || k == SessionKey || IsActivityKey(k)
  }

  /** `keys` without the tracking keys, in the same order. */
  function Untracked(keys: seq<string>): (r: seq<string>)
    ensures forall x :: x in r <==> x in keys && !IsTrackingKey(x)
  {
    if keys == [] then [] else (if IsTrackingKey(keys[0]) then [] else [keys[0]]) + Untracked(keys[1..])
  }

  lemma {:induction false} UntrackedWithout(keys: seq<string>, k: string)
    requires IsTrackingKey(k)
    ensures Untracked(Without(keys, k)) == Untracked(keys)
    decreases |keys|
  {
    if keys != [] {
      UntrackedWithout(keys[1..], k);
      var rest := Without(keys[1..], k);
      if keys[0] == k {
        assert Without(keys, k) == rest;
      } else {
        var w := [keys[0]] + rest;
        assert Without(keys, k) == w;
        assert w[0] == keys[0] && w[1..] == rest;
        assert Untracked(w) == (if IsTrackingKey(keys[0]) then [] else [keys[0]]) + Untracked(rest);
      }
    }
  }

  /**
   * One step of the backward loop of `clearAllTracking` on the key list `current`,
   * whose first `i + 1` keys are still untouched: removing the key at `i` when it is a
   * tracking key, or keeping it, extends the cleaned suffix by one.
   */
  lemma UntrackedStep(keys: seq<string>, current: seq<string>, i: nat)
    requires i < |keys|
    requires current == keys[..i + 1] + Untracked(keys[i + 1..])
    ensures i < |current| && current[i] == keys[i]
    ensures IsTrackingKey(keys[i]) ==> current[..i] + current[i + 1..] == keys[..i] + Untracked(keys[i..])
    ensures !IsTrackingKey(keys[i]) ==> current == keys[..i] + Untracked(keys[i..])
  {
    var u := Untracked(keys[i + 1..]);
    var head := keys[..i + 1];
    assert |head| == i + 1 && head[..i] == keys[..i] && head[i] == keys[i];
    assert current[..i] == keys[..i] && current[i] == keys[i];
    assert current[i + 1..] == u;
    assert keys[i..][0] == keys[i] && keys[i..][1..] == keys[i + 1..];
    assert Untracked(keys[i..]) == (if IsTrackingKey(keys[i]) then [] else [keys[i]]) + u;
    if !IsTrackingKey(keys[i]) {
      assert head == keys[..i] + [keys[i]];
      assert current == keys[..i] + ([keys[i]] + u);
    }
  }

  /** The store `clearAllTracking` leaves, from its keys and their values. */
  lemma KeptItems(keys0: seq<string>, items0: Items, keys: seq<string>, items: Items)
    requires forall k :: k in items0 <==> k in keys0
    requires forall k :: k in items <==> k in keys
    requires keys == Untracked(keys0)
    requires forall k :: k in items ==> k in items0 && items[k] == items0[k]
    ensures items == map k | k in items0 && !IsTrackingKey(k) :: items0[k]
  {
    var expected := map k | k in items0 && !IsTrackingKey(k) :: items0[k];
    assert items.Keys == expected.Keys;
  }

  lemma MinusThree(items: Items, a: string, b: string, c: string)
    ensures items - {a} - {b} - {c} == items - {a, b, c}
  {
  }

  datatype TabInfo = TabInfo(
    tabId: string,
    isDuplicate: bool,
    tabCount: Option<int>,
    sessionId: Value,
    activeInstances: nat,
    instances: seq<ActivityData>)

  class DuplicateDetector {
    const tabId: string
    /** `navigator.userAgent`, fixed for the page's lifetime. */
    const userAgent: string
    var isDuplicate: bool

    /** `new DuplicateDetector()` followed by `init()`, less the DOM update. */
    constructor (tabId: string, userAgent: string, store: Storage, url: string, now: int, sessionSuffix: string)
      requires store.Valid()
      modifies store
      ensures store.Valid()
      ensures this.tabId == tabId && this.userAgent == userAgent
      ensures isDuplicate == MatchesRecentState(old(store.items), url, now)
      ensures store.items == AfterTracking(AfterDetect(old(store.items), tabId, url, userAgent, now), sessionSuffix)
    {
      this.tabId := tabId;
      this.userAgent := userAgent;
      isDuplicate := false;
      new;
      DetectDuplicateTab(store, url, now);
      SetupTabTracking(store, sessionSuffix);
    }

    method DetectDuplicateTab(store: Storage, url: string, now: int)
      requires store.Valid()
      modifies this, store
      ensures store.Valid()
      ensures isDuplicate == (old(isDuplicate) || MatchesRecentState(old(store.items), url, now))
      ensures store.items == AfterDetect(old(store.items), tabId, url, userAgent, now)
      ensures StateUnreadable(old(store.items)) ==> store.keys == old(store.keys)
    {
      var existing := store.GetItem(StateKey);
      if existing.Some? && existing.value.Truthy() {
        var state := existing.value;
        if !state.IsJson() {
          return;  // JSON.parse threw: caught before setItem
        }
        if state.State? && state.state.url == url && now - state.state.timestamp < DuplicateWindow {
          isDuplicate := true;
        }
      }
      store.SetItem(StateKey, State(TabState(tabId, url, now, userAgent)));
    }

    /** `recheckDuplicate`, less the DOM update. */
    method RecheckDuplicate(store: Storage, url: string, now: int)
      requires store.Valid()
      modifies this, store
      ensures store.Valid()
      ensures old(isDuplicate) ==> isDuplicate
      ensures isDuplicate == (old(isDuplicate) || MatchesRecentState(old(store.items), url, now))
      ensures store.items == AfterDetect(old(store.items), tabId, url, userAgent, now)
    {
      DetectDuplicateTab(store, url, now);
    }

    method SetupTabTracking(store: Storage, sessionSuffix: string)
      requires store.Valid()
      modifies store
      ensures store.Valid()
      ensures store.items == AfterTracking(old(store.items), sessionSuffix)
    {
      var stored := store.GetItem(TabCountKey);
      var count: Option<int> := if stored.Some? && stored.value.Truthy() then ParseInt(stored.value) else Some(0);
      if count.Some? {
        count := Some(count.value + 1);
      }
      assert count == match StoredCount(old(store.items), 0) case Some(n) => Some(n + 1) case None => None;
      store.SetItem(TabCountKey, NumberText(count));
      ghost var counted := store.items;
      var session := store.GetItem(SessionKey);
      assert session.Some? && session.value.Truthy() <==> HasSession(counted);
      if !(session.Some? && session.value.Truthy()) {
        store.SetItem(SessionKey, Text("session_" + sessionSuffix));
      }
    }

    /** The `beforeunload` handler. */
    method OnBeforeUnload(store: Storage)
      requires store.Valid()
      modifies store
      ensures store.Valid()
      ensures store.items == AfterUnload(old(store.items))
    {
      var stored := store.GetItem(TabCountKey);
      var count: Option<int> := if stored.Some? && stored.value.Truthy() then ParseInt(stored.value) else Some(1);
      if count.Some? {
        count := Some(if count.value - 1 > 0 then count.value - 1 else 0);
      }
      store.SetItem(TabCountKey, NumberText(count));
    }

    /** The `visibilitychange` handler registered by `setupUnloadHandler`. */
    method OnVisibilityChange(store: Storage, hidden: bool, url: string, now: int)
      requires store.Valid()
      modifies store
      ensures store.Valid()
      ensures hidden ==> store.items == old(store.items)[ActivityPrefix + tabId := Activity(ActivityData(tabId, now, url))]
      ensures !hidden ==> store.items == old(store.items) && store.keys == old(store.keys)
    {
      if hidden {
        UpdateLastActiveTime(store, url, now);
      }
    }

    method UpdateLastActiveTime(store: Storage, url: string, now: int)
      requires store.Valid()
      modifies store
      ensures store.Valid()
      ensures store.items == old(store.items)[ActivityPrefix + tabId := Activity(ActivityData(tabId, now, url))]
      ensures ActivityPrefix + tabId in store.keys
    {
      store.SetItem(ActivityPrefix + tabId, Activity(ActivityData(tabId, now, url)));
    }

    method CheckForDuplicateInstances(store: Storage, now: int) returns (instances: seq<ActivityData>)
      ensures instances == Instances(store.keys, store.items, now)
    {
      instances := [];
      var i := 0;
      while i < |store.keys|
        invariant 0 <= i <= |store.keys|
        invariant Scan(store.keys[..i], store.items, now) == Some(instances)
      {
        var key := store.keys[i];
        assert store.keys[..i + 1][..i] == store.keys[..i];
        if ActivityPrefix <= key {
          var data := store.GetItem(key);
          if data.None? || !data.value.IsJson() {
            ScanFailsIff(store.keys[..i + 1], store.items, now);
            ScanFailsIff(store.keys, store.items, now);
            assert store.keys[..i + 1][i] == store.keys[i];
            return [];
          }
          if data.value.Activity? && now - data.value.activity.lastActive < ActiveWindow {
            instances := instances + [data.value.activity];
          }
        }
        i := i + 1;
      }
      assert store.keys[..i] == store.keys;
    }

    method GetTabInfo(store: Storage, now: int) returns (info: TabInfo)
      ensures info.tabId == tabId && info.isDuplicate == isDuplicate
      ensures info.tabCount == StoredCount(store.items, 0)
      ensures HasSession(store.items) ==> info.sessionId == store.items[SessionKey]
      ensures !HasSession(store.items) ==> info.sessionId == Text("無")
      ensures info.instances == Instances(store.keys, store.items, now)
      ensures info.activeInstances == |info.instances|
    {
      var stored := store.GetItem(TabCountKey);
      var count := if stored.Some? && stored.value.Truthy() then ParseInt(stored.value) else Some(0);
      var session := store.GetItem(SessionKey);
      var sessionId := if session.Some? && session.value.Truthy() then session.value else Text("無");
      var instances := CheckForDuplicateInstances(store, now);
      info := TabInfo(tabId, isDuplicate, count, sessionId, |instances|, instances);
    }

    method ClearAllTracking(store: Storage)
      requires store.Valid()
      modifies store
      ensures store.Valid()
      ensures store.keys == Untracked(old(store.keys))
      ensures store.items == map k | k in old(store.items) && !IsTrackingKey(k) :: old(store.items)[k]
    {
      ghost var keys0, items0 := store.keys, store.items;
      RemoveFixedKeys(store);
      RemoveActivityKeys(store);
      KeptItems(keys0, items0, store.keys, store.items);
    }

    /** The three `removeItem` calls that open `clearAllTracking`. */
    method RemoveFixedKeys(store: Storage)
      requires store.Valid()
      modifies store
      ensures store.Valid()
      ensures store.items == old(store.items) - {StateKey, TabCountKey, SessionKey}
      ensures Untracked(store.keys) == Untracked(old(store.keys))
    {
      ghost var keys0, items0 := store.keys, store.items;
      store.RemoveItem(StateKey);
      UntrackedWithout(keys0, StateKey);
      ghost var keys1 := store.keys;
      store.RemoveItem(TabCountKey);
      UntrackedWithout(keys1, TabCountKey);
      ghost var keys2 := store.keys;
      store.RemoveItem(SessionKey);
      UntrackedWithout(keys2, SessionKey);
      MinusThree(items0, StateKey, TabCountKey, SessionKey);
    }

    /** The backward loop of `clearAllTracking`, once the three fixed keys are gone. */
    method RemoveActivityKeys(store: Storage)
      requires store.Valid()
      requires StateKey !in store.items && TabCountKey !in store.items && SessionKey !in store.items
      modifies store
      ensures store.Valid()
      ensures store.keys == Untracked(old(store.keys))
      ensures forall k :: k in store.items ==> k in old(store.items) && store.items[k] == old(store.items)[k]
    {
      ghost var keys1 := store.keys;
      var i := |store.keys| - 1;
      while i >= 0
        invariant -1 <= i < |keys1|
        invariant store.Valid()
        invariant forall j :: 0 <= j < |keys1| ==> !IsTrackingKey(keys1[j]) || IsActivityKey(keys1[j])
        invariant store.keys == keys1[..i + 1] + Untracked(keys1[i + 1..])
        invariant forall k :: k in store.items ==> k in old(store.items) && store.items[k] == old(store.items)[k]
      {
        UntrackedStep(keys1, store.keys, i);
        var key := store.keys[i];
        if ActivityPrefix <= key {
          WithoutAt(store.keys, i);
          store.RemoveItem(key);
        }
        i := i - 1;
      }
      assert keys1[0..] == keys1;
    }
  }
}
