/**
 * The focus and visibility tracker: window `focus`/`blur` and document
 * `visibilitychange` handlers that update two flags, two change counters and two
 * instants, and the decision that labels how the page was opened. `Date.now()` is the
 * parameter `now`; `document.hidden`, `window.opener`, `document.referrer`,
 * `history.length` and the hostnames that `new URL(...)` finds are parameters too.
 */
module TabListening {
  import opened Wrappers

  /** The object `getStatus` returns: the six tracked fields. */
  datatype TabStatus = TabStatus(
    isVisible: bool,
    hasFocus: bool,
    focusChangeCount: nat,
    visibilityChangeCount: nat,
    lastFocusTime: int,
    lastVisibilityTime: int)

  /** The events the three handlers respond to. */
  datatype TabEvent =
    | Focused(at: int)
    | Blurred
    | VisibilityChanged(hidden: bool, at: int)

  /** The state after one handler runs. */
  function Step(st: TabStatus, e: TabEvent): (r: TabStatus)
    ensures e.Focused? ==> r == st.(hasFocus := true, focusChangeCount := st.focusChangeCount + 1, lastFocusTime := e.at)
    ensures e.Blurred? ==> r == st.(hasFocus := false, focusChangeCount := st.focusChangeCount + 1)
    ensures e.VisibilityChanged? ==>
              r == st.(isVisible := !e.hidden, visibilityChangeCount := st.visibilityChangeCount + 1, lastVisibilityTime := e.at)
    ensures r.focusChangeCount + r.visibilityChangeCount == st.focusChangeCount + st.visibilityChangeCount + 1
  {
    match e
    case Focused(now) => TabStatus(st.isVisible, true, st.focusChangeCount + 1, st.visibilityChangeCount, now, st.lastVisibilityTime)
    case Blurred => TabStatus(st.isVisible, false, st.focusChangeCount + 1, st.visibilityChangeCount, st.lastFocusTime, st.lastVisibilityTime)
    case VisibilityChanged(hidden, now) =>
      TabStatus(!hidden, st.hasFocus, st.focusChangeCount, st.visibilityChangeCount + 1, st.lastFocusTime, now)
  }

  /** The status after a sequence of events: the last event's own fields hold at the end. */
  function Run(st: TabStatus, events: seq<TabEvent>): (r: TabStatus)
    ensures events != [] && events[|events| - 1].Focused? ==>
              r.hasFocus && r.lastFocusTime == events[|events| - 1].at
    ensures events != [] && events[|events| - 1].Blurred? ==> !r.hasFocus
    ensures events != [] && events[|events| - 1].VisibilityChanged? ==>
              r.isVisible == !events[|events| - 1].hidden && r.lastVisibilityTime == events[|events| - 1].at
    decreases |events|
  {
    if events == [] then st else Run(Step(st, events[0]), events[1..])
  }

  /** How many of `events` are focus or blur events. */
  function FocusEvents(events: seq<TabEvent>): (n: nat)
    ensures n <= |events|
    decreases |events|
  {
    if events == [] then 0 else (if events[0].VisibilityChanged? then 0 else 1) + FocusEvents(events[1..])
  }

  /**
   * Over any sequence of events each counter grows by exactly the number of events of
   * its kind, so the two counters together count every event and never decrease.
   */
  lemma {:induction false} RunCounts(st: TabStatus, events: seq<TabEvent>)
    ensures Run(st, events).focusChangeCount == st.focusChangeCount + FocusEvents(events)
    ensures Run(st, events).visibilityChangeCount == st.visibilityChangeCount + (|events| - FocusEvents(events))
    decreases |events|
  {
    if events != [] {
      RunCounts(Step(st, events[0]), events[1..]);
    }
  }

  /** Visibility events never touch the focus fields, and focus events never touch the visibility fields. */
  lemma {:induction false} RunSeparatesFields(st: TabStatus, events: seq<TabEvent>)
    ensures FocusEvents(events) == 0 ==>
              && Run(st, events).hasFocus == st.hasFocus
              && Run(st, events).lastFocusTime == st.lastFocusTime
    ensures FocusEvents(events) == |events| ==>
              && Run(st, events).isVisible == st.isVisible
              && Run(st, events).lastVisibilityTime == st.lastVisibilityTime
    decreases |events|
  {
    if events != [] {
      RunSeparatesFields(Step(st, events[0]), events[1..]);
    }
  }

  class TabListener {
    var isVisible: bool
    var hasFocus: bool
    var focusChangeCount: nat
    var visibilityChangeCount: nat
    var lastFocusTime: int
    var lastVisibilityTime: int

    /** `getStatus`: the six fields exactly as stored. */
    function GetStatus(): (r: TabStatus)
      reads this
      ensures r.isVisible == isVisible && r.hasFocus == hasFocus
      ensures r.focusChangeCount == focusChangeCount && r.visibilityChangeCount == visibilityChangeCount
      ensures r.lastFocusTime == lastFocusTime && r.lastVisibilityTime == lastVisibilityTime
    {
      TabStatus(isVisible, hasFocus, focusChangeCount, visibilityChangeCount, lastFocusTime, lastVisibilityTime)
    }

    /** `new TabListener()`: visible, focused, no changes counted, both instants at `now`. */
    constructor (now: int)
      ensures GetStatus() == TabStatus(true, true, 0, 0, now, now)
    {
      isVisible := true;
      hasFocus := true;
      focusChangeCount := 0;
      visibilityChangeCount := 0;
      lastFocusTime := now;
      lastVisibilityTime := now;
    }

    /** The window `focus` handler. */
    method OnFocus(now: int)
      modifies this
      ensures GetStatus() == Step(old(GetStatus()), Focused(now))
    {
      hasFocus := true;
      focusChangeCount := focusChangeCount + 1;
      lastFocusTime := now;
    }

    /** The window `blur` handler. */
    method OnBlur()
      modifies this
      ensures GetStatus() == Step(old(GetStatus()), Blurred)
    {
      hasFocus := false;
      focusChangeCount := focusChangeCount + 1;
    }

    /** The document `visibilitychange` handler, given `document.hidden`. */
    method OnVisibilityChange(hidden: bool, now: int)
      modifies this
      ensures GetStatus() == Step(old(GetStatus()), VisibilityChanged(hidden, now))
    {
      isVisible := !hidden;
      visibilityChangeCount := visibilityChangeCount + 1;
      lastVisibilityTime := now;
    }

    /** What `resetAllStats` does to the listener: both counters back to zero, nothing else. */
    method ResetCounters()
      modifies this
      ensures GetStatus() == old(GetStatus()).(focusChangeCount := 0, visibilityChangeCount := 0)
    {
      focusChangeCount := 0;
      visibilityChangeCount := 0;
    }
  }

  // ---------------------------------------------------------------------------
  // How the page was opened

  datatype Opening = NewTab | DuplicateTab | InternalNavigation | ExternalLink | BookmarkAccess | DirectAccess

  /** `extractDomain`: the hostname `new URL(url)` finds, or '' when the URL does not parse (`None`). */
  function ExtractDomain(hostname: Option<string>): (r: string)
    ensures hostname.Some? ==> r == hostname.value
    ensures hostname.None? ==> r == ""
  {
    hostname.GetOr("")
  }

  /** `checkBrowserHistory`: `history.length > 1`, and false when reading it throws (`None`). */
  function CheckBrowserHistory(historyLength: Option<int>): (r: bool)
    ensures r <==> historyLength.Some? && historyLength.value > 1
  {
    match historyLength
    case Some(n) => n > 1
    case None => false
  }

  /**
   * The decision of `performOpeningDetection`. `detector` is the duplicate detector's
   * `isDuplicate` flag, `None` when there is no detector; `referrer` is
   * `document.referrer` and `referrerHost`, `currentHost` the hostnames of the referrer
   * and of the page's own URL.
   */
  function ClassifyOpening(hasOpener: bool, detector: Option<bool>, referrer: string,
                           referrerHost: Option<string>, currentHost: Option<string>,
                           historyLength: Option<int>): (r: Opening)
    ensures r == NewTab <==> hasOpener
    ensures r == DuplicateTab <==> !hasOpener && detector == Some(true)
    ensures r == InternalNavigation <==>
              !hasOpener && detector != Some(true) && referrer != "" && ExtractDomain(referrerHost) == ExtractDomain(currentHost)
    ensures r == ExternalLink <==>
              !hasOpener && detector != Some(true) && referrer != "" && ExtractDomain(referrerHost) != ExtractDomain(currentHost)
    ensures r == BookmarkAccess <==>
              !hasOpener && detector != Some(true) && referrer == "" && historyLength.Some? && historyLength.value > 1
    ensures r == DirectAccess <==>
              !hasOpener && detector != Some(true) && referrer == "" && !(historyLength.Some? && historyLength.value > 1)
  {
    var isDuplicate := detector.GetOr(false);
    if hasOpener then NewTab
    else if isDuplicate then DuplicateTab
    else if referrer != "" then
      (if ExtractDomain(referrerHost) == ExtractDomain(currentHost) then InternalNavigation else ExternalLink)
    else if CheckBrowserHistory(historyLength) then BookmarkAccess
    else DirectAccess
  }

  /**
   * A referrer whose URL does not parse, on a page whose own URL does not parse either,
   * counts as same-site navigation: both domains are ''.
   */
  lemma UnparsableHostsAreInternal(detector: Option<bool>, referrer: string, historyLength: Option<int>)
    requires detector != Some(true) && referrer != ""
    ensures ClassifyOpening(false, detector, referrer, None, None, historyLength) == InternalNavigation
  {
  }

  /**
   * The inputs lower in the priority are consulted only when every input above them is
   * absent: with an opener, a duplicate or a referrer, the history length decides nothing,
   * and without a referrer the hostnames decide nothing.
   */
  lemma LowerPriorityInputsIgnored(hasOpener: bool, detector: Option<bool>, referrer: string,
                                   rh: Option<string>, ch: Option<string>, rh2: Option<string>, ch2: Option<string>,
                                   h: Option<int>, h2: Option<int>)
    ensures hasOpener || detector == Some(true) || referrer != "" ==>
              ClassifyOpening(hasOpener, detector, referrer, rh, ch, h) == ClassifyOpening(hasOpener, detector, referrer, rh, ch, h2)
    ensures referrer == "" ==>
              ClassifyOpening(hasOpener, detector, referrer, rh, ch, h) == ClassifyOpening(hasOpener, detector, referrer, rh2, ch2, h)
    ensures hasOpener ==> ClassifyOpening(hasOpener, detector, referrer, rh, ch, h) == NewTab
  {
  }
}
