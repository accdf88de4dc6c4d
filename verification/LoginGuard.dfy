/** Per-account login lockout: consecutive failures inside a window lock the login. Times are seconds. */
module LoginGuard {
  import opened Values

  datatype Entry = Entry(fails: nat, last: real, lockedUntil: Option<real>)

  type Entries = map<string, Entry>

  /** The knobs: failures to lock, the window in whole seconds, and how many logins are remembered. */
  datatype Config = Config(maxAttempts: nat, windowSecs: nat, cap: nat) {
    predicate IsOff() { maxAttempts == 0 }

    function Window(): real { windowSecs as real }
  }

  predicate LockedAt(e: Entry, now: real) {
    e.lockedUntil.Some? && e.lockedUntil.value > now
  }

  function Evicted(c: Config, g: Entries, now: real): Entries {
    map k | k in g && now - g[k].last < c.Window() :: g[k]
  }

  /** The entry after one more failure; a slid window starts a fresh count. */
  function Struck(c: Config, e: Entry, now: real): Entry {
    var slid := now - e.last >= c.Window();
    var fails := (if slid then 0 else e.fails) + 1;
    Entry(fails, now, if fails >= c.maxAttempts then Some(now + c.Window()) else if slid then None else e.lockedUntil)
  }

  function FailEntries(c: Config, g: Entries, login: string, now: real): Entries {
    if c.IsOff() then g
    else
      var g1 := if login !in g && |g| >= c.cap then Evicted(c, g, now) else g;
      g1[login := Struck(c, if login in g1 then g1[login] else Entry(0, now, None), now)]
  }

  function LockedSecs(c: Config, g: Entries, login: string, now: real): Option<nat> {
    if c.IsOff() || login !in g || !LockedAt(g[login], now) then None
    else
      var left := (g[login].lockedUntil.value - now).Floor;
      Some(if left < 1 then 1 else left)
  }

  /** A lock runs one window from the last failure, and is set exactly by the failure count. */
  ghost predicate Consistent(c: Config, g: Entries) {
    forall k :: k in g ==>
      g[k].lockedUntil == if g[k].fails >= c.maxAttempts then Some(g[k].last + c.Window()) else None
  }

  lemma FailIsConsistent(c: Config, g: Entries, login: string, now: real)
    requires Consistent(c, g)
    ensures Consistent(c, FailEntries(c, g, login, now))
  {}

  class Guard {
    const config: Config
    var entries: Entries

    constructor (config: Config)
      ensures this.config == config && entries == map[] && Consistent(config, entries)
    {
      this.config := config;
      entries := map[];
    }

    /** Records a failure; answers the window exactly when the login goes from free to locked. */
    method Fail(login: string, now: real) returns (locked: Option<nat>)
      requires config.windowSecs >= 1 && Consistent(config, entries)
      modifies this
      ensures Consistent(config, entries)
      ensures entries == FailEntries(config, old(entries), login, now)
      ensures config.maxAttempts == 0 ==> locked == None && entries == old(entries)
      ensures config.maxAttempts > 0 ==>
                locked == if LockedSecs(config, old(entries), login, now).None?
                             && LockedSecs(config, entries, login, now).Some? then Some(config.windowSecs) else None
    {
      FailIsConsistent(config, entries, login, now);
      if config.IsOff() {
        return None;
      }
      if login !in entries && |entries| >= config.cap {
        entries := Evicted(config, entries, now);
      }
      var e := if login in entries then entries[login] else Entry(0, now, None);
      ghost var held := e;
      if now - e.last >= config.Window() {
        e := e.(fails := 0, lockedUntil := None);
      }
      e := e.(fails := e.fails + 1, last := now);
      var wasLocked := LockedAt(e, now);
      if e.fails >= config.maxAttempts {
        e := e.(lockedUntil := Some(now + config.Window()));
      }
      assert e == Struck(config, held, now);
      entries := entries[login := e];
      return if !wasLocked && LockedAt(e, now) then Some(config.windowSecs) else None;
    }

    /** Seconds until retry when locked. When the entries are those of a history `h`, the answer is the history's. */
    method Locked(login: string, now: real, ghost h: seq<Event>, ghost start: real) returns (secs: Option<nat>)
      ensures secs == LockedSecs(config, entries, login, now)
      ensures config.windowSecs >= 1 && entries == After(config, h) && InOrder(h, start) && TimeOf(h, start) <= now ==>
                secs ==
                if LockedByHistory(config, h, login, now) then Some(WholeSeconds(TimeLeft(config, h, login, now)))
                else None
    {
      if config.windowSecs >= 1 && entries == After(config, h) && InOrder(h, start) && TimeOf(h, start) <= now {
        LockedIffHistory(config, h, login, start, now);
        if LockedByHistory(config, h, login, now) {
          LockedForTheRest(config, h, login, start, now);
        }
      }
      if config.IsOff() || login !in entries {
        return None;
      }
      var e := entries[login];
      if e.lockedUntil.None? || e.lockedUntil.value <= now {
        return None;
      }
      var left := (e.lockedUntil.value - now).Floor;
      return Some(if left < 1 then 1 else left);
    }

    method Clear(login: string)
      requires Consistent(config, entries)
      modifies this
      ensures Consistent(config, entries)
      ensures entries == if config.maxAttempts == 0 then old(entries) else old(entries) - {login}
    {
      if !config.IsOff() {
        entries := entries - {login};
      }
    }
  }

  // ---------- Against the history ----------

  datatype Event = Failed(login: string, at: real) | Cleared(login: string)

  function Next(c: Config, g: Entries, e: Event): Entries {
    match e
    case Failed(login, at) => FailEntries(c, g, login, at)
    case Cleared(login) => if c.IsOff() then g else g - {login}
  }

  function After(c: Config, h: seq<Event>): Entries {
    if h == [] then map[] else Next(c, After(c, h[..|h| - 1]), h[|h| - 1])
  }

  function TimeOf(h: seq<Event>, start: real): real {
    if h == [] then start
    else if h[|h| - 1].Failed? then h[|h| - 1].at
    else TimeOf(h[..|h| - 1], start)
  }

  predicate InOrder(h: seq<Event>, start: real) {
    h == [] || (InOrder(h[..|h| - 1], start) && TimeOf(h[..|h| - 1], start) <= TimeOf(h, start))
  }

  /** Times of a login's failures since its last clear. */
  function Strikes(h: seq<Event>, login: string): seq<real> {
    if h == [] then []
    else
      var init, e := h[..|h| - 1], h[|h| - 1];
      if e.login != login then Strikes(init, login)
      else if e.Cleared? then []
      else Strikes(init, login) + [e.at]
  }

  /** Length of the longest tail whose neighbours are less than a window apart. */
  function TrailingRun(times: seq<real>, window: real): nat {
    if times == [] then 0
    else
      var n := |times|;
      if n >= 2 && times[n - 1] - times[n - 2] < window then TrailingRun(times[..n - 1], window) + 1 else 1
  }

  /** What the history says: enough close failures, and less than a window since the last. */
  predicate LockedByHistory(c: Config, h: seq<Event>, login: string, t: real) {
    var times := Strikes(h, login);
    && c.maxAttempts > 0 && times != []
    && TrailingRun(times, c.windowSecs as real) >= c.maxAttempts
    && t < times[|times| - 1] + c.windowSecs as real
  }

  /** Seconds from `t` to one window after the last failure. */
  function TimeLeft(c: Config, h: seq<Event>, login: string, t: real): real
    requires LockedByHistory(c, h, login, t)
  {
    var times := Strikes(h, login);
    times[|times| - 1] + c.windowSecs as real - t
  }

  function WholeSeconds(left: real): nat {
    if left < 1.0 then 1 else left.Floor
  }

  /** How an entry, or its absence, reflects the failures of its login. */
  ghost predicate Reflects(c: Config, g: Entries, login: string, times: seq<real>, end: real) {
    if login in g then
      && times != [] && g[login].last == times[|times| - 1]
      && g[login].fails == TrailingRun(times, c.Window())
    else times == [] || end - times[|times| - 1] >= c.Window()
  }

  lemma FailReflects(c: Config, g: Entries, login: string, who: string, times: seq<real>, end: real, now: real)
    requires !c.IsOff() && c.windowSecs >= 1 && Consistent(c, g) && end <= now
    requires Reflects(c, g, login, times, end)
    ensures Consistent(c, FailEntries(c, g, who, now))
    ensures Reflects(c, FailEntries(c, g, who, now), login, if who == login then times + [now] else times, now)
  {
    if who == login {
      assert (times + [now])[..|times|] == times;
    }
  }

  lemma {:induction false} RunReflects(c: Config, h: seq<Event>, login: string, start: real)
    requires !c.IsOff() && c.windowSecs >= 1 && InOrder(h, start)
    ensures Consistent(c, After(c, h)) && Reflects(c, After(c, h), login, Strikes(h, login), TimeOf(h, start))
  {
    if h != [] {
      var init, e := h[..|h| - 1], h[|h| - 1];
      RunReflects(c, init, login, start);
      if e.Failed? {
        FailReflects(c, After(c, init), login, e.login, Strikes(init, login), TimeOf(init, start), e.at);
      }
    }
  }

  /** A login is locked exactly when its failures since the last clear say so; eviction, which the
      right side does not mention, never shows. */
  lemma LockedIffHistory(c: Config, h: seq<Event>, login: string, start: real, t: real)
    requires c.windowSecs >= 1 && InOrder(h, start) && TimeOf(h, start) <= t
    ensures LockedSecs(c, After(c, h), login, t).Some? <==> LockedByHistory(c, h, login, t)
  {
    if !c.IsOff() {
      RunReflects(c, h, login, start);
    }
  }

  /** The seconds told to a locked caller are the whole seconds left, at least one. */
  lemma LockedForTheRest(c: Config, h: seq<Event>, login: string, start: real, t: real)
    requires c.windowSecs >= 1 && InOrder(h, start) && TimeOf(h, start) <= t && LockedByHistory(c, h, login, t)
    ensures LockedSecs(c, After(c, h), login, t) == Some(WholeSeconds(TimeLeft(c, h, login, t)))
  {
    RunReflects(c, h, login, start);
  }

  /** The capacity, and with it eviction, changes no answer. */
  lemma CapacityNeverShows(c: Config, cap: nat, h: seq<Event>, login: string, start: real, t: real)
    requires c.windowSecs >= 1 && InOrder(h, start) && TimeOf(h, start) <= t
    ensures var c' := c.(cap := cap);
            LockedSecs(c, After(c, h), login, t) == LockedSecs(c', After(c', h), login, t)
  {
    var c' := c.(cap := cap);
    LockedIffHistory(c, h, login, start, t);
    LockedIffHistory(c', h, login, start, t);
    if LockedByHistory(c, h, login, t) {
      LockedForTheRest(c, h, login, start, t);
      LockedForTheRest(c', h, login, start, t);
      assert TimeLeft(c, h, login, t) == TimeLeft(c', h, login, t);
    }
  }
}
