/** The key detector: pin interrupts and timer expiries over one shared record.
    Each callback is one atomic step, and what the record holds is stated as a function of everything that has
    happened, whatever the order. */
module Debounce {
  import opened Bytes

  /** An interrupt whose callback reads this level, or the debounce timer running out. */
  datatype Event = Pin(level: bool) | Expiry

  const PRESS_TIMEOUT := 100
  const RELEASE_TIMEOUT := 100

  /** The level read last. */
  function Level(start: bool, h: seq<Event>): bool {
    if h == [] then start
    else
      var last := h[|h| - 1];
      if last.Pin? then last.level else Level(start, h[..|h| - 1])
  }

  /** What happened since the timer last ran out. */
  function Window(h: seq<Event>): (w: seq<Event>)
    ensures |w| <= |h| && w == h[|h| - |w|..]
  {
    if h == [] || h[|h| - 1].Expiry? then [] else Window(h[..|h| - 1]) + [h[|h| - 1]]
  }

  /** What happened up to then. */
  function Before(h: seq<Event>): seq<Event> {
    h[..|h| - |Window(h)|]
  }

  predicate IsChange(start: bool, h: seq<Event>, i: nat)
    requires i < |h|
  {
    h[i].Pin? && h[i].level != Level(start, h[..i])
  }

  /** How often the level read differed from the one read before. */
  function Changes(start: bool, h: seq<Event>): nat {
    if h == [] then 0
    else Changes(start, h[..|h| - 1]) + if IsChange(start, h, |h| - 1) then 1 else 0
  }

  function WindowStart(start: bool, h: seq<Event>): bool {
    Level(start, Before(h))
  }

  /** The level changes of the current window. */
  function WindowChanges(start: bool, h: seq<Event>): nat {
    Changes(WindowStart(start, h), Window(h))
  }

  /** Event i is the first change of its window. */
  predicate Opens(start: bool, h: seq<Event>, i: nat)
    requires i < |h|
  {
    IsChange(start, h, i) && WindowChanges(start, h[..i]) == 0
  }

  function Openings(start: bool, h: seq<Event>): nat {
    if h == [] then 0
    else Openings(start, h[..|h| - 1]) + if Opens(start, h, |h| - 1) then 1 else 0
  }

  /** 1 or 2, the direction of the first change of the latest window that had one. */
  ghost predicate FlagTells(start: bool, h: seq<Event>, flag: int) {
    || (flag == 0 && forall i :: 0 <= i < |h| ==> !Opens(start, h, i))
    || exists i :: 0 <= i < |h| && Opens(start, h, i) && (forall j :: i < j < |h| ==> !Opens(start, h, j))
                   && flag == if h[i].level then 1 else 2
  }

  /** The edges an interrupt is enabled for: those of the initial setting until the timer has run out once, then
      the one that leaves the level of that moment. */
  function Edges(start: bool, gpio: bool, h: seq<Event>): (e: (bool, bool)) {
    if gpio && Before(h) != [] then (!WindowStart(start, h), WindowStart(start, h)) else (true, false)
  }

  class Detector {
    var flag: int
    var lockState: int
    var pressed: bool
    var debounceTimer: Option<nat>
    const gpio: bool
    var rising: bool
    var falling: bool

    ghost const start: bool
    ghost var history: seq<Event>
    ghost var armed: nat

    /** The whole record as what has happened determines it. */
    ghost predicate Explained()
      reads this
    {
      && lockState == WindowChanges(start, history)
      && pressed == Level(start, history)
      && (debounceTimer.Some? <==> WindowChanges(start, history) > 0)
      && armed == Openings(start, history)
      && FlagTells(start, history, flag)
      && (rising, falling) == Edges(start, gpio, history)
    }

    /** The set-up of example 2, reading the pin once. */
    constructor (open: bool, level: bool)
      ensures Explained() && history == [] && start == level && gpio == open
      ensures flag == 0 && lockState == 0 && pressed == level && debounceTimer == None && rising && !falling
    {
      flag, lockState, debounceTimer := 0, 0, None;
      rising, falling := true, false;
      gpio, pressed := open, level;
      start, history, armed := level, [], 0;
    }

    method TimerStart(timeout: nat)
      modifies this`debounceTimer, this`armed
      ensures debounceTimer == Some(timeout) && armed == old(armed) + 1
    {
      debounceTimer, armed := Some(timeout), armed + 1;
    }

    /** srvGpioPressSwitch; the driver's answer to the new setting is an input. */
    method PressSwitch(status: bool, reconfigured: bool) returns (ok: bool)
      modifies this`rising, this`falling
      ensures (rising, falling) == if gpio then (!status, status) else old((rising, falling))
      ensures ok == (gpio && reconfigured)
    {
      if !gpio {
        return false;
      }
      rising := !status;
      falling := status;
      ok := reconfigured;
    }

    /** The timer has run out: the window closes. */
    method DebounceCb(reconfigured: bool)
      requires Explained()
      modifies this
      ensures Explained() && history == old(history) + [Expiry]
      ensures debounceTimer == None && flag == old(flag) && lockState == 0 && pressed == old(pressed)
      ensures (rising, falling) == if gpio then (!pressed, pressed) else old((rising, falling))
    {
      hide WindowChanges, Level, Openings, FlagTells, Edges, Opens;
      debounceTimer := None;
      var _ := PressSwitch(pressed, reconfigured);
      lockState := 0;
      AfterExpiry(start, gpio, history);
      FlagKept(start, history, Expiry, flag);
      history := history + [Expiry];
    }

    /** A pin interrupt whose callback reads this level. The timer is never started while it is pending. */
    method GpioCb(currentState: bool)
      requires Explained()
      modifies this
      ensures Explained() && history == old(history) + [Pin(currentState)]
      ensures currentState == old(pressed) ==>
                && pressed == old(pressed) && lockState == old(lockState) && flag == old(flag)
                && debounceTimer == old(debounceTimer) && armed == old(armed)
      ensures currentState != old(pressed) ==> pressed == currentState && lockState == old(lockState) + 1
      ensures currentState != old(pressed) && old(lockState) == 0 ==>
                && flag == (if currentState then 1 else 2) && debounceTimer == Some(100) && armed == old(armed) + 1
      ensures currentState != old(pressed) && old(lockState) != 0 ==>
                flag == old(flag) && debounceTimer == old(debounceTimer) && armed == old(armed)
      ensures armed > old(armed) ==> old(debounceTimer) == None && debounceTimer.Some?
      ensures (rising, falling) == old((rising, falling))
    {
      hide WindowChanges, Level, Openings, FlagTells, Edges, Opens;
      AfterPin(start, gpio, history, currentState);
      FlagMoves(start, history, Pin(currentState), flag);
      history := history + [Pin(currentState)];
      if pressed == currentState {
        return;
      }
      pressed := currentState;
      lockState := lockState + 1;
      if pressed && lockState == 1 {
        flag := 1;
        TimerStart(PRESS_TIMEOUT);
      }
      if !pressed && lockState == 1 {
        flag := 2;
        TimerStart(RELEASE_TIMEOUT);
      }
    }
  }

  lemma HistoryGrows(h: seq<Event>, e: Event)
    ensures (h + [e])[..|h|] == h && (h + [e])[|h|] == e
  {
  }

  lemma AfterExpiry(start: bool, gpio: bool, h: seq<Event>)
    ensures var g := h + [Expiry];
            && WindowChanges(start, g) == 0 && Level(start, g) == Level(start, h)
            && Openings(start, g) == Openings(start, h) && !Opens(start, g, |h|)
            && Edges(start, gpio, g) == if gpio then (!Level(start, h), Level(start, h)) else (true, false)
    ensures !gpio ==> Edges(start, gpio, h) == (true, false)
  {
    HistoryGrows(h, Expiry);
    assert Before(h + [Expiry]) == h + [Expiry];
  }

  lemma PinWindow(start: bool, h: seq<Event>, level: bool)
    ensures Window(h + [Pin(level)]) == Window(h) + [Pin(level)]
    ensures Before(h + [Pin(level)]) == Before(h)
    ensures WindowStart(start, h + [Pin(level)]) == WindowStart(start, h)
  {
    HistoryGrows(h, Pin(level));
  }

  lemma ChangesStep(start: bool, h: seq<Event>, level: bool)
    ensures Changes(start, h + [Pin(level)]) == Changes(start, h) + if level != Level(start, h) then 1 else 0
  {
    HistoryGrows(h, Pin(level));
  }

  /** The window's changes, counted from the level it started with, are changes of the level recorded. */
  lemma {:induction false} LevelInWindow(start: bool, h: seq<Event>)
    ensures Level(WindowStart(start, h), Window(h)) == Level(start, h)
  {
    if h != [] && h[|h| - 1].Pin? {
      assert Window(h)[|Window(h)| - 1] == h[|h| - 1];
    } else if h != [] {
      assert Before(h) == h;
    }
  }

  lemma AfterPin(start: bool, gpio: bool, h: seq<Event>, level: bool)
    ensures var g := h + [Pin(level)];
            var change := level != Level(start, h);
            && Level(start, g) == level
            && WindowChanges(start, g) == WindowChanges(start, h) + (if change then 1 else 0)
            && Openings(start, g) == Openings(start, h) + (if change && WindowChanges(start, h) == 0 then 1 else 0)
            && Opens(start, g, |h|) == (change && WindowChanges(start, h) == 0)
            && Edges(start, gpio, g) == Edges(start, gpio, h)
  {
    HistoryGrows(h, Pin(level));
    PinWindow(start, h, level);
    LevelInWindow(start, h);
    ChangesStep(WindowStart(start, h), Window(h), level);
    hide Window, Changes, Before;
  }

  /** An event changes nothing about the openings before it. */
  lemma OpensBefore(start: bool, h: seq<Event>, e: Event, i: nat)
    requires i < |h|
    ensures Opens(start, h + [e], i) == Opens(start, h, i)
  {
    assert (h + [e])[..i] == h[..i];
  }

  lemma OpensArePins(start: bool, h: seq<Event>)
    ensures forall i :: 0 <= i < |h| && Opens(start, h, i) ==> h[i].Pin?
  {
  }

  lemma FlagKept(start: bool, h: seq<Event>, e: Event, flag: int)
    requires !Opens(start, h + [e], |h|) && FlagTells(start, h, flag)
    ensures FlagTells(start, h + [e], flag)
  {
    hide Opens;
    forall i | 0 <= i < |h| ensures Opens(start, h + [e], i) == Opens(start, h, i) { OpensBefore(start, h, e, i); }
    OpensArePins(start, h);
  }

  lemma FlagMoves(start: bool, h: seq<Event>, e: Event, flag: int)
    requires e.Pin? && FlagTells(start, h, flag)
    ensures FlagTells(start, h + [e], if !Opens(start, h + [e], |h|) then flag else if e.level then 1 else 2)
  {
    if !Opens(start, h + [e], |h|) { FlagKept(start, h, e, flag); }
  }

  // What the closed form says about every run.

  lemma {:induction false} ParityOfChanges(start: bool, h: seq<Event>)
    ensures Level(start, h) != start <==> Changes(start, h) % 2 == 1
  {
    if h == [] {
    } else {
      ParityOfChanges(start, h[..|h| - 1]);
    }
  }

  /** The recorded level differs from the one before the window exactly when lock_state is odd. */
  lemma WindowParity(start: bool, h: seq<Event>)
    ensures Level(start, h) != WindowStart(start, h) <==> WindowChanges(start, h) % 2 == 1
  {
    LevelInWindow(start, h);
    ParityOfChanges(WindowStart(start, h), Window(h));
  }

  /** Windows with a change that the timer has ended. */
  function Closings(start: bool, h: seq<Event>): nat {
    if h == [] then 0
    else
      var earlier := h[..|h| - 1];
      Closings(start, earlier) + if h[|h| - 1].Expiry? && WindowChanges(start, earlier) > 0 then 1 else 0
  }

  /** One start of the timer for each window that had a change: those ended, and the open one. */
  lemma {:induction false} ArmedOncePerWindow(start: bool, h: seq<Event>)
    ensures Openings(start, h) == Closings(start, h) + if WindowChanges(start, h) > 0 then 1 else 0
  {
    if h == [] {
    } else {
      var earlier, last := h[..|h| - 1], h[|h| - 1];
      assert h == earlier + [last];
      ArmedOncePerWindow(start, earlier);
      if last.Pin? { AfterPin(start, true, earlier, last.level); } else { AfterExpiry(start, true, earlier); }
      hide WindowChanges, Level, Edges, Opens;
    }
  }

  lemma FlagUnkept(start: bool, h: seq<Event>, e: Event, flag: int)
    requires !Opens(start, h + [e], |h|) && FlagTells(start, h + [e], flag)
    ensures FlagTells(start, h, flag)
  {
    hide Opens;
    forall i | 0 <= i < |h| ensures Opens(start, h + [e], i) == Opens(start, h, i) { OpensBefore(start, h, e, i); }
    OpensArePins(start, h);
  }

  /** Inside a window the flag names the direction away from the level the window started with. */
  lemma {:induction false} FlagIsDirection(start: bool, h: seq<Event>, flag: int)
    requires FlagTells(start, h, flag) && WindowChanges(start, h) > 0
    ensures flag == if WindowStart(start, h) then 2 else 1
  {
    hide FlagTells, WindowStart, Level, Opens, Edges, Openings, WindowChanges;
    NoChangeYet(start, h);
    var earlier, last := h[..|h| - 1], h[|h| - 1];
    assert h == earlier + [last];
    AfterPin(start, true, earlier, last.level);
    PinWindow(start, earlier, last.level);
    WindowParity(start, earlier);
    if Opens(start, h, |earlier|) {
      FlagOfOpening(start, earlier, last, flag);
    } else {
      FlagUnkept(start, earlier, last, flag);
      FlagIsDirection(start, earlier, flag);
    }
  }

  lemma NoChangeYet(start: bool, h: seq<Event>)
    ensures h == [] || h[|h| - 1].Expiry? ==> WindowChanges(start, h) == 0
  {
  }

  lemma FlagOfOpening(start: bool, h: seq<Event>, e: Event, flag: int)
    requires Opens(start, h + [e], |h|) && FlagTells(start, h + [e], flag)
    ensures e.Pin? && flag == if e.level then 1 else 2
  {
  }

  /** What the expiring timer reports is the level recorded then exactly when lock_state is odd. */
  lemma ReportIsCurrent(start: bool, h: seq<Event>, flag: int)
    requires FlagTells(start, h, flag) && WindowChanges(start, h) > 0
    ensures flag == (if Level(start, h) then 1 else 2) <==> WindowChanges(start, h) % 2 == 1
  {
    FlagIsDirection(start, h, flag);
    WindowParity(start, h);
    hide Level, WindowStart, WindowChanges, FlagTells;
  }

  /** Outside a window exactly the edge that leaves the recorded level is enabled, unless the pin was high at the
      start and no window has closed yet. */
  lemma EdgeOutsideWindow(start: bool, h: seq<Event>)
    requires WindowChanges(start, h) == 0
    ensures Edges(start, true, h) == (!Level(start, h), Level(start, h)) <==> !start || Expiry in h
  {
    hide WindowChanges, Level, WindowStart, Edges;
    WindowParity(start, h);
    EdgesAre(start, h);
  }

  lemma EdgesAre(start: bool, h: seq<Event>)
    ensures Edges(start, true, h) == if Expiry in h then (!WindowStart(start, h), WindowStart(start, h)) else (true, false)
    ensures Expiry !in h ==> WindowStart(start, h) == start
  {
    ExpiryEndsBefore(h);
    hide Before;
  }

  lemma {:induction false} ExpiryEndsBefore(h: seq<Event>)
    ensures Before(h) != [] <==> Expiry in h
  {
    if h == [] {
    } else if h[|h| - 1].Expiry? {
      assert Before(h) == h;
    } else {
      hide Before;
      var earlier, last := h[..|h| - 1], h[|h| - 1];
      assert h == earlier + [last];
      ExpiryEndsBefore(earlier);
      PinWindow(true, earlier, last.level);
    }
  }

  /** No interrupt changes the edges; only the timer running out does. */
  lemma {:induction false} EdgesFrozen(start: bool, gpio: bool, h: seq<Event>, pins: seq<Event>)
    requires Expiry !in pins
    ensures Edges(start, gpio, h + pins) == Edges(start, gpio, h)
  {
    if pins == [] {
      assert h + pins == h;
    } else {
      var earlier, last := pins[..|pins| - 1], pins[|pins| - 1];
      assert last.Pin?;
      assert h + pins == (h + earlier) + [last];
      AfterPin(start, gpio, h + earlier, last.level);
      EdgesFrozen(start, gpio, h, earlier);
    }
  }

  /** A run of the hardware itself: an interrupt comes only from an enabled edge and reads the level after that edge,
      and the timer runs out only while it is pending. */
  ghost predicate Possible(start: bool, h: seq<Event>) {
    h != [] ==>
      var earlier, last := h[..|h| - 1], h[|h| - 1];
      && Possible(start, earlier)
      && match last
         case Pin(level) => if level then Edges(start, true, earlier).0 else Edges(start, true, earlier).1
         case Expiry => WindowChanges(start, earlier) > 0
  }

  /** Started with the pin high, the detector never sees anything: only rising edges interrupt, and what they read is
      what is recorded already. */
  lemma {:induction false} StartedHighIsDeaf(h: seq<Event>)
    requires Possible(true, h)
    ensures Expiry !in h && Level(true, h) && WindowChanges(true, h) == 0 && Openings(true, h) == 0
    ensures Edges(true, true, h) == (true, false)
  {
    if h == [] {
    } else {
      var earlier, last := h[..|h| - 1], h[|h| - 1];
      assert h == earlier + [last];
      StartedHighIsDeaf(earlier);
      if last.Pin? {
        AfterPin(true, true, earlier, last.level);
        hide Edges, WindowChanges, Openings, Level;
      }
    }
  }

  /** At most one change in a window, press and release in turn, and the edges enabled for the opposite of the level
      the window started with. */
  ghost predicate Alternating(h: seq<Event>) {
    && WindowChanges(false, h) <= 1
    && (Level(false, h) <==> Openings(false, h) % 2 == 1)
    && Edges(false, true, h) == if WindowChanges(false, h) == 0 then (!Level(false, h), Level(false, h))
                                else (Level(false, h), !Level(false, h))
  }

  lemma AlternatesAfterPin(h: seq<Event>, level: bool)
    requires Alternating(h) && if level then Edges(false, true, h).0 else Edges(false, true, h).1
    ensures Alternating(h + [Pin(level)])
  {
    hide Edges, WindowChanges, Level, Opens, Openings;
    AfterPin(false, true, h, level);
  }

  lemma AlternatesAfterExpiry(h: seq<Event>)
    requires Alternating(h)
    ensures Alternating(h + [Expiry])
  {
    hide Edges, WindowChanges, Level, Opens, Openings;
    AfterExpiry(false, true, h);
  }

  /** Started low it reports presses and releases in turn: lock_state never passes 1, and the level recorded is high
      exactly after an odd number of windows. */
  lemma {:induction false} StartedLowAlternates(h: seq<Event>)
    requires Possible(false, h)
    ensures Alternating(h)
  {
    if h == [] {
    } else {
      hide Edges, WindowChanges, Alternating;
      var earlier, last := h[..|h| - 1], h[|h| - 1];
      assert h == earlier + [last];
      StartedLowAlternates(earlier);
      if last.Pin? { AlternatesAfterPin(earlier, last.level); } else { AlternatesAfterExpiry(earlier); }
    }
  }
}
