/**
 * The input events `Game.events` reacts to: quitting (window close or the
 * escape key) and the "i" key, which flips the debug overlay.
 */
module Events {

  datatype Key = Escape | KeyI | OtherKey

  datatype Event = QuitEvent | KeyDown(key: Key) | OtherEvent

  /** An event on which `quit()` is called, which exits the process. */
  predicate IsQuit(e: Event) {
    e == QuitEvent || e == KeyDown(Escape)
  }

  predicate QuitRequested(events: seq<Event>) {
    exists i :: 0 <= i < |events| && IsQuit(events[i])
  }

  /** The debug flag after handling `events` in order; nothing after a quit is handled. */
  function DebugAfter(debug: bool, events: seq<Event>): bool
    decreases |events|
  {
    if events == [] || IsQuit(events[0]) then debug
    else DebugAfter(if events[0] == KeyDown(KeyI) then !debug else debug, events[1..])
  }

  /** The number of "i" key presses before the first quit. */
  function Toggles(events: seq<Event>): nat
    decreases |events|
  {
    if events == [] || IsQuit(events[0]) then 0
    else (if events[0] == KeyDown(KeyI) then 1 else 0) + Toggles(events[1..])
  }

  /** The overlay flag flips once per "i" press handled: it ends up flipped iff there was an odd number. */
  lemma {:induction false} DebugParity(debug: bool, events: seq<Event>)
    ensures DebugAfter(debug, events) == (if Toggles(events) % 2 == 0 then debug else !debug)
    decreases |events|
  {
    if events != [] && !IsQuit(events[0]) {
      DebugParity(if events[0] == KeyDown(KeyI) then !debug else debug, events[1..]);
    }
  }

  /** Events after a quit never reach the debug flag. */
  lemma {:induction false} QuitStopsHandling(debug: bool, before: seq<Event>, quit: Event, after: seq<Event>)
    requires IsQuit(quit)
    ensures DebugAfter(debug, before + [quit] + after) == DebugAfter(debug, before)
    decreases |before|
  {
    var all := before + [quit] + after;
    if before == [] {
      assert all[0] == quit;
    } else {
      assert all[0] == before[0];
      if !IsQuit(before[0]) {
        assert all[1..] == before[1..] + [quit] + after;
        QuitStopsHandling(if before[0] == KeyDown(KeyI) then !debug else debug, before[1..], quit, after);
      }
    }
  }
}
