/** The `Routimator` controller: the edited list of states and groups, the
    runtime cursor (current state, clock, duration) and the navigation session
    (route queue, routing flag, deferred-clear target). Trigger firings and
    the flags sent to the chat plugin are recorded in an output trace. */
module Controller {
  import opened Wrappers
  import opened Text
  import opened Naming
  import opened StateGraph
  import opened StateList
  import opened Editing
  import opened Persistence

  /** What the controller emits: a state's exit or enter trigger firing, or a
      flags string sent to the chat plugin (only non-empty ones are sent). */
  datatype Event = Exit(state: Handle) | Enter(state: Handle) | Flags(flags: string)

  /** The flags that end a navigation: "!nav", then the custom exit flags if any. */
  function ClearFlags(custom: string): (r: string)
    ensures StartsWith(r, "!nav")
    ensures r == "!nav" <==> custom == ""
    ensures custom != "" ==> r[5..] == custom
  {
    "!nav" + (if custom == "" then "" else "," + custom)
  }

  /** `TrySetVoxtaFlags`: empty flag strings are not sent. */
  function SendFlags(flags: string): (r: seq<Event>)
    ensures |r| <= 1 && (r == [] <==> flags == "")
  {
    if flags == "" then [] else [Flags(flags)]
  }

  /** Clock and duration on entering a state: one second for looping states,
      otherwise the state's own duration. */
  function EntryDuration(st: State): (r: real)
    ensures st.infinite ==> r == 1.0
    ensures !st.infinite ==> r == st.duration
  {
    if st.infinite then 1.0 else st.duration
  }

  /** The clock after a tick of `dt` seconds: `Mathf.Max(clock - dt, 0)`. */
  function Tick(clock: real, dt: real): (r: real)
    requires dt >= 0.0
    ensures r >= 0.0
    ensures r == 0.0 <==> clock <= dt
    ensures clock >= 0.0 ==> r <= clock
  {
    if clock - dt > 0.0 then clock - dt else 0.0
  }

  /** The clock and duration after a restore: none without a current state;
      otherwise those of entering it, with the saved duration taking over and
      the saved clock clamped into [0, duration]. */
  function RestoredTiming(st: Option<State>, savedClock: Option<real>, savedDuration: Option<real>): (r: (real, real))
    ensures st.None? ==> r == (0.0, 1.0)
    ensures st.Some? ==> r.1 == if savedDuration.Some? then savedDuration.value else EntryDuration(st.value)
    ensures st.Some? && savedClock.None? ==> r.0 == EntryDuration(st.value)
    ensures st.Some? && savedClock.Some? && r.1 >= 0.0 ==> 0.0 <= r.0 <= r.1
    ensures st.Some? && savedClock.Some? && 0.0 <= savedClock.value <= r.1 ==> r.0 == savedClock.value
  {
    if st.None? then (0.0, 1.0)
    else
      var entry := EntryDuration(st.value);
      var d := if savedDuration.Some? then savedDuration.value else entry;
      (if savedClock.Some? then Clamp(savedClock.value, 0.0, d) else entry, d)
  }

  /** The cursor half of the save/restore round trip: when the current
      state is listed (unique names, edges inside the list) and its clock lies
      in [0, duration], restoring finds it again by name among the new states
      and gives back the same clock and duration. */
  lemma CursorRoundTrip(heap: seq<State>, hs: seq<Handle>, i: nat, clock: real, duration: real)
    requires Closed(heap) && Live(heap, hs) && UniqueNames(heap, hs) && EdgesListed(heap, hs)
    requires i < |hs| && 0.0 <= clock <= duration
    ensures var docs := EncodeAll(heap, hs);
      var sorted := RestoredList(heap, docs);
      var r := Resolved(Created(heap, docs), sorted, docs);
      var cur := Find(r, sorted, heap[hs[i]].name);
      && cur == Some(|heap| + i)
      && r[cur.value].(transitions := []) == heap[hs[i]].(transitions := [])
      && RestoredTiming(Some(r[cur.value]), Some(clock), Some(duration)) == (clock, duration)
  {
    var docs := EncodeAll(heap, hs);
    var sorted := RestoredList(heap, docs);
    var r := Resolved(Created(heap, docs), sorted, docs);
    RoundTrip(heap, hs, i);
    SavedTimingKept(r[|heap| + i], clock, duration);
  }

  /** A saved clock inside [0, duration] comes back unchanged, with the saved duration. */
  lemma SavedTimingKept(st: State, clock: real, duration: real)
    requires 0.0 <= clock <= duration
    ensures RestoredTiming(Some(st), Some(clock), Some(duration)) == (clock, duration)
  {
  }

  /** Whether leaving `prev` ends a navigation whose last state was the
      deferred-clear target (compared by name, as `Equals` does). */
  predicate NavEnds(heap: seq<State>, prev: Option<Handle>, routing: bool, navTarget: Option<Handle>)
    requires prev.Some? ==> prev.value < |heap|
    requires navTarget.Some? ==> navTarget.value < |heap|
  {
    !routing && navTarget.Some? && prev.Some? && heap[prev.value].name == heap[navTarget.value].name
  }

  /** The events of one `SwitchState` from `prev` to `next`: the old state's
      exit, then the new state's enter and its flags, then the navigation
      clear when `NavEnds`. */
  function SwitchEvents(heap: seq<State>, prev: Option<Handle>, next: Option<Handle>, routing: bool,
                        navTarget: Option<Handle>, exitFlags: string): (r: seq<Event>)
    requires prev.Some? ==> prev.value < |heap|
    requires next.Some? ==> next.value < |heap|
    requires navTarget.Some? ==> navTarget.value < |heap|
    ensures prev.Some? ==> |r| > 0 && r[0] == Exit(prev.value)
    ensures prev.None? && next.Some? ==> |r| > 0 && r[0] == Enter(next.value)
    ensures prev.Some? && next.Some? ==> |r| > 1 && r[1] == Enter(next.value)
    ensures NavEnds(heap, prev, routing, navTarget) ==> |r| > 0 && r[|r| - 1] == Flags(ClearFlags(exitFlags))
    ensures prev.None? && next.None? ==> r == []
  {
    (if prev.Some? then [Exit(prev.value)] else [])
    + (if next.Some? then [Enter(next.value)] + SendFlags(heap[next.value].setFlags) else [])
    + (if NavEnds(heap, prev, routing, navTarget) then [Flags(ClearFlags(exitFlags))] else [])
  }

  /** The state a random transition out of `current` lands on: transition
      `pick`, or no state when there are none. */
  function Successor(heap: seq<State>, current: Handle, pick: nat): (r: Option<Handle>)
    requires current < |heap|
    requires |heap[current].transitions| > 0 ==> pick < |heap[current].transitions|
    ensures r.Some? <==> |heap[current].transitions| > 0
    ensures r.Some? ==> Edge(heap, current, r.value)
  {
    var ts := heap[current].transitions;
    if |ts| > 0 then Some(ts[pick]) else None
  }

  class Routimator {
    // The edited graph.
    var heap: seq<State>
    var states: seq<Handle>
    var groups: seq<string>
    var selectedGroup: string
    var exitFlags: string
    // The runtime cursor.
    var current: Option<Handle>
    var clock: real
    var duration: real
    // The navigation session.
    var queue: seq<Handle>
    var routing: bool
    var navTarget: Option<Handle>
    // Everything emitted so far.
    var trace: seq<Event>

    /** Every reference held refers to a state of the arena, no state object
        is listed twice, and a navigation queue exists only while routing. */
    ghost predicate Valid()
      reads this
    {
      && Closed(heap)
      && Live(heap, states) && Distinct(states)
      && Live(heap, queue)
      && (current.Some? ==> current.value < |heap|)
      && (navTarget.Some? ==> navTarget.value < |heap|)
      && (!routing ==> queue == [])
    }

    /** The edited graph, the groups and the exit flags are as before. */
    twostate predicate GraphKept()
      reads this
    {
      heap == old(heap) && states == old(states) && groups == old(groups)
      && selectedGroup == old(selectedGroup) && exitFlags == old(exitFlags)
    }

    /** The random pick is a valid transition index of the current state. */
    predicate PickOk(pick: nat)
      reads this
    {
      current.Some? && current.value < |heap| && |heap[current.value].transitions| > 0 ==>
        pick < |heap[current.value].transitions|
    }

    /** The controller after `Init`: one default group, no states, no session. */
    constructor ()
      ensures Valid()
      ensures states == [] && groups == [DefaultGroup] && selectedGroup == DefaultGroup && exitFlags == ""
      ensures current.None? && !routing && queue == [] && navTarget.None? && trace == []
    {
      heap, states := [], [];
      groups, selectedGroup := [DefaultGroup], DefaultGroup;
      exitFlags := "";
      current, clock, duration := None, 0.0, 1.0;
      queue, routing, navTarget := [], false, None;
      trace := [];
    }

    // ---------------------------------------------------------------
    // Runtime
    // ---------------------------------------------------------------

    /** `SwitchState`: fire the old state's exit, enter `next` and set clock
        and duration from it; when not routing and the state left is the
        deferred-clear target, send the clear flags and drop the target. */
    method SwitchState(next: Option<Handle>)
      requires Valid() && (next.Some? ==> next.value < |heap|)
      modifies this
      ensures Valid() && GraphKept()
      ensures current == next
      ensures trace == old(trace + SwitchEvents(heap, current, next, routing, navTarget, exitFlags))
      ensures next.Some? ==> clock == duration == EntryDuration(heap[next.value])
      ensures next.None? ==> clock == old(clock) && duration == old(duration)
      ensures navTarget == if NavEnds(heap, old(current), routing, old(navTarget)) then None else old(navTarget)
      ensures queue == old(queue) && routing == old(routing)
    {
      var previous := current;
      trace := trace + SwitchEvents(heap, previous, next, routing, navTarget, exitFlags);
      current := next;
      if next.Some? {
        clock := EntryDuration(heap[next.value]);
        duration := clock;
      }
      if !routing && navTarget.Some? && previous.Some? && heap[previous.value].name == heap[navTarget.value].name {
        navTarget := None;
      }
    }

    /** `Transition`: switch to the transition chosen by `pick`, or to no
        state when the current state has none. */
    method Transition(pick: nat)
      requires Valid() && PickOk(pick)
      modifies this
      ensures Valid() && GraphKept()
      ensures old(current).None? ==> current.None? && trace == old(trace)
      ensures old(current).Some? ==> current == Successor(heap, old(current).value, pick)
      ensures trace == old(trace) + SwitchEvents(heap, old(current), current, routing, old(navTarget), exitFlags)
      ensures current.Some? ==> clock == duration == EntryDuration(heap[current.value])
      ensures current.None? ==> clock == old(clock) && duration == old(duration)
      ensures queue == old(queue) && routing == old(routing)
      ensures navTarget == if NavEnds(heap, old(current), routing, old(navTarget)) then None else old(navTarget)
    {
      if current.None? {
        SwitchState(None);
        return;
      }
      var ts := heap[current.value].transitions;
      if |ts| > 0 {
        SwitchState(Some(ts[pick]));
      } else {
        SwitchState(None);
      }
    }

    /** `SwitchStateAction`: switch to the first state with this name, or
        change nothing when there is none. */
    method SwitchStateAction(name: string)
      requires Valid()
      modifies this
      ensures Valid() && GraphKept()
      ensures current == if Find(heap, states, name).Some? then Find(heap, states, name) else old(current)
      ensures Find(heap, states, name).Some? ==>
        trace == old(trace) + SwitchEvents(heap, old(current), current, routing, old(navTarget), exitFlags)
      ensures Find(heap, states, name).Some? ==>
        clock == duration == EntryDuration(heap[current.value]) && queue == old(queue) && routing == old(routing)
        && navTarget == (if NavEnds(heap, old(current), routing, old(navTarget)) then None else old(navTarget))
      ensures Find(heap, states, name).None? ==>
        trace == old(trace) && navTarget == old(navTarget) && clock == old(clock) && duration == old(duration)
        && queue == old(queue) && routing == old(routing)
    {
      var st := Find(heap, states, name);
      if st.Some? {
        SwitchState(st);
      }
    }

    /** The per-frame `Update` for a frame of `dt` seconds. Nothing happens
        without a current state or in a "NAV_state" hold; otherwise the clock
        runs down, by `RoutingTick` while routing and `FreeTick` otherwise. */
    method Update(dt: real, pick: nat)
      requires Valid() && dt >= 0.0 && PickOk(pick)
      modifies this
      ensures Valid() && GraphKept()
      ensures old(current).None? || IsNavHold(heap[old(current).value].name) ==>
        current == old(current) && clock == old(clock) && duration == old(duration) && trace == old(trace)
        && queue == old(queue) && routing == old(routing) && navTarget == old(navTarget)
      ensures old(current).Some? && !IsNavHold(heap[old(current).value].name) && old(routing) ==> RoutingTicked(dt)
      ensures old(current).Some? && !IsNavHold(heap[old(current).value].name) && !old(routing) ==> FreeTicked(dt, pick)
    {
      if current.None? {
        return;
      }
      if IsNavHold(heap[current.value].name) {
        return;
      }
      if routing {
        RoutingTick(dt);
        return;
      }
      FreeTick(dt, pick);
    }

    /** The routing branch of `Update`: the clock runs down, and at zero the
        next queued state is entered, or, with the queue empty, routing ends
        and the clear flags are sent unless a deferred-clear target is set. */
    method RoutingTick(dt: real)
      requires Valid() && dt >= 0.0 && routing && current.Some?
      modifies this
      ensures Valid() && GraphKept()
      ensures RoutingTicked(dt)
    {
      clock := Tick(clock, dt);
      if clock <= 0.0 {
        if |queue| > 0 {
          var next := queue[0];
          SwitchState(Some(next));
          queue := queue[1..];
        } else {
          routing := false;
          if navTarget.None? {
            trace := trace + [Flags(ClearFlags(exitFlags))];
          }
        }
      }
    }

    /** The outcome of a routing tick of `dt` seconds: the clock runs down;
        at zero the next queued state is entered, or, with the queue empty,
        routing ends and the clear flags are sent unless a deferred-clear
        target is set. */
    twostate predicate RoutingTicked(dt: real)
      requires old(Valid()) && Valid() && dt >= 0.0 && old(current).Some?
      reads this
    {
      && heap == old(heap) && exitFlags == old(exitFlags)
      && (Tick(old(clock), dt) > 0.0 ==>
            current == old(current) && clock == Tick(old(clock), dt) && duration == old(duration) && trace == old(trace)
            && queue == old(queue) && routing && navTarget == old(navTarget))
      && (Tick(old(clock), dt) == 0.0 && old(queue) != [] ==>
            current == Some(old(queue)[0]) && queue == old(queue)[1..] && routing
            && clock == duration == EntryDuration(heap[old(queue)[0]]) && navTarget == old(navTarget)
            && trace == old(trace) + SwitchEvents(heap, old(current), current, true, old(navTarget), exitFlags))
      && (Tick(old(clock), dt) == 0.0 && old(queue) == [] ==>
            current == old(current) && clock == 0.0 && duration == old(duration) && !routing && queue == []
            && navTarget == old(navTarget)
            && trace == old(trace) + if old(navTarget).None? then [Flags(ClearFlags(exitFlags))] else [])
    }

    /** The outcome of a free-running tick of `dt` seconds: the clock runs
        down, and a finite state whose clock reaches zero takes the random
        transition `pick`, or leaves to no state when it has none. */
    twostate predicate FreeTicked(dt: real, pick: nat)
      requires old(Valid()) && Valid() && dt >= 0.0 && old(current).Some? && old(PickOk(pick))
      reads this
    {
      && heap == old(heap) && exitFlags == old(exitFlags) && !routing && queue == []
      && (old(heap[current.value].infinite) || Tick(old(clock), dt) > 0.0 ==>
            current == old(current) && clock == Tick(old(clock), dt) && duration == old(duration)
            && trace == old(trace) && navTarget == old(navTarget))
      && (!old(heap[current.value].infinite) && Tick(old(clock), dt) == 0.0 ==>
            current == Successor(heap, old(current).value, pick)
            && trace == old(trace) + SwitchEvents(heap, old(current), current, false, old(navTarget), exitFlags)
            && (current.Some? ==> clock == duration == EntryDuration(heap[current.value]))
            && (current.None? ==> clock == 0.0 && duration == old(duration))
            && navTarget == if NavEnds(heap, old(current), false, old(navTarget)) then None else old(navTarget))
    }

    /** The free-running branch of `Update`: the clock runs down, and a finite
        state whose clock reaches zero takes the random transition `pick`
        (or leaves to no state when it has no transitions). */
    method FreeTick(dt: real, pick: nat)
      requires Valid() && dt >= 0.0 && !routing && current.Some? && PickOk(pick)
      modifies this
      ensures Valid() && GraphKept()
      ensures FreeTicked(dt, pick)
    {
      clock := Tick(clock, dt);
      if !heap[current.value].infinite && clock <= 0.0 {
        Transition(pick);
      }
    }

    /** `RouteSwitchStateAction`: navigate from the current state to the
        first state named `targetName` along a shortest route. With no
        current state, an unknown target, a target of the current state's
        name, or no route, nothing changes. Otherwise "nav" is sent, the
        target is kept as deferred-clear target when its name starts with
        "VT_", routing starts, the first state of the route is entered and the
        rest is queued. */
    method RouteSwitchStateAction(targetName: string)
      requires Valid()
      modifies this
      ensures Valid() && GraphKept()
      ensures Find(heap, states, targetName).None? ==>
        current == old(current) && clock == old(clock) && duration == old(duration) && trace == old(trace)
        && queue == old(queue) && routing == old(routing) && navTarget == old(navTarget)
      ensures Find(heap, states, targetName).Some? ==> RoutedTo(Find(heap, states, targetName).value)
    {
      var target := Find(heap, states, targetName);
      if target.Some? {
        RouteTo(target.value);
      }
    }

    /** The outcome of routing from the old current state to `target`: with
        no current state, a target of the current state's name, or no route,
        nothing changes; otherwise routing follows a shortest route to the
        target, "nav" is sent first and the "VT_" rule sets the deferred-clear
        target. */
    twostate predicate RoutedTo(target: Handle)
      requires old(Valid()) && target < |old(heap)|
      reads this
    {
      && heap == old(heap) && exitFlags == old(exitFlags)
      && (old(current).None? || heap[old(current).value].name == heap[target].name
          || !Reachable(heap, old(current).value, target) ==>
            current == old(current) && clock == old(clock) && duration == old(duration) && trace == old(trace)
            && queue == old(queue) && routing == old(routing) && navTarget == old(navTarget))
      && (old(current).Some? && heap[old(current).value].name != heap[target].name
          && Reachable(heap, old(current).value, target) ==>
            && routing && current.Some? && current.value < |heap|
            && Shortest(heap, old(current).value, [current.value] + queue)
            && Last(old(current).value, [current.value] + queue) == target
            && navTarget == (if StartsWith(heap[target].name, "VT_") then Some(target) else None)
            && clock == duration == EntryDuration(heap[current.value])
            && trace == old(trace) + [Flags("nav")] + SwitchEvents(heap, old(current), current, true, navTarget, exitFlags))
    }

    /** `RouteSwitchStateAction` once the target state is known. */
    method RouteTo(target: Handle)
      requires Valid() && target < |heap|
      modifies this
      ensures Valid() && GraphKept()
      ensures RoutedTo(target)
    {
      if current.None? {
        return;
      }
      if heap[current.value].name == heap[target].name {
        return;
      }
      var route := FindRoute(heap, current.value, target);
      if route.None? {
        return;
      }
      var path := route.value;
      WalkInArena(heap, current.value, path);
      StartRoute(target, path);
    }

    /** The success half of `RouteSwitchStateAction`: set the deferred-clear
        target, send "nav", start routing along `path` and enter its first
        state. */
    method StartRoute(target: Handle, path: seq<Handle>)
      requires Valid() && target < |heap| && path != [] && Live(heap, path)
      modifies this
      ensures Valid() && GraphKept()
      ensures routing && current == Some(path[0]) && queue == path[1..]
      ensures navTarget == if StartsWith(heap[target].name, "VT_") then Some(target) else None
      ensures clock == duration == EntryDuration(heap[path[0]])
      ensures trace == old(trace) + [Flags("nav")] + SwitchEvents(heap, old(current), current, true, navTarget, exitFlags)
    {
      navTarget := if StartsWith(heap[target].name, "VT_") then Some(target) else None;
      trace := trace + [Flags("nav")];
      queue := path;
      routing := true;
      if |queue| > 0 {
        var next := queue[0];
        SwitchState(Some(next));
        queue := queue[1..];
      }
    }

    /** `InterruptNavigation`: while routing, drop the queue, stop routing,
        forget the deferred-clear target and send the clear flags; otherwise
        change nothing, so a second call has no effect. */
    method InterruptNavigation()
      requires Valid()
      modifies this
      ensures Valid() && GraphKept()
      ensures Interrupted()
    {
      if routing {
        queue := [];
        routing := false;
        navTarget := None;
        trace := trace + [Flags(ClearFlags(exitFlags))];
      }
    }

    /** The outcome of an interrupt: no routing and an empty queue, the
        cursor as before; the target is dropped and the clear flags sent only
        when routing was active. */
    twostate predicate Interrupted()
      reads this
    {
      && !routing && queue == []
      && current == old(current) && clock == old(clock) && duration == old(duration)
      && (old(routing) ==> navTarget.None? && trace == old(trace) + [Flags(ClearFlags(exitFlags))])
      && (!old(routing) ==> navTarget == old(navTarget) && trace == old(trace))
    }

    /** `InterruptNavigationAction`: the external command, acted on only when
        it reads "interrupt_navigation" in any case. */
    method InterruptNavigationAction(command: string)
      requires Valid()
      modifies this
      ensures Valid() && GraphKept()
      ensures EqualsIgnoreCase(command, "interrupt_navigation") ==> Interrupted()
      ensures !EqualsIgnoreCase(command, "interrupt_navigation") ==>
        current == old(current) && clock == old(clock) && duration == old(duration) &&
        routing == old(routing) && queue == old(queue) && navTarget == old(navTarget) && trace == old(trace)
    {
      if command != "" && EqualsIgnoreCase(command, "interrupt_navigation") {
        InterruptNavigation();
      }
    }

    /** The continue trigger: in a "NAV_state" hold, enter the next queued
        state while routing with states queued, otherwise take the random
        transition `pick`; outside a hold nothing changes. */
    method ContinueNavigation(pick: nat)
      requires Valid() && PickOk(pick)
      modifies this
      ensures Valid() && GraphKept()
      ensures Continued(pick)
    {
      if current.Some? && IsNavHold(heap[current.value].name) {
        if routing && |queue| > 0 {
          var next := queue[0];
          SwitchState(Some(next));
          queue := queue[1..];
        } else {
          Transition(pick);
        }
      }
    }

    /** The outcome of a continue: outside a "NAV_state" hold nothing
        changes; in one, the next queued state is entered while routing with
        states queued, otherwise the random transition `pick` is taken. */
    twostate predicate Continued(pick: nat)
      requires old(Valid()) && Valid() && old(PickOk(pick))
      reads this
    {
      && heap == old(heap)
      && (old(current).None? || !IsNavHold(heap[old(current).value].name) ==>
            current == old(current) && clock == old(clock) && duration == old(duration) && trace == old(trace)
            && queue == old(queue) && routing == old(routing) && navTarget == old(navTarget))
      && (old(current).Some? && IsNavHold(heap[old(current).value].name) && old(routing) && old(queue) != [] ==>
            current == Some(old(queue)[0]) && queue == old(queue)[1..] && routing && navTarget == old(navTarget)
            && clock == duration == EntryDuration(heap[old(queue)[0]])
            && trace == old(trace) + SwitchEvents(heap, old(current), current, true, old(navTarget), exitFlags))
      && (old(current).Some? && IsNavHold(heap[old(current).value].name) && !(old(routing) && old(queue) != []) ==>
            current == Successor(heap, old(current).value, pick) && routing == old(routing) && queue == old(queue)
            && (current.Some? ==> clock == duration == EntryDuration(heap[current.value]))
            && (current.None? ==> clock == old(clock) && duration == old(duration))
            && navTarget == (if NavEnds(heap, old(current), routing, old(navTarget)) then None else old(navTarget))
            && trace == old(trace) + SwitchEvents(heap, old(current), current, routing, old(navTarget), exitFlags))
    }

    /** `ContinueNavigationAction`: the external command, acted on only when
        it reads "continue_navigation" in any case. */
    method ContinueNavigationAction(command: string, pick: nat)
      requires Valid() && PickOk(pick)
      modifies this
      ensures Valid() && GraphKept()
      ensures EqualsIgnoreCase(command, "continue_navigation") ==> Continued(pick)
      ensures !EqualsIgnoreCase(command, "continue_navigation") ==>
        current == old(current) && clock == old(clock) && duration == old(duration) && trace == old(trace)
        && queue == old(queue) && routing == old(routing) && navTarget == old(navTarget)
    {
      if command != "" && EqualsIgnoreCase(command, "continue_navigation") {
        ContinueNavigation(pick);
      }
    }

    // ---------------------------------------------------------------
    // Editing
    // ---------------------------------------------------------------

    /** The runtime cursor, the navigation session and the trace are as before. */
    twostate predicate RuntimeKept()
      reads this
    {
      current == old(current) && clock == old(clock) && duration == old(duration)
      && queue == old(queue) && routing == old(routing) && navTarget == old(navTarget)
      && trace == old(trace) && exitFlags == old(exitFlags)
    }

    /** `GetSelectedState`: no state for an empty selection, otherwise the
        first state of the selected group with the selected name. */
    function Selected(selected: string): (r: Option<Handle>)
      requires Live(heap, states)
      reads this
      ensures r.Some? ==> r.value in states && heap[r.value].group == selectedGroup && heap[r.value].name == selected
      ensures r.None? <==> selected == "" || FindInGroup(heap, states, selectedGroup, selected).None?
    {
      if selected == "" then None else FindInGroup(heap, states, selectedGroup, selected)
    }

    /** `myStates.Add`: a new state object is allocated and listed last. */
    method AppendState(st: State)
      requires Valid() && Live(heap, st.transitions)
      modifies this
      ensures Valid() && RuntimeKept() && groups == old(groups) && selectedGroup == old(selectedGroup)
      ensures heap == old(heap) + [st] && states == old(states) + [|old(heap)|]
    {
      var h := |heap|;
      heap := heap + [st];
      states := states + [h];
    }

    /** `UIAddState`: makes sure a group exists, then appends a state named
        after the first candidate number free in the selected group, with no
        flags, the default duration and no transitions; when all candidates
        are taken nothing is added. */
    method AddState() returns (ghost n: int)
      requires Valid()
      modifies this
      ensures Valid() && RuntimeKept()
      ensures old(groups) == [] ==> groups == [DefaultGroup] && selectedGroup == DefaultGroup
      ensures old(groups) != [] ==> groups == old(groups) && selectedGroup == old(selectedGroup)
      ensures FirstFree(old(heap), old(states), selectedGroup, NewStateName, n)
      ensures n == AddLimit ==> heap == old(heap) && states == old(states)
      ensures n < AddLimit ==>
        heap == old(heap) + [State(NewStateName(n), selectedGroup, "", true, DefaultDuration, [])]
        && states == old(states) + [|old(heap)|]
    {
      if groups == [] {
        groups := [DefaultGroup];
        selectedGroup := DefaultGroup;
      }
      var i := FreeNumber(heap, states, selectedGroup, NewStateName);
      n := i;
      if i < AddLimit {
        var name := NewStateName(i);
        assert name[..3] == "VS_";
        AppendState(State(name, selectedGroup, "", PrefixInfinite(name, false), DefaultDuration, []));
      }
    }

    /** `UIDuplicateState`: a copy of the selected state (flags, looping,
        duration and transitions) joins the selected group under the first
        name after the original's that is free there, trying at most
        `DuplicateTries` further names; the prefix rule then applies. */
    method DuplicateState(selected: string) returns (ghost tries: nat)
      requires Valid()
      modifies this
      ensures Valid() && RuntimeKept() && groups == old(groups) && selectedGroup == old(selectedGroup)
      ensures old(Selected(selected)).None? ==> heap == old(heap) && states == old(states)
      ensures old(Selected(selected)).Some? ==>
        && |heap| == |old(heap)| + 1 && heap[..|old(heap)|] == old(heap)
        && states == old(states) + [|old(heap)|]
        && Settles(old(heap), old(states), selectedGroup, NextName, NextName(old(heap)[old(Selected(selected)).value].name),
                   DuplicateTries, tries, heap[|old(heap)|].name)
        && heap[|old(heap)|] == old(heap)[old(Selected(selected)).value].(
             name := heap[|old(heap)|].name, group := selectedGroup,
             infinite := PrefixInfinite(heap[|old(heap)|].name, old(heap)[old(Selected(selected)).value].infinite))
    {
      var st := Selected(selected);
      if st.None? {
        return 0;
      }
      var orig := heap[st.value];
      var newName;
      newName, tries := FreeDuplicateName(heap, states, selectedGroup, NextName, NextName(orig.name));
      AppendState(orig.(name := newName, group := selectedGroup, infinite := PrefixInfinite(newName, orig.infinite)));
    }

    /** Installs an edited arena and state list; the arena only grows. */
    method SetGraph(newHeap: seq<State>, newStates: seq<Handle>)
      requires Valid() && Closed(newHeap) && |newHeap| >= |heap| && Live(newHeap, newStates) && Distinct(newStates)
      modifies this
      ensures Valid() && RuntimeKept() && groups == old(groups) && selectedGroup == old(selectedGroup)
      ensures heap == newHeap && states == newStates
    {
      heap, states := newHeap, newStates;
    }

    /** `UIRenameState`: the selected state takes the new name (nothing is
        checked against other names), the rename prefix rule sets whether it
        loops, and the list is sorted by name. */
    method RenameState(selected: string, newName: string)
      requires Valid()
      modifies this
      ensures Valid() && RuntimeKept() && groups == old(groups) && selectedGroup == old(selectedGroup)
      ensures old(Selected(selected)).None? ==> heap == old(heap) && states == old(states)
      ensures old(Selected(selected)).Some? ==>
        && heap == old(heap)[old(Selected(selected)).value := old(heap)[old(Selected(selected)).value].(
             name := newName, infinite := RenameInfinite(newName, old(heap)[old(Selected(selected)).value].infinite))]
        && states == SortByName(heap, old(states))
    {
      var st := Selected(selected);
      if st.None? {
        return;
      }
      var h := st.value;
      var renamed := heap[h].(name := newName, infinite := RenameInfinite(newName, heap[h].infinite));
      var newHeap := heap[h := renamed];
      var sorted := SortByName(newHeap, states);
      PermutationKeepsDistinct(states, sorted);
      SetGraph(newHeap, sorted);
    }

    /** `UIRemoveState`: leaves the selected state if it is current, drops
        the first transition to a state of its name from every listed state,
        and takes the first state of its name off the list. */
    method RemoveState(selected: string)
      requires Valid()
      modifies this
      ensures Valid() && groups == old(groups) && selectedGroup == old(selectedGroup) && exitFlags == old(exitFlags)
      ensures old(Selected(selected)).None? ==> heap == old(heap) && states == old(states) && RuntimeKept()
      ensures old(Selected(selected)).Some? ==>
        && SameNames(old(heap), heap)
        && (forall k :: 0 <= k < |heap| ==>
              heap[k] == if k in old(states) then WithoutEdgeTo(old(heap), k, old(heap)[old(Selected(selected)).value].name)
                         else old(heap)[k])
        && states == RemoveFirstByName(old(heap), old(states), old(heap)[old(Selected(selected)).value].name)
      ensures old(Selected(selected)).Some? && old(current) == old(Selected(selected)) ==>
        current.None? && queue == old(queue) && routing == old(routing)
        && clock == old(clock) && duration == old(duration)
        && navTarget == (if old(NavEnds(heap, current, routing, navTarget)) then None else old(navTarget))
        && trace == old(trace + SwitchEvents(heap, current, None, routing, navTarget, exitFlags))
      ensures old(Selected(selected)).Some? && old(current) != old(Selected(selected)) ==> RuntimeKept()
    {
      var st := Selected(selected);
      if st.None? {
        return;
      }
      var h := st.value;
      var name := heap[h].name;
      if current == Some(h) {
        SwitchState(None);
      }
      var purged := PurgeEdgesTo(heap, states, name);
      SameNamesRemove(heap, purged, states, name);
      RemoveFirstByNameKeepsDistinct(heap, states, name);
      SetGraph(purged, RemoveFirstByName(purged, states, name));
    }

    /** `UIAddTransition`: the first state with the chosen name is added to
        the transitions of `from`, which are then sorted by name; an unknown
        name changes nothing. */
    method AddTransition(from: Handle, targetName: string)
      requires Valid() && from < |heap|
      modifies this
      ensures Valid() && RuntimeKept() && states == old(states) && groups == old(groups) && selectedGroup == old(selectedGroup)
      ensures Find(old(heap), old(states), targetName).None? ==> heap == old(heap)
      ensures Find(old(heap), old(states), targetName).Some? ==>
        heap == old(heap)[from := old(heap)[from].(transitions := SortByName(old(heap),
          old(heap)[from].transitions + [Find(old(heap), old(states), targetName).value]))]
    {
      var to := Find(heap, states, targetName);
      if to.None? {
        return;
      }
      var ts := SortByName(heap, heap[from].transitions + [to.value]);
      SetGraph(heap[from := heap[from].(transitions := ts)], states);
    }

    /** `UIRemoveTransition`: drops the first transition of `from` to a state
        with the name of `toRemove`. */
    method RemoveTransition(from: Handle, toRemove: Handle)
      requires Valid() && from < |heap| && toRemove < |heap|
      modifies this
      ensures Valid() && RuntimeKept() && states == old(states) && groups == old(groups) && selectedGroup == old(selectedGroup)
      ensures heap == old(heap)[from := WithoutEdgeTo(old(heap), from, old(heap)[toRemove].name)]
    {
      SetGraph(heap[from := WithoutEdgeTo(heap, from, heap[toRemove].name)], states);
    }

    /** Swaps two states of the selected group in the list; the states of
        other groups keep their places. */
    method SwapInGroup(i: nat, j: nat)
      requires Valid()
      requires i < |Filter(heap, states, InGroup(selectedGroup))| && j < |Filter(heap, states, InGroup(selectedGroup))|
      modifies this
      ensures Valid() && RuntimeKept() && heap == old(heap) && groups == old(groups) && selectedGroup == old(selectedGroup)
      ensures states == Regroup(heap, old(states), selectedGroup, Swap(Filter(heap, old(states), InGroup(selectedGroup)), i, j))
    {
      var swapped := Swap(Filter(heap, states, InGroup(selectedGroup)), i, j);
      MovePermutes(heap, states, selectedGroup, i, j);
      MoveReordersGroup(heap, states, selectedGroup, i, j);
      PermutationKeepsDistinct(states, Regroup(heap, states, selectedGroup, swapped));
      var moved := WriteBack(heap, states, selectedGroup, swapped);
      SetGraph(heap, moved);
    }

    /** `UIMoveStateUp`: the selected state swaps places with the state of
        its group listed before it; the rest of the list is unchanged. */
    method MoveStateUp(selected: string)
      requires Valid()
      modifies this
      ensures Valid() && RuntimeKept() && heap == old(heap) && groups == old(groups) && selectedGroup == old(selectedGroup)
      ensures FirstIndex(heap, Filter(heap, old(states), InGroup(selectedGroup)), Named(selected)) <= 0 ==>
        states == old(states)
      ensures FirstIndex(heap, Filter(heap, old(states), InGroup(selectedGroup)), Named(selected)) > 0 ==>
        states == Regroup(heap, old(states), selectedGroup, Swap(Filter(heap, old(states), InGroup(selectedGroup)),
          FirstIndex(heap, Filter(heap, old(states), InGroup(selectedGroup)), Named(selected)) - 1,
          FirstIndex(heap, Filter(heap, old(states), InGroup(selectedGroup)), Named(selected))))
    {
      var groupStates := Filter(heap, states, InGroup(selectedGroup));
      var index := FirstIndex(heap, groupStates, Named(selected));
      if index > 0 {
        SwapInGroup(index - 1, index);
      }
    }

    /** `UIMoveStateDown`: the selected state swaps places with the state of
        its group listed after it; the rest of the list is unchanged. */
    method MoveStateDown(selected: string)
      requires Valid()
      modifies this
      ensures Valid() && RuntimeKept() && heap == old(heap) && groups == old(groups) && selectedGroup == old(selectedGroup)
      ensures !(0 <= FirstIndex(heap, Filter(heap, old(states), InGroup(selectedGroup)), Named(selected))
                  < |Filter(heap, old(states), InGroup(selectedGroup))| - 1) ==>
        states == old(states)
      ensures 0 <= FirstIndex(heap, Filter(heap, old(states), InGroup(selectedGroup)), Named(selected))
                < |Filter(heap, old(states), InGroup(selectedGroup))| - 1 ==>
        states == Regroup(heap, old(states), selectedGroup, Swap(Filter(heap, old(states), InGroup(selectedGroup)),
          FirstIndex(heap, Filter(heap, old(states), InGroup(selectedGroup)), Named(selected)) + 1,
          FirstIndex(heap, Filter(heap, old(states), InGroup(selectedGroup)), Named(selected))))
    {
      var groupStates := Filter(heap, states, InGroup(selectedGroup));
      var index := FirstIndex(heap, groupStates, Named(selected));
      if index >= 0 && index < |groupStates| - 1 {
        SwapInGroup(index + 1, index);
      }
    }

    /** `UIDeleteGroup`: the states of the selected group leave the list
        (their transitions elsewhere and the current state are kept), the
        group is removed and the first remaining group, if any, is selected. */
    method DeleteGroup()
      requires Valid()
      modifies this
      ensures Valid() && RuntimeKept() && heap == old(heap)
      ensures states == Filter(heap, old(states), NotInGroup(old(selectedGroup)))
      ensures groups == RemoveString(old(groups), old(selectedGroup))
      ensures selectedGroup == if groups != [] then groups[0] else ""
    {
      var currentGroup := selectedGroup;
      FilterKeepsDistinct(heap, states, NotInGroup(currentGroup));
      SetGraph(heap, Filter(heap, states, NotInGroup(currentGroup)));
      groups := RemoveString(groups, currentGroup);
      selectedGroup := if |groups| > 0 then groups[0] else "";
    }

    /** `UIGroupRename`: with a selected group that is listed, the group's
        entry and the selection take the new name and every listed state of
        the group moves to it; otherwise nothing changes. */
    method GroupRename(newName: string)
      requires Valid()
      modifies this
      ensures Valid() && RuntimeKept() && states == old(states)
      ensures old(selectedGroup) == "" || old(selectedGroup) !in old(groups) ==>
        heap == old(heap) && groups == old(groups) && selectedGroup == old(selectedGroup)
      ensures old(selectedGroup) != "" && old(selectedGroup) in old(groups) ==>
        && groups == old(groups)[IndexOfString(old(groups), old(selectedGroup)) := newName]
        && selectedGroup == newName
        && SameNames(old(heap), heap)
        && (forall k :: 0 <= k < |heap| ==>
              heap[k] == if k in states && old(heap)[k].group == old(selectedGroup) then old(heap)[k].(group := newName)
                         else old(heap)[k])
    {
      var oldName := selectedGroup;
      if oldName == "" {
        return;
      }
      var index := IndexOfString(groups, oldName);
      if index < 0 {
        return;
      }
      groups := groups[index := newName];
      selectedGroup := newName;
      var renamed := MoveGroup(heap, states, oldName, newName);
      SetGraph(renamed, states);
    }

    // ---------------------------------------------------------------
    // Persistence
    // ---------------------------------------------------------------

    /** `GetJSON` with physical data included: the states in list order, the
        current state's name with the clock and duration when there is one,
        the exit flags and the selected group. */
    method GetJSON() returns (doc: Doc)
      requires Valid()
      ensures doc.states == EncodeAll(heap, states)
      ensures doc.initial == if current.Some? then Some(heap[current.value].name) else None
      ensures doc.clock == (if current.Some? then Some(clock) else None)
      ensures doc.duration == (if current.Some? then Some(duration) else None)
      ensures doc.exitFlags == Some(exitFlags) && doc.selectedGroup == Some(selectedGroup)
    {
      var saved := EncodeStates(heap, states);
      if current.Some? {
        doc := Doc(saved, Some(heap[current.value].name), Some(clock), Some(duration), Some(exitFlags), Some(selectedGroup));
      } else {
        doc := Doc(saved, None, None, None, Some(exitFlags), Some(selectedGroup));
      }
    }

    /** `LateRestoreFromJSON`. When physical data may be restored, the list
        is rebuilt from new states (pass 1), sorted by name, given its
        transitions by name (pass 2), the current state is looked up by name,
        clock and duration are restored, and groups and selection are rebuilt;
        the navigation session and the trace are left as they are. The exit
        flags are restored whenever saved. */
    method LateRestoreFromJSON(doc: Doc, restorePhysical: bool)
      requires Valid()
      modifies this
      ensures Valid()
      ensures queue == old(queue) && routing == old(routing) && navTarget == old(navTarget) && trace == old(trace)
      ensures exitFlags == if doc.exitFlags.Some? then doc.exitFlags.value else old(exitFlags)
      ensures !restorePhysical ==>
        && heap == old(heap) && states == old(states) && groups == old(groups) && selectedGroup == old(selectedGroup)
        && current == old(current) && clock == old(clock) && duration == old(duration)
      ensures restorePhysical ==>
        && states == RestoredList(old(heap), doc.states)
        && heap == Resolved(Created(old(heap), doc.states), states, doc.states)
        && current == (if doc.initial.Some? then Find(heap, states, doc.initial.value) else None)
        && (clock, duration) == RestoredTiming(if current.Some? then Some(heap[current.value]) else None, doc.clock, doc.duration)
        && groups == GroupsOf(heap, states)
        && selectedGroup == RestoredSelection(groups, doc.selectedGroup)
    {
      if restorePhysical {
        RestoreGraph(doc.states);
        RestoreCursor(doc);
        RestoreGroups(doc.selectedGroup);
      }
      if doc.exitFlags.Some? {
        exitFlags := doc.exitFlags.value;
      }
    }

    /** The current state by its saved name, with its clock and duration. */
    method RestoreCursor(doc: Doc)
      requires Valid()
      modifies this
      ensures Valid() && GraphKept()
      ensures queue == old(queue) && routing == old(routing) && navTarget == old(navTarget) && trace == old(trace)
      ensures current == (if doc.initial.Some? then Find(heap, states, doc.initial.value) else None)
      ensures (clock, duration) == RestoredTiming(if current.Some? then Some(heap[current.value]) else None, doc.clock, doc.duration)
    {
      current := if doc.initial.Some? then Find(heap, states, doc.initial.value) else None;
      var timing := RestoredTiming(if current.Some? then Some(heap[current.value]) else None, doc.clock, doc.duration);
      clock, duration := timing.0, timing.1;
    }

    /** The group list rebuilt from the states and the saved selection. */
    method RestoreGroups(saved: Option<string>)
      requires Valid()
      modifies this
      ensures Valid() && RuntimeKept() && heap == old(heap) && states == old(states)
      ensures groups == GroupsOf(heap, states)
      ensures selectedGroup == RestoredSelection(groups, saved)
    {
      groups := RebuildGroups(heap, states);
      selectedGroup := RestoredSelection(groups, saved);
    }

    /** The two passes of the restore: new states sorted by name, then their
        transitions by name. */
    method RestoreGraph(docs: seq<StateDoc>)
      requires Valid()
      modifies this
      ensures Valid() && RuntimeKept() && groups == old(groups) && selectedGroup == old(selectedGroup)
      ensures states == RestoredList(old(heap), docs)
      ensures heap == Resolved(Created(old(heap), docs), states, docs)
    {
      var created, made := CreateStates(heap, docs);
      CreatedClosed(heap, docs);
      var sorted := SortByName(created, made);
      PermutationKeepsDistinct(made, sorted);
      var resolved := ResolveTransitions(created, sorted, docs);
      ResolvedShape(created, sorted, docs);
      SetGraph(resolved, sorted);
    }
  }
}
