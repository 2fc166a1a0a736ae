# Routimator in Dafny

Routimator is a timed state machine over a user-edited directed graph. It is a
single C# class, `Routimator` in `Lapiro_Routimator.cs`. This project models its core:

- **The state-graph store.** The list `myStates` holds records with these fields:
  - name and group;
  - set-flags string;
  - looping (`InfiniteDuration`) and duration;
  - `Transitions`, a list of other states.

  The editor operations are add, duplicate (with the `GetNextName` naming rule),
  rename (with the "NAV_state"/"VS_"/"VT_" prefix rules), remove (with edge clean-up),
  add/remove transition, move up/down inside a group, group delete and group rename.
- **The runtime.** The current state, clock and duration; the per-frame
  `Update`; random `Transition`s; the navigation session.
  - The session is the routing queue, the routing flag and the deferred-clear ("VT_") target.
  - It is driven by the breadth-first `FindRoute`, `RouteSwitchStateAction`,
    `InterruptNavigation` and the continue command.
- **Persistence.** `GetJSON` writes an abstract document; the two-pass
  `LateRestoreFromJSON` reads it back.

## How the model is built

Modules:

| module | contents |
|---|---|
| `Text` | ordinal name order, ASCII case folding, and `int.ToString` / `int.TryParse` for 32-bit values |
| `Naming` | `GetNextName` |
| `StateGraph` | the state record, walks, reachability, shortest walks, and `FindRoute` |
| `StateList` | list lookups (`Find`, `FindAll`, `FindIndex`, `Remove` by name), the sort by name, and the group write-back |
| `Editing` | the editor's naming rules and loops |
| `Persistence` | the document and both restore passes |
| `Controller` | the class `Routimator`, whose fields and methods mirror the C# class |

**State objects.**
- State objects live in an arena `heap: seq<State>`; a `Handle` is an index into it.
- `myStates` is the field `states: seq<Handle>`. Transitions, the current state, the
  route queue and the navigation target are handles too.
- So reference semantics are kept:
  - renaming a state is seen through every transition to it;
  - a duplicate copies the list of transitions, not the states;
  - deleting a group leaves its states reachable through transitions and the cursor.
- New objects are appended to the arena and are never freed.

**Equality.** `State.Equals` compares names. The model compares names exactly where the
source calls `Equals`, `Remove` or `Find`:
- `RemoveFirstByName` is `List.Remove`;
- `Find` is `GetStateGlobal`;
- `NavEnds` is the `previousState.Equals(navigationTargetState)` test.

`myCurrentState == st` in `UIRemoveState` is a reference test and is compared by handle.

**Effects outside the class.** Trigger firings and the flags sent to the chat plugin are
appended to a trace of `Event`s. `Time.deltaTime` is the parameter `dt >= 0`.
`Random.Range` is the parameter `pick`, a valid index whenever there are transitions.
The UI selections are parameters as well: the selected state's name and the transition
to add or remove.

**Numbers.** `float` is modelled as `real`. `Mathf.Max` and `Mathf.Clamp` are written
out. `num + 1` in `GetNextName` wraps at `Int32.MaxValue`, as unchecked C# arithmetic does.

## Model

| member | source | states |
|---|---|---|
| Text.NameLeTotal | Lapiro_Routimator.cs:124-127 | any two names compare one way or the other, so sorting by name is well defined |
| Text.NameLeTransitive | Lapiro_Routimator.cs:124-127 | the name order is transitive |
| Text.ParseFormatted | Lapiro_Routimator.cs:676-681 | `int.TryParse` reads back exactly the value `int.ToString` wrote, for every 32-bit value |
| Naming.LastIndexOf | Lapiro_Routimator.cs:672 | the result is -1 or a position holding the character, and no later position holds it |
| Naming.Increment32 | Lapiro_Routimator.cs:680 | `num + 1` in 32-bit arithmetic: stays in range, differs from `num`, is `num + 1` below the maximum |
| Naming.NextNameDiffers | Lapiro_Routimator.cs:670-685 | the generated name never equals the name it came from, for every input |
| Naming.NextNameIncrements | Lapiro_Routimator.cs:670-685 | a name ending in "_" and a formatted number below the maximum gets that number plus one |
| Naming.NextNameAppends | Lapiro_Routimator.cs:670-685 | a name without an underscore gets "_1" appended |
| StateGraph.WalkInArena | Lapiro_Routimator.cs:859-892 | a walk along transitions of a closed arena only visits states of the arena |
| StateGraph.ShortestIsSimple | Lapiro_Routimator.cs:859-892 | a shortest walk does not revisit its start and has no repeated state |
| StateGraph.HeadIsClosest | Lapiro_Routimator.cs:868-870 | the state at the head of the breadth-first queue has no shorter walk than its recorded distance |
| StateGraph.ExhaustedUnreachable | Lapiro_Routimator.cs:866-891 | when the queue runs empty without meeting the target, no walk reaches it |
| StateGraph.TracePath | Lapiro_Routimator.cs:871-880 | following the predecessor map back from the dequeued target gives a shortest walk to it, without the start and without repeats |
| StateGraph.Expand | Lapiro_Routimator.cs:881-889 | expanding the dequeued state keeps the search invariant (visited set, predecessor tree, level-ordered queue) and only grows the visited set |
| StateGraph.SearchStep | Lapiro_Routimator.cs:866-890 | one round of the loop either returns a shortest route to the target or keeps the invariant with fewer unseen states |
| StateGraph.FindRoute | Lapiro_Routimator.cs:859-892 | no route exactly when the target is unreachable; otherwise the route excludes the start, ends at the target, starts with a transition of the start, links consecutive states by transitions, has the fewest hops and no repeats |
| StateList.FirstIndex | Lapiro_Routimator.cs:710 | `FindIndex`: the first matching position, or -1 exactly when nothing matches |
| StateList.Find | Lapiro_Routimator.cs:1179-1182 | `GetStateGlobal`: none exactly when no listed state has the name; otherwise a listed state with that name |
| StateList.FindInGroup | Lapiro_Routimator.cs:1174-1177 | none exactly when no listed state has both the group and the name; otherwise a listed state with both |
| StateList.FilterMembers | Lapiro_Routimator.cs:709 | `FindAll` keeps exactly the listed states that match |
| StateList.FilterKeepsDistinct | Lapiro_Routimator.cs:434 | `RemoveAll` leaves a list without repeated objects |
| StateList.RemoveFirstByName | Lapiro_Routimator.cs:152-158 | `List.Remove` under name equality: the list unchanged when no state has the name; otherwise the first state of that name is removed and the others keep their order |
| StateList.RemoveFirstByNameCount | Lapiro_Routimator.cs:698 | removing by name lowers the number of states with that name by one, unless there were none |
| StateList.RemoveFirstByNameClears | Lapiro_Routimator.cs:697-702 | with at most one state of the name, none is left afterwards |
| StateList.RemoveFirstByNameKeepsDistinct | Lapiro_Routimator.cs:702 | removal keeps a list without repeated objects |
| StateList.SameNamesRemove | Lapiro_Routimator.cs:697-698 | lookups and removals by name only depend on names, so they agree in two arenas with the same names |
| StateList.InsertByNameSorted | Lapiro_Routimator.cs:606 | inserting a state by name into a sorted list keeps it sorted |
| StateList.SortByName | Lapiro_Routimator.cs:606 | `List.Sort` by name: the result is sorted by name and is a permutation of the list |
| StateList.PermutationKeepsDistinct | Lapiro_Routimator.cs:606 | a permutation of a list without repeats has none |
| StateList.Swap | Lapiro_Routimator.cs:712-715 | exchanges two positions and leaves every other one, and the multiset of elements, unchanged |
| StateList.RegroupPermutes | Lapiro_Routimator.cs:716-719 | the write-back loop keeps the states outside the group and puts in exactly the states written back |
| StateList.RegroupKeepsOthers | Lapiro_Routimator.cs:716-719 | the write-back leaves every position holding a state of another group unchanged |
| StateList.RegroupFilter | Lapiro_Routimator.cs:716-719 | after the write-back the group, read in list order, is exactly the sequence written back |
| StateList.RegroupSnoc | Lapiro_Routimator.cs:716-719 | the write-back of a list with one more position is the write-back of the shorter list plus that position, replaced when it is in the group |
| StateList.FilterSplits | Lapiro_Routimator.cs:709 | a list is the union of its states inside and outside a group |
| StateList.MovePermutes | Lapiro_Routimator.cs:708-742 | moving a state up or down keeps exactly the same states in the list |
| StateList.MoveReordersGroup | Lapiro_Routimator.cs:708-742 | after a move the group reads as the swapped group, and states of other groups keep their places |
| StateList.IndexOfString | Lapiro_Routimator.cs:578 | `IndexOf`: the first position of the group name, or -1 exactly when it is absent |
| StateList.RemoveString | Lapiro_Routimator.cs:435 | `List.Remove` on group names: unchanged when absent, otherwise the first occurrence is removed and the others keep their order |
| Editing.NewStateNameDistinct | Lapiro_Routimator.cs:624-627 | every candidate name of the add button starts with "VS_", and two numbers give the same name only if they are equal |
| Editing.FirstFreeNumberFree | Lapiro_Routimator.cs:624-642 | the number the add loop settles on is free in the group unless it is the limit, and every smaller candidate is taken |
| Editing.FirstFreeIsFirstFreeNumber | Lapiro_Routimator.cs:624-642 | only one number has those properties |
| Editing.FreeNumber | Lapiro_Routimator.cs:624-628 | the add loop stops at the first candidate free in the group, or at the limit |
| Editing.DuplicateNameFirstFree | Lapiro_Routimator.cs:652-658 | the duplicate loop's name is the first successor free in the group; every earlier one is taken; it is free unless all tries were used |
| Editing.SettlesIsDuplicateName | Lapiro_Routimator.cs:652-658 | any stopping point with those properties is the one the loop reaches |
| Editing.FreeDuplicateName | Lapiro_Routimator.cs:650-658 | the duplicate loop stops after at most 999 further names, at a name free in the group unless all tries were used, every earlier name taken |
| Editing.WithoutEdgeTo | Lapiro_Routimator.cs:697-698 | `Transitions.Remove`: name and group are kept and the transitions still refer to the arena |
| Editing.WithoutEdgeToClears | Lapiro_Routimator.cs:697-698 | with at most one transition to the removed state's name, no transition to that name is left |
| Editing.PurgeEdgesTo | Lapiro_Routimator.cs:697-698 | the purge loop changes each listed state into its purged form and leaves every other state alone |
| Editing.MoveGroup | Lapiro_Routimator.cs:584-588 | the loop moves every listed state of the old group to the new one and changes nothing else |
| Editing.WriteBack | Lapiro_Routimator.cs:716-719 | the write-back loop yields the list with the group's states replaced in order |
| Persistence.EncodeAll | Lapiro_Routimator.cs:1041-1061 | one entry per listed state, in list order, carrying its name, looping flag, duration, group and flags; "Transitions" is present exactly when the state has any |
| Persistence.TransitionNames | Lapiro_Routimator.cs:1050-1056 | the inner save loop writes the names of the transitions, in order |
| Persistence.EncodeStates | Lapiro_Routimator.cs:1041-1061 | the outer save loop writes the "States" array |
| Persistence.DecodeState | Lapiro_Routimator.cs:1089-1097 | a restored state takes the entry's name and looping flag; missing duration, group and flags take 3, "Group_1" and ""; it has no transitions yet |
| Persistence.CreateStates | Lapiro_Routimator.cs:1089-1102 | pass 1 appends one new state per entry, in document order, and lists exactly those |
| Persistence.CreatedClosed | Lapiro_Routimator.cs:1089-1102 | after pass 1 the arena is still closed and the new list has no repeats |
| Persistence.Known | Lapiro_Routimator.cs:1114-1120 | the kept transition names are exactly those that are names of listed states, in order |
| Persistence.ResolveNames | Lapiro_Routimator.cs:1114-1120 | the resolved transitions carry exactly the known names in order: unknown names are dropped, nothing else is |
| Persistence.ResolvedGains | Lapiro_Routimator.cs:1105-1124 | after pass 2 each state keeps every field but its transitions, which are the old ones followed by what the entries gave it |
| Persistence.ResolvedShape | Lapiro_Routimator.cs:1105-1124 | pass 2 renames nothing and every transition it adds refers to a listed state |
| Persistence.ResolveTransitions | Lapiro_Routimator.cs:1105-1124 | the pass 2 loop applies the entries in document order |
| Persistence.GroupsOf | Lapiro_Routimator.cs:1147-1152 | the rebuilt group list holds exactly the non-empty groups of listed states, each once |
| Persistence.RebuildGroups | Lapiro_Routimator.cs:1147-1152 | the loop rebuilds that list |
| Persistence.RestoredSelection | Lapiro_Routimator.cs:1154-1157 | the saved group when it still exists, else the first group, else "" |
| Persistence.Clamp | Lapiro_Routimator.cs:1136 | `Mathf.Clamp`: inside `[lo, hi]` when `lo <= hi`, and a value already inside is kept |
| Persistence.RestoredList | Lapiro_Routimator.cs:1103 | the restored list is sorted by name and is a permutation of the new states |
| Persistence.RestoredMembers | Lapiro_Routimator.cs:1089-1103 | the restored list holds exactly the new states |
| Persistence.RoundTrip | Lapiro_Routimator.cs:1035-1124 | saving then restoring a list with unique names whose transitions stay in the list gives a sorted list of new states. Each saved state comes back under its name, with the same fields and transitions to states of the same names, in the same order |
| Controller.ClearFlags | Lapiro_Routimator.cs:801-803 | the clear flags start with "!nav", are exactly "!nav" when no custom flags are set, and otherwise carry the custom flags after the comma |
| Controller.SendFlags | Lapiro_Routimator.cs:1245-1248 | empty flag strings are not sent |
| Controller.EntryDuration | Lapiro_Routimator.cs:787-794 | one second for looping states, otherwise the state's duration, whether routing or not |
| Controller.Tick | Lapiro_Routimator.cs:978 | the clock never goes negative, reaches 0 exactly when `dt` covers it, and never grows |
| Controller.RestoredTiming | Lapiro_Routimator.cs:1125-1137 | without a current state the clock is 0 and the duration 1. Otherwise the saved duration replaces the entry duration, and the saved clock is clamped into `[0, duration]` |
| Controller.SwitchEvents | Lapiro_Routimator.cs:772-810 | the old state's exit comes first, then the new state's enter, and the clear flags come last when the navigation target is left |
| Controller.Successor | Lapiro_Routimator.cs:1013-1030 | a random transition is taken exactly when the state has one, and it follows a transition |
| Controller.CursorRoundTrip | Lapiro_Routimator.cs:1060-1137 | saving then restoring a list with unique names finds the current state again by its name among the new states, with the same fields, and gives back its clock and duration when the clock lies in [0, duration] |
| Controller.Routimator.constructor | Lapiro_Routimator.cs:182-192 | the default group exists, no states, no session, empty exit flags |
| Controller.Routimator.SwitchState | Lapiro_Routimator.cs:772-810 | current becomes the new state, and clock = duration = its entry duration. When not routing and leaving the target, the target is dropped and the clear flags are sent. The queue and routing flag are kept |
| Controller.Routimator.Transition | Lapiro_Routimator.cs:1013-1031 | moves to the picked transition, or to no state when there is none |
| Controller.Routimator.SwitchStateAction | Lapiro_Routimator.cs:762-770 | switches to the first state of the name, with its entry duration and the session kept; an unknown name changes nothing |
| Controller.Routimator.Update | Lapiro_Routimator.cs:952-1011 | nothing happens without a current state or in a "NAV_state" hold; otherwise the routing or free-running tick happens |
| Controller.Routimator.RoutingTick | Lapiro_Routimator.cs:976-1000 | the clock runs down. At 0 the next queued state is entered; with an empty queue routing ends and "!nav" is sent only if there is no target |
| Controller.Routimator.FreeTick | Lapiro_Routimator.cs:1001-1008 | the clock runs down; a finite state at 0 takes the random transition or leaves to no state |
| Controller.Routimator.RouteSwitchStateAction | Lapiro_Routimator.cs:818-857 | with no current state, an unknown target, the current state's name, or no route, nothing changes. Otherwise "nav" is sent and routing follows a shortest route, and the target is kept iff its name starts with "VT_" |
| Controller.Routimator.RouteTo | Lapiro_Routimator.cs:821-857 | the same once the target is found |
| Controller.Routimator.StartRoute | Lapiro_Routimator.cs:839-856 | routing is on, the route's first state is current and the rest is queued, "nav" precedes the switch |
| Controller.Routimator.InterruptNavigation | Lapiro_Routimator.cs:894-910 | afterwards no routing and an empty queue. The target is dropped and the clear flags sent only if routing was active, so a second call changes nothing |
| Controller.Routimator.InterruptNavigationAction | Lapiro_Routimator.cs:301-310 | acts only on "interrupt_navigation" in any case |
| Controller.Routimator.ContinueNavigation | Lapiro_Routimator.cs:237-256 | outside a "NAV_state" hold nothing changes. In one, the next queued state is entered while routing, otherwise the random transition is taken; the entered state sets clock and duration, and leaving the target outside routing drops it |
| Controller.Routimator.ContinueNavigationAction | Lapiro_Routimator.cs:313-337 | acts only on "continue_navigation" in any case |
| Controller.Routimator.Selected | Lapiro_Routimator.cs:1167-1172 | no state for an empty selection; otherwise the first state of the selected group with that name |
| Controller.Routimator.AppendState | Lapiro_Routimator.cs:638 | a new object is appended and listed last |
| Controller.Routimator.AddState | Lapiro_Routimator.cs:611-643 | creates the default group if there is none. The number is the first one free in the selected group; the new looping "VS_" state has the defaults and is listed last; nothing is added at the limit |
| Controller.Routimator.DuplicateState | Lapiro_Routimator.cs:645-668 | a copy of the selected state (flags, looping, duration and the same transitions) joins the selected group under the first free successor name, with the prefix rule; no selection changes nothing |
| Controller.Routimator.RenameState | Lapiro_Routimator.cs:591-609 | the selected state takes the name unchecked, the rename prefix rule sets looping, and the list is sorted by name |
| Controller.Routimator.RemoveState | Lapiro_Routimator.cs:687-706 | leaves the state if it is current, keeping clock and duration and dropping the target when it was left. Every listed state loses its first transition to the name, and the first state of the name leaves the list |
| Controller.Routimator.AddTransition | Lapiro_Routimator.cs:746-754 | the first state of the name is added and the transitions are sorted by name; an unknown name changes nothing |
| Controller.Routimator.RemoveTransition | Lapiro_Routimator.cs:756-760 | drops the first transition to a state of that name |
| Controller.Routimator.SwapInGroup | Lapiro_Routimator.cs:712-719 | swaps two states of the selected group; other groups keep their places |
| Controller.Routimator.MoveStateUp | Lapiro_Routimator.cs:708-724 | the selected state swaps with the group's previous state, or nothing changes at the top or when not found |
| Controller.Routimator.MoveStateDown | Lapiro_Routimator.cs:726-742 | the selected state swaps with the group's next state, or nothing changes at the bottom or when not found |
| Controller.Routimator.DeleteGroup | Lapiro_Routimator.cs:431-439 | the group's states leave the list; edges and the current state are kept; the group is removed and the first remaining one selected |
| Controller.Routimator.GroupRename | Lapiro_Routimator.cs:573-589 | with a listed selected group, its entry, the selection and every listed state of it take the new name; otherwise nothing changes |
| Controller.Routimator.GetJSON | Lapiro_Routimator.cs:1035-1075 | the document holds the states in list order. It has the current state's name, clock and duration exactly when there is a current state, plus the exit flags and the selected group |
| Controller.Routimator.LateRestoreFromJSON | Lapiro_Routimator.cs:1077-1165 | when restoring physical data: the new states sorted by name, transitions resolved by name, the current state by name, the clock clamped into the duration, and the groups rebuilt. The session is untouched, and the exit flags are restored whenever saved |
| Controller.Routimator.RestoreCursor | Lapiro_Routimator.cs:1125-1137 | the current state by its saved name, with the restored timing |
| Controller.Routimator.RestoreGroups | Lapiro_Routimator.cs:1147-1158 | the groups are rebuilt from the states and the selection restored |
| Controller.Routimator.RestoreGraph | Lapiro_Routimator.cs:1086-1124 | both restore passes: new states sorted by name, then their transitions by name |

## Left out

- Host UI: choosers, `Init`'s UI construction, `UIRebuild`, `UIRefresh` and `UISetState`. The selected state's name and the chosen transition are parameters instead. The chooser value that `UIRemoveState` and the move buttons set afterwards is not modelled.
- `UIAddGroup` and the field setters of the selected state (`UISetInfiniteDuration`, `UISetDuration`, `UISetFlags`, `UISetFlagsOnExitNavigation`) are not modelled. They only assign a field.
- `EventTrigger`/`FloatTrigger`: their JSON, `Remove` and per-frame `Update` are foreign code. Firing enter/exit is an `Event` in the trace.
- The progress value (`UpdateCurrentStateValue`, `myValue`, `myClockInt`) and `UpdateCurrentStateInfo`: text and float formatting only.
- Timeline playback and the plugin lookups (`TryPlayTimelineAnimation`, `FindTimelinePlugin`, `FindVoxtaPlugin`). When the chat plugin is missing the source sends nothing; the model always records non-empty flags.
- File dialogs and `UISaveJSON`/`UILoadJSON`. SimpleJSON is replaced by the `Doc`/`StateDoc` datatypes, with `Option` for a missing key.
- `GetJSON` with `includePhysical` and `forceStore` both false (it writes nothing of its own), and the `physicalLocked` / custom lock test of the restore. The latter is folded into `restorePhysical`.
- LateRestoreFromJSON: a document without a "States" key is not modelled, because the source dereferences a null array there.
- DuplicateState and RemoveState: the source throws on a null state when the selection is "" while a state of the selected group is named "". `GetSelectedState` returns null for an empty selection, but the chooser check lets the name through. The model changes nothing in that case. A selected name that no state of the group carries returns early in the source too, as it does in the model.
- `OnAtomRename`, `OnDestroy`.
- `float` arithmetic is `real` arithmetic: no rounding, and `Mathf.Approximately` is not used.
- Durations are not constrained to be non-negative, so the clock is non-negative only after a tick.
- String comparison for sorting is ordinal. `CompareTo` uses the current culture in the source.
- `List.Sort` is unstable in the source; the model sorts stably, so states with equal names may come out in another order.
- Case-insensitive comparison folds ASCII letters only.
- StateGraph.FindRoute: the contract promises a shortest route but not which one. When several shortest routes exist, the breadth-first search picks the one found first in transition-list order; the model does not state that tie-break. Transition lists are sorted by name when an edge is added but not after a rename, so name order would not describe it either.
- StateGraph.FindRoute: the visited set and predecessor map are keyed by object rather than by name. The stop test compares objects rather than names. This matches the source whenever names are unique, which is what `Equals`/`GetHashCode` assume.
- Editing.FreeDuplicateName and Editing.FreeNumber are stated for any successor and candidate functions. The controller instantiates them with `GetNextName` and "VS_new_state_" + number.
- Persistence.RoundTrip is proved for lists with unique names whose transitions stay inside the list. With duplicate names, `GetStateGlobal` in pass 2 sends every entry of a name to the same state.
- Persistence.ResolveTransitions looks names up in the arena as it was after pass 1. Pass 2 changes only transitions, so the names are the same.
- The navigation target is not cleared when a navigation ends without reaching a "VT_" state's exit. This follows the source.
