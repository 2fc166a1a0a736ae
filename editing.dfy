/** The naming rules of the state editor: the defaults of a new state, the
    prefix rules that force a state to loop or to run down, the candidate
    names of the add and duplicate buttons, and the edge purge of the remove
    button. */
module Editing {
  import opened Text
  import opened Naming
  import opened StateGraph
  import opened StateList

  const DefaultGroup: string := "Group_1"
  const DefaultDuration: real := 3.0
  /** Candidate numbers of the add button run from 1 below this bound. */
  const AddLimit: int := 1000
  /** The duplicate button takes at most this many further candidates. */
  const DuplicateTries: nat := 999

  /** A state named "NAV_state..." (any case) holds until told to continue. */
  predicate IsNavHold(name: string) {
    StartsWithIgnoreCase(name, "NAV_state")
  }

  /** The prefix rule of the add and duplicate buttons: "VS_" makes a state
      loop, "VT_" makes it run down, any other name keeps `kept`. */
  function PrefixInfinite(name: string, kept: bool): bool {
    if StartsWith(name, "VS_") then true
    else if StartsWith(name, "VT_") then false
    else kept
  }

  /** The prefix rule of renaming, where a "NAV_state" name (any case) comes
      first and also makes the state loop. */
  function RenameInfinite(name: string, kept: bool): bool {
    if IsNavHold(name) then true else PrefixInfinite(name, kept)
  }

  /** The `i`-th candidate name of the add button. */
  function NewStateName(i: int): string {
    "VS_new_state_" + Int32ToString(i)
  }

  /** The add button's candidates are "VS_" names, and different numbers
      give different names. */
  lemma NewStateNameDistinct(i: int, j: int)
    requires MinInt32 <= i <= MaxInt32 && MinInt32 <= j <= MaxInt32
    ensures StartsWith(NewStateName(i), "VS_")
    ensures NewStateName(i) == NewStateName(j) <==> i == j
  {
    var prefix := "VS_new_state_";
    assert NewStateName(i)[..3] == "VS_";
    if NewStateName(i) == NewStateName(j) {
      assert Int32ToString(i) == NewStateName(i)[|prefix|..];
      assert Int32ToString(j) == NewStateName(j)[|prefix|..];
      ParseFormatted(i);
      ParseFormatted(j);
    }
  }

  // The add button's search is stated for any naming of the candidate
  // numbers; the controller passes `NewStateName`.

  /** The first candidate number from `i` whose name is free in `group`, or
      `AddLimit` when every remaining one is taken. */
  function FirstFreeNumber(heap: seq<State>, hs: seq<Handle>, group: string, candidate: int -> string, i: int): (r: int)
    requires Live(heap, hs) && 1 <= i <= AddLimit
    ensures i <= r <= AddLimit
    decreases AddLimit - i
  {
    if i == AddLimit then AddLimit
    else if FindInGroup(heap, hs, group, candidate(i)).None? then i
    else FirstFreeNumber(heap, hs, group, candidate, i + 1)
  }

  /** The number found is free (unless it is the limit) and every candidate
      before it is taken. */
  lemma FirstFreeNumberFree(heap: seq<State>, hs: seq<Handle>, group: string, candidate: int -> string, i: int)
    requires Live(heap, hs) && 1 <= i <= AddLimit
    ensures FirstFreeNumber(heap, hs, group, candidate, i) < AddLimit ==>
      FindInGroup(heap, hs, group, candidate(FirstFreeNumber(heap, hs, group, candidate, i))).None?
    ensures forall k :: i <= k < FirstFreeNumber(heap, hs, group, candidate, i) ==> FindInGroup(heap, hs, group, candidate(k)).Some?
  {
    FirstFreeNumberIsFree(heap, hs, group, candidate, i);
    FirstFreeNumberSkipsTaken(heap, hs, group, candidate, i);
  }

  lemma {:induction false} FirstFreeNumberIsFree(heap: seq<State>, hs: seq<Handle>, group: string, candidate: int -> string, i: int)
    requires Live(heap, hs) && 1 <= i <= AddLimit
    ensures FirstFreeNumber(heap, hs, group, candidate, i) < AddLimit ==>
      FindInGroup(heap, hs, group, candidate(FirstFreeNumber(heap, hs, group, candidate, i))).None?
    decreases AddLimit - i
  {
    if i < AddLimit && FindInGroup(heap, hs, group, candidate(i)).Some? {
      FirstFreeNumberIsFree(heap, hs, group, candidate, i + 1);
    }
  }

  lemma {:induction false} FirstFreeNumberSkipsTaken(heap: seq<State>, hs: seq<Handle>, group: string, candidate: int -> string, i: int)
    requires Live(heap, hs) && 1 <= i <= AddLimit
    ensures forall k :: i <= k < FirstFreeNumber(heap, hs, group, candidate, i) ==> FindInGroup(heap, hs, group, candidate(k)).Some?
    decreases AddLimit - i
  {
    if i < AddLimit && FindInGroup(heap, hs, group, candidate(i)).Some? {
      FirstFreeNumberSkipsTaken(heap, hs, group, candidate, i + 1);
    }
  }

  // The duplicate button's search is stated for any successor function
  // `next`; the controller passes `NextName`.

  /** `next` applied `k` times. */
  function Iterate(next: string -> string, name: string, k: nat): string
    decreases k
  {
    if k == 0 then name else Iterate(next, next(name), k - 1)
  }

  /** How many further names the duplicate button tries after `name`: it
      stops at the first name free in `group`, or after `budget` tries. */
  function TriesUsed(heap: seq<State>, hs: seq<Handle>, group: string, next: string -> string, name: string, budget: nat): (r: nat)
    requires Live(heap, hs)
    ensures r <= budget
    decreases budget
  {
    if budget == 0 || FindInGroup(heap, hs, group, name).None? then 0
    else 1 + TriesUsed(heap, hs, group, next, next(name), budget - 1)
  }

  /** The name the duplicate button settles on: `name` if it is free in
      `group` or the budget is spent, otherwise the search goes on from the
      next name. */
  function DuplicateName(heap: seq<State>, hs: seq<Handle>, group: string, next: string -> string, name: string, budget: nat): string
    requires Live(heap, hs)
    decreases budget
  {
    if budget == 0 || FindInGroup(heap, hs, group, name).None? then name
    else DuplicateName(heap, hs, group, next, next(name), budget - 1)
  }

  /** The settled name is the first successor of `name` free in `group`:
      every earlier candidate is taken, and it is free itself unless the
      whole budget was used. */
  lemma DuplicateNameFirstFree(heap: seq<State>, hs: seq<Handle>, group: string, next: string -> string, name: string, budget: nat)
    requires Live(heap, hs)
    ensures DuplicateName(heap, hs, group, next, name, budget) == Iterate(next, name, TriesUsed(heap, hs, group, next, name, budget))
    ensures TriesUsed(heap, hs, group, next, name, budget) < budget ==>
      FindInGroup(heap, hs, group, DuplicateName(heap, hs, group, next, name, budget)).None?
    ensures forall j :: 0 <= j < TriesUsed(heap, hs, group, next, name, budget) ==>
      FindInGroup(heap, hs, group, Iterate(next, name, j)).Some?
  {
    DuplicateNameIterates(heap, hs, group, next, name, budget);
    DuplicateNameFree(heap, hs, group, next, name, budget);
    DuplicateNameSkipsTaken(heap, hs, group, next, name, budget);
  }

  lemma {:induction false} DuplicateNameIterates(heap: seq<State>, hs: seq<Handle>, group: string, next: string -> string, name: string, budget: nat)
    requires Live(heap, hs)
    ensures DuplicateName(heap, hs, group, next, name, budget) == Iterate(next, name, TriesUsed(heap, hs, group, next, name, budget))
    decreases budget
  {
    if budget > 0 && FindInGroup(heap, hs, group, name).Some? {
      DuplicateNameIterates(heap, hs, group, next, next(name), budget - 1);
    }
  }

  lemma {:induction false} DuplicateNameFree(heap: seq<State>, hs: seq<Handle>, group: string, next: string -> string, name: string, budget: nat)
    requires Live(heap, hs)
    ensures TriesUsed(heap, hs, group, next, name, budget) < budget ==>
      FindInGroup(heap, hs, group, DuplicateName(heap, hs, group, next, name, budget)).None?
    decreases budget
  {
    if budget > 0 && FindInGroup(heap, hs, group, name).Some? {
      DuplicateNameFree(heap, hs, group, next, next(name), budget - 1);
    }
  }

  lemma {:induction false} DuplicateNameSkipsTaken(heap: seq<State>, hs: seq<Handle>, group: string, next: string -> string, name: string, budget: nat)
    requires Live(heap, hs)
    ensures forall j :: 0 <= j < TriesUsed(heap, hs, group, next, name, budget) ==>
      FindInGroup(heap, hs, group, Iterate(next, name, j)).Some?
    decreases budget
  {
    if budget > 0 && FindInGroup(heap, hs, group, name).Some? {
      var t := TriesUsed(heap, hs, group, next, next(name), budget - 1);
      DuplicateNameSkipsTaken(heap, hs, group, next, next(name), budget - 1);
      forall j | 1 <= j < t + 1
        ensures FindInGroup(heap, hs, group, Iterate(next, name, j)).Some?
      {
        assert Iterate(next, name, j) == Iterate(next, next(name), j - 1);
      }
    }
  }

  /** `n` is the number the add button settles on: every candidate before
      it is taken in `group`, and it is free unless it is `AddLimit`. */
  predicate FirstFree(heap: seq<State>, hs: seq<Handle>, group: string, candidate: int -> string, n: int)
    requires Live(heap, hs)
  {
    && 1 <= n <= AddLimit
    && (forall k :: 1 <= k < n ==> FindInGroup(heap, hs, group, candidate(k)).Some?)
    && (n < AddLimit ==> FindInGroup(heap, hs, group, candidate(n)).None?)
  }

  /** Only one number is the first free one, and it is `FirstFreeNumber`'s. */
  lemma FirstFreeIsFirstFreeNumber(heap: seq<State>, hs: seq<Handle>, group: string, candidate: int -> string, n: int)
    requires Live(heap, hs) && FirstFree(heap, hs, group, candidate, n)
    ensures FirstFreeNumber(heap, hs, group, candidate, 1) == n
  {
    FirstFreeNumberFree(heap, hs, group, candidate, 1);
  }

  /** The search loop of the add button. */
  method FreeNumber(heap: seq<State>, hs: seq<Handle>, group: string, candidate: int -> string) returns (i: int)
    requires Live(heap, hs)
    ensures FirstFree(heap, hs, group, candidate, i)
  {
    i := 1;
    while i < AddLimit && FindInGroup(heap, hs, group, candidate(i)).Some?
      invariant 1 <= i <= AddLimit
      invariant forall k :: 1 <= k < i ==> FindInGroup(heap, hs, group, candidate(k)).Some?
    {
      i := i + 1;
    }
  }

  /** `newName` is where the duplicate search from `name` stops after
      `tries` further names: every name before it is taken in `group`, and it
      is free itself unless the budget is spent. */
  predicate Settles(heap: seq<State>, hs: seq<Handle>, group: string, next: string -> string,
                    name: string, budget: nat, tries: nat, newName: string)
    requires Live(heap, hs)
  {
    && tries <= budget && newName == Iterate(next, name, tries)
    && (forall j :: 0 <= j < tries ==> FindInGroup(heap, hs, group, Iterate(next, name, j)).Some?)
    && (tries < budget ==> FindInGroup(heap, hs, group, newName).None?)
  }

  /** The stopping point is the one `DuplicateName` describes. */
  lemma {:induction false} SettlesIsDuplicateName(heap: seq<State>, hs: seq<Handle>, group: string, next: string -> string,
                                                  name: string, budget: nat, tries: nat, newName: string)
    requires Live(heap, hs) && Settles(heap, hs, group, next, name, budget, tries, newName)
    ensures newName == DuplicateName(heap, hs, group, next, name, budget)
    decreases tries
  {
    if tries > 0 {
      assert FindInGroup(heap, hs, group, Iterate(next, name, 0)).Some?;
      forall j | 0 <= j < tries - 1
        ensures FindInGroup(heap, hs, group, Iterate(next, next(name), j)).Some?
      {
        assert Iterate(next, name, j + 1) == Iterate(next, next(name), j);
      }
      SettlesIsDuplicateName(heap, hs, group, next, next(name), budget - 1, tries - 1, newName);
    }
  }

  /** `next` applied once more. */
  lemma {:induction false} IterateOnce(next: string -> string, name: string, k: nat)
    ensures Iterate(next, name, k + 1) == next(Iterate(next, name, k))
    decreases k
  {
    if k > 0 {
      IterateOnce(next, next(name), k - 1);
    }
  }

  /** The search loop of the duplicate button, from the first candidate
      `name`. */
  method FreeDuplicateName(heap: seq<State>, hs: seq<Handle>, group: string, next: string -> string, name: string)
    returns (newName: string, tries: nat)
    requires Live(heap, hs)
    ensures Settles(heap, hs, group, next, name, DuplicateTries, tries, newName)
  {
    newName := name;
    tries := 0;
    while FindInGroup(heap, hs, group, newName).Some? && tries < DuplicateTries
      invariant tries <= DuplicateTries && newName == Iterate(next, name, tries)
      invariant forall j :: 0 <= j < tries ==> FindInGroup(heap, hs, group, Iterate(next, name, j)).Some?
    {
      TakenPrefixGrows(heap, hs, group, next, name, tries);
      IterateOnce(next, name, tries);
      newName := next(newName);
      tries := tries + 1;
    }
  }

  /** One more taken candidate extends the run of taken candidates. */
  lemma TakenPrefixGrows(heap: seq<State>, hs: seq<Handle>, group: string, next: string -> string, name: string, n: nat)
    requires Live(heap, hs)
    requires forall j :: 0 <= j < n ==> FindInGroup(heap, hs, group, Iterate(next, name, j)).Some?
    requires FindInGroup(heap, hs, group, Iterate(next, name, n)).Some?
    ensures forall j :: 0 <= j < n + 1 ==> FindInGroup(heap, hs, group, Iterate(next, name, j)).Some?
  {
    forall j | 0 <= j < n + 1
      ensures FindInGroup(heap, hs, group, Iterate(next, name, j)).Some?
    {
      if j < n {
        assert FindInGroup(heap, hs, group, Iterate(next, name, j)).Some?;
      }
    }
  }

  /** A state with its first transition to a state named `name` dropped, as
      `Transitions.Remove` does under name equality. */
  function WithoutEdgeTo(heap: seq<State>, h: Handle, name: string): (r: State)
    requires Closed(heap) && h < |heap|
    ensures r.name == heap[h].name && r.group == heap[h].group && Live(heap, r.transitions)
  {
    heap[h].(transitions := RemoveFirstByName(heap, heap[h].transitions, name))
  }

  /** With at most one transition to a state named `name`, none is left
      after the purge. */
  lemma WithoutEdgeToClears(heap: seq<State>, h: Handle, name: string)
    requires Closed(heap) && h < |heap| && CountNamed(heap, heap[h].transitions, name) <= 1
    ensures forall j :: 0 <= j < |WithoutEdgeTo(heap, h, name).transitions| ==>
      heap[WithoutEdgeTo(heap, h, name).transitions[j]].name != name
  {
    RemoveFirstByNameClears(heap, heap[h].transitions, name);
  }

  /** The purge loop of the remove button: every listed state loses its
      first transition to a state named `name`; nothing else changes. */
  method PurgeEdgesTo(heap: seq<State>, hs: seq<Handle>, name: string) returns (r: seq<State>)
    requires Closed(heap) && Live(heap, hs) && Distinct(hs)
    ensures Closed(r) && SameNames(heap, r)
    ensures forall k :: 0 <= k < |heap| ==> r[k] == if k in hs then WithoutEdgeTo(heap, k, name) else heap[k]
  {
    r := heap;
    for s := 0 to |hs|
      invariant Closed(r) && SameNames(heap, r)
      invariant forall k :: 0 <= k < |heap| ==> r[k] == if k in hs[..s] then WithoutEdgeTo(heap, k, name) else heap[k]
    {
      PurgeStep(heap, hs, name, s, r);
      r := r[hs[s] := WithoutEdgeTo(r, hs[s], name)];
    }
    assert hs[..|hs|] == hs;
  }

  /** One round of the purge loop keeps its invariant. */
  lemma PurgeStep(heap: seq<State>, hs: seq<Handle>, name: string, s: nat, r: seq<State>)
    requires Closed(heap) && Live(heap, hs) && Distinct(hs) && s < |hs|
    requires Closed(r) && SameNames(heap, r)
    requires forall k :: 0 <= k < |heap| ==> r[k] == if k in hs[..s] then WithoutEdgeTo(heap, k, name) else heap[k]
    ensures var r' := r[hs[s] := WithoutEdgeTo(r, hs[s], name)];
      Closed(r') && SameNames(heap, r') &&
      forall k :: 0 <= k < |heap| ==> r'[k] == if k in hs[..s + 1] then WithoutEdgeTo(heap, k, name) else heap[k]
  {
    var h := hs[s];
    assert h !in hs[..s];
    SameNamesRemove(heap, r, heap[h].transitions, name);
    PrefixGrows(hs, s);
  }

  /** The loop of the group rename: every listed state of group `from` moves
      to group `to`; nothing else changes. */
  method MoveGroup(heap: seq<State>, hs: seq<Handle>, from: string, to: string) returns (r: seq<State>)
    requires Closed(heap) && Live(heap, hs) && Distinct(hs)
    ensures Closed(r) && SameNames(heap, r)
    ensures forall k :: 0 <= k < |heap| ==>
      r[k] == if k in hs && heap[k].group == from then heap[k].(group := to) else heap[k]
  {
    r := heap;
    for s := 0 to |hs|
      invariant Closed(r) && SameNames(heap, r)
      invariant forall k :: 0 <= k < |heap| ==>
        r[k] == if k in hs[..s] && heap[k].group == from then heap[k].(group := to) else heap[k]
    {
      var h := hs[s];
      assert h !in hs[..s];
      if r[h].group == from {
        r := r[h := r[h].(group := to)];
      }
      assert hs[..s + 1] == hs[..s] + [h];
    }
    assert hs[..|hs|] == hs;
  }

  /** The write-back loop of the move buttons: the states of `group` in
      `hs` are replaced, in order, by those of `gs`. */
  method WriteBack(heap: seq<State>, hs: seq<Handle>, group: string, gs: seq<Handle>) returns (r: seq<Handle>)
    requires Live(heap, hs)
    requires |gs| == |Filter(heap, hs, InGroup(group))|
    ensures r == Regroup(heap, hs, group, gs)
  {
    r := hs;
    var count := 0;
    for i := 0 to |hs|
      invariant count == |Filter(heap, hs[..i], InGroup(group))| <= |gs|
      invariant |r| == |hs| && r[i..] == hs[i..]
      invariant r[..i] == Regroup(heap, hs[..i], group, gs[..count])
    {
      WriteBackStep(heap, hs, group, gs, i);
      assert r[i] == hs[i];
      if heap[r[i]].group == group {
        r := r[i := gs[count]];
        count := count + 1;
      }
      assert r[..i + 1] == r[..i] + [r[i]];
    }
    assert hs[..|hs|] == hs && gs[..count] == gs && r[..|hs|] == r;
  }

  /** One step of the write-back: the prefix grows by one position, which
      takes the next state of `gs` when it holds a state of the group. */
  lemma WriteBackStep(heap: seq<State>, hs: seq<Handle>, group: string, gs: seq<Handle>, i: nat)
    requires Live(heap, hs) && i < |hs|
    requires |gs| == |Filter(heap, hs, InGroup(group))|
    ensures var c := |Filter(heap, hs[..i], InGroup(group))|;
      var c' := if heap[hs[i]].group == group then c + 1 else c;
      && c' == |Filter(heap, hs[..i + 1], InGroup(group))| && c' <= |gs|
      && Regroup(heap, hs[..i + 1], group, gs[..c'])
         == Regroup(heap, hs[..i], group, gs[..c]) + [if heap[hs[i]].group == group then gs[c] else hs[i]]
  {
    var x := hs[i];
    var c := |Filter(heap, hs[..i], InGroup(group))|;
    assert hs[..i + 1] == hs[..i] + [x];
    assert hs[..i + 1] + hs[i + 1..] == hs;
    FilterAppend(heap, hs[..i], [x], InGroup(group));
    FilterAppend(heap, hs[..i + 1], hs[i + 1..], InGroup(group));
    FilterCons(heap, [x], InGroup(group));
    var c' := if heap[x].group == group then c + 1 else c;
    RegroupSnoc(heap, hs[..i], x, group, gs[..c'], c);
    assert gs[..c'][..c] == gs[..c];
  }
}
