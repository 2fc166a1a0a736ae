/** The saved form of the controller (`GetJSON`) and the two passes that
    rebuild the state list from it (`LateRestoreFromJSON`). The JSON tree is
    replaced by a document datatype whose absent keys are `None`. */
module Persistence {
  import opened Wrappers
  import opened StateGraph
  import opened StateList
  import opened Editing

  /** One entry of the "States" array. */
  datatype StateDoc = StateDoc(
    name: string,
    infinite: bool,
    duration: Option<real>,
    group: Option<string>,
    setFlags: Option<string>,
    transitions: Option<seq<string>>)

  /** The keys the controller writes and reads. */
  datatype Doc = Doc(
    states: seq<StateDoc>,
    initial: Option<string>,
    clock: Option<real>,
    duration: Option<real>,
    exitFlags: Option<string>,
    selectedGroup: Option<string>)

  // ---------------------------------------------------------------
  // Saving
  // ---------------------------------------------------------------

  /** The names of the listed states, in list order. */
  function NamesOf(heap: seq<State>, hs: seq<Handle>): (r: seq<string>)
    requires Live(heap, hs)
    ensures |r| == |hs|
  {
    seq(|hs|, i requires 0 <= i < |hs| => heap[hs[i]].name)
  }

  /** Listing names only looks at names. */
  lemma SameNamesOf(a: seq<State>, b: seq<State>, hs: seq<Handle>)
    requires SameNames(a, b) && Live(a, hs)
    ensures Live(b, hs) && NamesOf(a, hs) == NamesOf(b, hs)
  {
    assert forall k :: 0 <= k < |hs| ==> NamesOf(a, hs)[k] == a[hs[k]].name == b[hs[k]].name == NamesOf(b, hs)[k];
  }

  /** The entry written for one state; "Transitions" only when it has any. */
  function EncodeState(heap: seq<State>, h: Handle): StateDoc
    requires Closed(heap) && h < |heap|
  {
    var st := heap[h];
    StateDoc(st.name, st.infinite, Some(st.duration), Some(st.group), Some(st.setFlags),
             if |st.transitions| > 0 then Some(NamesOf(heap, st.transitions)) else None)
  }

  /** The "States" array: one entry per listed state, in list order. */
  function EncodeAll(heap: seq<State>, hs: seq<Handle>): (r: seq<StateDoc>)
    requires Closed(heap) && Live(heap, hs)
    ensures |r| == |hs|
    ensures forall i :: 0 <= i < |hs| ==>
      r[i].name == heap[hs[i]].name && r[i].infinite == heap[hs[i]].infinite
      && r[i].duration == Some(heap[hs[i]].duration) && r[i].group == Some(heap[hs[i]].group)
      && r[i].setFlags == Some(heap[hs[i]].setFlags)
      && (r[i].transitions.Some? <==> heap[hs[i]].transitions != [])
  {
    seq(|hs|, i requires 0 <= i < |hs| => EncodeState(heap, hs[i]))
  }

  /** The inner loop of `GetJSON`: the transition names of one state. */
  method TransitionNames(heap: seq<State>, ts: seq<Handle>) returns (names: seq<string>)
    requires Live(heap, ts)
    ensures names == NamesOf(heap, ts)
  {
    names := [];
    for t := 0 to |ts|
      invariant names == NamesOf(heap, ts[..t])
    {
      names := names + [heap[ts[t]].name];
    }
    assert ts[..|ts|] == ts;
  }

  /** The outer loop of `GetJSON`: one entry per listed state. */
  method EncodeStates(heap: seq<State>, hs: seq<Handle>) returns (docs: seq<StateDoc>)
    requires Closed(heap) && Live(heap, hs)
    ensures docs == EncodeAll(heap, hs)
  {
    docs := [];
    for i := 0 to |hs|
      invariant docs == EncodeAll(heap, hs[..i])
    {
      var st := heap[hs[i]];
      var ts: Option<seq<string>> := None;
      if |st.transitions| > 0 {
        var names := TransitionNames(heap, st.transitions);
        ts := Some(names);
      }
      docs := docs + [StateDoc(st.name, st.infinite, Some(st.duration), Some(st.group), Some(st.setFlags), ts)];
    }
    assert hs[..|hs|] == hs;
  }

  // ---------------------------------------------------------------
  // Restoring, pass 1: one new state per entry
  // ---------------------------------------------------------------

  /** The state created for an entry: keys missing from the entry take the
      defaults of a new `State`, and it has no transitions yet. */
  function DecodeState(sd: StateDoc): State {
    State(sd.name,
          if sd.group.Some? then sd.group.value else DefaultGroup,
          if sd.setFlags.Some? then sd.setFlags.value else "",
          sd.infinite,
          if sd.duration.Some? then sd.duration.value else DefaultDuration,
          [])
  }

  /** The arena with the states of pass 1 appended after the existing ones. */
  function Created(heap: seq<State>, docs: seq<StateDoc>): (r: seq<State>)
    ensures |r| == |heap| + |docs| && r[..|heap|] == heap
    ensures forall i :: 0 <= i < |docs| ==> r[|heap| + i] == DecodeState(docs[i])
  {
    heap + seq(|docs|, i requires 0 <= i < |docs| => DecodeState(docs[i]))
  }

  /** The handles of `n` states appended to an arena of `start` states. */
  function Fresh(start: nat, n: nat): (r: seq<Handle>)
    ensures |r| == n && forall i :: 0 <= i < n ==> r[i] == start + i
  {
    seq(n, i requires 0 <= i < n => start + i)
  }

  /** Pass 1 of `LateRestoreFromJSON`: a new state per entry, listed in
      document order. */
  method CreateStates(heap: seq<State>, docs: seq<StateDoc>) returns (r: seq<State>, hs: seq<Handle>)
    ensures r == Created(heap, docs) && hs == Fresh(|heap|, |docs|)
  {
    r, hs := heap, [];
    for i := 0 to |docs|
      invariant |r| == |heap| + i && r[..|heap|] == heap
      invariant forall k :: 0 <= k < i ==> r[|heap| + k] == DecodeState(docs[k])
      invariant hs == Fresh(|heap|, i)
    {
      hs := hs + [|r|];
      r := r + [DecodeState(docs[i])];
    }
    assert r == Created(heap, docs) by {
      assert forall k :: |heap| <= k < |r| ==> r[k] == DecodeState(docs[k - |heap|]);
    }
  }

  lemma CreatedClosed(heap: seq<State>, docs: seq<StateDoc>)
    requires Closed(heap)
    ensures Closed(Created(heap, docs)) && Live(Created(heap, docs), Fresh(|heap|, |docs|))
    ensures Distinct(Fresh(|heap|, |docs|))
  {
    var r := Created(heap, docs);
    forall h, k | 0 <= h < |r| && 0 <= k < |r[h].transitions| ensures r[h].transitions[k] < |r| {
      if h < |heap| {
        assert r[h] == heap[h];
      }
    }
  }

  // ---------------------------------------------------------------
  // Restoring, pass 2: transitions by name
  // ---------------------------------------------------------------

  /** The names of `names` that are in `known`, in order. */
  function Known(names: seq<string>, known: seq<string>): (r: seq<string>)
    ensures forall n :: n in r <==> n in names && n in known
  {
    if names == [] then []
    else
      var rest := Known(names[..|names| - 1], known);
      var n := names[|names| - 1];
      assert names == names[..|names| - 1] + [n];
      if n in known then rest + [n] else rest
  }

  /** With every name known, nothing is dropped. */
  lemma {:induction false} KnownAll(names: seq<string>, known: seq<string>)
    requires forall k :: 0 <= k < |names| ==> names[k] in known
    ensures Known(names, known) == names
  {
    if names != [] {
      KnownAll(names[..|names| - 1], known);
      assert names == names[..|names| - 1] + [names[|names| - 1]];
    }
  }

  /** The inner loop of pass 2: the first listed state of each name, with
      names no listed state carries skipped. */
  function Resolve(heap: seq<State>, hs: seq<Handle>, names: seq<string>): (r: seq<Handle>)
    requires Live(heap, hs)
    ensures |r| <= |names|
    ensures forall k :: 0 <= k < |r| ==> r[k] in hs
  {
    if names == [] then []
    else
      var rest := Resolve(heap, hs, names[..|names| - 1]);
      match Find(heap, hs, names[|names| - 1])
      case None => rest
      case Some(t) => rest + [t]
  }

  /** The resolved transitions carry exactly the known names, in order:
      unknown names are dropped and nothing else is. */
  lemma {:induction false} ResolveNames(heap: seq<State>, hs: seq<Handle>, names: seq<string>)
    requires Live(heap, hs)
    ensures Live(heap, Resolve(heap, hs, names))
    ensures NamesOf(heap, Resolve(heap, hs, names)) == Known(names, NamesOf(heap, hs))
  {
    if names != [] {
      var init := names[..|names| - 1];
      var n := names[|names| - 1];
      ResolveNames(heap, hs, init);
      var rest := Resolve(heap, hs, init);
      assert names == init + [n];
      match Find(heap, hs, n)
      case None =>
        assert n !in NamesOf(heap, hs);
      case Some(t) =>
        var j :| 0 <= j < |hs| && hs[j] == t;
        assert NamesOf(heap, hs)[j] == n;
        assert NamesOf(heap, rest + [t]) == NamesOf(heap, rest) + [n];
    }
  }

  /** The transitions one entry gives state `h`: its resolved names, when
      `h` is the first listed state with the entry's name. */
  function Gained(heap: seq<State>, hs: seq<Handle>, sd: StateDoc, h: Handle): seq<Handle>
    requires Live(heap, hs)
  {
    if sd.transitions.Some? && Find(heap, hs, sd.name) == Some(h) then Resolve(heap, hs, sd.transitions.value)
    else []
  }

  /** Everything pass 2 appends to state `h`, entry by entry. */
  function GainedAll(heap: seq<State>, hs: seq<Handle>, docs: seq<StateDoc>, h: Handle): (r: seq<Handle>)
    requires Live(heap, hs)
    ensures forall k :: 0 <= k < |r| ==> r[k] in hs
  {
    if docs == [] then []
    else GainedAll(heap, hs, docs[..|docs| - 1], h) + Gained(heap, hs, docs[|docs| - 1], h)
  }

  /** One entry of pass 2: the first state of the entry's name gains the
      entry's resolved transitions. Pass 2 changes transitions only, so the
      name lookups see the names of the arena `heap` it starts from. */
  function ApplyEntry(cur: seq<State>, heap: seq<State>, hs: seq<Handle>, sd: StateDoc): (r: seq<State>)
    requires Live(heap, hs) && |cur| == |heap|
    ensures |r| == |heap|
  {
    match Find(heap, hs, sd.name)
    case None => cur
    case Some(h) =>
      if sd.transitions.None? then cur
      else cur[h := cur[h].(transitions := cur[h].transitions + Resolve(heap, hs, sd.transitions.value))]
  }

  /** The arena after pass 2 has applied the entries in document order. */
  function Resolved(heap: seq<State>, hs: seq<Handle>, docs: seq<StateDoc>): (r: seq<State>)
    requires Live(heap, hs)
    ensures |r| == |heap|
  {
    if docs == [] then heap
    else ApplyEntry(Resolved(heap, hs, docs[..|docs| - 1]), heap, hs, docs[|docs| - 1])
  }

  /** One entry appends to each state exactly what it gives that state. */
  lemma ApplyEntryAt(cur: seq<State>, heap: seq<State>, hs: seq<Handle>, sd: StateDoc, k: nat)
    requires Live(heap, hs) && |cur| == |heap| && k < |heap|
    ensures ApplyEntry(cur, heap, hs, sd)[k] == cur[k].(transitions := cur[k].transitions + Gained(heap, hs, sd, k))
  {
    if Gained(heap, hs, sd, k) == [] {
      assert cur[k].transitions + [] == cur[k].transitions;
    }
  }

  /** One more entry extends what a state has gained so far. */
  lemma GainsStep(heap: seq<State>, hs: seq<Handle>, prev: seq<State>, before: seq<Handle>, sd: StateDoc, k: nat)
    requires Live(heap, hs) && |prev| == |heap| && k < |heap|
    requires prev[k] == heap[k].(transitions := heap[k].transitions + before)
    ensures ApplyEntry(prev, heap, hs, sd)[k]
      == heap[k].(transitions := heap[k].transitions + (before + Gained(heap, hs, sd, k)))
  {
    ApplyEntryAt(prev, heap, hs, sd, k);
    var more := Gained(heap, hs, sd, k);
    assert (heap[k].transitions + before) + more == heap[k].transitions + (before + more);
  }

  /** After pass 2 each state has kept everything but its transitions, and
      its transitions are the old ones followed by what the entries gave it. */
  lemma {:induction false} ResolvedGains(heap: seq<State>, hs: seq<Handle>, docs: seq<StateDoc>, k: nat)
    requires Live(heap, hs) && k < |heap|
    ensures Resolved(heap, hs, docs)[k] == heap[k].(transitions := heap[k].transitions + GainedAll(heap, hs, docs, k))
  {
    if docs == [] {
      assert heap[k].transitions + [] == heap[k].transitions;
    } else {
      var init := docs[..|docs| - 1];
      ResolvedGains(heap, hs, init, k);
      GainsStep(heap, hs, Resolved(heap, hs, init), GainedAll(heap, hs, init, k), docs[|docs| - 1], k);
    }
  }

  /** A state without transitions before pass 2 ends it with exactly what
      the entries gave it. */
  lemma ResolvedNew(heap: seq<State>, hs: seq<Handle>, docs: seq<StateDoc>, k: nat)
    requires Live(heap, hs) && k < |heap| && heap[k].transitions == []
    ensures Resolved(heap, hs, docs)[k].transitions == GainedAll(heap, hs, docs, k)
  {
    ResolvedGains(heap, hs, docs, k);
    assert [] + GainedAll(heap, hs, docs, k) == GainedAll(heap, hs, docs, k);
  }

  /** Pass 2 renames nothing. */
  lemma ResolvedSameNames(heap: seq<State>, hs: seq<Handle>, docs: seq<StateDoc>)
    requires Live(heap, hs)
    ensures SameNames(heap, Resolved(heap, hs, docs))
  {
    forall k | 0 <= k < |heap| ensures Resolved(heap, hs, docs)[k].name == heap[k].name {
      ResolvedGains(heap, hs, docs, k);
    }
  }

  /** Only transitions change, and every appended one refers to a listed
      state. */
  lemma ResolvedShape(heap: seq<State>, hs: seq<Handle>, docs: seq<StateDoc>)
    requires Closed(heap) && Live(heap, hs)
    ensures Closed(Resolved(heap, hs, docs)) && SameNames(heap, Resolved(heap, hs, docs))
    ensures forall k :: 0 <= k < |heap| ==>
      Resolved(heap, hs, docs)[k].(transitions := []) == heap[k].(transitions := [])
    ensures forall k, j ::
      (0 <= k < |heap| && heap[k].transitions == [] && 0 <= j < |Resolved(heap, hs, docs)[k].transitions|) ==>
      Resolved(heap, hs, docs)[k].transitions[j] in hs
  {
    var r := Resolved(heap, hs, docs);
    forall k | 0 <= k < |heap|
      ensures r[k].(transitions := []) == heap[k].(transitions := [])
      ensures forall j :: 0 <= j < |r[k].transitions| ==> r[k].transitions[j] < |r|
      ensures heap[k].transitions == [] ==> forall j :: 0 <= j < |r[k].transitions| ==> r[k].transitions[j] in hs
    {
      ResolvedGains(heap, hs, docs, k);
      var g := GainedAll(heap, hs, docs, k);
      forall j | 0 <= j < |r[k].transitions|
        ensures r[k].transitions[j] < |r|
        ensures heap[k].transitions == [] ==> r[k].transitions[j] in hs
      {
        if j >= |heap[k].transitions| {
          assert r[k].transitions[j] == g[j - |heap[k].transitions|];
        }
      }
    }
  }

  /** Pass 2 of `LateRestoreFromJSON`: for each entry, in document order,
      the first listed state of its name gains the entry's known transitions. */
  method ResolveTransitions(heap: seq<State>, hs: seq<Handle>, docs: seq<StateDoc>) returns (r: seq<State>)
    requires Live(heap, hs)
    ensures r == Resolved(heap, hs, docs)
  {
    r := heap;
    assert docs[..0] == [];
    for i := 0 to |docs|
      invariant r == Resolved(heap, hs, docs[..i])
    {
      assert docs[..i + 1][..i] == docs[..i];
      var st := Find(heap, hs, docs[i].name);
      if st.Some? && docs[i].transitions.Some? {
        var h := st.value;
        var names := docs[i].transitions.value;
        var ts := r[h].transitions;
        for t := 0 to |names|
          invariant ts == r[h].transitions + Resolve(heap, hs, names[..t])
        {
          assert names[..t + 1][..t] == names[..t];
          var trans := Find(heap, hs, names[t]);
          if trans.Some? {
            ts := ts + [trans.value];
          }
        }
        assert names[..|names|] == names;
        r := r[h := r[h].(transitions := ts)];
      }
    }
    assert docs[..|docs|] == docs;
  }

  // ---------------------------------------------------------------
  // Restoring, after the passes
  // ---------------------------------------------------------------

  /** The group list rebuilt from the states in list order: each non-empty
      group once, in order of first appearance. */
  function GroupsOf(heap: seq<State>, hs: seq<Handle>): (r: seq<string>)
    requires Live(heap, hs)
    ensures forall g :: g in r <==> g != "" && exists k :: 0 <= k < |hs| && heap[hs[k]].group == g
    ensures forall i, j :: 0 <= i < j < |r| ==> r[i] != r[j]
  {
    if hs == [] then []
    else
      var rest := GroupsOf(heap, hs[..|hs| - 1]);
      var g := heap[hs[|hs| - 1]].group;
      assert forall k :: 0 <= k < |hs| - 1 ==> hs[..|hs| - 1][k] == hs[k];
      if g != "" && g !in rest then rest + [g] else rest
  }

  /** The loop that rebuilds the group list. */
  method RebuildGroups(heap: seq<State>, hs: seq<Handle>) returns (groups: seq<string>)
    requires Live(heap, hs)
    ensures groups == GroupsOf(heap, hs)
  {
    groups := [];
    for i := 0 to |hs|
      invariant groups == GroupsOf(heap, hs[..i])
    {
      assert hs[..i + 1][..i] == hs[..i];
      var g := heap[hs[i]].group;
      if g != "" && g !in groups {
        groups := groups + [g];
      }
    }
    assert hs[..|hs|] == hs;
  }

  /** The group selected after a restore: the saved one if it is still a
      group, else the first group, else none. */
  function RestoredSelection(groups: seq<string>, saved: Option<string>): (r: string)
    ensures saved.Some? && saved.value in groups ==> r == saved.value
    ensures !(saved.Some? && saved.value in groups) ==> r == if groups != [] then groups[0] else ""
  {
    if saved.Some? && saved.value in groups then saved.value
    else if |groups| > 0 then groups[0] else ""
  }

  /** `Mathf.Clamp`: below `lo` gives `lo`, else above `hi` gives `hi`. */
  function Clamp(v: real, lo: real, hi: real): (r: real)
    ensures lo <= hi ==> lo <= r <= hi
    ensures lo <= v <= hi ==> r == v
    ensures r == v || r == lo || r == hi
  {
    if v < lo then lo else if v > hi then hi else v
  }

  // ---------------------------------------------------------------
  // Saving and restoring
  // ---------------------------------------------------------------

  /** No two listed states share a name. */
  predicate UniqueNames(heap: seq<State>, hs: seq<Handle>)
    requires Live(heap, hs)
  {
    forall i, j :: 0 <= i < j < |hs| ==> heap[hs[i]].name != heap[hs[j]].name
  }

  /** Every transition of a listed state leads to a listed state. */
  predicate EdgesListed(heap: seq<State>, hs: seq<Handle>)
    requires Live(heap, hs)
  {
    forall i, k :: 0 <= i < |hs| && 0 <= k < |heap[hs[i]].transitions| ==> heap[hs[i]].transitions[k] in hs
  }

  /** The state list after both passes: the new states sorted by name. */
  function RestoredList(heap: seq<State>, docs: seq<StateDoc>): (r: seq<Handle>)
    ensures Live(Created(heap, docs), r) && SortedByName(Created(heap, docs), r)
    ensures multiset(r) == multiset(Fresh(|heap|, |docs|))
  {
    CreatedLive(heap, docs);
    SortByName(Created(heap, docs), Fresh(|heap|, |docs|))
  }

  lemma CreatedLive(heap: seq<State>, docs: seq<StateDoc>)
    ensures Live(Created(heap, docs), Fresh(|heap|, |docs|))
  {
  }

  /** The restored list holds exactly the new states. */
  lemma RestoredMembers(heap: seq<State>, docs: seq<StateDoc>)
    ensures forall x :: x in RestoredList(heap, docs) <==> |heap| <= x < |heap| + |docs|
  {
    var sorted := RestoredList(heap, docs);
    var made := Fresh(|heap|, |docs|);
    forall x ensures x in sorted <==> |heap| <= x < |heap| + |docs| {
      assert x in sorted <==> x in multiset(made);
      if |heap| <= x < |heap| + |docs| {
        assert made[x - |heap|] == x;
      }
    }
  }

  /** The facts about the arena and list after pass 1 and the sort that the
      name lookups of pass 2 depend on: the new states from `start` on carry
      the entries' names, and the list holds exactly the new states. */
  ghost predicate Restoring(base: seq<State>, sorted: seq<Handle>, start: nat, docs: seq<StateDoc>)
  {
    && Live(base, sorted) && start + |docs| <= |base|
    && (forall m :: 0 <= m < |docs| ==> base[start + m].name == docs[m].name)
    && (forall x :: x in sorted <==> start <= x < start + |docs|)
  }

  /** With unique names, the entry for the `i`-th saved state is found at the
      `i`-th new state. */
  lemma FindRestored(base: seq<State>, sorted: seq<Handle>, start: nat, docs: seq<StateDoc>, i: nat)
    requires Restoring(base, sorted, start, docs) && i < |docs|
    requires forall a, b :: 0 <= a < b < |docs| ==> docs[a].name != docs[b].name
    ensures Find(base, sorted, docs[i].name) == Some(start + i)
  {
    var found := Find(base, sorted, docs[i].name);
    assert found.Some? by {
      assert start + i in sorted;
      var j :| 0 <= j < |sorted| && sorted[j] == start + i;
      assert base[sorted[j]].name == docs[i].name;
    }
    var m := found.value - start;
    assert base[start + m].name == docs[m].name;
  }

  /** With unique names, only the `i`-th entry gives the `i`-th new state
      transitions. */
  lemma {:induction false} GainedUnique(base: seq<State>, sorted: seq<Handle>, start: nat, docs: seq<StateDoc>, i: nat, n: nat)
    requires Restoring(base, sorted, start, docs) && i < |docs| && n <= |docs|
    requires forall a, b :: 0 <= a < b < |docs| ==> docs[a].name != docs[b].name
    ensures GainedAll(base, sorted, docs[..n], start + i)
      == if i < n then Gained(base, sorted, docs[i], start + i) else []
  {
    if n > 0 {
      GainedUnique(base, sorted, start, docs, i, n - 1);
      assert docs[..n][..n - 1] == docs[..n - 1];
      FindRestored(base, sorted, start, docs, n - 1);
      if n - 1 != i {
        assert Gained(base, sorted, docs[n - 1], start + i) == [];
      }
    }
  }

  /** A name some entry carries is the name of a listed state. */
  lemma EntryNamesKnown(base: seq<State>, sorted: seq<Handle>, start: nat, docs: seq<StateDoc>, names: seq<string>)
    requires Restoring(base, sorted, start, docs)
    requires forall k :: 0 <= k < |names| ==> exists m :: 0 <= m < |docs| && docs[m].name == names[k]
    ensures forall k :: 0 <= k < |names| ==> names[k] in NamesOf(base, sorted)
  {
    forall k | 0 <= k < |names| ensures names[k] in NamesOf(base, sorted) {
      var m :| 0 <= m < |docs| && docs[m].name == names[k];
      assert start + m in sorted;
      var j :| 0 <= j < |sorted| && sorted[j] == start + m;
      assert NamesOf(base, sorted)[j] == names[k];
    }
  }

  /** With unique names and every transition name among the entries, pass 2
      gives the `i`-th new state transitions to the states of exactly the
      names its entry lists, in order. */
  lemma RestoredTransitions(base: seq<State>, sorted: seq<Handle>, start: nat, docs: seq<StateDoc>, i: nat)
    requires Restoring(base, sorted, start, docs) && i < |docs|
    requires forall a, b :: 0 <= a < b < |docs| ==> docs[a].name != docs[b].name
    requires docs[i].transitions.Some? ==> forall k :: 0 <= k < |docs[i].transitions.value| ==>
      exists m :: 0 <= m < |docs| && docs[m].name == docs[i].transitions.value[k]
    ensures Live(base, GainedAll(base, sorted, docs, start + i))
    ensures NamesOf(base, GainedAll(base, sorted, docs, start + i))
      == if docs[i].transitions.Some? then docs[i].transitions.value else []
  {
    GainedUnique(base, sorted, start, docs, i, |docs|);
    FindRestored(base, sorted, start, docs, i);
    assert docs[..|docs|] == docs;
    var g := GainedAll(base, sorted, docs, start + i);
    if docs[i].transitions.Some? {
      var names := docs[i].transitions.value;
      assert g == Resolve(base, sorted, names);
      ResolveNames(base, sorted, names);
      EntryNamesKnown(base, sorted, start, docs, names);
      KnownAll(names, NamesOf(base, sorted));
    } else {
      assert g == [];
    }
  }

  /** The same, read in the arena after pass 2, for a new state that had no
      transitions before it. */
  lemma RestoredTransitionsAt(base: seq<State>, sorted: seq<Handle>, start: nat, docs: seq<StateDoc>, i: nat)
    requires Closed(base) && Restoring(base, sorted, start, docs) && i < |docs|
    requires forall a, b :: 0 <= a < b < |docs| ==> docs[a].name != docs[b].name
    requires base[start + i].transitions == []
    requires docs[i].transitions.Some? ==> forall k :: 0 <= k < |docs[i].transitions.value| ==>
      exists m :: 0 <= m < |docs| && docs[m].name == docs[i].transitions.value[k]
    ensures Live(Resolved(base, sorted, docs), Resolved(base, sorted, docs)[start + i].transitions)
    ensures NamesOf(Resolved(base, sorted, docs), Resolved(base, sorted, docs)[start + i].transitions)
      == if docs[i].transitions.Some? then docs[i].transitions.value else []
  {
    RestoredTransitions(base, sorted, start, docs, i);
    ResolvedSameNames(base, sorted, docs);
    ResolvedNew(base, sorted, docs, start + i);
    SameNamesOf(base, Resolved(base, sorted, docs), GainedAll(base, sorted, docs, start + i));
  }

  /** What saving writes for the `i`-th listed state: its own name, the rest
      of it without transitions as pass 1 reads it back, and transition names
      that are all names of listed states. */
  lemma EncodeFacts(heap: seq<State>, hs: seq<Handle>, i: nat)
    requires Closed(heap) && Live(heap, hs) && UniqueNames(heap, hs) && EdgesListed(heap, hs) && i < |hs|
    ensures forall a, b :: 0 <= a < b < |hs| ==> EncodeAll(heap, hs)[a].name != EncodeAll(heap, hs)[b].name
    ensures DecodeState(EncodeAll(heap, hs)[i]) == heap[hs[i]].(transitions := [])
    ensures EncodeAll(heap, hs)[i].transitions.Some? ==>
      EncodeAll(heap, hs)[i].transitions.value == NamesOf(heap, heap[hs[i]].transitions)
    ensures EncodeAll(heap, hs)[i].transitions.None? ==> heap[hs[i]].transitions == []
    ensures var names := NamesOf(heap, heap[hs[i]].transitions);
      forall k :: 0 <= k < |names| ==> exists m :: 0 <= m < |hs| && EncodeAll(heap, hs)[m].name == names[k]
  {
    var docs := EncodeAll(heap, hs);
    forall a, b | 0 <= a < b < |hs| ensures docs[a].name != docs[b].name {
      assert docs[a].name == heap[hs[a]].name && docs[b].name == heap[hs[b]].name;
    }
    var ts := heap[hs[i]].transitions;
    var names := NamesOf(heap, ts);
    forall k | 0 <= k < |names| ensures exists m :: 0 <= m < |hs| && docs[m].name == names[k] {
      var m :| 0 <= m < |hs| && hs[m] == ts[k];
      assert docs[m].name == names[k];
    }
  }

  /** The round trip over the arena and list after pass 1 and the sort. */
  lemma RoundTripCore(heap: seq<State>, hs: seq<Handle>, docs: seq<StateDoc>, base: seq<State>, sorted: seq<Handle>, i: nat)
    requires Closed(heap) && Live(heap, hs) && i < |hs| && |docs| == |hs|
    requires Closed(base) && Restoring(base, sorted, |heap|, docs) && SortedByName(base, sorted)
    requires forall a, b :: 0 <= a < b < |docs| ==> docs[a].name != docs[b].name
    requires base[|heap| + i] == heap[hs[i]].(transitions := [])
    requires docs[i].transitions.Some? ==> docs[i].transitions.value == NamesOf(heap, heap[hs[i]].transitions)
    requires docs[i].transitions.None? ==> heap[hs[i]].transitions == []
    requires docs[i].transitions.Some? ==> forall k :: 0 <= k < |docs[i].transitions.value| ==>
      exists m :: 0 <= m < |docs| && docs[m].name == docs[i].transitions.value[k]
    ensures var r := Resolved(base, sorted, docs);
      && Live(r, sorted) && SortedByName(r, sorted)
      && Find(r, sorted, heap[hs[i]].name) == Some(|heap| + i)
      && r[|heap| + i].(transitions := []) == heap[hs[i]].(transitions := [])
      && Live(r, r[|heap| + i].transitions)
      && NamesOf(r, r[|heap| + i].transitions) == NamesOf(heap, heap[hs[i]].transitions)
  {
    var r := Resolved(base, sorted, docs);
    ResolvedSameNames(base, sorted, docs);
    ResolvedGains(base, sorted, docs, |heap| + i);
    FindRestored(base, sorted, |heap|, docs, i);
    SameNamesRemove(base, r, sorted, heap[hs[i]].name);
    SameNamesSorted(base, r, sorted);
    RestoredTransitionsAt(base, sorted, |heap|, docs, i);
    if docs[i].transitions.None? {
      assert |NamesOf(heap, heap[hs[i]].transitions)| == 0;
    }
  }

  /** Saving and restoring gives back every listed state, as a new state
      found under its own name, with its group, flags, loop flag, duration
      and transitions (as names), provided the names are unique and every
      transition leads to a listed state; the list comes back sorted. */
  lemma RoundTrip(heap: seq<State>, hs: seq<Handle>, i: nat)
    requires Closed(heap) && Live(heap, hs) && UniqueNames(heap, hs) && EdgesListed(heap, hs)
    requires i < |hs|
    ensures var docs := EncodeAll(heap, hs);
      var sorted := RestoredList(heap, docs);
      var r := Resolved(Created(heap, docs), sorted, docs);
      && Live(r, sorted) && |sorted| == |hs| && SortedByName(r, sorted)
      && Find(r, sorted, heap[hs[i]].name) == Some(|heap| + i)
      && r[|heap| + i].(transitions := []) == heap[hs[i]].(transitions := [])
      && Live(r, r[|heap| + i].transitions)
      && NamesOf(r, r[|heap| + i].transitions) == NamesOf(heap, heap[hs[i]].transitions)
  {
    var docs := EncodeAll(heap, hs);
    var base := Created(heap, docs);
    var sorted := RestoredList(heap, docs);
    EncodeFacts(heap, hs, i);
    CreatedClosed(heap, docs);
    RestoredMembers(heap, docs);
    assert Restoring(base, sorted, |heap|, docs);
    assert base[|heap| + i] == DecodeState(docs[i]);
    RoundTripCore(heap, hs, docs, base, sorted, i);
  }
}
