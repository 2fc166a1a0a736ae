/** Operations on lists of state handles as the controller uses `List<State>`:
    `Find`/`FindIndex` (first match), `FindAll`/`RemoveAll` (filter),
    `Remove` (first equal element, where equality is by name), `Sort` by name,
    and the write-back of a reordered group into the full list. */
module StateList {
  import opened Wrappers
  import opened Text
  import opened StateGraph

  /** Every handle of the list refers to a state of the arena. */
  predicate Live(heap: seq<State>, hs: seq<Handle>) {
    forall i :: 0 <= i < |hs| ==> hs[i] < |heap|
  }

  /** No state object appears twice in the list. */
  predicate Distinct(hs: seq<Handle>) {
    forall i, j :: 0 <= i < j < |hs| ==> hs[i] != hs[j]
  }

  /** The conditions the controller searches and filters its lists by. */
  datatype Match =
    | Named(name: string)
    | InGroup(group: string)
    | NotInGroup(group: string)
    | NamedInGroup(group: string, name: string)

  predicate Matches(m: Match, s: State) {
    match m
    case Named(n) => s.name == n
    case InGroup(g) => s.group == g
    case NotInGroup(g) => s.group != g
    case NamedInGroup(g, n) => s.group == g && s.name == n
  }

  // ---------------------------------------------------------------
  // First match
  // ---------------------------------------------------------------

  /** Index of the first state satisfying `p`, or -1 (`List.FindIndex`). */
  function FirstIndex(heap: seq<State>, hs: seq<Handle>, p: Match): (r: int)
    requires Live(heap, hs)
    ensures -1 <= r < |hs|
    ensures r >= 0 ==> Matches(p, heap[hs[r]]) && forall j :: 0 <= j < r ==> !Matches(p, heap[hs[j]])
    ensures r == -1 <==> forall j :: 0 <= j < |hs| ==> !Matches(p, heap[hs[j]])
  {
    if hs == [] then -1
    else if Matches(p, heap[hs[0]]) then 0
    else
      var k := FirstIndex(heap, hs[1..], p);
      if k < 0 then -1 else k + 1
  }

  /** `GetStateGlobal`: the first listed state with this name. */
  function Find(heap: seq<State>, hs: seq<Handle>, name: string): (r: Option<Handle>)
    requires Live(heap, hs)
    ensures r.None? <==> forall j :: 0 <= j < |hs| ==> heap[hs[j]].name != name
    ensures r.Some? ==> r.value in hs && heap[r.value].name == name
  {
    var k := FirstIndex(heap, hs, Named(name));
    if k < 0 then None else Some(hs[k])
  }

  /** `GetState` / `GetSelectedState` without the empty-name guard: the first
      listed state of `group` with this name. */
  function FindInGroup(heap: seq<State>, hs: seq<Handle>, group: string, name: string): (r: Option<Handle>)
    requires Live(heap, hs)
    ensures r.None? <==> forall j :: 0 <= j < |hs| ==> heap[hs[j]].group != group || heap[hs[j]].name != name
    ensures r.Some? ==> r.value in hs && heap[r.value].group == group && heap[r.value].name == name
  {
    var k := FirstIndex(heap, hs, NamedInGroup(group, name));
    if k < 0 then None else Some(hs[k])
  }

  // ---------------------------------------------------------------
  // Filter
  // ---------------------------------------------------------------

  /** The states satisfying `p`, in list order (`List.FindAll`; with the
      negated predicate, what `List.RemoveAll` keeps). */
  function Filter(heap: seq<State>, hs: seq<Handle>, p: Match): (r: seq<Handle>)
    requires Live(heap, hs)
    ensures |r| <= |hs| && Live(heap, r)
  {
    if hs == [] then []
    else
      var rest := Filter(heap, hs[1..], p);
      assert hs == [hs[0]] + hs[1..];
      if Matches(p, heap[hs[0]]) then [hs[0]] + rest else rest
  }

  /** `Filter` keeps exactly the listed states that match. */
  lemma {:induction false} FilterMembers(heap: seq<State>, hs: seq<Handle>, p: Match)
    requires Live(heap, hs)
    ensures forall h :: h in Filter(heap, hs, p) <==> h in hs && Matches(p, heap[h])
  {
    if hs != [] {
      FilterMembers(heap, hs[1..], p);
      assert hs == [hs[0]] + hs[1..];
    }
  }

  lemma {:induction false} FilterKeepsDistinct(heap: seq<State>, hs: seq<Handle>, p: Match)
    requires Live(heap, hs) && Distinct(hs)
    ensures Distinct(Filter(heap, hs, p))
  {
    if hs != [] {
      FilterKeepsDistinct(heap, hs[1..], p);
      FilterMembers(heap, hs[1..], p);
      assert hs[0] !in hs[1..];
      var rest := Filter(heap, hs[1..], p);
      var r := Filter(heap, hs, p);
      if Matches(p, heap[hs[0]]) {
        assert r == [hs[0]] + rest;
        forall i, j | 0 <= i < j < |r| ensures r[i] != r[j] {
          assert r[j] == rest[j - 1];
          if i > 0 { assert r[i] == rest[i - 1]; }
        }
      }
    }
  }

  // ---------------------------------------------------------------
  // Remove the first equal element
  // ---------------------------------------------------------------

  /** `List.Remove(x)` under name equality: drops the first state named `name`. */
  function RemoveFirstByName(heap: seq<State>, hs: seq<Handle>, name: string): (r: seq<Handle>)
    requires Live(heap, hs)
    ensures Live(heap, r)
    ensures Find(heap, hs, name).None? ==> r == hs
    ensures Find(heap, hs, name).Some? ==>
      |r| == |hs| - 1 && multiset(r) + multiset{Find(heap, hs, name).value} == multiset(hs)
    ensures Find(heap, hs, name).Some? ==>
      var k := FirstIndex(heap, hs, Named(name)); 0 <= k && r == hs[..k] + hs[k + 1..]
  {
    var k := FirstIndex(heap, hs, Named(name));
    if k < 0 then hs
    else
      assert hs == hs[..k] + [hs[k]] + hs[k + 1..];
      hs[..k] + hs[k + 1..]
  }

  /** The number of listed states with this name. */
  function CountNamed(heap: seq<State>, hs: seq<Handle>, name: string): nat
    requires Live(heap, hs)
  {
    if hs == [] then 0
    else (if heap[hs[0]].name == name then 1 else 0) + CountNamed(heap, hs[1..], name)
  }

  lemma {:induction false} CountNamedSplit(heap: seq<State>, a: seq<Handle>, b: seq<Handle>, name: string)
    requires Live(heap, a) && Live(heap, b)
    ensures CountNamed(heap, a + b, name) == CountNamed(heap, a, name) + CountNamed(heap, b, name)
  {
    if a == [] {
      assert a + b == b;
    } else {
      assert (a + b)[0] == a[0];
      assert (a + b)[1..] == a[1..] + b;
      CountNamedSplit(heap, a[1..], b, name);
    }
  }

  lemma {:induction false} CountNamedZero(heap: seq<State>, hs: seq<Handle>, name: string)
    requires Live(heap, hs)
    ensures CountNamed(heap, hs, name) == 0 <==> forall j :: 0 <= j < |hs| ==> heap[hs[j]].name != name
  {
    if hs != [] {
      CountNamedZero(heap, hs[1..], name);
      assert forall j :: 1 <= j < |hs| ==> hs[j] == hs[1..][j - 1];
    }
  }

  /** Removing by name takes exactly one state of that name off the list, if
      there is one. */
  lemma RemoveFirstByNameCount(heap: seq<State>, hs: seq<Handle>, name: string)
    requires Live(heap, hs)
    ensures var r := RemoveFirstByName(heap, hs, name);
      CountNamed(heap, r, name) == if CountNamed(heap, hs, name) == 0 then 0 else CountNamed(heap, hs, name) - 1
  {
    var k := FirstIndex(heap, hs, Named(name));
    if k < 0 {
      CountNamedZero(heap, hs, name);
    } else {
      var a, b := hs[..k], hs[k + 1..];
      assert CountNamed(heap, a, name) == 0 by {
        assert forall j :: 0 <= j < |a| ==> a[j] == hs[j];
        CountNamedZero(heap, a, name);
      }
      assert CountNamed(heap, hs, name) == CountNamed(heap, b, name) + 1 by {
        assert hs == a + ([hs[k]] + b);
        CountNamedSplit(heap, a, [hs[k]] + b, name);
      }
      assert CountNamed(heap, a + b, name) == CountNamed(heap, b, name) by {
        CountNamedSplit(heap, a, b, name);
      }
    }
  }

  /** So when at most one listed state carries the name (as with unique
      names), no state of that name is left. */
  lemma RemoveFirstByNameClears(heap: seq<State>, hs: seq<Handle>, name: string)
    requires Live(heap, hs) && CountNamed(heap, hs, name) <= 1
    ensures var r := RemoveFirstByName(heap, hs, name);
      forall j :: 0 <= j < |r| ==> heap[r[j]].name != name
  {
    RemoveFirstByNameCount(heap, hs, name);
    CountNamedZero(heap, RemoveFirstByName(heap, hs, name), name);
  }

  /** Removing one element keeps a list free of repetitions. */
  lemma RemoveFirstByNameKeepsDistinct(heap: seq<State>, hs: seq<Handle>, name: string)
    requires Live(heap, hs) && Distinct(hs)
    ensures Distinct(RemoveFirstByName(heap, hs, name))
  {
    var k := FirstIndex(heap, hs, Named(name));
    if k >= 0 {
      DropKeepsDistinct(hs, k);
    }
  }

  lemma DropKeepsDistinct(hs: seq<Handle>, k: nat)
    requires Distinct(hs) && k < |hs|
    ensures Distinct(hs[..k] + hs[k + 1..])
  {
    var r := hs[..k] + hs[k + 1..];
    forall i, j | 0 <= i < j < |r| ensures r[i] != r[j] {
      var i' := if i < k then i else i + 1;
      var j' := if j < k then j else j + 1;
      assert r[i] == hs[i'] && r[j] == hs[j'] && i' < j';
    }
  }

  /** Extending a prefix of a list by one element adds exactly that element. */
  lemma PrefixGrows(hs: seq<Handle>, s: nat)
    requires s < |hs|
    ensures forall k :: k in hs[..s + 1] <==> k in hs[..s] || k == hs[s]
  {
    assert hs[..s + 1] == hs[..s] + [hs[s]];
  }

  /** Two arenas whose states carry the same names, position by position:
      what an edit of groups or transitions leaves. */
  predicate SameNames(a: seq<State>, b: seq<State>) {
    |a| == |b| && forall i :: 0 <= i < |a| ==> a[i].name == b[i].name
  }

  lemma {:induction false} SameNamesFirstIndex(a: seq<State>, b: seq<State>, hs: seq<Handle>, name: string)
    requires SameNames(a, b) && Live(a, hs)
    ensures Live(b, hs) && FirstIndex(a, hs, Named(name)) == FirstIndex(b, hs, Named(name))
  {
    if hs != [] {
      SameNamesFirstIndex(a, b, hs[1..], name);
    }
  }

  /** Searching and removing by name only look at names. */
  lemma SameNamesRemove(a: seq<State>, b: seq<State>, hs: seq<Handle>, name: string)
    requires SameNames(a, b) && Live(a, hs)
    ensures Live(b, hs)
    ensures Find(a, hs, name) == Find(b, hs, name)
    ensures RemoveFirstByName(a, hs, name) == RemoveFirstByName(b, hs, name)
  {
    SameNamesFirstIndex(a, b, hs, name);
  }

  lemma {:induction false} SameNamesCount(a: seq<State>, b: seq<State>, hs: seq<Handle>, name: string)
    requires SameNames(a, b) && Live(a, hs)
    ensures Live(b, hs) && CountNamed(a, hs, name) == CountNamed(b, hs, name)
  {
    if hs != [] {
      SameNamesCount(a, b, hs[1..], name);
    }
  }

  // ---------------------------------------------------------------
  // Sort by name
  // ---------------------------------------------------------------

  /** Ascending by name under ordinal comparison. */
  predicate SortedByName(heap: seq<State>, hs: seq<Handle>)
    requires Live(heap, hs)
  {
    forall i, j :: 0 <= i < j < |hs| ==> NameLe(heap[hs[i]].name, heap[hs[j]].name)
  }

  /** Inserts `h` into a list before the first state whose name is greater
      than its own. */
  function InsertByName(heap: seq<State>, hs: seq<Handle>, h: Handle): (r: seq<Handle>)
    requires Live(heap, hs) && h < |heap|
    ensures Live(heap, r)
    ensures multiset(r) == multiset(hs) + multiset{h}
    ensures |r| == |hs| + 1
  {
    if hs == [] then [h]
    else if !NameLe(heap[hs[0]].name, heap[h].name) then [h] + hs
    else
      assert hs == [hs[0]] + hs[1..];
      [hs[0]] + InsertByName(heap, hs[1..], h)
  }

  /** A name not greater than every name of a sorted list can go in front. */
  lemma ConsSorted(heap: seq<State>, x: Handle, hs: seq<Handle>)
    requires Live(heap, hs) && x < |heap| && SortedByName(heap, hs)
    requires forall j :: 0 <= j < |hs| ==> NameLe(heap[x].name, heap[hs[j]].name)
    ensures Live(heap, [x] + hs) && SortedByName(heap, [x] + hs)
  {
    var r := [x] + hs;
    forall i, j | 0 <= i < j < |r| ensures NameLe(heap[r[i]].name, heap[r[j]].name) {
      assert r[j] == hs[j - 1];
      if i > 0 { assert r[i] == hs[i - 1]; }
    }
  }

  /** Insertion keeps a lower bound common to the list and the new state. */
  lemma {:induction false} InsertByNameBounded(heap: seq<State>, hs: seq<Handle>, h: Handle, lo: string)
    requires Live(heap, hs) && h < |heap| && NameLe(lo, heap[h].name)
    requires forall j :: 0 <= j < |hs| ==> NameLe(lo, heap[hs[j]].name)
    ensures forall j :: 0 <= j < |InsertByName(heap, hs, h)| ==> NameLe(lo, heap[InsertByName(heap, hs, h)[j]].name)
  {
    if hs != [] && NameLe(heap[hs[0]].name, heap[h].name) {
      assert forall j :: 0 <= j < |hs[1..]| ==> hs[1..][j] == hs[j + 1];
      InsertByNameBounded(heap, hs[1..], h, lo);
      var rest := InsertByName(heap, hs[1..], h);
      var r := InsertByName(heap, hs, h);
      assert r == [hs[0]] + rest;
      forall j | 0 <= j < |r| ensures NameLe(lo, heap[r[j]].name) {
        if j > 0 { assert r[j] == rest[j - 1]; } else { assert r[0] == hs[0]; }
      }
    }
  }

  /** Inserting into a sorted list keeps it sorted. */
  lemma {:induction false} InsertByNameSorted(heap: seq<State>, hs: seq<Handle>, h: Handle)
    requires Live(heap, hs) && h < |heap| && SortedByName(heap, hs)
    ensures SortedByName(heap, InsertByName(heap, hs, h))
  {
    if hs == [] {
    } else if !NameLe(heap[hs[0]].name, heap[h].name) {
      NameLeTotal(heap[hs[0]].name, heap[h].name);
      forall j | 0 <= j < |hs| ensures NameLe(heap[h].name, heap[hs[j]].name) {
        if j > 0 { NameLeTransitive(heap[h].name, heap[hs[0]].name, heap[hs[j]].name); }
      }
      ConsSorted(heap, h, hs);
    } else {
      InsertByNameSorted(heap, hs[1..], h);
      forall j | 0 <= j < |hs[1..]| ensures NameLe(heap[hs[0]].name, heap[hs[1..][j]].name) {
        assert hs[1..][j] == hs[j + 1];
      }
      InsertByNameBounded(heap, hs[1..], h, heap[hs[0]].name);
      var rest := InsertByName(heap, hs[1..], h);
      assert forall j :: 0 <= j < |rest| ==> NameLe(heap[hs[0]].name, heap[rest[j]].name);
      ConsSorted(heap, hs[0], rest);
    }
  }

  /** Sortedness by name only looks at names. */
  lemma SameNamesSorted(a: seq<State>, b: seq<State>, hs: seq<Handle>)
    requires SameNames(a, b) && Live(a, hs) && SortedByName(a, hs)
    ensures Live(b, hs) && SortedByName(b, hs)
  {
    assert forall k :: 0 <= k < |hs| ==> a[hs[k]].name == b[hs[k]].name;
  }

  /** `List.Sort` by name, as an insertion sort that keeps equal names in
      their original order. */
  function SortByName(heap: seq<State>, hs: seq<Handle>): (r: seq<Handle>)
    requires Live(heap, hs)
    ensures Live(heap, r) && SortedByName(heap, r)
    ensures multiset(r) == multiset(hs) && |r| == |hs|
  {
    if hs == [] then []
    else
      var sorted := SortByName(heap, hs[..|hs| - 1]);
      assert hs == hs[..|hs| - 1] + [hs[|hs| - 1]];
      InsertByNameSorted(heap, sorted, hs[|hs| - 1]);
      InsertByName(heap, sorted, hs[|hs| - 1])
  }

  /** A list with the same elements as a list without repetitions has none. */
  lemma PermutationKeepsDistinct(a: seq<Handle>, b: seq<Handle>)
    requires Distinct(a) && multiset(a) == multiset(b)
    ensures Distinct(b)
  {
    forall i, j | 0 <= i < j < |b| ensures b[i] != b[j] {
      if b[i] == b[j] {
        var x := b[i];
        assert multiset(b)[x] >= 2 by {
          assert b == b[..i] + [x] + b[i + 1..j] + [x] + b[j + 1..];
        }
        DistinctCount(a, x);
      }
    }
  }

  lemma {:induction false} DistinctCount(a: seq<Handle>, x: Handle)
    requires Distinct(a)
    ensures multiset(a)[x] <= 1
  {
    if a != [] {
      assert a == [a[0]] + a[1..];
      DistinctCount(a[1..], x);
      if a[0] == x {
        assert x !in a[1..];
      }
    }
  }

  // ---------------------------------------------------------------
  // Reordering inside a group
  // ---------------------------------------------------------------

  /** The list with the states of `group`, in order, replaced one by one by
      the states of `gs`: the effect of the write-back loop of the move up and
      move down buttons. */
  function Regroup(heap: seq<State>, hs: seq<Handle>, group: string, gs: seq<Handle>): (r: seq<Handle>)
    requires Live(heap, hs)
    requires |gs| == |Filter(heap, hs, InGroup(group))|
    ensures |r| == |hs|
  {
    if hs == [] then []
    else if heap[hs[0]].group == group then [gs[0]] + Regroup(heap, hs[1..], group, gs[1..])
    else [hs[0]] + Regroup(heap, hs[1..], group, gs)
  }

  /** The first step of `Filter` on a non-empty list. */
  lemma FilterCons(heap: seq<State>, hs: seq<Handle>, p: Match)
    requires Live(heap, hs) && hs != []
    ensures Filter(heap, hs, p) ==
      if Matches(p, heap[hs[0]]) then [hs[0]] + Filter(heap, hs[1..], p) else Filter(heap, hs[1..], p)
  {
  }

  /** Writing the group back leaves every position outside the group alone. */
  lemma {:induction false} RegroupKeepsOthers(heap: seq<State>, hs: seq<Handle>, group: string, gs: seq<Handle>)
    requires Live(heap, hs)
    requires |gs| == |Filter(heap, hs, InGroup(group))|
    ensures var r := Regroup(heap, hs, group, gs);
      forall i :: 0 <= i < |hs| && heap[hs[i]].group != group ==> r[i] == hs[i]
  {
    if hs != [] {
      FilterCons(heap, hs, InGroup(group));
      if heap[hs[0]].group == group {
        RegroupKeepsOthers(heap, hs[1..], group, gs[1..]);
      } else {
        RegroupKeepsOthers(heap, hs[1..], group, gs);
      }
      var r := Regroup(heap, hs, group, gs);
      forall i | 1 <= i < |hs| && heap[hs[i]].group != group ensures r[i] == hs[i] {
        assert hs[i] == hs[1..][i - 1];
      }
    }
  }

  /** Writing the group back keeps every state outside the group and puts
    in exactly the states of `gs`. */
  lemma {:induction false} RegroupPermutes(heap: seq<State>, hs: seq<Handle>, group: string, gs: seq<Handle>)
    requires Live(heap, hs)
    requires |gs| == |Filter(heap, hs, InGroup(group))|
    ensures multiset(Regroup(heap, hs, group, gs)) == multiset(Filter(heap, hs, NotInGroup(group))) + multiset(gs)
  {
    if hs == [] {
      assert gs == [];
    } else {
      FilterCons(heap, hs, InGroup(group));
      FilterCons(heap, hs, NotInGroup(group));
      var rest := Filter(heap, hs[1..], NotInGroup(group));
      if heap[hs[0]].group == group {
        RegroupPermutes(heap, hs[1..], group, gs[1..]);
        ConsMultiset(gs[0], Regroup(heap, hs[1..], group, gs[1..]), rest, gs[1..]);
        assert gs == [gs[0]] + gs[1..];
      } else {
        RegroupPermutes(heap, hs[1..], group, gs);
        ConsMultiset(hs[0], Regroup(heap, hs[1..], group, gs), rest, gs);
      }
    }
  }

  /** Putting one more element in front adds it to either side of a union. */
  lemma ConsMultiset(x: Handle, r: seq<Handle>, a: seq<Handle>, b: seq<Handle>)
    requires multiset(r) == multiset(a) + multiset(b)
    ensures multiset([x] + r) == multiset(a) + multiset([x] + b)
    ensures multiset([x] + r) == multiset([x] + a) + multiset(b)
  {
  }

  /** A list is the union of its states inside and outside a group. */
  lemma {:induction false} FilterSplits(heap: seq<State>, hs: seq<Handle>, group: string)
    requires Live(heap, hs)
    ensures multiset(hs) == multiset(Filter(heap, hs, InGroup(group))) + multiset(Filter(heap, hs, NotInGroup(group)))
  {
    if hs != [] {
      FilterCons(heap, hs, InGroup(group));
      FilterCons(heap, hs, NotInGroup(group));
      FilterSplits(heap, hs[1..], group);
      assert hs == [hs[0]] + hs[1..];
    }
  }

  /** Filtering distributes over concatenation. */
  lemma {:induction false} FilterAppend(heap: seq<State>, a: seq<Handle>, b: seq<Handle>, p: Match)
    requires Live(heap, a) && Live(heap, b)
    ensures Live(heap, a + b)
    ensures Filter(heap, a + b, p) == Filter(heap, a, p) + Filter(heap, b, p)
  {
    if a == [] {
      assert a + b == b;
    } else {
      assert (a + b)[1..] == a[1..] + b;
      FilterAppend(heap, a[1..], b, p);
      FilterCons(heap, a + b, p);
      FilterCons(heap, a, p);
    }
  }

  /** Writing a group back into `a + [x]` writes the first states of `gs`
      into `a` and, when `x` is in the group, the last one in place of `x`:
      the step of the write-back loop. */
  lemma {:induction false} RegroupSnoc(heap: seq<State>, a: seq<Handle>, x: Handle, group: string, gs: seq<Handle>, n: nat)
    requires Live(heap, a) && x < |heap| && n == |Filter(heap, a, InGroup(group))|
    requires |gs| == n + if heap[x].group == group then 1 else 0
    ensures Live(heap, a + [x]) && |gs| == |Filter(heap, a + [x], InGroup(group))|
    ensures Regroup(heap, a + [x], group, gs) ==
      Regroup(heap, a, group, gs[..n]) + [if heap[x].group == group then gs[n] else x]
  {
    FilterAppend(heap, a, [x], InGroup(group));
    FilterCons(heap, [x], InGroup(group));
    if a == [] {
      assert a + [x] == [x];
    } else {
      assert (a + [x])[0] == a[0];
      assert (a + [x])[1..] == a[1..] + [x];
      FilterCons(heap, a, InGroup(group));
      if heap[a[0]].group == group {
        RegroupSnoc(heap, a[1..], x, group, gs[1..], n - 1);
        assert gs[..n][1..] == gs[1..][..n - 1];
      } else {
        RegroupSnoc(heap, a[1..], x, group, gs, n);
      }
    }
  }

  /** After the write-back the group, read in list order, is exactly `gs`
      (when `gs` holds states of that group). */
  lemma {:induction false} RegroupFilter(heap: seq<State>, hs: seq<Handle>, group: string, gs: seq<Handle>)
    requires Live(heap, hs) && Live(heap, gs)
    requires |gs| == |Filter(heap, hs, InGroup(group))|
    requires forall j :: 0 <= j < |gs| ==> heap[gs[j]].group == group
    ensures Live(heap, Regroup(heap, hs, group, gs))
    ensures Filter(heap, Regroup(heap, hs, group, gs), InGroup(group)) == gs
  {
    if hs == [] {
    } else {
      FilterCons(heap, hs, InGroup(group));
      if heap[hs[0]].group == group {
        assert forall j :: 0 <= j < |gs[1..]| ==> gs[1..][j] == gs[j + 1];
        RegroupFilter(heap, hs[1..], group, gs[1..]);
        var r := Regroup(heap, hs, group, gs);
        FilterCons(heap, r, InGroup(group));
        assert r[1..] == Regroup(heap, hs[1..], group, gs[1..]);
        assert gs == [gs[0]] + gs[1..];
      } else {
        RegroupFilter(heap, hs[1..], group, gs);
        var r := Regroup(heap, hs, group, gs);
        FilterCons(heap, r, InGroup(group));
        assert r[1..] == Regroup(heap, hs[1..], group, gs);
      }
    }
  }

  /** Exchanges two positions of a list. */
  function Swap(s: seq<Handle>, i: nat, j: nat): (r: seq<Handle>)
    requires i < |s| && j < |s|
    ensures |r| == |s| && r[i] == s[j] && r[j] == s[i]
    ensures forall k :: 0 <= k < |s| && k != i && k != j ==> r[k] == s[k]
    ensures multiset(r) == multiset(s)
  {
    s[i := s[j]][j := s[i]]
  }

  /** Swapping two states of a group and writing the group back keeps the
      same states in the list. */
  lemma MovePermutes(heap: seq<State>, hs: seq<Handle>, group: string, i: nat, j: nat)
    requires Live(heap, hs)
    requires i < |Filter(heap, hs, InGroup(group))| && j < |Filter(heap, hs, InGroup(group))|
    ensures multiset(Regroup(heap, hs, group, Swap(Filter(heap, hs, InGroup(group)), i, j))) == multiset(hs)
  {
    var gs := Filter(heap, hs, InGroup(group));
    RegroupPermutes(heap, hs, group, Swap(gs, i, j));
    FilterSplits(heap, hs, group);
  }

  /** After the swap the group reads, in list order, as the swapped group,
      and every position outside the group is unchanged. */
  lemma MoveReordersGroup(heap: seq<State>, hs: seq<Handle>, group: string, i: nat, j: nat)
    requires Live(heap, hs)
    requires i < |Filter(heap, hs, InGroup(group))| && j < |Filter(heap, hs, InGroup(group))|
    ensures Live(heap, Regroup(heap, hs, group, Swap(Filter(heap, hs, InGroup(group)), i, j)))
    ensures Filter(heap, Regroup(heap, hs, group, Swap(Filter(heap, hs, InGroup(group)), i, j)), InGroup(group))
      == Swap(Filter(heap, hs, InGroup(group)), i, j)
    ensures forall k :: 0 <= k < |hs| && heap[hs[k]].group != group ==>
      Regroup(heap, hs, group, Swap(Filter(heap, hs, InGroup(group)), i, j))[k] == hs[k]
  {
    var gs := Filter(heap, hs, InGroup(group));
    var sw := Swap(gs, i, j);
    FilterMembers(heap, hs, InGroup(group));
    assert forall k :: 0 <= k < |gs| ==> gs[k] in gs;
    assert forall k :: 0 <= k < |sw| ==> sw[k] in gs;
    RegroupFilter(heap, hs, group, sw);
    RegroupKeepsOthers(heap, hs, group, sw);
  }

  // ---------------------------------------------------------------
  // Lists of group names
  // ---------------------------------------------------------------

  /** `List<string>.IndexOf`. */
  function IndexOfString(xs: seq<string>, x: string): (r: int)
    ensures -1 <= r < |xs|
    ensures r >= 0 ==> xs[r] == x && x !in xs[..r]
    ensures r == -1 <==> x !in xs
  {
    if xs == [] then -1
    else if xs[0] == x then 0
    else
      var k := IndexOfString(xs[1..], x);
      assert k >= 0 ==> xs[1..][..k] == xs[1..k + 1];
      if k < 0 then -1 else k + 1
  }

  /** `List<string>.Remove`: drops the first occurrence. */
  function RemoveString(xs: seq<string>, x: string): (r: seq<string>)
    ensures x !in xs ==> r == xs
    ensures x in xs ==> |r| == |xs| - 1 && multiset(r) + multiset{x} == multiset(xs)
    ensures x in xs ==> r == xs[..IndexOfString(xs, x)] + xs[IndexOfString(xs, x) + 1..]
  {
    var k := IndexOfString(xs, x);
    if k < 0 then xs
    else
      assert xs == xs[..k] + [xs[k]] + xs[k + 1..];
      xs[..k] + xs[k + 1..]
  }
}
