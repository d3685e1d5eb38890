/**
 * Enumerable.GroupBy as the orchestrator uses it: groups come out in the
 * order their keys first occur, and each group keeps its elements in input
 * order. GroupBy builds the groups one element at a time, as a LINQ lookup
 * does; ReferenceGroups states the intended result directly (one group per
 * distinct key, holding the order-preserving filter of the input), and
 * GroupByIsReference proves the two equal.
 */
module Grouping {
  import opened Wrappers

  datatype Group<T> = Group(key: string, items: seq<T>)

  function IndexOfKey<T>(gs: seq<Group<T>>, k: string): (r: Option<nat>)
    ensures r.None? <==> forall i :: 0 <= i < |gs| ==> gs[i].key != k
    ensures r.Some? ==> r.value < |gs| && gs[r.value].key == k
  {
    if gs == [] then None
    else if gs[0].key == k then Some(0)
    else match IndexOfKey(gs[1..], k)
      case None => None
      case Some(i) => Some(i + 1)
  }

  /** One element into the lookup: appended to the group of its key, or
      opening a new group at the end. */
  function AddToGroups<T>(gs: seq<Group<T>>, k: string, x: T): seq<Group<T>>
  {
    match IndexOfKey(gs, k)
    case None => gs + [Group(k, [x])]
    case Some(i) => gs[i := Group(k, gs[i].items + [x])]
  }

  /** Enumerable.GroupBy(key), in the lookup's one-pass form. */
  function GroupBy<T>(xs: seq<T>, key: T -> string): seq<Group<T>>
    decreases |xs|
  {
    if xs == [] then []
    else AddToGroups(GroupBy(xs[..|xs| - 1], key), key(xs[|xs| - 1]), xs[|xs| - 1])
  }

  /** The distinct keys of `xs` in the order of their first occurrence. */
  function FirstKeys<T>(xs: seq<T>, key: T -> string): (r: seq<string>)
    ensures forall k :: k in r <==> exists j :: 0 <= j < |xs| && key(xs[j]) == k
    ensures forall a, b :: 0 <= a < b < |r| ==> r[a] != r[b]
    decreases |xs|
  {
    if xs == [] then []
    else
      var prefix := FirstKeys(xs[..|xs| - 1], key);
      var k := key(xs[|xs| - 1]);
      assert forall j :: 0 <= j < |xs| - 1 ==> xs[..|xs| - 1][j] == xs[j];
      if k in prefix then prefix else prefix + [k]
  }

  /** The elements of `xs` whose key is `k`, in input order. */
  function Filter<T>(xs: seq<T>, key: T -> string, k: string): (r: seq<T>)
    ensures forall t :: 0 <= t < |r| ==> key(r[t]) == k
    ensures (forall j :: 0 <= j < |xs| ==> key(xs[j]) != k) ==> r == []
    decreases |xs|
  {
    if xs == [] then []
    else
      var rest := Filter(xs[..|xs| - 1], key, k);
      assert forall j :: 0 <= j < |xs| - 1 ==> xs[..|xs| - 1][j] == xs[j];
      if key(xs[|xs| - 1]) == k then rest + [xs[|xs| - 1]] else rest
  }

  /** One group per distinct key, in first-occurrence order, each holding
      the input-ordered elements of its key. */
  function ReferenceGroups<T>(xs: seq<T>, key: T -> string): (r: seq<Group<T>>)
    ensures |r| == |FirstKeys(xs, key)|
  {
    var ks := FirstKeys(xs, key);
    seq(|ks|, i requires 0 <= i < |ks| => Group(ks[i], Filter(xs, key, ks[i])))
  }

  /** The set of keys occurring in `xs`. */
  function KeySet<T>(xs: seq<T>, key: T -> string): set<string>
  {
    set j | 0 <= j < |xs| :: key(xs[j])
  }

  function TotalSize<T>(gs: seq<Group<T>>): nat
  {
    if gs == [] then 0 else |gs[0].items| + TotalSize(gs[1..])
  }

  /** The one-pass grouping computes exactly the reference groups. */
  lemma {:induction false} GroupByIsReference<T>(xs: seq<T>, key: T -> string)
    ensures GroupBy(xs, key) == ReferenceGroups(xs, key)
    decreases |xs|
  {
    if xs != [] {
      var xs', x := xs[..|xs| - 1], xs[|xs| - 1];
      assert xs == xs' + [x];
      GroupByIsReference(xs', key);
      var before := ReferenceGroups(xs', key);
      match IndexOfKey(before, key(x))
      case None =>
        var ks := FirstKeys(xs', key);
        forall t | 0 <= t < |ks| ensures ks[t] != key(x) {
          assert before[t].key == ks[t];
        }
        ReferenceNewKey(xs', x, key);
      case Some(i) =>
        ReferenceKnownKey(xs', x, key, i);
    }
  }

  lemma ReferenceNewKey<T>(xs: seq<T>, x: T, key: T -> string)
    requires key(x) !in FirstKeys(xs, key)
    ensures ReferenceGroups(xs + [x], key) == ReferenceGroups(xs, key) + [Group(key(x), [x])]
  {
    var ys := xs + [x];
    assert ys[..|ys| - 1] == xs;
    var ks, ks' := FirstKeys(xs, key), FirstKeys(ys, key);
    assert ks' == ks + [key(x)];
    var before, after := ReferenceGroups(xs, key), ReferenceGroups(ys, key);
    assert Filter(xs, key, key(x)) == [];
    assert after[|before|] == Group(key(x), [x]);
    forall t | 0 <= t < |before| ensures after[t] == before[t] {
      assert ks'[t] == ks[t] && ks[t] != key(x);
    }
  }

  lemma ReferenceKnownKey<T>(xs: seq<T>, x: T, key: T -> string, i: nat)
    requires i < |FirstKeys(xs, key)| && FirstKeys(xs, key)[i] == key(x)
    ensures ReferenceGroups(xs + [x], key) ==
      ReferenceGroups(xs, key)[i := Group(key(x), ReferenceGroups(xs, key)[i].items + [x])]
  {
    var ys := xs + [x];
    assert ys[..|ys| - 1] == xs;
    var ks := FirstKeys(xs, key);
    assert key(x) in ks;
    assert FirstKeys(ys, key) == ks;
    var before, after := ReferenceGroups(xs, key), ReferenceGroups(ys, key);
    forall t | 0 <= t < |before| && t != i ensures after[t] == before[t] {
      assert ks[t] != key(x);
    }
  }

  /** Group keys are pairwise distinct. */
  lemma GroupKeysDistinct<T>(xs: seq<T>, key: T -> string)
    ensures forall a, b :: 0 <= a < b < |GroupBy(xs, key)| ==> GroupBy(xs, key)[a].key != GroupBy(xs, key)[b].key
  {
    GroupByIsReference(xs, key);
  }

  /** Every element's key is the key of a group, and every element of a
      group has that group's key. */
  lemma ElementsInTheirGroup<T>(xs: seq<T>, key: T -> string)
    ensures forall j :: 0 <= j < |xs| ==> exists a :: 0 <= a < |GroupBy(xs, key)| && GroupBy(xs, key)[a].key == key(xs[j])
    ensures forall a, t :: 0 <= a < |GroupBy(xs, key)| && 0 <= t < |GroupBy(xs, key)[a].items| ==>
      key(GroupBy(xs, key)[a].items[t]) == GroupBy(xs, key)[a].key
  {
    GroupByIsReference(xs, key);
    var ks := FirstKeys(xs, key);
    forall j | 0 <= j < |xs|
      ensures exists a :: 0 <= a < |GroupBy(xs, key)| && GroupBy(xs, key)[a].key == key(xs[j])
    {
      assert key(xs[j]) in ks;
      var a :| 0 <= a < |ks| && ks[a] == key(xs[j]);
      assert GroupBy(xs, key)[a].key == key(xs[j]);
    }
  }

  lemma {:induction false} SizeAfterUpdate<T>(gs: seq<Group<T>>, i: nat, g: Group<T>)
    requires i < |gs|
    ensures TotalSize(gs[i := g]) + |gs[i].items| == TotalSize(gs) + |g.items|
  {
    if i > 0 {
      assert gs[i := g][1..] == gs[1..][i - 1 := g];
      SizeAfterUpdate(gs[1..], i - 1, g);
    }
  }

  lemma {:induction false} SizeOfAppend<T>(gs: seq<Group<T>>, g: Group<T>)
    ensures TotalSize(gs + [g]) == TotalSize(gs) + |g.items|
  {
    if gs != [] {
      assert (gs + [g])[1..] == gs[1..] + [g];
      SizeOfAppend(gs[1..], g);
    } else {
      assert [g][1..] == [];
    }
  }

  /** An element is kept by the filter of its own key. */
  lemma {:induction false} FilterKeeps<T>(xs: seq<T>, key: T -> string, j: nat)
    requires j < |xs|
    ensures xs[j] in Filter(xs, key, key(xs[j]))
    decreases |xs|
  {
    if j < |xs| - 1 {
      var xs' := xs[..|xs| - 1];
      assert xs'[j] == xs[j];
      FilterKeeps(xs', key, j);
    }
  }

  /** Every element lands in the group of its key, and in no group of
      another key; as group keys are distinct, that is exactly one group. */
  lemma EveryElementInItsGroup<T>(xs: seq<T>, key: T -> string, j: nat)
    requires j < |xs|
    ensures exists a :: 0 <= a < |GroupBy(xs, key)| && GroupBy(xs, key)[a].key == key(xs[j])
                        && xs[j] in GroupBy(xs, key)[a].items
    ensures forall a :: 0 <= a < |GroupBy(xs, key)| && xs[j] in GroupBy(xs, key)[a].items ==>
                        GroupBy(xs, key)[a].key == key(xs[j])
  {
    GroupByIsReference(xs, key);
    var ks := FirstKeys(xs, key);
    assert key(xs[j]) in ks;
    var a :| 0 <= a < |ks| && ks[a] == key(xs[j]);
    FilterKeeps(xs, key, j);
    assert GroupBy(xs, key)[a].items == Filter(xs, key, key(xs[j]));
  }

  /** The groups hold |xs| elements in all. */
  lemma {:induction false} GroupsCoverInput<T>(xs: seq<T>, key: T -> string)
    ensures TotalSize(GroupBy(xs, key)) == |xs|
    decreases |xs|
  {
    if xs != [] {
      var xs', x := xs[..|xs| - 1], xs[|xs| - 1];
      GroupsCoverInput(xs', key);
      var gs := GroupBy(xs', key);
      match IndexOfKey(gs, key(x))
      case None => SizeOfAppend(gs, Group(key(x), [x]));
      case Some(i) => SizeAfterUpdate(gs, i, Group(key(x), gs[i].items + [x]));
    }
  }

  lemma {:induction false} DistinctCardinality(s: seq<string>)
    requires forall a, b :: 0 <= a < b < |s| ==> s[a] != s[b]
    ensures |set k | k in s| == |s|
  {
    if s != [] {
      var rest := s[..|s| - 1];
      DistinctCardinality(rest);
      assert (set k | k in s) == (set k | k in rest) + {s[|s| - 1]};
      assert s[|s| - 1] !in rest;
    }
  }

  /** There is one group per distinct key of the input. */
  lemma OneGroupPerKey<T>(xs: seq<T>, key: T -> string)
    ensures |GroupBy(xs, key)| == |KeySet(xs, key)|
  {
    GroupByIsReference(xs, key);
    var ks := FirstKeys(xs, key);
    DistinctCardinality(ks);
    assert (set k | k in ks) == KeySet(xs, key);
  }

  /** Groups appear in first-occurrence order: every element keyed like a
      later group is preceded in the input by an element keyed like an
      earlier group. */
  lemma {:induction false} KeysInFirstOccurrenceOrder<T>(xs: seq<T>, key: T -> string)
    ensures forall a, b, q :: 0 <= a < b < |FirstKeys(xs, key)| && 0 <= q < |xs| && key(xs[q]) == FirstKeys(xs, key)[b] ==>
      exists p :: 0 <= p < q && key(xs[p]) == FirstKeys(xs, key)[a]
  {
    forall a, b, q | 0 <= a < b < |FirstKeys(xs, key)| && 0 <= q < |xs| && key(xs[q]) == FirstKeys(xs, key)[b]
      ensures exists p :: 0 <= p < q && key(xs[p]) == FirstKeys(xs, key)[a]
    {
      KeyOrderAt(xs, key, a, b, q);
    }
    assert forall a, b, q :: 0 <= a < b < |FirstKeys(xs, key)| && 0 <= q < |xs| && key(xs[q]) == FirstKeys(xs, key)[b] ==>
      exists p :: 0 <= p < q && key(xs[p]) == FirstKeys(xs, key)[a];
  }

  /** One instance of the statement above, by induction on the input. */
  lemma {:induction false} KeyOrderAt<T>(xs: seq<T>, key: T -> string, a: nat, b: nat, q: nat)
    requires a < b < |FirstKeys(xs, key)| && q < |xs| && key(xs[q]) == FirstKeys(xs, key)[b]
    ensures exists p :: 0 <= p < q && key(xs[p]) == FirstKeys(xs, key)[a]
    decreases |xs|
  {
    var xs', x := xs[..|xs| - 1], xs[|xs| - 1];
    var ks', ks := FirstKeys(xs', key), FirstKeys(xs, key);
    assert ks == if key(x) in ks' then ks' else ks' + [key(x)];
    assert ks[a] == ks'[a];
    if b < |ks'| {
      assert ks[b] == ks'[b];
      if q < |xs'| {
        assert key(xs'[q]) == ks'[b];
        KeyOrderAt(xs', key, a, b, q);
        var p :| 0 <= p < q && key(xs'[p]) == ks'[a];
        assert xs[p] == xs'[p];
      } else {
        assert ks'[b] in ks';
        var q' :| 0 <= q' < |xs'| && key(xs'[q']) == ks'[b];
        KeyOrderAt(xs', key, a, b, q');
        var p :| 0 <= p < q' && key(xs'[p]) == ks'[a];
        assert xs[p] == xs'[p];
      }
    } else {
      assert ks[b] == key(x) && key(x) !in ks';
      assert q == |xs'|;
      assert ks'[a] in ks';
      var p :| 0 <= p < |xs'| && key(xs'[p]) == ks'[a];
      assert xs[p] == xs'[p];
    }
  }

  /** The same statement for the groups GroupBy returns. */
  lemma GroupsInFirstOccurrenceOrder<T>(xs: seq<T>, key: T -> string)
    ensures forall a, b, q :: 0 <= a < b < |GroupBy(xs, key)| && 0 <= q < |xs| && key(xs[q]) == GroupBy(xs, key)[b].key ==>
      exists p :: 0 <= p < q && key(xs[p]) == GroupBy(xs, key)[a].key
  {
    GroupByIsReference(xs, key);
    KeysInFirstOccurrenceOrder(xs, key);
  }
}
