/**
 The diff engine, `compare_state`: the ordered list of changes that turns one
 snapshot into the next.

 The first pass walks the earlier snapshot in key order and reports every key
 that vanished or whose value differs; the second walks the later snapshot in
 key order and reports every key the first pass did not see.
 */
module Compare {
  import opened KeyOrder
  import opened Optional
  import opened Snapshots

  /** One change to one key; a modification carries the new value. */
  datatype Change =
    | Added(key: string, value: string)
    | Removed(key: string)
    | Modified(key: string, value: string)

  /** What one entry of the earlier snapshot contributes to the first pass. */
  function EntryChange(e: Entry, current: seq<Entry>): seq<Change>
  {
    match Get(current, e.key)
    case None => [Removed(e.key)]
    case Some(cval) => if e.value != cval then [Modified(e.key, cval)] else []
  }

  /** The changes of the first pass over the entries `initial`, in their order. */
  function OldChanges(initial: seq<Entry>, current: seq<Entry>): (r: seq<Change>)
    ensures |r| <= |initial|
  {
    if initial == [] then []
    else OldChanges(initial[..|initial| - 1], current) + EntryChange(initial[|initial| - 1], current)
  }

  /** The changes of the second pass over the entries `current`: every key not in `seen` is added. */
  function NewChanges(current: seq<Entry>, seen: set<string>): (r: seq<Change>)
    ensures |r| <= |current|
  {
    if current == [] then []
    else
      var e := current[|current| - 1];
      NewChanges(current[..|current| - 1], seen) + (if e.key in seen then [] else [Added(e.key, e.value)])
  }

  /** The change list from snapshot `initial` to snapshot `current`. */
  function Diff(initial: seq<Entry>, current: seq<Entry>): (r: seq<Change>)
    ensures |r| <= |initial| + |current|
  {
    OldChanges(initial, current) + NewChanges(current, ToMap(initial).Keys)
  }

  /** `compare_state`: two passes that push onto a vector, with a set of the keys already seen. */
  method CompareState(initial: seq<Entry>, current: seq<Entry>) returns (changes: seq<Change>)
    ensures changes == Diff(initial, current)
  {
    changes := [];
    var seen: set<string> := {};
    for i := 0 to |initial|
      invariant seen == ToMap(initial[..i]).Keys
      invariant changes == OldChanges(initial[..i], current)
    {
      assert initial[..i + 1][..i] == initial[..i];
      assert OldChanges(initial[..i + 1], current) == OldChanges(initial[..i], current) + EntryChange(initial[i], current);
      var key, ival := initial[i].key, initial[i].value;
      seen := seen + {key};
      match Get(current, key)
      case None =>
        changes := changes + [Removed(key)];
      case Some(cval) =>
        if ival != cval {
          changes := changes + [Modified(key, cval)];
        }
    }
    assert initial[..|initial|] == initial;
    ghost var firstPass := changes;
    for i := 0 to |current|
      invariant changes == firstPass + NewChanges(current[..i], seen)
    {
      if current[i].key !in seen {
        changes := changes + [Added(current[i].key, current[i].value)];
      }
      assert current[..i + 1][..i] == current[..i];
    }
    assert current[..|current|] == current;
  }

  /** The effect of one change on a map of pairs. */
  function ApplyChange(m: map<string, string>, c: Change): map<string, string>
  {
    match c
    case Removed(k) => m - {k}
    case Added(k, v) => m[k := v]
    case Modified(k, v) => m[k := v]
  }

  /** The changes applied to `m` in list order. */
  function Apply(m: map<string, string>, d: seq<Change>): map<string, string>
  {
    if d == [] then m else ApplyChange(Apply(m, d[..|d| - 1]), d[|d| - 1])
  }

  /** Removals and modifications come before additions; within each group keys ascend. */
  function Rank(c: Change): nat
  {
    if c.Added? then 1 else 0
  }

  predicate InDiffOrder(d: seq<Change>)
  {
    forall p, q :: 0 <= p < q < |d| ==>
      Rank(d[p]) < Rank(d[q]) || (Rank(d[p]) == Rank(d[q]) && Below(d[p].key, d[q].key))
  }

  /** No key is the subject of two changes. */
  predicate KeysDistinct(d: seq<Change>)
  {
    forall p, q :: 0 <= p < q < |d| ==> d[p].key != d[q].key
  }

  /** Which removals and modifications the first pass reports. */
  lemma {:induction false} OldChangesMembers(initial: seq<Entry>, current: seq<Entry>, k: string, v: string)
    requires Sorted(initial)
    ensures Removed(k) in OldChanges(initial, current) <==> k in ToMap(initial) && k !in ToMap(current)
    ensures Modified(k, v) in OldChanges(initial, current) <==>
      k in ToMap(initial) && k in ToMap(current) && ToMap(initial)[k] != ToMap(current)[k] && v == ToMap(current)[k]
    ensures Added(k, v) !in OldChanges(initial, current)
  {
    if initial != [] {
      var n := |initial| - 1;
      OldChangesMembers(initial[..n], current, k, v);
      LastKeyFresh(initial);
      assert OldChanges(initial, current) == OldChanges(initial[..n], current) + EntryChange(initial[n], current);
    }
  }

  /** Which additions the second pass reports. */
  lemma {:induction false} NewChangesMembers(current: seq<Entry>, seen: set<string>, k: string, v: string)
    requires Sorted(current)
    ensures Added(k, v) in NewChanges(current, seen) <==> k !in seen && k in ToMap(current) && v == ToMap(current)[k]
    ensures Removed(k) !in NewChanges(current, seen) && Modified(k, v) !in NewChanges(current, seen)
  {
    if current != [] {
      var n := |current| - 1;
      NewChangesMembers(current[..n], seen, k, v);
      LastKeyFresh(current);
    }
  }

  /**
   Exactly one change per key whose pairs differ: a removal for a key only
   in `initial`, a modification to the new value for a key whose value
   differs, an addition with its value for a key only in `current`.
   */
  lemma DiffMembers(initial: seq<Entry>, current: seq<Entry>, k: string, v: string)
    requires Sorted(initial) && Sorted(current)
    ensures Removed(k) in Diff(initial, current) <==> k in ToMap(initial) && k !in ToMap(current)
    ensures Modified(k, v) in Diff(initial, current) <==>
      k in ToMap(initial) && k in ToMap(current) && ToMap(initial)[k] != ToMap(current)[k] && v == ToMap(current)[k]
    ensures Added(k, v) in Diff(initial, current) <==> k !in ToMap(initial) && k in ToMap(current) && v == ToMap(current)[k]
  {
    OldChangesMembers(initial, current, k, v);
    NewChangesMembers(current, ToMap(initial).Keys, k, v);
  }

  /** Keys strictly ascend along the list. */
  predicate KeysAscending(d: seq<Change>)
  {
    forall p, q :: 0 <= p < q < |d| ==> Below(d[p].key, d[q].key)
  }

  /** The first pass reports keys of `initial` in ascending order, and no additions. */
  lemma {:induction false} OldChangesOrdered(initial: seq<Entry>, current: seq<Entry>)
    requires Sorted(initial)
    ensures forall c :: c in OldChanges(initial, current) ==> !c.Added? && c.key in ToMap(initial)
    ensures KeysAscending(OldChanges(initial, current))
  {
    if initial != [] {
      var n := |initial| - 1;
      var r', last := OldChanges(initial[..n], current), EntryChange(initial[n], current);
      OldChangesOrdered(initial[..n], current);
      forall p | 0 <= p < |r'|
        ensures Below(r'[p].key, initial[n].key)
      {
        assert r'[p] in r';
        KeyHasEntry(initial[..n], r'[p].key);
        var i :| 0 <= i < n && initial[..n][i].key == r'[p].key;
        assert initial[i].key == r'[p].key;
      }
      assert |last| <= 1 && forall c :: c in last ==> !c.Added? && c.key == initial[n].key;
      assert ToMap(initial) == ToMap(initial[..n])[initial[n].key := initial[n].value];
      var r := OldChanges(initial, current);
      assert r == r' + last;
      forall p, q | 0 <= p < q < |r|
        ensures Below(r[p].key, r[q].key)
      {
        if q < |r'| {
          assert r[p] == r'[p] && r[q] == r'[q];
        } else {
          assert r[p] == r'[p] && r[q] == last[0];
        }
      }
    }
  }

  /** The second pass reports additions of keys outside `seen`, in ascending order. */
  lemma {:induction false} NewChangesOrdered(current: seq<Entry>, seen: set<string>)
    requires Sorted(current)
    ensures forall c :: c in NewChanges(current, seen) ==> c.Added? && c.key !in seen
    ensures KeysAscending(NewChanges(current, seen))
  {
    if current != [] {
      var n := |current| - 1;
      var r' := NewChanges(current[..n], seen);
      NewChangesOrdered(current[..n], seen);
      forall p | 0 <= p < |r'|
        ensures Below(r'[p].key, current[n].key)
      {
        NewChangesFromEntries(current[..n], seen, p);
      }
      var r := NewChanges(current, seen);
      forall p, q | 0 <= p < q < |r|
        ensures Below(r[p].key, r[q].key)
      {
        if q < |r'| {
          assert r[p] == r'[p] && r[q] == r'[q];
        } else {
          assert r[p] == r'[p] && r[q].key == current[n].key;
        }
      }
    }
  }

  /** Every addition of the second pass is one entry of `current`. */
  lemma {:induction false} NewChangesFromEntries(current: seq<Entry>, seen: set<string>, p: nat)
    requires p < |NewChanges(current, seen)|
    ensures exists i :: 0 <= i < |current| && current[i].key == NewChanges(current, seen)[p].key
  {
    var n := |current| - 1;
    var r' := NewChanges(current[..n], seen);
    if p < |r'| {
      NewChangesFromEntries(current[..n], seen, p);
      var i :| 0 <= i < n && current[..n][i].key == r'[p].key;
      assert current[i].key == r'[p].key;
    }
  }

  /**
   The list holds the removals and modifications in ascending key order of
   `initial`, then the additions in ascending key order of `current`, and
   names each key at most once.
   */
  lemma DiffOrdered(initial: seq<Entry>, current: seq<Entry>)
    requires Sorted(initial) && Sorted(current)
    ensures InDiffOrder(Diff(initial, current))
    ensures KeysDistinct(Diff(initial, current))
  {
    var o, a := OldChanges(initial, current), NewChanges(current, ToMap(initial).Keys);
    OldChangesOrdered(initial, current);
    NewChangesOrdered(current, ToMap(initial).Keys);
    var d := o + a;
    assert d == Diff(initial, current);
    forall p, q | 0 <= p < q < |d|
      ensures Rank(d[p]) < Rank(d[q]) || (Rank(d[p]) == Rank(d[q]) && Below(d[p].key, d[q].key))
      ensures d[p].key != d[q].key
    {
      if q < |o| {
        assert d[p] == o[p] && d[q] == o[q] && o[p] in o && o[q] in o;
        BelowAsymmetric(d[p].key, d[q].key);
      } else if |o| <= p {
        assert d[p] == a[p - |o|] && d[q] == a[q - |o|] && d[p] in a && d[q] in a;
        BelowAsymmetric(d[p].key, d[q].key);
      } else {
        assert d[p] == o[p] && d[q] == a[q - |o|] && d[p] in o && d[q] in a;
      }
    }
  }

  /** Changes that do not name `k` leave its pair alone. */
  lemma {:induction false} ApplyUntouched(m: map<string, string>, d: seq<Change>, k: string)
    requires forall q :: 0 <= q < |d| ==> d[q].key != k
    ensures k in Apply(m, d) <==> k in m
    ensures k in m ==> Apply(m, d)[k] == m[k]
  {
    if d != [] {
      ApplyUntouched(m, d[..|d| - 1], k);
    }
  }

  /** The one change that names a key decides that key's pair. */
  lemma {:induction false} ApplyTouched(m: map<string, string>, d: seq<Change>, j: nat)
    requires j < |d|
    requires forall q :: 0 <= q < |d| && q != j ==> d[q].key != d[j].key
    ensures d[j].key in Apply(m, d) <==> !d[j].Removed?
    ensures !d[j].Removed? ==> Apply(m, d)[d[j].key] == d[j].value
  {
    var n := |d| - 1;
    if j < n {
      ApplyTouched(m, d[..n], j);
    }
  }

  /** Applying the change list to the earlier pairs gives exactly the later pairs. */
  lemma DiffRoundTrip(initial: seq<Entry>, current: seq<Entry>)
    requires Sorted(initial) && Sorted(current)
    ensures Apply(ToMap(initial), Diff(initial, current)) == ToMap(current)
  {
    var d := Diff(initial, current);
    var before, after := ToMap(initial), ToMap(current);
    var result := Apply(before, d);
    DiffOrdered(initial, current);
    forall k
      ensures k in result <==> k in after
      ensures k in result ==> result[k] == after[k]
    {
      if j :| 0 <= j < |d| && d[j].key == k {
        ApplyTouched(before, d, j);
        assert d[j] in d;
        match d[j]
        case Removed(_) => DiffMembers(initial, current, k, "");
        case Added(_, v) => DiffMembers(initial, current, k, v);
        case Modified(_, v) => DiffMembers(initial, current, k, v);
      } else {
        ApplyUntouched(before, d, k);
        DiffMembers(initial, current, k, if k in after then after[k] else "");
      }
    }
    assert result.Keys == after.Keys;
  }

  /** A snapshot compared with itself yields no change. */
  lemma DiffOfSelf(s: seq<Entry>)
    requires Sorted(s)
    ensures Diff(s, s) == []
  {
    var d := Diff(s, s);
    if d != [] {
      assert d[0] in d;
      match d[0]
      case Removed(k) => DiffMembers(s, s, k, "");
      case Added(k, v) => DiffMembers(s, s, k, v);
      case Modified(k, v) => DiffMembers(s, s, k, v);
    }
  }

  /** The change list is empty exactly when the two snapshots are the same. */
  lemma DiffEmptyIffUnchanged(initial: seq<Entry>, current: seq<Entry>)
    requires Sorted(initial) && Sorted(current)
    ensures Diff(initial, current) == [] <==> initial == current
  {
    if initial == current {
      DiffOfSelf(initial);
    } else if Diff(initial, current) == [] {
      DiffRoundTrip(initial, current);
      SortedUnique(initial, current);
    }
  }

  /** Against an empty earlier snapshot, every entry is added, in key order. */
  lemma {:induction false} DiffFromEmpty(current: seq<Entry>)
    ensures |Diff([], current)| == |current|
    ensures forall j :: 0 <= j < |current| ==> Diff([], current)[j] == Added(current[j].key, current[j].value)
  {
    assert ToMap([]).Keys == {};
    assert OldChanges([], current) == [];
    NewChangesNoneSeen(current);
  }

  lemma {:induction false} NewChangesNoneSeen(current: seq<Entry>)
    ensures |NewChanges(current, {})| == |current|
    ensures forall j :: 0 <= j < |current| ==> NewChanges(current, {})[j] == Added(current[j].key, current[j].value)
  {
    if current != [] {
      NewChangesNoneSeen(current[..|current| - 1]);
    }
  }

  /** Against an empty later snapshot, every entry is removed, in key order. */
  lemma {:induction false} DiffToEmpty(initial: seq<Entry>)
    ensures |Diff(initial, [])| == |initial|
    ensures forall j :: 0 <= j < |initial| ==> Diff(initial, [])[j] == Removed(initial[j].key)
  {
    if initial != [] {
      DiffToEmpty(initial[..|initial| - 1]);
    }
  }

  /** Two pinned cases: a removal then an addition, and one modification. */
  lemma DiffExamples()
    ensures Diff([Entry("a", "1"), Entry("b", "2")], [Entry("b", "2"), Entry("c", "3")])
      == [Removed("a"), Added("c", "3")]
    ensures Diff([Entry("a", "1")], [Entry("a", "2")]) == [Modified("a", "2")]
  {
  }
}
