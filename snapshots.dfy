/** An optional value, as Rust's `Option`. */
module Optional {

  datatype Option<+T> = None | Some(value: T)
}

/**
 A snapshot of the store: the `State` of the monitor, a `BTreeMap<String, String>`.

 It is held as the map's entries in iteration order. `Sorted` is the map's
 invariant (strictly ascending keys, so each key at most once) and `ToMap`
 gives the key/value pairs the entries stand for.
 */
module Snapshots {
  import opened KeyOrder
  import opened Optional

  /** One key with its value. */
  datatype Entry = Entry(key: string, value: string)

  predicate Sorted(s: seq<Entry>)
  {
    forall i, j :: 0 <= i < j < |s| ==> Below(s[i].key, s[j].key)
  }

  /** The pairs the entries denote; a later entry overrides an earlier one with the same key. */
  function ToMap(s: seq<Entry>): map<string, string>
  {
    if s == [] then map[] else ToMap(s[..|s| - 1])[s[|s| - 1].key := s[|s| - 1].value]
  }

  /** A key is mapped exactly when some entry carries it. */
  lemma {:induction false} KeyHasEntry(s: seq<Entry>, k: string)
    ensures k in ToMap(s) <==> exists i :: 0 <= i < |s| && s[i].key == k
  {
    if s != [] {
      var n := |s| - 1;
      KeyHasEntry(s[..n], k);
      if k != s[n].key && exists i :: 0 <= i < |s| && s[i].key == k {
        var i :| 0 <= i < |s| && s[i].key == k;
        assert s[..n][i].key == k;
      }
    }
  }

  /** In a sorted snapshot each entry's value is the value mapped to its key. */
  lemma {:induction false} EntryValue(s: seq<Entry>, i: nat)
    requires Sorted(s) && i < |s|
    ensures s[i].key in ToMap(s) && ToMap(s)[s[i].key] == s[i].value
  {
    var n := |s| - 1;
    if i < n {
      EntryValue(s[..n], i);
      BelowAsymmetric(s[i].key, s[n].key);
    }
  }

  /** In a sorted snapshot the last key is not among the earlier ones. */
  lemma LastKeyFresh(s: seq<Entry>)
    requires Sorted(s) && s != []
    ensures s[|s| - 1].key !in ToMap(s[..|s| - 1])
  {
    var n := |s| - 1;
    if s[n].key in ToMap(s[..n]) {
      KeyHasEntry(s[..n], s[n].key);
      var i :| 0 <= i < n && s[..n][i].key == s[n].key;
      BelowAsymmetric(s[i].key, s[n].key);
    }
  }

  /** Dropping the last entry of a sorted snapshot drops exactly its key. */
  lemma DropLast(s: seq<Entry>)
    requires Sorted(s) && s != []
    ensures ToMap(s[..|s| - 1]) == ToMap(s) - {s[|s| - 1].key}
  {
    var n := |s| - 1;
    LastKeyFresh(s);
    var m := ToMap(s[..n]);
    assert ToMap(s) == m[s[n].key := s[n].value];
    assert m[s[n].key := s[n].value] - {s[n].key} == m;
  }

  /** A sorted snapshot holds as many pairs as it has entries. */
  lemma {:induction false} MapSize(s: seq<Entry>)
    requires Sorted(s)
    ensures |ToMap(s)| == |s|
  {
    if s != [] {
      var n := |s| - 1;
      MapSize(s[..n]);
      LastKeyFresh(s);
    }
  }

  /** Appending an entry whose key lies above all others keeps a snapshot sorted. */
  lemma SortedSnoc(s: seq<Entry>, e: Entry)
    requires Sorted(s)
    requires forall i :: 0 <= i < |s| ==> Below(s[i].key, e.key)
    ensures Sorted(s + [e])
  {
  }

  /** Appending an entry maps its key to its value. */
  lemma ToMapSnoc(s: seq<Entry>, e: Entry)
    ensures ToMap(s + [e]) == ToMap(s)[e.key := e.value]
  {
  }

  /** A non-empty entry sequence maps the key of its last entry. */
  lemma NonEmptyMap(s: seq<Entry>)
    ensures s != [] ==> s[|s| - 1].key in ToMap(s)
  {
  }

  /** Every key of a sorted snapshot is at most its last key. */
  lemma KeysUpToLast(s: seq<Entry>, k: string)
    requires Sorted(s) && s != [] && k in ToMap(s)
    ensures k == s[|s| - 1].key || Below(k, s[|s| - 1].key)
  {
    KeyHasEntry(s, k);
  }

  /** Two non-empty sorted snapshots holding the same pairs end in the same entry. */
  lemma SameLast(s: seq<Entry>, t: seq<Entry>)
    requires Sorted(s) && Sorted(t) && s != [] && t != [] && ToMap(s) == ToMap(t)
    ensures s[|s| - 1] == t[|t| - 1]
  {
    var m, n := |s| - 1, |t| - 1;
    NonEmptyMap(s);
    NonEmptyMap(t);
    KeysUpToLast(t, s[m].key);
    KeysUpToLast(s, t[n].key);
    if s[m].key != t[n].key {
      BelowAsymmetric(s[m].key, t[n].key);
    }
  }

  /** Dropping the last entry of a sorted snapshot leaves it sorted. */
  lemma SortedInit(s: seq<Entry>)
    requires Sorted(s) && s != []
    ensures Sorted(s[..|s| - 1])
  {
    var init := s[..|s| - 1];
    forall i, j | 0 <= i < j < |init|
      ensures Below(init[i].key, init[j].key)
    {
      assert init[i] == s[i] && init[j] == s[j];
    }
  }

  lemma SplitSnoc(s: seq<Entry>)
    requires s != []
    ensures s == s[..|s| - 1] + [s[|s| - 1]]
  {
  }

  /** A non-empty sorted snapshot is a sorted snapshot without its last key, followed by its last entry. */
  lemma SplitLast(s: seq<Entry>)
    requires Sorted(s) && s != []
    ensures Sorted(s[..|s| - 1]) && s == s[..|s| - 1] + [s[|s| - 1]]
    ensures ToMap(s[..|s| - 1]) == ToMap(s) - {s[|s| - 1].key}
  {
    SortedInit(s);
    SplitSnoc(s);
    DropLast(s);
  }

  /**
   Two sorted snapshots are equal exactly when they hold the same pairs:
   the entry sequence of a BTreeMap is determined by its contents.
   */
  lemma {:induction false} SortedUnique(s: seq<Entry>, t: seq<Entry>)
    requires Sorted(s) && Sorted(t) && ToMap(s) == ToMap(t)
    ensures s == t
    decreases |s|
  {
    NonEmptyMap(s);
    NonEmptyMap(t);
    if s != [] && t != [] {
      SameLast(s, t);
      SplitLast(s);
      SplitLast(t);
      SortedUnique(s[..|s| - 1], t[..|t| - 1]);
    }
  }

  /** `BTreeMap::get`: the value stored under `k`, if any. */
  function Get(s: seq<Entry>, k: string): (r: Option<string>)
    ensures r.Some? <==> k in ToMap(s)
    ensures r.Some? ==> r.value == ToMap(s)[k]
  {
    if s == [] then None
    else if s[|s| - 1].key == k then Some(s[|s| - 1].value)
    else Get(s[..|s| - 1], k)
  }

  /**
   `BTreeMap::insert`: afterwards `k` holds `v`, every other pair is kept and
   the entries stay in key order.
   */
  function Insert(s: seq<Entry>, k: string, v: string): (r: seq<Entry>)
    requires Sorted(s)
    ensures Sorted(r)
    ensures ToMap(r) == ToMap(s)[k := v]
    ensures forall e :: e in r ==> e.key == k || e in s
  {
    if s == [] then
      ToMapSnoc([], Entry(k, v));
      [Entry(k, v)]
    else
      var n := |s| - 1;
      if s[n].key == k then
        InsertReplacingLast(s, v);
        s[..n] + [Entry(k, v)]
      else if Below(s[n].key, k) then
        InsertAfterLast(s, k, v);
        s + [Entry(k, v)]
      else
        BelowTotal(s[n].key, k);
        var r' := Insert(s[..n], k, v);
        InsertBeforeLast(s, k, v, r');
        r' + [s[n]]
  }

  lemma InsertReplacingLast(s: seq<Entry>, v: string)
    requires Sorted(s) && s != []
    ensures var k, r := s[|s| - 1].key, s[..|s| - 1] + [Entry(s[|s| - 1].key, v)];
      Sorted(r) && ToMap(r) == ToMap(s)[k := v] && forall e :: e in r ==> e.key == k || e in s
  {
  }

  lemma InsertAfterLast(s: seq<Entry>, k: string, v: string)
    requires Sorted(s) && s != [] && Below(s[|s| - 1].key, k)
    ensures var r := s + [Entry(k, v)];
      Sorted(r) && ToMap(r) == ToMap(s)[k := v] && forall e :: e in r ==> e.key == k || e in s
  {
    AllBelow(s, k);
    SortedSnoc(s, Entry(k, v));
    ToMapSnoc(s, Entry(k, v));
  }

  lemma InsertBeforeLast(s: seq<Entry>, k: string, v: string, r': seq<Entry>)
    requires Sorted(s) && s != [] && Below(k, s[|s| - 1].key)
    requires Sorted(r') && ToMap(r') == ToMap(s[..|s| - 1])[k := v]
    requires forall e :: e in r' ==> e.key == k || e in s[..|s| - 1]
    ensures var r := r' + [s[|s| - 1]];
      Sorted(r) && ToMap(r) == ToMap(s)[k := v] && forall e :: e in r ==> e.key == k || e in s
  {
    var n := |s| - 1;
    forall i | 0 <= i < |r'|
      ensures Below(r'[i].key, s[n].key)
    {
      assert r'[i] in r';
      if r'[i].key != k {
        var j :| 0 <= j < n && s[..n][j] == r'[i];
      }
    }
    SortedSnoc(r', s[n]);
    ToMapSnoc(r', s[n]);
    ToMapSnoc(s[..n], s[n]);
    assert s == s[..n] + [s[n]];
    BelowAsymmetric(k, s[n].key);
  }

  /** Every key of a sorted snapshot lies below a key above its last one. */
  lemma AllBelow(s: seq<Entry>, k: string)
    requires Sorted(s) && s != [] && Below(s[|s| - 1].key, k)
    ensures forall i :: 0 <= i < |s| ==> Below(s[i].key, k)
  {
    forall i | 0 <= i < |s| - 1 {
      BelowTransitive(s[i].key, s[|s| - 1].key, k);
    }
  }
}
