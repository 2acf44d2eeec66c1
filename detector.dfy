/**
 The change detector: the loop of the `db` thread. It owns the last snapshot
 read; for each reload request it reads the store, compares the new snapshot
 with the one it holds, hands a change event to the delivery worker when they
 differ, and keeps the new snapshot.
 */
module Detector {
  import opened Optional
  import opened Snapshots
  import opened Compare
  import opened Reader
  import opened Triggers

  /**
   The payload handed to the HTTP worker: the process's instance identifier,
   the change list, and the whole new snapshot on a full reload.
   */
  datatype ChangeEvent = ChangeEvent(instance: string, changes: seq<Change>, fullState: Option<seq<Entry>>)

  /** The counts of the "Change detected: +a, -r, ~m" log line. */
  datatype Tally = Tally(added: nat, removed: nat, modified: nat)

  datatype Kind = AddedKind | RemovedKind | ModifiedKind

  function KindOf(c: Change): Kind
  {
    match c
    case Added(_, _) => AddedKind
    case Removed(_) => RemovedKind
    case Modified(_, _) => ModifiedKind
  }

  /** The number of changes of one kind. */
  function CountOf(d: seq<Change>, kind: Kind): nat
  {
    if d == [] then 0
    else CountOf(d[..|d| - 1], kind) + (if KindOf(d[|d| - 1]) == kind then 1 else 0)
  }

  /** The keys named by changes of one kind. */
  function KeysOf(d: seq<Change>, kind: Kind): set<string>
  {
    set q | 0 <= q < |d| && KindOf(d[q]) == kind :: d[q].key
  }

  /** The keys present on both sides with different values. */
  function ChangedKeys(before: map<string, string>, after: map<string, string>): set<string>
  {
    set k | k in before && k in after && before[k] != after[k]
  }

  /** The counting loop of the `db` thread: one pass over the change list. */
  method CountChanges(diff: seq<Change>) returns (tally: Tally)
    ensures tally == Tally(CountOf(diff, AddedKind), CountOf(diff, RemovedKind), CountOf(diff, ModifiedKind))
    ensures tally.added + tally.removed + tally.modified == |diff|
  {
    var a, r, m := 0, 0, 0;
    for i := 0 to |diff|
      invariant a == CountOf(diff[..i], AddedKind)
      invariant r == CountOf(diff[..i], RemovedKind)
      invariant m == CountOf(diff[..i], ModifiedKind)
      invariant a + r + m == i
    {
      assert diff[..i + 1][..i] == diff[..i];
      match diff[i]
      case Added(_, _) =>
        a := a + 1;
      case Removed(_) =>
        r := r + 1;
      case Modified(_, _) =>
        m := m + 1;
    }
    assert diff[..|diff|] == diff;
    tally := Tally(a, r, m);
  }

  lemma KeysOfSnoc(d: seq<Change>, kind: Kind)
    requires d != []
    ensures KeysOf(d, kind) ==
      KeysOf(d[..|d| - 1], kind) + (if KindOf(d[|d| - 1]) == kind then {d[|d| - 1].key} else {})
  {
  }

  /** When no key is named twice, counting changes of a kind counts their keys. */
  lemma {:induction false} CountIsKeyCount(d: seq<Change>, kind: Kind)
    requires KeysDistinct(d)
    ensures CountOf(d, kind) == |KeysOf(d, kind)|
  {
    if d != [] {
      var n := |d| - 1;
      CountIsKeyCount(d[..n], kind);
      KeysOfSnoc(d, kind);
    }
  }

  /** Which kind of change, if any, the change list holds for one key. */
  lemma DiffKindKeys(initial: seq<Entry>, current: seq<Entry>, k: string)
    requires Sorted(initial) && Sorted(current)
    ensures k in KeysOf(Diff(initial, current), AddedKind) <==> k in ToMap(current).Keys - ToMap(initial).Keys
    ensures k in KeysOf(Diff(initial, current), RemovedKind) <==> k in ToMap(initial).Keys - ToMap(current).Keys
    ensures k in KeysOf(Diff(initial, current), ModifiedKind) <==> k in ChangedKeys(ToMap(initial), ToMap(current))
  {
    var d, after := Diff(initial, current), ToMap(current);
    if q :| 0 <= q < |d| && d[q].key == k {
      DiffOrdered(initial, current);
      assert d[q] in d;
      assert forall p :: 0 <= p < |d| && d[p].key == k ==> p == q;
      match d[q]
      case Removed(_) => DiffMembers(initial, current, k, "");
      case Added(_, v) => DiffMembers(initial, current, k, v);
      case Modified(_, v) => DiffMembers(initial, current, k, v);
    } else {
      DiffMembers(initial, current, k, if k in after then after[k] else "");
    }
  }

  /**
   The logged counts of a change list: the keys added, the keys removed and
   the keys whose value changed.
   */
  lemma DiffTally(initial: seq<Entry>, current: seq<Entry>)
    requires Sorted(initial) && Sorted(current)
    ensures CountOf(Diff(initial, current), AddedKind) == |ToMap(current).Keys - ToMap(initial).Keys|
    ensures CountOf(Diff(initial, current), RemovedKind) == |ToMap(initial).Keys - ToMap(current).Keys|
    ensures CountOf(Diff(initial, current), ModifiedKind) == |ChangedKeys(ToMap(initial), ToMap(current))|
  {
    var d, before, after := Diff(initial, current), ToMap(initial), ToMap(current);
    DiffOrdered(initial, current);
    CountIsKeyCount(d, AddedKind);
    CountIsKeyCount(d, RemovedKind);
    CountIsKeyCount(d, ModifiedKind);
    forall k {
      DiffKindKeys(initial, current, k);
    }
    assert KeysOf(d, AddedKind) == after.Keys - before.Keys;
    assert KeysOf(d, RemovedKind) == before.Keys - after.Keys;
    assert KeysOf(d, ModifiedKind) == ChangedKeys(before, after);
  }

  /** The pairs held after reading `queries` in turn: those of the last read that succeeded, else `start`. */
  function LastRead(start: map<string, string>, queries: seq<Query>, filter: Filter): map<string, string>
  {
    if queries == [] then start
    else
      match StoreContents(queries[|queries| - 1], filter)
      case Some(contents) => contents
      case None => LastRead(start, queries[..|queries| - 1], filter)
  }

  /** What one reload does to the snapshot held: a failed read keeps it, a successful one replaces it. */
  ghost predicate ReadStep(query: Query, filter: Filter, before: seq<Entry>, after: seq<Entry>)
  {
    match StoreContents(query, filter)
    case None => after == before
    case Some(contents) => Sorted(after) && ToMap(after) == contents
  }

  /**
   `snaps` follows the reads of `queries` in turn: it holds the snapshot
   before each read and after the last, and each read steps it as `ReadStep`.
   */
  ghost predicate Trace(queries: seq<Query>, filter: Filter, snaps: seq<seq<Entry>>)
  {
    |snaps| == |queries| + 1 &&
    (queries == [] ||
      var n := |queries| - 1;
      Trace(queries[..n], filter, snaps[..n + 1]) && ReadStep(queries[n], filter, snaps[n], snaps[n + 1]))
  }

  /**
   The event one reload emits, going from snapshot `before` to `after`: none
   when the pairs are unchanged, else the diff with, on a full request, the
   new snapshot.
   */
  function EventOf(instance: string, full: bool, before: seq<Entry>, after: seq<Entry>): Option<ChangeEvent>
  {
    if ToMap(before) == ToMap(after) then None
    else Some(ChangeEvent(instance, Diff(before, after), if full then Some(after) else None))
  }

  /**
   The events a run of reloads emits, given the snapshot held before each
   request and after the last: one per request whose read changed the pairs
   held, in request order, carrying the diff and, on a full request, the new
   snapshot.
   */
  function Emitted(instance: string, requests: seq<bool>, snaps: seq<seq<Entry>>): (r: seq<ChangeEvent>)
    requires |snaps| == |requests| + 1
    ensures |r| <= |requests|
  {
    if requests == [] then []
    else
      var n := |requests| - 1;
      var rest := Emitted(instance, requests[..n], snaps[..n + 1]);
      match EventOf(instance, requests[n], snaps[n], snaps[n + 1])
      case None => rest
      case Some(e) => rest + [e]
  }

  /** One more reload appends its event, if it emits one, to those emitted before. */
  lemma EmittedSnoc(instance: string, requests: seq<bool>, snaps: seq<seq<Entry>>, full: bool, next: seq<Entry>)
    requires |snaps| == |requests| + 1
    ensures Emitted(instance, requests + [full], snaps + [next]) ==
      Emitted(instance, requests, snaps) +
      match EventOf(instance, full, snaps[|requests|], next)
      case None => []
      case Some(e) => [e]
  {
    assert (requests + [full])[..|requests|] == requests;
    assert (snaps + [next])[..|requests| + 1] == snaps;
  }

  lemma PrefixSnoc<T>(s: seq<T>, i: nat)
    requires i < |s|
    ensures s[..i + 1] == s[..i] + [s[i]]
  {
  }

  /** One more read extends a trace by the snapshot it leaves. */
  lemma TraceSnoc(queries: seq<Query>, filter: Filter, snaps: seq<seq<Entry>>, query: Query, next: seq<Entry>)
    requires Trace(queries, filter, snaps) && ReadStep(query, filter, snaps[|queries|], next)
    ensures Trace(queries + [query], filter, snaps + [next])
  {
    assert (queries + [query])[..|queries|] == queries;
    assert (snaps + [next])[..|queries| + 1] == snaps;
  }

  /**
   After a trace of reads the pairs held are those of the last read that
   succeeded: failed reads in between leave the held snapshot alone.
   */
  lemma {:induction false} TraceLastRead(queries: seq<Query>, filter: Filter, snaps: seq<seq<Entry>>)
    requires Trace(queries, filter, snaps)
    ensures ToMap(snaps[|queries|]) == LastRead(ToMap(snaps[0]), queries, filter)
  {
    if queries != [] {
      var n := |queries| - 1;
      TraceLastRead(queries[..n], filter, snaps[..n + 1]);
    }
  }

  /** Every snapshot along a trace that starts sorted is sorted. */
  lemma {:induction false} TraceSorted(queries: seq<Query>, filter: Filter, snaps: seq<seq<Entry>>, j: nat)
    requires Trace(queries, filter, snaps) && Sorted(snaps[0]) && j < |snaps|
    ensures Sorted(snaps[j])
  {
    if queries != [] {
      var n := |queries| - 1;
      if j <= n {
        TraceSorted(queries[..n], filter, snaps[..n + 1], j);
      } else {
        TraceSorted(queries[..n], filter, snaps[..n + 1], n);
      }
    }
  }

  /** Between sorted snapshots every event carries the instance and at least one change. */
  lemma {:induction false} EmittedNonEmpty(instance: string, requests: seq<bool>, snaps: seq<seq<Entry>>)
    requires |snaps| == |requests| + 1 && forall j :: 0 <= j < |snaps| ==> Sorted(snaps[j])
    ensures forall e :: e in Emitted(instance, requests, snaps) ==> e.instance == instance && e.changes != []
  {
    if requests != [] {
      var n := |requests| - 1;
      assert forall j :: 0 <= j < n + 1 ==> snaps[..n + 1][j] == snaps[j];
      EmittedNonEmpty(instance, requests[..n], snaps[..n + 1]);
      DiffEmptyIffUnchanged(snaps[n], snaps[n + 1]);
    }
  }

  /** Along a trace that starts sorted, every event carries the instance and at least one change. */
  lemma TraceEvents(instance: string, requests: seq<bool>, queries: seq<Query>, filter: Filter, snaps: seq<seq<Entry>>)
    requires Trace(queries, filter, snaps) && Sorted(snaps[0]) && |requests| == |queries|
    ensures forall e :: e in Emitted(instance, requests, snaps) ==> e.instance == instance && e.changes != []
  {
    forall j | 0 <= j < |snaps|
      ensures Sorted(snaps[j])
    {
      TraceSorted(queries, filter, snaps, j);
    }
    EmittedNonEmpty(instance, requests, snaps);
  }

  class ChangeDetector {
    /** The identifier generated once at start-up and attached to every event. */
    const instance: string
    const filter: Filter
    /** The last snapshot read successfully. */
    var state: seq<Entry>

    ghost predicate Valid()
      reads this
    {
      Sorted(state)
    }

    /** The detector starts from the empty snapshot. */
    constructor (instance: string, filter: Filter)
      ensures Valid() && state == []
      ensures this.instance == instance && this.filter == filter
    {
      this.instance := instance;
      this.filter := filter;
      state := [];
    }

    /**
     One reload cycle. A failed read changes nothing and emits nothing. A
     successful read always becomes the held snapshot; an event, with the new
     snapshot attached exactly on a full request, is emitted exactly when the
     pairs read differ from those held.
     */
    method Reload(full: bool, query: Query) returns (event: Option<ChangeEvent>, tally: Option<Tally>)
      requires Valid()
      modifies this
      ensures Valid()
      ensures StoreContents(query, filter).None? ==> state == old(state) && event == None && tally == None
      ensures StoreContents(query, filter).Some? ==> ToMap(state) == StoreContents(query, filter).value
      ensures event.Some? <==> StoreContents(query, filter).Some? && ToMap(state) != ToMap(old(state))
      ensures event.Some? ==>
        event.value == ChangeEvent(instance, Diff(old(state), state), if full then Some(state) else None)
      ensures tally.Some? <==> event.Some?
      ensures tally.Some? ==>
        var d := Diff(old(state), state);
        tally.value == Tally(CountOf(d, AddedKind), CountOf(d, RemovedKind), CountOf(d, ModifiedKind))
        && tally.value.added + tally.value.removed + tally.value.modified == |d|
      ensures ReadStep(query, filter, old(state), state)
      ensures event == EventOf(instance, full, old(state), state)
    {
      var read := ReadState(query, filter);
      if read.ReadErr? {
        return None, None;
      }
      var newState := read.state;
      var diff := CompareState(state, newState);
      DiffEmptyIffUnchanged(state, newState);
      if state != newState && ToMap(state) == ToMap(newState) {
        SortedUnique(state, newState);
      }
      event, tally := None, None;
      if |diff| > 0 {
        var counts := CountChanges(diff);
        tally := Some(counts);
        if full {
          event := Some(ChangeEvent(instance, diff, Some(newState)));
        } else {
          event := Some(ChangeEvent(instance, diff, None));
        }
      }
      state := newState;
    }

    /**
     The detector draining its request queue: one reload per request, in
     order, each reading the store once. `snaps` is the snapshot held before
     each request and after the last: a failed read keeps the one held, so the
     next successful read is compared with the last one that succeeded.
     */
    method Run(requests: seq<bool>, queries: seq<Query>) returns (events: seq<ChangeEvent>, ghost snaps: seq<seq<Entry>>)
      requires Valid() && |queries| == |requests|
      modifies this
      ensures Valid()
      ensures ToMap(state) == LastRead(ToMap(old(state)), queries, filter)
      ensures |snaps| == |requests| + 1 && snaps[0] == old(state) && snaps[|requests|] == state
      ensures Trace(queries, filter, snaps)
      ensures events == Emitted(instance, requests, snaps)
      ensures |events| <= |requests|
      ensures forall e :: e in events ==> e.instance == instance && e.changes != []
    {
      events, snaps := [], [state];
      for i := 0 to |requests|
        invariant Valid()
        invariant |snaps| == i + 1 && snaps[0] == old(state) && snaps[i] == state
        invariant Trace(queries[..i], filter, snaps)
        invariant events == Emitted(instance, requests[..i], snaps)
      {
        ghost var held := snaps;
        var event, _ := Reload(requests[i], queries[i]);
        if event.Some? {
          events := events + [event.value];
        }
        TraceSnoc(queries[..i], filter, held, queries[i], state);
        EmittedSnoc(instance, requests[..i], held, requests[i], state);
        snaps := held + [state];
        PrefixSnoc(queries, i);
        PrefixSnoc(requests, i);
      }
      assert queries[..|queries|] == queries;
      assert requests[..|requests|] == requests;
      TraceLastRead(queries, filter, snaps);
      TraceEvents(instance, requests, queries, filter, snaps);
    }
  }

  /** A full reload of an unchanged store emits nothing, although the full state was asked for. */
  method FullReloadOfUnchangedStore(detector: ChangeDetector, query: Query) returns (second: Option<ChangeEvent>)
    requires detector.Valid()
    modifies detector
    ensures second == None
  {
    var first, firstTally := detector.Reload(false, query);
    var secondTally;
    second, secondTally := detector.Reload(true, query);
  }

  /**
   The first reload after start-up, when its read succeeds, reports every pair
   read as added, once each, in key order.
   */
  method FirstReload(instance: string, filter: Filter, full: bool, query: Query) returns (event: Option<ChangeEvent>)
    ensures event.Some? <==> StoreContents(query, filter).Some? && StoreContents(query, filter).value != map[]
    ensures event.Some? ==> forall c :: c in event.value.changes ==> c.Added?
    ensures event.Some? ==> var contents := StoreContents(query, filter).value;
      && |event.value.changes| == |contents|
      && (forall k :: k in contents ==> Added(k, contents[k]) in event.value.changes)
      && KeysAscending(event.value.changes)
  {
    var detector := new ChangeDetector(instance, filter);
    var tally;
    event, tally := detector.Reload(full, query);
    if event.Some? {
      var read := detector.state;
      DiffFromEmpty(read);
      MapSize(read);
      forall k | k in ToMap(read)
        ensures Added(k, ToMap(read)[k]) in event.value.changes
      {
        DiffMembers([], read, k, ToMap(read)[k]);
      }
    }
  }

  /** The whole pipeline: the queue the triggers fill, drained in order by the detector. */
  method Monitor(detector: ChangeDetector, triggers: seq<Trigger>, queries: seq<Query>)
    returns (events: seq<ChangeEvent>, ghost snaps: seq<seq<Entry>>)
    requires detector.Valid() && |queries| == |Requests(triggers)|
    modifies detector
    ensures detector.Valid()
    ensures ToMap(detector.state) == LastRead(ToMap(old(detector.state)), queries, detector.filter)
    ensures |snaps| == |queries| + 1 && snaps[0] == old(detector.state) && snaps[|queries|] == detector.state
    ensures Trace(queries, detector.filter, snaps)
    ensures events == Emitted(detector.instance, Requests(triggers), snaps)
    ensures |events| <= |Wakeups(triggers)| + |Writes(triggers)|
  {
    RequestsTally(triggers);
    events, snaps := detector.Run(Requests(triggers), queries);
  }
}
