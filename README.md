# fulliautomatisk change detector, in Dafny

fulliautomatisk watches an Asterisk internal database (the `astdb` SQLite
table of key/value rows). It has no change notification of its own, so the
monitor re-reads the whole table whenever the file is written, whenever
SIGUSR1 arrives, and at least every ten minutes. It diffs each snapshot
against the previous one and hands every non-empty change list to an HTTP
worker as a JSON event.

This project models the core of that pipeline and proves its properties:

- `KeyOrder`: the order in which a `BTreeMap<String, String>` iterates its
  keys. This is lexicographic order on characters; for UTF-8 text it agrees
  with Rust's byte-wise `String` order. The module proves it is a strict
  total order.
- `Snapshots`: a snapshot (`State`) is held as the map's entries in key
  order. `Sorted` is the map's invariant and `ToMap` gives the pairs. `Get`
  and `Insert` model `BTreeMap::get` and `BTreeMap::insert`.
- `Compare`: `compare_state` is the method `CompareState`, with its two
  passes and the `seen` set. It is proved equal to the specification
  function `Diff`. The lemmas give the diff's meaning: which change each
  key gets, the order of the list, one change per key, the round trip
  (applying the diff to the old pairs gives the new pairs), and "empty
  exactly when nothing changed".
- `Reader`: `read_state` is the method `ReadState`, the loop that inserts
  each row passing the filter. The SQL query becomes the rows it yields or a
  failure. The regular expression becomes a match-test function.
- `Detector`: the `db` thread is the class `ChangeDetector`. Its field
  `state` is the last snapshot read. `Reload` is one turn of the loop, with
  the `+a, -r, ~m` counting loop `CountChanges`. `Run` drains a queue of
  requests in order.
- `Triggers`: the file-event and signal/timeout listeners. Each classifies
  what it receives into reload requests on one shared queue.

The JSON payload is the datatype `ChangeEvent` rather than text. The
instance identifier is a constructor parameter of `ChangeDetector`.

The detector starts from the empty snapshot, because the initial read in
`main` is commented out (src/main.rs:117). So the first reload, when it reads
a non-empty store, reports every pair as added, once each and in key order
(`FirstReload`). A failed read leaves the held snapshot as it was (`Reload`),
so the same holds for the first successful reload after failed ones.

A read fails as a whole when preparing or running the query fails. It also
fails when any single row fails (the `?` on each row, src/main.rs:48). Rows
before the failing one are discarded.

## Model

| member | source | states |
|---|---|---|
| KeyOrder.BelowTransitive | src/main.rs:36 | the key order of a `State` map is transitive |
| KeyOrder.BelowTotal | src/main.rs:36 | any two distinct keys are ordered one way or the other |
| KeyOrder.BelowAsymmetric | src/main.rs:36 | the key order is asymmetric and never relates a key to itself |
| Snapshots.Get | src/main.rs:68 | the lookup finds a value exactly when the key is in the map, and that value is the one mapped |
| Snapshots.Insert | src/main.rs:56 | inserting keeps the entries in key order, maps the key to the new value, keeps every other pair, and adds no other entry |
| Snapshots.SortedUnique | src/main.rs:36 | two snapshots are equal exactly when they hold the same key/value pairs |
| Snapshots.EntryValue | src/main.rs:36 | in a snapshot each entry's value is the value its key maps to |
| Snapshots.MapSize | src/main.rs:36 | a snapshot holds as many pairs as it has entries |
| Compare.OldChanges | src/main.rs:66-74 | the first pass emits at most one change per entry of the old snapshot |
| Compare.NewChanges | src/main.rs:76-80 | the second pass emits at most one change per entry of the new snapshot |
| Compare.Diff | src/main.rs:62-83 | the change list is no longer than the two snapshots together |
| Compare.CompareState | src/main.rs:62-83 | the two loops with the `seen` set return exactly the change list `Diff` |
| Compare.DiffMembers | src/main.rs:66-80 | `Removed(k)` is listed iff k is only in the old snapshot; `Modified(k, v)` iff k is in both with different values and v is the new one; `Added(k, v)` iff k is only in the new snapshot and v is its value |
| Compare.DiffOrdered | src/main.rs:66-80 | removals and modifications come first in ascending key order, then additions in ascending key order, and no key is named twice |
| Compare.DiffRoundTrip | src/main.rs:62-83 | applying the changes in order to the old pairs (remove, overwrite, insert) yields exactly the new pairs |
| Compare.DiffOfSelf | src/main.rs:66-80 | a snapshot compared with itself yields no change |
| Compare.DiffEmptyIffUnchanged | src/main.rs:62-83 | the change list is empty exactly when the two snapshots are equal |
| Compare.DiffFromEmpty | src/main.rs:76-80 | against an empty old snapshot, the list is one `Added` per entry, in key order |
| Compare.DiffToEmpty | src/main.rs:66-74 | against an empty new snapshot, the list is one `Removed` per old entry, in key order |
| Compare.DiffExamples | src/main.rs:62-83 | {a:1, b:2} to {b:2, c:3} gives `[Removed(a), Added(c, 3)]`; {a:1} to {a:2} gives `[Modified(a, 2)]` |
| Reader.ReadState | src/main.rs:38-60 | the read fails exactly when the query or some row fails; otherwise it returns a key-ordered snapshot of the rows passing the filter, later rows overriding earlier ones |
| Reader.SelectedKeys | src/main.rs:46-57 | the rows kept hold exactly the keys that pass the filter and some row carries |
| Reader.SelectedLastWins | src/main.rs:46-57 | for a key read more than once, the last kept row's value is the one held |
| Reader.ContentsKeys | src/main.rs:49-56 | a successful read holds exactly the keys of the rows passing the filter; with no filter, every row's key |
| Reader.ContentsLastRowWins | src/main.rs:56 | in a successful read, a repeated key holds the value of its last row |
| Reader.ContentsNoneMatch | src/main.rs:49-54 | a filter that matches no key read yields the empty snapshot |
| Detector.CountChanges | src/main.rs:139-148 | the loop counts the additions, removals and modifications, and the three counts sum to the list's length |
| Detector.CountIsKeyCount | src/main.rs:139-148 | when no key is named twice, the count of a kind equals the number of keys it names |
| Detector.DiffKindKeys | src/main.rs:139-148 | for one key, the kind of change the list holds: added iff only new, removed iff only old, modified iff in both with different values |
| Detector.DiffTally | src/main.rs:139-150 | the logged counts are the number of keys added, removed, and changed in value |
| Detector.ChangeDetector.constructor | src/main.rs:117 | the detector starts from the empty snapshot with the given instance identifier and filter |
| Detector.ChangeDetector.Reload | src/main.rs:127-166 | a failed read keeps the state and emits nothing; a successful read always becomes the state; an event is emitted iff the pairs read differ from those held, carrying the instance, the diff, and the full new snapshot exactly on a full request; the counts are given exactly with an event |
| Detector.ChangeDetector.Run | src/main.rs:126-167 | one reload per queued request, in order: the snapshots held follow the reads (`Trace`), the state ends as the last successful read, and the events are exactly `Emitted`: one per request whose read changed the pairs held, with the diff against the snapshot held before it and the new snapshot on a full request |
| Detector.Emitted | src/main.rs:137-166 | at most one event per request |
| Detector.TraceLastRead | src/main.rs:129-135 | a failed read is skipped, so after a sequence of reads the pairs held are those of the last read that succeeded |
| Detector.TraceSorted | src/main.rs:129-166 | every snapshot the detector holds along a run is a valid ordered map |
| Detector.EmittedNonEmpty | src/main.rs:137-138 | every event sent carries the instance identifier and at least one change |
| Detector.FullReloadOfUnchangedStore | src/main.rs:137-166 | a full reload of a store read unchanged emits no event |
| Detector.FirstReload | src/main.rs:117-166 | the first reload emits an event iff the read succeeds with a non-empty snapshot; the event then lists one `Added(k, v)` for every pair read, as many changes as pairs, in ascending key order |
| Detector.Monitor | src/main.rs:124-213 | the detector drains the triggers' queue in order: the snapshots held follow the reads, the state ends as the last successful read, the events are exactly `Emitted` over the queued requests, and there is at most one event per wakeup or write event |
| Triggers.Requests | src/main.rs:194-215 | the queue holds at most one request per trigger |
| Triggers.RequestsTally | src/main.rs:196-213 | each signal or deadline wakeup enqueues exactly one full request, each write event exactly one incremental request, and nothing else enqueues anything |

## Left out

- The HTTP delivery thread (src/main.rs:171-185). It serialises each event, POSTs it with a 5-second timeout, and logs and drops a failure. This is network I/O with nothing to prove beyond consuming the event; `ChangeEvent` is what it would send.
- Threads, `mpsc` channels, `join`, and the `expect` panics on send and receive. The queue is modelled as a sequence of requests consumed in order (`Run`, `Monitor`), and the interleaving of the two listeners as one arrival-ordered sequence of `Trigger`s.
- The SQLite connection and query text (src/main.rs:39-44, 114). `Query` stands for what the query yields: a failure, or the rows with any per-row failures.
- The regular-expression engine (src/main.rs:51, 111). The filter is a match-test function, and an invalid pattern is a start-up failure outside the core.
- The watcher set-up, `Trap::wait` and its 600-second `Instant` deadline (src/main.rs:187-215). `Wakeup` lists the two ways the wait can end. Wall-clock time is not modelled.
- JSON text serialisation, `ts()` timestamps, UUID generation in `id()` (the instance identifier is a parameter), `println!` logging (the counts are returned as `Tally` instead, with unbounded `nat` fields where the source's `a`, `r` and `m` are `i32`; their overflow past 2^31 - 1 changes of one kind is not modelled), clap argument parsing, and the `MainError` conversions.
- `Snapshots.Get` and `Snapshots.Insert` model the behaviour of `BTreeMap::get` and `BTreeMap::insert` on a key-ordered sequence, not the B-tree itself.
- The store's contents at each reload are an input: `Run` takes one `Query` per request, the rows that reload reads.
