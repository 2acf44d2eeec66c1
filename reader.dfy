/**
 The snapshot reader, `read_state`: every key/value row of the store, kept
 when its key passes the optional filter, gathered into a snapshot.

 The SQL query is replaced by what it yields (the rows in the store's order,
 or a failure) and the compiled regular expression by its match test.
 */
module Reader {
  import opened Optional
  import opened Snapshots

  /** The optional key filter: the match test of the `--filter` pattern. */
  type Filter = Option<string -> bool>

  /** Whether a row with this key passes the filter; with no filter every row does. */
  predicate Keeps(filter: Filter, key: string)
  {
    match filter
    case None => true
    case Some(matches) => matches(key)
  }

  /** One step of the result set: a key/value row, or the error raised fetching it. */
  datatype RowRead = RowOk(entry: Entry) | RowErr

  /** What the query yields: the rows in the store's order, or a failure to prepare or run it. */
  datatype Query = QueryErr | Rows(rows: seq<RowRead>)

  /** The outcome of one read: a snapshot, or the error. */
  datatype ReadResult = ReadOk(state: seq<Entry>) | ReadErr

  predicate RowFailed(rows: seq<RowRead>)
  {
    exists i :: 0 <= i < |rows| && rows[i].RowErr?
  }

  /** Whether some successfully read row carries key `k`. */
  predicate KeyRead(rows: seq<RowRead>, k: string)
  {
    rows != [] &&
    ((rows[|rows| - 1].RowOk? && rows[|rows| - 1].entry.key == k) || KeyRead(rows[..|rows| - 1], k))
  }

  /** The rows that pass the filter, in the order they were read. */
  function Selected(rows: seq<RowRead>, filter: Filter): seq<Entry>
  {
    if rows == [] then []
    else
      var rest := Selected(rows[..|rows| - 1], filter);
      match rows[|rows| - 1]
      case RowErr => rest
      case RowOk(e) => if Keeps(filter, e.key) then rest + [e] else rest
  }

  /** The pairs a read yields, later rows overriding earlier ones; None when the read fails. */
  function StoreContents(query: Query, filter: Filter): Option<map<string, string>>
  {
    match query
    case QueryErr => None
    case Rows(rows) => if RowFailed(rows) then None else Some(ToMap(Selected(rows, filter)))
  }

  /**
   `read_state`: fails when the query or any row fails; otherwise inserts each
   row that passes the filter into an ordered map.
   */
  method ReadState(query: Query, filter: Filter) returns (result: ReadResult)
    ensures result.ReadErr? <==> StoreContents(query, filter).None?
    ensures result.ReadOk? ==> Sorted(result.state) && ToMap(result.state) == StoreContents(query, filter).value
  {
    if query.QueryErr? {
      return ReadErr;
    }
    var rows := query.rows;
    var state: seq<Entry> := [];
    for i := 0 to |rows|
      invariant !RowFailed(rows[..i])
      invariant Sorted(state) && ToMap(state) == ToMap(Selected(rows[..i], filter))
    {
      match rows[i]
      case RowErr =>
        assert RowFailed(rows);
        return ReadErr;
      case RowOk(row) =>
        SelectStep(rows, filter, i);
        match filter {
          case None =>
          case Some(matches) =>
            if !matches(row.key) {
              continue;
            }
        }
        state := Insert(state, row.key, row.value);
    }
    assert rows[..|rows|] == rows;
    return ReadOk(state);
  }

  /** Reading one more good row adds its pair exactly when its key passes the filter. */
  lemma SelectStep(rows: seq<RowRead>, filter: Filter, i: nat)
    requires i < |rows| && rows[i].RowOk? && !RowFailed(rows[..i])
    ensures !RowFailed(rows[..i + 1])
    ensures ToMap(Selected(rows[..i + 1], filter)) ==
      if Keeps(filter, rows[i].entry.key)
      then ToMap(Selected(rows[..i], filter))[rows[i].entry.key := rows[i].entry.value]
      else ToMap(Selected(rows[..i], filter))
  {
    var row := rows[i].entry;
    assert rows[..i + 1][..i] == rows[..i];
    var read := rows[..i + 1];
    forall j | 0 <= j < |read|
      ensures read[j].RowOk?
    {
      if j < i {
        assert read[j] == rows[..i][j];
      }
    }
    if Keeps(filter, row.key) {
      ToMapSnoc(Selected(rows[..i], filter), row);
    }
  }

  /** A key survives the selection exactly when it passes the filter and some row carries it. */
  lemma {:induction false} SelectedKeys(rows: seq<RowRead>, filter: Filter, k: string)
    ensures k in ToMap(Selected(rows, filter)) <==> Keeps(filter, k) && KeyRead(rows, k)
  {
    if rows != [] {
      var n := |rows| - 1;
      SelectedKeys(rows[..n], filter, k);
      if rows[n].RowOk? && Keeps(filter, rows[n].entry.key) {
        ToMapSnoc(Selected(rows[..n], filter), rows[n].entry);
      }
    }
  }

  /** `KeyRead` in terms of positions: some row read without error carries the key. */
  lemma {:induction false} KeyReadAt(rows: seq<RowRead>, k: string)
    ensures KeyRead(rows, k) <==> exists i :: 0 <= i < |rows| && rows[i].RowOk? && rows[i].entry.key == k
  {
    if rows != [] {
      var n := |rows| - 1;
      KeyReadAt(rows[..n], k);
      if exists i :: 0 <= i < |rows| && rows[i].RowOk? && rows[i].entry.key == k {
        var i :| 0 <= i < |rows| && rows[i].RowOk? && rows[i].entry.key == k;
        if i < n {
          assert rows[..n][i] == rows[i];
        }
      }
      if KeyRead(rows[..n], k) {
        var i :| 0 <= i < n && rows[..n][i].RowOk? && rows[..n][i].entry.key == k;
        assert rows[i] == rows[..n][i];
      }
    }
  }

  /** The last row with a given key that passes the filter decides its value. */
  lemma {:induction false} SelectedLastWins(rows: seq<RowRead>, filter: Filter, j: nat)
    requires j < |rows| && rows[j].RowOk? && Keeps(filter, rows[j].entry.key)
    requires forall i :: j < i < |rows| && rows[i].RowOk? ==> rows[i].entry.key != rows[j].entry.key
    ensures rows[j].entry.key in ToMap(Selected(rows, filter))
    ensures ToMap(Selected(rows, filter))[rows[j].entry.key] == rows[j].entry.value
  {
    var n := |rows| - 1;
    var rest := Selected(rows[..n], filter);
    if rows[n].RowOk? && Keeps(filter, rows[n].entry.key) {
      ToMapSnoc(rest, rows[n].entry);
    }
    if j < n {
      SelectedLastWins(rows[..n], filter, j);
    }
  }

  /**
   A successful read holds exactly the keys of the rows that pass the filter,
   so with no filter every row's key is kept.
   */
  lemma ContentsKeys(query: Query, filter: Filter, k: string)
    requires StoreContents(query, filter).Some?
    ensures k in StoreContents(query, filter).value <==>
      Keeps(filter, k) && exists i :: 0 <= i < |query.rows| && query.rows[i].entry.key == k
  {
    SelectedKeys(query.rows, filter, k);
    KeyReadAt(query.rows, k);
  }

  /** For a key read more than once, the last row's value wins. */
  lemma ContentsLastRowWins(query: Query, filter: Filter, j: nat)
    requires StoreContents(query, filter).Some?
    requires j < |query.rows| && Keeps(filter, query.rows[j].entry.key)
    requires forall i :: j < i < |query.rows| ==> query.rows[i].entry.key != query.rows[j].entry.key
    ensures query.rows[j].entry.key in StoreContents(query, filter).value
    ensures StoreContents(query, filter).value[query.rows[j].entry.key] == query.rows[j].entry.value
  {
    SelectedLastWins(query.rows, filter, j);
  }

  /** A filter that matches none of the keys read yields an empty snapshot. */
  lemma ContentsNoneMatch(query: Query, filter: Filter)
    requires StoreContents(query, filter).Some?
    requires forall i :: 0 <= i < |query.rows| ==> !Keeps(filter, query.rows[i].entry.key)
    ensures StoreContents(query, filter).value == map[]
  {
    forall k | k in StoreContents(query, filter).value
      ensures false
    {
      ContentsKeys(query, filter, k);
    }
  }
}
