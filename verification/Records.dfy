/** What one key of the set holds, and the order the set resolves conflicts by. */
module Records {
  import opened Hlc

  type Key = nat

  datatype Option<+T> = None | Some(value: T)

  function At<K, V>(m: map<K, V>, k: K): Option<V> { if k in m then Some(m[k]) else None }

  lemma SameMap<K, V>(a: map<K, V>, b: map<K, V>)
    requires forall k :: At(a, k) == At(b, k)
    ensures a == b
  {
    forall k ensures k in a <==> k in b {
      assert At(a, k) == At(b, k);
    }
    forall k | k in a ensures a[k] == b[k] {
      assert At(a, k) == At(b, k);
    }
  }

  /** An entry, or a tombstone. */
  datatype Rec = Live(ts: Stamp) | Dead(ts: Stamp)

  datatype Row = Row(key: Key, rec: Rec)

  /** The order conflicts are resolved by: the newer timestamp wins, and an insert wins over a
  delete at the same timestamp. */
  predicate Below(a: Rec, b: Rec) { a.ts.Less(b.ts) || (a.ts == b.ts && a.Dead? && b.Live?) }

  function Join(a: Rec, b: Rec): Rec { if Below(a, b) then b else a }

  /** The larger of two records, one or both of which may be missing. */
  function JoinOpt(a: Option<Rec>, b: Option<Rec>): Option<Rec> {
    if a.None? then b else if b.None? then a else Some(Join(a.value, b.value))
  }

  /** Adds a record to a map of records, keeping the larger of the two. */
  function Put(recs: map<Key, Rec>, k: Key, rec: Rec): map<Key, Rec> {
    recs[k := if k in recs then Join(recs[k], rec) else rec]
  }

  /** `recs` holds at `k` something at least as new as `rec`. */
  predicate Covers(recs: map<Key, Rec>, k: Key, rec: Rec) {
    k in recs && !Below(recs[k], rec)
  }

  predicate DistinctKeys(rows: seq<Row>) {
    forall i, j :: 0 <= i < j < |rows| ==> rows[i].key != rows[j].key
  }

  predicate SortedByStamp(rows: seq<Row>) {
    forall i, j :: 0 <= i < j < |rows| ==> rows[i].rec.ts.AtMost(rows[j].rec.ts)
  }

  /** A listing of a map of records, each key once. */
  ghost predicate Lists(rows: seq<Row>, recs: map<Key, Rec>) {
    DistinctKeys(rows)
    && (forall i :: 0 <= i < |rows| ==> rows[i].key in recs && recs[rows[i].key] == rows[i].rec)
    && (forall k :: k in recs ==> Row(k, recs[k]) in rows)
  }

  /** Stable insertion of a row that comes before all of `rows`. */
  function InsertRow(x: Row, rows: seq<Row>): (r: seq<Row>)
    requires SortedByStamp(rows)
    ensures SortedByStamp(r) && |r| == |rows| + 1
    ensures forall y :: y in r <==> y == x || y in rows
  {
    if rows == [] || x.rec.ts.AtMost(rows[0].rec.ts) then [x] + rows
    else
      var rest := InsertRow(x, rows[1..]);
      assert forall j :: 0 <= j < |rest| ==> rest[j] == x || rest[j] in rows[1..];
      assert rows == [rows[0]] + rows[1..];
      [rows[0]] + rest
  }

  /** `sort_by_key` on the timestamp. */
  function SortRows(rows: seq<Row>): (r: seq<Row>)
    ensures SortedByStamp(r) && |r| == |rows|
    ensures forall y :: y in r <==> y in rows
  {
    if rows == [] then [] else InsertRow(rows[0], SortRows(rows[1..]))
  }

  lemma {:induction false} InsertKeepsDistinct(x: Row, rows: seq<Row>)
    requires SortedByStamp(rows) && DistinctKeys(rows)
    requires forall y :: y in rows ==> y.key != x.key
    ensures DistinctKeys(InsertRow(x, rows))
  {
    if rows == [] || x.rec.ts.AtMost(rows[0].rec.ts) {
    } else {
      InsertKeepsDistinct(x, rows[1..]);
      var rest := InsertRow(x, rows[1..]);
      forall j | 0 <= j < |rest| ensures rest[j].key != rows[0].key {
        assert rest[j] in rest;
      }
    }
  }

  lemma {:induction false} SortKeepsDistinct(rows: seq<Row>)
    requires DistinctKeys(rows)
    ensures DistinctKeys(SortRows(rows))
  {
    if rows != [] {
      SortKeepsDistinct(rows[1..]);
      InsertKeepsDistinct(rows[0], SortRows(rows[1..]));
    }
  }
}
