/** The differences between two samples of cumulative counters (daemon/stats.c). */
module StatsDelta {
  import opened Types
  import opened Sorting

  /** A row of a sample: the fourteen counters of a UID, or the one counter of a UID,
      protocol and port, whose order the key represents. */
  datatype Row = Row(key: nat, counts: seq<nat>)

  function RowKey(r: Row): int { r.key }

  /** Samples are sorted: the kernel's UID array is, and the daemon sorts the ports. */
  ghost predicate Sample(rows: seq<Row>, width: nat)
  {
    StrictBy(rows, RowKey) && forall i :: 0 <= i < |rows| ==> |rows[i].counts| == width
  }

  /** The value of one counter; a key without a row counts as zero. */
  ghost function Value(rows: seq<Row>, key: nat, k: nat): nat
  {
    if i :| 0 <= i < |rows| && rows[i].key == key && k < |rows[i].counts| then rows[i].counts[k] else 0
  }

  lemma ValueAt(rows: seq<Row>, width: nat, i: nat, k: nat)
    requires Sample(rows, width) && i < |rows| && k < width
    ensures Value(rows, rows[i].key, k) == rows[i].counts[k]
  {
    assert forall j :: 0 <= j < |rows| && j != i ==> RowKey(rows[j]) != RowKey(rows[i]);
  }

  function StatsDelta(current: nat, previous: nat): nat
  {
    if current >= previous then current - previous else current
  }

  // ------------------------------------------------------------------ one row

  function PreviousCount(was: Option<Row>, k: nat): nat
  {
    if was.Some? && k < |was.value.counts| then was.value.counts[k] else 0
  }

  function DeltaRow(r: Row, was: Option<Row>): (d: Row)
    ensures d.key == r.key && |d.counts| == |r.counts|
    ensures forall k :: 0 <= k < |r.counts| ==> d.counts[k] == StatsDelta(r.counts[k], PreviousCount(was, k))
  {
    Row(r.key, seq(|r.counts|, k requires 0 <= k < |r.counts| => StatsDelta(r.counts[k], PreviousCount(was, k))))
  }

  /** Some counter of the row changed. */
  ghost predicate Changed(r: Row, was: Option<Row>)
  {
    exists k :: 0 <= k < |r.counts| && DeltaRow(r, was).counts[k] != 0
  }

  /** UID rows are reported when new or changed, port rows only when changed. */
  ghost predicate Reported(r: Row, was: Option<Row>, reportNew: bool) { (reportNew && was.None?) || Changed(r, was) }

  method IsReported(r: Row, was: Option<Row>, reportNew: bool) returns (yes: bool)
    ensures yes <==> Reported(r, was, reportNew)
  {
    if reportNew && was.None? { return true; }
    for k := 0 to |r.counts|
      invariant forall i :: 0 <= i < k ==> DeltaRow(r, was).counts[i] == 0
    {
      if StatsDelta(r.counts[k], PreviousCount(was, k)) != 0 {
        assert DeltaRow(r, was).counts[k] != 0;
        return true;
      }
    }
    return false;
  }

  /** The previous row of a key. */
  ghost function Old(previous: seq<Row>, key: nat): (r: Option<Row>)
    ensures r.Some? ==> r.value in previous && r.value.key == key
    ensures r.None? ==> forall i :: 0 <= i < |previous| ==> previous[i].key != key
  {
    if i :| 0 <= i < |previous| && previous[i].key == key then Some(previous[i]) else None
  }

  /** find_uid_stats and find_port_stats: a lower-bound search. */
  method FindRow(previous: seq<Row>, width: nat, key: nat) returns (r: Option<Row>)
    requires Sample(previous, width)
    ensures r == Old(previous, key)
  {
    var lo, hi := 0, |previous|;
    while lo < hi
      invariant 0 <= lo <= hi <= |previous|
      invariant forall i :: 0 <= i < lo ==> RowKey(previous[i]) < key
      invariant forall i :: hi <= i < |previous| ==> key <= RowKey(previous[i])
    {
      var mid := lo + (hi - lo) / 2;
      if previous[mid].key < key { lo := mid + 1; } else { hi := mid; }
    }
    if lo < |previous| && previous[lo].key == key {
      assert forall i :: 0 <= i < |previous| && i != lo ==> RowKey(previous[i]) != RowKey(previous[lo]);
      return Some(previous[lo]);
    }
    assert forall i :: lo < i < |previous| ==> RowKey(previous[lo]) < RowKey(previous[i]);
    return None;
  }

  // ------------------------------------------------------------------ the rows of a point

  /** The reported rows among the first `n`, in order. */
  ghost function Deltas(current: seq<Row>, n: nat, previous: seq<Row>, reportNew: bool): seq<Row>
    requires n <= |current|
  {
    if n == 0 then [] else
    var r := current[n - 1];
    var was := Old(previous, r.key);
    Deltas(current, n - 1, previous, reportNew) + (if Reported(r, was, reportNew) then [DeltaRow(r, was)] else [])
  }

  method CountReported(current: seq<Row>, previous: seq<Row>, width: nat, reportNew: bool) returns (count: nat)
    requires Sample(previous, width)
    ensures count == |Deltas(current, |current|, previous, reportNew)|
  {
    count := 0;
    for i := 0 to |current|
      invariant count == |Deltas(current, i, previous, reportNew)|
    {
      var was := FindRow(previous, width, current[i].key);
      var yes := IsReported(current[i], was, reportNew);
      if yes { count := count + 1; }
    }
  }

  lemma {:induction false} DeltasGrow(current: seq<Row>, i: nat, n: nat, previous: seq<Row>, reportNew: bool)
    requires i <= n <= |current|
    ensures Deltas(current, i, previous, reportNew) <= Deltas(current, n, previous, reportNew)
  {
    if i < n { DeltasGrow(current, i, n - 1, previous, reportNew); }
  }

  /** Where row `i` goes, if it is reported. */
  lemma NextRow(current: seq<Row>, i: nat, previous: seq<Row>, reportNew: bool)
    requires i < |current|
    ensures var at := |Deltas(current, i, previous, reportNew)|;
            var all := Deltas(current, |current|, previous, reportNew);
            var was := Old(previous, current[i].key);
            if Reported(current[i], was, reportNew)
            then |Deltas(current, i + 1, previous, reportNew)| == at + 1 && at < |all| &&
                 all[at] == DeltaRow(current[i], was)
            else |Deltas(current, i + 1, previous, reportNew)| == at
  {
    DeltasGrow(current, i + 1, |current|, previous, reportNew);
  }

  /** The counting pass sizes the buffer that the filling pass fills, exactly. */
  method FillReported(current: seq<Row>, previous: seq<Row>, width: nat, reportNew: bool) returns (rows: seq<Row>)
    requires Sample(previous, width)
    ensures rows == Deltas(current, |current|, previous, reportNew)
  {
    ghost var all := Deltas(current, |current|, previous, reportNew);
    var count := CountReported(current, previous, width, reportNew);
    var buffer := new Row[count](_ => Row(0, []));
    var at := 0;
    for i := 0 to |current|
      invariant at == |Deltas(current, i, previous, reportNew)| <= buffer.Length
      invariant forall j :: 0 <= j < at ==> buffer[j] == all[j]
    {
      var was := FindRow(previous, width, current[i].key);
      var yes := IsReported(current[i], was, reportNew);
      NextRow(current, i, previous, reportNew);
      if yes {
        buffer[at] := DeltaRow(current[i], was);
        at := at + 1;
      }
    }
    rows := buffer[..];
  }

  // ------------------------------------------------------------------ what the rows mean

  lemma {:induction false} DeltasSample(current: seq<Row>, n: nat, previous: seq<Row>, width: nat, reportNew: bool)
    requires Sample(current, width) && n <= |current|
    ensures Sample(Deltas(current, n, previous, reportNew), width)
    ensures forall d :: d in Deltas(current, n, previous, reportNew) ==>
              exists i :: 0 <= i < n && FromRow(d, current[i], previous, reportNew)
  {
    if n > 0 {
      DeltasSample(current, n - 1, previous, width, reportNew);
      var before, r := Deltas(current, n - 1, previous, reportNew), current[n - 1];
      forall j | 0 <= j < |before| ensures RowKey(before[j]) < RowKey(r) {
        assert before[j] in before;
        var i :| 0 <= i < n - 1 && FromRow(before[j], current[i], previous, reportNew);
        assert RowKey(current[i]) < RowKey(current[n - 1]);
      }
      if Reported(r, Old(previous, r.key), reportNew) {
        assert FromRow(DeltaRow(r, Old(previous, r.key)), current[n - 1], previous, reportNew);
      }
    }
  }

  ghost predicate FromRow(d: Row, r: Row, previous: seq<Row>, reportNew: bool)
  {
    Reported(r, Old(previous, r.key), reportNew) && d == DeltaRow(r, Old(previous, r.key))
  }

  lemma {:induction false} ReportedIsIn(current: seq<Row>, n: nat, previous: seq<Row>, reportNew: bool, i: nat)
    requires i < n <= |current| && Reported(current[i], Old(previous, current[i].key), reportNew)
    ensures DeltaRow(current[i], Old(previous, current[i].key)) in Deltas(current, n, previous, reportNew)
  {
    if i < n - 1 { ReportedIsIn(current, n - 1, previous, reportNew, i); }
  }

  lemma PreviousIsValue(previous: seq<Row>, width: nat, key: nat, k: nat)
    requires Sample(previous, width) && k < width
    ensures PreviousCount(Old(previous, key), k) == Value(previous, key, k)
  {
    if Old(previous, key).Some? {
      var i :| 0 <= i < |previous| && previous[i] == Old(previous, key).value;
      ValueAt(previous, width, i, k);
    }
  }

  /** For every key and counter, reported or left out, the point says exactly how the
      counter moved: a key that is left out did not move. */
  lemma {:induction false} DeltasMeaning(current: seq<Row>, previous: seq<Row>, width: nat, reportNew: bool, key: nat,
                                         k: nat)
    requires Sample(current, width) && Sample(previous, width) && k < width
    ensures Value(Deltas(current, |current|, previous, reportNew), key, k) ==
            StatsDelta(Value(current, key, k), Value(previous, key, k))
  {
    var rows := Deltas(current, |current|, previous, reportNew);
    DeltasSample(current, |current|, previous, width, reportNew);
    PreviousIsValue(previous, width, key, k);
    if i :| 0 <= i < |current| && current[i].key == key {
      ValueAt(current, width, i, k);
      RowMeaning(current, previous, width, reportNew, i, k);
    } else {
      forall j | 0 <= j < |rows| ensures rows[j].key != key {
        assert rows[j] in rows;
        var i :| 0 <= i < |current| && FromRow(rows[j], current[i], previous, reportNew);
      }
    }
  }

  lemma {:induction false} RowMeaning(current: seq<Row>, previous: seq<Row>, width: nat, reportNew: bool, i: nat,
                                      k: nat)
    requires Sample(current, width) && Sample(Deltas(current, |current|, previous, reportNew), width)
    requires i < |current| && k < width
    requires forall d :: d in Deltas(current, |current|, previous, reportNew) ==>
               exists i :: 0 <= i < |current| && FromRow(d, current[i], previous, reportNew)
    ensures Value(Deltas(current, |current|, previous, reportNew), current[i].key, k) ==
            StatsDelta(current[i].counts[k], PreviousCount(Old(previous, current[i].key), k))
  {
    var rows := Deltas(current, |current|, previous, reportNew);
    var was := Old(previous, current[i].key);
    if Reported(current[i], was, reportNew) {
      ReportedIsIn(current, |current|, previous, reportNew, i);
      var j :| 0 <= j < |rows| && rows[j] == DeltaRow(current[i], was);
      ValueAt(rows, width, j, k);
    } else {
      assert DeltaRow(current[i], was).counts[k] == 0;
      forall j | 0 <= j < |rows| ensures rows[j].key != current[i].key {
        assert rows[j] in rows;
        var m :| 0 <= m < |current| && FromRow(rows[j], current[m], previous, reportNew);
        if m != i { assert RowKey(current[m]) != RowKey(current[i]); }
      }
    }
  }

  ghost predicate AllZero(r: Row) { forall k :: 0 <= k < |r.counts| ==> r.counts[k] == 0 }

  ghost predicate IsZero(r: Row, key: nat) { r.key == key && AllZero(r) }

  /** The documented promise that points hold only non-zero rows: a row of a point is all zero
      exactly when its key is new and has counted nothing, which UID rows allow. */
  lemma {:induction false} ZeroRowMeans(current: seq<Row>, previous: seq<Row>, width: nat, reportNew: bool, i: nat)
    requires Sample(current, width) && Sample(previous, width) && i < |current|
    ensures (exists d :: d in Deltas(current, |current|, previous, reportNew) && IsZero(d, current[i].key)) <==>
            reportNew && Old(previous, current[i].key).None? && AllZero(current[i])
  {
    var rows, r := Deltas(current, |current|, previous, reportNew), current[i];
    var was := Old(previous, r.key);
    DeltasSample(current, |current|, previous, width, reportNew);
    if d :| d in rows && IsZero(d, r.key) {
      var m :| 0 <= m < |current| && FromRow(d, current[m], previous, reportNew);
      assert m != i ==> RowKey(current[m]) != RowKey(current[i]);
      assert d == DeltaRow(r, was) && !Changed(r, was);
      assert forall k :: 0 <= k < |r.counts| ==> r.counts[k] == d.counts[k];
    }
    if reportNew && was.None? && AllZero(r) {
      ReportedIsIn(current, |current|, previous, reportNew, i);
      assert IsZero(DeltaRow(r, was), r.key);
    }
  }

  /** A UID that the policy has just added shows a row of zeros. */
  lemma NewUidShowsZeros(uid: nat, width: nat)
    ensures exists d :: d in Deltas([Row(uid, seq(width, _ => 0))], 1, [], true) && IsZero(d, uid)
  {
    ZeroRowMeans([Row(uid, seq(width, _ => 0))], [], width, true, 0);
  }
}
