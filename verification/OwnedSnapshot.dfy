/** The kernel's snapshot of owned endpoints (kmod/main.c): a linear-probe table built from
    an update and never changed afterwards. */
module OwnedSnapshot {
  import opened Types
  import opened Probing
  import opened Endpoints

  predicate Used(e: Endpoint) { e.uid != 0 }

  /** No entry sits behind an empty bucket on the way from its home, and none occurs twice. */
  ghost predicate Table(buckets: seq<Endpoint>, hash: Endpoint -> nat)
  {
    && (forall p, q :: 0 <= p < |buckets| && 0 <= q < |buckets| && Used(buckets[p]) ==>
          Between(Home(hash(buckets[p]), |buckets|), q, p) ==> Used(buckets[q]))
    && (forall p, q :: 0 <= p < q < |buckets| && Used(buckets[p]) ==> buckets[p] != buckets[q])
  }

  ghost predicate Stored(buckets: seq<Endpoint>, e: Endpoint) { Used(e) && e in buckets }

  function UsedCount(buckets: seq<Endpoint>): (n: nat)
    ensures n <= |buckets|
  {
    if buckets == [] then 0 else (if Used(buckets[0]) then 1 else 0) + UsedCount(buckets[1..])
  }

  lemma {:induction false} FreeBucket(buckets: seq<Endpoint>)
    requires UsedCount(buckets) < |buckets|
    ensures exists q :: 0 <= q < |buckets| && !Used(buckets[q])
  {
    if Used(buckets[0]) {
      FreeBucket(buckets[1..]);
      var q :| 0 <= q < |buckets| - 1 && !Used(buckets[1..][q]);
      assert !Used(buckets[q + 1]);
    }
  }

  lemma {:induction false} FillCount(buckets: seq<Endpoint>, p: nat, e: Endpoint)
    requires p < |buckets| && !Used(buckets[p]) && Used(e)
    ensures UsedCount(buckets[p := e]) == UsedCount(buckets) + 1
  {
    if p == 0 {
      assert buckets[p := e][1..] == buckets[1..];
    } else {
      assert buckets[p := e][1..] == buckets[1..][p - 1 := e];
      FillCount(buckets[1..], p - 1, e);
    }
  }

  /** The cells before the `i`-th probe are all used and none of them is `e`. */
  ghost predicate Probed(buckets: seq<Endpoint>, home: nat, i: nat, e: Endpoint)
  {
    forall q :: 0 <= q < |buckets| && Passed(home, i, q, |buckets|) ==> Used(buckets[q]) && buckets[q] != e
  }

  /** owned_snapshot_contains */
  method Contains(buckets: seq<Endpoint>, hash: Endpoint -> nat, e: Endpoint) returns (found: bool)
    requires Table(buckets, hash)
    ensures found <==> Stored(buckets, e)
  {
    if |buckets| == 0 { return false; }
    var home := Home(hash(e), |buckets|);
    for i := 0 to |buckets|
      invariant Probed(buckets, home, i, e)
    {
      var slot := ProbeAt(home, i, |buckets|);
      if !Used(buckets[slot]) {
        NotBehind(buckets, hash, e, home, i);
        return false;
      }
      if buckets[slot] == e { return true; }
      PassedNext(home, i, slot, |buckets|);
    }
    assert forall q :: 0 <= q < |buckets| ==> Passed(home, |buckets|, q, |buckets|);
    return false;
  }

  lemma NotBehind(buckets: seq<Endpoint>, hash: Endpoint -> nat, e: Endpoint, home: nat, i: nat)
    requires Table(buckets, hash) && i < |buckets| && home == Home(hash(e), |buckets|) && Probed(buckets, home, i, e)
    requires !Used(buckets[ProbeAt(home, i, |buckets|)])
    ensures !Stored(buckets, e)
  {
    forall p | 0 <= p < |buckets| && Used(buckets[p]) ensures buckets[p] != e {
      if Home(hash(buckets[p]), |buckets|) == home {
        assert !Between(home, ProbeAt(home, i, |buckets|), p);
        assert Passed(home, i, p, |buckets|);
      }
    }
  }

  lemma InsertKeepsTable(buckets: seq<Endpoint>, hash: Endpoint -> nat, e: Endpoint, home: nat, i: nat)
    requires Table(buckets, hash) && i < |buckets| && home == Home(hash(e), |buckets|) && Probed(buckets, home, i, e) &&
             Used(e)
    requires !Used(buckets[ProbeAt(home, i, |buckets|)])
    ensures Table(buckets[ProbeAt(home, i, |buckets|) := e], hash)
  {
    var slot := ProbeAt(home, i, |buckets|);
    var after := buckets[slot := e];
    NotBehind(buckets, hash, e, home, i);
    forall p, q | 0 <= p < |after| && 0 <= q < |after| && Used(after[p]) && Between(Home(hash(after[p]), |after|), q, p)
      ensures Used(after[q])
    {
      if p == slot && q != slot { assert Passed(home, i, q, |buckets|); }
    }
  }

  /** The probe loop of replace_owned_ports for one entry. */
  method Insert(buckets: seq<Endpoint>, hash: Endpoint -> nat, e: Endpoint) returns (after: seq<Endpoint>)
    requires Table(buckets, hash) && Used(e) && UsedCount(buckets) < |buckets|
    ensures |after| == |buckets| && Table(after, hash) && UsedCount(after) <= UsedCount(buckets) + 1
    ensures forall x :: Stored(after, x) <==> Stored(buckets, x) || x == e
  {
    var home := Home(hash(e), |buckets|);
    FreeBucket(buckets);
    ghost var free :| 0 <= free < |buckets| && !Used(buckets[free]);
    for i := 0 to |buckets|
      invariant Probed(buckets, home, i, e)
    {
      var slot := ProbeAt(home, i, |buckets|);
      if !Used(buckets[slot]) {
        InsertKeepsTable(buckets, hash, e, home, i);
        FillCount(buckets, slot, e);
        after := buckets[slot := e];
        InsertStores(buckets, slot, e);
        return;
      }
      if buckets[slot] == e { return buckets; }
      PassedNext(home, i, slot, |buckets|);
    }
    assert false;
  }

  lemma InsertStores(buckets: seq<Endpoint>, slot: nat, e: Endpoint)
    requires slot < |buckets| && !Used(buckets[slot]) && Used(e)
    ensures forall x :: Stored(buckets[slot := e], x) <==> Stored(buckets, x) || x == e
  {
    var after := buckets[slot := e];
    assert after[slot] == e;
    forall x | Stored(buckets, x) ensures Stored(after, x) {
      var p :| 0 <= p < |buckets| && buckets[p] == x;
      assert after[p] == x;
    }
  }

  /** The bucket count: doubled from 8 until it is at least twice the entry count. */
  method BucketCount(count: nat) returns (n: nat)
    ensures n >= 8 && n >= 2 * count && (n == 8 || n < 4 * count) && PowerOfTwo(n)
  {
    n := 8;
    assert PowerOfTwo(2) && PowerOfTwo(4);
    while n < 2 * count
      invariant n >= 8 && (n == 8 || n < 4 * count) && PowerOfTwo(n)
      decreases 2 * count - n
    {
      n := n * 2;
    }
  }

  ghost predicate UpdateOk(entries: seq<Endpoint>)
  {
    |entries| <= MAX_ENTRIES && forall i :: 0 <= i < |entries| ==> Acceptable(entries[i])
  }

  /** replace_owned_ports: the table refines the set of the entries supplied. */
  method Build(entries: seq<Endpoint>, hash: Endpoint -> nat) returns (r: Result<seq<Endpoint>>)
    ensures r.Ok? <==> UpdateOk(entries)
    ensures r.Ok? ==> Table(r.value, hash) && PowerOfTwo(|r.value|) && r.value != []
    ensures r.Ok? ==> forall x :: Stored(r.value, x) <==> x in entries
  {
    if |entries| > MAX_ENTRIES { return Err; }
    var n := BucketCount(|entries|);
    var buckets := seq(n, _ => NO_ENDPOINT);
    EmptyCount(buckets);
    for i := 0 to |entries|
      invariant |buckets| == n && Table(buckets, hash) && UsedCount(buckets) <= i
      invariant forall k :: 0 <= k < i ==> Acceptable(entries[k])
      invariant forall x :: Stored(buckets, x) <==> x in entries[..i]
    {
      if !Acceptable(entries[i]) { return Err; }
      buckets := Insert(buckets, hash, entries[i]);
      assert entries[..i + 1] == entries[..i] + [entries[i]];
    }
    assert entries[..|entries|] == entries;
    r := Ok(buckets);
  }

  lemma {:induction false} EmptyCount(buckets: seq<Endpoint>)
    requires forall i :: 0 <= i < |buckets| ==> !Used(buckets[i])
    ensures UsedCount(buckets) == 0
  {
    if buckets != [] { EmptyCount(buckets[1..]); }
  }
}
