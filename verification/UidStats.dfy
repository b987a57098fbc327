/** The per-UID interception counters (kmod/main.c): a sorted array that every policy
    publication rebuilds around the UIDs that still have statistics. */
module UidStats {
  import opened Types
  import opened Sorting
  import opened PortRules
  import opened PolicyWire
  import opened PolicyDecode
  import opened PolicyResolve
  import opened PolicySnapshot

  const MAX_UIDS := 4096
  const KINDS := 14

  /** Counters of the seven native hooks and, behind them, the seven Java hooks. */
  type Counts = seq<nat>

  function NoCounts(): (c: Counts)
    ensures |c| == KINDS && forall i :: 0 <= i < KINDS ==> c[i] == 0
  {
    [0, 0, 0, 0, 0, 0, 0, 0, 0, 0, 0, 0, 0, 0]
  }

  /** A hook that is not known adds to no counter. */
  function Added(c: Counts, kind: nat, n: nat): Counts { if kind < |c| then c[kind := c[kind] + n] else c }

  datatype Entry = Entry(uid: u32, counts: Counts)

  function EntryUid(e: Entry): int { e.uid }

  /** The counters of a UID, if it has an entry. */
  ghost function At(es: seq<Entry>, u: u32): (r: Option<Counts>)
    ensures r.Some? <==> exists i :: 0 <= i < |es| && es[i].uid == u
  {
    if i :| 0 <= i < |es| && es[i].uid == u then Some(es[i].counts) else None
  }

  lemma AtEntry(es: seq<Entry>, i: nat)
    requires StrictBy(es, EntryUid) && i < |es|
    ensures At(es, es[i].uid) == Some(es[i].counts)
  {
    assert forall j :: 0 <= j < |es| && j != i ==> EntryUid(es[j]) != EntryUid(es[i]);
  }

  // ------------------------------------------------------------------ which UIDs have statistics

  predicate Inverted(s: Snapshot) { s.kmodMode == EXCLUDE || s.lsposedMode == EXCLUDE || s.portMode == EXCLUDE }

  ghost predicate Restricted(s: Snapshot, u: u32)
  {
    exists i :: 0 <= i < |s.targets| && s.targets[i].uid == u && s.targets[i].mode != UNRESTRICTED
  }

  ghost predicate Listed(s: Snapshot, u: u32) { exists i :: 0 <= i < |s.targets| && s.targets[i].uid == u }

  /** policy_uid_has_stats */
  ghost predicate HasStats(s: Snapshot, u: u32)
  {
    || InMode(s.kmod, s.kmodMode, u) || InMode(s.lsposed, s.lsposedMode, u)
    || Restricted(s, u)
    || (!Listed(s, u) && s.portMode == EXCLUDE && Eligible(u))
  }

  /** The UIDs that the merge of a policy without inverted layers enumerates. */
  ghost predicate Wanted(s: Snapshot, u: u32) { u in s.kmod || u in s.lsposed || Restricted(s, u) }

  /** The two readings agree on every UID that can be recorded. */
  lemma WantedIsHasStats(s: Snapshot, u: u32)
    requires !Inverted(s) && Eligible(u)
    ensures Wanted(s, u) <==> HasStats(s, u)
  {
  }

  method UidHasStats(s: Snapshot, u: u32) returns (yes: bool)
    requires SnapshotOk(s)
    ensures yes <==> HasStats(s, u)
  {
    yes := UidMatchesMode(s.kmod, s.kmodMode, u);
    if yes { return; }
    yes := UidMatchesMode(s.lsposed, s.lsposedMode, u);
    if yes { return; }
    var at := Find(s.targets, TargetUid, u);
    if at.Some? {
      assert forall i :: 0 <= i < |s.targets| && i != at.value ==>
               TargetUid(s.targets[i]) != TargetUid(s.targets[at.value]);
      return s.targets[at.value].mode != UNRESTRICTED;
    }
    assert forall i :: 0 <= i < |s.targets| ==> TargetUid(s.targets[i]) != u;
    if s.portMode != EXCLUDE { return false; }
    yes := UidMatchesMode([], EXCLUDE, u);
  }

  // ------------------------------------------------------------------ the three-way merge

  /** The smallest wanted UIDs, at most `capacity` of them, in order. */
  ghost predicate Leading(uids: seq<u32>, s: Snapshot, capacity: nat)
  {
    && StrictBy(uids, Id) && |uids| <= capacity
    && (forall u :: u in uids ==> Wanted(s, u))
    && (forall u :: Wanted(s, u) && u !in uids ==> |uids| == capacity && forall v :: v in uids ==> v < u)
  }

  /** Everything before `at` is done, everything from there lies beyond the last UID. */
  ghost predicate Split<T>(xs: seq<T>, key: T -> int, skip: T -> bool, at: nat, uids: seq<u32>, last: int)
  {
    && at <= |xs|
    && (forall i :: 0 <= i < at ==> skip(xs[i]) || exists k :: 0 <= k < |uids| && Id(uids[k]) == key(xs[i]))
    && (forall i :: at <= i < |xs| ==> last < key(xs[i]))
  }

  predicate NoSkip(u: u32) { false }

  predicate Unrestricted(t: WireTarget) { t.mode == UNRESTRICTED }

  method SkipUnrestricted(ts: seq<WireTarget>, from: nat, ghost uids: seq<u32>, ghost last: int) returns (at: nat)
    requires Split(ts, TargetUid, Unrestricted, from, uids, last)
    ensures Split(ts, TargetUid, Unrestricted, at, uids, last) && from <= at
    ensures at < |ts| ==> !Unrestricted(ts[at])
  {
    at := from;
    while at < |ts| && ts[at].mode == UNRESTRICTED
      invariant from <= at && Split(ts, TargetUid, Unrestricted, at, uids, last)
    {
      at := at + 1;
    }
  }

  /** Steps over the entries of the UID just added. */
  method SkipEqual<T>(xs: seq<T>, key: T -> int, ghost skip: T -> bool, from: nat, ghost uids: seq<u32>,
                      ghost last: int, next: u32)
    returns (at: nat)
    requires StrictBy(xs, key) && Split(xs, key, skip, from, uids, last)
    requires from < |xs| ==> next <= key(xs[from])
    ensures Split(xs, key, skip, at, uids + [next], next) && from <= at
    ensures at > from ==> key(xs[from]) == next
  {
    at := from;
    forall i | 0 <= i < from && !skip(xs[i])
      ensures exists k :: 0 <= k < |uids + [next]| && Id((uids + [next])[k]) == key(xs[i])
    {
      var k :| 0 <= k < |uids| && Id(uids[k]) == key(xs[i]);
      assert Id((uids + [next])[k]) == key(xs[i]);
    }
    assert Id((uids + [next])[|uids|]) == next;
    while at < |xs| && key(xs[at]) == next
      invariant from <= at <= |xs| && (at > from ==> key(xs[from]) == next)
      invariant forall i :: from <= i < at ==> key(xs[i]) == next
      invariant forall i :: 0 <= i < at && !skip(xs[i]) ==>
                  exists k :: 0 <= k < |uids + [next]| && Id((uids + [next])[k]) == key(xs[i])
      invariant at < |xs| ==> next <= key(xs[at])
    {
      at := at + 1;
    }
  }

  /** The smallest UID not yet merged, if any. */
  method NextUid(s: Snapshot, ki: nat, li: nat, pi: nat) returns (next: Option<u32>)
    requires ki <= |s.kmod| && li <= |s.lsposed| && pi <= |s.targets|
    ensures next.None? <==> ki == |s.kmod| && li == |s.lsposed| && pi == |s.targets|
    ensures next.Some? && ki < |s.kmod| ==> next.value <= s.kmod[ki]
    ensures next.Some? && li < |s.lsposed| ==> next.value <= s.lsposed[li]
    ensures next.Some? && pi < |s.targets| ==> next.value <= s.targets[pi].uid
    ensures next.Some? ==>
      || (ki < |s.kmod| && next.value == s.kmod[ki]) || (li < |s.lsposed| && next.value == s.lsposed[li])
      || (pi < |s.targets| && next.value == s.targets[pi].uid)
  {
    next := None;
    if ki < |s.kmod| { next := Some(s.kmod[ki]); }
    if li < |s.lsposed| && (next.None? || s.lsposed[li] < next.value) { next := Some(s.lsposed[li]); }
    if pi < |s.targets| && (next.None? || s.targets[pi].uid < next.value) { next := Some(s.targets[pi].uid); }
  }

  ghost predicate Merging(s: Snapshot, ki: nat, li: nat, pi: nat, uids: seq<u32>, last: int)
  {
    && Split(s.kmod, Id, NoSkip, ki, uids, last) && Split(s.lsposed, Id, NoSkip, li, uids, last)
    && Split(s.targets, TargetUid, Unrestricted, pi, uids, last)
    && StrictBy(uids, Id) && (forall k :: 0 <= k < |uids| ==> Id(uids[k]) <= last)
    && (forall u :: u in uids ==> Wanted(s, u))
  }

  /** What the merge produced so far leads: everything not yet merged is larger. */
  lemma MergeLeads(s: Snapshot, ki: nat, li: nat, pi: nat, uids: seq<u32>, last: int, capacity: nat)
    requires Merging(s, ki, li, pi, uids, last) && |uids| <= capacity
    requires |uids| == capacity || (ki == |s.kmod| && li == |s.lsposed| && pi == |s.targets|)
    ensures Leading(uids, s, capacity)
  {
    forall u | Wanted(s, u) && u !in uids ensures |uids| == capacity && last < u {
      if u in s.kmod {
        var i :| 0 <= i < |s.kmod| && s.kmod[i] == u;
        assert i >= ki;
      } else if u in s.lsposed {
        var i :| 0 <= i < |s.lsposed| && s.lsposed[i] == u;
        assert i >= li;
      } else {
        var i :| 0 <= i < |s.targets| && s.targets[i].uid == u && s.targets[i].mode != UNRESTRICTED;
        assert i >= pi;
      }
    }
    forall u, v | Wanted(s, u) && u !in uids && v in uids ensures v < u {
      var k :| 0 <= k < |uids| && uids[k] == v;
      assert Id(uids[k]) <= last;
    }
  }

  method MergeUids(s: Snapshot, capacity: nat) returns (uids: seq<u32>)
    requires SnapshotOk(s)
    ensures Leading(uids, s, capacity)
  {
    uids := [];
    var ki, li, pi := 0, 0, 0;
    ghost var last: int := -1;
    while |uids| < capacity
      invariant |uids| <= capacity && Merging(s, ki, li, pi, uids, last)
      decreases capacity - |uids|
    {
      pi := SkipUnrestricted(s.targets, pi, uids, last);
      var next := NextUid(s, ki, li, pi);
      if next.None? { break; }
      var u := next.value;
      AddedIsWanted(s, ki, li, pi, u, uids, last);
      ki := SkipEqual(s.kmod, Id, NoSkip, ki, uids, last, u);
      li := SkipEqual(s.lsposed, Id, NoSkip, li, uids, last, u);
      pi := SkipEqual(s.targets, TargetUid, Unrestricted, pi, uids, last, u);
      MergeStep(s, ki, li, pi, uids, last, u);
      uids, last := uids + [u], u;
    }
    MergeLeads(s, ki, li, pi, uids, last, capacity);
  }

  lemma AddedIsWanted(s: Snapshot, ki: nat, li: nat, pi: nat, u: u32, uids: seq<u32>, last: int)
    requires Merging(s, ki, li, pi, uids, last) && (pi < |s.targets| ==> !Unrestricted(s.targets[pi]))
    requires (ki < |s.kmod| && u == s.kmod[ki]) || (li < |s.lsposed| && u == s.lsposed[li]) ||
             (pi < |s.targets| && u == s.targets[pi].uid)
    ensures Wanted(s, u) && last < u
  {
    assert ki < |s.kmod| ==> last < Id(s.kmod[ki]);
    assert li < |s.lsposed| ==> last < Id(s.lsposed[li]);
    assert pi < |s.targets| ==> last < TargetUid(s.targets[pi]);
  }

  lemma MergeStep(s: Snapshot, ki: nat, li: nat, pi: nat, uids: seq<u32>, last: int, u: u32)
    requires Split(s.kmod, Id, NoSkip, ki, uids + [u], u) && Split(s.lsposed, Id, NoSkip, li, uids + [u], u)
    requires Split(s.targets, TargetUid, Unrestricted, pi, uids + [u], u)
    requires StrictBy(uids, Id) && (forall k :: 0 <= k < |uids| ==> Id(uids[k]) <= last)
    requires (forall v :: v in uids ==> Wanted(s, v)) && Wanted(s, u) && last < u
    ensures Merging(s, ki, li, pi, uids + [u], u)
  {
  }

  // ------------------------------------------------------------------ capacity

  function Requested(s: Snapshot): nat { |s.kmod| + |s.lsposed| + |s.targets| }

  function Capacity(s: Snapshot): nat
  {
    if Inverted(s) || Requested(s) > MAX_UIDS then MAX_UIDS else Requested(s)
  }

  ghost function WantedSet(s: Snapshot): set<int>
  {
    Keys(s.kmod, Id) + Keys(s.lsposed, Id) + Keys(s.targets, TargetUid)
  }

  /** How many wanted UIDs come before this one. */
  ghost function Rank(s: Snapshot, u: u32): nat { |Earlier(s, u)| }

  ghost function Earlier(s: Snapshot, u: u32): set<int> { set v: int | 0 <= v < u && Wanted(s, v) }

  lemma SmallerMembers(uids: seq<u32>, s: Snapshot, u: u32)
    requires StrictBy(uids, Id) && forall v :: v in uids ==> Wanted(s, v) && v < u
    ensures |uids| <= Rank(s, u)
  {
    DistinctCounts(uids, Id);
    SubsetSize(Keys(uids, Id), Earlier(s, u));
  }

  lemma RankFits(s: Snapshot, u: u32)
    requires Wanted(s, u)
    ensures Rank(s, u) < Requested(s)
  {
    forall v | v in Earlier(s, u) + {u} ensures v in WantedSet(s) { WantedKey(s, v); }
    SubsetSize(Earlier(s, u) + {u}, WantedSet(s));
    WantedSize(s);
  }

  /** The merge keeps exactly the wanted UIDs with fewer than the capacity before them. */
  lemma LeadingMeans(uids: seq<u32>, s: Snapshot, u: u32)
    requires Leading(uids, s, if Requested(s) > MAX_UIDS then MAX_UIDS else Requested(s))
    ensures u in uids <==> Wanted(s, u) && Rank(s, u) < MAX_UIDS
  {
    if Wanted(s, u) && u !in uids {
      SmallerMembers(uids, s, u);
      RankFits(s, u);
    }
    if u in uids {
      forall v | v in Earlier(s, u) + {u} ensures v in Keys(uids, Id) {
        assert v in uids;
        assert Id(v) in Keys(uids, Id);
      }
      SubsetSize(Earlier(s, u) + {u}, Keys(uids, Id));
      DistinctCounts(uids, Id);
    }
  }

  lemma WantedKey(s: Snapshot, v: u32)
    requires Wanted(s, v)
    ensures v in WantedSet(s)
  {
    if v in s.kmod { assert Id(v) in Keys(s.kmod, Id); }
    else if v in s.lsposed { assert Id(v) in Keys(s.lsposed, Id); }
    else {
      var i :| 0 <= i < |s.targets| && s.targets[i].uid == v && s.targets[i].mode != UNRESTRICTED;
      assert s.targets[i] in s.targets && TargetUid(s.targets[i]) in Keys(s.targets, TargetUid);
    }
  }

  lemma WantedSize(s: Snapshot)
    ensures |WantedSet(s)| <= Requested(s)
  {
    DistinctCounts(s.kmod, Id);
    DistinctCounts(s.lsposed, Id);
    DistinctCounts(s.targets, TargetUid);
    UnionSize(Keys(s.kmod, Id), Keys(s.lsposed, Id));
    UnionSize(Keys(s.kmod, Id) + Keys(s.lsposed, Id), Keys(s.targets, TargetUid));
  }

  lemma UnionSize(a: set<int>, b: set<int>)
    ensures |a + b| <= |a| + |b|
  {
  }

  // ------------------------------------------------------------------ carrying counters over

  /** A UID's entry after the rebuild: its old counters, or none yet. */
  ghost function CarriedEntry(was: seq<Entry>, u: u32): Entry
  {
    match At(was, u) case Some(c) => Entry(u, c) case None => Entry(u, NoCounts())
  }

  ghost function Carried(uids: seq<u32>, was: seq<Entry>): (es: seq<Entry>)
    ensures |es| == |uids| && forall i :: 0 <= i < |es| ==> es[i] == CarriedEntry(was, uids[i])
  {
    seq(|uids|, i requires 0 <= i < |uids| => CarriedEntry(was, uids[i]))
  }

  ghost predicate Behind(was: seq<Entry>, j: nat, u: int)
  {
    j <= |was| && forall k :: 0 <= k < j ==> EntryUid(was[k]) < u
  }

  /** The entry of one UID, searched forward from the last match. */
  method CarryOne(was: seq<Entry>, from: nat, u: u32) returns (at: nat, e: Entry)
    requires StrictBy(was, EntryUid) && Behind(was, from, u)
    ensures e == CarriedEntry(was, u) && Behind(was, at, u + 1)
  {
    at := from;
    while at < |was| && was[at].uid < u
      invariant Behind(was, at, u)
    {
      at := at + 1;
    }
    if at < |was| && was[at].uid == u {
      AtEntry(was, at);
      e := was[at];
      at := at + 1;
    } else {
      assert forall k :: at < k < |was| ==> EntryUid(was[at]) < EntryUid(was[k]);
      e := Entry(u, NoCounts());
    }
  }

  method Carry(uids: seq<u32>, was: seq<Entry>) returns (es: seq<Entry>)
    requires StrictBy(uids, Id) && StrictBy(was, EntryUid)
    ensures es == Carried(uids, was)
  {
    es := [];
    var j := 0;
    ghost var want := Carried(uids, was);
    for i := 0 to |uids|
      invariant |es| == i && forall k :: 0 <= k < i ==> es[k] == want[k]
      invariant Behind(was, j, if i == 0 then 0 else Id(uids[i - 1]) + 1)
    {
      BehindNext(uids, was, i, j);
      var e;
      j, e := CarryOne(was, j, uids[i]);
      es := es + [e];
    }
  }

  lemma BehindNext(uids: seq<u32>, was: seq<Entry>, i: nat, j: nat)
    requires StrictBy(uids, Id) && i < |uids| && Behind(was, j, if i == 0 then 0 else Id(uids[i - 1]) + 1)
    ensures Behind(was, j, uids[i])
  {
    assert i > 0 ==> Id(uids[i - 1]) < Id(uids[i]);
  }

  /** Exactly the entries of the UIDs to keep, unchanged and in order. */
  ghost function Kept(es: seq<Entry>, keep: u32 -> bool): seq<Entry>
  {
    if es == [] then [] else
    Kept(es[..|es| - 1], keep) + (if keep(es[|es| - 1].uid) then [es[|es| - 1]] else [])
  }

  lemma {:induction false} KeptMembers(es: seq<Entry>, keep: u32 -> bool)
    ensures |Kept(es, keep)| <= |es|
    ensures forall e :: e in Kept(es, keep) <==> e in es && keep(e.uid)
  {
    if es != [] {
      KeptMembers(es[..|es| - 1], keep);
      assert es == es[..|es| - 1] + [es[|es| - 1]];
    }
  }

  lemma {:induction false} KeptSorted(es: seq<Entry>, keep: u32 -> bool)
    requires StrictBy(es, EntryUid)
    ensures StrictBy(Kept(es, keep), EntryUid)
  {
    if es != [] {
      var n := |es| - 1;
      KeptSorted(es[..n], keep);
      KeptBelow(es, keep, Kept(es[..n], keep));
    }
  }

  lemma KeptBelow(es: seq<Entry>, keep: u32 -> bool, r: seq<Entry>)
    requires es != [] && StrictBy(es, EntryUid) && r == Kept(es[..|es| - 1], keep)
    ensures forall i :: 0 <= i < |r| ==> EntryUid(r[i]) < EntryUid(es[|es| - 1])
  {
    var n := |es| - 1;
    KeptMembers(es[..n], keep);
    forall i | 0 <= i < |r| ensures EntryUid(r[i]) < EntryUid(es[n]) {
      assert r[i] in es[..n];
      var k :| 0 <= k < n && es[k] == r[i];
    }
  }

  lemma {:induction false} KeptAt(es: seq<Entry>, keep: u32 -> bool, u: u32)
    requires StrictBy(es, EntryUid)
    ensures At(Kept(es, keep), u) == if keep(u) then At(es, u) else None
  {
    KeptMembers(es, keep);
    KeptSorted(es, keep);
    var r := Kept(es, keep);
    if At(r, u).Some? {
      var i :| 0 <= i < |r| && r[i].uid == u;
      AtEntry(r, i);
      assert r[i] in es;
      var k :| 0 <= k < |es| && es[k] == r[i];
      AtEntry(es, k);
    } else if At(es, u).Some? {
      var k :| 0 <= k < |es| && es[k].uid == u;
      if es[k] in r { assert false; }
    }
  }

  // ------------------------------------------------------------------ the array in the kernel

  ghost predicate Sorted(es: seq<Entry>, capacity: nat)
  {
    StrictBy(es, EntryUid) && |es| <= capacity <= MAX_UIDS
  }

  /** `r` is `es` with `e` put in before position `k`. */
  ghost predicate Inserted(r: seq<Entry>, es: seq<Entry>, k: nat, e: Entry)
  {
    && |r| == |es| + 1 && k <= |es| && r[k] == e
    && (forall i :: 0 <= i < k ==> r[i] == es[i]) && (forall i :: k <= i < |es| ==> r[i + 1] == es[i])
  }

  lemma InsertStrict(r: seq<Entry>, es: seq<Entry>, k: nat, e: Entry)
    requires StrictBy(es, EntryUid) && Inserted(r, es, k, e)
    requires forall i :: 0 <= i < k ==> EntryUid(es[i]) < e.uid
    requires forall i :: k <= i < |es| ==> e.uid < EntryUid(es[i])
    ensures StrictBy(r, EntryUid)
  {
    assert forall i :: k < i < |r| ==> r[i] == es[i - 1];
  }

  lemma InsertAt(r: seq<Entry>, es: seq<Entry>, k: nat, e: Entry, u: u32)
    requires StrictBy(es, EntryUid) && Inserted(r, es, k, e) && StrictBy(r, EntryUid)
    ensures At(r, u) == if u == e.uid then Some(e.counts) else At(es, u)
  {
    if u == e.uid {
      AtEntry(r, k);
    } else if At(es, u).Some? {
      var i :| 0 <= i < |es| && es[i].uid == u;
      AtEntry(es, i);
      AtEntry(r, if i < k then i else i + 1);
    } else {
      assert forall j :: k < j < |r| ==> r[j] == es[j - 1];
    }
  }

  lemma WriteSorted(es: seq<Entry>, k: nat, c: Counts)
    requires StrictBy(es, EntryUid) && k < |es|
    ensures StrictBy(es[k := Entry(es[k].uid, c)], EntryUid) && At(es[k := Entry(es[k].uid, c)], es[k].uid) == Some(c)
    ensures forall u: u32 :: u != es[k].uid ==> At(es[k := Entry(es[k].uid, c)], u) == At(es, u)
  {
    var r := es[k := Entry(es[k].uid, c)];
    assert forall i :: 0 <= i < |es| ==> EntryUid(r[i]) == EntryUid(es[i]);
    AtEntry(r, k);
    forall u: u32 | u != es[k].uid ensures At(r, u) == At(es, u) {
      if At(es, u).Some? {
        var i :| 0 <= i < |es| && es[i].uid == u;
        AtEntry(es, i);
        AtEntry(r, i);
      }
    }
  }

  /** Adding to a counter changes nothing else; a new UID needs a free place. */
  ghost predicate CountAdded(after: seq<Entry>, before: seq<Entry>, capacity: nat, u: u32, mayInsert: bool, kind: nat,
                             n: nat)
  {
    && (forall v: u32 :: v != u ==> At(after, v) == At(before, v))
    && At(after, u) ==
       match At(before, u)
       case Some(c) => Some(Added(c, kind, n))
       case None => if mayInsert && |before| < capacity then Some(Added(NoCounts(), kind, n)) else None
  }

  class UidCounters {
    var entries: seq<Entry>
    var capacity: nat

    ghost predicate Valid()
      reads this
    {
      Sorted(entries, capacity)
    }

    constructor ()
      ensures Valid() && entries == [] && capacity == 0
    {
      entries, capacity := [], 0;
    }

    /** The search and insertion that both recorders share. */
    method Add(uid: u32, mayInsert: bool, kind: nat, n: nat)
      requires Valid()
      modifies this`entries
      ensures Valid() && CountAdded(entries, old(entries), capacity, uid, mayInsert, kind, n)
    {
      var lo, hi := 0, |entries| - 1;
      while lo <= hi
        invariant 0 <= lo <= hi + 1 <= |entries| && entries == old(entries)
        invariant forall i :: 0 <= i < lo ==> EntryUid(entries[i]) < uid
        invariant forall i :: hi < i < |entries| ==> uid < EntryUid(entries[i])
      {
        var mid := lo + (hi - lo) / 2;
        if entries[mid].uid == uid {
          AtEntry(entries, mid);
          WriteSorted(entries, mid, Added(entries[mid].counts, kind, n));
          entries := entries[mid := Entry(uid, Added(entries[mid].counts, kind, n))];
          return;
        }
        if entries[mid].uid < uid { lo := mid + 1; } else { hi := mid - 1; }
      }
      if !mayInsert || |entries| >= capacity { return; }
      var e := Entry(uid, Added(NoCounts(), kind, n));
      var r := entries[..lo] + [e] + entries[lo..];
      InsertStrict(r, entries, lo, e);
      forall v: u32 { InsertAt(r, entries, lo, e, v); }
      entries := r;
    }

    /** record_kmod_intercept: system UIDs are not counted at all. */
    method RecordIntercept(uid: u32, kind: nat)
      requires Valid() && kind < 7
      modifies this`entries
      ensures Valid() && (!Eligible(uid) ==> entries == old(entries))
      ensures Eligible(uid) ==> CountAdded(entries, old(entries), capacity, uid, true, kind, 1)
    {
      if uid == 0 || uid == 1000 || uid % 100000 < 10000 { return; }
      Add(uid, true, kind, 1);
    }

    /** vpnhide_kmod_record_java_stat */
    method RecordJava(uid: u32, hook: nat, n: nat)
      requires Valid()
      modifies this`entries
      ensures Valid() && CountAdded(entries, old(entries), capacity, uid, Eligible(uid), 7 + hook, n)
    {
      Add(uid, uid != 0 && uid != 1000 && uid % 100000 >= 10000, 7 + hook, n);
    }

    /** kmod_stats_reconcile */
    method Reconcile(s: Snapshot)
      requires Valid() && SnapshotOk(s)
      modifies this
      ensures Valid() && capacity == Capacity(s)
      ensures Inverted(s) ==> forall u: u32 :: At(entries, u) == if HasStats(s, u) then old(At(entries, u)) else None
      ensures !Inverted(s) ==> exists uids :: Leading(uids, s, capacity) && entries == Carried(uids, old(entries))
    {
      capacity := Capacity(s);
      if Inverted(s) {
        entries := KeepCovered(s, entries, capacity);
      } else {
        var uids := MergeUids(s, capacity);
        var was := entries;
        entries := Carry(uids, was);
        assert forall i :: 0 <= i < |entries| ==> EntryUid(entries[i]) == Id(uids[i]);
      }
    }
  }

  /** The loop of the inverted case: the old entries that the policy still covers. */
  method KeepCovered(s: Snapshot, was: seq<Entry>, capacity: nat) returns (es: seq<Entry>)
    requires SnapshotOk(s) && StrictBy(was, EntryUid) && |was| <= capacity
    ensures StrictBy(es, EntryUid) && |es| <= |was|
    ensures forall u: u32 :: At(es, u) == if HasStats(s, u) then At(was, u) else None
  {
    es := [];
    ghost var keep := (u: u32) => HasStats(s, u);
    for j := 0 to |was|
      invariant |es| <= j && es == Kept(was[..j], keep)
    {
      var yes := UidHasStats(s, was[j].uid);
      assert was[..j + 1][..j] == was[..j];
      if yes { es := es + [was[j]]; }
    }
    assert was[..|was|] == was;
    KeptMembers(was, keep);
    KeptSorted(was, keep);
    forall u: u32 ensures At(es, u) == if HasStats(s, u) then At(was, u) else None { KeptAt(was, keep, u); }
  }

  /** Whatever the mode, a publication keeps the counters of every recordable UID that the
      policy covers, forgets those of every other, and invents none; only a policy without
      inverted layers that names more UIDs than fit forgets the last of them. */
  lemma ReconcileKeeps(s: Snapshot, was: seq<Entry>, now: seq<Entry>, uids: seq<u32>, u: u32)
    requires StrictBy(was, EntryUid) && Eligible(u)
    requires Inverted(s) ==> At(now, u) == if HasStats(s, u) then At(was, u) else None
    requires !Inverted(s) ==> Leading(uids, s, Capacity(s)) && now == Carried(uids, was)
    ensures !HasStats(s, u) ==> At(now, u).None?
    ensures HasStats(s, u) && At(was, u).Some? ==>
              At(now, u) == if Inverted(s) || Rank(s, u) < MAX_UIDS then At(was, u) else None
    ensures At(was, u).None? ==> At(now, u).None? || At(now, u) == Some(NoCounts())
  {
    if !Inverted(s) {
      LeadingMeans(uids, s, u);
      WantedIsHasStats(s, u);
      assert forall i :: 0 <= i < |now| ==> EntryUid(now[i]) == Id(uids[i]);
      if u in uids {
        var i :| 0 <= i < |uids| && uids[i] == u;
        assert now[i].uid == u;
        AtEntry(now, i);
      }
    }
  }
}
