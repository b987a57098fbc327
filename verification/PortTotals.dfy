/** A UID's port total against the counters of its single ports: what one recording does to
    both tables of the kernel (kmod/main.c), and what a point of the daemon's ring
    (daemon/stats.c) then shows of an interval. */
module PortTotals {
  import opened Types
  import opened Sorting
  import opened PolicyResolve
  import opened PolicyDecode
  import opened UidStats
  import opened PortStats
  import opened Sums
  import StatsDelta

  /** The counter of blocked port accesses. */
  const PORT := 6

  /** The counters of the UIDs, for how many there is room, and the counters of the ports. */
  datatype State = State(entries: seq<Entry>, rooms: nat, ports: Counters)

  /** A recording, of a port access or of another hook, native or Java, or the publication of
      a policy, which rebuilds the table of UIDs. */
  datatype Hit = Port(key: Key, now: nat) | Hook(uid: u32, mayInsert: bool, kind: nat, n: nat) | Publish

  ghost predicate Step(a: State, h: Hit, b: State, slots: nat)
  {
    match h
    case Port(k, now) =>
      && (if Eligible(k.uid) then CountAdded(b.entries, a.entries, a.rooms, k.uid, true, PORT, 1)
          else b.entries == a.entries)
      && b.rooms == a.rooms && b.ports == Recorded(a.ports, slots, k, now)
    case Hook(u, mayInsert, kind, n) =>
      && kind != PORT && CountAdded(b.entries, a.entries, a.rooms, u, mayInsert, kind, n)
      && b.rooms == a.rooms && b.ports == a.ports
    case Publish => b.ports == a.ports
  }

  /** A publication leaves the counters of the UID, or gives it new ones. */
  ghost predicate Spared(a: State, b: State, u: u32)
  {
    At(b.entries, u) == At(a.entries, u) || (At(a.entries, u).None? && At(b.entries, u) == Some(NoCounts()))
  }

  /** The publication of a policy that covers the UID does, unless it names too many UIDs. */
  lemma CoveredIsSpared(s: Snapshot, a: State, b: State, uids: seq<u32>, u: u32)
    requires StrictBy(a.entries, EntryUid) && Eligible(u) && HasStats(s, u) && (Inverted(s) || Rank(s, u) < MAX_UIDS)
    requires Inverted(s) ==> At(b.entries, u) == At(a.entries, u)
    requires !Inverted(s) ==> Leading(uids, s, Capacity(s)) && b.entries == Carried(uids, a.entries)
    ensures Spared(a, b, u)
  {
    ReconcileKeeps(s, a.entries, b.entries, uids, u);
  }

  /** record_port_intercept: both tables record the access, each under its own limits. */
  method RecordPortIntercept(uids: UidCounters, ports: PortCounters, k: Key, now: nat)
    requires uids.Valid() && ports.Valid()
    modifies uids`entries, ports`dropped, ports.slots
    ensures uids.Valid() && ports.Valid()
    ensures Step(State(old(uids.entries), uids.capacity, old(ports.Abs())), Port(k, now),
                 State(uids.entries, uids.capacity, ports.Abs()), ports.capacity)
  {
    uids.RecordIntercept(k.uid, PORT);
    ports.Record(k, now);
  }

  // ------------------------------------------------------------------ an interval

  datatype Moment = Moment(before: State, hit: Hit)

  /** What happens between two samples, with the state that each step finds. */
  ghost predicate Interval(log: seq<Moment>, last: State, slots: nat)
  {
    log == [] ||
    var m := log[|log| - 1];
    Step(m.before, m.hit, last, slots) && Interval(log[..|log| - 1], m.before, slots)
  }

  /** The publications of the interval spare the UID. */
  ghost predicate Spares(log: seq<Moment>, last: State, u: u32)
  {
    log == [] ||
    var m := log[|log| - 1];
    (m.hit.Publish? ==> Spared(m.before, last, u)) && Spares(log[..|log| - 1], m.before, u)
  }

  function First(log: seq<Moment>, last: State): State { if log == [] then last else log[0].before }

  predicate AccessBy(m: Moment, u: u32) { m.hit.Port? && m.hit.key.uid == u }

  /** The port accesses of a UID. */
  function Accesses(log: seq<Moment>, u: u32): nat
  {
    if log == [] then 0 else
    var h := log[|log| - 1].hit;
    Accesses(log[..|log| - 1], u) + (if h.Port? && h.key.uid == u then 1 else 0)
  }

  predicate Seated(s: State, u: u32)
  {
    Eligible(u) && ((exists i :: 0 <= i < |s.entries| && s.entries[i].uid == u) || |s.entries| < s.rooms)
  }

  /** The accesses that find no entry for the UID and none to be had. */
  function Unlisted(log: seq<Moment>, u: u32): nat
  {
    if log == [] then 0 else
    var m := log[|log| - 1];
    Unlisted(log[..|log| - 1], u) +
    (if m.hit.Port? && m.hit.key.uid == u && !Seated(m.before, u) then 1 else 0)
  }

  ghost predicate Wide(es: seq<Entry>, u: u32) { At(es, u).Some? ==> |At(es, u).value| == KINDS }

  ghost function PortTotal(s: State, u: u32): nat
  {
    match At(s.entries, u)
    case Some(c) => if PORT < |c| then c[PORT] else 0
    case None => 0
  }

  lemma {:induction false} TotalMoves(log: seq<Moment>, last: State, slots: nat, u: u32)
    requires Interval(log, last, slots) && Wide(First(log, last).entries, u) && Spares(log, last, u)
    ensures Wide(last.entries, u)
    ensures PortTotal(last, u) + Unlisted(log, u) == PortTotal(First(log, last), u) + Accesses(log, u)
  {
    if log != [] {
      var m := log[|log| - 1];
      TotalMoves(log[..|log| - 1], m.before, slots, u);
      TotalStep(m.before, m.hit, last, slots, u);
    }
  }

  lemma TotalStep(a: State, h: Hit, b: State, slots: nat, u: u32)
    requires Step(a, h, b, slots) && Wide(a.entries, u) && (h.Publish? ==> Spared(a, b, u))
    ensures Wide(b.entries, u)
    ensures PortTotal(b, u) ==
            PortTotal(a, u) + (if h.Port? && h.key.uid == u && Seated(a, u) then 1 else 0)
  {
  }

  // ------------------------------------------------------------------ one port

  function AccessesOf(log: seq<Moment>, k: Key): nat
  {
    if log == [] then 0 else
    var h := log[|log| - 1].hit;
    AccessesOf(log[..|log| - 1], k) + (if h.Port? && h.key == k then 1 else 0)
  }

  predicate Stored(s: State, slots: nat, k: Key) { Countable(k) && (k in s.ports.live || |s.ports.live| < slots) }

  /** The accesses that the port table does not take: they name no port, or find it full. */
  function Missed(log: seq<Moment>, slots: nat, k: Key): nat
  {
    if log == [] then 0 else
    var m := log[|log| - 1];
    Missed(log[..|log| - 1], slots, k) + (if m.hit.Port? && m.hit.key == k && !Stored(m.before, slots, k) then 1 else 0)
  }

  function LastAccess(log: seq<Moment>, k: Key): nat
  {
    if log == [] then 0 else
    var h := log[|log| - 1].hit;
    if h.Port? && h.key == k then h.now else LastAccess(log[..|log| - 1], k)
  }

  lemma {:induction false} CountMoves(log: seq<Moment>, last: State, slots: nat, k: Key)
    requires Interval(log, last, slots)
    ensures CountOf(last.ports.live, k) + Missed(log, slots, k) ==
              CountOf(First(log, last).ports.live, k) + AccessesOf(log, k)
    ensures Missed(log, slots, k) < AccessesOf(log, k) ==>
              Countable(k) && k in last.ports.live && last.ports.live[k].seen == LastAccess(log, k)
  {
    if log != [] {
      var m := log[|log| - 1];
      CountMoves(log[..|log| - 1], m.before, slots, k);
      CountStep(m.before, m.hit, last, slots, k);
    }
  }

  lemma CountStep(a: State, h: Hit, b: State, slots: nat, k: Key)
    requires Step(a, h, b, slots)
    ensures if h.Port? && h.key == k && Stored(a, slots, k)
            then CountOf(b.ports.live, k) == CountOf(a.ports.live, k) + 1 && k in b.ports.live &&
                 b.ports.live[k].seen == h.now
            else CountOf(b.ports.live, k) == CountOf(a.ports.live, k) &&
                 (k in a.ports.live ==> k in b.ports.live && b.ports.live[k] == a.ports.live[k])
  {
  }

  /** The accesses that were counted but are too old by the time of the second sample. */
  function Forgotten(log: seq<Moment>, slots: nat, at: nat, ttl: nat, k: Key): nat
  {
    if Missed(log, slots, k) < AccessesOf(log, k) && LastAccess(log, k) + ttl < at
    then AccessesOf(log, k) - Missed(log, slots, k) else 0
  }

  /** What the point shows for a port: taking the second sample sweeps the table. */
  function PortDelta(first: State, last: State, at: nat, ttl: nat, k: Key): nat
  {
    StatsDelta.StatsDelta(CountOf(Expired(last.ports, at, ttl).live, k), CountOf(first.ports.live, k))
  }

  lemma {:induction false} PortDeltaMeans(log: seq<Moment>, last: State, slots: nat, at: nat, ttl: nat,
                                          k: Key)
    requires Interval(log, last, slots)
    ensures PortDelta(First(log, last), last, at, ttl, k) + Missed(log, slots, k) + Forgotten(log, slots, at, ttl, k) ==
            AccessesOf(log, k)
  {
    CountMoves(log, last, slots, k);
    MissedAtMost(log, slots, k);
  }

  lemma {:induction false} MissedAtMost(log: seq<Moment>, slots: nat, k: Key)
    ensures Missed(log, slots, k) <= AccessesOf(log, k)
  {
    if log != [] { MissedAtMost(log[..|log| - 1], slots, k); }
  }

  // ------------------------------------------------------------------ all ports of a UID

  /** The keys are ports of the UID and include every one that it accessed. */
  ghost predicate PortsOf(keys: seq<Key>, log: seq<Moment>, u: u32)
  {
    && NoRepeat(keys) && (forall k :: k in keys ==> k.uid == u)
    && (forall i :: 0 <= i < |log| && AccessBy(log[i], u) ==> log[i].hit.key in keys)
  }

  lemma {:induction false} AccessesTotal(keys: seq<Key>, log: seq<Moment>, u: u32)
    requires PortsOf(keys, log, u)
    ensures SumOver(keys, k => AccessesOf(log, k)) == Accesses(log, u)
  {
    if log == [] {
      SumZero(keys, k => AccessesOf(log, k));
    } else {
      var before, h := log[..|log| - 1], log[|log| - 1].hit;
      AccessesTotal(keys, before, u);
      var k := if h.Port? then h.key else Key(0, 0, 0);
      SumStep(keys, k => AccessesOf(before, k), k => AccessesOf(log, k), k, if h.Port? then 1 else 0);
    }
  }

  /** Over an interval whose publications spare the UID, the delta of a UID's port total
      and the sum of the deltas of its ports account for the same accesses, each short of
      what its own table did not keep. */
  lemma {:induction false} DeltasAccount(keys: seq<Key>, log: seq<Moment>, last: State, slots: nat,
                                         at: nat, ttl: nat, u: u32)
    requires Interval(log, last, slots) && Wide(First(log, last).entries, u) && Spares(log, last, u) &&
             PortsOf(keys, log, u)
    ensures StatsDelta.StatsDelta(PortTotal(last, u), PortTotal(First(log, last), u)) + Unlisted(log, u) ==
            SumOver(keys, k => PortDelta(First(log, last), last, at, ttl, k)) +
            SumOver(keys, k => Missed(log, slots, k)) + SumOver(keys, k => Forgotten(log, slots, at, ttl, k))
  {
    TotalMoves(log, last, slots, u);
    UnlistedAtMost(log, u);
    AccessesTotal(keys, log, u);
    forall k
      ensures AccessesOf(log, k) ==
              PortDelta(First(log, last), last, at, ttl, k) + Missed(log, slots, k) + Forgotten(log, slots, at, ttl, k)
    {
      PortDeltaMeans(log, last, slots, at, ttl, k);
    }
    SumAdds(keys, k => PortDelta(First(log, last), last, at, ttl, k), k => Missed(log, slots, k),
            k => Forgotten(log, slots, at, ttl, k), k => AccessesOf(log, k));
  }

  lemma {:induction false} UnlistedAtMost(log: seq<Moment>, u: u32)
    ensures Unlisted(log, u) <= Accesses(log, u)
  {
    if log != [] { UnlistedAtMost(log[..|log| - 1], u); }
  }

  // ------------------------------------------------------------------ when they are equal

  predicate AccessOf(m: Moment, k: Key) { m.hit.Port? && m.hit.key == k }

  /** Every access of the port went to the table and is still there at the sample. */
  ghost predicate KeyKept(log: seq<Moment>, slots: nat, at: nat, ttl: nat, k: Key)
  {
    forall i :: 0 <= i < |log| && AccessOf(log[i], k) ==>
      Stored(log[i].before, slots, k) && at <= LastAccess(log, k) + ttl
  }

  /** The same for every access of the UID. */
  ghost predicate AllKept(log: seq<Moment>, slots: nat, at: nat, ttl: nat, u: u32)
  {
    forall i :: 0 <= i < |log| && AccessBy(log[i], u) ==>
      Stored(log[i].before, slots, log[i].hit.key) && at <= LastAccess(log, log[i].hit.key) + ttl
  }

  lemma {:induction false} MissedNone(log: seq<Moment>, slots: nat, k: Key)
    ensures Missed(log, slots, k) == 0 <==>
            forall i :: 0 <= i < |log| && AccessOf(log[i], k) ==> Stored(log[i].before, slots, k)
    ensures AccessesOf(log, k) == 0 <==> forall i :: 0 <= i < |log| ==> !AccessOf(log[i], k)
  {
    if log != [] {
      var n := |log| - 1;
      MissedNone(log[..n], slots, k);
      assert forall i :: 0 <= i < n ==> log[..n][i] == log[i];
      assert AccessOf(log[n], k) || !AccessOf(log[n], k);
    }
  }

  lemma {:induction false} KeyKeptMeans(log: seq<Moment>, slots: nat, at: nat, ttl: nat, k: Key)
    ensures Missed(log, slots, k) == 0 && Forgotten(log, slots, at, ttl, k) == 0 <==> KeyKept(log, slots, at, ttl, k)
  {
    MissedNone(log, slots, k);
    MissedAtMost(log, slots, k);
  }

  /** Every access of the UID found an entry for it, or room for one. */
  ghost predicate AllSeated(log: seq<Moment>, u: u32)
  {
    forall i :: 0 <= i < |log| && AccessBy(log[i], u) ==> Seated(log[i].before, u)
  }

  lemma {:induction false} UnlistedNone(log: seq<Moment>, u: u32)
    ensures Unlisted(log, u) == 0 <==> AllSeated(log, u)
  {
    if log != [] {
      var n := |log| - 1;
      UnlistedNone(log[..n], u);
      assert forall i :: 0 <= i < n ==> log[..n][i] == log[i];
      assert AccessBy(log[n], u) || !AccessBy(log[n], u);
    }
  }

  /** The accesses of the ports that the point does not show. */
  function Unshown(keys: seq<Key>, log: seq<Moment>, slots: nat, at: nat, ttl: nat): nat
  {
    SumOver(keys, k => Missed(log, slots, k)) + SumOver(keys, k => Forgotten(log, slots, at, ttl, k))
  }

  /** The documented equality: the delta of a UID's port total is the sum of the deltas of its
      ports exactly when both tables missed as many of its accesses.  If the table of UIDs
      missed none, this is when no access of the UID named no port, found the port table full,
      or was older than the time to live at the sample; if the port table kept all, it is when
      every access found an entry for the UID or room for one. */
  lemma {:induction false} PortDeltaIsSum(keys: seq<Key>, log: seq<Moment>, last: State, slots: nat,
                                          at: nat, ttl: nat, u: u32)
    requires Interval(log, last, slots) && Wide(First(log, last).entries, u) && Spares(log, last, u) &&
             PortsOf(keys, log, u)
    ensures var equal := StatsDelta.StatsDelta(PortTotal(last, u), PortTotal(First(log, last), u)) ==
                         SumOver(keys, k => PortDelta(First(log, last), last, at, ttl, k));
            && (equal <==> Unlisted(log, u) == Unshown(keys, log, slots, at, ttl))
            && (AllSeated(log, u) ==> (equal <==> AllKept(log, slots, at, ttl, u)))
            && (AllKept(log, slots, at, ttl, u) ==> (equal <==> AllSeated(log, u)))
  {
    UnlistedNone(log, u);
    DeltasAccount(keys, log, last, slots, at, ttl, u);
    SumIsZero(keys, k => Missed(log, slots, k));
    SumIsZero(keys, k => Forgotten(log, slots, at, ttl, k));
    AllKeysKept(keys, log, slots, at, ttl, u);
  }

  /** A counted UID that has an entry at the first sample loses no access there. */
  lemma {:induction false} SeatedThroughout(log: seq<Moment>, last: State, slots: nat, u: u32)
    requires Interval(log, last, slots) && Spares(log, last, u)
    requires Eligible(u) && At(First(log, last).entries, u).Some?
    ensures At(last.entries, u).Some? && AllSeated(log, u)
  {
    if log != [] {
      var n := |log| - 1;
      SeatedThroughout(log[..n], log[n].before, slots, u);
      assert forall i :: 0 <= i < n ==> log[..n][i] == log[i];
    }
  }

  /** One access of a port by a UID that the full table of UIDs, however large, has no entry
      for: the port moves, the total does not. */
  lemma FullTableSplits(rooms: nat, slots: nat, at: nat, ttl: nat) returns (log: seq<Moment>, last: State, k: Key)
    requires rooms <= MAX_UIDS && slots > 0 && at <= ttl
    ensures Interval(log, last, slots) && Eligible(k.uid) && PortsOf([k], log, k.uid)
    ensures Sorted(last.entries, rooms) && last.rooms == rooms && AllKept(log, slots, at, ttl, k.uid)
    ensures StatsDelta.StatsDelta(PortTotal(last, k.uid), PortTotal(First(log, last), k.uid)) == 0
    ensures SumOver([k], k => PortDelta(First(log, last), last, at, ttl, k)) == 1
  {
    k := Key(10000, 80, 0);
    var others := seq(rooms, i requires 0 <= i < rooms => Entry(10001 + i, NoCounts()));
    var first := State(others, rooms, Counters(map[], 0));
    log, last := [Moment(first, Port(k, 0))], State(others, rooms, Counters(map[k := Cell(1, 0)], 0));
    assert Step(first, Port(k, 0), last, slots);
    assert log[..0] == [];
    assert LastAccess(log, k) == 0;
  }

  lemma {:induction false} AllKeysKept(keys: seq<Key>, log: seq<Moment>, slots: nat, at: nat, ttl: nat, u: u32)
    requires PortsOf(keys, log, u)
    ensures AllKept(log, slots, at, ttl, u) <==>
            forall k :: k in keys ==> Missed(log, slots, k) == 0 && Forgotten(log, slots, at, ttl, k) == 0
  {
    forall k
      ensures Missed(log, slots, k) == 0 && Forgotten(log, slots, at, ttl, k) == 0 <==> KeyKept(log, slots, at, ttl, k)
    {
      KeyKeptMeans(log, slots, at, ttl, k);
    }
    if forall k :: k in keys ==> KeyKept(log, slots, at, ttl, k) {
      forall i | 0 <= i < |log| && AccessBy(log[i], u)
        ensures Stored(log[i].before, slots, log[i].hit.key) && at <= LastAccess(log, log[i].hit.key) + ttl
      {
        assert AccessOf(log[i], log[i].hit.key);
      }
    }
  }

  /** One access of port zero, which a UID that is denied everything can make: the total
      moves, no port does. */
  lemma PortZeroSplits(slots: nat, at: nat, ttl: nat) returns (log: seq<Moment>, last: State, k: Key)
    ensures Interval(log, last, slots) && Eligible(k.uid) && PortsOf([k], log, k.uid)
    ensures At(First(log, last).entries, k.uid) == Some(NoCounts())
    ensures StatsDelta.StatsDelta(PortTotal(last, k.uid), PortTotal(First(log, last), k.uid)) == 1
    ensures SumOver([k], k => PortDelta(First(log, last), last, at, ttl, k)) == 0
  {
    k := Key(10000, 0, 0);
    var c := NoCounts();
    var first := State([Entry(k.uid, c)], 1, Counters(map[], 0));
    log, last := [Moment(first, Port(k, 0))], State([Entry(k.uid, c[PORT := 1])], 1, Counters(map[], 0));
    assert first.entries[0].uid == k.uid && last.entries[0].uid == k.uid;
    assert Step(first, Port(k, 0), last, slots);
    assert log[..0] == [];
  }
}
