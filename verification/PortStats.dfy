/** The per-port interception counters (kmod/main.c): a linear-probe table with tombstones
    that refines a map of bounded size, and the conservation of recorded events. */
module PortStats {
  import opened Types
  import opened Probing
  import opened Sorting
  import opened Sums

  datatype Key = Key(uid: u32, port: u16, protocol: byte)

  datatype Cell = Cell(count: nat, seen: nat)

  datatype Slot = Empty | Tombstone | Used(key: Key, cell: Cell)

  const UDP: byte := 1

  /** Only real ports of the two protocols are counted. */
  predicate Countable(k: Key) { k.port != 0 && k.protocol <= UDP }

  // ------------------------------------------------------------------ what the table means

  function Live(slots: seq<Slot>): map<Key, Cell>
  {
    if slots == [] then map[] else
    var rest := Live(slots[1..]);
    if slots[0].Used? then rest[slots[0].key := slots[0].cell] else rest
  }

  ghost predicate Distinct(slots: seq<Slot>)
  {
    forall p, q :: 0 <= p < q < |slots| && slots[p].Used? && slots[q].Used? ==> slots[p].key != slots[q].key
  }

  /** No used key sits behind an empty slot, and none occurs twice. */
  ghost predicate Table(slots: seq<Slot>, hash: Key -> nat)
  {
    && Distinct(slots)
    && (forall p, q :: 0 <= p < |slots| && 0 <= q < |slots| && slots[p].Used? ==>
          Between(Home(hash(slots[p].key), |slots|), q, p) ==> !slots[q].Empty?)
  }

  ghost predicate HasKey(slots: seq<Slot>, k: Key, p: int) { 0 <= p < |slots| && slots[p].Used? && slots[p].key == k }

  lemma {:induction false} LiveAt(slots: seq<Slot>, p: nat)
    requires Distinct(slots) && p < |slots| && slots[p].Used?
    ensures slots[p].key in Live(slots) && Live(slots)[slots[p].key] == slots[p].cell
  {
    if p > 0 {
      LiveAt(slots[1..], p - 1);
    }
  }

  lemma {:induction false} LiveFrom(slots: seq<Slot>, k: Key) returns (p: nat)
    requires k in Live(slots)
    ensures HasKey(slots, k, p)
  {
    if slots[0].Used? && slots[0].key == k { return 0; }
    var q := LiveFrom(slots[1..], k);
    p := q + 1;
  }

  lemma {:induction false} LiveSize(slots: seq<Slot>)
    requires Distinct(slots)
    ensures |Live(slots)| <= |slots|
    ensures |Live(slots)| == |slots| <==> forall p :: 0 <= p < |slots| ==> slots[p].Used?
  {
    if slots != [] {
      var rest := slots[1..];
      LiveSize(rest);
      if slots[0].Used? {
        if slots[0].key in Live(rest) {
          var p := LiveFrom(rest, slots[0].key);
          assert false;
        }
        assert forall p :: 0 < p < |slots| ==> slots[p] == rest[p - 1];
      }
    }
  }

  /** Writing a used slot over one that is unused, or used for the same key, adds that key. */
  lemma LiveWrite(slots: seq<Slot>, p: nat, k: Key, c: Cell)
    requires Distinct(slots) && p < |slots|
    requires if slots[p].Used? then slots[p].key == k else k !in Live(slots)
    ensures Distinct(slots[p := Used(k, c)]) && Live(slots[p := Used(k, c)]) == Live(slots)[k := c]
  {
    var after := slots[p := Used(k, c)];
    forall q | 0 <= q < |slots| && q != p && slots[q].Used? ensures slots[q].key != k { LiveAt(slots, q); }
    assert Distinct(after);
    LiveAt(after, p);
    forall x ensures x in Live(after) <==> x in Live(slots)[k := c] {
      if x in Live(after) {
        var q := LiveFrom(after, x);
        if q != p { LiveAt(slots, q); }
      }
      if x in Live(slots) && x != k {
        var q := LiveFrom(slots, x);
        LiveAt(after, q);
      }
    }
    forall x | x in Live(after) ensures Live(after)[x] == Live(slots)[k := c][x] {
      var q := LiveFrom(after, x);
      LiveAt(after, q);
      if q != p { LiveAt(slots, q); }
    }
  }

  // ------------------------------------------------------------------ probing

  /** The first `n` cells on the way are in use or were, and none holds the key. */
  ghost predicate Probed(slots: seq<Slot>, home: nat, n: nat, k: Key)
  {
    forall q :: 0 <= q < |slots| && Passed(home, n, q, |slots|) ==> !slots[q].Empty? && !HasKey(slots, k, q)
  }

  /** Which cell a new key goes to once `n` cells were passed: the first tombstone, if any. */
  ghost predicate FirstFree(slots: seq<Slot>, home: nat, n: nat, t: nat)
  {
    if t == |slots| then forall q :: 0 <= q < |slots| && Passed(home, n, q, |slots|) ==> slots[q].Used?
    else t < |slots| && Passed(home, n, t, |slots|) && slots[t].Tombstone?
  }

  lemma {:induction false} NotBehind(slots: seq<Slot>, hash: Key -> nat, k: Key, home: nat, n: nat)
    requires Table(slots, hash) && n <= |slots| && home == Home(hash(k), |slots|) && Probed(slots, home, n, k)
    requires n == |slots| || slots[ProbeAt(home, n, |slots|)].Empty?
    ensures k !in Live(slots)
  {
    if k in Live(slots) {
      var p := LiveFrom(slots, k);
      if n < |slots| { assert !Between(home, ProbeAt(home, n, |slots|), p); }
      assert Passed(home, n, p, |slots|);
      assert false;
    }
  }

  /** A new key may go to any cell before which the way is not empty. */
  lemma InsertKeepsTable(slots: seq<Slot>, hash: Key -> nat, k: Key, c: Cell, home: nat, n: nat, t: nat)
    requires Table(slots, hash) && n <= |slots| && home == Home(hash(k), |slots|) && Probed(slots, home, n, k)
    requires k !in Live(slots) && t < |slots| && !slots[t].Used?
    requires Passed(home, n, t, |slots|) || (n < |slots| && t == ProbeAt(home, n, |slots|))
    ensures Table(slots[t := Used(k, c)], hash) && Live(slots[t := Used(k, c)]) == Live(slots)[k := c]
  {
    LiveWrite(slots, t, k, c);
    var after := slots[t := Used(k, c)];
    forall p, q | 0 <= p < |after| && 0 <= q < |after| && after[p].Used? &&
                  Between(Home(hash(after[p].key), |after|), q, p)
      ensures !after[q].Empty?
    {
      if p == t && q != t { assert Passed(home, n, q, |slots|); }
    }
  }

  // ------------------------------------------------------------------ the bounded map

  datatype Counters = Counters(live: map<Key, Cell>, dropped: nat)

  function Recorded(s: Counters, capacity: nat, k: Key, now: nat): Counters
  {
    if !Countable(k) then s
    else if k in s.live then s.(live := s.live[k := Cell(s.live[k].count + 1, now)])
    else if |s.live| < capacity then s.(live := s.live[k := Cell(1, now)])
    else s.(dropped := s.dropped + 1)
  }

  predicate Fresh(c: Cell, now: nat, ttl: nat) { now <= c.seen + ttl }

  function Expired(s: Counters, now: nat, ttl: nat): Counters
  {
    s.(live := map k | k in s.live && Fresh(s.live[k], now, ttl) :: s.live[k])
  }

  // ------------------------------------------------------------------ the table in the kernel

  class PortCounters {
    const hash: Key -> nat
    const ttl: nat
    const capacity: nat
    var slots: array<Slot>
    var dropped: nat

    ghost predicate Valid()
      reads this, slots
    {
      slots.Length == capacity && Table(slots[..], hash)
    }

    ghost function Abs(): Counters
      reads this, slots
    {
      Counters(Live(slots[..]), dropped)
    }

    constructor (h: Key -> nat, t: nat, n: nat)
      ensures Valid() && fresh(slots) && hash == h && ttl == t && capacity == n
      ensures Abs() == Counters(map[], 0)
    {
      hash, ttl, capacity, dropped := h, t, n, 0;
      slots := new Slot[n](_ => Empty);
      new;
      NothingLive(slots[..]);
    }

    method Record(k: Key, now: nat)
      requires Valid()
      modifies this`dropped, slots
      ensures Valid() && Abs() == Recorded(old(Abs()), capacity, k, now)
    {
      if !Countable(k) { return; }
      var cap := slots.Length;
      var home := Home(hash(k), cap);
      var first: nat := cap;
      for i := 0 to cap
        invariant slots[..] == old(slots[..]) && dropped == old(dropped)
        invariant Probed(slots[..], home, i, k) && FirstFree(slots[..], home, i, first)
      {
        var p := ProbeAt(home, i, cap);
        if slots[p].Used? && slots[p].key == k {
          Count(p, k, now);
          return;
        }
        if slots[p].Tombstone? && first == cap { first := p; }
        if slots[p].Empty? {
          NotBehind(slots[..], hash, k, home, i);
          LiveSize(slots[..]);
          Insert(if first != cap then first else p, k, now, home, i);
          return;
        }
        PassedNext(home, i, p, cap);
      }
      NotBehind(slots[..], hash, k, home, cap);
      LiveSize(slots[..]);
      if first != cap {
        Insert(first, k, now, home, cap);
        return;
      }
      assert forall q :: 0 <= q < cap ==> Passed(home, cap, q, cap);
      dropped := dropped + 1;
    }

    method Count(p: nat, k: Key, now: nat)
      requires Valid() && HasKey(slots[..], k, p)
      modifies slots
      ensures Valid() && k in old(Live(slots[..]))
      ensures Live(slots[..]) == old(Live(slots[..]))[k := Cell(old(Live(slots[..]))[k].count + 1, now)]
    {
      var c := Cell(slots[p].cell.count + 1, now);
      LiveAt(slots[..], p);
      LiveWrite(slots[..], p, k, c);
      slots[p] := Used(k, c);
      assert slots[..] == old(slots[..])[p := Used(k, c)];
    }

    method Insert(t: nat, k: Key, now: nat, ghost home: nat, ghost n: nat)
      requires Valid() && t < slots.Length && n <= slots.Length && home == Home(hash(k), slots.Length)
      requires Probed(slots[..], home, n, k) && k !in Live(slots[..]) && !slots[t].Used?
      requires Passed(home, n, t, slots.Length) || (n < slots.Length && t == ProbeAt(home, n, slots.Length))
      modifies slots
      ensures Valid() && Live(slots[..]) == old(Live(slots[..]))[k := Cell(1, now)]
    {
      InsertKeepsTable(slots[..], hash, k, Cell(1, now), home, n, t);
      slots[t] := Used(k, Cell(1, now));
      assert slots[..] == old(slots[..])[t := Used(k, Cell(1, now))];
    }

    /** count_live_port_stats_locked */
    method CountLive(now: nat) returns (n: nat)
      requires Valid()
      modifies slots
      ensures Valid() && Abs() == Expired(old(Abs()), now, ttl) && n == |Abs().live|
    {
      n := 0;
      ghost var want := Swept(slots[..], now, ttl);
      for i := 0 to slots.Length
        invariant forall p :: 0 <= p < i ==> slots[p] == want[p]
        invariant forall p :: i <= p < slots.Length ==> slots[p] == old(slots[p])
        invariant n == UsedBefore(want, i)
      {
        if !slots[i].Used? { continue; }
        if now > slots[i].cell.seen + ttl {
          slots[i] := Tombstone;
          continue;
        }
        n := n + 1;
      }
      assert slots[..] == want;
      SweptMeans(old(slots[..]), hash, now, ttl, dropped);
    }

    method Clear()
      requires Valid()
      modifies this
      ensures Valid() && fresh(slots) && Abs() == Counters(map[], 0)
    {
      slots := new Slot[capacity](_ => Empty);
      dropped := 0;
      NothingLive(slots[..]);
    }
  }

  lemma {:induction false} NothingLive(slots: seq<Slot>)
    requires forall p :: 0 <= p < |slots| ==> slots[p].Empty?
    ensures Live(slots) == map[]
  {
    if slots != [] { NothingLive(slots[1..]); }
  }

  // ------------------------------------------------------------------ the sweep

  function SweptSlot(s: Slot, now: nat, ttl: nat): Slot
  {
    if s.Used? && !Fresh(s.cell, now, ttl) then Tombstone else s
  }

  function Swept(slots: seq<Slot>, now: nat, ttl: nat): (r: seq<Slot>)
    ensures |r| == |slots| && forall p :: 0 <= p < |slots| ==> r[p] == SweptSlot(slots[p], now, ttl)
  {
    seq(|slots|, p requires 0 <= p < |slots| => SweptSlot(slots[p], now, ttl))
  }

  /** How many of the first `n` slots are used. */
  function UsedBefore(slots: seq<Slot>, n: nat): nat
    requires n <= |slots|
  {
    if n == 0 then 0 else UsedBefore(slots, n - 1) + (if slots[n - 1].Used? then 1 else 0)
  }

  lemma {:induction false} UsedIsLive(slots: seq<Slot>, n: nat)
    requires Distinct(slots) && n <= |slots|
    ensures UsedBefore(slots, n) == |Live(slots[..n])|
  {
    if n > 0 {
      UsedIsLive(slots, n - 1);
      var before, last := slots[..n - 1], slots[n - 1];
      assert slots[..n] == before + [last];
      LiveAppend(before, last);
      if last.Used? && last.key in Live(before) {
        var p := LiveFrom(before, last.key);
        assert false;
      }
    }
  }

  lemma {:induction false} LiveAppend(slots: seq<Slot>, s: Slot)
    requires Distinct(slots + [s])
    ensures Live(slots + [s]) == if s.Used? then Live(slots)[s.key := s.cell] else Live(slots)
  {
    if slots == [] {
      assert slots + [s] == [s] && [s][1..] == [];
    } else {
      assert (slots + [s])[1..] == slots[1..] + [s];
      assert Distinct(slots[1..] + [s]) by {
        forall p, q | 0 <= p < q < |slots| && (slots[1..] + [s])[p].Used? && (slots[1..] + [s])[q].Used?
          ensures (slots[1..] + [s])[p].key != (slots[1..] + [s])[q].key
        {
          assert (slots[1..] + [s])[p] == (slots + [s])[p + 1] && (slots[1..] + [s])[q] == (slots + [s])[q + 1];
        }
      }
      LiveAppend(slots[1..], s);
      if slots[0].Used? && s.Used? { assert (slots + [s])[0] == slots[0] && (slots + [s])[|slots|] == s; }
    }
  }

  lemma {:induction false} SweptMeans(slots: seq<Slot>, hash: Key -> nat, now: nat, ttl: nat, dropped: nat)
    requires Table(slots, hash)
    ensures var after := Swept(slots, now, ttl); Table(after, hash) && UsedBefore(after, |after|) == |Live(after)|
    ensures Counters(Live(Swept(slots, now, ttl)), dropped) == Expired(Counters(Live(slots), dropped), now, ttl)
  {
    var after := Swept(slots, now, ttl);
    var want := Expired(Counters(Live(slots), dropped), now, ttl).live;
    UsedIsLive(after, |after|);
    assert after[..|after|] == after;
    forall k ensures k in Live(after) <==> k in want {
      if k in Live(after) {
        var p := LiveFrom(after, k);
        LiveAt(slots, p);
      }
      if k in want {
        var p := LiveFrom(slots, k);
        LiveAt(slots, p);
        LiveAt(after, p);
      }
    }
    forall k | k in want ensures Live(after)[k] == want[k] {
      var p := LiveFrom(slots, k);
      LiveAt(slots, p);
      LiveAt(after, p);
    }
    assert Live(after) == want;
  }

  // ------------------------------------------------------------------ conservation

  datatype Event = Intercept(key: Key, now: nat) | Sweep(at: nat) | Reset

  function Run(events: seq<Event>, capacity: nat, ttl: nat): Counters
  {
    if events == [] then Counters(map[], 0) else
    var s := Run(events[..|events| - 1], capacity, ttl);
    match events[|events| - 1]
    case Intercept(k, now) => Recorded(s, capacity, k, now)
    case Sweep(now) => Expired(s, now, ttl)
    case Reset => Counters(map[], 0)
  }

  function CountOf(live: map<Key, Cell>, k: Key): nat { if k in live then live[k].count else 0 }

  /** Recordings of a key since the last reset. */
  function Seen(events: seq<Event>, k: Key): nat
  {
    if events == [] then 0 else
    var e := events[|events| - 1];
    if e.Reset? then 0
    else Seen(events[..|events| - 1], k) + (if e.Intercept? && e.key == k && Countable(k) then 1 else 0)
  }

  /** Recordings of a key since the last reset that a sweep forgot: all those of a key that it
      found unseen for longer than the time to live. */
  function Lost(events: seq<Event>, capacity: nat, ttl: nat, k: Key): nat
  {
    if events == [] then 0 else
    var e, before := events[|events| - 1], events[..|events| - 1];
    var live := Run(before, capacity, ttl).live;
    if e.Reset? then 0
    else Lost(before, capacity, ttl, k) +
         (if e.Sweep? && k in live && live[k].seen + ttl < e.at then live[k].count else 0)
  }

  /** Recordings of a key since the last reset that found it unknown and the table full. */
  function Dropped(events: seq<Event>, capacity: nat, ttl: nat, k: Key): nat
  {
    if events == [] then 0 else
    var e, before := events[|events| - 1], events[..|events| - 1];
    var live := Run(before, capacity, ttl).live;
    if e.Reset? then 0
    else Dropped(before, capacity, ttl, k) +
         (if e.Intercept? && e.key == k && Countable(k) && k !in live && |live| >= capacity then 1 else 0)
  }

  /** Every recording of every key is counted, forgotten by a sweep, or dropped: nothing is
      counted twice and nothing disappears. */
  lemma {:induction false} Conservation(events: seq<Event>, capacity: nat, ttl: nat, k: Key)
    ensures CountOf(Run(events, capacity, ttl).live, k) + Lost(events, capacity, ttl, k) +
            Dropped(events, capacity, ttl, k) == Seen(events, k)
  {
    if events != [] {
      Conservation(events[..|events| - 1], capacity, ttl, k);
    }
  }

  /** When a key was last recorded since the last reset. */
  function LastSeen(events: seq<Event>, k: Key): nat
  {
    if events == [] then 0 else
    var e := events[|events| - 1];
    if e.Reset? then 0
    else if e.Intercept? && e.key == k && Countable(k) then e.now
    else LastSeen(events[..|events| - 1], k)
  }

  /** The age of a live key counts from its latest recording. */
  lemma {:induction false} SeenIsLatest(events: seq<Event>, capacity: nat, ttl: nat, k: Key)
    ensures k in Run(events, capacity, ttl).live ==> Run(events, capacity, ttl).live[k].seen == LastSeen(events, k)
  {
    if events != [] { SeenIsLatest(events[..|events| - 1], capacity, ttl, k); }
  }

  /** The keys include every one that a run records. */
  ghost predicate Covers(keys: seq<Key>, events: seq<Event>)
  {
    NoRepeat(keys) && forall i :: 0 <= i < |events| && events[i].Intercept? ==> events[i].key in keys
  }

  /** The module's drop counter is the total of the drops of all keys. */
  lemma {:induction false} DropsTotal(keys: seq<Key>, events: seq<Event>, capacity: nat, ttl: nat)
    requires Covers(keys, events)
    ensures SumOver(keys, k => Dropped(events, capacity, ttl, k)) == Run(events, capacity, ttl).dropped
  {
    if events == [] || events[|events| - 1].Reset? {
      SumZero(keys, k => Dropped(events, capacity, ttl, k));
    } else {
      var before, e := events[..|events| - 1], events[|events| - 1];
      DropsTotal(keys, before, capacity, ttl);
      var d := Run(events, capacity, ttl).dropped - Run(before, capacity, ttl).dropped;
      var k := if e.Intercept? then e.key else Key(0, 0, 0);
      SumStep(keys, k => Dropped(before, capacity, ttl, k), k => Dropped(events, capacity, ttl, k), k, d);
    }
  }

  /** Over all keys: live counts, expired counts and the drop counter add up to the
      recordings since the last reset. */
  lemma {:induction false} TotalConservation(keys: seq<Key>, events: seq<Event>, capacity: nat, ttl: nat)
    requires Covers(keys, events)
    ensures var s := Run(events, capacity, ttl);
            SumOver(keys, k => CountOf(s.live, k)) + SumOver(keys, k => Lost(events, capacity, ttl, k)) + s.dropped ==
            SumOver(keys, k => Seen(events, k))
  {
    var s := Run(events, capacity, ttl);
    forall k
      ensures CountOf(s.live, k) + Lost(events, capacity, ttl, k) + Dropped(events, capacity, ttl, k) == Seen(events, k)
    {
      Conservation(events, capacity, ttl, k);
    }
    DropsTotal(keys, events, capacity, ttl);
    SumAdds(keys, k => CountOf(s.live, k), k => Lost(events, capacity, ttl, k), k => Dropped(events, capacity, ttl, k),
            k => Seen(events, k));
  }

  /** The counters never outgrow the table, and a live key was recorded at least once. */
  lemma {:induction false} CapacityHeld(events: seq<Event>, capacity: nat, ttl: nat)
    ensures |Run(events, capacity, ttl).live| <= capacity
    ensures forall k :: k in Run(events, capacity, ttl).live ==> Run(events, capacity, ttl).live[k].count > 0
  {
    if events != [] {
      var before, e := Run(events[..|events| - 1], capacity, ttl), events[|events| - 1];
      CapacityHeld(events[..|events| - 1], capacity, ttl);
      if e.Sweep? { FewerKeys(Run(events, capacity, ttl).live, before.live); }
    }
  }

  lemma FewerKeys<K, V>(a: map<K, V>, b: map<K, V>)
    requires a.Keys <= b.Keys
    ensures |a| <= |b|
  {
    SubsetSize(a.Keys, b.Keys);
    assert |a.Keys| == |a| && |b.Keys| == |b|;
  }
}
