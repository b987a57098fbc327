/** One set of the pending-port cache (kmod/main.c): four ways, reused or evicted by the
    recorder, and what stays answerable. */
module PendingCache {
  import opened Endpoints

  const WAYS := 4

  datatype Slot = Slot(owner: Endpoint, expires: nat)

  const FREE := Slot(NO_ENDPOINT, 0)

  type Ways = seq<Slot>

  function NoWays(): Ways { [FREE, FREE, FREE, FREE] }

  /** A way that the recorder takes at once: the same owner, empty, or expired. */
  predicate Reusable(s: Slot, e: Endpoint, now: nat) { s.owner == e || s.owner.uid == 0 || now >= s.expires }

  /** The way the recorder writes: the first reusable one, else the first that expires
      earliest. */
  ghost predicate Chosen(ways: Ways, e: Endpoint, now: nat, w: nat)
    requires |ways| == WAYS
  {
    && w < WAYS
    && if exists k :: 0 <= k < WAYS && Reusable(ways[k], e, now)
       then Reusable(ways[w], e, now) && forall k :: 0 <= k < w ==> !Reusable(ways[k], e, now)
       else (forall k :: 0 <= k < WAYS ==> ways[w].expires <= ways[k].expires) &&
            (forall k :: 0 <= k < w ==> ways[w].expires < ways[k].expires)
  }

  lemma ChosenUnique(ways: Ways, e: Endpoint, now: nat, v: nat, w: nat)
    requires |ways| == WAYS && Chosen(ways, e, now, v) && Chosen(ways, e, now, w)
    ensures v == w
  {
  }

  ghost function Select(ways: Ways, e: Endpoint, now: nat): (w: nat)
    requires |ways| == WAYS
    ensures Chosen(ways, e, now, w)
  {
    SomeChosen(ways, e, now);
    var w: nat :| Chosen(ways, e, now, w);
    w
  }

  lemma SomeChosen(ways: Ways, e: Endpoint, now: nat)
    requires |ways| == WAYS
    ensures exists w: nat :: Chosen(ways, e, now, w)
  {
    var a := if ways[1].expires < ways[0].expires then 1 else 0;
    var b := if ways[2].expires < ways[a].expires then 2 else a;
    var c := if ways[3].expires < ways[b].expires then 3 else b;
    var w: nat := if Reusable(ways[0], e, now) then 0 else if Reusable(ways[1], e, now) then 1
                  else if Reusable(ways[2], e, now) then 2 else if Reusable(ways[3], e, now) then 3 else c;
    assert Chosen(ways, e, now, w);
  }

  /** The selection loop of vpnhide_record_bound_socket. */
  method SelectWay(ways: Ways, e: Endpoint, now: nat) returns (w: nat)
    requires |ways| == WAYS
    ensures w == Select(ways, e, now)
  {
    w := 0;
    var oldest := ways[0].expires;
    for way := 0 to WAYS
      invariant w < WAYS && oldest == ways[w].expires && (way == 0 ==> w == 0) && (way > 0 ==> w < way)
      invariant forall k :: 0 <= k < way ==> !Reusable(ways[k], e, now) && oldest <= ways[k].expires
      invariant forall k :: 0 <= k < w ==> oldest < ways[k].expires
    {
      if Reusable(ways[way], e, now) {
        ChosenUnique(ways, e, now, way, Select(ways, e, now));
        return way;
      }
      if ways[way].expires < oldest {
        w, oldest := way, ways[way].expires;
      }
    }
    ChosenUnique(ways, e, now, w, Select(ways, e, now));
  }

  /** The set after recording `e` at `now`. */
  ghost function Recorded(ways: Ways, e: Endpoint, now: nat, ttl: nat): (after: Ways)
    requires |ways| == WAYS
    ensures |after| == WAYS
  {
    ways[Select(ways, e, now) := Slot(e, now + ttl)]
  }

  /** pending_port_lookup_one, read without interleaving. */
  ghost predicate Answers(ways: Ways, e: Endpoint, now: nat)
  {
    exists k :: 0 <= k < |ways| && ways[k].owner == e && now < ways[k].expires
  }

  method Lookup(ways: Ways, e: Endpoint, now: nat) returns (found: bool)
    ensures found <==> Answers(ways, e, now)
  {
    for k := 0 to |ways|
      invariant forall i :: 0 <= i < k ==> !(ways[i].owner == e && now < ways[i].expires)
    {
      if ways[k].owner == e && now < ways[k].expires { return true; }
    }
    return false;
  }

  // ------------------------------------------------------------------ runs of one set

  datatype Rec = Rec(owner: Endpoint, at: nat)

  /** The set after these recordings, oldest first, from an empty cache. */
  ghost function After(recs: seq<Rec>, ttl: nat): (ways: Ways)
    ensures |ways| == WAYS
  {
    if recs == [] then NoWays() else
    var r := recs[|recs| - 1];
    Recorded(After(recs[..|recs| - 1], ttl), r.owner, r.at, ttl)
  }

  /** Every way holds a recording as it was made, or nothing. */
  lemma {:induction false} AfterSound(recs: seq<Rec>, ttl: nat, k: nat)
    requires k < WAYS
    ensures FromRecording(After(recs, ttl)[k], recs, ttl)
  {
    if recs != [] {
      var n := |recs| - 1;
      AfterSound(recs[..n], ttl, k);
      var was, s := After(recs[..n], ttl)[k], After(recs, ttl)[k];
      if s == was && s != FREE {
        var i :| 0 <= i < n && recs[..n][i].owner == s.owner && s.expires == recs[..n][i].at + ttl;
        assert recs[i] == recs[..n][i];
      }
    }
  }

  ghost predicate FromRecording(s: Slot, recs: seq<Rec>, ttl: nat)
  {
    s == FREE || exists i :: 0 <= i < |recs| && recs[i].owner == s.owner && s.expires == recs[i].at + ttl
  }

  // ------------------------------------------------------------------ survival

  ghost predicate TicksForward(recs: seq<Rec>) { forall i, j :: 0 <= i < j < |recs| ==> recs[i].at <= recs[j].at }

  ghost predicate RealOwners(recs: seq<Rec>) { forall i :: 0 <= i < |recs| ==> recs[i].owner.uid != 0 }

  /** How many recordings were made at tick `t` or later. */
  function Since(recs: seq<Rec>, t: nat): nat
  {
    if recs == [] then 0 else
    Since(recs[..|recs| - 1], t) + (if recs[|recs| - 1].at >= t then 1 else 0)
  }

  /** How many ways expire at `x` or later. */
  function Late(ways: Ways, x: nat): nat
    requires |ways| == WAYS
  {
    (if ways[0].expires >= x then 1 else 0) + (if ways[1].expires >= x then 1 else 0) +
    (if ways[2].expires >= x then 1 else 0) + (if ways[3].expires >= x then 1 else 0)
  }

  lemma LateStep(ways: Ways, w: nat, s: Slot, x: nat)
    requires |ways| == WAYS && w < WAYS
    ensures Late(ways[w := s], x) <= Late(ways, x) + (if s.expires >= x then 1 else 0)
  {
  }

  /** Only a recording since `t` leaves a way that expires as late as one of `t` does. */
  lemma {:induction false} LateSince(recs: seq<Rec>, ttl: nat, t: nat)
    requires ttl > 0
    ensures Late(After(recs, ttl), t + ttl) <= Since(recs, t)
  {
    if recs != [] {
      var n := |recs| - 1;
      LateSince(recs[..n], ttl, t);
      var before, r := After(recs[..n], ttl), recs[n];
      LateStep(before, Select(before, r.owner, r.at), Slot(r.owner, r.at + ttl), t + ttl);
    }
  }

  /** Some way keeps `e` alive until `x`. */
  ghost predicate Keeps(ways: Ways, e: Endpoint, x: nat)
  {
    exists w :: 0 <= w < |ways| && ways[w].owner == e && ways[w].expires >= x
  }

  /** A recording evicts a live endpoint only if all four ways are as late. */
  lemma KeepsStep(ways: Ways, e: Endpoint, x: nat, r: Rec, ttl: nat)
    requires |ways| == WAYS && Keeps(ways, e, x) && e.uid != 0 && r.at < x <= r.at + ttl && Late(ways, x) < WAYS
    ensures Keeps(Recorded(ways, r.owner, r.at, ttl), e, x)
  {
    var w :| 0 <= w < |ways| && ways[w].owner == e && ways[w].expires >= x;
    var after := Recorded(ways, r.owner, r.at, ttl);
    if Select(ways, r.owner, r.at) == w && r.owner != e { LateAll(ways, w, x); }
    assert after[w].owner == e && after[w].expires >= x;
  }

  lemma LateAll(ways: Ways, w: nat, x: nat)
    requires |ways| == WAYS && w < WAYS && ways[w].expires >= x && Late(ways, x) < WAYS
    ensures exists k :: 0 <= k < WAYS && ways[k].expires < ways[w].expires
  {
    assert ways[0].expires < x || ways[1].expires < x || ways[2].expires < x || ways[3].expires < x;
  }

  /** An endpoint recorded at position `i` stays in a way for its time to live if at most four
      recordings of the set, itself included, were made since its tick began. */
  lemma {:induction false} Survives(recs: seq<Rec>, ttl: nat, i: nat)
    requires TicksForward(recs) && RealOwners(recs)
    requires i < |recs| && recs[|recs| - 1].at < recs[i].at + ttl && Since(recs, recs[i].at) <= WAYS
    ensures Keeps(After(recs, ttl), recs[i].owner, recs[i].at + ttl)
  {
    var n := |recs| - 1;
    var before := After(recs[..n], ttl);
    if i == n {
      var w := Select(before, recs[n].owner, recs[n].at);
      assert After(recs, ttl)[w] == Slot(recs[n].owner, recs[n].at + ttl);
    } else {
      Survives(recs[..n], ttl, i);
      LateSince(recs[..n], ttl, recs[i].at);
      KeepsStep(before, recs[i].owner, recs[i].at + ttl, recs[n], ttl);
    }
  }

  lemma {:induction false} SurvivorAnswers(recs: seq<Rec>, ttl: nat, i: nat, now: nat)
    requires TicksForward(recs) && RealOwners(recs)
    requires i < |recs| && recs[|recs| - 1].at <= now < recs[i].at + ttl && Since(recs, recs[i].at) <= WAYS
    ensures Answers(After(recs, ttl), recs[i].owner, now)
  {
    Survives(recs, ttl, i);
  }

  lemma Fills(ways: Ways, e: Endpoint, now: nat, ttl: nat, k: nat)
    requires |ways| == WAYS && Chosen(ways, e, now, k)
    ensures Recorded(ways, e, now, ttl) == ways[k := Slot(e, now + ttl)]
  {
    ChosenUnique(ways, e, now, k, Select(ways, e, now));
  }

  lemma {:induction false} AfterNext(recs: seq<Rec>, ttl: nat, r: Rec, k: nat)
    requires Chosen(After(recs, ttl), r.owner, r.at, k)
    ensures After(recs + [r], ttl) == After(recs, ttl)[k := Slot(r.owner, r.at + ttl)]
  {
    assert (recs + [r])[..|recs|] == recs;
    Fills(After(recs, ttl), r.owner, r.at, ttl, k);
  }

  lemma TwoFill(a: Endpoint, b: Endpoint, t: nat)
    requires a.uid != 0 && b.uid != 0 && a != b && t < 10
    ensures After([Rec(a, 0)] + [Rec(b, t)], 10) == [Slot(a, 10), Slot(b, t + 10), FREE, FREE]
  {
    assert [] + [Rec(a, 0)] == [Rec(a, 0)];
    AfterNext([], 10, Rec(a, 0), 0);
    AfterNext([Rec(a, 0)], 10, Rec(b, t), 1);
  }

  /** Four recordings fill the ways in order, on one tick or on successive ones. */
  lemma FourFill(a: Endpoint, b: Endpoint, c: Endpoint, d: Endpoint, t: nat)
    requires a.uid != 0 && b.uid != 0 && c.uid != 0 && d.uid != 0 && a !in [b, c, d] && b !in [c, d] && c != d
    requires t <= 1
    ensures After([Rec(a, 0)] + [Rec(b, t)] + [Rec(c, 2 * t)] + [Rec(d, 3 * t)], 10) ==
              [Slot(a, 10), Slot(b, t + 10), Slot(c, 2 * t + 10), Slot(d, 3 * t + 10)]
  {
    TwoFill(a, b, t);
    AfterNext([Rec(a, 0)] + [Rec(b, t)], 10, Rec(c, 2 * t), 2);
    AfterNext([Rec(a, 0)] + [Rec(b, t)] + [Rec(c, 2 * t)], 10, Rec(d, 3 * t), 3);
  }

  /** Four later recordings of other endpoints do evict: the bound is sharp. */
  lemma FourEvict(a: Endpoint, b: Endpoint, c: Endpoint, d: Endpoint, e: Endpoint)
    requires a.uid != 0 && b.uid != 0 && c.uid != 0 && d.uid != 0 && e.uid != 0
    requires a !in [b, c, d, e] && b !in [c, d, e] && c !in [d, e] && d != e
    ensures var recs := [Rec(a, 0)] + [Rec(b, 1)] + [Rec(c, 2)] + [Rec(d, 3)] + [Rec(e, 4)];
            !Answers(After(recs, 10), a, 4) && Since(recs, 0) == WAYS + 1
  {
    var four := [Rec(a, 0)] + [Rec(b, 1)] + [Rec(c, 2)] + [Rec(d, 3)];
    FourFill(a, b, c, d, 1);
    AfterNext(four, 10, Rec(e, 4), 0);
    SinceAll(four + [Rec(e, 4)]);
  }

  /** Within one tick a single later recording evicts an endpoint that was just recorded
      again: the recordings before it on its tick count too. */
  lemma SameTickEvicts(a: Endpoint, b: Endpoint, c: Endpoint, d: Endpoint, e: Endpoint)
    requires a.uid != 0 && b.uid != 0 && c.uid != 0 && d.uid != 0 && e.uid != 0
    requires a !in [b, c, d, e] && b !in [c, d, e] && c !in [d, e] && d != e
    ensures var four := [Rec(a, 0)] + [Rec(b, 0)] + [Rec(c, 0)] + [Rec(d, 0)];
            !Answers(After(four + [Rec(a, 0)] + [Rec(e, 0)], 10), a, 0)
  {
    var four := [Rec(a, 0)] + [Rec(b, 0)] + [Rec(c, 0)] + [Rec(d, 0)];
    FourFill(a, b, c, d, 0);
    AfterNext(four, 10, Rec(a, 0), 0);
    AfterNext(four + [Rec(a, 0)], 10, Rec(e, 0), 0);
  }

  lemma {:induction false} SinceAll(recs: seq<Rec>)
    ensures Since(recs, 0) == |recs|
  {
    if recs != [] { SinceAll(recs[..|recs| - 1]); }
  }
}
