/** The daemon's history of sampled differences (daemon/stats.c): a ring of points with a
    retention time, over every run of samples and resets. */
module StatsRing {
  import opened Types
  import opened Wrapping
  import opened Probing
  import opened StatsDelta

  const POINTS := 360
  const RETENTION := 21600000
  const KINDS := 14

  /** A reading of the kernel's cumulative counters. */
  datatype Reading = Reading(uids: seq<Row>, ports: seq<Row>, sequence: nat, at: nat, droppedPorts: nat)

  ghost predicate ReadingOk(s: Reading) { Sample(s.uids, KINDS) && Sample(s.ports, 1) }

  datatype Point = Point(at: nat, gap: bool, uids: seq<Row>, ports: seq<Row>)

  /** The key of a port row; port_stats_compare orders by UID, protocol and port. */
  function PortKey(uid: u32, protocol: byte, port: u16): nat { (uid * 0x100 + protocol) * 0x1_0000 + port }

  lemma PortKeyOrders(u: u32, p: byte, n: u16, v: u32, q: byte, m: u16)
    ensures PortKey(u, p, n) < PortKey(v, q, m) <==> u < v || (u == v && (p < q || (p == q && n < m)))
  {
  }

  // ------------------------------------------------------------------ the history

  datatype History = History(points: seq<Point>, dropped: nat, baseline: Option<Reading>)

  const NEW := History([], 0, None)

  predicate Gap(baseline: Option<Reading>, s: Reading) { baseline.None? || s.sequence <= baseline.value.sequence }

  ghost function PointOf(baseline: Option<Reading>, s: Reading): Point
  {
    if Gap(baseline, s) then Point(s.at, true, [], [])
    else Point(s.at, false, Deltas(s.uids, |s.uids|, baseline.value.uids, true),
               Deltas(s.ports, |s.ports|, baseline.value.ports, false))
  }

  predicate Stale(p: Point, now: nat) { p.at + RETENTION <= now }

  /** How many points at the front are stale. */
  function StaleFront(ps: seq<Point>, now: nat): (n: nat)
    ensures n <= |ps|
  {
    if ps != [] && Stale(ps[0], now) then 1 + StaleFront(ps[1..], now) else 0
  }

  /** The points left once the stale ones at the front are gone. */
  function Retained(ps: seq<Point>, now: nat): seq<Point> { ps[StaleFront(ps, now)..] }

  /** A full ring loses its oldest point. */
  function Pushed(ps: seq<Point>, p: Point): seq<Point> { ps[Overflow(ps)..] + [p] }

  function Overflow(ps: seq<Point>): (n: nat)
    ensures n <= |ps|
  {
    if |ps| == POINTS then 1 else 0
  }

  /** One more point; the stale points and the one pushed out are counted as dropped. */
  function Advanced(h: History, p: Point, s: Reading): History
  {
    var kept := Retained(h.points, s.at);
    History(Pushed(kept, p), h.dropped + StaleFront(h.points, s.at) + Overflow(kept), Some(s))
  }

  ghost function Sampled(h: History, s: Reading): History { Advanced(h, PointOf(h.baseline, s), s) }

  // ------------------------------------------------------------------ the ring

  /** The `count` points from `head` on, wrapping at the end. */
  function View(buffer: seq<Point>, head: nat, count: nat): (ps: seq<Point>)
    requires |buffer| == POINTS && head < POINTS && count <= POINTS
    ensures |ps| == count && forall i :: 0 <= i < count ==> ps[i] == buffer[ProbeAt(head, i, POINTS)]
  {
    seq(count, i requires 0 <= i < count => buffer[ProbeAt(head, i, POINTS)])
  }

  class Ring {
    const points: array<Point>
    var head: nat
    var count: nat
    var dropped: nat
    var baseline: Option<Reading>

    ghost predicate Shape()
      reads this`head, this`count
    {
      points.Length == POINTS && head < POINTS && count <= POINTS
    }

    ghost predicate Valid()
      reads this
    {
      Shape() && (baseline.Some? ==> ReadingOk(baseline.value))
    }

    ghost function Contents(): seq<Point>
      reads this`head, this`count, points
      requires Shape()
    {
      View(points[..], head, count)
    }

    ghost function Abs(): History
      reads this, points
      requires Valid()
    {
      History(Contents(), dropped, baseline)
    }

    constructor ()
      ensures Valid() && fresh(points) && Abs() == NEW
    {
      points := new Point[POINTS](_ => Point(0, false, [], []));
      head, count, dropped, baseline := 0, 0, 0, None;
    }

    method DropOldest()
      requires Shape() && count > 0
      modifies this`head, this`count, this`dropped
      ensures Shape() && Contents() == old(Contents())[1..] && dropped == old(dropped) + 1
    {
      head := Next(head, POINTS);
      count := count - 1;
      dropped := dropped + 1;
    }

    method DropStale(now: nat)
      requires Shape()
      modifies this`head, this`count, this`dropped
      ensures Shape() && Contents() == Retained(old(Contents()), now)
      ensures dropped == old(dropped) + StaleFront(old(Contents()), now)
    {
      ghost var was, n := Contents(), 0;
      while count > 0 && Stale(points[head], now)
        invariant Shape() && n <= |was| && Contents() == was[n..] && dropped == old(dropped) + n
        invariant StaleFront(was, now) == n + StaleFront(was[n..], now)
        decreases count
      {
        assert Contents()[0] == points[head];
        DropOldest();
        assert was[n..][1..] == was[n + 1..];
        n := n + 1;
      }
      if count > 0 { assert Contents()[0] == points[head]; }
    }

    method Push(p: Point)
      requires Shape()
      modifies this`head, this`count, this`dropped, points
      ensures Shape() && Contents() == Pushed(old(Contents()), p)
      ensures dropped == old(dropped) + Overflow(old(Contents()))
    {
      if count == POINTS { DropOldest(); }
      ghost var before := Contents();
      count := count + 1;
      points[ProbeAt(head, count - 1, POINTS)] := p;
      assert Contents() == before + [p];
    }

    method Advance(p: Point, now: nat)
      requires Shape()
      modifies this`head, this`count, this`dropped, points
      ensures Shape() && Contents() == Pushed(Retained(old(Contents()), now), p)
      ensures dropped == old(dropped) + StaleFront(old(Contents()), now) + Overflow(Retained(old(Contents()), now))
    {
      DropStale(now);
      Push(p);
    }

    method MakePoint(s: Reading) returns (p: Point)
      requires Valid() && ReadingOk(s)
      ensures p == PointOf(baseline, s)
    {
      if Gap(baseline, s) { return Point(s.at, true, [], []); }
      var uids := FillReported(s.uids, baseline.value.uids, KINDS, true);
      var ports := FillReported(s.ports, baseline.value.ports, 1, false);
      p := Point(s.at, false, uids, ports);
    }

    /** append_stats_point */
    method Append(s: Reading)
      requires Valid() && ReadingOk(s)
      modifies this, points
      ensures Valid() && Abs() == Sampled(old(Abs()), s)
    {
      var p := MakePoint(s);
      Advance(p, s.at);
      baseline := Some(s);
    }

    /** clear_stats_ring */
    method Clear()
      requires Valid()
      modifies this
      ensures Valid() && Abs() == NEW
    {
      head, count, dropped, baseline := 0, 0, 0, None;
    }
  }

  // ------------------------------------------------------------------ runs of samples

  /** The history after the readings since the last reset. */
  ghost function Run(readings: seq<Reading>): History
  {
    if readings == [] then NEW else Sampled(Run(readings[..|readings| - 1]), readings[|readings| - 1])
  }

  /** The point that reading `i` produced. */
  ghost function Produced(readings: seq<Reading>, i: nat): Point
    requires i < |readings|
  {
    PointOf(if i == 0 then None else Some(readings[i - 1]), readings[i])
  }

  ghost function AllProduced(readings: seq<Reading>): (ps: seq<Point>)
    ensures |ps| == |readings| && forall i :: 0 <= i < |ps| ==> ps[i] == Produced(readings, i)
  {
    seq(|readings|, i requires 0 <= i < |readings| => Produced(readings, i))
  }

  ghost predicate HoldsSuffix(h: History, all: seq<Point>)
  {
    h.dropped <= |all| && h.points == all[h.dropped..] && |h.points| <= POINTS
  }

  lemma SuffixStep(h: History, all: seq<Point>, p: Point, s: Reading)
    requires HoldsSuffix(h, all)
    ensures HoldsSuffix(Advanced(h, p, s), all + [p])
  {
    var kept := Retained(h.points, s.at);
    var stale := StaleFront(h.points, s.at);
    SliceOfSlice(all, h.dropped, stale);
    SliceOfSlice(all, h.dropped + stale, Overflow(kept));
    AppendToSlice(all, h.dropped + stale + Overflow(kept), p);
  }

  lemma ProducedAppend(readings: seq<Reading>)
    requires readings != []
    ensures var n := |readings| - 1; AllProduced(readings) == AllProduced(readings[..n]) + [Produced(readings, n)]
  {
    var n := |readings| - 1;
    forall i | 0 <= i < n ensures Produced(readings, i) == Produced(readings[..n], i) { }
  }

  /** At every moment the ring holds the latest points of the run, in order and unaltered,
      and the drop counter is the number of points that are gone. */
  lemma {:induction false} RingIsSuffix(readings: seq<Reading>)
    ensures HoldsSuffix(Run(readings), AllProduced(readings))
    ensures Run(readings).baseline == if readings == [] then None else Some(readings[|readings| - 1])
  {
    if readings != [] {
      var n := |readings| - 1;
      RingIsSuffix(readings[..n]);
      assert Run(readings[..n]).baseline == if n == 0 then None else Some(readings[n - 1]);
      SuffixStep(Run(readings[..n]), AllProduced(readings[..n]), Produced(readings, n), readings[n]);
      ProducedAppend(readings);
    }
  }

  /** Every point since the reset is held or counted as dropped. */
  lemma {:induction false} PointsConserved(readings: seq<Reading>)
    ensures |Run(readings).points| + Run(readings).dropped == |readings|
  {
    RingIsSuffix(readings);
  }

  // ------------------------------------------------------------------ retention

  ghost predicate ClockForward(readings: seq<Reading>)
  {
    forall i, j :: 0 <= i < j < |readings| ==> readings[i].at <= readings[j].at
  }

  /** A point is still wanted after `n` readings: not stale and among the last 360. */
  ghost predicate Wanted(readings: seq<Reading>, i: nat)
    requires i < |readings|
  {
    readings[i].at + RETENTION > readings[|readings| - 1].at && i + POINTS >= |readings|
  }

  /** With times in order, dropping at the front drops exactly what is stale. */
  lemma {:induction false} RetainedExactly(ps: seq<Point>, now: nat, i: nat)
    requires i < |ps| && InOrder(ps)
    ensures i >= StaleFront(ps, now) <==> !Stale(ps[i], now)
  {
    if Stale(ps[0], now) {
      if i > 0 {
        RetainedExactly(ps[1..], now, i - 1);
      }
    } else if i > 0 {
      assert ps[0].at <= ps[i].at;
    }
  }

  ghost predicate InOrder(ps: seq<Point>) { forall a, b :: 0 <= a < b < |ps| ==> ps[a].at <= ps[b].at }

  /** Which points one more reading drops. */
  lemma DropsExactly(h: History, all: seq<Point>, p: Point, s: Reading, i: nat)
    requires HoldsSuffix(h, all) && InOrder(all) && i < |all|
    ensures i >= Advanced(h, p, s).dropped <==> i >= h.dropped && !Stale(all[i], s.at) && i + POINTS >= |all| + 1
  {
    if i >= h.dropped {
      assert h.points[i - h.dropped] == all[i];
      RetainedExactly(h.points, s.at, i - h.dropped);
    }
  }

  lemma ProducedInOrder(readings: seq<Reading>)
    requires ClockForward(readings)
    ensures InOrder(AllProduced(readings))
  {
    var all := AllProduced(readings);
    forall a, b | 0 <= a < b < |all| ensures all[a].at <= all[b].at {
      assert Produced(readings, a).at == readings[a].at && Produced(readings, b).at == readings[b].at;
    }
  }

  lemma {:induction false} RunInOrder(readings: seq<Reading>)
    requires ClockForward(readings)
    ensures HoldsSuffix(Run(readings), AllProduced(readings)) && InOrder(AllProduced(readings))
  {
    RingIsSuffix(readings);
    ProducedInOrder(readings);
  }

  /** What one more reading drops of a run. */
  lemma {:induction false} HeldStep(before: seq<Reading>, s: Reading, i: nat)
    requires ClockForward(before) && i < |before|
    ensures i >= Sampled(Run(before), s).dropped <==>
            i >= Run(before).dropped && !Stale(AllProduced(before)[i], s.at) && i + POINTS >= |before| + 1
  {
    var h := Run(before);
    RunInOrder(before);
    DropsExactly(h, AllProduced(before), PointOf(h.baseline, s), s, i);
  }

  lemma WantedStep(readings: seq<Reading>, i: nat)
    requires ClockForward(readings) && i < |readings| - 1
    ensures var n := |readings| - 1;
            Wanted(readings, i) <==>
            Wanted(readings[..n], i) && !Stale(AllProduced(readings[..n])[i], readings[n].at) && i + POINTS >= n + 1
  {
    var n := |readings| - 1;
    assert readings[..n][n - 1].at <= readings[n].at;
    assert Produced(readings[..n], i).at == readings[i].at;
  }

  lemma {:induction false} LastIsHeld(readings: seq<Reading>)
    requires readings != []
    ensures |readings| - 1 >= Run(readings).dropped
  {
    RingIsSuffix(readings);
    assert |Run(readings).points| > 0;
  }

  /** With a clock that never runs backwards, the ring holds exactly the points of the last
      six hours, up to 360 of them. */
  lemma {:induction false} HeldExactly(readings: seq<Reading>, i: nat)
    requires ClockForward(readings) && i < |readings|
    ensures i >= Run(readings).dropped <==> Wanted(readings, i)
  {
    var n := |readings| - 1;
    if i == n {
      LastIsHeld(readings);
    } else {
      HeldExactly(readings[..n], i);
      WantedStep(readings, i);
      HeldStep(readings[..n], readings[n], i);
      assert Run(readings) == Sampled(Run(readings[..n]), readings[n]);
    }
  }

  /** A point that is not stale keeps all behind it from being dropped as stale. */
  lemma {:induction false} FreshStays(ps: seq<Point>, now: nat, i: nat)
    requires i < |ps| && !Stale(ps[i], now)
    ensures StaleFront(ps, now) <= i
  {
    if i > 0 && Stale(ps[0], now) { FreshStays(ps[1..], now, i - 1); }
  }

  lemma {:induction false} StillHeld(readings: seq<Reading>, s: Reading, i: nat)
    requires Run(readings).dropped <= i < |readings| < i + POINTS && !Stale(Produced(readings, i), s.at)
    ensures Sampled(Run(readings), s).dropped <= i
  {
    RingIsSuffix(readings);
    var h := Run(readings);
    assert h.points[i - h.dropped] == AllProduced(readings)[i];
    FreshStays(h.points, s.at, i - h.dropped);
  }

  ghost predicate Exact(readings: seq<Reading>)
  {
    forall i :: 0 <= i < |readings| ==> (i >= Run(readings).dropped <==> Wanted(readings, i))
  }

  /** When the clock has stepped back, a reading six hours after the step leaves a point in
      the ring that is stale. */
  lemma {:induction false} StepBackKeepsStale(readings: seq<Reading>, s: Reading)
    requires |readings| >= 2 && readings[|readings| - 1].at < readings[|readings| - 2].at
    requires s.at == readings[|readings| - 1].at + RETENTION
    ensures var n := |readings| - 1;
            n >= Run(readings + [s]).dropped && Stale(Produced(readings + [s], n), s.at) && !Exact(readings + [s])
  {
    var n, all := |readings| - 1, readings + [s];
    assert readings == readings[..n] + [readings[n]];
    PreviousHeld(readings[..n], readings[n]);
    StillHeld(readings, s, n - 1);
    RunStep(readings, s);
    assert !Wanted(all, n);
  }

  lemma {:induction false} RunStep(readings: seq<Reading>, s: Reading)
    ensures Run(readings + [s]) == Sampled(Run(readings), s)
  {
    assert (readings + [s])[..|readings|] == readings;
  }

  /** A reading that steps back leaves the one before it in the ring. */
  lemma {:induction false} PreviousHeld(before: seq<Reading>, r: Reading)
    requires before != [] && r.at < before[|before| - 1].at
    ensures Run(before + [r]).dropped <= |before| - 1
  {
    LastIsHeld(before);
    StillHeld(before, r, |before| - 1);
    RunStep(before, r);
  }

  /** A next reading that does not step back itself. */
  ghost predicate Follows(readings: seq<Reading>, s: Reading)
  {
    readings != [] ==> readings[|readings| - 1].at <= s.at
  }

  ghost predicate ExactNext(readings: seq<Reading>, m: nat)
    requires m <= |readings|
  {
    forall s :: Follows(readings[..m], s) ==> Exact(readings[..m] + [s])
  }

  /** Retention is exact at every moment of a run, whatever reading comes next, exactly when
      its clock never steps back. */
  lemma ExactMeansForward(readings: seq<Reading>)
    ensures (forall m :: 0 <= m <= |readings| ==> ExactNext(readings, m)) <==> ClockForward(readings)
  {
    if ClockForward(readings) {
      forall m | 0 <= m <= |readings| ensures ExactNext(readings, m) {
        forall s | Follows(readings[..m], s) ensures Exact(readings[..m] + [s]) { ForwardIsExact(readings[..m], s); }
      }
    } else {
      var j := StepBack(readings);
      var s := readings[j].(at := readings[j].at + RETENTION);
      StepBackKeepsStale(readings[..j + 1], s);
      assert !ExactNext(readings, j + 1);
    }
  }

  lemma ForwardIsExact(readings: seq<Reading>, s: Reading)
    requires ClockForward(readings) && Follows(readings, s)
    ensures Exact(readings + [s])
  {
    assert ClockForward(readings + [s]);
    forall i | 0 <= i < |readings + [s]|
      ensures i >= Run(readings + [s]).dropped <==> Wanted(readings + [s], i)
    {
      HeldExactly(readings + [s], i);
    }
  }

  /** Times out of order are out of order somewhere next to each other. */
  lemma {:induction false} StepBack(readings: seq<Reading>) returns (j: nat)
    requires !ClockForward(readings)
    ensures 0 < j < |readings| && readings[j].at < readings[j - 1].at
  {
    var n := |readings| - 1;
    if !ClockForward(readings[..n]) {
      j := StepBack(readings[..n]);
    } else {
      j := n;
      assert exists i :: 0 <= i < n && readings[i].at > readings[n].at;
    }
  }

  // ------------------------------------------------------------------ telescoping

  ghost function UidDelta(p: Point, uid: nat, k: nat): nat { Value(p.uids, uid, k) }

  ghost function PortDelta(p: Point, key: nat): nat { Value(p.ports, key, 0) }

  /** Readings without a reset between them. */
  ghost predicate GapFree(readings: seq<Reading>)
  {
    && (forall i :: 0 <= i < |readings| ==> ReadingOk(readings[i]))
    && (forall i :: 0 < i < |readings| ==> readings[i - 1].sequence < readings[i].sequence)
  }

  ghost function UidTotal(readings: seq<Reading>, uid: nat, k: nat): nat
  {
    if |readings| <= 1 then 0
    else UidTotal(readings[..|readings| - 1], uid, k) + UidDelta(Produced(readings, |readings| - 1), uid, k)
  }

  ghost function PortTotal(readings: seq<Reading>, key: nat): nat
  {
    if |readings| <= 1 then 0
    else PortTotal(readings[..|readings| - 1], key) + PortDelta(Produced(readings, |readings| - 1), key)
  }

  /** The reported differences of a counter that never goes down add up to its growth. */
  lemma {:induction false} UidTelescopes(readings: seq<Reading>, uid: nat, k: nat)
    requires GapFree(readings) && readings != [] && k < KINDS
    requires forall i :: 0 < i < |readings| ==> Value(readings[i - 1].uids, uid, k) <= Value(readings[i].uids, uid, k)
    ensures Value(readings[0].uids, uid, k) + UidTotal(readings, uid, k) == Value(readings[|readings| - 1].uids, uid, k)
  {
    var n := |readings| - 1;
    if n > 0 {
      UidTelescopes(readings[..n], uid, k);
      assert readings[..n][n - 1] == readings[n - 1] && readings[..n][0] == readings[0];
      DeltasMeaning(readings[n].uids, readings[n - 1].uids, KINDS, true, uid, k);
    }
  }

  lemma {:induction false} PortTelescopes(readings: seq<Reading>, key: nat)
    requires GapFree(readings) && readings != []
    requires forall i :: 0 < i < |readings| ==> Value(readings[i - 1].ports, key, 0) <= Value(readings[i].ports, key, 0)
    ensures Value(readings[0].ports, key, 0) + PortTotal(readings, key) == Value(readings[|readings| - 1].ports, key, 0)
  {
    var n := |readings| - 1;
    if n > 0 {
      PortTelescopes(readings[..n], key);
      assert readings[..n][n - 1] == readings[n - 1] && readings[..n][0] == readings[0];
      DeltasMeaning(readings[n].ports, readings[n - 1].ports, 1, false, key, 0);
    }
  }
}
