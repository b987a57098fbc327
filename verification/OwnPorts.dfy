/** The own-port cache as a whole (kmod/main.c): pending recordings, the daemon's snapshot,
    expiry and the reset on publication, over every run of atomic steps. */
module OwnPorts {
  import opened Types
  import opened Probing
  import opened Endpoints
  import opened OwnedSnapshot
  import opened PendingCache

  const SETS := 256

  /** `hz` is the tick rate; `hash` is owned_port_hash, about which nothing is assumed. */
  datatype Params = Params(hz: nat, hash: Endpoint -> nat)

  function PendingTtl(p: Params): nat { 2 * p.hz }

  function SnapshotLife(p: Params): nat { 120 * p.hz }

  function SetOf(p: Params, e: Endpoint): (k: nat)
    ensures k < SETS
  {
    Home(p.hash(e), SETS)
  }

  datatype Snapshot = Snapshot(members: set<Endpoint>, expires: nat)

  /** What the cache means: `targeted` says which UIDs the current policy gives a port
      target, and a snapshot is a set with an expiry. */
  datatype State = State(now: nat, targeted: u32 -> bool, pending: seq<Ways>, snapshot: Option<Snapshot>)

  /** Each event happens at one instant; sockets of other types than stream and datagram
      are not recorded. */
  datatype Event =
    | Bind(socket: Socket)
    | Replace(entries: seq<Endpoint>)
    | Publish(targeted: u32 -> bool)
    | Tick(d: nat)

  ghost predicate WellSized(s: State) { |s.pending| == SETS && forall k :: 0 <= k < SETS ==> |s.pending[k]| == WAYS }

  function NoTargets(): (t: u32 -> bool)
    ensures forall u :: !t(u)
  {
    (u: u32) => false
  }

  function NoPending(): (r: seq<Ways>)
    ensures |r| == SETS && forall k :: 0 <= k < SETS ==> r[k] == NoWays()
  {
    seq(SETS, _ => NoWays())
  }

  function Members(entries: seq<Endpoint>): set<Endpoint> { set e | e in entries }

  function UsedMembers(buckets: seq<Endpoint>): set<Endpoint> { set e | e in buckets && Used(e) }

  /** owned_port_from_sock: the local endpoint of a bound socket, if it is local. */
  function FromSocket(k: Socket): (r: Option<Endpoint>)
    ensures r.Some? ==>
              Local(r.value) && r.value.uid == k.uid && r.value.port == k.sport != 0 && r.value.protocol <= UDP
  {
    var e := Endpoint(k.uid, k.sport, if k.tcp then TCP else UDP, AF_INET, 0, 0, 0, 0);
    if k.sport == 0 || (k.family != AF_INET && k.family != AF_INET6) then None else
    var owner := if k.family == AF_INET then e.(a0 := k.s0)
                 else if k.s0 == 0 && k.s1 == 0 && k.s2 == MAPPED then e.(a0 := k.s3)
                 else e.(family := AF_INET6, a0 := k.s0, a1 := k.s1, a2 := k.s2, a3 := k.s3);
    if Local(owner) then Some(owner) else None
  }

  /** The daemon's dump and the kernel's record name the same endpoint for every bound socket
      but one: a socket on the mapped IPv4 wildcard, which only the kernel takes. */
  lemma DaemonAgrees(k: Socket)
    requires k.sport != 0
    ensures LocalOf(k) == FromSocket(k) <==>
            !(k.family == AF_INET6 && k.s0 == 0 && k.s1 == 0 && k.s2 == MAPPED && k.s3 == 0)
  {
  }

  /** Whether a bind is recorded at all: a real owner, a local endpoint, a targeted UID. */
  predicate Recordable(targeted: u32 -> bool, k: Socket) { k.uid != 0 && FromSocket(k).Some? && targeted(k.uid) }

  ghost function Step(p: Params, s: State, ev: Event): (t: State)
    requires WellSized(s)
    ensures WellSized(t)
  {
    match ev
    case Bind(socket) =>
      if Recordable(s.targeted, socket) then
        var e := FromSocket(socket).value;
        var k := SetOf(p, e);
        s.(pending := s.pending[k := Recorded(s.pending[k], e, s.now, PendingTtl(p))])
      else s
    case Replace(entries) =>
      if UpdateOk(entries) then s.(snapshot := Some(Snapshot(Members(entries), s.now + SnapshotLife(p)))) else s
    case Publish(targeted) => s.(targeted := targeted, pending := NoPending(), snapshot := None)
    case Tick(d) => s.(now := s.now + d)
  }

  ghost predicate Has(p: Params, s: State, e: Endpoint)
    requires WellSized(s)
  {
    || (s.snapshot.Some? && s.now < s.snapshot.value.expires && e in s.snapshot.value.members)
    || Answers(s.pending[SetOf(p, e)], e, s.now)
  }

  /** vpnhide_uid_owns_port: the endpoint itself or the wildcard of its family. */
  ghost predicate Owns(p: Params, s: State, e: Endpoint)
    requires WellSized(s)
  {
    Local(e) && (Has(p, s, e) || Has(p, s, Wildcard(e)))
  }

  // ------------------------------------------------------------------ the implementation

  class Cache {
    const p: Params
    var targeted: u32 -> bool
    var pending: seq<Ways>
    var buckets: Option<seq<Endpoint>>
    var expires: nat

    ghost predicate Valid()
      reads this
    {
      && |pending| == SETS && (forall k :: 0 <= k < SETS ==> |pending[k]| == WAYS)
      && (buckets.Some? ==> Table(buckets.value, p.hash))
    }

    ghost function Abs(now: nat): (s: State)
      reads this
      requires Valid()
      ensures WellSized(s)
    {
      State(now, targeted, pending,
            if buckets.Some? then Some(Snapshot(UsedMembers(buckets.value), expires)) else None)
    }

    constructor (params: Params)
      ensures Valid() && p == params && forall now: nat :: Abs(now) == State(now, targeted, NoPending(), None)
      ensures forall u :: !targeted(u)
    {
      p := params;
      targeted := NoTargets();
      pending := NoPending();
      buckets, expires := None, 0;
    }

    method RecordBoundSocket(socket: Socket, now: nat)
      requires Valid()
      modifies this
      ensures Valid() && Abs(now) == Step(p, old(Abs(now)), Bind(socket))
    {
      if !Recordable(targeted, socket) { return; }
      var e := FromSocket(socket).value;
      var k := SetOf(p, e);
      var w := SelectWay(pending[k], e, now);
      pending := pending[k := pending[k][w := Slot(e, now + PendingTtl(p))]];
    }

    method ReplaceOwnedPorts(entries: seq<Endpoint>, now: nat) returns (ok: bool)
      requires Valid()
      modifies this
      ensures Valid() && (ok <==> UpdateOk(entries))
      ensures Abs(now) == Step(p, old(Abs(now)), Replace(entries))
    {
      var built := Build(entries, p.hash);
      if built.Err? { return false; }
      assert UsedMembers(built.value) == Members(entries) by {
        forall e
          ensures e in UsedMembers(built.value) <==> e in entries
        {
          assert Stored(built.value, e) <==> e in entries;
        }
      }
      buckets, expires := Some(built.value), now + SnapshotLife(p);
      return true;
    }

    method PublishPolicy(t: u32 -> bool, now: nat)
      requires Valid()
      modifies this
      ensures Valid() && Abs(now) == Step(p, old(Abs(now)), Publish(t))
    {
      targeted := t;
      pending := NoPending();
      buckets := None;
    }

    method UidOwnsPort(e: Endpoint, now: nat) returns (found: bool)
      requires Valid()
      ensures found <==> Owns(p, Abs(now), e)
    {
      if !Local(e) { return false; }
      var wild := Wildcard(e);
      found := false;
      if buckets.Some? && now < expires {
        found := Contains(buckets.value, p.hash, e);
        if !found && e != wild {
          found := Contains(buckets.value, p.hash, wild);
        }
      }
      if !found {
        found := Lookup(pending[SetOf(p, e)], e, now);
        if !found && e != wild {
          found := Lookup(pending[SetOf(p, wild)], wild, now);
        }
      }
    }
  }

  // ------------------------------------------------------------------ histories

  /** The state after a run from a cache without policy. */
  ghost function Final(p: Params, run: seq<Event>): (s: State)
    ensures WellSized(s)
  {
    if run == [] then State(0, NoTargets(), NoPending(), None)
    else Step(p, Final(p, run[..|run| - 1]), run[|run| - 1])
  }

  function Time(run: seq<Event>): nat
  {
    if run == [] then 0 else
    Time(run[..|run| - 1]) + (if run[|run| - 1].Tick? then run[|run| - 1].d else 0)
  }

  /** The policy in force: that of the last publication. */
  function Policy(run: seq<Event>): u32 -> bool
  {
    if run == [] then NoTargets()
    else if run[|run| - 1].Publish? then run[|run| - 1].targeted
    else Policy(run[..|run| - 1])
  }

  /** The recordings of one set since the last publication, with their times. */
  function Recordings(p: Params, run: seq<Event>, k: nat): seq<Rec>
  {
    if run == [] then [] else
    var before, ev := run[..|run| - 1], run[|run| - 1];
    if ev.Publish? then []
    else if ev.Bind? && Recordable(Policy(before), ev.socket) && SetOf(p, FromSocket(ev.socket).value) == k
    then Recordings(p, before, k) + [Rec(FromSocket(ev.socket).value, Time(before))]
    else Recordings(p, before, k)
  }

  /** The latest accepted update since the last publication, and when it came. */
  ghost function LatestUpdate(run: seq<Event>): Option<(seq<Endpoint>, nat)>
  {
    if run == [] then None else
    var before, ev := run[..|run| - 1], run[|run| - 1];
    if ev.Publish? then None
    else if ev.Replace? && UpdateOk(ev.entries) then Some((ev.entries, Time(before)))
    else LatestUpdate(before)
  }

  ghost predicate Matches(p: Params, run: seq<Event>, s: State)
  {
    && s.now == Time(run) && s.targeted == Policy(run)
    && |s.pending| == SETS
    && (forall k :: 0 <= k < SETS ==> s.pending[k] == PendingCache.After(Recordings(p, run, k), PendingTtl(p)))
    && match LatestUpdate(run)
       case None => s.snapshot.None?
       case Some((entries, at)) => s.snapshot == Some(Snapshot(Members(entries), at + SnapshotLife(p)))
  }

  /** The state is what the history says. */
  lemma {:induction false} StateMatchesHistory(p: Params, run: seq<Event>)
    ensures Matches(p, run, Final(p, run))
  {
    if run != [] {
      var before, ev := run[..|run| - 1], run[|run| - 1];
      StateMatchesHistory(p, before);
      forall k | 0 <= k < SETS
        ensures Final(p, run).pending[k] == PendingCache.After(Recordings(p, run, k), PendingTtl(p))
      {
        if ev.Bind? && Recordable(Policy(before), ev.socket) && SetOf(p, FromSocket(ev.socket).value) == k {
          var recs := Recordings(p, before, k);
          assert (recs + [Rec(FromSocket(ev.socket).value, Time(before))])[..|recs|] == recs;
        }
      }
    }
  }

  /** An endpoint was recorded since the last publication and within its time to live. */
  ghost predicate RecordedRecently(p: Params, run: seq<Event>, e: Endpoint)
  {
    var recs := Recordings(p, run, SetOf(p, e));
    exists i :: 0 <= i < |recs| && recs[i].owner == e && Time(run) < recs[i].at + PendingTtl(p)
  }

  /** An endpoint is in the latest update since the last publication, not yet expired. */
  ghost predicate InLatestUpdate(p: Params, run: seq<Event>, e: Endpoint)
  {
    match LatestUpdate(run)
    case None => false
    case Some((entries, at)) => e in entries && Time(run) < at + SnapshotLife(p)
  }

  lemma {:induction false} HasIsJustified(p: Params, run: seq<Event>, e: Endpoint)
    requires Has(p, Final(p, run), e)
    ensures RecordedRecently(p, run, e) || InLatestUpdate(p, run, e)
  {
    StateMatchesHistory(p, run);
    var s, k := Final(p, run), SetOf(p, e);
    var recs := Recordings(p, run, k);
    if Answers(s.pending[k], e, s.now) {
      var w :| 0 <= w < WAYS && s.pending[k][w].owner == e && s.now < s.pending[k][w].expires;
      AfterSound(recs, PendingTtl(p), w);
    }
  }

  /** A query answers yes only for an endpoint that was recorded or reported, itself or as
      the wildcard of its family, recently and since the last publication. */
  lemma {:induction false} OwnershipSafety(p: Params, run: seq<Event>, e: Endpoint)
    requires Owns(p, Final(p, run), e)
    ensures Local(e)
    ensures exists x :: (x == e || x == Wildcard(e)) && (RecordedRecently(p, run, x) || InLatestUpdate(p, run, x))
  {
    if Has(p, Final(p, run), e) { HasIsJustified(p, run, e); } else { HasIsJustified(p, run, Wildcard(e)); }
  }

  /** An endpoint that answers a query: itself or the wildcard of its family. */
  predicate Serves(x: Endpoint, e: Endpoint) { Local(e) && (x == e || x == Wildcard(e)) }

  /** The other direction for updates: a query for an endpoint in the latest update, or for
      one whose wildcard is there, is answered until the update expires. */
  lemma {:induction false} UpdateIsAnswered(p: Params, run: seq<Event>, x: Endpoint, e: Endpoint)
    requires InLatestUpdate(p, run, x) && Serves(x, e)
    ensures Owns(p, Final(p, run), e)
  {
    StateMatchesHistory(p, run);
    assert Has(p, Final(p, run), x);
  }

  lemma {:induction false} RecordingsAreReal(p: Params, run: seq<Event>, k: nat)
    ensures RealOwners(Recordings(p, run, k)) && TicksForward(Recordings(p, run, k))
    ensures forall i :: 0 <= i < |Recordings(p, run, k)| ==> Recordings(p, run, k)[i].at <= Time(run)
  {
    if run != [] { RecordingsAreReal(p, run[..|run| - 1], k); }
  }

  /** The other direction for recordings: an endpoint, and every one that it is the wildcard
      of, stays answerable for its full time to live unless a publication occurs or more than
      four recordings, itself included, fall into its set from its tick on. */
  lemma {:induction false} RecordingSurvives(p: Params, run: seq<Event>, x: Endpoint, i: nat, e: Endpoint)
    requires var recs := Recordings(p, run, SetOf(p, x));
             && i < |recs| && recs[i].owner == x && Time(run) < recs[i].at + PendingTtl(p)
             && Since(recs, recs[i].at) <= WAYS
    requires Serves(x, e)
    ensures Owns(p, Final(p, run), e)
  {
    StateMatchesHistory(p, run);
    RecordingsAreReal(p, run, SetOf(p, x));
    SurvivorAnswers(Recordings(p, run, SetOf(p, x)), PendingTtl(p), i, Time(run));
    assert Has(p, Final(p, run), x);
  }

  ghost predicate NoPublish(run: seq<Event>, j: nat) { forall i :: j <= i < |run| ==> !run[i].Publish? }

  /** Without a publication since, the recordings and the policy of an earlier moment are
      still there. */
  lemma {:induction false} HistoryGrows(p: Params, run: seq<Event>, j: nat, k: nat)
    requires j <= |run| && NoPublish(run, j)
    ensures Recordings(p, run[..j], k) <= Recordings(p, run, k) && Policy(run[..j]) == Policy(run)
  {
    if j == |run| {
      assert run[..j] == run;
    } else {
      var before := run[..|run| - 1];
      HistoryGrows(p, before, j, k);
      assert before[..j] == run[..j];
    }
  }

  /** A socket bound at event `j`, while its UID was targeted, is answered for its time to
      live unless a policy is published or more than four recordings share its set from its
      tick on. */
  lemma {:induction false} BoundSurvives(p: Params, run: seq<Event>, j: nat, e: Endpoint)
    requires j < |run| && NoPublish(run, j) && run[j].Bind? && Recordable(Policy(run), run[j].socket)
    requires var x := FromSocket(run[j].socket).value;
             var recs := Recordings(p, run, SetOf(p, x));
             && Serves(x, e) && Time(run) < Time(run[..j]) + PendingTtl(p)
             && Since(recs, Time(run[..j])) <= WAYS
    ensures Owns(p, Final(p, run), e)
  {
    var x := FromSocket(run[j].socket).value;
    var k := SetOf(p, x);
    HistoryGrows(p, run, j, k);
    HistoryGrows(p, run, j + 1, k);
    var before, upTo := Recordings(p, run[..j], k), Recordings(p, run[..j + 1], k);
    assert run[..j + 1][..j] == run[..j] && run[..j + 1][j] == run[j];
    assert upTo == before + [Rec(x, Time(run[..j]))];
    assert Recordings(p, run, k)[|before|] == upTo[|before|];
    RecordingSurvives(p, run, x, |before|, e);
  }

  /** After a publication nothing is owned until something is recorded or reported again. */
  lemma {:induction false} PublicationForgets(p: Params, run: seq<Event>, targeted: u32 -> bool, e: Endpoint)
    ensures !Owns(p, Final(p, run + [Publish(targeted)]), e)
  {
    var all := run + [Publish(targeted)];
    if Owns(p, Final(p, all), e) {
      OwnershipSafety(p, all, e);
      assert false;
    }
  }
}
