/** The decision on a connect (kmod/hooks_socket.c): where it goes, what the policy says, and
    whether the caller owns the destination itself. */
module Connecting {
  import opened Types
  import opened Endpoints
  import PortRules
  import opened PolicyResolve
  import opened PolicyDecode
  import opened PolicySnapshot
  import opened PolicyEndToEnd
  import OwnPorts

  /** A socket address and the kind of socket: for IPv4 the address is the first word. */
  datatype Destination = Destination(family: u16, port: u16, a0: u32, a1: u32, a2: u32, a3: u32, stream: bool)

  function Protocol(d: Destination): byte { if d.stream then Endpoints.TCP else Endpoints.UDP }

  predicate Loopback6(d: Destination) { d.a0 == 0 && d.a1 == 0 && d.a2 == 0 && d.a3 == LOOPBACK6 }

  predicate Any6(d: Destination) { d.a0 == 0 && d.a1 == 0 && d.a2 == 0 && d.a3 == 0 }

  predicate Mapped(d: Destination) { d.a0 == 0 && d.a1 == 0 && d.a2 == MAPPED }

  /** The endpoint that a destination names; a mapped address is the IPv4 endpoint in it. */
  function Target(uid: u32, d: Destination): Option<Endpoint>
  {
    var e := Endpoint(uid, d.port, Protocol(d), AF_INET, 0, 0, 0, 0);
    if d.family == AF_INET then Some(e.(a0 := d.a0))
    else if d.family != AF_INET6 then None
    else if Mapped(d) then Some(e.(a0 := d.a3))
    else Some(e.(family := AF_INET6, a0 := d.a0, a1 := d.a1, a2 := d.a2, a3 := d.a3))
  }

  /** A connect is refused when it goes to a local endpoint that the published policy blocks
      for the caller and that the caller does not own. */
  ghost predicate Refuses(published: Option<Snapshot>, p: OwnPorts.Params, owners: OwnPorts.State, uid: u32,
                          d: Destination)
    requires OwnPorts.WellSized(owners)
  {
    var e := Target(uid, d);
    && published.Some? && e.Some? && Local(e.value)
    && Blocks(published.value, uid, d.port, Protocol(d)) && !OwnPorts.Owns(p, owners, e.value)
  }

  // ------------------------------------------------------------------ the two hooks

  /** Each hook asks the policy first and the owners only for what the policy blocks. */
  method Decide(published: Snapshot, cache: OwnPorts.Cache, now: nat, uid: u32, e: Endpoint) returns (block: bool)
    requires SnapshotOk(published) && cache.Valid()
    ensures block <==> Blocks(published, uid, e.port, e.protocol) && !OwnPorts.Owns(cache.p, cache.Abs(now), e)
  {
    var hit := PortBlocked(published, uid, e.port, e.protocol);
    if !hit { return false; }
    var owned := cache.UidOwnsPort(e, now);
    return !owned;
  }

  /** direct_connect_should_block: locality of a mapped address replaces that of the whole. */
  method DirectConnect(published: Option<Snapshot>, cache: OwnPorts.Cache, now: nat, uid: u32, d: Destination)
    returns (block: bool)
    requires (published.Some? ==> SnapshotOk(published.value)) && cache.Valid()
    ensures block <==> Refuses(published, cache.p, cache.Abs(now), uid, d)
  {
    if published.None? { return false; }
    var e := Endpoint(uid, d.port, Protocol(d), AF_INET, d.a0, 0, 0, 0);
    var local := Loopback4(d.a0) || d.a0 == 0;
    if d.family == AF_INET6 {
      local := Loopback6(d) || Any6(d);
      e := e.(family := AF_INET6, a1 := d.a1, a2 := d.a2, a3 := d.a3);
      if Mapped(d) {
        local := Loopback4(d.a3) || d.a3 == 0;
        e := e.(family := AF_INET, a0 := d.a3, a1 := 0, a2 := 0, a3 := 0);
      }
    } else if d.family != AF_INET {
      return false;
    }
    if !local { return false; }
    block := Decide(published.value, cache, now, uid, e);
  }

  /** socket_connect_entry: the hook is asked for first, and a mapped address counts as local
      beside the others. */
  method ConnectEntry(published: Option<Snapshot>, cache: OwnPorts.Cache, now: nat, uid: u32, d: Destination)
    returns (block: bool)
    requires (published.Some? ==> SnapshotOk(published.value)) && cache.Valid()
    ensures block <==> Refuses(published, cache.p, cache.Abs(now), uid, d)
  {
    var active := IsHookActive(published, HOOK_CONNECT, uid);
    if !active { return false; }
    if d.family == AF_INET {
      if !Loopback4(d.a0) && d.a0 != 0 { return false; }
      block := Decide(published.value, cache, now, uid, Endpoint(uid, d.port, Protocol(d), AF_INET, d.a0, 0, 0, 0));
    } else if d.family == AF_INET6 {
      var local := false;
      if Loopback6(d) || Any6(d) {
        local := true;
      } else if Mapped(d) {
        if Loopback4(d.a3) || d.a3 == 0 { local := true; }
      }
      if !local { return false; }
      var e := Endpoint(uid, d.port, Protocol(d), AF_INET6, d.a0, d.a1, d.a2, d.a3);
      if Mapped(d) { e := Endpoint(uid, d.port, Protocol(d), AF_INET, d.a3, 0, 0, 0); }
      block := Decide(published.value, cache, now, uid, e);
    } else {
      return false;
    }
  }

  // ------------------------------------------------------------------ what it comes to

  /** Under a policy that implements a configuration a connect is refused exactly when it
      goes to a local endpoint that the configuration blocks for the caller and that the
      caller does not own. */
  lemma RefusesExactly(cfg: PortRules.Config, s: Snapshot, p: OwnPorts.Params, owners: OwnPorts.State, uid: u32,
                       d: Destination)
    requires Implements(s, cfg) && OwnPorts.WellSized(owners)
    ensures Refuses(Some(s), p, owners, uid, d) <==>
            && Target(uid, d).Some? && Local(Target(uid, d).value)
            && SpecBlocks(cfg, uid, d.port, Protocol(d)) && !OwnPorts.Owns(p, owners, Target(uid, d).value)
  {
    assert Request(d.port, Protocol(d));
  }

  /** Over every run: a connect to a local endpoint that the configuration blocks is refused
      if neither the endpoint nor its wildcard was recorded within its time to live or is in
      the latest unexpired list since the last publication. */
  lemma {:induction false} StrangerIsRefused(cfg: PortRules.Config, s: Snapshot, p: OwnPorts.Params,
                                             run: seq<OwnPorts.Event>, uid: u32, d: Destination)
    requires Implements(s, cfg) && Target(uid, d).Some? && Local(Target(uid, d).value)
    requires SpecBlocks(cfg, uid, d.port, Protocol(d))
    requires forall x :: OwnPorts.Serves(x, Target(uid, d).value) ==>
               !OwnPorts.RecordedRecently(p, run, x) && !OwnPorts.InLatestUpdate(p, run, x)
    ensures Refuses(Some(s), p, OwnPorts.Final(p, run), uid, d)
  {
    RefusesExactly(cfg, s, p, OwnPorts.Final(p, run), uid, d);
    var e := Target(uid, d).value;
    if OwnPorts.Owns(p, OwnPorts.Final(p, run), e) {
      OwnPorts.OwnershipSafety(p, run, e);
    }
  }

  /** The policy has a port target for the UID, listed or implied. */
  ghost predicate HasTarget(s: Snapshot, uid: u32)
  {
    (exists t :: t in s.targets && t.uid == uid) || (s.portMode == EXCLUDE && Eligible(uid))
  }

  /** The policy that the binds of a run were recorded under is the published one. */
  ghost predicate Targets(s: Snapshot, run: seq<OwnPorts.Event>)
  {
    forall uid: u32 :: OwnPorts.Policy(run)(uid) <==> HasTarget(s, uid)
  }

  /** A destination that a socket bound at event `j` serves. */
  ghost predicate Reached(run: seq<OwnPorts.Event>, j: nat, d: Destination)
  {
    && j < |run| && run[j].Bind?
    && var x, e := OwnPorts.FromSocket(run[j].socket), Target(run[j].socket.uid, d);
       x.Some? && e.Some? && OwnPorts.Serves(x.value, e.value)
  }

  /** A caller is never refused a connect to a socket that it bound within the time to live
      of the recording, unless another policy was published since or more than four recordings
      share its set from its tick on: whatever the policy says. */
  lemma {:induction false} OwnSocketIsReached(s: Snapshot, p: OwnPorts.Params, run: seq<OwnPorts.Event>, j: nat,
                                              d: Destination)
    requires SnapshotOk(s) && Targets(s, run) && Reached(run, j, d) && OwnPorts.NoPublish(run, j)
    requires var x := OwnPorts.FromSocket(run[j].socket).value;
             var recs := OwnPorts.Recordings(p, run, OwnPorts.SetOf(p, x));
             && OwnPorts.Time(run) < OwnPorts.Time(run[..j]) + OwnPorts.PendingTtl(p)
             && OwnPorts.PendingCache.Since(recs, OwnPorts.Time(run[..j])) <= OwnPorts.PendingCache.WAYS
    ensures !Refuses(Some(s), p, OwnPorts.Final(p, run), run[j].socket.uid, d)
  {
    var uid := run[j].socket.uid;
    if HasTarget(s, uid) {
      TargetIsReal(s, uid);
      OwnPorts.BoundSurvives(p, run, j, Target(uid, d).value);
    }
  }

  /** Nor is a caller refused a connect to an endpoint of the daemon's latest list. */
  lemma {:induction false} ListedSocketIsReached(s: Snapshot, p: OwnPorts.Params, run: seq<OwnPorts.Event>,
                                                 x: Endpoint, uid: u32, d: Destination)
    requires OwnPorts.InLatestUpdate(p, run, x)
    requires Target(uid, d).Some? && OwnPorts.Serves(x, Target(uid, d).value)
    ensures !Refuses(Some(s), p, OwnPorts.Final(p, run), uid, d)
  {
    OwnPorts.UpdateIsAnswered(p, run, x, Target(uid, d).value);
  }

  lemma TargetIsReal(s: Snapshot, uid: u32)
    requires SnapshotOk(s) && HasTarget(s, uid)
    ensures uid != 0
  {
    if t :| t in s.targets && t.uid == uid {
      var i :| 0 <= i < |s.targets| && s.targets[i] == t;
      assert TargetOk(s.targets[i]);
    }
  }
}
