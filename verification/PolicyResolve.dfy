/** Resolving a configuration into the lists that are packed for the kernel
    (vpnhide_resolve_targets and vpnhide_resolve_port_rules). */
module PolicyResolve {
  import opened Types
  import opened PortRules

  datatype Target = Target(uid: u32, mode: byte, rules: seq<PortRule>)

  /** UIDs of the Android application range; the controller drops the others. */
  predicate AppRange(uid: u32) { uid != 0 && uid % 100000 >= 10000 }

  /** The kernel's eligibility test. */
  predicate Eligible(uid: u32) { !(uid == 0 || uid == 1000 || uid % 100000 < 10000) }

  // ------------------------------------------------------------------ port targets

  predicate HidesPorts(a: Option<App>, uid: u32)
  {
    a.Some? && a.value.portHiding && a.value.uid == uid && AppRange(uid)
  }

  /** The first application of the configuration that claims a UID wins. */
  ghost function FirstApp(apps: seq<Option<App>>, uid: u32): (r: Option<App>)
    ensures r.Some? ==> HidesPorts(r, uid)
    ensures r.None? ==> forall a :: a in apps ==> !HidesPorts(a, uid)
  {
    if apps == [] then None else
    var n := |apps| - 1;
    assert apps == apps[..n] + [apps[n]];
    var earlier := FirstApp(apps[..n], uid);
    if earlier.Some? then earlier else if HidesPorts(apps[n], uid) then apps[n] else None
  }

  /** What the documentation promises for one listed application: in allowlist mode an
      application without rules is unrestricted and one with rules sees only the named
      ports; in blacklist mode the named ports are hidden, or all of them without rules. */
  ghost predicate AppBlocks(cfg: Config, app: App, port: int, proto: byte)
  {
    if cfg.allowlist then HasRules(cfg, app) && !NamedPort(cfg, app, port, proto)
    else HasRules(cfg, app) ==> NamedPort(cfg, app, port, proto)
  }

  /** The whole port policy: an unlisted UID is fully blocked in allowlist mode if it
      is eligible, and never in blacklist mode. */
  ghost predicate SpecBlocks(cfg: Config, uid: u32, port: int, proto: byte)
  {
    match FirstApp(cfg.apps, uid)
    case Some(app) => AppBlocks(cfg, app, port, proto)
    case None => cfg.allowlist && Eligible(uid)
  }

  ghost predicate ModeBlocks(mode: byte, rules: seq<PortRule>, port: int, proto: byte)
  {
    mode != UNRESTRICTED && (mode == DENY_ALL || Matches(rules, port, proto))
  }

  ghost predicate Means(cfg: Config, app: App, t: Target)
  {
    && t.uid == app.uid
    && t.mode <= DENY_ALL
    && (forall i :: 0 <= i < |t.rules| ==> ValidRule(t.rules[i]))
    && (cfg.allowlist ==> Normal(t.rules)) && |t.rules| == RuleCount(cfg, app)
    && (forall port: int, proto: byte :: 0 <= port <= LAST_PORT && proto <= UDP ==>
          (ModeBlocks(t.mode, t.rules, port, proto) <==> AppBlocks(cfg, app, port, proto)))
  }

  ghost predicate DistinctUids(ts: seq<Target>)
  {
    forall i, j :: 0 <= i < j < |ts| ==> ts[i].uid != ts[j].uid
  }

  ghost predicate ResolvesTo(cfg: Config, apps: seq<Option<App>>, ts: seq<Target>)
  {
    && DistinctUids(ts)
    && (forall i :: 0 <= i < |ts| ==>
          FirstApp(apps, ts[i].uid).Some? && Means(cfg, FirstApp(apps, ts[i].uid).value, ts[i]))
    && (forall uid: u32 :: FirstApp(apps, uid).Some? ==> Lists(ts, uid))
    && RulesIn(ts) == RuleTotal(cfg, apps)
  }

  function RulesIn(ts: seq<Target>): nat { if ts == [] then 0 else RulesIn(ts[..|ts| - 1]) + |ts[|ts| - 1].rules| }

  /** The rules of all listed UIDs: those of the first application of each. */
  ghost function RuleTotal(cfg: Config, apps: seq<Option<App>>): nat
  {
    if apps == [] then 0 else
    var n := |apps| - 1;
    RuleTotal(cfg, apps[..n]) +
    (if apps[n].Some? && HidesPorts(apps[n], apps[n].value.uid) && FirstApp(apps[..n], apps[n].value.uid).None?
     then RuleCount(cfg, apps[n].value) else 0)
  }

  ghost predicate Lists(ts: seq<Target>, uid: u32) { exists i :: 0 <= i < |ts| && ts[i].uid == uid }

  method ResolveOne(cfg: Config, app: App) returns (r: Result<Target>)
    ensures r.Ok? <==> RulesOk(cfg, app)
    ensures r.Ok? ==> Means(cfg, app, r.value)
  {
    var named := ResolveNamedPortRules(cfg, app, !cfg.allowlist);
    if named.Err? { return Err; }
    if !cfg.allowlist {
      forall port: int, proto: byte | 0 <= port <= LAST_PORT && proto <= UDP && !HasRules(cfg, app)
        ensures Matches(named.value, port, proto)
      {
        assert Covers(named.value[0], port, proto);
      }
      return Ok(Target(app.uid, RULES, named.value));
    }
    if |named.value| == 0 {
      return Ok(Target(app.uid, UNRESTRICTED, []));
    }
    var rules := ComplementRules(named.value);
    ComplementCounts(cfg, app, named.value, rules);
    forall port: int, proto: byte | 0 <= port <= LAST_PORT && proto <= UDP
      ensures Matches(rules, port, proto) <==> !Matches(named.value, port, proto)
    {
      ComplementBlocks(rules, named.value, port, proto);
    }
    return Ok(Target(app.uid, RULES, rules));
  }

  ghost predicate AllRulesOk(cfg: Config, apps: seq<Option<App>>)
  {
    forall uid: u32 :: FirstApp(apps, uid).Some? ==> RulesOk(cfg, FirstApp(apps, uid).value)
  }

  method IsListed(ts: seq<Target>, uid: u32) returns (listed: bool)
    ensures listed <==> Lists(ts, uid)
  {
    for k := 0 to |ts|
      invariant forall i :: 0 <= i < k ==> ts[i].uid != uid
    {
      if ts[k].uid == uid { return true; }
    }
    return false;
  }

  method ResolvePortRules(cfg: Config) returns (r: Result<seq<Target>>)
    ensures r.Ok? <==> AllRulesOk(cfg, cfg.apps)
    ensures r.Ok? ==> ResolvesTo(cfg, cfg.apps, r.value)
  {
    var ts: seq<Target> := [];
    for i := 0 to |cfg.apps|
      invariant AllRulesOk(cfg, cfg.apps[..i])
      invariant ResolvesTo(cfg, cfg.apps[..i], ts)
    {
      assert cfg.apps[..i + 1] == cfg.apps[..i] + [cfg.apps[i]];
      var next := ResolveNext(cfg, cfg.apps[..i], cfg.apps[i], ts);
      if next.Err? {
        FirstAppPrefix(cfg.apps, i + 1, cfg.apps[i].value.uid);
        return Err;
      }
      ts := next.value;
    }
    assert cfg.apps[..|cfg.apps|] == cfg.apps;
    r := Ok(ts);
  }

  /** One application of the loop, behind those already resolved. */
  method ResolveNext(cfg: Config, ghost apps: seq<Option<App>>, a: Option<App>, ts: seq<Target>)
    returns (r: Result<seq<Target>>)
    requires AllRulesOk(cfg, apps) && ResolvesTo(cfg, apps, ts)
    ensures r.Ok? ==> AllRulesOk(cfg, apps + [a]) && ResolvesTo(cfg, apps + [a], r.value)
    ensures r.Err? ==> a.Some? && FirstApp(apps + [a], a.value.uid) == a && !RulesOk(cfg, a.value)
  {
    assert (apps + [a])[..|apps|] == apps;
    if !a.Some? || !a.value.portHiding || !AppRange(a.value.uid) { return Ok(ts); }
    var listed := IsListed(ts, a.value.uid);
    if listed { return Ok(ts); }
    var one := ResolveOne(cfg, a.value);
    if one.Err? { return Err; }
    ExtendResolved(cfg, apps, a, ts, one.value);
    r := Ok(ts + [one.value]);
  }

  lemma {:induction false} FirstAppPrefix(apps: seq<Option<App>>, k: nat, uid: u32)
    requires k <= |apps| && FirstApp(apps[..k], uid).Some?
    ensures FirstApp(apps, uid) == FirstApp(apps[..k], uid)
    decreases |apps| - k
  {
    if k < |apps| {
      assert apps[..k + 1][..k] == apps[..k];
      FirstAppPrefix(apps, k + 1, uid);
    } else {
      assert apps[..k] == apps;
    }
  }

  lemma ExtendResolved(cfg: Config, apps: seq<Option<App>>, a: Option<App>, ts: seq<Target>, t: Target)
    requires ResolvesTo(cfg, apps, ts) && a.Some? && HidesPorts(a, a.value.uid)
    requires !Lists(ts, a.value.uid) && Means(cfg, a.value, t)
    ensures ResolvesTo(cfg, apps + [a], ts + [t])
  {
    assert (apps + [a])[..|apps|] == apps && (ts + [t])[..|ts|] == ts;
    forall uid: u32 | FirstApp(apps + [a], uid).Some?
      ensures Lists(ts + [t], uid)
    {
      if uid == t.uid {
        assert (ts + [t])[|ts|].uid == uid;
      } else {
        assert FirstApp(apps, uid).Some?;
        assert Lists(ts, uid);
        var i :| 0 <= i < |ts| && ts[i].uid == uid;
        assert (ts + [t])[i].uid == uid;
      }
    }
  }

  // ------------------------------------------------------------------ UID lists

  predicate Wants(a: Option<App>, kernel: bool, uid: u32)
  {
    a.Some? && a.value.uid == uid && (if kernel then a.value.kmod else a.value.lsposed)
  }

  ghost predicate Distinct(uids: seq<u32>)
  {
    forall i, j :: 0 <= i < j < |uids| ==> uids[i] != uids[j]
  }

  /** A list holds exactly the application-range UIDs that ask for a layer. */
  ghost predicate ListsWanted(apps: seq<Option<App>>, kernel: bool, uids: seq<u32>)
  {
    && Distinct(uids)
    && (forall uid: u32 :: uid in uids <==> Wanted(apps, kernel, uid))
  }

  ghost predicate Wanted(apps: seq<Option<App>>, kernel: bool, uid: u32)
  {
    AppRange(uid) && exists a :: a in apps && Wants(a, kernel, uid)
  }

  lemma WantedStep(apps: seq<Option<App>>, a: Option<App>, kernel: bool)
    ensures forall uid: u32 :: Wanted(apps + [a], kernel, uid) <==>
      Wanted(apps, kernel, uid) || (AppRange(uid) && Wants(a, kernel, uid))
  {
    forall uid: u32
      ensures Wanted(apps + [a], kernel, uid) <==> Wanted(apps, kernel, uid) || (AppRange(uid) && Wants(a, kernel, uid))
    {
      if Wanted(apps, kernel, uid) {
        var b :| b in apps && Wants(b, kernel, uid);
        assert b in apps + [a];
      }
      assert a in apps + [a];
    }
  }

  method AddUidDistinct(uids: seq<u32>, uid: u32) returns (r: seq<u32>)
    requires Distinct(uids)
    ensures Distinct(r)
    ensures forall u: u32 :: u in r <==> u in uids || (u == uid && uid != 0)
  {
    if uid == 0 { return uids; }
    for i := 0 to |uids|
      invariant uid !in uids[..i]
    {
      if uids[i] == uid { return uids; }
    }
    r := uids + [uid];
  }

  method ResolveTargets(cfg: Config) returns (kmod: seq<u32>, lsposed: seq<u32>)
    ensures ListsWanted(cfg.apps, true, kmod) && ListsWanted(cfg.apps, false, lsposed)
  {
    kmod, lsposed := [], [];
    for i := 0 to |cfg.apps|
      invariant ListsWanted(cfg.apps[..i], true, kmod)
      invariant ListsWanted(cfg.apps[..i], false, lsposed)
    {
      var a := cfg.apps[i];
      assert cfg.apps[..i + 1] == cfg.apps[..i] + [a];
      WantedStep(cfg.apps[..i], a, true);
      WantedStep(cfg.apps[..i], a, false);
      if a.Some? && AppRange(a.value.uid) {
        if a.value.kmod { kmod := AddUidDistinct(kmod, a.value.uid); }
        if a.value.lsposed { lsposed := AddUidDistinct(lsposed, a.value.uid); }
      }
    }
    assert cfg.apps[..|cfg.apps|] == cfg.apps;
  }
}
