/** From configuration to decision: resolving, packing, decoding and querying compose to
    exactly what the configuration says. */
module PolicyEndToEnd {
  import opened Types
  import opened PortRules
  import opened PolicyResolve
  import opened PolicyWire
  import opened PolicyPack
  import opened PolicyDecode
  import opened PolicySnapshot
  import opened HookMasks
  import opened Sorting

  function PortUid(t: Target): int { t.uid }

  ghost predicate PortOk(t: Target) { t.uid != 0 && t.mode <= DENY_ALL && ListRulesOk(t.rules) }

  /** What packing needs for the kernel to accept the result. */
  ghost predicate PolicyOk(p: Policy)
  {
    && p.ifaces <= MAX_PREFIXES && p.mode <= EXCLUDE
    && 0 !in p.kmod && DistinctBy(p.kmod, Id) && 0 !in p.lsposed && DistinctBy(p.lsposed, Id)
    && DistinctBy(p.ports, PortUid) && (forall i :: 0 <= i < |p.ports| ==> PortOk(p.ports[i]))
    && DistinctBy(p.masks, MaskUid) && (forall i :: 0 <= i < |p.masks| ==> MaskOk(p.masks[i]))
  }

  // ------------------------------------------------------------------ the flattened arrays

  lemma {:induction false} FlatPrefix(ts: seq<Target>, i: nat)
    requires i <= |ts| && |FlatRules(ts)| < 0x1_0000_0000
    ensures |FlatRules(ts[..i])| <= |FlatRules(ts)| && FlatTargets(ts)[..i] == FlatTargets(ts[..i])
    ensures FlatRules(ts)[..|FlatRules(ts[..i])|] == FlatRules(ts[..i])
    decreases |ts| - i
  {
    RulesGrow(ts, i);
    if i == |ts| {
      assert ts[..i] == ts;
    } else {
      RulesGrow(ts, i + 1);
      FlatPrefix(ts, i + 1);
      assert ts[..i + 1][..i] == ts[..i];
      assert FlatTargets(ts)[..i] == FlatTargets(ts)[..i + 1][..i];
      var n, m := |FlatRules(ts[..i])|, |FlatRules(ts[..i + 1])|;
      assert FlatRules(ts)[..n] == FlatRules(ts)[..m][..n];
    }
  }

  /** Each flattened target describes its source, and its segment is its rule list. */
  lemma {:induction false} FlatAt(ts: seq<Target>, i: nat)
    requires i < |ts| && |FlatRules(ts)| < 0x1_0000_0000
    ensures var w := FlatTargets(ts)[i];
      && w.uid == ts[i].uid && w.mode == ts[i].mode && w.r0 == w.r1 == w.r2 == 0
      && w.firstRule == |FlatRules(ts[..i])| && w.ruleCount == |ts[i].rules|
    ensures InBounds(FlatTargets(ts)[i], |FlatRules(ts)|)
    ensures Segment(FlatRules(ts), FlatTargets(ts)[i]) == WireRules(ts[i].rules)
  {
    FlatPrefix(ts, i);
    FlatPrefix(ts, i + 1);
    assert ts[..i + 1][..i] == ts[..i];
    var n, m := |FlatRules(ts[..i])|, |FlatRules(ts[..i + 1])|;
    assert FlatTargets(ts)[i] == FlatTargets(ts)[..i + 1][i];
    assert FlatRules(ts)[n..m] == FlatRules(ts)[..m][n..];
  }

  lemma {:induction false} FlatSum(ts: seq<Target>)
    requires |FlatRules(ts)| < 0x1_0000_0000
    ensures RuleSum(FlatTargets(ts)) == |FlatRules(ts)|
  {
    if ts != [] {
      var n := |ts| - 1;
      FlatPrefix(ts, n);
      FlatSum(ts[..n]);
    }
  }

  lemma {:induction false} FlatContiguous(ts: seq<Target>)
    requires |FlatRules(ts)| < 0x1_0000_0000
    ensures Contiguous(FlatTargets(ts), |FlatRules(ts)|)
  {
    FlatSum(ts);
    forall i | 0 <= i < |ts| ensures FlatTargets(ts)[i].firstRule == RuleSum(FlatTargets(ts)[..i]) {
      FlatAt(ts, i);
      FlatPrefix(ts, i);
      FlatSum(ts[..i]);
    }
  }

  lemma {:induction false} FlatTargetsOk(ts: seq<Target>)
    requires |FlatRules(ts)| < 0x1_0000_0000
    ensures DistinctBy(FlatTargets(ts), TargetUid) <==> DistinctBy(ts, PortUid)
    ensures (forall i :: 0 <= i < |ts| ==> TargetOk(FlatTargets(ts)[i])) <==>
      (forall i :: 0 <= i < |ts| ==> ts[i].uid != 0 && ts[i].mode <= DENY_ALL)
  {
    var w := FlatTargets(ts);
    forall i | 0 <= i < |ts|
      ensures TargetUid(w[i]) == PortUid(ts[i]) && (TargetOk(w[i]) <==> ts[i].uid != 0 && ts[i].mode <= DENY_ALL)
    {
      FlatAt(ts, i);
    }
  }

  ghost predicate ListRulesOk(rules: seq<PortRule>) { forall k :: 0 <= k < |rules| ==> ValidRule(rules[k]) }

  ghost predicate AllRuleOk(rules: seq<WireRule>) { forall k :: 0 <= k < |rules| ==> RuleOk(rules[k]) }

  lemma WireRulesOk(rules: seq<PortRule>)
    ensures ListRulesOk(rules) <==> AllRuleOk(WireRules(rules))
  {
    assert forall k :: 0 <= k < |rules| ==> (RuleOk(WireRules(rules)[k]) <==> ValidRule(rules[k]));
  }

  lemma BothRuleOk(a: seq<WireRule>, b: seq<WireRule>)
    ensures AllRuleOk(a + b) <==> AllRuleOk(a) && AllRuleOk(b)
  {
    assert forall k :: 0 <= k < |a| ==> (a + b)[k] == a[k];
    assert forall k :: 0 <= k < |b| ==> (a + b)[|a| + k] == b[k];
  }

  lemma {:induction false} FlatRulesOk(ts: seq<Target>)
    ensures AllRuleOk(FlatRules(ts)) <==> forall i :: 0 <= i < |ts| ==> ListRulesOk(ts[i].rules)
  {
    if ts != [] {
      var n := |ts| - 1;
      FlatRulesOk(ts[..n]);
      WireRulesOk(ts[n].rules);
      BothRuleOk(FlatRules(ts[..n]), WireRules(ts[n].rules));
      assert forall i :: 0 <= i < n ==> ts[..n][i] == ts[i];
    }
  }

  // ------------------------------------------------------------------ acceptance

  ghost predicate AllTargetOk(ts: seq<WireTarget>) { forall i :: 0 <= i < |ts| ==> TargetOk(ts[i]) }

  ghost predicate AllPortOk(ts: seq<Target>) { forall i :: 0 <= i < |ts| ==> PortOk(ts[i]) }

  lemma {:induction false} FlatPortsOk(ts: seq<Target>)
    requires |FlatRules(ts)| < 0x1_0000_0000
    ensures AllTargetOk(FlatTargets(ts)) && AllRuleOk(FlatRules(ts)) <==> AllPortOk(ts)
    ensures DistinctBy(FlatTargets(ts), TargetUid) <==> DistinctBy(ts, PortUid)
  {
    FlatTargetsOk(ts);
    FlatRulesOk(ts);
    assert (forall i :: 0 <= i < |ts| ==> PortOk(ts[i])) <==>
      (forall i :: 0 <= i < |ts| ==> ts[i].uid != 0 && ts[i].mode <= DENY_ALL) &&
      (forall i :: 0 <= i < |ts| ==> ListRulesOk(ts[i].rules));
  }

  lemma BodyOkFrom(d: Body, p: Policy)
    requires d.kmod == p.kmod && d.lsposed == p.lsposed && d.masks == p.masks
    requires Contiguous(d.targets, |d.rules|)
    requires AllTargetOk(d.targets) && AllRuleOk(d.rules) <==> AllPortOk(p.ports)
    requires DistinctBy(d.targets, TargetUid) <==> DistinctBy(p.ports, PortUid)
    requires p.ifaces <= MAX_PREFIXES && p.mode <= EXCLUDE
    ensures BodyOk(d) <==> PolicyOk(p)
  {
  }

  lemma FlatBodyOk(p: Policy)
    requires Fits(p) && p.ifaces <= MAX_PREFIXES && p.mode <= EXCLUDE
    ensures BodyOk(Flat(p)) <==> PolicyOk(p)
  {
    FlatContiguous(p.ports);
    FlatPortsOk(p.ports);
    BodyOkFrom(Flat(p), p);
  }

  lemma PackedHeader(p: Policy)
    requires Fits(p) && |p.prefixes| == PREFIX_BYTES
    ensures |EncHeader4(HeaderOf(p))| == V4_HEADER
    ensures |Encoded(p)| == PackedSize(p) && DecHeader4(Encoded(p)) == HeaderOf(p)
  {
    Header4RoundTrip(HeaderOf(p), EncBody(Flat(p)));
    BodyLength(Flat(p));
  }

  lemma PackedFrame(p: Policy)
    requires Fits(p) && |p.prefixes| == PREFIX_BYTES
    ensures Framed4(Encoded(p)) <==> p.ifaces <= MAX_PREFIXES && p.mode <= EXCLUDE
  {
    PackedHeader(p);
    assert Tiles(HeaderOf(p).base.sections, V4_HEADER, PackedSize(p));
  }

  lemma PackedContents(p: Policy)
    requires Fits(p) && |p.prefixes| == PREFIX_BYTES && Framed4(Encoded(p))
    ensures Contents4(Encoded(p)) == Flat(p)
  {
    PackedHeader(p);
    BodyRoundTrip(EncHeader4(HeaderOf(p)), Flat(p));
  }

  /** A packed policy is accepted exactly when it is well formed, and decodes to itself. */
  lemma PackedIsAccepted(p: Policy)
    requires Fits(p) && |p.prefixes| == PREFIX_BYTES
    ensures |Encoded(p)| == PackedSize(p) && DecHeader4(Encoded(p)) == HeaderOf(p)
    ensures Acceptable4(Encoded(p)) <==> PolicyOk(p)
    ensures PolicyOk(p) ==> Contents4(Encoded(p)) == Flat(p)
  {
    PackedHeader(p);
    PackedFrame(p);
    if p.ifaces <= MAX_PREFIXES && p.mode <= EXCLUDE {
      PackedContents(p);
      FlatBodyOk(p);
    }
  }

  // ------------------------------------------------------------------ decisions

  /** What the snapshot blocks, read without searching or stopping early. */
  ghost predicate Blocks(s: Snapshot, uid: u32, port: u16, proto: byte)
  {
    || (exists t :: t in s.targets && t.uid == uid && TargetBlocks(s, t, port, proto))
    || ((forall t :: t in s.targets ==> t.uid != uid) && s.portMode == EXCLUDE && Eligible(uid))
  }

  ghost predicate TargetBlocks(s: Snapshot, t: WireTarget, port: u16, proto: byte)
  {
    InBounds(t, |s.rules|) && t.mode != UNRESTRICTED &&
    (t.mode == DENY_ALL || WireMatches(Segment(s.rules, t), port, proto))
  }

  /** The port part of direct_connect_should_block and socket_connect_entry. */
  method PortBlocked(s: Snapshot, uid: u32, port: u16, proto: byte) returns (block: bool)
    requires SnapshotOk(s)
    ensures block <==> Blocks(s, uid, port, proto)
  {
    var t := FindPortTarget(s, uid);
    if t.None? { return false; }
    if t.value == DENY_ALL_TARGET {
      return true;
    }
    var i :| 0 <= i < |s.targets| && s.targets[i] == t.value;
    block := ShouldBlockPort(s, t.value, port, proto);
    assert block <==> TargetBlocks(s, t.value, port, proto);
    forall x | x in s.targets && x.uid == uid ensures x == t.value {
      var k :| 0 <= k < |s.targets| && s.targets[k] == x;
      assert TargetUid(s.targets[k]) == TargetUid(s.targets[i]);
    }
  }

  lemma PermutedMatches(ys: seq<WireRule>, rules: seq<PortRule>, port: u16, proto: byte)
    requires Permutes(ys, WireRules(rules))
    ensures WireMatches(ys, port, proto) <==> Matches(rules, port, proto)
  {
    var xs := WireRules(rules);
    PermutesMembers(ys, xs);
    if WireMatches(ys, port, proto) {
      var i :| 0 <= i < |ys| && WireCovers(ys[i], port, proto);
      assert ys[i] in xs;
      var k :| 0 <= k < |xs| && xs[k] == ys[i];
      assert Covers(rules[k], port, proto);
    }
    if Matches(rules, port, proto) {
      var k :| 0 <= k < |rules| && Covers(rules[k], port, proto);
      assert xs[k] in ys;
      var i :| 0 <= i < |ys| && ys[i] == xs[k];
      assert WireCovers(ys[i], port, proto);
    }
  }

  /** A decoded target decides as the packed one did. */
  lemma TargetDecides(p: Policy, s: Snapshot, h: Header3, i: nat, port: u16, proto: byte)
    requires Fits(p) && Holds(s, h, Flat(p)) && i < |p.ports|
    ensures FlatTargets(p.ports)[i] in s.targets
    ensures TargetBlocks(s, FlatTargets(p.ports)[i], port, proto) <==>
      ModeBlocks(p.ports[i].mode, p.ports[i].rules, port, proto)
  {
    FlatAt(p.ports, i);
    var d, t := Flat(p), FlatTargets(p.ports)[i];
    PermutesMembers(s.targets, d.targets);
    assert d.targets[i] in d.targets;
    assert SegmentSorted(d.targets[i], d.rules, s.rules);
    PermutedMatches(Segment(s.rules, t), p.ports[i].rules, port, proto);
  }

  lemma FlatFrom(p: Policy, t: WireTarget) returns (i: nat)
    requires Fits(p) && t in FlatTargets(p.ports)
    ensures i < |p.ports| && FlatTargets(p.ports)[i] == t && p.ports[i].uid == t.uid
  {
    i :| 0 <= i < |p.ports| && FlatTargets(p.ports)[i] == t;
    FlatAt(p.ports, i);
  }

  // ------------------------------------------------------------------ the theorem

  predicate Request(port: int, proto: byte) { 0 <= port <= LAST_PORT && proto <= UDP }

  /** The snapshot implements the configuration for every UID, port and protocol. */
  ghost predicate Implements(s: Snapshot, cfg: Config)
  {
    && (forall uid: u32, port: u16, proto: byte :: Request(port, proto) ==>
          (Blocks(s, uid, port, proto) <==> SpecBlocks(cfg, uid, port, proto)))
    && (forall uid: u32 :: InMode(s.kmod, s.kmodMode, uid) <==> LayerTargets(cfg, true, uid))
    && (forall uid: u32 :: InMode(s.lsposed, s.lsposedMode, uid) <==> LayerTargets(cfg, false, uid))
    && (forall uid: u32, m :: EffectiveMask(s, uid, m) <==> m == SpecKernelMask(cfg, uid))
    && s.java == GlobalJava(cfg) as u32
    && (forall uid: u32, m :: ListsJava(s, uid, m) <==> JavaOverridden(cfg, uid) && m == SpecJavaMask(cfg, uid))
  }

  /** Which UIDs a hook layer targets, by the two list modes. */
  ghost predicate LayerTargets(cfg: Config, kernel: bool, uid: u32)
  {
    Eligible(uid) && (if cfg.allowlist then !Wanted(cfg.apps, kernel, uid) else Wanted(cfg.apps, kernel, uid))
  }

  /** The lists that the resolvers hand to the packer. */
  ghost predicate Resolved(cfg: Config, p: Policy)
  {
    && ListsWanted(cfg.apps, true, p.kmod) && ListsWanted(cfg.apps, false, p.lsposed)
    && ResolvesTo(cfg, cfg.apps, p.ports)
    && p.mode == (if cfg.allowlist then EXCLUDE else INCLUDE)
    && p.ifaces <= MAX_PREFIXES && |p.prefixes| == PREFIX_BYTES
    && AllMasks(p.masks, cfg) && p.active == GlobalKernel(cfg) as u32 && p.java == GlobalJava(cfg) as u32
  }

  lemma ResolvedIsOk(cfg: Config, p: Policy)
    requires Resolved(cfg, p)
    ensures PolicyOk(p)
  {
    assert !Wanted(cfg.apps, true, 0) && !Wanted(cfg.apps, false, 0);
    MasksAreOk(p.masks, cfg);
    forall i, j | 0 <= i < j < |p.ports| ensures PortUid(p.ports[i]) != PortUid(p.ports[j]) {}
    forall i | 0 <= i < |p.ports| ensures PortOk(p.ports[i]) {
      assert Means(cfg, FirstApp(cfg.apps, p.ports[i].uid).value, p.ports[i]);
    }
  }

  lemma ListedImplements(cfg: Config, p: Policy, s: Snapshot, h: Header3, i: nat, port: u16, proto: byte)
    requires Resolved(cfg, p) && Fits(p) && Holds(s, h, Flat(p)) && Request(port, proto) && i < |p.ports|
    ensures Blocks(s, p.ports[i].uid, port, proto) <==> SpecBlocks(cfg, p.ports[i].uid, port, proto)
  {
    ListedDecides(p, s, h, i, port, proto);
    assert Means(cfg, FirstApp(cfg.apps, p.ports[i].uid).value, p.ports[i]);
  }

  lemma ListedDecides(p: Policy, s: Snapshot, h: Header3, i: nat, port: u16, proto: byte)
    requires DistinctUids(p.ports) && Fits(p) && Holds(s, h, Flat(p)) && i < |p.ports|
    ensures Blocks(s, p.ports[i].uid, port, proto) <==> ModeBlocks(p.ports[i].mode, p.ports[i].rules, port, proto)
  {
    var uid, w := p.ports[i].uid, FlatTargets(p.ports);
    TargetDecides(p, s, h, i, port, proto);
    FlatAt(p.ports, i);
    PermutesMembers(s.targets, w);
    forall t | t in s.targets && t.uid == uid ensures t == w[i] {
      var k := FlatFrom(p, t);
    }
  }

  lemma {:induction false} UnlistedImplements(cfg: Config, p: Policy, s: Snapshot, h: Header3, uid: u32, port: u16,
                                              proto: byte)
    requires Resolved(cfg, p) && Fits(p) && Holds(s, h, Flat(p)) && s.portMode == p.mode
    requires FirstApp(cfg.apps, uid).None?
    ensures Blocks(s, uid, port, proto) <==> SpecBlocks(cfg, uid, port, proto)
  {
    PermutesMembers(s.targets, FlatTargets(p.ports));
    forall t | t in s.targets ensures t.uid != uid {
      var k := FlatFrom(p, t);
    }
  }

  lemma PortsImplement(cfg: Config, p: Policy, s: Snapshot, h: Header3, uid: u32, port: u16, proto: byte)
    requires Resolved(cfg, p) && Fits(p) && Holds(s, h, Flat(p)) && s.portMode == p.mode && Request(port, proto)
    ensures Blocks(s, uid, port, proto) <==> SpecBlocks(cfg, uid, port, proto)
  {
    if FirstApp(cfg.apps, uid).Some? {
      assert Lists(p.ports, uid);
      var i :| 0 <= i < |p.ports| && p.ports[i].uid == uid;
      ListedImplements(cfg, p, s, h, i, port, proto);
    } else {
      UnlistedImplements(cfg, p, s, h, uid, port, proto);
    }
  }

  lemma LayerImplements(cfg: Config, kernel: bool, uids: seq<u32>, sorted: seq<u32>, uid: u32)
    requires ListsWanted(cfg.apps, kernel, uids) && SortedForm(sorted, uids, Id)
    ensures InMode(sorted, if cfg.allowlist then EXCLUDE else INCLUDE, uid) <==> LayerTargets(cfg, kernel, uid)
  {
    PermutesMembers(sorted, uids);
    assert uid in uids <==> Wanted(cfg.apps, kernel, uid);
  }

  lemma HooksImplement(cfg: Config, p: Policy, s: Snapshot, h: Header3, uid: u32, m: bv32)
    requires Resolved(cfg, p) && Fits(p) && Holds(s, h, Flat(p)) && h.active == p.active
    ensures EffectiveMask(s, uid, m) <==> m == SpecKernelMask(cfg, uid)
    ensures ListsJava(s, uid, m) <==> JavaOverridden(cfg, uid) && m == SpecJavaMask(cfg, uid)
  {
    Bits32(GlobalKernel(cfg));
    MasksAreOk(p.masks, cfg);
    MasksImplement(cfg, p.masks, s, uid, m);
    JavaImplements(cfg, p.masks, s, uid, m);
  }

  lemma DecodedImplements(cfg: Config, p: Policy, s: Snapshot, h: Header3)
    requires Resolved(cfg, p) && Fits(p) && Holds(s, h, Flat(p))
    requires s.kmodMode == p.mode && s.lsposedMode == p.mode && s.portMode == p.mode
    requires h.active == p.active && h.java == p.java
    ensures Implements(s, cfg)
  {
    forall uid: u32, m: bv32
      ensures EffectiveMask(s, uid, m) <==> m == SpecKernelMask(cfg, uid)
      ensures ListsJava(s, uid, m) <==> JavaOverridden(cfg, uid) && m == SpecJavaMask(cfg, uid)
    {
      HooksImplement(cfg, p, s, h, uid, m);
    }
    forall uid: u32, port: u16, proto: byte | Request(port, proto)
      ensures Blocks(s, uid, port, proto) <==> SpecBlocks(cfg, uid, port, proto)
    {
      PortsImplement(cfg, p, s, h, uid, port, proto);
    }
    forall uid: u32
      ensures InMode(s.kmod, s.kmodMode, uid) <==> LayerTargets(cfg, true, uid)
      ensures InMode(s.lsposed, s.lsposedMode, uid) <==> LayerTargets(cfg, false, uid)
    {
      LayerImplements(cfg, true, p.kmod, s.kmod, uid);
      LayerImplements(cfg, false, p.lsposed, s.lsposed, uid);
    }
  }

  // ------------------------------------------------------------------ the size of the payload

  ghost function WantedUids(cfg: Config, kernel: bool): set<int>
  {
    set u: int | 0 <= u < 0x1_0000_0000 && Wanted(cfg.apps, kernel, u)
  }

  ghost function ListedUids(cfg: Config): set<int>
  {
    set u: int | 0 <= u < 0x1_0000_0000 && FirstApp(cfg.apps, u).Some?
  }

  ghost function OverridingUids(cfg: Config): set<int>
  {
    set u: int | 0 <= u < 0x1_0000_0000 && OverrideOf(cfg, u).Some?
  }

  /** The bytes that the policy of a configuration takes, from the configuration alone. */
  ghost function SpecSize(cfg: Config): nat
  {
    V4_HEADER + |WantedUids(cfg, true)| * UID_BYTES + |WantedUids(cfg, false)| * UID_BYTES +
    |ListedUids(cfg)| * TARGET_BYTES + RuleTotal(cfg, cfg.apps) * RULE_BYTES + |OverridingUids(cfg)| * MASK_BYTES
  }

  /** A list without repeats of exactly these keys is as long as there are keys. */
  lemma CountsKeys<T>(xs: seq<T>, key: T -> int, keys: set<int>)
    requires DistinctBy(xs, key)
    requires forall i :: 0 <= i < |xs| ==> key(xs[i]) in keys
    requires forall k :: k in keys ==> exists i :: 0 <= i < |xs| && key(xs[i]) == k
    ensures |xs| == |keys|
  {
    DistinctCounts(xs, key);
    forall k | k in keys ensures k in Keys(xs, key) {
      var i :| 0 <= i < |xs| && key(xs[i]) == k;
      assert xs[i] in xs;
    }
    assert Keys(xs, key) == keys;
  }

  lemma WantedCount(cfg: Config, kernel: bool, uids: seq<u32>)
    requires ListsWanted(cfg.apps, kernel, uids)
    ensures |uids| == |WantedUids(cfg, kernel)|
  {
    forall u | u in WantedUids(cfg, kernel) ensures exists i :: 0 <= i < |uids| && Id(uids[i]) == u {
      assert Wanted(cfg.apps, kernel, u) && u in uids;
      var i :| 0 <= i < |uids| && uids[i] == u;
      assert Id(uids[i]) == u;
    }
    assert forall i :: 0 <= i < |uids| ==> uids[i] in uids;
    CountsKeys(uids, Id, WantedUids(cfg, kernel));
  }

  lemma ListedCount(cfg: Config, ports: seq<Target>)
    requires ResolvesTo(cfg, cfg.apps, ports)
    ensures |ports| == |ListedUids(cfg)|
  {
    forall u | u in ListedUids(cfg) ensures exists i :: 0 <= i < |ports| && PortUid(ports[i]) == u {
      assert Lists(ports, u);
      var i :| 0 <= i < |ports| && ports[i].uid == u;
      assert PortUid(ports[i]) == u;
    }
    CountsKeys(ports, PortUid, ListedUids(cfg));
  }

  lemma MaskCount(cfg: Config, masks: seq<WireMask>)
    requires AllMasks(masks, cfg)
    ensures |masks| == |OverridingUids(cfg)|
  {
    forall u | u in OverridingUids(cfg) ensures exists i :: 0 <= i < |masks| && MaskUid(masks[i]) == u {
      assert HasMask(masks, u);
      var i :| 0 <= i < |masks| && masks[i].uid == u;
      assert MaskUid(masks[i]) == u;
    }
    assert forall i :: 0 <= i < |masks| ==> MaskFor(masks[i], cfg, |cfg.apps|);
    CountsKeys(masks, MaskUid, OverridingUids(cfg));
  }

  lemma {:induction false} FlatCount(ts: seq<Target>)
    ensures |FlatRules(ts)| == RulesIn(ts)
  {
    if ts != [] { FlatCount(ts[..|ts| - 1]); }
  }

  /** Whatever order and ranges the resolvers choose, the payload has the size that the
      configuration determines. */
  lemma SizeIsSpecified(cfg: Config, p: Policy)
    requires Resolved(cfg, p)
    ensures PackedSize(p) == SpecSize(cfg)
  {
    WantedCount(cfg, true, p.kmod);
    WantedCount(cfg, false, p.lsposed);
    ListedCount(cfg, p.ports);
    FlatCount(p.ports);
    MaskCount(cfg, p.masks);
  }

  method SortVector(uids: seq<u32>) returns (sorted: seq<u32>)
    ensures multiset(sorted) == multiset(uids)
  {
    var a := new u32[|uids|](i requires 0 <= i < |uids| => uids[i]);
    assert a[..] == uids;
    BubbleSort(a);
    sorted := a[..];
  }

  lemma SortedWanted(cfg: Config, kernel: bool, uids: seq<u32>, sorted: seq<u32>)
    requires ListsWanted(cfg.apps, kernel, uids) && Permutes(sorted, uids)
    ensures ListsWanted(cfg.apps, kernel, sorted)
  {
    PermutesMembers(sorted, uids);
    assert DistinctBy(uids, Id);
    DistinctPermutes(sorted, uids, Id);
    forall i, j | 0 <= i < j < |sorted| ensures sorted[i] != sorted[j] {
      assert Id(sorted[i]) != Id(sorted[j]);
    }
  }

  /** The resolving half of `vpnhide-ctl load`: it fails exactly when a rule of a listed
      application is malformed. */
  method BuildPolicy(cfg: Config, ifaces: u32, prefixes: seq<byte>) returns (policy: Option<Policy>)
    requires ifaces <= MAX_PREFIXES && |prefixes| == PREFIX_BYTES
    ensures policy.Some? <==> AllRulesOk(cfg, cfg.apps)
    ensures policy.Some? ==> Resolved(cfg, policy.value)
  {
    var masks := BuildMasks(cfg);
    var kmod, lsposed := ResolveTargets(cfg);
    var ports := ResolvePortRules(cfg);
    if ports.Err? { return None; }
    var sortedKmod := SortVector(kmod);
    var sortedLsposed := SortVector(lsposed);
    SortedWanted(cfg, true, kmod, sortedKmod);
    SortedWanted(cfg, false, lsposed, sortedLsposed);
    var debug := cfg.global.Some? && cfg.global.value.debug;
    return Some(Policy(sortedKmod, sortedLsposed, ports.value, masks, ifaces, prefixes, GlobalKernel(cfg) as u32,
                       GlobalJava(cfg) as u32, debug, if cfg.allowlist then EXCLUDE else INCLUDE));
  }

  /** Packing in the controller and decoding in the kernel: it fails exactly when the payload
      is too large. */
  method TransferPolicy(ghost cfg: Config, p: Policy) returns (r: Result<Snapshot>)
    requires Resolved(cfg, p)
    ensures r.Ok? <==> Fits(p)
    ensures r.Ok? ==> SnapshotOk(r.value) && Implements(r.value, cfg)
  {
    var bytes := PackPolicyV4(p);
    if bytes.Err? { return Err; }
    ResolvedIsOk(cfg, p);
    PackedIsAccepted(p);
    r := DecodeV4(bytes.value);
    AcceptedIsOk(r.value, HeaderOf(p).base, Flat(p));
    DecodedImplements(cfg, p, r.value, HeaderOf(p).base);
  }

  /** `vpnhide-ctl load` followed by the kernel's VH_SET_POLICY decoding: it succeeds exactly
      when every rule of a listed application is well formed and the payload, as the
      configuration determines it, is within the limit; the published snapshot is well formed
      and implements the configuration. */
  method LoadPolicy(cfg: Config, ifaces: u32, prefixes: seq<byte>) returns (r: Result<Snapshot>)
    requires ifaces <= MAX_PREFIXES && |prefixes| == PREFIX_BYTES
    ensures r.Ok? <==> AllRulesOk(cfg, cfg.apps) && SpecSize(cfg) <= MAX_BYTES
    ensures r.Ok? ==> SnapshotOk(r.value) && Implements(r.value, cfg)
  {
    var policy := BuildPolicy(cfg, ifaces, prefixes);
    if policy.None? { return Err; }
    SizeIsSpecified(cfg, policy.value);
    r := TransferPolicy(cfg, policy.value);
  }
}
