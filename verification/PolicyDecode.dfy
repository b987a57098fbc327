/** The kernel side of a policy transaction (kmod/main.c): checking a payload, turning
    it into an immutable snapshot, and the lookups that read the snapshot. */
module PolicyDecode {
  import opened Types
  import opened PortRules
  import opened PolicyWire
  import opened Sorting

  /** HOOK_CONNECT (13) and HOOK_BIND (16). */
  const MANDATORY: bv32 := 0x12000
  const INCLUDE: u32 := 0
  const EXCLUDE: u32 := 1

  datatype Snapshot = Snapshot(
    active: bv32, java: u32, debug: bool, flags: u32, ifaces: u32, prefixes: seq<byte>,
    kmod: seq<u32>, lsposed: seq<u32>, targets: seq<WireTarget>, rules: seq<WireRule>, masks: seq<WireMask>,
    kmodMode: u32, lsposedMode: u32, portMode: u32)

  function Id(v: u32): int { v }
  function TargetUid(t: WireTarget): int { t.uid }
  function MaskUid(m: WireMask): int { m.uid }
  /** policy_port_rule_cmp orders by start, then end, then protocol. */
  function RuleKey(r: WireRule): int { (r.first * 0x1_0000 + r.last) * 0x100 + r.proto }

  function WithMandatory(m: WireMask): WireMask
  {
    if m.hasKernel != 0 then m.(kernel := m.kernel | MANDATORY) else m
  }

  function AllMandatory(ms: seq<WireMask>): (r: seq<WireMask>)
    ensures |r| == |ms| && forall i :: 0 <= i < |ms| ==> r[i] == WithMandatory(ms[i])
  {
    seq(|ms|, i requires 0 <= i < |ms| => WithMandatory(ms[i]))
  }

  // ------------------------------------------------------------------ acceptance

  predicate RuleOk(r: WireRule) { r.first <= r.last && r.proto <= BOTH && r.r0 == 0 && r.r1 == 0 && r.r2 == 0 }

  predicate TargetOk(t: WireTarget) { t.uid != 0 && t.mode <= DENY_ALL && t.r0 == 0 && t.r1 == 0 && t.r2 == 0 }

  predicate MaskOk(m: WireMask) { m.uid != 0 && m.hasKernel <= 1 && m.hasJava <= 1 && m.r0 == 0 && m.r1 == 0 }

  function RuleSum(ts: seq<WireTarget>): nat
  {
    if ts == [] then 0 else RuleSum(ts[..|ts| - 1]) + ts[|ts| - 1].ruleCount
  }

  /** The rule segments of the targets follow each other and cover the rule array. */
  ghost predicate Contiguous(ts: seq<WireTarget>, n: nat)
  {
    RuleSum(ts) == n && forall i :: 0 <= i < |ts| ==> ts[i].firstRule == RuleSum(ts[..i])
  }

  ghost predicate BodyOk(d: Body)
  {
    && (forall i :: 0 <= i < |d.targets| ==> TargetOk(d.targets[i]))
    && Contiguous(d.targets, |d.rules|)
    && (forall i :: 0 <= i < |d.rules| ==> RuleOk(d.rules[i]))
    && (forall i :: 0 <= i < |d.masks| ==> MaskOk(d.masks[i]))
    && 0 !in d.kmod && 0 !in d.lsposed
    && DistinctBy(d.kmod, Id) && DistinctBy(d.lsposed, Id)
    && DistinctBy(d.targets, TargetUid) && DistinctBy(d.masks, MaskUid)
  }

  predicate Framed3(b: seq<byte>)
  {
    && V3_HEADER <= |b| <= MAX_BYTES
    && DecHeader3(b).total == |b| && DecHeader3(b).ifaces <= MAX_PREFIXES
    && Tiles(DecHeader3(b).sections, V3_HEADER, |b|)
  }

  function Contents3(b: seq<byte>): Body
    requires Framed3(b)
  {
    DecBody(b, DecHeader3(b).sections, V3_HEADER)
  }

  ghost predicate Acceptable3(b: seq<byte>) { Framed3(b) && BodyOk(Contents3(b)) }

  // ------------------------------------------------------------------ snapshots

  ghost predicate InBounds(t: WireTarget, n: nat) { t.firstRule + t.ruleCount <= n }

  function Segment(rules: seq<WireRule>, t: WireTarget): seq<WireRule>
    requires t.firstRule + t.ruleCount <= |rules|
  {
    rules[t.firstRule..t.firstRule + t.ruleCount]
  }

  ghost predicate SegmentSorted(t: WireTarget, was: seq<WireRule>, rules: seq<WireRule>)
  {
    && InBounds(t, |was|) && |rules| == |was|
    && SortedForm(Segment(rules, t), Segment(was, t), RuleKey)
  }

  /** The snapshot holds what the payload says, sorted for lookup, with the mandatory
      hook bits added. */
  ghost predicate Holds(s: Snapshot, h: Header3, d: Body)
  {
    && s.active == (h.active as bv32) | MANDATORY
    && s.java == h.java && s.debug == (h.debug != 0) && s.flags == h.flags
    && s.ifaces == h.ifaces && s.prefixes == h.prefixes
    && Prepared(Body(s.kmod, s.lsposed, s.targets, s.rules, s.masks), d)
  }

  lemma {:induction false} SegmentEnds(ts: seq<WireTarget>, i: nat, j: nat)
    requires i <= j <= |ts|
    ensures RuleSum(ts[..i]) <= RuleSum(ts[..j])
    ensures i < j ==> RuleSum(ts[..i]) + ts[i].ruleCount <= RuleSum(ts[..j])
    decreases j - i
  {
    if i < j {
      assert ts[..j][..j - 1] == ts[..j - 1];
      SegmentEnds(ts, i, j - 1);
    }
  }

  lemma SegmentsInBounds(ts: seq<WireTarget>, n: nat)
    requires Contiguous(ts, n)
    ensures forall i :: 0 <= i < |ts| ==> InBounds(ts[i], n)
  {
    assert ts[..|ts|] == ts;
    forall i | 0 <= i < |ts| ensures InBounds(ts[i], n) { SegmentEnds(ts, i, |ts|); }
  }

  // ------------------------------------------------------------------ decoding

  /** The product and the sum are checked for overflow of 64 bits, which loses nothing. */
  method ValidateSection(s: Section, size: u64, cursor: u64, total: u64) returns (next: Option<u64>)
    ensures next.Some? <==> s.offset == cursor && cursor + s.count * size <= total
    ensures next.Some? ==> next.value == cursor + s.count * size
  {
    if s.offset != cursor { return None; }
    var bytes := s.count * size;
    if bytes > SIZE_MAX { return None; }
    if cursor + bytes > SIZE_MAX || cursor + bytes > total { return None; }
    return Some(cursor + bytes);
  }

  method ValidateSections(s: Sections, total: u64) returns (ok: bool)
    ensures ok <==> Tiles(s, V3_HEADER, total)
  {
    var c := ValidateSection(s.kmod, UID_BYTES, V3_HEADER, total);
    if c.None? { return false; }
    c := ValidateSection(s.lsposed, UID_BYTES, c.value, total);
    if c.None? { return false; }
    c := ValidateSection(s.targets, TARGET_BYTES, c.value, total);
    if c.None? { return false; }
    c := ValidateSection(s.rules, RULE_BYTES, c.value, total);
    if c.None? { return false; }
    c := ValidateSection(s.masks, MASK_BYTES, c.value, total);
    return c.Some? && c.value == total;
  }

  /** The first `i` targets are checked and their rules sorted; the rest is untouched. */
  ghost predicate Checked(ts: seq<WireTarget>, i: nat, was: seq<WireRule>, rules: seq<WireRule>, nextRule: nat)
  {
    && i <= |ts| && nextRule == RuleSum(ts[..i]) <= |was| == |rules|
    && (forall k :: 0 <= k < i ==> TargetOk(ts[k]) && ts[k].firstRule == RuleSum(ts[..k]))
    && (forall k :: 0 <= k < i ==> ts[k].firstRule + ts[k].ruleCount <= nextRule)
    && (forall k :: 0 <= k < i ==> SegmentSorted(ts[k], was, rules))
    && rules[nextRule..] == was[nextRule..] && Permutes(rules, was)
  }

  method CheckOne(ts: seq<WireTarget>, i: nat, ghost was: seq<WireRule>, rules: seq<WireRule>, nextRule: nat)
    returns (next: seq<WireRule>)
    requires i < |ts| && Checked(ts, i, was, rules, nextRule)
    requires TargetOk(ts[i]) && ts[i].firstRule == nextRule && ts[i].ruleCount <= |rules| - nextRule
    ensures Checked(ts, i + 1, was, next, nextRule + ts[i].ruleCount)
  {
    assert ts[..i + 1][..i] == ts[..i];
    var sorted := SortBy(Segment(rules, ts[i]), RuleKey);
    next := ReplaceSegment(rules, was, ts, i, sorted);
  }

  lemma RefusedTarget(ts: seq<WireTarget>, i: nat, n: nat)
    requires i < |ts|
    requires !TargetOk(ts[i]) || ts[i].firstRule != RuleSum(ts[..i]) || RuleSum(ts[..i]) + ts[i].ruleCount > n
    ensures !((forall k :: 0 <= k < |ts| ==> TargetOk(ts[k])) && Contiguous(ts, n))
  {
    assert ts[..|ts|] == ts;
    SegmentEnds(ts, i, |ts|);
  }

  /** The loop over the targets: check each one and sort its rules. */
  method CheckTargets(ts: seq<WireTarget>, was: seq<WireRule>) returns (r: Result<seq<WireRule>>)
    ensures r.Ok? <==> (forall i :: 0 <= i < |ts| ==> TargetOk(ts[i])) && Contiguous(ts, |was|)
    ensures r.Ok? ==> |r.value| == |was| && forall i :: 0 <= i < |ts| ==> SegmentSorted(ts[i], was, r.value)
    ensures r.Ok? ==> Permutes(r.value, was)
  {
    var rules, nextRule := was, 0;
    for i := 0 to |ts|
      invariant 0 <= nextRule && Checked(ts, i, was, rules, nextRule)
    {
      if !TargetOk(ts[i]) || ts[i].firstRule != nextRule || ts[i].ruleCount > |rules| - nextRule {
        RefusedTarget(ts, i, |was|);
        return Err;
      }
      rules := CheckOne(ts, i, was, rules, nextRule);
      nextRule := nextRule + ts[i].ruleCount;
    }
    assert ts[..|ts|] == ts;
    if nextRule != |was| { return Err; }
    r := Ok(rules);
  }

  method ReplaceSegment(rules: seq<WireRule>, ghost was: seq<WireRule>, ts: seq<WireTarget>, i: nat,
                        sorted: seq<WireRule>)
    returns (next: seq<WireRule>)
    requires i < |ts| && |rules| == |was| && InBounds(ts[i], |was|)
    requires rules[ts[i].firstRule..] == was[ts[i].firstRule..] && Permutes(rules, was)
    requires SortedForm(sorted, Segment(rules, ts[i]), RuleKey)
    requires forall k :: 0 <= k < i ==> ts[k].firstRule + ts[k].ruleCount <= ts[i].firstRule
    requires forall k :: 0 <= k < i ==> SegmentSorted(ts[k], was, rules)
    ensures |next| == |was| && Permutes(next, was)
    ensures next[ts[i].firstRule + ts[i].ruleCount..] == was[ts[i].firstRule + ts[i].ruleCount..]
    ensures forall k :: 0 <= k <= i ==> SegmentSorted(ts[k], was, next)
  {
    var f, e := ts[i].firstRule, ts[i].firstRule + ts[i].ruleCount;
    PermutesMembers(sorted, Segment(rules, ts[i]));
    next := rules[..f] + sorted + rules[e..];
    assert rules == rules[..f] + rules[f..e] + rules[e..];
    assert rules[e..] == rules[f..][ts[i].ruleCount..] && was[e..] == was[f..][ts[i].ruleCount..];
    assert next[e..] == rules[e..];
    assert Segment(next, ts[i]) == sorted;
    assert Segment(rules, ts[i]) == rules[f..][..ts[i].ruleCount] == was[f..][..ts[i].ruleCount] == Segment(was, ts[i]);
    forall k | 0 <= k < i ensures SegmentSorted(ts[k], was, next) {
      assert Segment(next, ts[k]) == Segment(rules, ts[k]);
    }
  }

  method CheckRules(rules: seq<WireRule>) returns (ok: bool)
    ensures ok <==> forall i :: 0 <= i < |rules| ==> RuleOk(rules[i])
  {
    for i := 0 to |rules|
      invariant forall k :: 0 <= k < i ==> RuleOk(rules[k])
    {
      if !RuleOk(rules[i]) { return false; }
    }
    return true;
  }

  /** The loop over the hook masks: check each one and add the mandatory bits. */
  method CheckMasks(masks: seq<WireMask>) returns (r: Result<seq<WireMask>>)
    ensures r.Ok? <==> forall i :: 0 <= i < |masks| ==> MaskOk(masks[i])
    ensures r.Ok? ==> r.value == AllMandatory(masks)
  {
    var out := [];
    for i := 0 to |masks|
      invariant forall k :: 0 <= k < i ==> MaskOk(masks[k])
      invariant out == AllMandatory(masks[..i])
    {
      if !MaskOk(masks[i]) { return Err; }
      out := out + [WithMandatory(masks[i])];
      assert out == AllMandatory(masks[..i + 1]);
    }
    assert masks[..|masks|] == masks;
    r := Ok(out);
  }

  /** Sort a UID list and refuse zero and duplicates. */
  method SortUids(uids: seq<u32>) returns (r: Result<seq<u32>>)
    ensures r.Ok? <==> 0 !in uids && DistinctBy(uids, Id)
    ensures r.Ok? ==> SortedForm(r.value, uids, Id)
  {
    var ys := SortBy(uids, Id);
    PermutesMembers(ys, uids);
    DistinctPermutes(ys, uids, Id);
    if |ys| > 0 && ys[0] == 0 {
      assert ys[0] in ys;
      return Err;
    }
    assert forall i :: 0 <= i < |ys| ==> Id(ys[0]) <= Id(ys[i]);
    var ok := NoAdjacentDuplicate(ys, Id);
    if !ok { return Err; }
    r := Ok(ys);
  }

  lemma MandatoryKeepsUids(ms: seq<WireMask>)
    ensures DistinctBy(AllMandatory(ms), MaskUid) <==> DistinctBy(ms, MaskUid)
  {
    var r := AllMandatory(ms);
    assert forall i :: 0 <= i < |ms| ==> MaskUid(r[i]) == MaskUid(ms[i]);
  }

  /** `p` is the body `d` after checking: rules sorted within their segments, masks
      completed, keyed arrays sorted. */
  ghost predicate Prepared(p: Body, d: Body)
  {
    && SortedForm(p.kmod, d.kmod, Id) && SortedForm(p.lsposed, d.lsposed, Id)
    && SortedForm(p.targets, d.targets, TargetUid)
    && SortedForm(p.masks, AllMandatory(d.masks), MaskUid)
    && |p.rules| == |d.rules|
    && (forall i :: 0 <= i < |d.targets| ==> SegmentSorted(d.targets[i], d.rules, p.rules))
  }

  method SortTargets(ts: seq<WireTarget>) returns (r: Result<seq<WireTarget>>)
    ensures r.Ok? <==> DistinctBy(ts, TargetUid)
    ensures r.Ok? ==> SortedForm(r.value, ts, TargetUid)
  {
    var ys := SortBy(ts, TargetUid);
    DistinctPermutes(ys, ts, TargetUid);
    var ok := NoAdjacentDuplicate(ys, TargetUid);
    r := if ok then Ok(ys) else Err;
  }

  method SortMasks(ms: seq<WireMask>) returns (r: Result<seq<WireMask>>)
    ensures r.Ok? <==> DistinctBy(ms, MaskUid)
    ensures r.Ok? ==> SortedForm(r.value, ms, MaskUid)
  {
    var ys := SortBy(ms, MaskUid);
    DistinctPermutes(ys, ms, MaskUid);
    var ok := NoAdjacentDuplicate(ys, MaskUid);
    r := if ok then Ok(ys) else Err;
  }

  method PrepareBody(d: Body) returns (r: Result<Body>)
    ensures r.Ok? <==> BodyOk(d)
    ensures r.Ok? ==> Prepared(r.value, d)
  {
    var rules := CheckTargets(d.targets, d.rules);
    if rules.Err? { return Err; }
    var rulesOk := CheckRules(rules.value);
    MembersOk(rules.value, d.rules);
    if !rulesOk { return Err; }
    var masks := CheckMasks(d.masks);
    if masks.Err? { return Err; }
    MandatoryKeepsUids(d.masks);
    var kmod := SortUids(d.kmod);
    if kmod.Err? { return Err; }
    var lsposed := SortUids(d.lsposed);
    if lsposed.Err? { return Err; }
    var targets := SortTargets(d.targets);
    if targets.Err? { return Err; }
    var sortedMasks := SortMasks(masks.value);
    if sortedMasks.Err? { return Err; }
    r := Ok(Body(kmod.value, lsposed.value, targets.value, rules.value, sortedMasks.value));
  }

  /** policy_snapshot_from_v3: accepts exactly the acceptable payloads. */
  method DecodeV3(b: seq<byte>) returns (r: Result<Snapshot>)
    ensures r.Ok? <==> Acceptable3(b)
    ensures r.Ok? ==> Holds(r.value, DecHeader3(b), Contents3(b))
    ensures r.Ok? ==> r.value.kmodMode == INCLUDE && r.value.lsposedMode == INCLUDE && r.value.portMode == INCLUDE
  {
    if |b| < V3_HEADER || |b| > MAX_BYTES { return Err; }
    var h := DecHeader3(b);
    if h.total != |b| || h.ifaces > MAX_PREFIXES { return Err; }
    var tiled := ValidateSections(h.sections, |b|);
    if !tiled { return Err; }
    var p := PrepareBody(Contents3(b));
    if p.Err? { return Err; }
    r := Ok(Snapshot((h.active as bv32) | MANDATORY, h.java, h.debug != 0, h.flags, h.ifaces, h.prefixes,
                     p.value.kmod, p.value.lsposed, p.value.targets, p.value.rules, p.value.masks,
                     INCLUDE, INCLUDE, INCLUDE));
  }

  lemma MembersOk(ys: seq<WireRule>, xs: seq<WireRule>)
    requires Permutes(ys, xs)
    ensures (forall i :: 0 <= i < |ys| ==> RuleOk(ys[i])) <==> (forall i :: 0 <= i < |xs| ==> RuleOk(xs[i]))
  {
    PermutesMembers(ys, xs);
    assert forall i :: 0 <= i < |ys| ==> ys[i] in xs;
    assert forall i :: 0 <= i < |xs| ==> xs[i] in ys;
  }

  // ------------------------------------------------------------------ version 4

  function Rebased(s: Sections): Sections
    requires s.kmod.offset >= DELTA && s.lsposed.offset >= DELTA && s.targets.offset >= DELTA
    requires s.rules.offset >= DELTA && s.masks.offset >= DELTA
  {
    Sections(Section(s.kmod.offset - DELTA, s.kmod.count), Section(s.lsposed.offset - DELTA, s.lsposed.count),
             Section(s.targets.offset - DELTA, s.targets.count), Section(s.rules.offset - DELTA, s.rules.count),
             Section(s.masks.offset - DELTA, s.masks.count))
  }

  predicate Head4Ok(b: seq<byte>)
  {
    && |b| >= V4_HEADER
    && var h := DecHeader4(b);
    && h.base.total == |b| && h.reserved == 0
    && h.kmodMode <= EXCLUDE && h.lsposedMode <= EXCLUDE && h.portMode <= EXCLUDE
    && h.base.sections.kmod.offset >= V4_HEADER && h.base.sections.lsposed.offset >= V4_HEADER
    && h.base.sections.targets.offset >= V4_HEADER && h.base.sections.rules.offset >= V4_HEADER
    && h.base.sections.masks.offset >= V4_HEADER
  }

  /** The version 3 header built from a version 4 one: smaller by 16 bytes, and every
      section moved down by the same amount. */
  function Header3Of(b: seq<byte>): Header3
    requires Head4Ok(b)
  {
    var h := DecHeader4(b).base;
    h.(total := |b| - DELTA, sections := Rebased(h.sections))
  }

  /** Acceptance of a version 4 payload, stated on its own bytes. */
  predicate Framed4(b: seq<byte>)
  {
    && |b| <= MAX_BYTES + DELTA
    && Head4Ok(b)
    && DecHeader4(b).base.ifaces <= MAX_PREFIXES
    && Tiles(DecHeader4(b).base.sections, V4_HEADER, |b|)
  }

  function Contents4(b: seq<byte>): Body
    requires Framed4(b)
  {
    DecBody(b, DecHeader4(b).base.sections, V4_HEADER)
  }

  ghost predicate Acceptable4(b: seq<byte>) { Framed4(b) && BodyOk(Contents4(b)) }

  /** policy_snapshot_from_v4: rebase onto version 3, decode, then add the match modes. */
  method DecodeV4(b: seq<byte>) returns (r: Result<Snapshot>)
    ensures r.Ok? <==> Acceptable4(b)
    ensures r.Ok? ==> Holds(r.value, DecHeader4(b).base, Contents4(b))
    ensures r.Ok? ==> r.value.kmodMode == DecHeader4(b).kmodMode && r.value.lsposedMode == DecHeader4(b).lsposedMode
    ensures r.Ok? ==> r.value.portMode == DecHeader4(b).portMode
  {
    if !Head4Ok(b) { return Err; }
    var h := DecHeader4(b);
    var v3 := EncHeader3(Header3Of(b)) + b[V4_HEADER..];
    RebaseFrames(b, v3);
    var s := DecodeV3(v3);
    if s.Err? { return Err; }
    r := Ok(s.value.(kmodMode := h.kmodMode, lsposedMode := h.lsposedMode, portMode := h.portMode));
  }

  lemma RebaseFrames(b: seq<byte>, v3: seq<byte>)
    requires Head4Ok(b) && v3 == EncHeader3(Header3Of(b)) + b[V4_HEADER..]
    ensures |v3| == |b| - DELTA && DecHeader3(v3) == Header3Of(b)
    ensures Framed3(v3) <==> Framed4(b)
    ensures Framed3(v3) ==> Contents3(v3) == Contents4(b)
  {
    Header3RoundTrip(Header3Of(b), b[V4_HEADER..]);
    if Framed3(v3) {
      RebaseBody(b, v3, DecHeader4(b).base.sections);
    }
  }

  /** Moving every section by the header difference reads the same records. */
  lemma RebaseBody(b: seq<byte>, v3: seq<byte>, s: Sections)
    requires |v3| + DELTA == |b| && |v3| >= V3_HEADER && v3[V3_HEADER..] == b[V4_HEADER..]
    requires Tiles(s, V4_HEADER, |b|)
    ensures DecBody(v3, Rebased(s), V3_HEADER) == DecBody(b, s, V4_HEADER)
  {
    RebaseSlices(b, v3, s);
  }

  lemma RebaseSlices(b: seq<byte>, v3: seq<byte>, s: Sections)
    requires |v3| + DELTA == |b| && |v3| >= V3_HEADER && v3[V3_HEADER..] == b[V4_HEADER..]
    requires Tiles(s, V4_HEADER, |b|)
    ensures Tiles(Rebased(s), V3_HEADER, |v3|)
    ensures b[s.kmod.offset..s.lsposed.offset] == v3[s.kmod.offset - DELTA..s.lsposed.offset - DELTA]
    ensures b[s.lsposed.offset..s.targets.offset] == v3[s.lsposed.offset - DELTA..s.targets.offset - DELTA]
    ensures b[s.targets.offset..s.rules.offset] == v3[s.targets.offset - DELTA..s.rules.offset - DELTA]
    ensures b[s.rules.offset..s.masks.offset] == v3[s.rules.offset - DELTA..s.masks.offset - DELTA]
    ensures b[s.masks.offset..|b|] == v3[s.masks.offset - DELTA..|v3|]
  {
    Shifted(b, v3, s.kmod.offset, s.lsposed.offset);
    Shifted(b, v3, s.lsposed.offset, s.targets.offset);
    Shifted(b, v3, s.targets.offset, s.rules.offset);
    Shifted(b, v3, s.rules.offset, s.masks.offset);
    Shifted(b, v3, s.masks.offset, |b|);
  }

  lemma SliceOfDrop(b: seq<byte>, k: nat, from: nat, to: nat)
    requires k <= from <= to <= |b|
    ensures b[from..to] == b[k..][from - k..to - k]
  {
  }

  lemma Shifted(b: seq<byte>, v3: seq<byte>, from: nat, to: nat)
    requires |v3| + DELTA == |b| && |v3| >= V3_HEADER && v3[V3_HEADER..] == b[V4_HEADER..]
    requires V4_HEADER <= from <= to <= |b|
    ensures b[from..to] == v3[from - DELTA..to - DELTA]
  {
    SliceOfDrop(b, V4_HEADER, from, to);
    SliceOfDrop(v3, V3_HEADER, from - DELTA, to - DELTA);
  }
}
