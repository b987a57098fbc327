/** What every published snapshot guarantees to its readers, and the readers
    themselves (is_hook_active, vpnhide_uid_matches_mode, vpnhide_find_port_target,
    should_block_port). */
module PolicySnapshot {
  import opened Types
  import opened PortRules
  import opened PolicyWire
  import opened PolicyDecode
  import opened PolicyResolve
  import opened Sorting

  const HOOK_CONNECT: bv5 := 13
  const HOOK_BIND: bv5 := 16

  predicate Owns(t: WireTarget, k: int) { t.firstRule <= k < t.firstRule + t.ruleCount }

  ghost predicate Covered(ts: seq<WireTarget>, k: int) { exists i :: 0 <= i < |ts| && Owns(ts[i], k) }

  /** Every rule belongs to exactly one target. */
  ghost predicate Partitions(ts: seq<WireTarget>, n: nat)
  {
    && (forall i :: 0 <= i < |ts| ==> InBounds(ts[i], n))
    && (forall k :: 0 <= k < n ==> Covered(ts, k))
    && (forall i, j, k :: 0 <= i < j < |ts| && Owns(ts[i], k) ==> !Owns(ts[j], k))
  }

  ghost predicate SnapshotOk(s: Snapshot)
  {
    && StrictBy(s.kmod, Id) && 0 !in s.kmod
    && StrictBy(s.lsposed, Id) && 0 !in s.lsposed
    && StrictBy(s.targets, TargetUid) && StrictBy(s.masks, MaskUid)
    && (forall i :: 0 <= i < |s.targets| ==> TargetOk(s.targets[i]))
    && (forall i :: 0 <= i < |s.rules| ==> RuleOk(s.rules[i]))
    && Partitions(s.targets, |s.rules|)
    && (forall i :: 0 <= i < |s.targets| ==> SortedBy(Segment(s.rules, s.targets[i]), RuleKey))
    && s.active & MANDATORY == MANDATORY
    && (forall i :: 0 <= i < |s.masks| && s.masks[i].hasKernel != 0 ==> s.masks[i].kernel & MANDATORY == MANDATORY)
  }

  // ------------------------------------------------------------------ decoding gives SnapshotOk

  lemma {:induction false} SegmentsCover(ts: seq<WireTarget>, k: nat)
    requires k < RuleSum(ts)
    requires forall i :: 0 <= i < |ts| ==> ts[i].firstRule == RuleSum(ts[..i])
    ensures Covered(ts, k)
  {
    var n := |ts| - 1;
    if k < RuleSum(ts[..n]) {
      assert forall i :: 0 <= i < n ==> ts[..n][..i] == ts[..i];
      SegmentsCover(ts[..n], k);
      var i :| 0 <= i < n && Owns(ts[..n][i], k);
      assert Owns(ts[i], k);
    } else {
      assert Owns(ts[n], k);
    }
  }

  lemma ContiguousPartitions(ts: seq<WireTarget>, n: nat)
    requires Contiguous(ts, n)
    ensures Partitions(ts, n)
  {
    SegmentsInBounds(ts, n);
    forall k | 0 <= k < n ensures Covered(ts, k) { SegmentsCover(ts, k); }
    forall i, j, k | 0 <= i < j < |ts| && Owns(ts[i], k) ensures !Owns(ts[j], k) { SegmentEnds(ts, i, j); }
  }

  /** Re-sorting the targets keeps the partition. */
  lemma PermutedPartitions(ys: seq<WireTarget>, ts: seq<WireTarget>, n: nat)
    requires Partitions(ts, n) && Permutes(ys, ts) && DistinctBy(ys, TargetUid)
    ensures Partitions(ys, n)
  {
    PermutesMembers(ys, ts);
    forall i | 0 <= i < |ys| ensures InBounds(ys[i], n) {
      assert ys[i] in ts;
    }
    forall k | 0 <= k < n ensures Covered(ys, k) {
      assert Covered(ts, k);
      var i :| 0 <= i < |ts| && Owns(ts[i], k);
      assert ts[i] in ys;
    }
    forall i, j, k | 0 <= i < j < |ys| && Owns(ys[i], k) ensures !Owns(ys[j], k) {
      assert ys[i] in ts && ys[j] in ts;
      var a :| 0 <= a < |ts| && ts[a] == ys[i];
      var b :| 0 <= b < |ts| && ts[b] == ys[j];
      assert TargetUid(ys[i]) != TargetUid(ys[j]);
    }
  }

  lemma StrictForm<T>(ys: seq<T>, xs: seq<T>, key: T -> int)
    requires SortedForm(ys, xs, key) && DistinctBy(xs, key)
    ensures StrictBy(ys, key) && DistinctBy(ys, key)
    ensures |ys| == |xs| && forall x :: x in ys <==> x in xs
  {
    PermutesMembers(ys, xs);
    DistinctPermutes(ys, xs, key);
  }

  lemma MandatoryBits(m: bv32)
    ensures (m | MANDATORY) & MANDATORY == MANDATORY
  {
  }

  lemma PreparedTargets(p: Body, d: Body)
    requires BodyOk(d) && Prepared(p, d)
    ensures Partitions(p.targets, |p.rules|) && StrictBy(p.targets, TargetUid)
    ensures forall i :: 0 <= i < |p.targets| ==> TargetOk(p.targets[i]) && SegmentSorted(p.targets[i], d.rules, p.rules)
  {
    StrictForm(p.targets, d.targets, TargetUid);
    ContiguousPartitions(d.targets, |d.rules|);
    PermutedPartitions(p.targets, d.targets, |d.rules|);
    forall i | 0 <= i < |p.targets|
      ensures TargetOk(p.targets[i]) && SegmentSorted(p.targets[i], d.rules, p.rules)
    {
      assert p.targets[i] in d.targets;
    }
  }

  lemma SortedRuleOk(t: WireTarget, was: seq<WireRule>, rules: seq<WireRule>, k: nat)
    requires SegmentSorted(t, was, rules) && Owns(t, k)
    requires forall i :: 0 <= i < |was| ==> RuleOk(was[i])
    ensures RuleOk(rules[k])
  {
    PermutesMembers(Segment(rules, t), Segment(was, t));
    assert rules[k] == Segment(rules, t)[k - t.firstRule];
    assert rules[k] in Segment(was, t);
  }

  lemma PreparedRules(p: Body, d: Body)
    requires BodyOk(d) && Prepared(p, d)
    ensures forall i :: 0 <= i < |p.rules| ==> RuleOk(p.rules[i])
  {
    PreparedTargets(p, d);
    forall k | 0 <= k < |p.rules| ensures RuleOk(p.rules[k]) {
      assert Covered(p.targets, k);
      var i :| 0 <= i < |p.targets| && Owns(p.targets[i], k);
      SortedRuleOk(p.targets[i], d.rules, p.rules, k);
    }
  }

  lemma PreparedMasks(p: Body, d: Body)
    requires BodyOk(d) && Prepared(p, d)
    ensures StrictBy(p.masks, MaskUid)
    ensures forall i :: 0 <= i < |p.masks| && p.masks[i].hasKernel != 0 ==> p.masks[i].kernel & MANDATORY == MANDATORY
  {
    var all := AllMandatory(d.masks);
    MandatoryKeepsUids(d.masks);
    StrictForm(p.masks, all, MaskUid);
    forall i | 0 <= i < |p.masks| && p.masks[i].hasKernel != 0
      ensures p.masks[i].kernel & MANDATORY == MANDATORY
    {
      assert p.masks[i] in all;
      var k :| 0 <= k < |all| && all[k] == p.masks[i];
      MandatoryBits(d.masks[k].kernel);
    }
  }

  /** Every snapshot that decoding accepts is well formed. */
  lemma AcceptedIsOk(s: Snapshot, h: Header3, d: Body)
    requires BodyOk(d) && Holds(s, h, d)
    ensures SnapshotOk(s)
  {
    var p := Body(s.kmod, s.lsposed, s.targets, s.rules, s.masks);
    PreparedTargets(p, d);
    PreparedRules(p, d);
    PreparedMasks(p, d);
    StrictForm(s.kmod, d.kmod, Id);
    StrictForm(s.lsposed, d.lsposed, Id);
    MandatoryBits(h.active as bv32);
  }

  // ------------------------------------------------------------------ readers

  ghost predicate InMode(uids: seq<u32>, mode: u32, uid: u32)
  {
    Eligible(uid) && (if mode == EXCLUDE then uid !in uids else uid in uids)
  }

  method UidMatchesMode(uids: seq<u32>, mode: u32, uid: u32) returns (yes: bool)
    requires StrictBy(uids, Id)
    ensures yes <==> InMode(uids, mode, uid)
  {
    if uid == 0 || uid == 1000 || uid % 100000 < 10000 { return false; }
    var at := Find(uids, Id, uid);
    assert at.None? ==> forall i :: 0 <= i < |uids| ==> Id(uids[i]) != Id(uid);
    return if mode == EXCLUDE then at.None? else at.Some?;
  }

  /** The linear reading of the hook masks: the override of the UID if there is one,
      otherwise the global mask. */
  ghost predicate EffectiveMask(s: Snapshot, uid: u32, mask: bv32)
  {
    if exists i :: 0 <= i < |s.masks| && s.masks[i].uid == uid && s.masks[i].hasKernel != 0
    then exists i :: 0 <= i < |s.masks| && s.masks[i].uid == uid && s.masks[i].hasKernel != 0 &&
                     mask == s.masks[i].kernel
    else mask == s.active
  }

  method IsHookActive(published: Option<Snapshot>, index: bv5, uid: u32) returns (active: bool)
    requires published.Some? ==> SnapshotOk(published.value)
    ensures published.None? ==> !active
    ensures published.Some? ==>
              exists m :: EffectiveMask(published.value, uid, m) && (active <==> m & (1 << index) != 0)
    ensures published.Some? && (index == HOOK_CONNECT || index == HOOK_BIND) ==> active
  {
    if published.None? { return false; }
    var s := published.value;
    var mask := s.active;
    var at := Find(s.masks, MaskUid, uid);
    if at.Some? && s.masks[at.value].hasKernel != 0 {
      mask := s.masks[at.value].kernel;
    }
    assert EffectiveMask(s, uid, mask) by {
      if at.None? {
        assert forall i :: 0 <= i < |s.masks| ==> MaskUid(s.masks[i]) != uid;
      } else {
        assert forall i :: 0 <= i < |s.masks| && s.masks[i].uid == uid ==>
                 MaskUid(s.masks[i]) == MaskUid(s.masks[at.value]) && i == at.value;
      }
    }
    active := mask & (1 << index) != 0;
    MandatoryIndex(mask, index);
  }

  lemma MandatoryIndex(mask: bv32, index: bv5)
    requires mask & MANDATORY == MANDATORY
    ensures index == 13 || index == 16 ==> mask & (1 << index) != 0
  {
  }

  const DENY_ALL_TARGET := WireTarget(0, 0, 0, DENY_ALL, 0, 0, 0)

  /** vpnhide_find_port_target: the listed target, or the synthetic deny-all target of
      an inverted policy for an eligible UID. */
  method FindPortTarget(s: Snapshot, uid: u32) returns (t: Option<WireTarget>)
    requires SnapshotOk(s)
    ensures t.Some? && t.value != DENY_ALL_TARGET ==> t.value in s.targets && t.value.uid == uid
    ensures t == Some(DENY_ALL_TARGET) <==>
      (forall x :: x in s.targets ==> x.uid != uid) && s.portMode == EXCLUDE && Eligible(uid)
    ensures t.None? <==> (forall x :: x in s.targets ==> x.uid != uid) && !(s.portMode == EXCLUDE && Eligible(uid))
  {
    var at := Find(s.targets, TargetUid, uid);
    if at.Some? {
      assert s.targets[at.value] in s.targets;
      return Some(s.targets[at.value]);
    }
    assert forall i :: 0 <= i < |s.targets| ==> TargetUid(s.targets[i]) != uid;
    if s.portMode == EXCLUDE {
      var free := UidMatchesMode([], EXCLUDE, uid);
      if free { return Some(DENY_ALL_TARGET); }
    }
    return None;
  }

  predicate WireCovers(r: WireRule, port: u16, proto: byte)
  {
    r.first <= port <= r.last && (r.proto == BOTH || r.proto == proto)
  }

  ghost predicate WireMatches(rules: seq<WireRule>, port: u16, proto: byte)
  {
    exists i :: 0 <= i < |rules| && WireCovers(rules[i], port, proto)
  }

  /** should_block_port: the scan stops at the first rule that starts past the port. */
  method ShouldBlockPort(s: Snapshot, t: WireTarget, port: u16, proto: byte) returns (block: bool)
    requires InBounds(t, |s.rules|) && SortedBy(Segment(s.rules, t), RuleKey)
    ensures block <==> t.mode != UNRESTRICTED && (t.mode == DENY_ALL || WireMatches(Segment(s.rules, t), port, proto))
  {
    if t.mode == UNRESTRICTED { return false; }
    if t.mode == DENY_ALL { return true; }
    ghost var segment := Segment(s.rules, t);
    for i := 0 to t.ruleCount
      invariant forall k :: 0 <= k < i ==> !WireCovers(segment[k], port, proto)
    {
      var r := s.rules[t.firstRule + i];
      assert r == segment[i];
      if WireCovers(r, port, proto) { return true; }
      if r.first > port {
        forall k | i <= k < |segment| ensures !WireCovers(segment[k], port, proto) {
          if i < k {
            assert RuleKey(segment[i]) <= RuleKey(segment[k]);
            KeyOrdersStart(segment[i], segment[k]);
          }
        }
        break;
      }
    }
    return false;
  }

  lemma KeyOrdersStart(a: WireRule, b: WireRule)
    requires RuleKey(a) <= RuleKey(b)
    ensures a.first <= b.first
  {
  }
}
