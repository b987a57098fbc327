/** Packing a resolved policy for the kernel (kmod/vpnhide_ctl.c): the UID sort, the
    size check, and the writes into one buffer. */
module PolicyPack {
  import opened Types
  import opened PortRules
  import opened PolicyResolve
  import opened PolicyWire

  datatype Policy = Policy(kmod: seq<u32>, lsposed: seq<u32>, ports: seq<Target>, masks: seq<WireMask>,
                           ifaces: u32, prefixes: seq<byte>, active: u32, java: u32, debug: bool, mode: u32)

  // ------------------------------------------------------------------ flattening

  function WireOf(r: PortRule): WireRule { WireRule(r.first, r.last, r.proto, 0, 0, 0) }

  function WireRules(rules: seq<PortRule>): (w: seq<WireRule>)
    ensures |w| == |rules| && forall i :: 0 <= i < |w| ==> w[i] == WireOf(rules[i])
  {
    seq(|rules|, i requires 0 <= i < |rules| => WireOf(rules[i]))
  }

  function FlatRules(ts: seq<Target>): seq<WireRule>
  {
    if ts == [] then [] else FlatRules(ts[..|ts| - 1]) + WireRules(ts[|ts| - 1].rules)
  }

  function FlatTargets(ts: seq<Target>): (w: seq<WireTarget>)
    requires |FlatRules(ts)| < 0x1_0000_0000
    ensures |w| == |ts|
  {
    if ts == [] then [] else
    var n := |ts| - 1;
    FlatTargets(ts[..n]) + [WireTarget(ts[n].uid, |FlatRules(ts[..n])|, |ts[n].rules|, ts[n].mode, 0, 0, 0)]
  }

  function PackedSize(p: Policy): nat
  {
    V4_HEADER + |p.kmod| * UID_BYTES + |p.lsposed| * UID_BYTES + |p.ports| * TARGET_BYTES +
    |FlatRules(p.ports)| * RULE_BYTES + |p.masks| * MASK_BYTES
  }

  predicate Fits(p: Policy) { PackedSize(p) <= MAX_BYTES }

  function Flat(p: Policy): (d: Body)
    requires Fits(p)
    ensures V4_HEADER + BodySize(d) == PackedSize(p)
  {
    Body(p.kmod, p.lsposed, FlatTargets(p.ports), FlatRules(p.ports), p.masks)
  }

  function HeaderOf(p: Policy): Header4
    requires Fits(p)
  {
    Header4(Header3(PackedSize(p), 0, p.active, p.java, if p.debug then 1 else 0, p.ifaces, p.prefixes,
                    Placed(Flat(p), V4_HEADER)),
            p.mode, p.mode, p.mode, 0)
  }

  function Encoded(p: Policy): seq<byte>
    requires Fits(p)
  {
    EncHeader4(HeaderOf(p)) + EncBody(Flat(p))
  }

  // ------------------------------------------------------------------ size check

  lemma ProductFits(count: nat, size: nat)
    requires count > 0
    ensures size > SIZE_MAX / count <==> count * size > SIZE_MAX
  {
    var q, r := SIZE_MAX / count, SIZE_MAX % count;
    assert SIZE_MAX == count * q + r;
    if size > q {
      assert count * size >= count * (q + 1) == count * q + count;
    } else {
      assert count * size <= count * q;
    }
  }

  /** policy_add_size, with size_t overflow reported instead of wrapping. */
  method PolicyAddSize(total: nat, count: nat, size: nat) returns (r: Option<nat>)
    requires total <= SIZE_MAX
    ensures r.Some? <==> total + count * size <= SIZE_MAX
    ensures r.Some? ==> r.value == total + count * size
  {
    if count != 0 {
      ProductFits(count, size);
      if size > SIZE_MAX / count { return None; }
    }
    var bytes := count * size;
    if total > SIZE_MAX - bytes { return None; }
    return Some(total + bytes);
  }

  lemma {:induction false} RulesGrow(ts: seq<Target>, k: nat)
    requires k <= |ts|
    ensures |FlatRules(ts[..k])| <= |FlatRules(ts)|
    decreases |ts| - k
  {
    if k < |ts| {
      assert ts[..k + 1][..k] == ts[..k];
      RulesGrow(ts, k + 1);
    } else {
      assert ts[..k] == ts;
    }
  }

  method TotalRules(ts: seq<Target>) returns (r: Option<nat>)
    ensures r.Some? <==> |FlatRules(ts)| <= SIZE_MAX
    ensures r.Some? ==> r.value == |FlatRules(ts)|
  {
    var total := 0;
    for i := 0 to |ts|
      invariant total == |FlatRules(ts[..i])| <= SIZE_MAX
    {
      assert ts[..i + 1][..i] == ts[..i];
      RulesGrow(ts, i + 1);
      if total + |ts[i].rules| > SIZE_MAX { return None; }
      total := total + |ts[i].rules|;
    }
    assert ts[..|ts|] == ts;
    return Some(total);
  }

  method CheckedSize(p: Policy) returns (r: Option<nat>)
    ensures r.Some? <==> Fits(p)
    ensures r.Some? ==> r.value == PackedSize(p)
  {
    var rules := TotalRules(p.ports);
    if rules.None? { return None; }
    var t := PolicyAddSize(V4_HEADER, |p.kmod|, UID_BYTES);
    if t.None? { return None; }
    t := PolicyAddSize(t.value, |p.lsposed|, UID_BYTES);
    if t.None? { return None; }
    t := PolicyAddSize(t.value, |p.ports|, TARGET_BYTES);
    if t.None? { return None; }
    t := PolicyAddSize(t.value, rules.value, RULE_BYTES);
    if t.None? { return None; }
    t := PolicyAddSize(t.value, |p.masks|, MASK_BYTES);
    if t.None? || t.value > MAX_BYTES { return None; }
    return t;
  }

  // ------------------------------------------------------------------ writing

  method Put(buf: array<byte>, at: nat, bs: seq<byte>)
    requires at + |bs| <= buf.Length
    modifies buf
    ensures buf[at..at + |bs|] == bs
    ensures forall k :: 0 <= k < buf.Length && !(at <= k < at + |bs|) ==> buf[k] == old(buf[k])
  {
    for i := 0 to |bs|
      invariant buf[at..at + i] == bs[..i]
      invariant forall k :: 0 <= k < buf.Length && !(at <= k < at + i) ==> buf[k] == old(buf[k])
    {
      buf[at + i] := bs[i];
      assert buf[at..at + i + 1] == buf[at..at + i] + [bs[i]];
    }
  }

  lemma {:induction false} EncodeAppend<T>(enc: T -> seq<byte>, xs: seq<T>, ys: seq<T>)
    ensures EncodeList(enc, xs + ys) == EncodeList(enc, xs) + EncodeList(enc, ys)
  {
    if xs == [] {
      assert xs + ys == ys;
    } else {
      assert (xs + ys)[1..] == xs[1..] + ys;
      EncodeAppend(enc, xs[1..], ys);
    }
  }

  lemma {:induction false} EncodeOne<T>(enc: T -> seq<byte>, xs: seq<T>, x: T)
    ensures EncodeList(enc, xs + [x]) == EncodeList(enc, xs) + enc(x)
  {
    EncodeAppend(enc, xs, [x]);
    assert EncodeList(enc, [x]) == enc(x) + EncodeList(enc, []);
  }

  /** The inner loop: the rules of one target, written at index `j` on. */
  method PutRules(buf: array<byte>, at: nat, rules: seq<PortRule>)
    requires at + |rules| * RULE_BYTES <= buf.Length
    modifies buf
    ensures buf[at..at + |rules| * RULE_BYTES] == EncodeList(EncRule, WireRules(rules))
    ensures forall k :: 0 <= k < buf.Length && !(at <= k < at + |rules| * RULE_BYTES) ==> buf[k] == old(buf[k])
  {
    for r := 0 to |rules|
      invariant buf[at..at + r * RULE_BYTES] == EncodeList(EncRule, WireRules(rules[..r]))
      invariant forall k :: 0 <= k < buf.Length && !(at <= k < at + r * RULE_BYTES) ==> buf[k] == old(buf[k])
    {
      PutNext(buf, at, at + r * RULE_BYTES, EncRule(WireOf(rules[r])), EncodeList(EncRule, WireRules(rules[..r])));
      RulesOneMore(rules, r);
    }
    assert rules[..|rules|] == rules;
  }

  lemma RulesOneMore(rules: seq<PortRule>, r: nat)
    requires r < |rules|
    ensures EncodeList(EncRule, WireRules(rules[..r + 1])) ==
      EncodeList(EncRule, WireRules(rules[..r])) + EncRule(WireOf(rules[r]))
  {
    assert WireRules(rules[..r + 1]) == WireRules(rules[..r]) + [WireOf(rules[r])];
    EncodeOne(EncRule, WireRules(rules[..r]), WireOf(rules[r]));
  }

  /** One more record behind those written from `at` to `end`. */
  method PutNext(buf: array<byte>, at: nat, end: nat, bs: seq<byte>, ghost done: seq<byte>)
    requires at <= end && end + |bs| <= buf.Length && buf[at..end] == done
    modifies buf
    ensures buf[at..end + |bs|] == done + bs
    ensures forall k :: 0 <= k < buf.Length && !(end <= k < end + |bs|) ==> buf[k] == old(buf[k])
  {
    Put(buf, end, bs);
    assert buf[at..end] == done;
    assert buf[at..end + |bs|] == buf[at..end] + buf[end..end + |bs|];
  }

  lemma FlatStep(ts: seq<Target>, i: nat)
    requires i < |ts| && |FlatRules(ts)| < 0x1_0000_0000
    ensures |FlatRules(ts[..i])| + |ts[i].rules| == |FlatRules(ts[..i + 1])| <= |FlatRules(ts)|
  {
    assert ts[..i + 1][..i] == ts[..i];
    RulesGrow(ts, i + 1);
  }

  lemma TargetBytesStep(ts: seq<Target>, i: nat)
    requires i < |ts| && |FlatRules(ts[..i])| + |ts[i].rules| == |FlatRules(ts[..i + 1])| < 0x1_0000_0000
    ensures EncodeList(EncTarget, FlatTargets(ts[..i + 1])) ==
      EncodeList(EncTarget, FlatTargets(ts[..i])) +
      EncTarget(WireTarget(ts[i].uid, |FlatRules(ts[..i])|, |ts[i].rules|, ts[i].mode, 0, 0, 0))
  {
    assert ts[..i + 1][..i] == ts[..i];
    EncodeOne(EncTarget, FlatTargets(ts[..i]),
              WireTarget(ts[i].uid, |FlatRules(ts[..i])|, |ts[i].rules|, ts[i].mode, 0, 0, 0));
  }

  lemma RuleBytesStep(ts: seq<Target>, i: nat)
    requires i < |ts|
    ensures EncodeList(EncRule, FlatRules(ts[..i + 1])) ==
      EncodeList(EncRule, FlatRules(ts[..i])) + EncodeList(EncRule, WireRules(ts[i].rules))
  {
    assert ts[..i + 1][..i] == ts[..i];
    EncodeAppend(EncRule, FlatRules(ts[..i]), WireRules(ts[i].rules));
  }

  /** The records of the targets fill `at` to `end`. */
  ghost predicate HoldsTargets(b: seq<byte>, at: nat, end: nat, ts: seq<Target>)
  {
    && |FlatRules(ts)| < 0x1_0000_0000 && end == at + |ts| * TARGET_BYTES <= |b|
    && b[at..end] == EncodeList(EncTarget, FlatTargets(ts))
  }

  /** The rules of the targets fill `at` to `end`. */
  ghost predicate HoldsRules(b: seq<byte>, at: nat, end: nat, ts: seq<Target>)
  {
    && end == at + |FlatRules(ts)| * RULE_BYTES <= |b|
    && b[at..end] == EncodeList(EncRule, FlatRules(ts))
  }

  method AddRecord(buf: array<byte>, at: nat, end: nat, ghost ts: seq<Target>, i: nat, j: u32, t: Target)
    returns (end': nat)
    requires i < |ts| && t == ts[i] && j == |FlatRules(ts[..i])|
    requires j + |t.rules| == |FlatRules(ts[..i + 1])| < 0x1_0000_0000
    requires end + TARGET_BYTES <= buf.Length && HoldsTargets(buf[..], at, end, ts[..i])
    modifies buf
    ensures forall k :: 0 <= k < buf.Length && !(end <= k < end') ==> buf[k] == old(buf[k])
    ensures end' == end + TARGET_BYTES && HoldsTargets(buf[..], at, end', ts[..i + 1])
  {
    var w := WireTarget(t.uid, j, |t.rules|, t.mode, 0, 0, 0);
    end' := end + TARGET_BYTES;
    TargetBytesStep(ts, i);
    PutNext(buf, at, end, EncTarget(w), EncodeList(EncTarget, FlatTargets(ts[..i])));
  }

  method AddRules(buf: array<byte>, at: nat, end: nat, ghost ts: seq<Target>, i: nat, rules: seq<PortRule>)
    returns (end': nat)
    requires i < |ts| && rules == ts[i].rules
    requires |FlatRules(ts[..i])| + |rules| == |FlatRules(ts[..i + 1])|
    requires end + |rules| * RULE_BYTES <= buf.Length && HoldsRules(buf[..], at, end, ts[..i])
    modifies buf
    ensures forall k :: 0 <= k < end ==> buf[k] == old(buf[k])
    ensures HoldsRules(buf[..], at, end', ts[..i + 1])
  {
    end' := end + |rules| * RULE_BYTES;
    ghost var was := buf[..];
    PutRules(buf, end, rules);
    RulesAdded(was, buf[..], at, end, end', ts, i);
  }

  lemma RulesAdded(b: seq<byte>, c: seq<byte>, at: nat, end: nat, end': nat, ts: seq<Target>, i: nat)
    requires i < |ts| && |FlatRules(ts[..i])| + |ts[i].rules| == |FlatRules(ts[..i + 1])|
    requires end' == end + |ts[i].rules| * RULE_BYTES <= |b| == |c| && HoldsRules(b, at, end, ts[..i])
    requires (forall k :: 0 <= k < end ==> c[k] == b[k]) && c[end..end'] == EncodeList(EncRule, WireRules(ts[i].rules))
    ensures HoldsRules(c, at, end', ts[..i + 1])
  {
    RuleBytesStep(ts, i);
    Joined(b, c, at, end, end');
  }

  lemma Joined(b: seq<byte>, c: seq<byte>, at: nat, end: nat, end': nat)
    requires at <= end <= end' <= |b| == |c| && forall k :: 0 <= k < end ==> c[k] == b[k]
    ensures c[at..end'] == b[at..end] + c[end..end']
  {
  }

  /** One round of the outer loop: a target record and its rules, each extending the part
      of its section that is already written. */
  method FillOne(buf: array<byte>, targetsAt: nat, te: nat, rulesAt: nat, re: nat, ghost ts: seq<Target>, i: nat,
                 j: u32, t: Target)
    returns (te': nat, re': nat)
    requires i < |ts| && t == ts[i] && j == |FlatRules(ts[..i])| && |FlatRules(ts)| < 0x1_0000_0000
    requires targetsAt + |ts| * TARGET_BYTES == rulesAt && rulesAt + |FlatRules(ts)| * RULE_BYTES <= buf.Length
    requires HoldsTargets(buf[..], targetsAt, te, ts[..i]) && HoldsRules(buf[..], rulesAt, re, ts[..i])
    modifies buf
    ensures buf[..targetsAt] == old(buf[..targetsAt])
    ensures HoldsTargets(buf[..], targetsAt, te', ts[..i + 1]) && HoldsRules(buf[..], rulesAt, re', ts[..i + 1])
    ensures j + |t.rules| == |FlatRules(ts[..i + 1])| <= |FlatRules(ts)|
  {
    FlatStep(ts, i);
    ghost var b0 := buf[..];
    te' := AddRecord(buf, targetsAt, te, ts, i, j, t);
    ghost var b1 := buf[..];
    RulesKept(b0, b1, rulesAt, re, ts[..i]);
    re' := AddRules(buf, rulesAt, re, ts, i, t.rules);
    TargetsKept(b1, buf[..], targetsAt, te', ts[..i + 1]);
    PrefixKept(b0, b1, buf[..], targetsAt);
  }

  lemma PrefixKept(b: seq<byte>, c: seq<byte>, d: seq<byte>, n: nat)
    requires n <= |b| == |c| == |d| && forall k :: 0 <= k < n ==> c[k] == b[k] && d[k] == c[k]
    ensures d[..n] == b[..n]
  {
  }

  lemma RulesKept(b: seq<byte>, c: seq<byte>, at: nat, end: nat, ts: seq<Target>)
    requires HoldsRules(b, at, end, ts) && |c| == |b| && forall k :: at <= k < end ==> c[k] == b[k]
    ensures HoldsRules(c, at, end, ts)
  {
    assert c[at..end] == b[at..end];
  }

  lemma TargetsKept(b: seq<byte>, c: seq<byte>, at: nat, end: nat, ts: seq<Target>)
    requires HoldsTargets(b, at, end, ts) && |c| == |b| && forall k :: at <= k < end ==> c[k] == b[k]
    ensures HoldsTargets(c, at, end, ts)
  {
    assert c[at..end] == b[at..end];
  }

  /** The loop that fills the target and the rule section together. */
  method FillPorts(buf: array<byte>, targetsAt: nat, rulesAt: nat, ts: seq<Target>)
    requires |FlatRules(ts)| < 0x1_0000_0000
    requires targetsAt + |ts| * TARGET_BYTES == rulesAt
    requires rulesAt + |FlatRules(ts)| * RULE_BYTES <= buf.Length
    modifies buf
    ensures buf[..targetsAt] == old(buf[..targetsAt])
    ensures HoldsTargets(buf[..], targetsAt, rulesAt, ts)
    ensures HoldsRules(buf[..], rulesAt, rulesAt + |FlatRules(ts)| * RULE_BYTES, ts)
  {
    var j: nat, te: nat, re: nat := 0, targetsAt, rulesAt;
    for i := 0 to |ts|
      invariant j == |FlatRules(ts[..i])| <= |FlatRules(ts)|
      invariant buf[..targetsAt] == old(buf[..targetsAt])
      invariant HoldsTargets(buf[..], targetsAt, te, ts[..i])
      invariant HoldsRules(buf[..], rulesAt, re, ts[..i])
    {
      te, re := FillOne(buf, targetsAt, te, rulesAt, re, ts, i, j, ts[i]);
      j := j + |ts[i].rules|;
    }
    assert ts[..|ts|] == ts;
    assert te == rulesAt && re == rulesAt + |FlatRules(ts)| * RULE_BYTES;
  }

  method PutPorts(buf: array<byte>, targetsAt: nat, rulesAt: nat, ts: seq<Target>)
    requires |FlatRules(ts)| < 0x1_0000_0000
    requires targetsAt + |ts| * TARGET_BYTES == rulesAt
    requires rulesAt + |FlatRules(ts)| * RULE_BYTES <= buf.Length
    modifies buf
    ensures buf[..rulesAt + |FlatRules(ts)| * RULE_BYTES] ==
      old(buf[..targetsAt]) + EncodeList(EncTarget, FlatTargets(ts)) + EncodeList(EncRule, FlatRules(ts))
  {
    FillPorts(buf, targetsAt, rulesAt, ts);
    ghost var end := rulesAt + |FlatRules(ts)| * RULE_BYTES;
    assert buf[..end] == buf[..targetsAt] + buf[targetsAt..rulesAt] + buf[rulesAt..end];
  }

  /** Copy a section to the cursor. */
  method PutSection(buf: array<byte>, cursor: nat, bs: seq<byte>, end: nat, ghost done: seq<byte>)
    requires end == cursor + |bs| <= buf.Length && buf[..cursor] == done
    modifies buf
    ensures buf[..end] == done + bs
  {
    Put(buf, cursor, bs);
    assert buf[..cursor] == old(buf[..cursor]);
    assert buf[..end] == buf[..cursor] + buf[cursor..end];
  }

  /** pack_policy_v4: fails exactly when the payload would exceed the limit, and otherwise
      writes the encoding of the flattened policy. */
  method PackPolicyV4(p: Policy) returns (r: Result<seq<byte>>)
    requires |p.prefixes| == PREFIX_BYTES
    ensures r.Ok? <==> Fits(p)
    ensures r.Ok? ==> |r.value| == PackedSize(p) && r.value == Encoded(p)
  {
    var total := CheckedSize(p);
    if total.None? { return Err; }
    var rules := TotalRules(p.ports);
    var c1 := V4_HEADER + |p.kmod| * UID_BYTES;
    var c2 := c1 + |p.lsposed| * UID_BYTES;
    var c3 := c2 + |p.ports| * TARGET_BYTES;
    var c4 := c3 + rules.value * RULE_BYTES;
    var header := Header4(Header3(total.value, 0, p.active, p.java, if p.debug then 1 else 0, p.ifaces, p.prefixes,
                                  Sections(Section(V4_HEADER, |p.kmod|), Section(c1, |p.lsposed|),
                                           Section(c2, |p.ports|),
                                           Section(c3, rules.value), Section(c4, |p.masks|))),
                          p.mode, p.mode, p.mode, 0);
    assert header == HeaderOf(p);
    var out := WriteAll(p, total.value, EncHeader4(header), c1, c2, c3, c4);
    r := Ok(out);
  }

  method WriteAll(p: Policy, total: nat, header: seq<byte>, c1: nat, c2: nat, c3: nat, c4: nat) returns (out: seq<byte>)
    requires |p.prefixes| == PREFIX_BYTES && Fits(p) && header == EncHeader4(HeaderOf(p)) && total == PackedSize(p)
    requires c1 == V4_HEADER + |p.kmod| * UID_BYTES && c2 == c1 + |p.lsposed| * UID_BYTES
    requires c3 == c2 + |p.ports| * TARGET_BYTES && c4 == c3 + |FlatRules(p.ports)| * RULE_BYTES
    ensures |out| == PackedSize(p) && out == Encoded(p)
  {
    EncodedLengths(p);
    var buf := new byte[total](_ => 0);
    ghost var k, l, m := EncodeList(EncUid, p.kmod), EncodeList(EncUid, p.lsposed), EncodeList(EncMask, p.masks);
    ghost var t, r := EncodeList(EncTarget, FlatTargets(p.ports)), EncodeList(EncRule, FlatRules(p.ports));
    WriteUids(buf, header, p.kmod, p.lsposed, c1, c2);
    PutPorts(buf, c2, c3, p.ports);
    PutSection(buf, c4, EncodeList(EncMask, p.masks), total, header + k + l + t + r);
    out := buf[..total];
    Reassociate(header, k, l, t, r, m);
  }

  lemma EncodedLengths(p: Policy)
    requires |p.prefixes| == PREFIX_BYTES && Fits(p)
    ensures |EncHeader4(HeaderOf(p))| == V4_HEADER
    ensures |EncodeList(EncUid, p.kmod)| == |p.kmod| * UID_BYTES &&
            |EncodeList(EncUid, p.lsposed)| == |p.lsposed| * UID_BYTES
    ensures |EncodeList(EncTarget, FlatTargets(p.ports))| == |p.ports| * TARGET_BYTES
    ensures |EncodeList(EncRule, FlatRules(p.ports))| == |FlatRules(p.ports)| * RULE_BYTES
    ensures |EncodeList(EncMask, p.masks)| == |p.masks| * MASK_BYTES
  {
    BodyLength(Flat(p));
    Header4RoundTrip(HeaderOf(p), []);
  }

  method WriteUids(buf: array<byte>, header: seq<byte>, kmod: seq<u32>, lsposed: seq<u32>, c1: nat, c2: nat)
    requires |header| == V4_HEADER && c1 == V4_HEADER + |kmod| * UID_BYTES &&
             c2 == c1 + |lsposed| * UID_BYTES <= buf.Length
    requires |EncodeList(EncUid, kmod)| == |kmod| * UID_BYTES && |EncodeList(EncUid, lsposed)| == |lsposed| * UID_BYTES
    modifies buf
    ensures buf[..c2] == header + EncodeList(EncUid, kmod) + EncodeList(EncUid, lsposed)
  {
    PutSection(buf, 0, header, V4_HEADER, []);
    assert [] + header == header;
    PutSection(buf, V4_HEADER, EncodeList(EncUid, kmod), c1, header);
    PutSection(buf, c1, EncodeList(EncUid, lsposed), c2, header + EncodeList(EncUid, kmod));
  }

  lemma Reassociate(h: seq<byte>, a: seq<byte>, b: seq<byte>, c: seq<byte>, d: seq<byte>, e: seq<byte>)
    ensures h + a + b + c + d + e == h + (a + b + c + d + e)
  {
  }

  // ------------------------------------------------------------------ sort_uids

  ghost predicate SortedFrom(s: seq<u32>, lo: int)
  {
    forall i, j :: 0 <= i < j < |s| && lo <= j ==> s[i] <= s[j]
  }

  ghost predicate Tops(s: seq<u32>, j: nat) { j < |s| && forall k :: 0 <= k < j ==> s[k] <= s[j] }

  function Swapped(s: seq<u32>, j: nat): seq<u32>
    requires j + 1 < |s|
  {
    s[j := s[j + 1]][j + 1 := s[j]]
  }

  lemma SwapPermutes(s: seq<u32>, j: nat)
    requires j + 1 < |s|
    ensures multiset(Swapped(s, j)) == multiset(s)
  {
    assert s == s[..j] + [s[j], s[j + 1]] + s[j + 2..];
    assert Swapped(s, j) == s[..j] + [s[j + 1], s[j]] + s[j + 2..];
  }

  lemma SwapSorts(s: seq<u32>, j: nat, n: nat)
    requires j + 1 < n <= |s| && s[j] > s[j + 1] && SortedFrom(s, n) && Tops(s, j)
    ensures SortedFrom(Swapped(s, j), n) && Tops(Swapped(s, j), j + 1)
  {
  }

  method BubblePass(a: array<u32>, n: nat)
    requires 0 < n <= a.Length && SortedFrom(a[..], n)
    modifies a
    ensures multiset(a[..]) == multiset(old(a[..]))
    ensures SortedFrom(a[..], n - 1)
  {
    var j := 0;
    while j + 1 < n
      invariant 0 <= j < n
      invariant multiset(a[..]) == multiset(old(a[..]))
      invariant SortedFrom(a[..], n) && Tops(a[..], j)
    {
      if a[j] > a[j + 1] {
        ghost var was := a[..];
        SwapPermutes(was, j);
        SwapSorts(was, j, n);
        a[j], a[j + 1] := a[j + 1], a[j];
        assert a[..] == Swapped(was, j);
      }
      j := j + 1;
    }
  }

  /** sort_uids: the in-place bubble sort of the UID vectors. */
  method BubbleSort(a: array<u32>)
    modifies a
    ensures multiset(a[..]) == multiset(old(a[..]))
    ensures forall i, j :: 0 <= i < j < a.Length ==> a[i] <= a[j]
  {
    var i := 0;
    while i + 1 < a.Length
      invariant 0 <= i && (i == 0 || i < a.Length)
      invariant multiset(a[..]) == multiset(old(a[..]))
      invariant SortedFrom(a[..], a.Length - i)
    {
      BubblePass(a, a.Length - i);
      i := i + 1;
    }
    assert forall i, j :: 0 <= i < j < a.Length ==> a[..][i] <= a[..][j];
  }
}
