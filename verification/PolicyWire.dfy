/** The byte layout of the policy payload (kmod/include/vpnhide.h): little-endian
    records, the version 3 and version 4 headers, and the five sections. */
module PolicyWire {
  import opened Types

  const SIZE_MAX: nat := 0xFFFF_FFFF_FFFF_FFFF
  const MAX_BYTES: u32 := 16 * 1024 * 1024
  const MAX_PREFIXES := 32
  const PREFIX_BYTES := 512
  const V3_HEADER := 576
  const V4_HEADER := 592
  const DELTA := 16

  const UID_BYTES := 4
  const TARGET_BYTES := 16
  const RULE_BYTES := 8
  const MASK_BYTES := 16

  datatype WireRule = WireRule(first: u16, last: u16, proto: byte, r0: byte, r1: byte, r2: byte)

  datatype WireTarget = WireTarget(uid: u32, firstRule: u32, ruleCount: u32, mode: byte, r0: byte, r1: byte, r2: byte)

  datatype WireMask = WireMask(uid: u32, kernel: bv32, java: bv32, hasKernel: byte, hasJava: byte, r0: byte, r1: byte)

  // ------------------------------------------------------------------ scalars

  function Le16(v: u16): (b: seq<byte>)
    ensures |b| == 2
  {
    [v % 256, v / 256]
  }

  function Le32(v: u32): (b: seq<byte>)
    ensures |b| == 4
  {
    [v % 256, v / 256 % 256, v / 65536 % 256, v / 16777216]
  }

  function Get16(b: seq<byte>): u16
    requires |b| == 2
  {
    (b[0] as int) + 256 * (b[1] as int)
  }

  function Get32(b: seq<byte>): u32
    requires |b| == 4
  {
    (b[0] as int) + 256 * (b[1] as int) + 65536 * (b[2] as int) + 16777216 * (b[3] as int)
  }

  lemma Get32Le32(v: u32)
    ensures Get32(Le32(v)) == v
  {
    var a, b, c := v / 256, v / 65536, v / 16777216;
    assert v == 256 * a + v % 256;
    assert a == 256 * b + a % 256;
    assert b == 256 * c + b % 256;
  }

  lemma Bits32(m: bv32)
    ensures (m as u32) as bv32 == m
  {
  }

  // ------------------------------------------------------------------ records

  function EncUid(v: u32): seq<byte> { Le32(v) }

  function DecUid(b: seq<byte>): u32
    requires |b| == UID_BYTES
  {
    Get32(b)
  }

  function EncRule(r: WireRule): seq<byte> { Le16(r.first) + Le16(r.last) + [r.proto, r.r0, r.r1, r.r2] }

  function DecRule(b: seq<byte>): WireRule
    requires |b| == RULE_BYTES
  {
    WireRule(Get16(b[..2]), Get16(b[2..4]), b[4], b[5], b[6], b[7])
  }

  function EncTarget(t: WireTarget): seq<byte>
  {
    Le32(t.uid) + Le32(t.firstRule) + Le32(t.ruleCount) + [t.mode, t.r0, t.r1, t.r2]
  }

  function DecTarget(b: seq<byte>): WireTarget
    requires |b| == TARGET_BYTES
  {
    WireTarget(Get32(b[..4]), Get32(b[4..8]), Get32(b[8..12]), b[12], b[13], b[14], b[15])
  }

  function EncMask(m: WireMask): seq<byte>
  {
    Le32(m.uid) + Le32(m.kernel as u32) + Le32(m.java as u32) + [m.hasKernel, m.hasJava, m.r0, m.r1]
  }

  function DecMask(b: seq<byte>): WireMask
    requires |b| == MASK_BYTES
  {
    WireMask(Get32(b[..4]), Get32(b[4..8]) as bv32, Get32(b[8..12]) as bv32, b[12], b[13], b[14], b[15])
  }

  /** Three words and four bytes, cut apart again. */
  lemma WordsApart(a: seq<byte>, b: seq<byte>, c: seq<byte>, d: seq<byte>)
    requires |a| == |b| == |c| == |d| == 4
    ensures |a + b + c + d| == 16
    ensures (a + b + c + d)[..4] == a && (a + b + c + d)[4..8] == b && (a + b + c + d)[8..12] == c
    ensures (a + b + c + d)[12] == d[0] && (a + b + c + d)[13] == d[1]
    ensures (a + b + c + d)[14] == d[2] && (a + b + c + d)[15] == d[3]
  {
  }

  lemma RuleRoundTrip(r: WireRule)
    ensures |EncRule(r)| == RULE_BYTES && DecRule(EncRule(r)) == r
  {
    var b := EncRule(r);
    assert b[..2] == Le16(r.first) && b[2..4] == Le16(r.last);
  }

  lemma TargetRoundTrip(t: WireTarget)
    ensures |EncTarget(t)| == TARGET_BYTES && DecTarget(EncTarget(t)) == t
  {
    WordsApart(Le32(t.uid), Le32(t.firstRule), Le32(t.ruleCount), [t.mode, t.r0, t.r1, t.r2]);
    Get32Le32(t.uid);
    Get32Le32(t.firstRule);
    Get32Le32(t.ruleCount);
  }

  lemma MaskRoundTrip(m: WireMask)
    ensures |EncMask(m)| == MASK_BYTES && DecMask(EncMask(m)) == m
  {
    WordsApart(Le32(m.uid), Le32(m.kernel as u32), Le32(m.java as u32), [m.hasKernel, m.hasJava, m.r0, m.r1]);
    Get32Le32(m.uid);
    Get32Le32(m.kernel as u32);
    Get32Le32(m.java as u32);
    Bits32(m.kernel);
    Bits32(m.java);
  }

  // ------------------------------------------------------------------ arrays of records

  function EncodeList<T>(enc: T -> seq<byte>, xs: seq<T>): seq<byte>
  {
    if xs == [] then [] else enc(xs[0]) + EncodeList(enc, xs[1..])
  }

  function DecodeList<T>(dec: seq<byte> --> T, size: nat, n: nat, b: seq<byte>): (xs: seq<T>)
    requires |b| == n * size
    requires forall c: seq<byte> :: |c| == size ==> dec.requires(c)
    ensures |xs| == n
  {
    if n == 0 then [] else
    assert n * size == (n - 1) * size + size;
    [dec(b[..size])] + DecodeList(dec, size, n - 1, b[size..])
  }

  ghost predicate Inverse<T(!new)>(enc: T -> seq<byte>, dec: seq<byte> --> T, size: nat)
  {
    && (forall c: seq<byte> :: |c| == size ==> dec.requires(c))
    && (forall x :: |enc(x)| == size && dec(enc(x)) == x)
  }

  lemma {:induction false} ListLength<T(!new)>(enc: T -> seq<byte>, size: nat, xs: seq<T>)
    requires forall x :: |enc(x)| == size
    ensures |EncodeList(enc, xs)| == |xs| * size
  {
    if xs != [] {
      ListLength(enc, size, xs[1..]);
      assert |xs| * size == (|xs| - 1) * size + size;
    }
  }

  lemma {:induction false} ListRoundTrip<T(!new)>(enc: T -> seq<byte>, dec: seq<byte> --> T, size: nat, xs: seq<T>)
    requires Inverse(enc, dec, size)
    ensures |EncodeList(enc, xs)| == |xs| * size
    ensures DecodeList(dec, size, |xs|, EncodeList(enc, xs)) == xs
  {
    ListLength(enc, size, xs);
    if xs != [] {
      ListRoundTrip(enc, dec, size, xs[1..]);
      var b := EncodeList(enc, xs);
      assert b[..size] == enc(xs[0]) && b[size..] == EncodeList(enc, xs[1..]);
    }
  }

  lemma UidInverse()
    ensures Inverse(EncUid, DecUid, UID_BYTES)
  {
    forall v ensures |EncUid(v)| == UID_BYTES && DecUid(EncUid(v)) == v { Get32Le32(v); }
  }

  lemma TargetInverse()
    ensures Inverse(EncTarget, DecTarget, TARGET_BYTES)
  {
    forall t ensures |EncTarget(t)| == TARGET_BYTES && DecTarget(EncTarget(t)) == t { TargetRoundTrip(t); }
  }

  lemma RuleInverse()
    ensures Inverse(EncRule, DecRule, RULE_BYTES)
  {
    forall r ensures |EncRule(r)| == RULE_BYTES && DecRule(EncRule(r)) == r { RuleRoundTrip(r); }
  }

  lemma MaskInverse()
    ensures Inverse(EncMask, DecMask, MASK_BYTES)
  {
    forall m ensures |EncMask(m)| == MASK_BYTES && DecMask(EncMask(m)) == m { MaskRoundTrip(m); }
  }

  // ------------------------------------------------------------------ headers

  datatype Section = Section(offset: u32, count: u32)

  /** The five sections of a payload, in file order. */
  datatype Sections = Sections(kmod: Section, lsposed: Section, targets: Section, rules: Section, masks: Section)

  datatype Header3 = Header3(total: u32, flags: u32, active: u32, java: u32, debug: u32, ifaces: u32,
                             prefixes: seq<byte>, sections: Sections)

  datatype Header4 = Header4(base: Header3, kmodMode: u32, lsposedMode: u32, portMode: u32, reserved: u32)

  function SectionWords(s: Sections): seq<u32>
  {
    [s.kmod.offset, s.kmod.count, s.lsposed.offset, s.lsposed.count, s.targets.offset, s.targets.count,
     s.rules.offset, s.rules.count, s.masks.offset, s.masks.count]
  }

  function WordSections(w: seq<u32>): Sections
    requires |w| == 10
  {
    Sections(Section(w[0], w[1]), Section(w[2], w[3]), Section(w[4], w[5]), Section(w[6], w[7]), Section(w[8], w[9]))
  }

  function EncHeader3(h: Header3): seq<byte>
  {
    EncodeList(EncUid, [h.total, h.flags, h.active, h.java, h.debug, h.ifaces]) + h.prefixes +
    EncodeList(EncUid, SectionWords(h.sections))
  }

  function EncHeader4(h: Header4): seq<byte>
  {
    EncodeList(EncUid, [h.base.total, h.base.flags, h.base.active, h.base.java, h.base.debug, h.base.ifaces,
                        h.kmodMode, h.lsposedMode, h.portMode, h.reserved]) + h.base.prefixes +
    EncodeList(EncUid, SectionWords(h.base.sections))
  }

  function DecHeader3(b: seq<byte>): (h: Header3)
    requires |b| >= V3_HEADER
    ensures |h.prefixes| == PREFIX_BYTES
  {
    var w := DecodeList(DecUid, UID_BYTES, 6, b[..24]);
    Header3(w[0], w[1], w[2], w[3], w[4], w[5], b[24..536],
            WordSections(DecodeList(DecUid, UID_BYTES, 10, b[536..V3_HEADER])))
  }

  function DecHeader4(b: seq<byte>): (h: Header4)
    requires |b| >= V4_HEADER
    ensures |h.base.prefixes| == PREFIX_BYTES
  {
    var w := DecodeList(DecUid, UID_BYTES, 10, b[..40]);
    Header4(Header3(w[0], w[1], w[2], w[3], w[4], w[5], b[40..552],
                    WordSections(DecodeList(DecUid, UID_BYTES, 10, b[552..V4_HEADER]))),
            w[6], w[7], w[8], w[9])
  }

  lemma Header3RoundTrip(h: Header3, body: seq<byte>)
    requires |h.prefixes| == PREFIX_BYTES
    ensures |EncHeader3(h)| == V3_HEADER && DecHeader3(EncHeader3(h) + body) == h
  {
    UidInverse();
    var w := [h.total, h.flags, h.active, h.java, h.debug, h.ifaces];
    ListRoundTrip(EncUid, DecUid, UID_BYTES, w);
    ListRoundTrip(EncUid, DecUid, UID_BYTES, SectionWords(h.sections));
    var b := EncHeader3(h) + body;
    assert b[..24] == EncodeList(EncUid, w);
    assert b[24..536] == h.prefixes;
    assert b[536..V3_HEADER] == EncodeList(EncUid, SectionWords(h.sections));
  }

  lemma Header4RoundTrip(h: Header4, body: seq<byte>)
    requires |h.base.prefixes| == PREFIX_BYTES
    ensures |EncHeader4(h)| == V4_HEADER && DecHeader4(EncHeader4(h) + body) == h
  {
    UidInverse();
    var w := [h.base.total, h.base.flags, h.base.active, h.base.java, h.base.debug, h.base.ifaces,
              h.kmodMode, h.lsposedMode, h.portMode, h.reserved];
    ListRoundTrip(EncUid, DecUid, UID_BYTES, w);
    ListRoundTrip(EncUid, DecUid, UID_BYTES, SectionWords(h.base.sections));
    var b := EncHeader4(h) + body;
    assert b[..40] == EncodeList(EncUid, w);
    assert b[40..552] == h.base.prefixes;
    assert b[552..V4_HEADER] == EncodeList(EncUid, SectionWords(h.base.sections));
  }

  // ------------------------------------------------------------------ tiling

  /** The sections follow each other from `start` and end exactly at `total`. */
  predicate Tiles(s: Sections, start: nat, total: nat)
  {
    var c0 := start;
    var c1 := c0 + s.kmod.count * UID_BYTES;
    var c2 := c1 + s.lsposed.count * UID_BYTES;
    var c3 := c2 + s.targets.count * TARGET_BYTES;
    var c4 := c3 + s.rules.count * RULE_BYTES;
    && s.kmod.offset == c0 && s.lsposed.offset == c1 && s.targets.offset == c2
    && s.rules.offset == c3 && s.masks.offset == c4
    && c4 + s.masks.count * MASK_BYTES == total
  }

  datatype Body = Body(kmod: seq<u32>, lsposed: seq<u32>, targets: seq<WireTarget>, rules: seq<WireRule>,
                       masks: seq<WireMask>)

  function EncBody(d: Body): seq<byte>
  {
    EncodeList(EncUid, d.kmod) + EncodeList(EncUid, d.lsposed) + EncodeList(EncTarget, d.targets) +
    EncodeList(EncRule, d.rules) + EncodeList(EncMask, d.masks)
  }

  function BodySize(d: Body): nat
  {
    |d.kmod| * UID_BYTES + |d.lsposed| * UID_BYTES + |d.targets| * TARGET_BYTES + |d.rules| * RULE_BYTES +
    |d.masks| * MASK_BYTES
  }

  /** Reading the five arrays at the offsets the sections give. */
  function DecBody(b: seq<byte>, s: Sections, start: nat): (d: Body)
    requires Tiles(s, start, |b|)
    ensures |d.kmod| == s.kmod.count && |d.lsposed| == s.lsposed.count && |d.targets| == s.targets.count
    ensures |d.rules| == s.rules.count && |d.masks| == s.masks.count
  {
    Body(DecodeList(DecUid, UID_BYTES, s.kmod.count, b[s.kmod.offset..s.lsposed.offset]),
         DecodeList(DecUid, UID_BYTES, s.lsposed.count, b[s.lsposed.offset..s.targets.offset]),
         DecodeList(DecTarget, TARGET_BYTES, s.targets.count, b[s.targets.offset..s.rules.offset]),
         DecodeList(DecRule, RULE_BYTES, s.rules.count, b[s.rules.offset..s.masks.offset]),
         DecodeList(DecMask, MASK_BYTES, s.masks.count, b[s.masks.offset..|b|]))
  }

  /** The sections of a body placed at `start`. */
  function Placed(d: Body, start: nat): (s: Sections)
    requires start + BodySize(d) <= MAX_BYTES
    ensures Tiles(s, start, start + BodySize(d))
  {
    var c1 := start + |d.kmod| * UID_BYTES;
    var c2 := c1 + |d.lsposed| * UID_BYTES;
    var c3 := c2 + |d.targets| * TARGET_BYTES;
    var c4 := c3 + |d.rules| * RULE_BYTES;
    Sections(Section(start, |d.kmod|), Section(c1, |d.lsposed|), Section(c2, |d.targets|),
             Section(c3, |d.rules|), Section(c4, |d.masks|))
  }

  /** Five adjacent pieces behind a header, cut at their offsets. */
  lemma FiveApart(s: Sections, h: seq<byte>, a: seq<byte>, b: seq<byte>, c: seq<byte>, d: seq<byte>, e: seq<byte>)
    requires s.kmod.offset == |h| && s.lsposed.offset == |h| + |a| && s.targets.offset == |h| + |a| + |b|
    requires s.rules.offset == |h| + |a| + |b| + |c| && s.masks.offset == |h| + |a| + |b| + |c| + |d|
    ensures var all := h + (a + b + c + d + e);
      && all[s.kmod.offset..s.lsposed.offset] == a && all[s.lsposed.offset..s.targets.offset] == b
      && all[s.targets.offset..s.rules.offset] == c && all[s.rules.offset..s.masks.offset] == d
      && all[s.masks.offset..|all|] == e
  {
  }

  lemma BodyLength(d: Body)
    ensures |EncodeList(EncUid, d.kmod)| == |d.kmod| * UID_BYTES
    ensures |EncodeList(EncUid, d.lsposed)| == |d.lsposed| * UID_BYTES
    ensures |EncodeList(EncTarget, d.targets)| == |d.targets| * TARGET_BYTES
    ensures |EncodeList(EncRule, d.rules)| == |d.rules| * RULE_BYTES
    ensures |EncodeList(EncMask, d.masks)| == |d.masks| * MASK_BYTES
    ensures |EncBody(d)| == BodySize(d)
  {
    ListLength(EncUid, UID_BYTES, d.kmod);
    ListLength(EncUid, UID_BYTES, d.lsposed);
    ListLength(EncTarget, TARGET_BYTES, d.targets);
    ListLength(EncRule, RULE_BYTES, d.rules);
    ListLength(EncMask, MASK_BYTES, d.masks);
  }

  lemma {:induction false} UidsRead(xs: seq<u32>, b: seq<byte>)
    requires b == EncodeList(EncUid, xs)
    ensures |b| == |xs| * UID_BYTES && DecodeList(DecUid, UID_BYTES, |xs|, b) == xs
  {
    UidInverse();
    ListRoundTrip(EncUid, DecUid, UID_BYTES, xs);
  }

  lemma {:induction false} TargetsRead(xs: seq<WireTarget>, b: seq<byte>)
    requires b == EncodeList(EncTarget, xs)
    ensures |b| == |xs| * TARGET_BYTES && DecodeList(DecTarget, TARGET_BYTES, |xs|, b) == xs
  {
    TargetInverse();
    ListRoundTrip(EncTarget, DecTarget, TARGET_BYTES, xs);
  }

  lemma {:induction false} RulesRead(xs: seq<WireRule>, b: seq<byte>)
    requires b == EncodeList(EncRule, xs)
    ensures |b| == |xs| * RULE_BYTES && DecodeList(DecRule, RULE_BYTES, |xs|, b) == xs
  {
    RuleInverse();
    ListRoundTrip(EncRule, DecRule, RULE_BYTES, xs);
  }

  lemma {:induction false} MasksRead(xs: seq<WireMask>, b: seq<byte>)
    requires b == EncodeList(EncMask, xs)
    ensures |b| == |xs| * MASK_BYTES && DecodeList(DecMask, MASK_BYTES, |xs|, b) == xs
  {
    MaskInverse();
    ListRoundTrip(EncMask, DecMask, MASK_BYTES, xs);
  }

  lemma BodyReads(b: seq<byte>, s: Sections, start: nat, d: Body)
    requires Tiles(s, start, |b|)
    requires s.kmod.count == |d.kmod| && s.lsposed.count == |d.lsposed| && s.targets.count == |d.targets|
    requires s.rules.count == |d.rules| && s.masks.count == |d.masks|
    requires b[s.kmod.offset..s.lsposed.offset] == EncodeList(EncUid, d.kmod)
    requires b[s.lsposed.offset..s.targets.offset] == EncodeList(EncUid, d.lsposed)
    requires b[s.targets.offset..s.rules.offset] == EncodeList(EncTarget, d.targets)
    requires b[s.rules.offset..s.masks.offset] == EncodeList(EncRule, d.rules)
    requires b[s.masks.offset..|b|] == EncodeList(EncMask, d.masks)
    ensures DecBody(b, s, start) == d
  {
    UidsRead(d.kmod, b[s.kmod.offset..s.lsposed.offset]);
    UidsRead(d.lsposed, b[s.lsposed.offset..s.targets.offset]);
    TargetsRead(d.targets, b[s.targets.offset..s.rules.offset]);
    RulesRead(d.rules, b[s.rules.offset..s.masks.offset]);
    MasksRead(d.masks, b[s.masks.offset..|b|]);
  }

  lemma BodyRoundTrip(header: seq<byte>, d: Body)
    requires |header| + BodySize(d) <= MAX_BYTES
    ensures |EncBody(d)| == BodySize(d)
    ensures DecBody(header + EncBody(d), Placed(d, |header|), |header|) == d
  {
    BodyLength(d);
    FiveApart(Placed(d, |header|), header, EncodeList(EncUid, d.kmod), EncodeList(EncUid, d.lsposed),
              EncodeList(EncTarget, d.targets),
              EncodeList(EncRule, d.rules), EncodeList(EncMask, d.masks));
    BodyReads(header + EncBody(d), Placed(d, |header|), |header|, d);
  }
}
