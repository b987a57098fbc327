/** The rewriting of packet-info control messages in a received control buffer
    (kmod/hooks_socket.c). */
module CmsgWalk {
  import opened Types
  import opened Wrapping
  import opened PolicyWire
  import opened ByteWalk

  const SOL_IP := 0
  const IP_PKTINFO := 8
  const SOL_IPV6 := 41
  const IPV6_PKTINFO := 50
  const INFO4 := 12
  const INFO6 := 20
  const ADDRESS := 16

  /** The native layout has a 64-bit length and 8-byte alignment, the compat layout a 32-bit
      length and 4-byte alignment. */
  datatype Format = Native | Compat

  function Header(f: Format): nat { if f.Native? then 16 else 12 }

  /** The length rounded up to the alignment, wrapped to 64 bits. */
  function Aligned(n: nat, f: Format): nat { (if f.Native? then (n + 7) / 8 * 8 else (n + 3) / 4 * 4) % TWO64 }

  /** What the hook knows: which indices are active VPN interfaces, whether the UID is a
      target with an active hook, the cover index, the address classes of the kernel and the
      replacement addresses, if set. */
  datatype Env = Env(vpn: u32 -> bool, hides: bool, cover: u32, linkLocal: seq<byte> -> bool,
                     multicast: seq<byte> -> bool,
                     spoofLinkLocal: Option<seq<byte>>, spoof: Option<seq<byte>>)

  predicate EnvOk(e: Env)
  {
    (e.spoofLinkLocal.Some? ==> |e.spoofLinkLocal.value| == ADDRESS) && (e.spoof.Some? ==> |e.spoof.value| == ADDRESS)
  }

  // ------------------------------------------------------------------ reading

  function WordAt(b: seq<byte>, i: nat): u32
    requires i + 4 <= |b|
  {
    (b[i] as int) + 256 * (b[i + 1] as int) + 65536 * (b[i + 2] as int) + 16777216 * (b[i + 3] as int)
  }

  function LengthAt(b: seq<byte>, off: nat, f: Format): nat
    requires off + Header(f) <= |b|
  {
    if f.Native? then WordAt(b, off) + TWO32 * WordAt(b, off + 4) else WordAt(b, off)
  }

  function LevelAt(b: seq<byte>, off: nat, f: Format): nat
    requires off + Header(f) <= |b|
  {
    WordAt(b, off + Header(f) - 8)
  }

  function TypeAt(b: seq<byte>, off: nat, f: Format): nat
    requires off + Header(f) <= |b|
  {
    WordAt(b, off + Header(f) - 4)
  }

  function StepAt(b: seq<byte>, off: nat, f: Format): nat
    requires off + Header(f) <= |b|
  {
    Aligned(LengthAt(b, off, f), f)
  }

  /** A message that the walk accepts starts at `off`. */
  predicate MessageAt(b: seq<byte>, used: nat, off: nat, f: Format)
    requires used <= |b|
  {
    && off + Header(f) <= used
    && Header(f) <= LengthAt(b, off, f) <= used - off && LengthAt(b, off, f) <= StepAt(b, off, f)
  }

  datatype Kind = Info4 | Info6 | Other

  function KindAt(b: seq<byte>, used: nat, off: nat, f: Format): Kind
    requires used <= |b| && MessageAt(b, used, off, f)
  {
    var room := LengthAt(b, off, f) - Header(f);
    if LevelAt(b, off, f) == SOL_IP && TypeAt(b, off, f) == IP_PKTINFO && room >= INFO4 then Info4
    else if LevelAt(b, off, f) == SOL_IPV6 && TypeAt(b, off, f) == IPV6_PKTINFO && room >= INFO6 then Info6
    else Other
  }

  /** Where the interface index of a packet-info message is. */
  function IndexPlace(b: seq<byte>, used: nat, off: nat, f: Format): (i: nat)
    requires used <= |b| && MessageAt(b, used, off, f) && !KindAt(b, used, off, f).Other?
    ensures off + Header(f) <= i && i + 4 <= off + LengthAt(b, off, f) <= used
  {
    if KindAt(b, used, off, f).Info4? then off + Header(f) else off + Header(f) + ADDRESS
  }

  /** The message names an active VPN interface. */
  predicate ShowsVpn(b: seq<byte>, used: nat, off: nat, f: Format, e: Env)
    requires used <= |b| && MessageAt(b, used, off, f)
  {
    !KindAt(b, used, off, f).Other? && e.vpn(WordAt(b, IndexPlace(b, used, off, f)))
  }

  predicate Covers(e: Env) { e.hides && 0 < e.cover < TWO31 }

  // ------------------------------------------------------------------ writing

  /** The address to show instead: link-local for link-local, none for multicast. */
  function SpoofAddress(a: seq<byte>, e: Env): (r: seq<byte>)
    requires |a| == ADDRESS && EnvOk(e)
    ensures |r| == ADDRESS
  {
    if e.linkLocal(a) then (if e.spoofLinkLocal.Some? then e.spoofLinkLocal.value else a)
    else if !e.multicast(a) && e.spoof.Some? then e.spoof.value
    else a
  }

  /** vh_spoof_pktinfo4: the index comes first. */
  function SpoofInfo4(info: seq<byte>, e: Env): (r: Option<seq<byte>>)
    requires |info| == INFO4
    ensures r.Some? ==> |r.value| == INFO4
  {
    if !e.vpn(WordAt(info, 0)) || !Covers(e) then None else Some(Le32(e.cover) + info[4..])
  }

  /** vh_spoof_pktinfo6: the address comes first. */
  function SpoofInfo6(info: seq<byte>, e: Env): (r: Option<seq<byte>>)
    requires |info| == INFO6 && EnvOk(e)
    ensures r.Some? ==> |r.value| == INFO6
  {
    if !e.vpn(WordAt(info, ADDRESS)) || !Covers(e) then None else Some(SpoofAddress(info[..ADDRESS], e) + Le32(e.cover))
  }

  /** What the hook writes over the payload of a message, if anything. */
  function Edit(b: seq<byte>, used: nat, off: nat, f: Format, e: Env): (r: Option<seq<byte>>)
    requires used <= |b| && MessageAt(b, used, off, f) && EnvOk(e)
    ensures r.Some? ==> |r.value| <= LengthAt(b, off, f) - Header(f)
  {
    var at := off + Header(f);
    match KindAt(b, used, off, f)
    case Info4 => SpoofInfo4(b[at..at + INFO4], e)
    case Info6 => SpoofInfo6(b[at..at + INFO6], e)
    case Other => None
  }

  // ------------------------------------------------------------------ the walk

  /** The message at `off` as the walk sees it. */
  function Parse(b: seq<byte>, used: nat, off: nat, f: Format, e: Env): (r: Option<Found>)
    requires EnvOk(e)
    ensures r.Some? ==> FoundOk(r.value, off, |b|)
  {
    if used <= |b| && MessageAt(b, used, off, f)
    then Some(Found(off + Header(f), off + LengthAt(b, off, f), StepAt(b, off, f), Edit(b, used, off, f, e)))
    else None
  }

  function ParserOf(used: nat, f: Format, e: Env): Parser
    requires EnvOk(e)
  {
    (b: seq<byte>, off: nat) => Parse(b, used, off, f, e)
  }

  /** Whether and how far a message reaches depends on its header alone. */
  lemma SameHeader(b: seq<byte>, c: seq<byte>, used: nat, off: nat, f: Format)
    requires used <= |b| && Agree(b, c, off, off + Header(f))
    ensures MessageAt(b, used, off, f) <==> MessageAt(c, used, off, f)
    ensures off + Header(f) <= |b| ==>
              LengthAt(b, off, f) == LengthAt(c, off, f) && StepAt(b, off, f) == StepAt(c, off, f) &&
              LevelAt(b, off, f) == LevelAt(c, off, f) && TypeAt(b, off, f) == TypeAt(c, off, f)
  {
  }

  lemma SameEdit(b: seq<byte>, c: seq<byte>, used: nat, off: nat, f: Format, e: Env)
    requires used <= |b| && EnvOk(e) && MessageAt(b, used, off, f) && Agree(b, c, off, off + LengthAt(b, off, f))
    ensures MessageAt(c, used, off, f) && Edit(b, used, off, f, e) == Edit(c, used, off, f, e)
  {
    SameHeader(b, c, used, off, f);
    var at := off + Header(f);
    if KindAt(b, used, off, f).Info4? { assert b[at..at + INFO4] == c[at..at + INFO4]; }
    if KindAt(b, used, off, f).Info6? { assert b[at..at + INFO6] == c[at..at + INFO6]; }
  }

  lemma ParseLawful(b: seq<byte>, c: seq<byte>, used: nat, off: nat, f: Format, e: Env)
    requires EnvOk(e)
    ensures LawfulAt(ParserOf(used, f, e), b, c, off)
  {
    if used <= |b| && Agree(b, c, off, off + Header(f)) {
      SameHeader(b, c, used, off, f);
      if MessageAt(b, used, off, f) && Agree(b, c, off, off + LengthAt(b, off, f)) {
        SameEdit(b, c, used, off, f, e);
      }
    }
  }

  lemma Lawfully(used: nat, f: Format, e: Env)
    requires EnvOk(e)
    ensures Lawful(ParserOf(used, f, e))
  {
    forall b, c, off: nat ensures LawfulAt(ParserOf(used, f, e), b, c, off) { ParseLawful(b, c, used, off, f, e); }
  }

  /** vh_rewrite_pktinfo_cmsgs on a control area of `start` bytes of which `left` are unused. */
  method Rewrite(buf: array<byte>, start: nat, left: nat, f: Format, e: Env)
    requires start <= buf.Length && EnvOk(e)
    modifies buf
    ensures left > start ==> buf[..] == old(buf[..])
    ensures left <= start ==> buf[..] == Walk(ParserOf(start - left, f, e), old(buf[..]), start - left, 0)
  {
    if left <= start { RewriteUsed(buf, start - left, f, e, ParserOf(start - left, f, e)); }
  }

  method RewriteUsed(buf: array<byte>, used: nat, f: Format, e: Env, parse: Parser)
    requires used <= buf.Length && EnvOk(e) && parse == ParserOf(used, f, e)
    modifies buf
    ensures buf[..] == Walk(parse, old(buf[..]), used, 0)
  {
    Lawfully(used, f, e);
    WalkInPlace(parse, buf, used);
  }

  /** Exactly the messages found in the original buffer are rewritten, each from its original
      bytes; every other byte stays. */
  lemma {:induction false} RewritesMessages(b: seq<byte>, used: nat, f: Format, e: Env)
    requires EnvOk(e)
    ensures Rewritten(ParserOf(used, f, e), Walk(ParserOf(used, f, e), b, used, 0), b, used)
  {
    Lawfully(used, f, e);
    WalkRewrites(ParserOf(used, f, e), b, used);
  }

  // ------------------------------------------------------------------ what the application sees

  lemma EditWhen(b: seq<byte>, used: nat, off: nat, f: Format, e: Env)
    requires used <= |b| && MessageAt(b, used, off, f) && EnvOk(e)
    ensures Edit(b, used, off, f, e).Some? <==> ShowsVpn(b, used, off, f, e) && Covers(e)
  {
    var at := off + Header(f);
    match KindAt(b, used, off, f)
    case Info4 => WordInSlice(b, at, INFO4, 0);
    case Info6 => WordInSlice(b, at, INFO6, ADDRESS);
    case Other =>
  }

  lemma WordInSlice(b: seq<byte>, at: nat, n: nat, i: nat)
    requires at + n <= |b| && i + 4 <= n
    ensures WordAt(b[at..at + n], i) == WordAt(b, at + i)
  {
  }

  lemma WordOfLe32(b: seq<byte>, i: nat, v: u32)
    requires i + 4 <= |b| && forall k :: 0 <= k < 4 ==> b[i + k] == Le32(v)[k]
    ensures WordAt(b, i) == v
  {
    assert b[i + 0] == Le32(v)[0];
    Get32Le32(v);
  }

  lemma OverlayPair(b: seq<byte>, at: nat, address: seq<byte>, v: u32)
    requires |address| == ADDRESS && at + INFO6 <= |b|
    ensures var c := Overlay(b, at, address + Le32(v));
            WordAt(c, at + ADDRESS) == v && c[at..at + ADDRESS] == address && Agree(c, b, 0, at) &&
            Agree(c, b, at + INFO6, |b|)
  {
    WordOfLe32(Overlay(b, at, address + Le32(v)), at + ADDRESS, v);
  }

  /** An edited IPv4 message shows the cover index; nothing else of it changes. */
  lemma EditShows4(b: seq<byte>, used: nat, off: nat, f: Format, e: Env)
    requires used <= |b| && MessageAt(b, used, off, f) && EnvOk(e) && ShowsVpn(b, used, off, f, e) && Covers(e)
    requires KindAt(b, used, off, f).Info4?
    ensures Edit(b, used, off, f, e).Some? && off + Header(f) + INFO4 <= |b|
    ensures var c := Overlay(b, off + Header(f), Edit(b, used, off, f, e).value);
            WordAt(c, off + Header(f)) == e.cover && Agree(c, b, 0, off + Header(f)) &&
            Agree(c, b, off + Header(f) + 4, |b|)
  {
    var at := off + Header(f);
    assert Edit(b, used, off, f, e) == Some(Le32(e.cover) + b[at..at + INFO4][4..]);
    OverlayIndex(b, at, e.cover);
  }

  lemma OverlayIndex(b: seq<byte>, at: nat, v: u32)
    requires at + INFO4 <= |b|
    ensures var c := Overlay(b, at, Le32(v) + b[at..at + INFO4][4..]);
            WordAt(c, at) == v && Agree(c, b, 0, at) && Agree(c, b, at + 4, |b|)
  {
    WordOfLe32(Overlay(b, at, Le32(v) + b[at..at + INFO4][4..]), at, v);
  }

  lemma EditIs6(b: seq<byte>, used: nat, off: nat, f: Format, e: Env)
    requires used <= |b| && MessageAt(b, used, off, f) && EnvOk(e) && ShowsVpn(b, used, off, f, e) && Covers(e)
    requires KindAt(b, used, off, f).Info6?
    ensures off + Header(f) + INFO6 <= |b|
    ensures var at := off + Header(f);
            Edit(b, used, off, f, e) == Some(SpoofAddress(b[at..at + ADDRESS], e) + Le32(e.cover))
  {
    var at := off + Header(f);
    assert b[at..at + INFO6][..ADDRESS] == b[at..at + ADDRESS];
  }

  /** An edited IPv6 message shows the cover index and the replacement address. */
  lemma EditShows6(b: seq<byte>, used: nat, off: nat, f: Format, e: Env)
    requires used <= |b| && MessageAt(b, used, off, f) && EnvOk(e) && ShowsVpn(b, used, off, f, e) && Covers(e)
    requires KindAt(b, used, off, f).Info6?
    ensures Edit(b, used, off, f, e).Some? && off + Header(f) + INFO6 <= |b|
    ensures var c, at := Overlay(b, off + Header(f), Edit(b, used, off, f, e).value), off + Header(f);
            WordAt(c, at + ADDRESS) == e.cover && c[at..at + ADDRESS] == SpoofAddress(b[at..at + ADDRESS], e) &&
            Agree(c, b, 0, at) && Agree(c, b, at + INFO6, |b|)
  {
    var at := off + Header(f);
    EditIs6(b, used, off, f, e);
    OverlayPair(b, at, SpoofAddress(b[at..at + ADDRESS], e), e.cover);
  }

  lemma ParseSettles(b: seq<byte>, c: seq<byte>, used: nat, off: nat, f: Format, e: Env)
    requires EnvOk(e) && !e.vpn(e.cover)
    ensures SettlesAt(ParserOf(used, f, e), b, c, off)
  {
    if used <= |b| && |c| == |b| && MessageAt(b, used, off, f) {
      var r := Parse(b, used, off, f, e).value;
      var w := Written(b, r);
      if Agree(c, w, off, r.to) {
        WrittenSettles(b, used, off, f, e);
        SameEdit(w, c, used, off, f, e);
      }
    }
  }

  /** An edited message is still the same message and needs no edit. */
  lemma WrittenSettles(b: seq<byte>, used: nat, off: nat, f: Format, e: Env)
    requires EnvOk(e) && !e.vpn(e.cover) && used <= |b| && MessageAt(b, used, off, f)
    ensures var w := Written(b, Parse(b, used, off, f, e).value);
            MessageAt(w, used, off, f) && LengthAt(w, off, f) == LengthAt(b, off, f) && Edit(w, used, off, f, e).None?
  {
    var w := Written(b, Parse(b, used, off, f, e).value);
    SameKind(b, w, used, off, f);
    if Edit(b, used, off, f, e).Some? {
      EditWhen(b, used, off, f, e);
      NewIndex(b, used, off, f, e);
      NotShown(w, used, off, f, e);
    }
  }

  lemma SameKind(b: seq<byte>, c: seq<byte>, used: nat, off: nat, f: Format)
    requires used <= |b| && Agree(b, c, off, off + Header(f)) && MessageAt(b, used, off, f)
    ensures MessageAt(c, used, off, f) && LengthAt(c, off, f) == LengthAt(b, off, f)
    ensures KindAt(c, used, off, f) == KindAt(b, used, off, f)
  {
    SameHeader(b, c, used, off, f);
  }

  lemma NotShown(c: seq<byte>, used: nat, off: nat, f: Format, e: Env)
    requires EnvOk(e) && !e.vpn(e.cover) && used <= |c| && MessageAt(c, used, off, f) && !KindAt(c, used, off, f).Other?
    requires WordAt(c, IndexPlace(c, used, off, f)) == e.cover
    ensures Edit(c, used, off, f, e).None?
  {
    EditWhen(c, used, off, f, e);
  }

  /** The index of an edited message, wherever it is, becomes the cover index. */
  lemma NewIndex(b: seq<byte>, used: nat, off: nat, f: Format, e: Env)
    requires EnvOk(e) && used <= |b| && MessageAt(b, used, off, f) && ShowsVpn(b, used, off, f, e) && Covers(e)
    ensures WordAt(Written(b, Parse(b, used, off, f, e).value), IndexPlace(b, used, off, f)) == e.cover
  {
    if KindAt(b, used, off, f).Info4? { EditShows4(b, used, off, f, e); } else { EditShows6(b, used, off, f, e); }
  }

  /** With a cover interface that is not a VPN, the rewritten buffer has the same messages,
      none of them is left to hide, and rewriting it again changes nothing. */
  lemma {:induction false} HidesAndSettles(b: seq<byte>, used: nat, f: Format, e: Env)
    requires EnvOk(e) && !e.vpn(e.cover)
    ensures var parse := ParserOf(used, f, e);
            var c := Walk(parse, b, used, 0);
            && SameExtents(Records(parse, b, used, 0), Records(parse, c, used, 0))
            && NoEdits(Records(parse, c, used, 0)) && Walk(parse, c, used, 0) == c
  {
    var parse := ParserOf(used, f, e);
    Lawfully(used, f, e);
    assert Settles(parse) by {
      forall b, c, off: nat ensures SettlesAt(parse, b, c, off) { ParseSettles(b, c, used, off, f, e); }
    }
    WalkTwice(parse, b, used);
    WalkRewrites(parse, b, used);
    SameRecords(parse, Walk(parse, b, used, 0), b, used, 0);
  }

  /** No message that an application finds by walking the rewritten buffer names a VPN
      interface. */
  lemma {:induction false} NoVpnShown(b: seq<byte>, used: nat, f: Format, e: Env, off: nat)
    requires EnvOk(e) && Covers(e) && !e.vpn(e.cover)
    ensures var parse := ParserOf(used, f, e);
            var c := Walk(parse, b, used, 0);
            Visited(parse, c, used, off) ==> used <= |c| && MessageAt(c, used, off, f) && !ShowsVpn(c, used, off, f, e)
  {
    var parse := ParserOf(used, f, e);
    var c := Walk(parse, b, used, 0);
    HidesAndSettles(b, used, f, e);
    if Visited(parse, c, used, off) {
      assert parse(c, off) == Parse(c, used, off, f, e);
      EditWhen(c, used, off, f, e);
    }
  }

  /** A byte that the walk changes lies in the used part of the buffer, in a message met there
      that names an active VPN interface while a cover is in use: in the four bytes of the
      index or, for IPv6, in the address and the index behind it. */
  lemma OnlyVpnChanges(b: seq<byte>, used: nat, f: Format, e: Env, p: nat) returns (off: nat)
    requires EnvOk(e) && used <= |b| && p < |b| && Walk(ParserOf(used, f, e), b, used, 0)[p] != b[p]
    ensures p < used && Visited(ParserOf(used, f, e), b, used, off)
    ensures MessageAt(b, used, off, f) && ShowsVpn(b, used, off, f, e) && Covers(e)
    ensures var at := off + Header(f);
            at <= p < at + (if KindAt(b, used, off, f).Info4? then 4 else INFO6)
  {
    var parse := ParserOf(used, f, e);
    RewritesMessages(b, used, f, e);
    var i := ChangesAreEdits(Walk(parse, b, used, 0), b, Records(parse, b, used, 0), p);
    off := RecordIsParsed(parse, b, used, 0, i);
    assert parse(b, off) == Parse(b, used, off, f, e);
    EditWhen(b, used, off, f, e);
    InEdit(b, used, off, f, e, p, Walk(parse, b, used, 0));
  }

  lemma InEdit(b: seq<byte>, used: nat, off: nat, f: Format, e: Env, p: nat, c: seq<byte>)
    requires EnvOk(e) && used <= |b| && MessageAt(b, used, off, f) && ShowsVpn(b, used, off, f, e) && Covers(e)
    requires p < |b| == |c| && off + Header(f) <= p < off + LengthAt(b, off, f)
    requires c[p] == Written(b, Parse(b, used, off, f, e).value)[p] && c[p] != b[p]
    ensures var at := off + Header(f);
            p < used && at <= p < at + (if KindAt(b, used, off, f).Info4? then 4 else INFO6)
  {
    var w := Written(b, Parse(b, used, off, f, e).value);
    if KindAt(b, used, off, f).Info4? {
      BehindIndex(b, used, off, f, e);
      BytesBefore(w, b, off + Header(f) + 4, p);
    } else {
      BehindAddress(b, used, off, f, e);
      BytesBefore(w, b, off + Header(f) + INFO6, p);
    }
  }

  lemma BehindIndex(b: seq<byte>, used: nat, off: nat, f: Format, e: Env)
    requires EnvOk(e) && used <= |b| && MessageAt(b, used, off, f) && ShowsVpn(b, used, off, f, e) && Covers(e)
    requires KindAt(b, used, off, f).Info4?
    ensures Agree(Written(b, Parse(b, used, off, f, e).value), b, off + Header(f) + 4, |b|)
  {
    EditShows4(b, used, off, f, e);
  }

  lemma BehindAddress(b: seq<byte>, used: nat, off: nat, f: Format, e: Env)
    requires EnvOk(e) && used <= |b| && MessageAt(b, used, off, f) && ShowsVpn(b, used, off, f, e) && Covers(e)
    requires KindAt(b, used, off, f).Info6?
    ensures Agree(Written(b, Parse(b, used, off, f, e).value), b, off + Header(f) + INFO6, |b|)
  {
    EditShows6(b, used, off, f, e);
  }

  lemma BytesBefore(w: seq<byte>, b: seq<byte>, end: nat, p: nat)
    requires Agree(w, b, end, |b|) && p < |b| && w[p] != b[p]
    ensures p < end
  {
  }
}
