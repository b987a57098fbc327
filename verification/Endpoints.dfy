/** Local endpoints of applications, and the list of them that the daemon builds from
    socket dumps (daemon/owned_ports.c). */
module Endpoints {
  import opened Types
  import opened Sorting

  const AF_INET: byte := 2
  const AF_INET6: byte := 10
  const TCP: byte := 0
  const UDP: byte := 1
  const MAX_ENTRIES := 65536

  /** Addresses are four words as the kernel stores them; on the little-endian targets the
      first octet of a word is its low byte. */
  datatype Endpoint = Endpoint(uid: u32, port: u16, protocol: byte, family: byte, a0: u32, a1: u32, a2: u32, a3: u32)

  const NO_ENDPOINT := Endpoint(0, 0, 0, 0, 0, 0, 0, 0)

  const LOOPBACK6: u32 := 0x0100_0000
  const MAPPED: u32 := 0xFFFF_0000

  predicate Loopback4(word: u32) { word % 256 == 127 }

  /** owned_port_is_local */
  predicate Local(e: Endpoint)
  {
    if e.family == AF_INET then e.a1 == 0 && e.a2 == 0 && e.a3 == 0 && (e.a0 == 0 || Loopback4(e.a0))
    else e.family == AF_INET6 && e.a0 == 0 && e.a1 == 0 && e.a2 == 0 && (e.a3 == 0 || e.a3 == LOOPBACK6)
  }

  function Wildcard(e: Endpoint): Endpoint { e.(a0 := 0, a1 := 0, a2 := 0, a3 := 0) }

  /** The kernel's check of each entry of an update. */
  predicate Acceptable(e: Endpoint) { e.uid != 0 && e.port != 0 && e.protocol <= UDP && Local(e) }

  // ------------------------------------------------------------------ the daemon's list

  /** A socket of a dump; `tcp` tells which dump it came from. */
  datatype Socket = Socket(tcp: bool, family: byte, uid: u32, sport: u16, dport: u16, s0: u32, s1: u32, s2: u32,
                           s3: u32)

  /** diag_local_endpoint: the family and address to report, if the socket is local. */
  function LocalOf(k: Socket): Option<Endpoint>
  {
    var e := Endpoint(k.uid, k.sport, if k.tcp then TCP else UDP, AF_INET, 0, 0, 0, 0);
    if k.family == AF_INET then
      if k.s0 != 0 && !Loopback4(k.s0) then None else Some(e.(a0 := k.s0))
    else if k.family == AF_INET6 then
      if k.s0 == 0 && k.s1 == 0 && k.s2 == 0 && (k.s3 == 0 || k.s3 == LOOPBACK6) then
        Some(e.(family := AF_INET6, a3 := k.s3))
      else if k.s0 == 0 && k.s1 == 0 && k.s2 == MAPPED && Loopback4(k.s3) then Some(e.(a0 := k.s3))
      else None
    else None
  }

  /** What a socket contributes: connected UDP clients, core UIDs and port zero do not. */
  function Reported(k: Socket): Option<Endpoint>
  {
    if !k.tcp && k.dport != 0 then None
    else if k.uid < 10000 || k.sport == 0 then None
    else LocalOf(k)
  }

  function AllReported(ks: seq<Socket>): seq<Endpoint>
  {
    if ks == [] then [] else
    var rest, last := AllReported(ks[..|ks| - 1]), Reported(ks[|ks| - 1]);
    if last.Some? then rest + [last.value] else rest
  }

  /** What owned_port_compare looks at, in turn: the fields, and then the address bytes as
      memcmp does. */
  function Fields(e: Endpoint): (fs: seq<u32>)
    ensures |fs| == 20
  {
    [e.uid, e.port, e.protocol, e.family] + Octets(e.a0) + Octets(e.a1) + Octets(e.a2) + Octets(e.a3)
  }

  function Octets(w: u32): (os: seq<u32>)
    ensures |os| == 4
  {
    [w % 256, w / 256 % 256, w / 256 / 256 % 256, w / 256 / 256 / 256]
  }

  /** The first difference decides. */
  ghost predicate Before(a: seq<u32>, b: seq<u32>)
  {
    exists k :: 0 <= k < |a| && k < |b| && a[..k] == b[..k] && a[k] < b[k]
  }

  function Number(fs: seq<u32>): nat
  {
    if fs == [] then 0 else 0x1_0000_0000 * Number(fs[..|fs| - 1]) + fs[|fs| - 1]
  }

  function Key(e: Endpoint): int { Number(Fields(e)) }

  lemma {:induction false} NumberOrders(a: seq<u32>, b: seq<u32>)
    requires |a| == |b|
    ensures Number(a) < Number(b) <==> Before(a, b)
    ensures Number(a) == Number(b) <==> a == b
    decreases |a|
  {
    if a != [] {
      var n := |a| - 1;
      NumberOrders(a[..n], b[..n]);
      BeforeLast(a[..n], b[..n], a[n], b[n]);
      assert a == a[..n] + [a[n]] && b == b[..n] + [b[n]];
    }
  }

  lemma BeforeLast(a: seq<u32>, b: seq<u32>, x: u32, y: u32)
    requires |a| == |b|
    ensures Before(a + [x], b + [y]) <==> Before(a, b) || (a == b && x < y)
  {
    var c, d := a + [x], b + [y];
    assert c[..|a|] == a && d[..|a|] == b;
    forall k | 0 <= k < |a| ensures c[..k] == a[..k] && d[..k] == b[..k] {
    }
    if Before(a, b) {
      var k :| 0 <= k < |a| && a[..k] == b[..k] && a[k] < b[k];
      assert c[..k] == d[..k] && c[k] < d[k];
    }
    if a == b && x < y { assert c[..|a|] == d[..|a|] && c[|a|] < d[|a|]; }
  }

  /** The number orders entries as owned_port_compare does, and only equal entries compare
      equal. */
  lemma KeyOrders(a: Endpoint, b: Endpoint)
    ensures Key(a) < Key(b) <==> Before(Fields(a), Fields(b))
    ensures Key(a) == Key(b) <==> a == b
  {
    NumberOrders(Fields(a), Fields(b));
    if Fields(a) == Fields(b) { FieldsInjective(a, b); }
  }

  lemma FieldsInjective(a: Endpoint, b: Endpoint)
    requires Fields(a) == Fields(b)
    ensures a == b
  {
    var f, g := Fields(a), Fields(b);
    assert f[0] == g[0] && f[1] == g[1] && f[2] == g[2] && f[3] == g[3];
    assert Octets(a.a0) == f[4..8] && Octets(b.a0) == g[4..8];
    assert Octets(a.a1) == f[8..12] && Octets(b.a1) == g[8..12];
    assert Octets(a.a2) == f[12..16] && Octets(b.a2) == g[12..16];
    assert Octets(a.a3) == f[16..20] && Octets(b.a3) == g[16..20];
    OctetsInjective(a.a0, b.a0);
    OctetsInjective(a.a1, b.a1);
    OctetsInjective(a.a2, b.a2);
    OctetsInjective(a.a3, b.a3);
  }

  lemma OctetsInjective(v: u32, w: u32)
    ensures Octets(v) == Octets(w) ==> v == w
  {
    if Octets(v) == Octets(w) {
      SameQuotient(v / 256 / 256, w / 256 / 256, Octets(v)[2], Octets(w)[2]);
      SameQuotient(v / 256, w / 256, Octets(v)[1], Octets(w)[1]);
      SameQuotient(v, w, Octets(v)[0], Octets(w)[0]);
    }
  }

  lemma SameQuotient(v: nat, w: nat, x: nat, y: nat)
    requires x == v % 256 && y == w % 256 && x == y && v / 256 == w / 256
    ensures v == w
  {
  }

  lemma KeepStrict(out: seq<Endpoint>, e: Endpoint)
    requires StrictBy(out, Key) && (out != [] ==> Key(out[|out| - 1]) <= Key(e) && out[|out| - 1] != e)
    ensures StrictBy(out + [e], Key)
  {
    if out != [] && Key(out[|out| - 1]) == Key(e) {
      KeyOrders(out[|out| - 1], e);
    }
  }

  /** The out_count loop: drop an entry that equals the last one kept. */
  method Dedupe(xs: seq<Endpoint>) returns (out: seq<Endpoint>)
    requires SortedBy(xs, Key)
    ensures StrictBy(out, Key) && |out| <= |xs|
    ensures forall e :: e in out <==> e in xs
  {
    out := [];
    for i := 0 to |xs|
      invariant StrictBy(out, Key) && |out| <= i
      invariant forall e :: e in out <==> e in xs[..i]
      invariant i > 0 ==> out != [] && out[|out| - 1] == xs[i - 1]
    {
      assert xs[..i + 1] == xs[..i] + [xs[i]];
      if |out| == 0 || out[|out| - 1] != xs[i] {
        assert i > 0 ==> Key(xs[i - 1]) <= Key(xs[i]);
        KeepStrict(out, xs[i]);
        out := out + [xs[i]];
      }
    }
    assert xs[..|xs|] == xs;
  }

  lemma ReportedAcceptable(k: Socket)
    ensures Reported(k).Some? ==> Acceptable(Reported(k).value) && Reported(k).value.uid >= 10000
  {
  }

  /** The list that refresh_owned_ports sends: it fails only when more endpoints are found
      than the kernel takes; otherwise every entry passes the kernel's check, none occurs
      twice, and the list holds exactly the reported endpoints. */
  method BuildList(ks: seq<Socket>) returns (r: Result<seq<Endpoint>>)
    ensures r.Ok? <==> |AllReported(ks)| <= MAX_ENTRIES
    ensures r.Ok? ==> |r.value| <= MAX_ENTRIES && StrictBy(r.value, Key)
    ensures r.Ok? ==> forall e :: e in r.value <==> e in AllReported(ks)
    ensures r.Ok? ==> forall e :: e in r.value ==> Acceptable(e) && e.uid >= 10000
  {
    var list := [];
    for i := 0 to |ks|
      invariant list == AllReported(ks[..i]) && |list| <= MAX_ENTRIES
      invariant forall e :: e in list ==> Acceptable(e) && e.uid >= 10000
    {
      assert ks[..i + 1][..i] == ks[..i];
      ReportedAcceptable(ks[i]);
      var e := Reported(ks[i]);
      if e.Some? {
        if |list| >= MAX_ENTRIES {
          ReportedGrows(ks, i + 1);
          return Err;
        }
        list := list + [e.value];
      }
    }
    assert ks[..|ks|] == ks;
    var sorted := SortBy(list, Key);
    PermutesMembers(sorted, list);
    var out := Dedupe(sorted);
    r := Ok(out);
  }

  lemma {:induction false} ReportedGrows(ks: seq<Socket>, k: nat)
    requires k <= |ks|
    ensures |AllReported(ks[..k])| <= |AllReported(ks)|
    decreases |ks| - k
  {
    if k < |ks| {
      assert ks[..k + 1][..k] == ks[..k];
      ReportedGrows(ks, k + 1);
    } else {
      assert ks[..k] == ks;
    }
  }
}
