/** Interface counters as other processes see them (kpatch/security/vpnhide/hook_fs.c): the
    rows of VPN interfaces read zero and their traffic moves to the cover interface. */
module TrafficViews {
  import opened Types
  import opened Wrapping
  import opened Sums

  const MAX_BATCH := 4096

  /** The four counters of a row, as stored. */
  datatype Value = Value(rxBytes: u64, rxPackets: u64, txBytes: u64, txPackets: u64)

  const ZERO := Value(0, 0, 0, 0)

  function Field(v: Value, k: nat): u64
  {
    if k == 0 then v.rxBytes else if k == 1 then v.rxPackets else if k == 2 then v.txBytes else v.txPackets
  }

  /** sv_add, with 64-bit wrap-around. */
  function Added(a: Value, b: Value): Value
  {
    Value((a.rxBytes + b.rxBytes) % TWO64, (a.rxPackets + b.rxPackets) % TWO64,
          (a.txBytes + b.txBytes) % TWO64, (a.txPackets + b.txPackets) % TWO64)
  }

  /** An interface map, the active VPN indices, the cover index (0 if none) and whether the
      map stores packets before bytes. */
  datatype View = View(rows: map<u32, Value>, vpns: seq<u32>, cover: u32, packetsFirst: bool)

  /** Some byte counter is not zero. */
  predicate HasBytes(v: Value, packetsFirst: bool)
  {
    if packetsFirst then v.rxPackets != 0 || v.txPackets != 0 else v.rxBytes != 0 || v.txBytes != 0
  }

  // ------------------------------------------------------------------ the VPN total

  function RowOf(s: View, i: u32): Value { if i in s.rows then s.rows[i] else ZERO }

  ghost function VpnTotal(s: View, n: nat): Value
    requires n <= |s.vpns|
  {
    if n == 0 then ZERO
    else if s.vpns[n - 1] in s.rows then Added(VpnTotal(s, n - 1), s.rows[s.vpns[n - 1]])
    else VpnTotal(s, n - 1)
  }

  /** vh_collect_vpn_traffic_sum */
  method CollectVpnTotal(s: View) returns (sum: Value)
    ensures sum == VpnTotal(s, |s.vpns|)
  {
    sum := ZERO;
    for i := 0 to |s.vpns|
      invariant sum == VpnTotal(s, i)
    {
      if s.vpns[i] in s.rows { sum := Added(sum, s.rows[s.vpns[i]]); }
    }
  }

  ghost predicate Launders(s: View) { s.cover != 0 && HasBytes(VpnTotal(s, |s.vpns|), s.packetsFirst) }

  // ------------------------------------------------------------------ one row

  /** What a lookup of one interface shows. */
  ghost function Shown(s: View, i: u32): Value
    requires i in s.rows
  {
    if i in s.vpns then ZERO
    else if i == s.cover && Launders(s) then Added(s.rows[i], VpnTotal(s, |s.vpns|))
    else s.rows[i]
  }

  /** vpnhide_bpf_lookup_elem */
  method LookupElem(s: View, i: u32) returns (v: Value)
    requires i in s.rows
    ensures v == Shown(s, i)
  {
    v := s.rows[i];
    if i in s.vpns { return ZERO; }
    if s.cover != 0 && i == s.cover {
      var sum := CollectVpnTotal(s);
      if HasBytes(sum, s.packetsFirst) { v := Added(v, sum); }
    }
  }

  // ------------------------------------------------------------------ a batch

  /** A page of the map: distinct keys with their rows. */
  ghost predicate IsPage(s: View, keys: seq<u32>, vals: seq<Value>)
  {
    && NoRepeat(keys) && |vals| == |keys|
    && forall i :: 0 <= i < |keys| ==> keys[i] in s.rows && vals[i] == s.rows[keys[i]]
  }

  function Cleared(s: View, i: u32): Value
    requires i in s.rows
  {
    if i in s.vpns then ZERO else s.rows[i]
  }

  /** What a batch shows of one interface. */
  ghost function BatchShown(s: View, i: u32): Value
    requires i in s.rows
  {
    if i == s.cover && Launders(s) then Added(Cleared(s, i), VpnTotal(s, |s.vpns|)) else Cleared(s, i)
  }

  method ClearVpnRows(s: View, keys: seq<u32>, vals: array<Value>)
    requires IsPage(s, keys, vals[..])
    modifies vals
    ensures forall i :: 0 <= i < |keys| ==> vals[i] == Cleared(s, keys[i])
  {
    for i := 0 to |keys|
      invariant forall k :: 0 <= k < i ==> vals[k] == Cleared(s, keys[k])
      invariant forall k :: i <= k < |keys| ==> vals[k] == s.rows[keys[k]]
    {
      if keys[i] in s.vpns { vals[i] := ZERO; }
    }
  }

  /** vpnhide_bpf_lookup_batch: hidden rows are cleared, then the total is added to the first
      row of the cover interface; larger batches are left as they are. */
  method LookupBatch(s: View, keys: seq<u32>, vals: array<Value>)
    requires IsPage(s, keys, vals[..])
    modifies vals
    ensures |keys| > MAX_BATCH ==> vals[..] == old(vals[..])
    ensures |keys| <= MAX_BATCH ==> forall i :: 0 <= i < |keys| ==> vals[i] == BatchShown(s, keys[i])
  {
    if |keys| == 0 || |keys| > MAX_BATCH { return; }
    ClearVpnRows(s, keys, vals);
    var sum := CollectVpnTotal(s);
    if s.cover == 0 || !HasBytes(sum, s.packetsFirst) { return; }
    var at := 0;
    while at < |keys| && keys[at] != s.cover
      invariant at <= |keys| && forall k :: 0 <= k < at ==> keys[k] != s.cover
    {
      at := at + 1;
    }
    if at < |keys| { vals[at] := Added(vals[at], sum); }
  }

  /** The two views of a row agree except on a cover that is itself a VPN interface with
      traffic to hide. */
  lemma ViewsAgree(s: View, i: u32)
    requires i in s.rows
    ensures BatchShown(s, i) == Shown(s, i) <==> !(i == s.cover && i in s.vpns && Launders(s))
  {
    AddedToZero(VpnTotal(s, |s.vpns|));
  }

  lemma AddedToZero(v: Value)
    ensures Added(ZERO, v) == v
  {
  }

  // ------------------------------------------------------------------ conservation

  ghost function Real(s: View, k: nat): u32 -> nat { (i: u32) => Field(RowOf(s, i), k) }

  ghost function Seen(s: View, k: nat): u32 -> nat { (i: u32) => if i in s.rows then Field(Shown(s, i), k) else 0 }

  /** The VPN part of a row. */
  ghost function Hidden(s: View, k: nat, n: nat): u32 -> nat
    requires n <= |s.vpns|
  {
    (i: u32) => if i in s.vpns[..n] then Field(RowOf(s, i), k) else 0
  }

  lemma AddedField(a: Value, b: Value, k: nat)
    ensures Field(Added(a, b), k) == (Field(a, k) + Field(b, k)) % TWO64
  {
  }

  /** The keys list every row once. */
  ghost predicate Lists(keys: seq<u32>, s: View) { NoRepeat(keys) && forall i :: i in keys <==> i in s.rows }

  lemma {:induction false} HiddenStep(s: View, keys: seq<u32>, k: nat, n: nat)
    requires Lists(keys, s) && NoRepeat(s.vpns) && 0 < n <= |s.vpns|
    ensures var v := s.vpns[n - 1];
            SumOver(keys, Hidden(s, k, n)) ==
            SumOver(keys, Hidden(s, k, n - 1)) + (if v in s.rows then Field(s.rows[v], k) else 0)
  {
    var v := s.vpns[n - 1];
    assert s.vpns[..n] == s.vpns[..n - 1] + [v] && v !in s.vpns[..n - 1];
    SumStep(keys, Hidden(s, k, n - 1), Hidden(s, k, n), v, Field(RowOf(s, v), k));
  }

  /** The collected total is the sum of the rows that get hidden. */
  lemma {:induction false} TotalIsHidden(s: View, keys: seq<u32>, k: nat, n: nat)
    requires Lists(keys, s) && NoRepeat(s.vpns) && n <= |s.vpns|
    ensures Field(VpnTotal(s, n), k) == SumOver(keys, Hidden(s, k, n)) % TWO64
  {
    if n == 0 {
      SumZero(keys, Hidden(s, k, 0));
    } else {
      TotalIsHidden(s, keys, k, n - 1);
      HiddenStep(s, keys, k, n);
      var v := s.vpns[n - 1];
      if v in s.rows {
        AddedField(VpnTotal(s, n - 1), s.rows[v], k);
        WrapAdd(SumOver(keys, Hidden(s, k, n - 1)), Field(s.rows[v], k));
      }
    }
  }

  ghost function Kept(s: View, k: nat): u32 -> nat { (i: u32) => if i in s.vpns then 0 else Field(RowOf(s, i), k) }

  ghost function Nothing(): u32 -> nat { (i: u32) => 0 }

  lemma {:induction false} RealSplits(s: View, keys: seq<u32>, k: nat)
    requires Lists(keys, s)
    ensures SumOver(keys, Real(s, k)) == SumOver(keys, Kept(s, k)) + SumOver(keys, Hidden(s, k, |s.vpns|))
  {
    assert s.vpns[..|s.vpns|] == s.vpns;
    SumAdds(keys, Kept(s, k), Hidden(s, k, |s.vpns|), Nothing(), Real(s, k));
    SumZero(keys, Nothing());
  }

  /** The sum over the map as it is shown, when the hidden traffic moves to the cover row. */
  lemma {:induction false} SeenLaundered(s: View, keys: seq<u32>, k: nat)
    requires Lists(keys, s) && s.cover !in s.vpns && Launders(s) && s.cover in s.rows
    ensures SumOver(keys, Seen(s, k)) % TWO64 == (SumOver(keys, Kept(s, k)) + Field(VpnTotal(s, |s.vpns|), k)) % TWO64
  {
    AddedField(s.rows[s.cover], VpnTotal(s, |s.vpns|), k);
    forall i | i in keys && i != s.cover ensures Kept(s, k)(i) == Seen(s, k)(i) { OtherRows(s, i, k); }
    SumShift(keys, Kept(s, k), Seen(s, k), s.cover);
    Unwrap(SumOver(keys, Seen(s, k)), SumOver(keys, Kept(s, k)), Field(s.rows[s.cover], k),
           Field(VpnTotal(s, |s.vpns|), k));
  }

  lemma OtherRows(s: View, i: u32, k: nat)
    requires i in s.rows && i != s.cover
    ensures Kept(s, k)(i) == Seen(s, k)(i)
  {
  }

  lemma Unwrap(seen: nat, kept: nat, own: nat, moved: nat)
    requires seen + own == kept + (own + moved) % TWO64
    ensures seen % TWO64 == (kept + moved) % TWO64
  {
    var q := (own + moved) / TWO64;
    assert kept + moved == TWO64 * q + seen;
    WrapShift(q, seen);
  }

  lemma {:induction false} SeenPlain(s: View, keys: seq<u32>, k: nat)
    requires Lists(keys, s) && !(Launders(s) && s.cover in s.rows && s.cover !in s.vpns)
    ensures SumOver(keys, Seen(s, k)) == SumOver(keys, Kept(s, k))
  {
    SumSame(keys, Seen(s, k), Kept(s, k));
  }

  /** Over the whole map every counter is conserved modulo 2^64 exactly when the hidden
      traffic can move to the row of a cover that is not hidden itself, or there is none. */
  lemma {:induction false} Conserved(s: View, keys: seq<u32>, k: nat)
    requires Lists(keys, s) && NoRepeat(s.vpns)
    ensures SumOver(keys, Seen(s, k)) % TWO64 == SumOver(keys, Real(s, k)) % TWO64 <==>
            (Launders(s) && s.cover in s.rows && s.cover !in s.vpns) || Field(VpnTotal(s, |s.vpns|), k) == 0
  {
    var hidden, kept := SumOver(keys, Hidden(s, k, |s.vpns|)), SumOver(keys, Kept(s, k));
    RealSplits(s, keys, k);
    if Launders(s) && s.cover in s.rows && s.cover !in s.vpns {
      SeenLaundered(s, keys, k);
    } else {
      SeenPlain(s, keys, k);
    }
    TotalIsHidden(s, keys, k, |s.vpns|);
    WrapAdd(hidden, kept);
    SameResidue(kept, hidden);
  }

  ghost function BatchSeen(s: View, k: nat): u32 -> nat
  {
    (i: u32) => if i in s.rows then Field(BatchShown(s, i), k) else 0
  }

  lemma ClearedField(s: View, i: u32, k: nat)
    requires i in s.rows
    ensures Kept(s, k)(i) == Field(Cleared(s, i), k)
    ensures i != s.cover || !Launders(s) ==> BatchSeen(s, k)(i) == Kept(s, k)(i)
  {
  }

  lemma {:induction false} BatchLaundered(s: View, keys: seq<u32>, k: nat)
    requires Lists(keys, s) && Launders(s) && s.cover in s.rows
    ensures SumOver(keys, BatchSeen(s, k)) % TWO64 ==
            (SumOver(keys, Kept(s, k)) + Field(VpnTotal(s, |s.vpns|), k)) % TWO64
  {
    ClearedField(s, s.cover, k);
    AddedField(Cleared(s, s.cover), VpnTotal(s, |s.vpns|), k);
    forall i | i in keys && i != s.cover ensures Kept(s, k)(i) == BatchSeen(s, k)(i) { ClearedField(s, i, k); }
    SumShift(keys, Kept(s, k), BatchSeen(s, k), s.cover);
    Unwrap(SumOver(keys, BatchSeen(s, k)), SumOver(keys, Kept(s, k)), Field(Cleared(s, s.cover), k),
           Field(VpnTotal(s, |s.vpns|), k));
  }

  /** The batches of the whole map conserve a counter on fewer conditions: they move the hidden
      traffic to the row of the cover also when the cover is a VPN interface itself. */
  lemma {:induction false} BatchConserved(s: View, keys: seq<u32>, k: nat)
    requires Lists(keys, s) && NoRepeat(s.vpns)
    ensures SumOver(keys, BatchSeen(s, k)) % TWO64 == SumOver(keys, Real(s, k)) % TWO64 <==>
            (Launders(s) && s.cover in s.rows) || Field(VpnTotal(s, |s.vpns|), k) == 0
  {
    var hidden, kept := SumOver(keys, Hidden(s, k, |s.vpns|)), SumOver(keys, Kept(s, k));
    RealSplits(s, keys, k);
    if Launders(s) && s.cover in s.rows {
      BatchLaundered(s, keys, k);
    } else {
      forall i | i in keys ensures BatchSeen(s, k)(i) == Kept(s, k)(i) { ClearedField(s, i, k); }
      SumSame(keys, BatchSeen(s, k), Kept(s, k));
    }
    TotalIsHidden(s, keys, k, |s.vpns|);
    WrapAdd(hidden, kept);
    SameResidue(kept, hidden);
  }

  lemma SameResidue(a: nat, b: nat)
    ensures a % TWO64 == (a + b) % TWO64 <==> b % TWO64 == 0
  {
    var q := b / TWO64;
    assert a + b == TWO64 * q + (a + b % TWO64);
    WrapShift(q, a + b % TWO64);
  }
}
