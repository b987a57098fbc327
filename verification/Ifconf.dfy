/** Hiding interfaces from SIOCGIFCONF (kmod/hooks_netlink.c): the records of the caller's
    buffer are compacted in place and everything behind them is cleared. */
module Ifconf {
  import opened Types
  import opened Wrapping

  /** The size of a record, and the last byte of the interface name at its start. */
  const RECORD := 40
  const NAME_END := 15

  type Bytes = seq<byte>

  function RecordAt(b: Bytes, i: nat): (r: Bytes)
    requires RECORD * (i + 1) <= |b|
    ensures |r| == RECORD
  {
    b[RECORD * i..RECORD * (i + 1)]
  }

  /** The record as the filter reads it: with a terminated name. */
  function Terminated(r: Bytes): (t: Bytes)
    requires |r| == RECORD
    ensures |t| == RECORD
  {
    r[NAME_END := 0]
  }

  predicate Hidden(b: Bytes, i: nat, vpn: Bytes -> bool)
    requires RECORD * (i + 1) <= |b|
  {
    vpn(Terminated(RecordAt(b, i)))
  }

  /** The records from `i` up to `n` that are not hidden; those that have moved have their
      names terminated. */
  function Compacted(b: Bytes, i: nat, n: nat, moved: bool, vpn: Bytes -> bool): Bytes
    requires i <= n && RECORD * n <= |b|
    decreases n - i
  {
    if i == n then [] else
    var r := RecordAt(b, i);
    if Hidden(b, i, vpn) then Compacted(b, i + 1, n, true, vpn)
    else (if moved then Terminated(r) else r) + Compacted(b, i + 1, n, moved, vpn)
  }

  /** The first `i` records are read and `out` is written. */
  ghost predicate Progress(now: Bytes, was: Bytes, out: Bytes, i: nat)
  {
    && |now| == |was| && |out| <= RECORD * i <= |was|
    && (forall q :: 0 <= q < |out| ==> now[q] == out[q])
    && (forall q :: RECORD * i <= q < |was| ==> now[q] == was[q])
  }

  method CopyRecord(buf: array<byte>, at: nat, r: Bytes)
    requires at + |r| <= buf.Length
    modifies buf
    ensures forall q :: at <= q < at + |r| ==> buf[q] == r[q - at]
    ensures forall q :: 0 <= q < at || at + |r| <= q < buf.Length ==> buf[q] == old(buf[q])
  {
    for k := 0 to |r|
      invariant forall q :: at <= q < at + k ==> buf[q] == r[q - at]
      invariant forall q :: 0 <= q < at || at + k <= q < buf.Length ==> buf[q] == old(buf[q])
    {
      buf[at + k] := r[k];
    }
  }

  lemma SameRecord(now: Bytes, was: Bytes, out: Bytes, i: nat)
    requires Progress(now, was, out, i) && RECORD * (i + 1) <= |was|
    ensures RecordAt(now, i) == RecordAt(was, i)
  {
  }

  lemma StaysInPlace(now: Bytes, was: Bytes, out: Bytes, i: nat)
    requires Progress(now, was, out, i) && |out| == RECORD * i && RECORD * (i + 1) <= |was|
    ensures Progress(now, was, out + RecordAt(was, i), i + 1)
  {
  }

  /** The record that is read next goes behind the output. */
  method Keep(buf: array<byte>, ghost was: Bytes, ghost out: Bytes, dst: nat, i: nat, r: Bytes)
    requires Progress(buf[..], was, out, i) && |out| == RECORD * dst && dst < i && RECORD * (i + 1) <= |was| &&
             |r| == RECORD
    modifies buf
    ensures Progress(buf[..], was, out + r, i + 1)
  {
    CopyRecord(buf, RECORD * dst, r);
  }

  /** filter_ifconf_buf */
  method FilterRecords(buf: array<byte>, n: nat, vpn: Bytes -> bool) returns (kept: nat)
    requires RECORD * n <= buf.Length
    modifies buf
    ensures kept <= n && RECORD * kept == |Compacted(old(buf[..]), 0, n, false, vpn)|
    ensures forall q :: 0 <= q < RECORD * kept ==> buf[q] == Compacted(old(buf[..]), 0, n, false, vpn)[q]
    ensures forall q :: RECORD * n <= q < buf.Length ==> buf[q] == old(buf[q])
  {
    kept := 0;
    ghost var was, out := buf[..], [];
    ghost var all := Compacted(was, 0, n, false, vpn);
    for i := 0 to n
      invariant kept <= i && |out| == RECORD * kept && Progress(buf[..], was, out, i)
      invariant out + Compacted(was, i, n, kept != i, vpn) == all
    {
      SameRecord(buf[..], was, out, i);
      var r := Terminated(RecordAt(buf[..], i));
      if vpn(r) { continue; }
      ghost var rest := Compacted(was, i + 1, n, kept != i, vpn);
      if kept != i {
        Regroup(out, r, rest);
        Keep(buf, was, out, kept, i, r);
        out := out + r;
      } else {
        Regroup(out, RecordAt(was, i), rest);
        StaysInPlace(buf[..], was, out, i);
        out := out + RecordAt(was, i);
      }
      kept := kept + 1;
    }
  }

  /** sock_ioctl_ret on a buffer that the caller passed with its length; `len` is the length
      that the kernel returned. */
  method FilterIfconf(buf: array<byte>, len: int, vpn: Bytes -> bool) returns (newLen: int)
    modifies buf
    ensures len < 0 ==> newLen == len && buf[..] == old(buf[..])
    ensures len >= 0 ==>
      var used := if len > buf.Length then buf.Length else len;
      var shown := Compacted(old(buf[..]), 0, used / RECORD, false, vpn);
      if |shown| == RECORD * (used / RECORD)
      then newLen == len && Ends(buf[..], old(buf[..])[..used]) else newLen == |shown| && Ends(buf[..], shown)
  {
    if len < 0 { return len; }
    var used := if len > buf.Length then buf.Length else len;
    var n := used / RECORD;
    var kept := FilterRecords(buf, n, vpn);
    ghost var shown := Compacted(old(buf[..]), 0, n, false, vpn);
    if kept == n {
      AllKept(old(buf[..]), 0, n, false, vpn);
      ClearTail(buf, used);
      newLen := len;
    } else {
      ClearTail(buf, RECORD * kept);
      newLen := RECORD * kept;
    }
  }

  /** The buffer holds `front` and zeros behind it. */
  ghost predicate Ends(now: Bytes, front: Bytes)
  {
    && |front| <= |now| && (forall q :: 0 <= q < |front| ==> now[q] == front[q])
    && (forall q :: |front| <= q < |now| ==> now[q] == 0)
  }

  /** clear_ifconf_tail */
  method ClearTail(buf: array<byte>, from: nat)
    requires from <= buf.Length
    modifies buf
    ensures forall q :: 0 <= q < from ==> buf[q] == old(buf[q])
    ensures forall q :: from <= q < buf.Length ==> buf[q] == 0
  {
    for k := from to buf.Length
      invariant forall q :: 0 <= q < from ==> buf[q] == old(buf[q])
      invariant forall q :: from <= q < k ==> buf[q] == 0
    {
      buf[k] := 0;
    }
  }

  // ------------------------------------------------------------------ what the caller sees

  lemma {:induction false} CompactedSize(b: Bytes, i: nat, n: nat, moved: bool, vpn: Bytes -> bool)
    requires i <= n && RECORD * n <= |b|
    ensures |Compacted(b, i, n, moved, vpn)| <= RECORD * (n - i) && |Compacted(b, i, n, moved, vpn)| % RECORD == 0
    decreases n - i
  {
    if i < n { CompactedSize(b, i + 1, n, moved || Hidden(b, i, vpn), vpn); }
  }

  /** Nothing is dropped only if nothing is hidden, and then nothing is touched. */
  lemma {:induction false} AllKept(b: Bytes, i: nat, n: nat, moved: bool, vpn: Bytes -> bool)
    requires i <= n && RECORD * n <= |b| && |Compacted(b, i, n, moved, vpn)| == RECORD * (n - i)
    ensures forall k :: i <= k < n ==> !Hidden(b, k, vpn)
    ensures !moved ==> Compacted(b, i, n, moved, vpn) == b[RECORD * i..RECORD * n]
    decreases n - i
  {
    if i < n {
      CompactedSize(b, i + 1, n, true, vpn);
      AllKept(b, i + 1, n, moved, vpn);
      assert RecordAt(b, i) + b[RECORD * (i + 1)..RECORD * n] == b[RECORD * i..RECORD * n];
    }
  }

  /** No record that is shown is one to hide. */
  lemma {:induction false} ShownRecord(b: Bytes, i: nat, n: nat, moved: bool, vpn: Bytes -> bool, k: nat)
    requires i <= n && RECORD * n <= |b| && RECORD * (k + 1) <= |Compacted(b, i, n, moved, vpn)|
    ensures !Hidden(Compacted(b, i, n, moved, vpn), k, vpn)
    decreases n - i
  {
    var r := RecordAt(b, i);
    if Hidden(b, i, vpn) {
      ShownRecord(b, i + 1, n, true, vpn, k);
    } else {
      var head, rest := if moved then Terminated(r) else r, Compacted(b, i + 1, n, moved, vpn);
      if k == 0 {
        assert RecordAt(head + rest, 0) == head;
        assert Terminated(Terminated(r)) == Terminated(r);
      } else {
        ShownRecord(b, i + 1, n, moved, vpn, k - 1);
        assert RecordAt(head + rest, k) == RecordAt(rest, k - 1);
      }
    }
  }

  function Records(b: Bytes, i: nat, n: nat): seq<Bytes>
    requires i <= n && RECORD * n <= |b|
    decreases n - i
  {
    if i == n then [] else [RecordAt(b, i)] + Records(b, i + 1, n)
  }

  function Visible(rs: seq<Bytes>, vpn: Bytes -> bool): Bytes
  {
    if rs == [] then [] else (if vpn(rs[0]) then [] else rs[0]) + Visible(rs[1..], vpn)
  }

  /** For names that the kernel terminated, the records shown are those not hidden, byte for
      byte and in order. */
  lemma {:induction false} ShownExactly(b: Bytes, i: nat, n: nat, moved: bool, vpn: Bytes -> bool)
    requires i <= n && RECORD * n <= |b| && forall k :: i <= k < n ==> Terminated(RecordAt(b, k)) == RecordAt(b, k)
    ensures Compacted(b, i, n, moved, vpn) == Visible(Records(b, i, n), vpn)
    decreases n - i
  {
    if i < n {
      ShownExactly(b, i + 1, n, moved || Hidden(b, i, vpn), vpn);
      assert Records(b, i, n)[1..] == Records(b, i + 1, n);
    }
  }
}
