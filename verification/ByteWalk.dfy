/** Walking a buffer of records and rewriting payloads on the way, for any record format
    whose records say themselves how far they reach. */
module ByteWalk {
  import opened Types

  /** A record as the walk sees it: its payload, what to write at the start of the payload,
      and the distance to the next record. */
  datatype Found = Found(from: nat, to: nat, step: nat, edit: Option<seq<byte>>)

  type Parser = (seq<byte>, nat) -> Option<Found>

  ghost predicate Agree(b: seq<byte>, c: seq<byte>, from: nat, to: nat)
  {
    |b| == |c| && forall p :: from <= p < to && p < |b| ==> b[p] == c[p]
  }

  predicate FoundOk(r: Found, off: nat, n: nat)
  {
    off < r.from <= r.to <= n && r.to <= off + r.step && (r.edit.Some? ==> r.from + |r.edit.value| <= r.to)
  }

  /** A record lies within its buffer, and a parse depends on the bytes of the record alone:
      on its header for its extent, on the payload too for the edit. */
  ghost predicate LawfulAt(parse: Parser, b: seq<byte>, c: seq<byte>, off: nat)
  {
    match parse(b, off)
    case None => Agree(b, c, off, |b|) ==> parse(c, off).None?
    case Some(r) =>
      && FoundOk(r, off, |b|)
      && (Agree(b, c, off, r.to) ==> parse(c, off) == Some(r))
      && (Agree(b, c, off, r.from) ==> SameExtent(Some(r), parse(c, off)))
  }

  ghost predicate Lawful(parse: Parser) { forall b, c, off :: LawfulAt(parse, b, c, off) }

  predicate SameExtent(r: Option<Found>, s: Option<Found>)
  {
    r.Some? && s.Some? && r.value.(edit := None) == s.value.(edit := None)
  }

  /** `b` with `data` written at `i`. */
  function Overlay(b: seq<byte>, i: nat, data: seq<byte>): (r: seq<byte>)
    requires i + |data| <= |b|
    ensures |r| == |b| && forall p :: 0 <= p < |b| ==> r[p] == if i <= p < i + |data| then data[p - i] else b[p]
  {
    seq(|b|, p requires 0 <= p < |b| => if i <= p < i + |data| then data[p - i] else b[p])
  }

  method CopyIn(buf: array<byte>, i: nat, data: seq<byte>)
    requires i + |data| <= buf.Length
    modifies buf
    ensures buf[..] == Overlay(old(buf[..]), i, data)
  {
    for k := 0 to |data|
      invariant forall p :: 0 <= p < buf.Length ==> buf[p] == if i <= p < i + k then data[p - i] else old(buf[p])
    {
      buf[i + k] := data[k];
    }
  }

  function Written(b: seq<byte>, r: Found): (c: seq<byte>)
    ensures |c| == |b|
  {
    if r.edit.Some? && r.from + |r.edit.value| <= |b| then Overlay(b, r.from, r.edit.value) else b
  }

  // ------------------------------------------------------------------ the records of a buffer

  /** The records met from `off` on, within the first `n` bytes. */
  ghost function Records(parse: Parser, b: seq<byte>, n: nat, off: nat): (rs: seq<Found>)
    decreases n - off
  {
    match parse(b, off)
    case None => []
    case Some(r) => if 0 < r.step && off + r.step <= n then [r] + Records(parse, b, n, off + r.step) else [r]
  }

  ghost predicate Inside(rs: seq<Found>, p: int) { exists i :: 0 <= i < |rs| && rs[i].from <= p < rs[i].to }

  /** Every record is written as from the original bytes; every byte outside is as it was. */
  ghost predicate Applied(now: seq<byte>, was: seq<byte>, rs: seq<Found>)
  {
    && |now| == |was| && (forall i :: 0 <= i < |rs| ==> rs[i].to <= |was|)
    && (forall i, p :: 0 <= i < |rs| && rs[i].from <= p < rs[i].to ==> now[p] == Written(was, rs[i])[p])
    && (forall p :: 0 <= p < |was| ==> now[p] == was[p] || Inside(rs, p))
  }

  /** Records one behind the other, from `lo` on. */
  ghost predicate Ordered(rs: seq<Found>, lo: nat, n: nat)
  {
    && (forall i :: 0 <= i < |rs| ==> lo <= rs[i].from && Inner(rs[i], n))
    && (forall i, j :: 0 <= i < j < |rs| ==> rs[i].to <= rs[j].from)
  }

  predicate Inner(r: Found, n: nat) { r.from <= r.to <= n && (r.edit.Some? ==> r.from + |r.edit.value| <= r.to) }

  function WriteAll(b: seq<byte>, rs: seq<Found>): (c: seq<byte>)
    ensures |c| == |b|
    decreases rs
  {
    if rs == [] then b else WriteAll(Written(b, rs[0]), rs[1..])
  }

  lemma {:induction false} WriteLast(b: seq<byte>, rs: seq<Found>, x: Found)
    ensures WriteAll(b, rs + [x]) == Written(WriteAll(b, rs), x)
    decreases rs
  {
    if rs == [] {
      assert rs + [x] == [x] && [x][1..] == [];
    } else {
      assert (rs + [x])[1..] == rs[1..] + [x];
      WriteLast(Written(b, rs[0]), rs[1..], x);
    }
  }

  /** One more record, behind all that are written. */
  lemma ApplyNext(now: seq<byte>, was: seq<byte>, rs: seq<Found>, r: Found)
    requires Applied(now, was, rs) && Inner(r, |was|) && Agree(now, was, r.from, |was|)
    requires forall i :: 0 <= i < |rs| ==> rs[i].to <= r.from
    ensures Applied(Written(now, r), was, rs + [r]) && Agree(Written(now, r), was, r.to, |was|)
  {
    var next, all := Written(now, r), rs + [r];
    forall p | 0 <= p < |was| && next[p] != was[p] ensures Inside(all, p) {
      if Inside(rs, p) {
        var i :| 0 <= i < |rs| && rs[i].from <= p < rs[i].to;
        assert all[i] == rs[i];
      } else {
        assert all[|rs|] == r;
      }
    }
  }

  /** Writing records in order writes each from the original bytes. */
  lemma {:induction false} WriteAllApplies(b: seq<byte>, rs: seq<Found>, end: nat)
    requires Ordered(rs, 0, end) && end <= |b|
    ensures Applied(WriteAll(b, rs), b, rs) && Agree(WriteAll(b, rs), b, end, |b|)
    decreases |rs|
  {
    if rs != [] {
      var n := |rs| - 1;
      var most, last := rs[..n], rs[n];
      assert rs == most + [last];
      WriteAllApplies(b, most, last.from);
      WriteLast(b, most, last);
      ApplyNext(WriteAll(b, most), b, most, last);
    }
  }

  /** The buffer after walking on from `off`. */
  ghost function Walk(parse: Parser, b: seq<byte>, n: nat, off: nat): (c: seq<byte>)
    ensures |c| == |b|
    decreases n - off
  {
    match parse(b, off)
    case None => b
    case Some(r) =>
      if 0 < r.step && off + r.step <= n then Walk(parse, Written(b, r), n, off + r.step) else Written(b, r)
  }

  /** The walk, one record at a time. */
  lemma WalkStep(parse: Parser, b: seq<byte>, n: nat, off: nat)
    ensures match parse(b, off)
            case None => Walk(parse, b, n, off) == b
            case Some(r) =>
              if 0 < r.step && off + r.step <= n
              then Walk(parse, b, n, off) == Walk(parse, Written(b, r), n, off + r.step)
              else Walk(parse, b, n, off) == Written(b, r)
  {
  }

  /** The loop over a buffer that is rewritten in place. */
  method WalkInPlace(parse: Parser, buf: array<byte>, n: nat)
    requires Lawful(parse) && n <= buf.Length
    modifies buf
    ensures buf[..] == Walk(parse, old(buf[..]), n, 0)
  {
    var off: nat := 0;
    ghost var want := Walk(parse, buf[..], n, 0);
    while true
      invariant Walk(parse, buf[..], n, off) == want
      decreases n - off
    {
      var next := StepInPlace(parse, buf, n, off);
      if next.None? { break; }
      off := next.value;
    }
  }

  /** One round of the loop: the offset of the next record, if the walk goes on. */
  method StepInPlace(parse: Parser, buf: array<byte>, n: nat, off: nat) returns (next: Option<nat>)
    requires Lawful(parse) && n <= buf.Length
    modifies buf
    ensures next.None? ==> buf[..] == Walk(parse, old(buf[..]), n, off)
    ensures next.Some? ==> off < next.value <= n
    ensures next.Some? ==> Walk(parse, buf[..], n, next.value) == Walk(parse, old(buf[..]), n, off)
  {
    WalkStep(parse, buf[..], n, off);
    FoundFits(parse, buf[..], off);
    var r := parse(buf[..], off);
    if r.None? { return None; }
    WriteFound(buf, r.value, off);
    if r.value.step == 0 || off + r.value.step > n { return None; }
    return Some(off + r.value.step);
  }

  lemma FoundFits(parse: Parser, b: seq<byte>, off: nat)
    requires Lawful(parse)
    ensures parse(b, off).Some? ==> FoundOk(parse(b, off).value, off, |b|)
  {
    assert LawfulAt(parse, b, b, off);
  }

  method WriteFound(buf: array<byte>, r: Found, ghost off: nat)
    requires FoundOk(r, off, buf.Length)
    modifies buf
    ensures buf[..] == Written(old(buf[..]), r)
  {
    if r.edit.Some? { CopyIn(buf, r.from, r.edit.value); }
  }

  /** The records from `off` on lie one behind the other. */
  lemma {:induction false} RecordsOrdered(parse: Parser, b: seq<byte>, n: nat, off: nat)
    requires Lawful(parse)
    ensures Ordered(Records(parse, b, n, off), off, |b|)
    ensures forall i :: 0 <= i < |Records(parse, b, n, off)| ==> off < Records(parse, b, n, off)[i].from
    decreases n - off
  {
    assert LawfulAt(parse, b, b, off);
    match parse(b, off)
    case None =>
    case Some(r) => if 0 < r.step && off + r.step <= n { RecordsOrdered(parse, b, n, off + r.step); }
  }

  lemma WrittenAgrees(now: seq<byte>, was: seq<byte>, off: nat, x: Found)
    requires FoundOk(x, off, |was|) && Agree(now, was, off, |was|)
    ensures Agree(Written(now, x), was, off + x.step, |was|)
  {
  }

  /** Walking while writing meets the records of the original buffer. */
  lemma {:induction false} WalkWritesAll(parse: Parser, now: seq<byte>, was: seq<byte>, n: nat, off: nat)
    requires Lawful(parse) && Agree(now, was, off, |was|)
    ensures Walk(parse, now, n, off) == WriteAll(now, Records(parse, was, n, off))
    decreases n - off
  {
    assert LawfulAt(parse, was, now, off);
    if parse(was, off).Some? {
      var x := parse(was, off).value;
      if 0 < x.step && off + x.step <= n {
        WrittenAgrees(now, was, off, x);
        WalkWritesAll(parse, Written(now, x), was, n, off + x.step);
        WriteHead(now, x, Records(parse, was, n, off + x.step));
      } else {
        WriteHead(now, x, []);
      }
    }
  }

  lemma {:induction false} WriteHead(b: seq<byte>, x: Found, rest: seq<Found>)
    ensures WriteAll(b, [x] + rest) == WriteAll(Written(b, x), rest)
    ensures WriteAll(b, [x]) == Written(b, x)
  {
    assert ([x] + rest)[1..] == rest && [x][1..] == [];
  }

  /** Exactly the records of the original buffer are rewritten. */
  ghost predicate Rewritten(parse: Parser, now: seq<byte>, was: seq<byte>, n: nat)
  {
    Applied(now, was, Records(parse, was, n, 0))
  }

  lemma {:induction false} WalkRewrites(parse: Parser, b: seq<byte>, n: nat)
    requires Lawful(parse)
    ensures Rewritten(parse, Walk(parse, b, n, 0), b, n)
  {
    WalkWritesAll(parse, b, b, n, 0);
    RecordsOrdered(parse, b, n, 0);
    WriteAllApplies(b, Records(parse, b, n, 0), |b|);
  }

  // ------------------------------------------------------------------ after the walk

  ghost predicate ChangedOnlyIn(now: seq<byte>, was: seq<byte>, off: nat, rs: seq<Found>)
  {
    |now| == |was| && forall p :: off <= p < |was| ==> now[p] == was[p] || Inside(rs, p)
  }

  /** The walk from the start meets the record at this position. */
  ghost predicate Visited(parse: Parser, b: seq<byte>, n: nat, at: nat)
  {
    parse(b, at).Some? && parse(b, at).value in Records(parse, b, n, 0)
  }

  /** Every record of the walk is the parse of some position. */
  lemma {:induction false} RecordIsParsed(parse: Parser, b: seq<byte>, n: nat, off: nat, i: nat) returns (at: nat)
    requires i < |Records(parse, b, n, off)|
    ensures parse(b, at) == Some(Records(parse, b, n, off)[i])
    decreases n - off
  {
    if i == 0 { return off; }
    at := RecordIsParsed(parse, b, n, off + parse(b, off).value.step, i - 1);
  }

  ghost predicate SameExtents(rs: seq<Found>, ss: seq<Found>)
  {
    |rs| == |ss| && forall i :: 0 <= i < |rs| ==> SameExtent(Some(rs[i]), Some(ss[i]))
  }

  lemma {:induction false} RecordsAhead(parse: Parser, b: seq<byte>, n: nat, off: nat)
    requires Lawful(parse)
    ensures forall i :: 0 <= i < |Records(parse, b, n, off)| ==> off < Records(parse, b, n, off)[i].from
  {
    RecordsOrdered(parse, b, n, off);
  }

  lemma FirstKept(parse: Parser, now: seq<byte>, was: seq<byte>, off: nat, x: Found, rest: seq<Found>)
    requires Lawful(parse) && parse(was, off) == Some(x) && ChangedOnlyIn(now, was, off, [x] + rest)
    requires forall i :: 0 <= i < |rest| ==> off + x.step < rest[i].from
    ensures SameExtent(Some(x), parse(now, off)) && ChangedOnlyIn(now, was, off + x.step, rest)
  {
    assert LawfulAt(parse, was, now, off);
    HeaderKept(now, was, off, x, rest);
  }

  /** The rewritten buffer has the same records at the same places. */
  lemma {:induction false} SameRecords(parse: Parser, now: seq<byte>, was: seq<byte>, n: nat, off: nat)
    requires Lawful(parse) && ChangedOnlyIn(now, was, off, Records(parse, was, n, off))
    ensures SameExtents(Records(parse, was, n, off), Records(parse, now, n, off))
    decreases n - off
  {
    match parse(was, off)
    case None =>
      assert LawfulAt(parse, was, now, off);
      assert Agree(was, now, off, |was|);
    case Some(x) =>
      if 0 < x.step && off + x.step <= n {
        RecordsAhead(parse, was, n, off + x.step);
        FirstKept(parse, now, was, off, x, Records(parse, was, n, off + x.step));
        SameRecords(parse, now, was, n, off + x.step);
      } else {
        assert [x] + [] == [x];
        FirstKept(parse, now, was, off, x, []);
      }
  }

  lemma HeaderKept(now: seq<byte>, was: seq<byte>, off: nat, x: Found, rest: seq<Found>)
    requires FoundOk(x, off, |was|) && ChangedOnlyIn(now, was, off, [x] + rest)
    requires forall i :: 0 <= i < |rest| ==> off + x.step < rest[i].from
    ensures Agree(was, now, off, x.from) && ChangedOnlyIn(now, was, off + x.step, rest)
  {
    var all := [x] + rest;
    forall p | off <= p < |was| && now[p] != was[p] ensures x.from <= p && (p >= off + x.step ==> Inside(rest, p)) {
      var i :| 0 <= i < |all| && all[i].from <= p < all[i].to;
      if i > 0 { assert all[i] == rest[i - 1]; }
    }
  }

  /** A byte changes only where a record of the original buffer is edited. */
  lemma ChangesAreEdits(now: seq<byte>, was: seq<byte>, rs: seq<Found>, p: nat) returns (i: nat)
    requires Applied(now, was, rs) && p < |was| && now[p] != was[p]
    ensures i < |rs| && rs[i].edit.Some? && rs[i].from <= p < rs[i].from + |rs[i].edit.value|
  {
    i :| 0 <= i < |rs| && rs[i].from <= p < rs[i].to;
  }

  /** An edited record needs no further edit. */
  ghost predicate SettlesAt(parse: Parser, b: seq<byte>, c: seq<byte>, off: nat)
  {
    match parse(b, off)
    case None => true
    case Some(r) => |b| == |c| && Agree(c, Written(b, r), off, r.to) ==>
      parse(c, off).Some? && parse(c, off).value.edit.None?
  }

  ghost predicate Settles(parse: Parser) { forall b, c, off :: SettlesAt(parse, b, c, off) }

  ghost predicate AppliedIn(now: seq<byte>, was: seq<byte>, rs: seq<Found>)
  {
    && |now| == |was|
    && forall i, p :: 0 <= i < |rs| && rs[i].from <= p < rs[i].to && p < |was| ==> now[p] == Written(was, rs[i])[p]
  }

  ghost predicate NoEdits(rs: seq<Found>) { forall i :: 0 <= i < |rs| ==> rs[i].edit.None? }

  lemma FirstSettles(parse: Parser, now: seq<byte>, was: seq<byte>, off: nat, x: Found, rest: seq<Found>)
    requires Lawful(parse) && Settles(parse) && parse(was, off) == Some(x)
    requires ChangedOnlyIn(now, was, off, [x] + rest) && AppliedIn(now, was, [x] + rest)
    requires forall i :: 0 <= i < |rest| ==> off + x.step < rest[i].from
    ensures SameExtent(Some(x), parse(now, off)) && parse(now, off).value.edit.None?
    ensures ChangedOnlyIn(now, was, off + x.step, rest) && AppliedIn(now, was, rest)
  {
    assert LawfulAt(parse, was, now, off) && SettlesAt(parse, was, now, off);
    HeaderKept(now, was, off, x, rest);
    PayloadApplied(now, was, off, x, rest);
  }

  /** After the walk no record is left to edit. */
  lemma {:induction false} NothingLeft(parse: Parser, now: seq<byte>, was: seq<byte>, n: nat, off: nat)
    requires Lawful(parse) && Settles(parse)
    requires ChangedOnlyIn(now, was, off, Records(parse, was, n, off)) &&
             AppliedIn(now, was, Records(parse, was, n, off))
    ensures NoEdits(Records(parse, now, n, off))
    decreases n - off
  {
    match parse(was, off)
    case None =>
      assert LawfulAt(parse, was, now, off);
      assert Agree(was, now, off, |was|);
    case Some(x) =>
      if 0 < x.step && off + x.step <= n {
        RecordsAhead(parse, was, n, off + x.step);
        FirstSettles(parse, now, was, off, x, Records(parse, was, n, off + x.step));
        NothingLeft(parse, now, was, n, off + x.step);
      } else {
        assert [x] + [] == [x];
        FirstSettles(parse, now, was, off, x, []);
      }
  }

  lemma PayloadApplied(now: seq<byte>, was: seq<byte>, off: nat, x: Found, rest: seq<Found>)
    requires FoundOk(x, off, |was|) && AppliedIn(now, was, [x] + rest) && Agree(was, now, off, x.from)
    ensures Agree(now, Written(was, x), off, x.to) && AppliedIn(now, was, rest)
  {
    var all := [x] + rest;
    assert all[0] == x;
    assert forall i :: 0 <= i < |rest| ==> all[i + 1] == rest[i];
  }

  lemma {:induction false} NoEditsNoChange(parse: Parser, b: seq<byte>, n: nat, off: nat)
    requires NoEdits(Records(parse, b, n, off))
    ensures Walk(parse, b, n, off) == b
    decreases n - off
  {
    match parse(b, off)
    case None =>
    case Some(r) =>
      var rs := Records(parse, b, n, off);
      assert rs[0] == r;
      if 0 < r.step && off + r.step <= n {
        assert rs[1..] == Records(parse, b, n, off + r.step);
        assert forall i :: 0 <= i < |rs| - 1 ==> rs[1..][i] == rs[i + 1];
        NoEditsNoChange(parse, b, n, off + r.step);
      }
  }

  /** Walking twice is walking once, and the second walk finds nothing to edit. */
  lemma {:induction false} WalkTwice(parse: Parser, b: seq<byte>, n: nat)
    requires Lawful(parse) && Settles(parse)
    ensures NoEdits(Records(parse, Walk(parse, b, n, 0), n, 0))
    ensures Walk(parse, Walk(parse, b, n, 0), n, 0) == Walk(parse, b, n, 0)
  {
    var c := Walk(parse, b, n, 0);
    WalkRewrites(parse, b, n);
    NothingLeft(parse, c, b, n, 0);
    NoEditsNoChange(parse, c, n, 0);
  }
}
