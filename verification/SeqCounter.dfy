/** The sequence counter of one pending-port slot (kmod/main.c): a writer that holds the
    lock, a publication that clears the slot under the same lock, and a lock-free reader,
    interleaved word by word.

    A slot has nine fields: the eight of the owner record and the expiry.  `writes` (writes
    begun), `epoch` (clears begun), `readWrites`, `readEpoch`, `readClean` and `completed` are
    history variables that no step looks at. */
module SeqCounter {
  const WIDTH := 0x1_0000_0000
  const FIELDS := 9

  type Record = seq<int>

  /** What the holder of the lock is doing: nothing, a write, or the memset of a publication,
      which stores zero to the counter and to every field. */
  datatype Writer = Idle | Writing(value: Record, stored: set<int>) | Clearing(counter: bool, cleared: set<int>)

  datatype Reader = Unread | Skipped | Reading(before: nat, got: Record) | Accepted(got: Record) | Rejected

  datatype State = State(seqno: nat, data: Record, writer: Writer, reader: Reader,
                         writes: nat, epoch: nat, readWrites: nat, readEpoch: nat, readClean: bool,
                         completed: seq<Record>)

  /** What the writer, a publication and the reader can do next, one load or store each. */
  datatype Step =
    | Begin(value: Record) | Store(i: nat) | Finish
    | ClearBegin | ClearCounter | Clear(i: nat) | ClearEnd
    | ReadSeq | ReadField | ReadAgain

  /** A record with one value in every field. */
  function Same(v: int): Record { [v, v, v, v, v, v, v, v, v] }

  ghost const INIT: State := State(0, Same(0), Idle, Unread, 0, 0, 0, 0, true, [Same(0)])

  ghost predicate AllStored(stored: set<int>) { forall i :: 0 <= i < FIELDS ==> i in stored }

  ghost predicate Enabled(s: State, step: Step)
  {
    match step
    case Begin(v) => s.writer.Idle? && |v| == FIELDS
    case Store(i) => s.writer.Writing? && i < FIELDS
    case Finish => s.writer.Writing? && AllStored(s.writer.stored)
    case ClearBegin => s.writer.Idle?
    case ClearCounter => s.writer.Clearing?
    case Clear(i) => s.writer.Clearing? && i < FIELDS
    case ClearEnd => s.writer.Clearing? && s.writer.counter && AllStored(s.writer.cleared)
    case ReadSeq => s.reader.Unread?
    case ReadField => s.reader.Reading? && |s.reader.got| < FIELDS
    case ReadAgain => s.reader.Reading? && |s.reader.got| == FIELDS
  }

  /** A slot and a record to write have all their fields. */
  ghost predicate Shape(s: State) { |s.data| == FIELDS && (s.writer.Writing? ==> |s.writer.value| == FIELDS) }

  ghost function Apply(s: State, step: Step): (t: State)
    requires Shape(s) && Enabled(s, step)
    ensures Shape(t)
  {
    match step
    case Begin(v) => s.(seqno := (s.seqno + 1) % WIDTH, writer := Writing(v, {}), writes := s.writes + 1)
    case Store(i) => s.(data := s.data[i := s.writer.value[i]],
                        writer := Writing(s.writer.value, s.writer.stored + {i}))
    case Finish => s.(seqno := (s.seqno + 1) % WIDTH, writer := Idle, completed := s.completed + [s.writer.value])
    case ClearBegin => s.(writer := Clearing(false, {}), epoch := s.epoch + 1)
    case ClearCounter => s.(seqno := 0, writer := Clearing(true, s.writer.cleared))
    case Clear(i) => s.(data := s.data[i := 0], writer := Clearing(s.writer.counter, s.writer.cleared + {i}))
    case ClearEnd => s.(writer := Idle, writes := 0, completed := s.completed + [Same(0)])
    case ReadSeq =>
      if s.seqno % 2 == 1 then s.(reader := Skipped)
      else s.(reader := Reading(s.seqno, []), readWrites := s.writes, readEpoch := s.epoch,
              readClean := !s.writer.Clearing?)
    case ReadField => s.(reader := Reading(s.reader.before, s.reader.got + [s.data[|s.reader.got|]]))
    case ReadAgain =>
      s.(reader := if s.seqno == s.reader.before && s.seqno % 2 == 0 then Accepted(s.reader.got) else Rejected)
  }

  /** How often the counter has moved since it was last zero. */
  ghost function Moves(s: State): int { 2 * s.writes - (if s.writer.Writing? then 1 else 0) }

  /** No publication clears the slot at the reader's first look or since. */
  ghost predicate Undisturbed(s: State) { s.readClean && s.readEpoch == s.epoch }

  ghost predicate Inv(s: State)
  {
    && Shape(s) && s.completed != []
    && (!s.writer.Clearing? ==> s.seqno == Moves(s) % WIDTH)
    && (s.writer.Idle? ==> s.data == s.completed[|s.completed| - 1])
    && (s.writer.Writing? ==> s.writes > 0)
    && (s.writer.Writing? ==> forall i :: 0 <= i < FIELDS && i in s.writer.stored ==> s.data[i] == s.writer.value[i])
    && (s.writer.Clearing? ==>
          && (s.writer.counter ==> s.seqno == 0)
          && (forall i :: 0 <= i < FIELDS && i in s.writer.cleared ==> s.data[i] == 0))
    && (s.reader.Reading? ==> |s.reader.got| <= FIELDS && s.readEpoch <= s.epoch)
    && (s.reader.Reading? && Undisturbed(s) ==>
          && !s.writer.Clearing? && s.reader.before == 2 * s.readWrites % WIDTH && s.readWrites <= s.writes
          && (s.readWrites == s.writes ==> s.writer.Idle? && s.reader.got == s.data[..|s.reader.got|]))
  }

  /** How many writes have begun since the reader's first look, without a publication in
      between. */
  ghost function Rewrites(s: State): int { s.writes - s.readWrites }

  lemma NextSequence(t: nat)
    ensures (t % WIDTH + 1) % WIDTH == (t + 1) % WIDTH
  {
    var q, r := t / WIDTH, t % WIDTH;
    if r + 1 == WIDTH { assert t + 1 == WIDTH * (q + 1); } else { assert t + 1 == WIDTH * q + (r + 1); }
  }

  lemma SequenceParity(t: nat)
    ensures t % WIDTH % 2 == t % 2
  {
    assert t == 2 * (0x8000_0000 * (t / WIDTH)) + t % WIDTH;
  }

  lemma FinishKeepsInv(s: State)
    requires Inv(s) && Enabled(s, Finish)
    ensures Inv(Apply(s, Finish))
  {
    NextSequence(Moves(s));
    assert s.data == s.writer.value;
  }

  lemma BeginKeepsInv(s: State, v: Record)
    requires Inv(s) && Enabled(s, Begin(v))
    ensures Inv(Apply(s, Begin(v)))
  {
    NextSequence(Moves(s));
  }

  lemma StoreKeepsInv(s: State, i: nat)
    requires Inv(s) && Enabled(s, Store(i))
    ensures Inv(Apply(s, Store(i)))
  {
  }

  lemma ClearKeepsInv(s: State, step: Step)
    requires Inv(s) && Enabled(s, step) && (step.ClearBegin? || step.ClearCounter? || step.Clear?)
    ensures Inv(Apply(s, step))
  {
  }

  lemma ClearEndKeepsInv(s: State)
    requires Inv(s) && Enabled(s, ClearEnd)
    ensures Inv(Apply(s, ClearEnd))
  {
    assert s.data == Same(0);
  }

  lemma ReaderKeepsInv(s: State, step: Step)
    requires Inv(s) && Enabled(s, step) && (step.ReadSeq? || step.ReadField? || step.ReadAgain?)
    ensures Inv(Apply(s, step))
  {
    if !s.writer.Clearing? { SequenceParity(Moves(s)); }
  }

  lemma StepKeepsInv(s: State, step: Step)
    requires Inv(s) && Enabled(s, step)
    ensures Inv(Apply(s, step))
  {
    match step
    case Begin(v) => BeginKeepsInv(s, v);
    case Store(i) => StoreKeepsInv(s, i);
    case Finish => FinishKeepsInv(s);
    case ClearEnd => ClearEndKeepsInv(s);
    case ClearBegin => ClearKeepsInv(s, step);
    case ClearCounter => ClearKeepsInv(s, step);
    case Clear(i) => ClearKeepsInv(s, step);
    case _ => ReaderKeepsInv(s, step);
  }

  /** A run from `s`: every step is enabled when it is taken. */
  ghost predicate Runs(s: State, steps: seq<Step>)
    decreases steps
  {
    steps == [] || (Shape(s) && Enabled(s, steps[0]) && Runs(Apply(s, steps[0]), steps[1..]))
  }

  ghost function End(s: State, steps: seq<Step>): State
    requires Runs(s, steps)
    decreases steps
  {
    if steps == [] then s else End(Apply(s, steps[0]), steps[1..])
  }

  lemma {:induction false} RunKeepsInv(s: State, steps: seq<Step>)
    requires Inv(s) && Runs(s, steps)
    ensures Inv(End(s, steps))
    decreases steps
  {
    if steps != [] {
      StepKeepsInv(s, steps[0]);
      RunKeepsInv(Apply(s, steps[0]), steps[1..]);
    }
  }

  /** `t` is the end of some run from `s`. */
  ghost predicate Reaches(s: State, t: State) { exists steps :: Runs(s, steps) && End(s, steps) == t }

  /** The second look finds the counter as the first did. */
  ghost predicate Accepts(s: State) { Shape(s) && Enabled(s, ReadAgain) && Apply(s, ReadAgain).reader.Accepted? }

  /** In every interleaving: an accepted read is the latest completed write, whole, if no
      publication overlaps the read and fewer than 2^31 writes fall between the two looks at
      the counter. */
  lemma AcceptedIsWhole(s: State)
    requires Reaches(INIT, s)
    ensures Inv(s)
    ensures Accepts(s) && Undisturbed(s) && Rewrites(s) < 0x8000_0000 ==> s.reader.got == s.completed[|s.completed| - 1]
  {
    ReachesInv(s);
    if Accepts(s) && Undisturbed(s) && Rewrites(s) < 0x8000_0000 {
      SequenceParity(Moves(s));
      SameSequence(2 * s.readWrites, Moves(s));
      assert s.data[..FIELDS] == s.data;
    }
  }

  lemma ReachesInv(s: State)
    requires Reaches(INIT, s)
    ensures Inv(s)
  {
    var steps :| Runs(INIT, steps) && End(INIT, steps) == s;
    RunKeepsInv(INIT, steps);
  }

  lemma SameSequence(a: nat, b: nat)
    requires a <= b < a + WIDTH && a % WIDTH == b % WIDTH
    ensures a == b
  {
  }

  // ------------------------------------------------------------------ the bounds are sharp

  lemma {:induction false} RunsJoin(s: State, a: seq<Step>, b: seq<Step>)
    requires Runs(s, a) && Runs(End(s, a), b)
    ensures Runs(s, a + b) && End(s, a + b) == End(End(s, a), b)
    decreases a
  {
    if a == [] {
      assert a + b == b;
    } else {
      RunsJoin(Apply(s, a[0]), a[1..], b);
      assert (a + b)[1..] == a[1..] + b;
    }
  }

  lemma ReachesOn(s: State, t: State, u: State)
    requires Inv(s) && Reaches(s, t) && Reaches(t, u)
    ensures Reaches(s, u) && Inv(u)
  {
    var a :| Runs(s, a) && End(s, a) == t;
    var b :| Runs(t, b) && End(t, b) == u;
    RunsJoin(s, a, b);
    RunKeepsInv(s, a + b);
  }

  lemma Take(s: State, t: State, step: Step)
    requires Inv(s) && Reaches(s, t) && Inv(t) && Enabled(t, step)
    ensures Reaches(s, Apply(t, step)) && Inv(Apply(t, step))
  {
    StepKeepsInv(t, step);
    var one := [step];
    var none: seq<Step> := one[1..];
    assert Runs(Apply(t, step), none) && End(Apply(t, step), none) == Apply(t, step);
    assert Runs(t, one) && End(t, one) == Apply(t, step);
    ReachesOn(s, t, Apply(t, step));
  }

  lemma Stay(s: State)
    ensures Reaches(s, s)
  {
    var none: seq<Step> := [];
    assert Runs(s, none) && End(s, none) == s;
  }

  lemma {:induction false} StoreRest(s: State, i: nat) returns (t: State)
    requires Inv(s) && s.writer.Writing? && i <= FIELDS && forall k :: 0 <= k < i ==> k in s.writer.stored
    ensures Reaches(s, t) && Inv(t) && t.writer.Writing? && AllStored(t.writer.stored)
    ensures t == s.(data := t.data, writer := Writing(s.writer.value, t.writer.stored))
    decreases FIELDS - i
  {
    Stay(s);
    if i == FIELDS { return s; }
    Take(s, s, Store(i));
    t := StoreRest(Apply(s, Store(i)), i + 1);
    ReachesOn(s, Apply(s, Store(i)), t);
  }

  ghost function Written(s: State, v: Record): State
  {
    s.(seqno := 2 * (s.writes + 1) % WIDTH, data := v, writes := s.writes + 1, completed := s.completed + [v])
  }

  /** A complete write, seen from outside: the counter advances by two. */
  lemma WriteReaches(s: State, v: Record)
    requires Inv(s) && s.writer.Idle? && |v| == FIELDS
    ensures Reaches(s, Written(s, v)) && Inv(Written(s, v))
  {
    Stay(s);
    Take(s, s, Begin(v));
    var b := Apply(s, Begin(v));
    var t := StoreRest(b, 0);
    ReachesOn(s, b, t);
    assert t.data == v;
    Take(s, t, Finish);
    NextSequence(Moves(b));
  }

  lemma {:induction false} WritesReach(s: State, v: Record, n: nat) returns (t: State)
    requires Inv(s) && s.writer.Idle? && |v| == FIELDS && s.data == v
    ensures Reaches(s, t) && Inv(t)
    ensures t == s.(seqno := 2 * (s.writes + n) % WIDTH, writes := s.writes + n, completed := t.completed)
    ensures forall w :: w in t.completed ==> w in s.completed || w == v
    decreases n
  {
    Stay(s);
    if n == 0 { return s; }
    WriteReaches(s, v);
    t := WritesReach(Written(s, v), v, n - 1);
    ReachesOn(s, Written(s, v), t);
  }

  lemma {:induction false} FieldsReach(s: State, n: nat)
    requires Inv(s) && s.reader.Reading? && |s.reader.got| <= n <= FIELDS
    ensures var t := s.(reader := Reading(s.reader.before, s.reader.got + s.data[|s.reader.got|..n]));
            Reaches(s, t) && Inv(t)
    decreases n - |s.reader.got|
  {
    Stay(s);
    var k := |s.reader.got|;
    if k == n {
      assert s.reader.got + s.data[k..n] == s.reader.got;
    } else {
      Take(s, s, ReadField);
      var a := Apply(s, ReadField);
      FieldsReach(a, n);
      assert a.reader.got + a.data[k + 1..n] == s.reader.got + s.data[k..n];
      ReachesOn(s, a, a.(reader := Reading(a.reader.before, a.reader.got + a.data[k + 1..n])));
    }
  }

  ghost function Opened(): State { State(2, Same(1), Idle, Reading(2, [1]), 1, 0, 1, 0, true, [Same(0), Same(1)]) }

  /** The reader looks at the counter and takes one field of a slot that holds ones. */
  lemma OpeningReaches()
    ensures Reaches(INIT, Opened()) && Inv(Opened())
  {
    WriteReaches(INIT, Same(1));
    var a := Written(INIT, Same(1));
    Take(INIT, a, ReadSeq);
    Take(INIT, Apply(a, ReadSeq), ReadField);
    assert [] + [a.data[0]] == [1] && [Same(0)] + [Same(1)] == [Same(0), Same(1)];
    assert Apply(Apply(a, ReadSeq), ReadField) == Opened();
  }

  /** A slot that now holds twos, read to the end under the old counter value. */
  lemma TornEnd(s: State) returns (t: State)
    requires Reaches(INIT, s) && Inv(s) && s.reader == Reading(2, [1]) && s.data == Same(2) && s.seqno == 2
    requires forall w :: w in s.completed ==> w == Same(0) || w == Same(1) || w == Same(2)
    ensures Reaches(INIT, t) && Inv(t) && Accepts(t)
    ensures t == s.(reader := t.reader) && t.reader.got !in t.completed
  {
    FieldsReach(s, FIELDS);
    t := s.(reader := Reading(2, s.reader.got + s.data[1..FIELDS]));
    ReachesOn(INIT, s, t);
    assert t.reader.got[0] == 1 && t.reader.got[1] == 2;
  }

  /** 2^31 writes between the two looks wrap the counter: a torn read is accepted. */
  lemma WrapAcceptsTorn() returns (s: State)
    ensures Reaches(INIT, s) && Accepts(s) && s.reader.got !in s.completed
    ensures Undisturbed(s) && Rewrites(s) == 0x8000_0000
  {
    OpeningReaches();
    WriteReaches(Opened(), Same(2));
    var b := Written(Opened(), Same(2));
    ReachesOn(INIT, Opened(), b);
    var n: nat := 0x7FFF_FFFF;
    var c := WritesReach(b, Same(2), n);
    ReachesOn(INIT, b, c);
    s := TornEnd(c);
  }

  lemma {:induction false} ClearRest(s: State, i: nat) returns (t: State)
    requires Inv(s) && s.writer.Clearing? && i <= FIELDS && forall k :: 0 <= k < i ==> k in s.writer.cleared
    ensures Reaches(s, t) && Inv(t) && t.writer.Clearing? && AllStored(t.writer.cleared)
    ensures t == s.(data := t.data, writer := Clearing(s.writer.counter, t.writer.cleared))
    decreases FIELDS - i
  {
    Stay(s);
    if i == FIELDS { return s; }
    Take(s, s, Clear(i));
    t := ClearRest(Apply(s, Clear(i)), i + 1);
    ReachesOn(s, Apply(s, Clear(i)), t);
  }

  ghost function Cleared(s: State): State
  {
    s.(seqno := 0, data := Same(0), writes := 0, epoch := s.epoch + 1, completed := s.completed + [Same(0)])
  }

  /** A complete clear, seen from outside. */
  lemma ClearReaches(s: State)
    requires Inv(s) && s.writer.Idle?
    ensures Reaches(s, Cleared(s)) && Inv(Cleared(s))
  {
    Stay(s);
    Take(s, s, ClearBegin);
    Take(s, Apply(s, ClearBegin), ClearCounter);
    var b := Apply(Apply(s, ClearBegin), ClearCounter);
    var t := ClearRest(b, 0);
    ReachesOn(s, b, t);
    assert t.data == Same(0);
    Take(s, t, ClearEnd);
  }

  /** A publication between the two looks clears the counter: one write later a torn read is
      accepted. */
  lemma ClearAcceptsTorn() returns (s: State)
    ensures Reaches(INIT, s) && Accepts(s) && s.reader.got !in s.completed
    ensures s.readClean && s.epoch == s.readEpoch + 1 && s.writes == 1
  {
    OpeningReaches();
    ClearReaches(Opened());
    var r := Cleared(Opened());
    ReachesOn(INIT, Opened(), r);
    WriteReaches(r, Same(2));
    ReachesOn(INIT, r, Written(r, Same(2)));
    s := TornEnd(Written(r, Same(2)));
  }

  ghost function Overlapped(got: Record): State
  {
    State(0, Same(1), Clearing(true, {}), Reading(0, got), 1, 1, 1, 1, false, [Same(0), Same(1)])
  }

  /** A slot that holds ones; a clear has zeroed the counter when the reader first looks. */
  lemma OverlapOpens()
    ensures Reaches(INIT, Overlapped([])) && Inv(Overlapped([]))
  {
    WriteReaches(INIT, Same(1));
    var a := Written(INIT, Same(1));
    Take(INIT, a, ClearBegin);
    Take(INIT, Apply(a, ClearBegin), ClearCounter);
    Take(INIT, Apply(Apply(a, ClearBegin), ClearCounter), ReadSeq);
    assert [Same(0)] + [Same(1)] == [Same(0), Same(1)];
    assert Apply(Apply(Apply(a, ClearBegin), ClearCounter), ReadSeq) == Overlapped([]);
  }

  /** The reader takes owner, port, protocol and family before the clear gets to them. */
  lemma OverlapReads()
    ensures Reaches(INIT, Overlapped([1, 1, 1, 1])) && Inv(Overlapped([1, 1, 1, 1]))
  {
    OverlapOpens();
    var b := Overlapped([]);
    FieldsReach(b, 4);
    assert [] + b.data[0..4] == [1, 1, 1, 1];
    ReachesOn(INIT, b, Overlapped([1, 1, 1, 1]));
  }

  /** A read that falls within one clear accepts a record with the old owner, port and
      expiry but a cleared address, the wildcard, which nobody recorded: no further
      publication begins between its two looks. */
  lemma OverlapAcceptsMixture() returns (s: State)
    ensures Reaches(INIT, s) && Accepts(s) && s.reader.got !in s.completed
    ensures s.reader.got == [1, 1, 1, 1, 0, 0, 0, 0, 1]
    ensures s.readEpoch == s.epoch && !s.readClean
  {
    var d := OverlapClears();
    FieldsReach(d, FIELDS);
    s := d.(reader := Reading(0, d.reader.got + d.data[4..FIELDS]));
    ReachesOn(INIT, d, s);
    assert s.reader.got == [1, 1, 1, 1, 0, 0, 0, 0, 1];
    assert s.reader.got[0] != Same(0)[0] && s.reader.got[4] != Same(1)[4];
  }

  /** The clear gets to the address before the reader does. */
  lemma OverlapClears() returns (d: State)
    ensures Reaches(INIT, d) && Inv(d)
    ensures d == Overlapped([1, 1, 1, 1]).(data := [1, 1, 1, 1, 0, 0, 0, 0, 1], writer := d.writer)
  {
    OverlapReads();
    var c := Overlapped([1, 1, 1, 1]);
    d := ClearFour(c);
    ReachesOn(INIT, c, d);
    assert d.data == [1, 1, 1, 1, 0, 0, 0, 0, 1];
  }

  /** The four address words are cleared. */
  lemma ClearFour(s: State) returns (t: State)
    requires Inv(s) && s.writer.Clearing?
    ensures Reaches(s, t) && Inv(t) && t == s.(data := s.data[4 := 0][5 := 0][6 := 0][7 := 0], writer := t.writer)
  {
    Stay(s);
    Take(s, s, Clear(4));
    Take(s, Apply(s, Clear(4)), Clear(5));
    Take(s, Apply(Apply(s, Clear(4)), Clear(5)), Clear(6));
    Take(s, Apply(Apply(Apply(s, Clear(4)), Clear(5)), Clear(6)), Clear(7));
    t := Apply(Apply(Apply(Apply(s, Clear(4)), Clear(5)), Clear(6)), Clear(7));
  }
}
