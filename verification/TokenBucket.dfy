/** The per-UID limiter of the UDP queue emulation (kmod/hooks_fs.c): a token bucket in
    thousandths of a token, with 64-bit and 32-bit arithmetic that may wrap. */
module TokenBucket {
  import opened Types
  import opened Wrapping
  import opened PolicyDecode
  import opened PolicySnapshot

  const FULL := 250000
  const ONE := 1000
  const REGEN := 2000000

  datatype Rate = Rate(last: nat, tokens: nat)

  /** The time since the last refill in units of a token per 2000000, wrapped to 64 bits. */
  function Lag(r: Rate, now: nat): (p: nat)
    ensures p < TWO64
  {
    if now > r.last then (now - r.last) * 1000 % TWO64 else 0
  }

  function Refilled(r: Rate, now: nat): Rate
  {
    var regained := Lag(r, now) / REGEN;
    if now <= r.last || regained == 0 then r else
    var tokens := (r.tokens + regained % TWO32) % TWO32;
    if tokens >= FULL then Rate(now, FULL) else Rate(r.last + regained * REGEN / 1000, tokens)
  }

  /** One call: the refill and, if a token is there, its use. */
  function Used(r: Option<Rate>, now: nat): (Rate, bool)
  {
    match r
    case None => (Rate(now, FULL - ONE), true)
    case Some(rate) =>
      var q := Refilled(rate, now);
      if q.tokens >= ONE then (q.(tokens := q.tokens - ONE), true) else (q, false)
  }

  class UdpLimiter {
    var rates: map<u32, Rate>

    constructor ()
      ensures rates == map[]
    {
      rates := map[];
    }

    /** udp_rate_limit_exceeded */
    method Exceeded(uid: u32, now: nat) returns (exceeded: bool)
      modifies this
      ensures var r := if uid in old(rates) then Some(old(rates)[uid]) else None;
              rates == old(rates)[uid := Used(r, now).0] && exceeded == !Used(r, now).1
    {
      if uid !in rates {
        rates := rates[uid := Rate(now, FULL - ONE)];
        return false;
      }
      var rate := rates[uid];
      if now > rate.last {
        var regained := (now - rate.last) * 1000 % TWO64 / REGEN;
        if regained > 0 {
          rate := rate.(tokens := (rate.tokens + regained % TWO32) % TWO32);
          if rate.tokens >= FULL {
            rate := Rate(now, FULL);
          } else {
            rate := rate.(last := rate.last + regained * REGEN / 1000);
          }
        }
      }
      if rate.tokens >= ONE {
        rate := rate.(tokens := rate.tokens - ONE);
        exceeded := false;
      } else {
        exceeded := true;
      }
      rates := rates[uid := rate];
    }

    /** vpnhide_udp_rates_prune: only the limiters of UIDs the policy hides remain. */
    method Prune(policy: Option<Snapshot>)
      requires policy.Some? ==> SnapshotOk(policy.value)
      modifies this
      ensures forall u :: u in rates <==>
                u in old(rates) && policy.Some? && InMode(policy.value.kmod, policy.value.kmodMode, u)
      ensures forall u :: u in rates ==> rates[u] == old(rates)[u]
    {
      var todo, kept := rates.Keys, map[];
      while todo != {}
        invariant todo <= rates.Keys && rates == old(rates)
        invariant forall u :: u in kept <==>
                    u in rates && u !in todo && policy.Some? && InMode(policy.value.kmod, policy.value.kmodMode, u)
        invariant forall u :: u in kept ==> kept[u] == rates[u]
        decreases |todo|
      {
        var u :| u in todo;
        var keep := false;
        if policy.Some? { keep := UidMatchesMode(policy.value.kmod, policy.value.kmodMode, u); }
        if keep { kept := kept[u := rates[u]]; }
        todo := todo - {u};
      }
      rates := kept;
    }
  }

  // ------------------------------------------------------------------ the bound

  /** After a call at `now`: less than a thousandth of a token of time is unaccounted for. */
  ghost predicate Settled(r: Rate, now: nat) { r.last <= now && r.tokens <= FULL && Lag(r, now) < REGEN }

  /** A refill gives no more than the time that it accounts for. */
  lemma RefillAccounts(r: Rate, now: nat)
    requires r.last <= now && r.tokens <= FULL
    ensures Settled(Refilled(r, now), now)
    ensures REGEN * (Refilled(r, now).tokens - r.tokens) + Lag(Refilled(r, now), now) <= Lag(r, now)
  {
    var regained := Lag(r, now) / REGEN;
    if now > r.last && regained > 0 {
      assert Lag(r, now) >= regained * REGEN;
      TokensGained(r.tokens, regained);
      var tokens := (r.tokens + regained % TWO32) % TWO32;
      if tokens < FULL {
        assert regained * REGEN / 1000 == regained * 2000;
        WrapSub((now - r.last) * 1000, regained * REGEN);
        assert (now - (r.last + regained * 2000)) * 1000 == (now - r.last) * 1000 - regained * REGEN;
      }
    }
  }

  lemma TokensGained(tokens: nat, regained: nat)
    ensures (tokens + regained % TWO32) % TWO32 <= tokens + regained
  {
  }

  lemma LaterLag(r: Rate, now: nat, later: nat)
    requires r.last <= now <= later
    ensures Lag(r, later) <= Lag(r, now) + (later - now) * 1000
  {
    WrapAdd((now - r.last) * 1000, (later - now) * 1000);
    assert (now - r.last) * 1000 + (later - now) * 1000 == (later - r.last) * 1000;
  }

  /** The state before call `n` of a UID whose calls happen at these times. */
  function Before(times: seq<nat>, n: nat): Option<Rate>
    requires n <= |times|
  {
    if n == 0 then None else Some(Used(Before(times, n - 1), times[n - 1]).0)
  }

  function Admitted(times: seq<nat>, n: nat): bool
    requires n < |times|
  {
    Used(Before(times, n), times[n]).1
  }

  /** How many of the calls from `i` up to and not including `j` are admitted. */
  function Admissions(times: seq<nat>, i: nat, j: nat): nat
    requires i <= j <= |times|
  {
    if i == j then 0 else Admissions(times, i, j - 1) + (if Admitted(times, j - 1) then 1 else 0)
  }

  ghost predicate Forward(times: seq<nat>) { forall i, j :: 0 <= i < j < |times| ==> times[i] <= times[j] }

  function Max(a: nat, b: nat): nat { if a < b then b else a }

  /** The latest of the first `n` readings. */
  function High(times: seq<nat>, n: nat): nat
    requires 0 < n <= |times|
  {
    if n == 1 then times[0] else Max(High(times, n - 1), times[n - 1])
  }

  /** The clock is read before the lock is taken, so readings may come out of order.  One that
      does comes before the 64-bit product over the whole run can wrap, which takes 213 days. */
  ghost predicate Orderly(times: seq<nat>)
  {
    forall n :: 0 < n < |times| && times[n] < High(times, n) ==> (High(times, n) - times[0]) * 1000 < TWO64
  }

  /** Readings in order are orderly whatever the gaps, and the latest is the last. */
  lemma {:induction false} ForwardIsOrderly(times: seq<nat>)
    requires Forward(times)
    ensures Orderly(times) && forall n :: 0 < n <= |times| ==> High(times, n) == times[n - 1]
  {
    forall n | 0 < n <= |times| ensures High(times, n) == times[n - 1] { HighIsLast(times, n); }
  }

  lemma {:induction false} HighIsLast(times: seq<nat>, n: nat)
    requires Forward(times) && 0 < n <= |times|
    ensures High(times, n) == times[n - 1]
  {
    if n > 1 { HighIsLast(times, n - 1); }
  }

  lemma UseAccounts(r: Rate, now: nat)
    requires r.last <= now && r.tokens <= FULL
    ensures var (q, yes) := Used(Some(r), now);
            Settled(q, now) && ONE * (if yes then 1 else 0) + q.tokens <= FULL && r.last <= q.last &&
            REGEN * (ONE * (if yes then 1 else 0) + q.tokens - r.tokens) + Lag(q, now) <= Lag(r, now)
  {
    RefillAccounts(r, now);
  }

  /** A reading behind the latest one regains nothing. */
  lemma LateCallRegainsNothing(r: Rate, high: nat, now: nat)
    requires Settled(r, high) && now < high && (high - r.last) * 1000 < TWO64
    ensures Refilled(r, now) == r
  {
  }

  /** What was admitted since `start` and what is left, against a full bucket and the time
      passed. */
  ghost predicate Accounted(admitted: nat, r: Rate, start: nat, now: nat)
  {
    REGEN * (ONE * admitted + r.tokens - FULL) + Lag(r, now) <= (now - start) * 1000 + REGEN - 1
  }

  /** Nothing wraps between the last refill and the latest reading, or this one is later. */
  ghost predicate InTime(r: Rate, high: nat, now: nat) { now >= high || (high - r.last) * 1000 < TWO64 }

  lemma StepSettles(r: Rate, high: nat, now: nat)
    requires Settled(r, high) && InTime(r, high, now)
    ensures var (q, yes) := Used(Some(r), now);
            Settled(q, Max(high, now)) && r.last <= q.last && ONE * (if yes then 1 else 0) + q.tokens <= FULL
  {
    if now >= high { UseAccounts(r, now); } else { LateCallRegainsNothing(r, high, now); }
  }

  lemma StepAccounts(r: Rate, start: nat, high: nat, now: nat, admitted: nat)
    requires Accounted(admitted, r, start, high) && Settled(r, high) && InTime(r, high, now)
    ensures var (q, yes) := Used(Some(r), now);
            Accounted(if yes then admitted + 1 else admitted, q, start, Max(high, now))
  {
    if now >= high {
      UseAccounts(r, now);
      LaterLag(r, high, now);
    } else {
      LateCallRegainsNothing(r, high, now);
    }
  }

  lemma {:induction false} AlwaysSettled(times: seq<nat>, n: nat)
    requires Orderly(times) && 0 < n <= |times|
    ensures Settled(Before(times, n).value, High(times, n)) && times[0] <= Before(times, n).value.last
    ensures ONE * (if Admitted(times, n - 1) then 1 else 0) + Before(times, n).value.tokens <= FULL
    ensures n < |times| ==> InTime(Before(times, n).value, High(times, n), times[n])
  {
    if n > 1 {
      AlwaysSettled(times, n - 1);
      StepSettles(Before(times, n - 1).value, High(times, n - 1), times[n - 1]);
    }
  }

  lemma {:induction false} WindowAccounts(times: seq<nat>, i: nat, j: nat)
    requires Orderly(times) && i < j <= |times|
    ensures WindowOk(times, i, j)
    decreases j
  {
    hide *;
    if i + 1 == j {
      FirstAccounts(times, i, j);
    } else {
      WindowAccounts(times, i, j - 1);
      NextAccounts(times, i, j);
    }
  }

  ghost predicate WindowOk(times: seq<nat>, i: nat, j: nat)
    requires i < j <= |times|
  {
    Accounted(Admissions(times, i, j), Before(times, j).value, High(times, i + 1), High(times, j))
  }

  lemma {:induction false} NextAccounts(times: seq<nat>, i: nat, j: nat)
    requires Orderly(times) && i + 1 < j <= |times| && WindowOk(times, i, j - 1)
    ensures WindowOk(times, i, j)
  {
    var n := j - 1;
    AlwaysSettled(times, n);
    OneMoreCall(times, i, n);
    StepAccounts(Before(times, n).value, High(times, i + 1), High(times, n), times[n], Admissions(times, i, n));
  }

  lemma {:induction false} OneMoreCall(times: seq<nat>, i: nat, n: nat)
    requires i <= n < |times| && 0 < n
    ensures var (q, yes) := Used(Some(Before(times, n).value), times[n]);
            && Before(times, n + 1) == Some(q) && High(times, n + 1) == Max(High(times, n), times[n])
            && Admitted(times, n) == yes
            && Admissions(times, i, n + 1) == if yes then Admissions(times, i, n) + 1 else Admissions(times, i, n)
  {
  }

  lemma {:induction false} FirstAccounts(times: seq<nat>, i: nat, j: nat)
    requires Orderly(times) && i + 1 == j <= |times|
    ensures WindowOk(times, i, j)
  {
    hide Used, Lag;
    AlwaysSettled(times, j);
    assert Admissions(times, i, i) == 0;
    FirstFits(Admissions(times, i, j), Before(times, j).value, High(times, j));
  }

  lemma FirstFits(admitted: nat, r: Rate, now: nat)
    requires Settled(r, now) && ONE * admitted + r.tokens <= FULL
    ensures Accounted(admitted, r, now, now)
  {
  }

  /** Any window of a UID's calls admits at most a full bucket and one token per two
      milliseconds, whatever the gaps between calls, whichever products wrap, and also when
      concurrent calls pass the lock out of order. */
  lemma {:induction false} SlidingWindow(times: seq<nat>, i: nat, j: nat)
    requires Orderly(times) && i < j <= |times|
    ensures ONE * Admissions(times, i, j) <= FULL + (High(times, j) - High(times, i + 1) + 1999) / 2000
  {
    HighGrows(times, i + 1, j);
    WindowAccounts(times, i, j);
    var n, d := ONE * Admissions(times, i, j) - FULL, High(times, j) - High(times, i + 1);
    assert 2000000 * n <= d * 1000 + 1999999;
    assert 2000 * n <= d + 1999;
  }

  lemma {:induction false} HighGrows(times: seq<nat>, i: nat, j: nat)
    requires 0 < i <= j <= |times|
    ensures High(times, i) <= High(times, j)
  {
    if i < j { HighGrows(times, i, j - 1); }
  }

  /** The shortest time whose product wraps: 213 days. */
  const WRAP := 18446744073709552

  /** Without that the bound fails: a UID that sends once, is idle for 213 days and then sends
      249 datagrams at once gets a full bucket from one reading a nanosecond behind. */
  lemma {:induction false} StepBackRefills(times: seq<nat>)
    requires |times| == 500 && times[0] == 0 && times[250] == WRAP - 1
    requires forall i :: 0 < i < 500 && i != 250 ==> times[i] == WRAP
    ensures Admissions(times, 1, 500) == 499 && High(times, 500) == High(times, 2)
  {
    BeforeStep(times, 250);
    OneMoreCall(times, 1, 250);
    FullAgain();
    AfterStep(times, 500);
  }

  lemma {:induction false} BeforeStep(times: seq<nat>, n: nat)
    requires |times| == 500 && 0 < n <= 250 && times[0] == 0 && forall i :: 0 < i < 250 ==> times[i] == WRAP
    ensures Before(times, n) == Some(Rate(0, FULL - ONE * n)) && Admissions(times, 1, n) == n - 1
    ensures n > 1 ==> High(times, n) == WRAP
  {
    if n > 1 {
      BeforeStep(times, n - 1);
      OneMoreCall(times, 1, n - 1);
      assert Lag(Rate(0, FULL - ONE * (n - 1)), WRAP) == 384;
      PlainUse(Rate(0, FULL - ONE * (n - 1)), WRAP);
    }
  }

  /** A call that regains nothing takes a token if there is one. */
  lemma PlainUse(r: Rate, now: nat)
    requires Lag(r, now) < REGEN && r.tokens >= ONE
    ensures Used(Some(r), now) == (Rate(r.last, r.tokens - ONE), true)
  {
  }

  lemma LagOfOne(tokens: nat)
    ensures Lag(Rate(WRAP - 1, tokens), WRAP) == 1000
  {
  }

  lemma FullAgain()
    ensures Used(Some(Rate(0, 0)), WRAP - 1) == (Rate(WRAP - 1, FULL - ONE), true)
  {
    assert Lag(Rate(0, 0), WRAP - 1) / REGEN % TWO32 == 2077252342;
  }

  lemma {:induction false} AfterStep(times: seq<nat>, n: nat)
    requires |times| == 500 && 250 < n <= 500 && forall i :: 250 < i < 500 ==> times[i] == WRAP
    requires Before(times, 251) == Some(Rate(WRAP - 1, FULL - ONE)) && Admissions(times, 1, 251) == 250
    requires High(times, 251) == WRAP
    ensures Before(times, n) == Some(Rate(WRAP - 1, FULL - ONE * (n - 250))) && Admissions(times, 1, n) == n - 1
    ensures High(times, n) == WRAP
  {
    hide Used, Lag;
    if n > 251 {
      AfterStep(times, n - 1);
      OneMoreCall(times, 1, n - 1);
      LagOfOne(FULL - ONE * (n - 251));
      PlainUse(Rate(WRAP - 1, FULL - ONE * (n - 251)), WRAP);
    }
  }

  // ------------------------------------------------------------------ refusals

  /** No call leaves more than a full bucket less the token of a call. */
  lemma {:induction false} TokensBounded(times: seq<nat>, n: nat)
    requires 0 < n <= |times|
    ensures Before(times, n).value.tokens <= FULL - ONE
  {
    if n > 1 {
      TokensBounded(times, n - 1);
      OneMoreCall(times, 0, n - 1);
    }
  }

  /** A call is admitted exactly when the tokens left and those regained, cut to 32 bits,
      make a whole token, in whatever order the readings come. */
  lemma {:induction false} AdmittedExactly(times: seq<nat>, n: nat)
    requires 0 < n < |times|
    ensures var r := Before(times, n).value;
            Admitted(times, n) <==> (r.tokens + Lag(r, times[n]) / REGEN) % TWO32 >= ONE
  {
    TokensBounded(times, n);
    OneMoreCall(times, 0, n);
    UsedExactly(Before(times, n).value, times[n]);
  }

  lemma UsedExactly(r: Rate, now: nat)
    requires r.tokens <= FULL
    ensures Used(Some(r), now).1 <==> (r.tokens + Lag(r, now) / REGEN) % TWO32 >= ONE
  {
    WrapAdd32(r.tokens, Lag(r, now) / REGEN);
  }

  lemma WrapAdd32(a: nat, b: nat)
    ensures (a + b % TWO32) % TWO32 == (a + b) % TWO32
  {
    var q := b / TWO32;
    assert a + b == TWO32 * q + (a + b % TWO32);
    Shift32(q, a + b % TWO32);
  }

  lemma Shift32(q: int, x: nat)
    ensures (TWO32 * q + x) % TWO32 == x % TWO32
  {
  }

  /** Calls at the same instant take one token each, until none is left. */
  lemma {:induction false} Drained(times: seq<nat>, n: nat)
    requires 0 < n <= |times| && n <= FULL / ONE && forall i :: 0 <= i < n ==> times[i] == times[0]
    ensures Before(times, n) == Some(Rate(times[0], FULL - ONE * n)) && Admitted(times, n - 1)
  {
    if n > 1 {
      Drained(times, n - 1);
      assert times[n - 1] == times[0];
    }
  }

  /** A UID that sends 250 datagrams at once and is then idle for 2^32 thousandths of a token,
      about two hours and 23 minutes, is refused its next one: what it regained is cut to
      nothing. */
  lemma LongIdleIsRefused(times: seq<nat>)
    requires |times| == 251 && (forall i :: 0 <= i < 250 ==> times[i] == times[0]) &&
             times[250] == times[0] + TWO32 * 2000
    ensures Forward(times) && Admitted(times, 249) && !Admitted(times, 250)
  {
    Drained(times, 250);
    EmptyStaysEmpty(times[0]);
  }

  lemma EmptyStaysEmpty(last: nat)
    ensures !Used(Some(Rate(last, 0)), last + TWO32 * 2000).1
  {
    assert Lag(Rate(last, 0), last + TWO32 * 2000) == TWO32 * REGEN;
    assert TWO32 * REGEN / REGEN == TWO32;
  }

  // ------------------------------------------------------------------ gaps

  /** The call that ends a run in order with a gap of `d`. */
  ghost predicate EndsWithGap(times: seq<nat>, d: nat)
  {
    Forward(times) && |times| >= 2 && times[|times| - 1] == times[|times| - 2] + d
  }

  /** Whatever a UID did before, its call after a gap of `d` is admitted. */
  ghost predicate AlwaysAdmits(d: nat)
  {
    forall times :: EndsWithGap(times, d) ==> Admitted(times, |times| - 1)
  }

  /** The time that is not yet accounted for never adds up to a full bucket less one call. */
  ghost predicate Roomy(r: Rate, now: nat) { Settled(r, now) && REGEN * r.tokens + Lag(r, now) <= REGEN * (FULL - ONE) }

  lemma RefillRoomy(r: Rate, now: nat)
    requires r.last <= now && r.tokens <= FULL - ONE
    ensures Roomy(Used(Some(r), now).0, now)
  {
    RefillAccounts(r, now);
    assert Refilled(r, now).tokens == FULL ==> Refilled(r, now).last == now;
  }

  lemma {:induction false} AlwaysRoomy(times: seq<nat>, n: nat)
    requires Forward(times) && 0 < n <= |times|
    ensures Roomy(Before(times, n).value, times[n - 1])
  {
    if n > 1 {
      AlwaysRoomy(times, n - 1);
      OneMoreCall(times, 0, n - 1);
      RefillRoomy(Before(times, n - 1).value, times[n - 1]);
    }
  }

  /** Exactly the gaps are always admitted in which the thousandths of a token regained, cut to
      32 bits, make a whole token and leave room for what one call less than a full bucket
      holds: for gaps of less than 213 days, where nothing else wraps. */
  lemma GapIsAdmitted(d: nat)
    requires d * 1000 + REGEN < TWO64
    ensures AlwaysAdmits(d) <==> ONE <= d / 2000 % TWO32 < TWO32 - (FULL - ONE)
  {
    if ONE <= d / 2000 % TWO32 < TWO32 - (FULL - ONE) {
      forall times | EndsWithGap(times, d) ensures Admitted(times, |times| - 1) { GapAdmits(times, d); }
    } else {
      var times := GapRefuses(d);
      assert EndsWithGap(times, d) && !Admitted(times, |times| - 1);
    }
  }

  lemma GapAdmits(times: seq<nat>, d: nat)
    requires EndsWithGap(times, d) && d * 1000 + REGEN < TWO64 && ONE <= d / 2000 % TWO32 < TWO32 - (FULL - ONE)
    ensures Admitted(times, |times| - 1)
  {
    var n := |times| - 1;
    var r := Before(times, n).value;
    AlwaysRoomy(times, n);
    AdmittedExactly(times, n);
    SettledLag(r, times[n - 1], times[n]);
    SumFits(r.tokens, d / 2000, Lag(r, times[n - 1]), Lag(r, times[n]) / REGEN);
  }

  /** The regained tokens are those of the gap, or one thousandth more. */
  lemma SumFits(tokens: nat, g: nat, lag: nat, regained: nat)
    requires REGEN * tokens + lag <= REGEN * (FULL - ONE) && g <= regained <= g + (if lag > 0 then 1 else 0)
    requires ONE <= g % TWO32 < TWO32 - (FULL - ONE)
    ensures (tokens + regained) % TWO32 >= ONE
  {
    var q, x := g / TWO32, tokens + (regained - g) + g % TWO32;
    assert tokens + regained == TWO32 * q + x;
    Shift32(q, x);
  }

  lemma SettledLag(r: Rate, now: nat, later: nat)
    requires Settled(r, now) && now <= later && (later - now) * 1000 + REGEN < TWO64
    ensures Lag(r, later) == Lag(r, now) + (later - now) * 1000
    ensures var g := (later - now) / 2000; g <= Lag(r, later) / REGEN <= g + (if Lag(r, now) > 0 then 1 else 0)
  {
    var p, d := (now - r.last) * 1000, (later - now) * 1000;
    assert p + d == TWO64 * (p / TWO64) + (p % TWO64 + d);
    WrapShift(p / TWO64, p % TWO64 + d);
    assert (later - r.last) * 1000 == p + d;
    assert Lag(r, now) == p % TWO64;
  }

  /** A burst that leaves just the wrong number of tokens, and then the gap. */
  lemma GapRefuses(d: nat) returns (times: seq<nat>)
    requires d * 1000 + REGEN < TWO64 && !(ONE <= d / 2000 % TWO32 < TWO32 - (FULL - ONE))
    ensures EndsWithGap(times, d) && !Admitted(times, |times| - 1)
  {
    var g := d / 2000 % TWO32;
    var k := if g < ONE then 0 else (TWO32 - g + 999) / 1000;
    times := seq(250 - k, _ => 0) + [d];
    BurstThenGap(times, d, k);
    WrongSum(d / 2000, k);
  }

  lemma WrongSum(g: nat, k: nat)
    requires if g % TWO32 < ONE then k == 0
             else g % TWO32 >= TWO32 - (FULL - ONE) && k == (TWO32 - g % TWO32 + 999) / 1000
    ensures (ONE * k + g) % TWO32 < ONE
  {
    assert ONE * k + g == TWO32 * (g / TWO32) + (ONE * k + g % TWO32);
    Shift32(g / TWO32, ONE * k + g % TWO32);
  }

  lemma BurstThenGap(times: seq<nat>, d: nat, k: nat)
    requires k < 250 && d * 1000 + REGEN < TWO64 && |times| == 251 - k
    requires (forall i :: 0 <= i < 250 - k ==> times[i] == 0) && times[250 - k] == d
    ensures EndsWithGap(times, d) && (Admitted(times, 250 - k) <==> (ONE * k + d / 2000) % TWO32 >= ONE)
  {
    hide Used, Lag;
    Drained(times, 250 - k);
    AdmittedExactly(times, 250 - k);
    PlainLag(ONE * k, d);
  }

  lemma PlainLag(tokens: nat, d: nat)
    requires d * 1000 < TWO64
    ensures Lag(Rate(0, tokens), d) / REGEN == d / 2000
  {
    assert Lag(Rate(0, tokens), d) == d * 1000;
  }
}
