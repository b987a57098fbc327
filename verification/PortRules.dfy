/** The port-policy compiler of the controller (kmod/vpnhide_policy.c).

    The configuration lists port rules; in allowlist mode they name the ports an
    application may see, and the compiler turns them into the blocking complement
    that the kernel understands.  `NamedPort` here and `SpecBlocks` in PolicyResolve say what a
    configuration means without mentioning ranges; everything else is proved
    against them. */
module PortRules {
  import opened Types

  const TCP: byte := 0
  const UDP: byte := 1
  const BOTH: byte := 2

  const RULES: byte := 0
  const UNRESTRICTED: byte := 1
  const DENY_ALL: byte := 2

  const LAST_PORT: u16 := 65535

  datatype PortRule = PortRule(first: u16, last: u16, proto: byte)

  predicate ValidRule(r: PortRule) { r.first <= r.last && r.proto <= BOTH }

  predicate Covers(r: PortRule, port: int, proto: byte)
  {
    r.first <= port <= r.last && (r.proto == BOTH || r.proto == proto)
  }

  ghost predicate Matches(rules: seq<PortRule>, port: int, proto: byte)
  {
    exists i :: 0 <= i < |rules| && Covers(rules[i], port, proto)
  }

  /** One element of the `portRules` or `massPortRules` array.  `disabled` is true
      only for a literal `false`: a missing `enabled` reads as -1, which is truthy. */
  datatype RuleEntry =
    | NotAnObject
    | RuleEntry(package: Option<string>, user: Option<int>, uid: u32,
                disabled: bool, first: int, last: int, protocol: Option<string>)

  datatype App = App(uid: u32, package: Option<string>, user: int,
                     portHiding: bool, kmod: bool, lsposed: bool,
                     kernelHooks: Option<bv32>, javaHooks: Option<bv32>)

  /** The hook masks and the logging flag of the `globalConfig` object, if there is one. */
  datatype Global = Global(kernelHooks: bv32, javaHooks: bv32, debug: bool)

  datatype Config = Config(allowlist: bool, apps: seq<Option<App>>,
                           portRules: seq<RuleEntry>, massRules: seq<RuleEntry>, global: Option<Global>)

  predicate Names(e: RuleEntry, app: App)
  {
    && e.RuleEntry?
    && ((e.uid != 0 && app.uid != 0 && e.uid == app.uid) ||
        (e.package.Some? && app.package == e.package &&
         (e.user.None? || e.user.value == app.user)))
  }

  predicate Enabled(e: RuleEntry) { e.RuleEntry? && !e.disabled }

  predicate WellFormed(e: RuleEntry)
  {
    e.RuleEntry? && 0 <= e.first <= e.last <= LAST_PORT &&
    (e.protocol.None? || e.protocol.value == "TCP" || e.protocol.value == "UDP" || e.protocol.value == "BOTH")
  }

  function ProtocolOf(e: RuleEntry): byte
    requires e.RuleEntry?
  {
    if e.protocol == Some("TCP") then TCP else if e.protocol == Some("UDP") then UDP else BOTH
  }

  function Compiled(e: RuleEntry): (r: PortRule)
    requires WellFormed(e)
    ensures ValidRule(r)
    ensures forall port: int, proto: byte :: Covers(r, port, proto) <==> EntryNamesPort(e, port, proto)
  {
    PortRule(e.first, e.last, ProtocolOf(e))
  }

  predicate EntryNamesPort(e: RuleEntry, port: int, proto: byte)
  {
    e.RuleEntry? && e.first <= port <= e.last &&
    (match e.protocol
     case None => true
     case Some(name) => name == "BOTH" || (name == "TCP" && proto == TCP) || (name == "UDP" && proto == UDP))
  }

  /** The rules that apply to an application, in the order the resolver adds them. */
  function Selected(cfg: Config, app: App): seq<RuleEntry>
  {
    Local(cfg.portRules, app) + Mass(cfg.massRules)
  }

  function Local(entries: seq<RuleEntry>, app: App): seq<RuleEntry>
  {
    if entries == [] then [] else
    var rest, e := Local(entries[..|entries| - 1], app), entries[|entries| - 1];
    if Names(e, app) && Enabled(e) then rest + [e] else rest
  }

  function Mass(entries: seq<RuleEntry>): seq<RuleEntry>
  {
    if entries == [] then [] else
    var rest, e := Mass(entries[..|entries| - 1]), entries[|entries| - 1];
    if Enabled(e) then rest + [e] else rest
  }

  /** What it takes for a rule of the configuration to apply, stated on the arrays. */
  ghost predicate Applies(cfg: Config, app: App, e: RuleEntry)
  {
    Enabled(e) && ((e in cfg.portRules && Names(e, app)) || e in cfg.massRules)
  }

  lemma {:induction false} LocalMembers(entries: seq<RuleEntry>, app: App, e: RuleEntry)
    ensures e in Local(entries, app) <==> e in entries && Names(e, app) && Enabled(e)
  {
    if entries != [] {
      LocalMembers(entries[..|entries| - 1], app, e);
      assert entries == entries[..|entries| - 1] + [entries[|entries| - 1]];
    }
  }

  lemma {:induction false} MassMembers(entries: seq<RuleEntry>, e: RuleEntry)
    ensures e in Mass(entries) <==> e in entries && Enabled(e)
  {
    if entries != [] {
      MassMembers(entries[..|entries| - 1], e);
      assert entries == entries[..|entries| - 1] + [entries[|entries| - 1]];
    }
  }

  lemma SelectedApplies(cfg: Config, app: App, e: RuleEntry)
    ensures e in Selected(cfg, app) <==> Applies(cfg, app, e)
  {
    LocalMembers(cfg.portRules, app, e);
    MassMembers(cfg.massRules, e);
  }

  /** An application's ports as the configuration describes them. */
  ghost predicate NamedPort(cfg: Config, app: App, port: int, proto: byte)
  {
    exists e :: Applies(cfg, app, e) && EntryNamesPort(e, port, proto)
  }

  ghost predicate HasRules(cfg: Config, app: App) { exists e :: Applies(cfg, app, e) }

  ghost predicate RulesOk(cfg: Config, app: App)
  {
    forall e :: Applies(cfg, app, e) ==> WellFormed(e)
  }

  // ------------------------------------------------------------------ resolving

  function CompileAll(entries: seq<RuleEntry>): (rules: seq<PortRule>)
    requires forall e :: e in entries ==> WellFormed(e)
    ensures |rules| == |entries|
    ensures forall i :: 0 <= i < |rules| ==> rules[i] == Compiled(entries[i])
  {
    seq(|entries|, i requires 0 <= i < |entries| => Compiled(entries[i]))
  }

  /** add_port_rule over the local rules and then the mass rules; the fallback adds
      the full range when nothing was selected. */
  method ResolveNamedPortRules(cfg: Config, app: App, fallback: bool) returns (r: Result<seq<PortRule>>)
    ensures r.Ok? <==> RulesOk(cfg, app)
    ensures r.Ok? ==> forall i :: 0 <= i < |r.value| ==> ValidRule(r.value[i])
    ensures r.Ok? ==> |r.value| == if fallback && Selected(cfg, app) == [] then 1 else |Selected(cfg, app)|
    ensures r.Ok? ==> (r.value == [] <==> !fallback && !HasRules(cfg, app))
    ensures r.Ok? && HasRules(cfg, app) ==>
      forall port: int, proto: byte :: Matches(r.value, port, proto) <==> NamedPort(cfg, app, port, proto)
    ensures r.Ok? && fallback && !HasRules(cfg, app) ==> r.value == [PortRule(0, LAST_PORT, BOTH)]
  {
    var rules: seq<PortRule> := [];
    for i := 0 to |cfg.portRules|
      invariant forall e :: e in Local(cfg.portRules[..i], app) ==> WellFormed(e)
      invariant rules == CompileAll(Local(cfg.portRules[..i], app))
    {
      var e := cfg.portRules[i];
      assert cfg.portRules[..i + 1][..i] == cfg.portRules[..i];
      if Names(e, app) && Enabled(e) {
        if !WellFormed(e) {
          assert Applies(cfg, app, e);
          return Err;
        }
        rules := rules + [Compiled(e)];
      }
    }
    assert cfg.portRules[..|cfg.portRules|] == cfg.portRules;
    ghost var local := Local(cfg.portRules, app);
    for i := 0 to |cfg.massRules|
      invariant forall e :: e in local + Mass(cfg.massRules[..i]) ==> WellFormed(e)
      invariant rules == CompileAll(local + Mass(cfg.massRules[..i]))
    {
      var e := cfg.massRules[i];
      assert cfg.massRules[..i + 1][..i] == cfg.massRules[..i];
      if Enabled(e) {
        if !WellFormed(e) {
          assert Applies(cfg, app, e);
          return Err;
        }
        rules := rules + [Compiled(e)];
      }
    }
    assert cfg.massRules[..|cfg.massRules|] == cfg.massRules;
    CompiledMeaning(cfg, app, rules);
    if fallback && |rules| == 0 {
      rules := [PortRule(0, LAST_PORT, BOTH)];
    }
    r := Ok(rules);
  }

  lemma CompiledMeaning(cfg: Config, app: App, rules: seq<PortRule>)
    requires forall e :: e in Selected(cfg, app) ==> WellFormed(e)
    requires rules == CompileAll(Selected(cfg, app))
    ensures RulesOk(cfg, app)
    ensures rules == [] <==> !HasRules(cfg, app)
    ensures forall port: int, proto: byte :: Matches(rules, port, proto) <==> NamedPort(cfg, app, port, proto)
  {
    var chosen := Selected(cfg, app);
    forall e ensures e in chosen <==> Applies(cfg, app, e) { SelectedApplies(cfg, app, e); }
    if chosen != [] { assert Applies(cfg, app, chosen[0]); }
    forall port: int, proto: byte
      ensures Matches(rules, port, proto) <==> NamedPort(cfg, app, port, proto)
    {
      if Matches(rules, port, proto) {
        var i :| 0 <= i < |rules| && Covers(rules[i], port, proto);
        assert Applies(cfg, app, chosen[i]) && EntryNamesPort(chosen[i], port, proto);
      }
      if NamedPort(cfg, app, port, proto) {
        var e :| Applies(cfg, app, e) && EntryNamesPort(e, port, proto);
        var i :| 0 <= i < |chosen| && chosen[i] == e;
        assert Covers(rules[i], port, proto);
      }
    }
  }

  // ------------------------------------------------------------------ complement

  /** port_rule_allows: the linear scan of the allowed rules. */
  method PortRuleAllows(allowed: seq<PortRule>, port: int, proto: byte) returns (yes: bool)
    ensures yes <==> Matches(allowed, port, proto)
  {
    for i := 0 to |allowed|
      invariant forall k :: 0 <= k < i ==> !Covers(allowed[k], port, proto)
    {
      if Covers(allowed[i], port, proto) {
        return true;
      }
    }
    return false;
  }

  /** Which protocols a port is blocked for: the value of `protocol` in the scan,
      None where nothing is blocked. */
  ghost function BlockClass(allowed: seq<PortRule>, port: int): Option<byte>
  {
    if port < 0 || port > LAST_PORT then None
    else if !Matches(allowed, port, TCP) && !Matches(allowed, port, UDP) then Some(BOTH)
    else if !Matches(allowed, port, TCP) then Some(TCP)
    else if !Matches(allowed, port, UDP) then Some(UDP)
    else None
  }

  /** Sorted, disjoint, and no two touching ranges of the same protocol. */
  ghost predicate Normal(rules: seq<PortRule>)
  {
    && (forall i :: 0 <= i < |rules| ==> ValidRule(rules[i]))
    && (forall i, j :: 0 <= i < j < |rules| ==> rules[i].last < rules[j].first)
    && (forall i, j :: 0 <= i < j < |rules| && rules[i].last + 1 == rules[j].first ==> rules[i].proto != rules[j].proto)
  }

  /** The protocol of the last range that holds a port. */
  ghost function ClassIn(rules: seq<PortRule>, port: int): Option<byte>
  {
    if rules == [] then None
    else if rules[|rules| - 1].first <= port <= rules[|rules| - 1].last then Some(rules[|rules| - 1].proto)
    else ClassIn(rules[..|rules| - 1], port)
  }

  /** `rules` lists exactly the runs of `BlockClass`. */
  ghost predicate Complements(rules: seq<PortRule>, allowed: seq<PortRule>)
  {
    Normal(rules) && forall port :: 0 <= port <= LAST_PORT ==> ClassIn(rules, port) == BlockClass(allowed, port)
  }

  /** State of the scan before `port`: the open run starts at `start` and has class
      `open`; the ranges before it are already written. */
  ghost predicate Scanned(rules: seq<PortRule>, allowed: seq<PortRule>, start: int, open: Option<byte>, port: int)
  {
    && Normal(rules)
    && -1 <= start < port
    && (open.Some? ==> 0 <= start && port <= LAST_PORT + 1 && open.value <= BOTH)
    && (forall i :: 0 <= i < |rules| ==> rules[i].last < start)
    && (rules != [] && rules[|rules| - 1].last + 1 == start ==> open != Some(rules[|rules| - 1].proto))
    && (forall q :: start <= q < port ==> BlockClass(allowed, q) == open)
    && (forall q :: 0 <= q < start ==> ClassIn(rules, q) == BlockClass(allowed, q))
  }

  /** The scan of resolve_allowlist_exception_rules over 0..65536. */
  method ComplementRules(allowed: seq<PortRule>) returns (rules: seq<PortRule>)
    ensures Complements(rules, allowed)
  {
    rules := [];
    var rangeStart: int := -1;
    var rangeProtocol: Option<byte> := None;
    for port := 0 to LAST_PORT + 2
      invariant Scanned(rules, allowed, rangeStart, rangeProtocol, port)
    {
      var protocol := PortClass(allowed, port);
      if protocol != rangeProtocol {
        if rangeProtocol.Some? {
          CloseRun(rules, allowed, rangeStart, rangeProtocol.value, port);
          rules := rules + [PortRule(rangeStart, port - 1, rangeProtocol.value)];
        } else {
          OpenRun(rules, allowed, rangeStart, port);
        }
        rangeStart := port;
        rangeProtocol := protocol;
      } else {
        ExtendRun(rules, allowed, rangeStart, rangeProtocol, port);
      }
    }
    NoRangeFrom(rules, rangeStart);
  }

  lemma {:induction false} NoRangeFrom(rules: seq<PortRule>, start: int)
    requires forall i :: 0 <= i < |rules| ==> rules[i].last < start
    ensures forall q :: start <= q ==> ClassIn(rules, q) == None
  {
    forall q | start <= q ensures ClassIn(rules, q) == None { ClassBeyond(rules, q); }
  }

  /** The `protocol` computed for one port of the scan. */
  method PortClass(allowed: seq<PortRule>, port: nat) returns (protocol: Option<byte>)
    ensures protocol == BlockClass(allowed, port)
  {
    protocol := None;
    if port <= LAST_PORT {
      var tcpAllowed := PortRuleAllows(allowed, port, TCP);
      var udpAllowed := PortRuleAllows(allowed, port, UDP);
      if !tcpAllowed && !udpAllowed {
        protocol := Some(BOTH);
      } else if !tcpAllowed {
        protocol := Some(TCP);
      } else if !udpAllowed {
        protocol := Some(UDP);
      }
    }
  }

  lemma ExtendRun(rules: seq<PortRule>, allowed: seq<PortRule>, start: int, open: Option<byte>, port: int)
    requires Scanned(rules, allowed, start, open, port) && BlockClass(allowed, port) == open
    ensures Scanned(rules, allowed, start, open, port + 1)
  {
  }

  lemma OpenRun(rules: seq<PortRule>, allowed: seq<PortRule>, start: int, port: int)
    requires Scanned(rules, allowed, start, None, port) && 0 <= port && BlockClass(allowed, port) != None
    ensures Scanned(rules, allowed, port, BlockClass(allowed, port), port + 1)
  {
    NoRangeFrom(rules, start);
  }

  lemma NormalAppend(rules: seq<PortRule>, r: PortRule)
    requires Normal(rules) && ValidRule(r)
    requires forall i :: 0 <= i < |rules| ==> rules[i].last < r.first
    requires rules != [] && rules[|rules| - 1].last + 1 == r.first ==> r.proto != rules[|rules| - 1].proto
    ensures Normal(rules + [r])
  {
    forall i, j | 0 <= i < j < |rules + [r]| && (rules + [r])[i].last + 1 == (rules + [r])[j].first
      ensures (rules + [r])[i].proto != (rules + [r])[j].proto
    {
      if j == |rules| && i < |rules| - 1 {
        assert false;
      }
    }
  }

  lemma CloseRun(rules: seq<PortRule>, allowed: seq<PortRule>, start: int, open: byte, port: int)
    requires Scanned(rules, allowed, start, Some(open), port) && BlockClass(allowed, port) != Some(open)
    ensures Scanned(rules + [PortRule(start, port - 1, open)], allowed, port, BlockClass(allowed, port), port + 1)
  {
    var r := PortRule(start, port - 1, open);
    NormalAppend(rules, r);
    forall q | 0 <= q < port ensures ClassIn(rules + [r], q) == BlockClass(allowed, q) { ClassAppend(rules, r, q); }
  }

  lemma {:induction false} ClassAppend(rules: seq<PortRule>, r: PortRule, q: int)
    ensures ClassIn(rules + [r], q) == if r.first <= q <= r.last then Some(r.proto) else ClassIn(rules, q)
  {
    assert (rules + [r])[..|rules|] == rules;
  }

  lemma {:induction false} ClassBeyond(rules: seq<PortRule>, port: int)
    requires forall i :: 0 <= i < |rules| ==> rules[i].last < port
    ensures ClassIn(rules, port) == None
  {
    if rules != [] { ClassBeyond(rules[..|rules| - 1], port); }
  }

  lemma {:induction false} ClassFound(rules: seq<PortRule>, port: int)
    ensures ClassIn(rules, port).Some? <==> exists i :: 0 <= i < |rules| && rules[i].first <= port <= rules[i].last
    ensures ClassIn(rules, port).Some? ==>
      exists i :: 0 <= i < |rules| && rules[i].first <= port <= rules[i].last &&
                  rules[i].proto == ClassIn(rules, port).value
  {
    if rules != [] {
      var n := |rules| - 1;
      ClassFound(rules[..n], port);
      assert forall i :: 0 <= i < n ==> rules[..n][i] == rules[i];
      if rules[n].first <= port <= rules[n].last {
        assert rules[n].proto == ClassIn(rules, port).value;
      } else if i :| 0 <= i < n && rules[..n][i].first <= port <= rules[..n][i].last &&
                     rules[..n][i].proto == ClassIn(rules, port).value {
        assert rules[i].first <= port <= rules[i].last && rules[i].proto == ClassIn(rules, port).value;
      }
    }
  }

  lemma {:induction false} ClassAt(rules: seq<PortRule>, i: int, port: int)
    requires Normal(rules) && 0 <= i < |rules| && rules[i].first <= port <= rules[i].last
    ensures ClassIn(rules, port) == Some(rules[i].proto)
  {
    ClassFound(rules, port);
    assert forall k :: 0 <= k < |rules| && rules[k].first <= port <= rules[k].last ==> k == i;
  }

  /** A complement blocks exactly what the allowed rules leave out. */
  lemma ComplementBlocks(rules: seq<PortRule>, allowed: seq<PortRule>, port: int, proto: byte)
    requires Complements(rules, allowed) && 0 <= port <= LAST_PORT && proto <= UDP
    ensures Matches(rules, port, proto) <==> !Matches(allowed, port, proto)
  {
    assert ClassIn(rules, port) == BlockClass(allowed, port);
    ClassFound(rules, port);
    if i :| 0 <= i < |rules| && rules[i].first <= port <= rules[i].last {
      assert forall k :: 0 <= k < |rules| && rules[k].first <= port <= rules[k].last ==> k == i;
    }
  }

  /** Normal lists are canonical: the complement is determined by the ports it blocks,
      so its ranges are the maximal ones. */
  lemma {:induction false} NormalIsCanonical(a: seq<PortRule>, b: seq<PortRule>)
    requires Normal(a) && Normal(b) && SameClasses(a, b)
    ensures a == b
    decreases |a|
  {
    if a == [] || b == [] {
      if a != [] { ClassAt(a, 0, a[0].first); }
      if b != [] { ClassAt(b, 0, b[0].first); }
    } else {
      LastRange(a, b);
      LastRange(b, a);
      DropLast(a, b);
      NormalIsCanonical(a[..|a| - 1], b[..|b| - 1]);
      assert a == a[..|a| - 1] + [a[|a| - 1]] && b == b[..|b| - 1] + [b[|b| - 1]];
    }
  }

  ghost predicate SameClasses(a: seq<PortRule>, b: seq<PortRule>)
  {
    forall port :: 0 <= port <= LAST_PORT ==> ClassIn(a, port) == ClassIn(b, port)
  }

  lemma DropLast(a: seq<PortRule>, b: seq<PortRule>)
    requires a != [] && b != [] && a[|a| - 1] == b[|b| - 1] && Normal(a) && Normal(b) && SameClasses(a, b)
    ensures Normal(a[..|a| - 1]) && Normal(b[..|b| - 1]) && SameClasses(a[..|a| - 1], b[..|b| - 1])
  {
    var a', b', r := a[..|a| - 1], b[..|b| - 1], a[|a| - 1];
    assert a == a' + [r] && b == b' + [r];
    forall port | 0 <= port <= LAST_PORT ensures ClassIn(a', port) == ClassIn(b', port) {
      WithoutLast(a', b', r, port);
    }
  }

  lemma {:induction false} WithoutLast(a: seq<PortRule>, b: seq<PortRule>, r: PortRule, port: int)
    requires forall i :: 0 <= i < |a| ==> a[i].last < r.first
    requires forall i :: 0 <= i < |b| ==> b[i].last < r.first
    requires ClassIn(a + [r], port) == ClassIn(b + [r], port)
    ensures ClassIn(a, port) == ClassIn(b, port)
  {
    ClassAppend(a, r, port);
    ClassAppend(b, r, port);
    if r.first <= port {
      ClassBeyond(a, port);
      ClassBeyond(b, port);
    }
  }

  /** Just before a range of a normal list the class is a different one. */
  lemma {:induction false} ClassBefore(rules: seq<PortRule>, j: int)
    requires Normal(rules) && 0 <= j < |rules| && rules[j].first > 0
    ensures ClassIn(rules, rules[j].first - 1) != Some(rules[j].proto)
  {
    var q := rules[j].first - 1;
    ClassFound(rules, q);
    if i :| 0 <= i < |rules| && rules[i].first <= q <= rules[i].last {
      ClassAt(rules, i, q);
      assert i < j;
    }
  }

  /** The last range of `a` cannot reach past the last range of `b` at either end. */
  lemma LastRange(a: seq<PortRule>, b: seq<PortRule>)
    requires Normal(a) && Normal(b) && a != [] && b != [] && SameClasses(a, b)
    ensures a[|a| - 1].last <= b[|b| - 1].last
    ensures a[|a| - 1].last == b[|b| - 1].last ==>
      a[|a| - 1].proto == b[|b| - 1].proto && b[|b| - 1].first <= a[|a| - 1].first
  {
    var x, y := a[|a| - 1], b[|b| - 1];
    ClassAt(a, |a| - 1, x.last);
    ClassAt(b, |b| - 1, y.last);
    NoRangeFrom(b, y.last + 1);
    assert ClassIn(b, x.last) == ClassIn(a, x.last);
    if x.last == y.last && y.first > 0 && x.first <= y.first - 1 {
      ClassAt(a, |a| - 1, y.first - 1);
      ClassBefore(b, |b| - 1);
      assert false;
    }
  }

  // ------------------------------------------------------------------ how many rules

  /** A run of one class starts at port `q`. */
  ghost predicate StartsAt(f: int -> Option<byte>, q: nat) { f(q).Some? && (q == 0 || f(q - 1) != f(q)) }

  /** How many runs start below `n`. */
  ghost function Starts(f: int -> Option<byte>, n: nat): nat
  {
    if n == 0 then 0 else Starts(f, n - 1) + (if StartsAt(f, n - 1) then 1 else 0)
  }

  ghost function Classes(rules: seq<PortRule>): int -> Option<byte> { port => ClassIn(rules, port) }

  lemma {:induction false} SameStarts(f: int -> Option<byte>, g: int -> Option<byte>, n: nat)
    requires forall q :: 0 <= q < n ==> f(q) == g(q)
    ensures Starts(f, n) == Starts(g, n)
  {
    if n > 0 { SameStarts(f, g, n - 1); }
  }

  lemma {:induction false} NoStarts(f: int -> Option<byte>, m: nat, n: nat)
    requires m <= n && forall q: nat :: m <= q < n ==> !StartsAt(f, q)
    ensures Starts(f, n) == Starts(f, m)
  {
    if m < n { NoStarts(f, m, n - 1); }
  }

  /** A normal list has one range for every run of its classes. */
  lemma {:induction false} NormalCounts(rules: seq<PortRule>, end: nat)
    requires Normal(rules) && forall i :: 0 <= i < |rules| ==> rules[i].last < end
    ensures Starts(Classes(rules), end) == |rules|
    decreases |rules|
  {
    if rules == [] {
      NoStarts(Classes(rules), 0, end);
    } else {
      var n := |rules| - 1;
      var most, r := rules[..n], rules[n];
      assert rules == most + [r];
      NormalCounts(most, end);
      LastCounts(most, r, Classes(most), Classes(rules), end);
    }
  }

  lemma {:induction false} LastCounts(most: seq<PortRule>, r: PortRule, f: int -> Option<byte>, g: int -> Option<byte>,
                                      end: nat)
    requires Normal(most + [r]) && f == Classes(most) && g == Classes(most + [r]) && r.last < end
    ensures Starts(g, end) == Starts(f, end) + 1
  {
    LastClasses(most, r, f, g);
    SameStarts(f, g, r.first);
    NoStarts(g, r.first + 1, end);
    NoStarts(f, r.first, end);
  }

  /** The last range of a normal list starts one more run and changes no other. */
  lemma {:induction false} LastClasses(most: seq<PortRule>, r: PortRule, f: int -> Option<byte>, g: int -> Option<byte>)
    requires Normal(most + [r]) && f == Classes(most) && g == Classes(most + [r])
    ensures StartsAt(g, r.first) && forall q :: 0 <= q < r.first ==> f(q) == g(q)
    ensures forall q: nat :: q > r.first ==> !StartsAt(g, q)
    ensures forall q: nat :: q >= r.first ==> !StartsAt(f, q)
  {
    var rules := most + [r];
    assert rules[|most|] == r && forall i :: 0 <= i < |most| ==> rules[i] == most[i];
    forall q ensures g(q) == if r.first <= q <= r.last then Some(r.proto) else f(q) { ClassAppend(most, r, q); }
    forall q | q >= r.first ensures f(q).None? { ClassBeyond(most, q); }
    if r.first > 0 { ClassBefore(rules, |most|); }
  }

  /** Which protocols of a port the rules of an application leave unnamed. */
  ghost function UnnamedClass(cfg: Config, app: App, port: int): Option<byte>
  {
    var tcp, udp := NamedPort(cfg, app, port, TCP), NamedPort(cfg, app, port, UDP);
    if !tcp && !udp then Some(BOTH) else if !tcp then Some(TCP) else if !udp then Some(UDP) else None
  }

  /** How many rules an application is compiled to: in blacklist mode those that apply, or one
      for the full range; in allowlist mode one for each run of unnamed ports. */
  ghost function RuleCount(cfg: Config, app: App): nat
  {
    if Selected(cfg, app) == [] then (if cfg.allowlist then 0 else 1)
    else if cfg.allowlist then Starts(port => UnnamedClass(cfg, app, port), LAST_PORT + 1)
    else |Selected(cfg, app)|
  }

  lemma {:induction false} ComplementCounts(cfg: Config, app: App, named: seq<PortRule>, rules: seq<PortRule>)
    requires cfg.allowlist && Selected(cfg, app) != [] && Complements(rules, named)
    requires forall port: int, proto: byte :: Matches(named, port, proto) <==> NamedPort(cfg, app, port, proto)
    ensures |rules| == RuleCount(cfg, app)
  {
    var f := port => UnnamedClass(cfg, app, port);
    NormalCounts(rules, LAST_PORT + 1);
    forall q | 0 <= q < LAST_PORT + 1 ensures Classes(rules)(q) == f(q) {
      assert ClassIn(rules, q) == BlockClass(named, q);
    }
    SameStarts(Classes(rules), f, LAST_PORT + 1);
  }
}
