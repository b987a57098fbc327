/** Hiding lines of kernel text files (kmod/hooks_netlink.c): stable compaction in place,
    and the interface names that decide it. */
module LineFilter {
  import opened Types
  import opened Wrapping

  const TAB: byte := 9
  const NEWLINE: byte := 10
  const RETURN: byte := 13
  const SPACE: byte := 32
  const COLON: byte := 58

  /** IFNAMSIZ - 1 */
  const MAX_NAME := 15

  type Text = seq<byte>

  // ------------------------------------------------------------------ lines

  /** The length of the first line, its newline included; all of it if there is none. */
  function LineLength(b: Text): (n: nat)
    ensures n <= |b| && (b != [] ==> n > 0)
    ensures forall i :: 0 <= i < n - 1 ==> b[i] != NEWLINE
    ensures 0 < n < |b| ==> b[n - 1] == NEWLINE
  {
    if b == [] then 0 else if b[0] == NEWLINE then 1 else 1 + LineLength(b[1..])
  }

  function Lines(b: Text): seq<Text>
  {
    if b == [] then [] else [b[..LineLength(b)]] + Lines(b[LineLength(b)..])
  }

  function Joined(lines: seq<Text>): Text { if lines == [] then [] else lines[0] + Joined(lines[1..]) }

  /** Splitting into lines loses nothing. */
  lemma {:induction false} JoinedLines(b: Text)
    ensures Joined(Lines(b)) == b
  {
    if b != [] { JoinedLines(b[LineLength(b)..]); }
  }

  /** No newline but at the end. */
  ghost predicate Plain(l: Text) { l != [] && forall i :: 0 <= i < |l| - 1 ==> l[i] != NEWLINE }

  ghost predicate IsLine(l: Text) { Plain(l) && l[|l| - 1] == NEWLINE }

  /** Lines as they come out of a text: only the last may lack its newline. */
  ghost predicate GoodLines(ls: seq<Text>)
  {
    forall i :: 0 <= i < |ls| ==> Plain(ls[i]) && (i < |ls| - 1 ==> IsLine(ls[i]))
  }

  lemma {:induction false} LinesAreGood(b: Text)
    ensures GoodLines(Lines(b))
  {
    if b != [] {
      var n := LineLength(b);
      LinesAreGood(b[n..]);
      assert Plain(b[..n]) && (n < |b| ==> IsLine(b[..n]));
    }
  }

  lemma {:induction false} LineLengthIs(b: Text, n: nat)
    requires 0 < n <= |b| && forall i :: 0 <= i < n - 1 ==> b[i] != NEWLINE
    requires n == |b| || b[n - 1] == NEWLINE
    ensures LineLength(b) == n
  {
    if LineLength(b) > n { assert b[n - 1] == NEWLINE; }
  }

  lemma {:induction false} LeadingLine(line: Text, rest: Text)
    requires Plain(line) && (rest == [] || IsLine(line))
    ensures Lines(line + rest) == [line] + Lines(rest)
  {
    LineLengthIs(line + rest, |line|);
    assert (line + rest)[..|line|] == line && (line + rest)[|line|..] == rest;
  }

  /** Lines that were put together come apart again. */
  lemma {:induction false} LinesJoined(ls: seq<Text>)
    requires GoodLines(ls)
    ensures Lines(Joined(ls)) == ls
  {
    if ls != [] {
      assert GoodLines(ls[1..]) by { assert forall i :: 0 <= i < |ls| - 1 ==> ls[1..][i] == ls[i + 1]; }
      LeadingLine(ls[0], Joined(ls[1..]));
      LinesJoined(ls[1..]);
    }
  }

  // ------------------------------------------------------------------ compaction

  function Shown(lines: seq<Text>, hidden: Text -> bool): seq<Text>
  {
    if lines == [] then [] else (if hidden(lines[0]) then [] else [lines[0]]) + Shown(lines[1..], hidden)
  }

  /** The text without its hidden lines. */
  function Filtered(b: Text, hidden: Text -> bool): Text { Joined(Shown(Lines(b), hidden)) }

  lemma FilteredStep(line: Text, rest: Text, hidden: Text -> bool)
    requires Plain(line) && (rest == [] || IsLine(line))
    ensures Filtered(line + rest, hidden) == (if hidden(line) then [] else line) + Filtered(rest, hidden)
  {
    LeadingLine(line, rest);
    ShownStep(line, Lines(rest), hidden);
  }

  lemma {:induction false} ShownStep(line: Text, lines: seq<Text>, hidden: Text -> bool)
    ensures Joined(Shown([line] + lines, hidden)) == (if hidden(line) then [] else line) + Joined(Shown(lines, hidden))
  {
    var rest := Shown(lines, hidden);
    assert ([line] + lines)[1..] == lines;
    if hidden(line) { assert [] + rest == rest; } else { assert ([line] + rest)[1..] == rest; }
  }

  /** The end of the line that starts at `src`, within the first `count` bytes. */
  function LineEnd(b: Text, src: nat, count: nat): (n: nat)
    requires src < count <= |b|
    ensures src < n <= count && (forall i :: src <= i < n - 1 ==> b[i] != NEWLINE) &&
            (n == count || b[n - 1] == NEWLINE)
    decreases count - src
  {
    if b[src] == NEWLINE || src + 1 == count then src + 1 else LineEnd(b, src + 1, count)
  }

  /** What is left of the text from `src` on. */
  function Rest(b: Text, src: nat, count: nat, hidden: Text -> bool): Text
    requires src <= count <= |b|
    decreases count - src
  {
    if src == count then [] else
    var n := LineEnd(b, src, count);
    (if hidden(b[src..n]) then [] else b[src..n]) + Rest(b, n, count, hidden)
  }

  lemma {:induction false} RestIsFiltered(b: Text, src: nat, count: nat, hidden: Text -> bool)
    requires src <= count <= |b|
    ensures Rest(b, src, count, hidden) == Filtered(b[src..count], hidden)
    decreases count - src
  {
    if src < count {
      var n := LineEnd(b, src, count);
      RestIsFiltered(b, n, count, hidden);
      FilteredStep(b[src..n], b[n..count], hidden);
      SplitAt(b, src, n, count);
    }
  }

  lemma SplitAt(b: Text, src: nat, n: nat, count: nat)
    requires src <= n <= count <= |b|
    ensures b[src..n] + b[n..count] == b[src..count]
  {
  }

  method FindLineEnd(buf: array<byte>, src: nat, count: nat) returns (at: nat)
    requires src < count <= buf.Length
    ensures at == LineEnd(buf[..], src, count)
  {
    at := src;
    while at < count && buf[at] != NEWLINE
      invariant src <= at <= count && forall i :: src <= i < at ==> buf[i] != NEWLINE
    {
      at := at + 1;
    }
    if at < count { at := at + 1; }
  }

  /** `n` bytes were copied from `src` to `dst`. */
  ghost predicate Moved(next: Text, now: Text, dst: nat, src: nat, n: nat)
  {
    && |next| == |now| && dst <= src && src + n <= |now|
    && (forall q :: dst <= q < dst + n ==> next[q] == now[q + (src - dst)])
    && (forall q :: 0 <= q < dst || dst + n <= q < |now| ==> next[q] == now[q])
  }

  /** memmove towards the front, unless the bytes are in place already. */
  method MoveDown(buf: array<byte>, dst: nat, src: nat, n: nat)
    requires dst <= src && src + n <= buf.Length
    modifies buf
    ensures Moved(buf[..], old(buf[..]), dst, src, n)
  {
    if dst == src { return; }
    for k := 0 to n
      invariant forall q :: dst <= q < dst + k ==> buf[q] == old(buf[q + (src - dst)])
      invariant forall q :: 0 <= q < dst || dst + k <= q < buf.Length ==> buf[q] == old(buf[q])
    {
      buf[dst + k] := buf[src + k];
    }
  }

  /** The filter has read up to `src` and written `out` from `start` on. */
  ghost predicate Progress(now: Text, was: Text, start: nat, out: Text, src: nat)
  {
    && |now| == |was| && start + |out| <= src <= |was|
    && (forall q :: 0 <= q < start || src <= q < |was| ==> now[q] == was[q])
    && (forall q :: start <= q < start + |out| ==> now[q] == out[q - start])
  }

  lemma {:induction false} SameLine(now: Text, was: Text, start: nat, out: Text, src: nat, count: nat)
    requires Progress(now, was, start, out, src) && src < count <= |was|
    ensures LineEnd(now, src, count) == LineEnd(was, src, count)
    ensures now[src..LineEnd(was, src, count)] == was[src..LineEnd(was, src, count)]
  {
    var m, n := LineEnd(now, src, count), LineEnd(was, src, count);
    var least := if m < n then m else n;
    assert now[least - 1] == was[least - 1];
  }

  lemma KeepLine(now: Text, next: Text, was: Text, start: nat, out: Text, src: nat, e: nat)
    requires Progress(now, was, start, out, src) && src <= e && Moved(next, now, start + |out|, src, e - src)
    ensures Progress(next, was, start, out + was[src..e], e)
  {
  }

  /** The output and what is left to read make up the whole result. */
  ghost predicate Accounted(was: Text, start: nat, out: Text, src: nat, count: nat, hidden: Text -> bool)
  {
    start <= src <= count <= |was| && out + Rest(was, src, count, hidden) == Rest(was, start, count, hidden)
  }

  lemma {:induction false} RestKeeps(b: Text, src: nat, e: nat, count: nat, hidden: Text -> bool)
    requires src < count <= |b| && e == LineEnd(b, src, count) && !hidden(b[src..e])
    ensures Rest(b, src, count, hidden) == b[src..e] + Rest(b, e, count, hidden)
  {
  }

  lemma {:induction false} FilterHides(was: Text, start: nat, out: Text, src: nat, count: nat, hidden: Text -> bool)
    requires Accounted(was, start, out, src, count, hidden) && src < count && hidden(was[src..LineEnd(was, src, count)])
    ensures Accounted(was, start, out, LineEnd(was, src, count), count, hidden)
  {
    assert Rest(was, src, count, hidden) == Rest(was, LineEnd(was, src, count), count, hidden);
  }

  lemma {:induction false} FilterKeeps(was: Text, start: nat, out: Text, src: nat, e: nat, count: nat,
                                       hidden: Text -> bool)
    requires Accounted(was, start, out, src, count, hidden) && src < count
    requires e == LineEnd(was, src, count) && !hidden(was[src..e])
    ensures Accounted(was, start, out + was[src..e], e, count, hidden)
  {
    RestKeeps(was, src, e, count, hidden);
    Regroup(out, was[src..e], Rest(was, e, count, hidden));
  }

  lemma FilterEnds(now: Text, was: Text, start: nat, out: Text, count: nat, hidden: Text -> bool)
    requires Progress(now, was, start, out, count) && Accounted(was, start, out, count, count, hidden)
    ensures now[..start] == was[..start] && now[start..start + |out|] == Filtered(was[start..count], hidden)
  {
    RestIsFiltered(was, start, count, hidden);
    assert now[start..start + |out|] == out;
  }

  method CopyLine(buf: array<byte>, ghost was: Text, start: nat, ghost out: Text, dst: nat, src: nat, e: nat)
    requires Progress(buf[..], was, start, out, src) && dst == start + |out| && src <= e <= buf.Length
    modifies buf
    ensures Progress(buf[..], was, start, out + was[src..e], e)
  {
    ghost var now := buf[..];
    MoveDown(buf, dst, src, e - src);
    KeepLine(now, buf[..], was, start, out, src, e);
  }

  /** The loop shared by the four filters: hidden lines between `start` and `count` go, all
      others keep their order and bytes, and nothing before `start` changes. */
  method FilterLines(buf: array<byte>, start: nat, count: nat, hidden: Text -> bool) returns (newCount: nat)
    requires count <= buf.Length
    modifies buf
    ensures count <= start ==> newCount == count && buf[..] == old(buf[..])
    ensures start < count ==> start <= newCount <= count && buf[..][..start] == old(buf[..])[..start]
    ensures start < count ==> buf[..][start..newCount] == Filtered(old(buf[..])[start..count], hidden)
  {
    if count <= start { return count; }
    var src: nat, dst: nat := start, start;
    ghost var was, out := buf[..], [];
    while src < count
      invariant dst == start + |out| && Progress(buf[..], was, start, out, src)
      invariant Accounted(was, start, out, src, count, hidden)
    {
      SameLine(buf[..], was, start, out, src, count);
      var lineEnd := FindLineEnd(buf, src, count);
      if hidden(buf[..][src..lineEnd]) {
        FilterHides(was, start, out, src, count, hidden);
      } else {
        CopyLine(buf, was, start, out, dst, src, lineEnd);
        FilterKeeps(was, start, out, src, lineEnd, count, hidden);
        out := out + was[src..lineEnd];
        dst := dst + (lineEnd - src);
      }
      src := lineEnd;
    }
    newCount := dst;
    FilterEnds(buf[..], was, start, out, count, hidden);
  }

  // ------------------------------------------------------------------ what remains

  lemma {:induction false} ShownIsGood(ls: seq<Text>, hidden: Text -> bool)
    requires GoodLines(ls)
    ensures GoodLines(Shown(ls, hidden)) && (Shown(ls, hidden) == [] || |ls| > 0)
  {
    if ls != [] {
      assert GoodLines(ls[1..]) by { assert forall i :: 0 <= i < |ls| - 1 ==> ls[1..][i] == ls[i + 1]; }
      ShownIsGood(ls[1..], hidden);
    }
  }

  /** The lines of the result are exactly the lines that are not hidden, in order. */
  lemma {:induction false} FilteredLines(b: Text, hidden: Text -> bool)
    ensures Lines(Filtered(b, hidden)) == Shown(Lines(b), hidden)
  {
    LinesAreGood(b);
    ShownIsGood(Lines(b), hidden);
    LinesJoined(Shown(Lines(b), hidden));
  }

  lemma {:induction false} ShownTwice(ls: seq<Text>, hidden: Text -> bool)
    ensures Shown(Shown(ls, hidden), hidden) == Shown(ls, hidden)
    ensures forall l :: l in Shown(ls, hidden) <==> l in ls && !hidden(l)
  {
    if ls != [] {
      ShownTwice(ls[1..], hidden);
      var rest := Shown(ls[1..], hidden);
      if !hidden(ls[0]) { assert ([ls[0]] + rest)[1..] == rest; } else { assert [] + rest == rest; }
      assert ls == [ls[0]] + ls[1..];
    }
  }

  /** Filtering again changes nothing, and no hidden line is left. */
  lemma {:induction false} FilterTwice(b: Text, hidden: Text -> bool)
    ensures Filtered(Filtered(b, hidden), hidden) == Filtered(b, hidden)
    ensures forall l :: l in Lines(Filtered(b, hidden)) <==> l in Lines(b) && !hidden(l)
  {
    FilteredLines(b, hidden);
    ShownTwice(Lines(b), hidden);
  }

  // ------------------------------------------------------------------ interface names

  predicate Blank(c: byte) { c == SPACE || c == TAB }

  /** The bytes before the first stop, at most `limit` of them. */
  function TakeName(b: Text, stop: byte -> bool, limit: nat): Text
  {
    if b == [] || limit == 0 || stop(b[0]) then [] else [b[0]] + TakeName(b[1..], stop, limit - 1)
  }

  lemma {:induction false} TakesName(name: Text, rest: Text, stop: byte -> bool, limit: nat)
    requires |name| <= limit && (forall i :: 0 <= i < |name| ==> !stop(name[i])) && (rest == [] || stop(rest[0]))
    ensures TakeName(name + rest, stop, limit) == name
  {
    if name == [] {
      assert name + rest == rest;
    } else {
      assert (name + rest)[1..] == name[1..] + rest;
      TakesName(name[1..], rest, stop, limit - 1);
    }
  }

  /** /proc/net/route: the line starts with the name. */
  function RouteName(line: Text): Text { TakeName(line, (c: byte) => c == TAB || c == NEWLINE, MAX_NAME) }

  function SkipBlanks(b: Text): Text { if b != [] && Blank(b[0]) then SkipBlanks(b[1..]) else b }

  /** /proc/net/dev: the name is padded on the left and ends at a colon. */
  function DevName(line: Text): Text
  {
    TakeName(SkipBlanks(line), (c: byte) => c == COLON || Blank(c) || c == NEWLINE, MAX_NAME)
  }

  function TrimmedLength(b: Text): (n: nat)
    ensures n <= |b|
  {
    if b != [] && (Blank(b[|b| - 1]) || b[|b| - 1] == NEWLINE || b[|b| - 1] == RETURN)
    then TrimmedLength(b[..|b| - 1]) else |b|
  }

  /** Back from `end` over at most `limit` bytes that are not blank. */
  function TokenStart(b: Text, end: nat, limit: nat): (n: nat)
    requires end <= |b|
    ensures n <= end
  {
    if end > 0 && limit > 0 && !Blank(b[end - 1]) then TokenStart(b, end - 1, limit - 1) else end
  }

  /** /proc/net/ipv6_route and /proc/net/if_inet6: the line ends with the name. */
  function LastName(line: Text): Text
  {
    TakeName(line[TokenStart(line, TrimmedLength(line), MAX_NAME)..], (c: byte) => Blank(c) || c == NEWLINE, MAX_NAME)
  }

  /** An interface name as the kernel allows it. */
  ghost predicate NameOk(name: Text)
  {
    0 < |name| <= MAX_NAME &&
    forall i :: 0 <= i < |name| ==> !Blank(name[i]) && name[i] != NEWLINE && name[i] != RETURN && name[i] != COLON
  }

  lemma RouteNameFound(name: Text, rest: Text)
    requires NameOk(name)
    ensures RouteName(name + ([TAB] + rest)) == name
  {
    TakesName(name, [TAB] + rest, (c: byte) => c == TAB || c == NEWLINE, MAX_NAME);
  }

  lemma {:induction false} BlanksSkipped(pad: Text, rest: Text)
    requires (forall i :: 0 <= i < |pad| ==> Blank(pad[i])) && (rest == [] || !Blank(rest[0]))
    ensures SkipBlanks(pad + rest) == rest
  {
    if pad == [] {
      assert pad + rest == rest;
    } else {
      assert (pad + rest)[1..] == pad[1..] + rest;
      BlanksSkipped(pad[1..], rest);
    }
  }

  lemma DevNameFound(pad: Text, name: Text, rest: Text)
    requires NameOk(name) && forall i :: 0 <= i < |pad| ==> Blank(pad[i])
    ensures DevName(pad + (name + ([COLON] + rest))) == name
  {
    BlanksSkipped(pad, name + ([COLON] + rest));
    TakesName(name, [COLON] + rest, (c: byte) => c == COLON || Blank(c) || c == NEWLINE, MAX_NAME);
  }

  lemma {:induction false} TokenStartsAt(b: Text, start: nat, end: nat, limit: nat)
    requires start <= end <= |b| && end - start <= limit
    requires (forall i :: start <= i < end ==> !Blank(b[i])) && (start == 0 || Blank(b[start - 1]))
    ensures TokenStart(b, end, limit) == start
    decreases end
  {
    if start < end { TokenStartsAt(b, start, end - 1, limit - 1); }
  }

  lemma LastNameFound(front: Text, name: Text)
    requires NameOk(name)
    ensures LastName(front + ([SPACE] + (name + [NEWLINE]))) == name
  {
    LastNameExactly(front, name, []);
    assert [] + [NEWLINE] == [NEWLINE];
  }

  // ------------------------------------------------------------------ whole files

  function Printed<E>(es: seq<E>, print1: E -> Text): (ls: seq<Text>)
    ensures |ls| == |es| && forall i :: 0 <= i < |es| ==> ls[i] == print1(es[i])
  {
    if es == [] then [] else [print1(es[0])] + Printed(es[1..], print1)
  }

  function Without<E>(es: seq<E>, vpn: E -> bool): seq<E>
  {
    if es == [] then [] else (if vpn(es[0]) then [] else [es[0]]) + Without(es[1..], vpn)
  }

  lemma {:induction false} ShownPrinted<E>(es: seq<E>, print1: E -> Text, hidden: Text -> bool, vpn: E -> bool)
    requires forall i :: 0 <= i < |es| ==> hidden(print1(es[i])) == vpn(es[i])
    ensures Shown(Printed(es, print1), hidden) == Printed(Without(es, vpn), print1)
  {
    if es != [] {
      var rest := Without(es[1..], vpn);
      ShownPrinted(es[1..], print1, hidden, vpn);
      assert Printed(es, print1)[1..] == Printed(es[1..], print1);
      if vpn(es[0]) { assert [] + rest == rest; } else { assert ([es[0]] + rest)[1..] == rest; }
    }
  }

  /** A file printed line by line reads, once filtered, as if the entries of VPN interfaces
      had never been printed. */
  lemma {:induction false} FileWithoutVpn<E>(es: seq<E>, print1: E -> Text, hidden: Text -> bool, vpn: E -> bool)
    requires forall i :: 0 <= i < |es| ==> IsLine(print1(es[i])) && hidden(print1(es[i])) == vpn(es[i])
    ensures Filtered(Joined(Printed(es, print1)), hidden) == Joined(Printed(Without(es, vpn), print1))
  {
    LinesJoined(Printed(es, print1));
    ShownPrinted(es, print1, hidden, vpn);
  }

  /** A line of a kernel file: an interface name with text before and after it. */
  datatype Entry = Entry(before: Text, name: Text, after: Text)

  ghost predicate OneLine(t: Text) { forall i :: 0 <= i < |t| ==> t[i] != NEWLINE }

  ghost predicate EntryOk(e: Entry) { NameOk(e.name) && OneLine(e.before) && OneLine(e.after) }

  function RouteLine(e: Entry): Text { e.name + ([TAB] + (e.after + [NEWLINE])) }

  function DevLine(e: Entry): Text { e.before + (e.name + ([COLON] + (e.after + [NEWLINE]))) }

  function LastLine(e: Entry): Text { e.before + ([SPACE] + (e.name + [NEWLINE])) }

  /** fib_route_ret */
  lemma RoutesWithoutVpn(es: seq<Entry>, vpn: Text -> bool)
    requires forall i :: 0 <= i < |es| ==> EntryOk(es[i])
    ensures Filtered(Joined(Printed(es, RouteLine)), l => vpn(RouteName(l))) ==
            Joined(Printed(Without(es, (e: Entry) => vpn(e.name)), RouteLine))
  {
    forall i | 0 <= i < |es| ensures IsLine(RouteLine(es[i])) && RouteName(RouteLine(es[i])) == es[i].name {
      RouteNameFound(es[i].name, es[i].after + [NEWLINE]);
    }
    FileWithoutVpn(es, RouteLine, l => vpn(RouteName(l)), (e: Entry) => vpn(e.name));
  }

  lemma DevLineRead(e: Entry)
    requires EntryOk(e) && forall k :: 0 <= k < |e.before| ==> Blank(e.before[k])
    ensures IsLine(DevLine(e)) && DevName(DevLine(e)) == e.name
  {
    DevNameFound(e.before, e.name, e.after + [NEWLINE]);
    var rest := e.name + ([COLON] + (e.after + [NEWLINE]));
    assert Plain(rest) && rest[|rest| - 1] == NEWLINE;
    assert Plain(e.before + rest);
  }

  /** dev_seq_ret: a line without a name is never hidden. */
  lemma {:induction false} DevicesWithoutVpn(es: seq<Entry>, vpn: Text -> bool)
    requires forall i :: 0 <= i < |es| ==>
               EntryOk(es[i]) && forall k :: 0 <= k < |es[i].before| ==> Blank(es[i].before[k])
    ensures Filtered(Joined(Printed(es, DevLine)), l => DevName(l) != [] && vpn(DevName(l))) ==
            Joined(Printed(Without(es, (e: Entry) => vpn(e.name)), DevLine))
  {
    forall i | 0 <= i < |es|
      ensures IsLine(DevLine(es[i])) && DevName(DevLine(es[i])) == es[i].name
    {
      DevLineRead(es[i]);
    }
    FileWithoutVpn(es, DevLine, l => DevName(l) != [] && vpn(DevName(l)), (e: Entry) => vpn(e.name));
  }

  /** ipv6_route_ret and if6_seq_ret */
  lemma AddressesWithoutVpn(es: seq<Entry>, vpn: Text -> bool)
    requires forall i :: 0 <= i < |es| ==> EntryOk(es[i])
    ensures Filtered(Joined(Printed(es, LastLine)), l => vpn(LastName(l))) ==
            Joined(Printed(Without(es, (e: Entry) => vpn(e.name)), LastLine))
  {
    forall i | 0 <= i < |es| ensures IsLine(LastLine(es[i])) && LastName(LastLine(es[i])) == es[i].name {
      LastNameFound(es[i].before, es[i].name);
    }
    FileWithoutVpn(es, LastLine, l => vpn(LastName(l)), (e: Entry) => vpn(e.name));
  }

  lemma {:induction false} TakesAll(name: Text, rest: Text, stop: byte -> bool, limit: nat)
    requires |name| <= limit && forall i :: 0 <= i < |name| ==> !stop(name[i])
    ensures TakeName(name + rest, stop, limit) == name + TakeName(rest, stop, limit - |name|)
  {
    if name == [] {
      assert name + rest == rest;
    } else {
      assert (name + rest)[1..] == name[1..] + rest;
      TakesAll(name[1..], rest, stop, limit - 1);
    }
  }

  predicate Trimmed(c: byte) { Blank(c) || c == NEWLINE || c == RETURN }

  lemma {:induction false} TrimsTrail(b: Text, trail: Text)
    requires b != [] && !Trimmed(b[|b| - 1]) && forall i :: 0 <= i < |trail| ==> Trimmed(trail[i])
    ensures TrimmedLength(b + trail) == |b|
  {
    if trail == [] {
      assert b + trail == b;
    } else {
      var n := |trail| - 1;
      assert (b + trail)[..|b| + n] == b + trail[..n];
      TrimsTrail(b, trail[..n]);
    }
  }

  /** Whatever blanks and returns follow the name, the scan takes it for the name that ends
      the line, and reads what starts there. */
  lemma {:induction false} LastNameIs(front: Text, name: Text, trail: Text)
    requires NameOk(name) && forall i :: 0 <= i < |trail| ==> Blank(trail[i]) || trail[i] == RETURN
    ensures LastName(front + ([SPACE] + (name + (trail + [NEWLINE])))) ==
            name + TakeName(trail + [NEWLINE], (c: byte) => Blank(c) || c == NEWLINE, MAX_NAME - |name|)
  {
    var rest := trail + [NEWLINE];
    LinePieces(front, name, rest);
    TrimsTrail(front + ([SPACE] + name), rest);
    NameAt(front + ([SPACE] + (name + rest)), |front| + 1, name, rest);
  }

  lemma NameAt(line: Text, start: nat, name: Text, rest: Text)
    requires NameOk(name) && 0 < start <= |line| && Blank(line[start - 1]) && line[start..] == name + rest
    requires TrimmedLength(line) == start + |name|
    ensures LastName(line) == name + TakeName(rest, (c: byte) => Blank(c) || c == NEWLINE, MAX_NAME - |name|)
  {
    assert forall i :: start <= i < start + |name| ==> line[i] == line[start..][i - start] == name[i - start];
    TokenStartsAt(line, start, start + |name|, MAX_NAME);
    TakesAll(name, rest, (c: byte) => Blank(c) || c == NEWLINE, MAX_NAME);
  }

  lemma LinePieces(front: Text, name: Text, rest: Text)
    requires name != []
    ensures var line, b := front + ([SPACE] + (name + rest)), front + ([SPACE] + name);
            && line == b + rest && line[|front|] == SPACE && line[|front| + 1..] == name + rest
            && b[|b| - 1] == name[|name| - 1]
  {
  }

  /** The name that ends a line is found, with blanks and returns between it and the newline,
      exactly when the first of these is not a return, or the name is as long as names get: a
      return is skipped on the way back and copied on the way forth. */
  lemma LastNameExactly(front: Text, name: Text, trail: Text)
    requires NameOk(name) && forall i :: 0 <= i < |trail| ==> Blank(trail[i]) || trail[i] == RETURN
    ensures LastName(front + ([SPACE] + (name + (trail + [NEWLINE])))) == name <==>
            trail == [] || trail[0] != RETURN || |name| == MAX_NAME
  {
    LastNameIs(front, name, trail);
    var rest := trail + [NEWLINE];
    assert trail != [] ==> rest[0] == trail[0];
  }
}
