/** The JSON printer and parser (kmod/parson.c) for whole values, with numbers left to an
    abstract codec. */
module JsonCodec {
  import opened Types
  import opened JsonText

  const MAX_NESTING := 2048

  const COMMA: byte := 44
  const MINUS: byte := 45
  const COLON: byte := 58
  const NEWLINE: byte := 10
  const LBRACKET: byte := 91
  const RBRACKET: byte := 93
  const LBRACE: byte := 123
  const RBRACE: byte := 125

  const TRUE_TEXT: Text := [116, 114, 117, 101]
  const FALSE_TEXT: Text := [102, 97, 108, 115, 101]
  const NULL_TEXT: Text := [110, 117, 108, 108]

  datatype Json<N> =
    | Null
    | Bool(b: bool)
    | Number(n: N)
    | Str(s: Text)
    | Arr(items: seq<Json<N>>)
    | Obj(fields: seq<Field<N>>)

  datatype Field<N> = Field(name: Text, value: Json<N>)

  /** `show` is the number formatter; `read` is strtod with the decimal check: the number
      and how many bytes it took. */
  datatype Format<!N> = Format(show: N -> Text, read: Text -> Option<(N, nat)>, pretty: bool, slashes: bool)

  predicate NumberStart(c: byte) { c == MINUS || 48 <= c <= 57 }

  /** What may follow a number inside a document. */
  predicate Delimited(s: Text)
  {
    s == [] || s[0] == COMMA || s[0] == RBRACKET || s[0] == RBRACE || s[0] == NEWLINE
  }

  /** Printed numbers start like numbers and are read back whole. */
  ghost predicate Lawful<N(!new)>(f: Format<N>)
  {
    forall n :: f.show(n) != [] && NumberStart(f.show(n)[0]) && ReadsBack(f, n)
  }

  ghost predicate ReadsBack<N>(f: Format<N>, n: N)
  {
    forall rest: Text :: Delimited(rest) ==> f.read(f.show(n) + rest) == Some((n, |f.show(n)|))
  }

  // ------------------------------------------------------------------ printing

  function Nl<N>(f: Format<N>): Text { if f.pretty then [NEWLINE] else [] }

  function Spaces(n: nat): (r: Text)
    ensures |r| == n && forall i :: 0 <= i < n ==> r[i] == SPACE
  {
    seq(n, _ => SPACE)
  }

  function Indent<N>(f: Format<N>, level: nat): Text { if f.pretty then Spaces(4 * level) else [] }

  function Gap<N>(f: Format<N>): Text { if f.pretty then [SPACE] else [] }

  /** The lines between the brackets: each entry with its indent, a comma after all but the
      last, and a newline. */
  function Lines<N>(f: Format<N>, parts: seq<Text>, level: nat): Text
  {
    if parts == [] then [] else
    Indent(f, level + 1) + parts[0] + (if |parts| > 1 then [COMMA] else []) + Nl(f) + Lines(f, parts[1..], level)
  }

  function Bracketed<N>(f: Format<N>, open: byte, parts: seq<Text>, level: nat, close: byte): Text
  {
    if parts == [] then [open, close] else [open] + Nl(f) + Lines(f, parts, level) + Indent(f, level) + [close]
  }

  function Ser<N>(f: Format<N>, v: Json<N>, level: nat): Text
    decreases v, 1
  {
    match v
    case Null => NULL_TEXT
    case Bool(b) => if b then TRUE_TEXT else FALSE_TEXT
    case Number(n) => f.show(n)
    case Str(s) => SerString(s, f.slashes)
    case Arr(items) => Bracketed(f, LBRACKET, ItemParts(f, items, level), level, RBRACKET)
    case Obj(fields) => Bracketed(f, LBRACE, FieldParts(f, fields, level), level, RBRACE)
  }

  function ItemParts<N>(f: Format<N>, items: seq<Json<N>>, level: nat): (parts: seq<Text>)
    ensures |parts| == |items|
    decreases items, 0
  {
    if items == [] then [] else [Ser(f, items[0], level + 1)] + ItemParts(f, items[1..], level)
  }

  function SerField<N>(f: Format<N>, fd: Field<N>, level: nat): Text
    decreases fd, 2
  {
    SerString(fd.name, f.slashes) + [COLON] + Gap(f) + Ser(f, fd.value, level + 1)
  }

  function FieldParts<N>(f: Format<N>, fields: seq<Field<N>>, level: nat): (parts: seq<Text>)
    ensures |parts| == |fields|
    decreases fields, 0
  {
    if fields == [] then [] else [SerField(f, fields[0], level)] + FieldParts(f, fields[1..], level)
  }

  // ------------------------------------------------------------------ the size pass

  function StringSize(s: Text, slashes: bool): nat
  {
    if s == [] then 2 else |Escape(s[0], slashes)| + StringSize(s[1..], slashes)
  }

  function IndentSize<N>(f: Format<N>, level: nat): nat { if f.pretty then 4 * level else 0 }

  /** json_serialize_to_buffer_r without a buffer: only `written_total`. */
  function Size<N>(f: Format<N>, v: Json<N>, level: nat): nat
    decreases v, 1
  {
    match v
    case Null => 4
    case Bool(b) => if b then 4 else 5
    case Number(n) => |f.show(n)|
    case Str(s) => StringSize(s, f.slashes)
    case Arr(items) =>
      1 + (if items != [] then |Nl(f)| else 0) + ItemsSize(f, items, level) +
      (if items != [] then IndentSize(f, level) else 0) + 1
    case Obj(fields) =>
      1 + (if fields != [] then |Nl(f)| else 0) + FieldsSize(f, fields, level) +
      (if fields != [] then IndentSize(f, level) else 0) + 1
  }

  function ItemsSize<N>(f: Format<N>, items: seq<Json<N>>, level: nat): nat
    decreases items, 0
  {
    if items == [] then 0 else
    IndentSize(f, level + 1) + Size(f, items[0], level + 1) + (if |items| > 1 then 1 else 0) + |Nl(f)| +
    ItemsSize(f, items[1..], level)
  }

  function FieldsSize<N>(f: Format<N>, fields: seq<Field<N>>, level: nat): nat
    decreases fields, 0
  {
    if fields == [] then 0 else
    IndentSize(f, level + 1) +
    (StringSize(fields[0].name, f.slashes) + 1 + |Gap(f)| + Size(f, fields[0].value, level + 1)) +
    (if |fields| > 1 then 1 else 0) + |Nl(f)| + FieldsSize(f, fields[1..], level)
  }

  lemma {:induction false} StringSizeExact(s: Text, slashes: bool)
    ensures StringSize(s, slashes) == |SerString(s, slashes)|
  {
    if s != [] { StringSizeExact(s[1..], slashes); }
  }

  lemma {:induction false} LinesStep<N>(f: Format<N>, parts: seq<Text>, level: nat)
    requires parts != []
    ensures |Lines(f, parts, level)| ==
      IndentSize(f, level + 1) + |parts[0]| + (if |parts| > 1 then 1 else 0) + |Nl(f)| + |Lines(f, parts[1..], level)|
  {
  }

  /** The dry run predicts exactly the bytes written. */
  lemma {:induction false} SizeExact<N>(f: Format<N>, v: Json<N>, level: nat)
    ensures Size(f, v, level) == |Ser(f, v, level)|
    decreases v, 1
  {
    match v
    case Str(s) => StringSizeExact(s, f.slashes);
    case Arr(items) => ItemsSizeExact(f, items, level);
    case Obj(fields) => FieldsSizeExact(f, fields, level);
    case _ =>
  }

  lemma {:induction false} ItemsSizeExact<N>(f: Format<N>, items: seq<Json<N>>, level: nat)
    ensures ItemsSize(f, items, level) == |Lines(f, ItemParts(f, items, level), level)|
    decreases items, 0
  {
    if items != [] {
      SizeExact(f, items[0], level + 1);
      ItemsSizeExact(f, items[1..], level);
      LinesStep(f, ItemParts(f, items, level), level);
      assert ItemParts(f, items, level)[1..] == ItemParts(f, items[1..], level);
    }
  }

  lemma {:induction false} FieldsSizeExact<N>(f: Format<N>, fields: seq<Field<N>>, level: nat)
    ensures FieldsSize(f, fields, level) == |Lines(f, FieldParts(f, fields, level), level)|
    decreases fields, 0
  {
    if fields != [] {
      StringSizeExact(fields[0].name, f.slashes);
      SizeExact(f, fields[0].value, level + 1);
      FieldsSizeExact(f, fields[1..], level);
      LinesStep(f, FieldParts(f, fields, level), level);
      assert FieldParts(f, fields, level)[1..] == FieldParts(f, fields[1..], level);
    }
  }

  // ------------------------------------------------------------------ parsing

  predicate StartsWith(s: Text, t: Text) { |t| <= |s| && s[..|t|] == t }

  /** A parsed value and the text that follows it. */
  datatype Parsed<N> = Fail | Done(value: Json<N>, rest: Text)

  function ParseValue<N>(f: Format<N>, text: Text, nesting: nat): (r: Parsed<N>)
    ensures r.Done? ==> |r.rest| <= |text|
    decreases |text|, 2
  {
    if nesting > MAX_NESTING then Fail else
    var s := SkipWs(text);
    var c := Head(s);
    if c == LBRACE then ParseObject(f, s, nesting + 1)
    else if c == LBRACKET then ParseArray(f, s, nesting + 1)
    else if c == QUOTE then
      match GetQuoted(s)
      case None => Fail
      case Some((str, rest)) => Done(Str(str), rest)
    else if c == 102 || c == 116 then
      if StartsWith(s, TRUE_TEXT) then Done(Bool(true), s[4..])
      else if StartsWith(s, FALSE_TEXT) then Done(Bool(false), s[5..])
      else Fail
    else if NumberStart(c) then
      match f.read(s)
      case None => Fail
      case Some((n, len)) => if len <= |s| then Done(Number(n), s[len..]) else Fail
    else if c == 110 then if StartsWith(s, NULL_TEXT) then Done(Null, s[4..]) else Fail
    else Fail
  }

  function ParseArray<N>(f: Format<N>, s: Text, nesting: nat): (r: Parsed<N>)
    requires s != []
    ensures r.Done? ==> |r.rest| <= |s|
    decreases |s|, 1
  {
    var t := SkipWs(s[1..]);
    if Head(t) == RBRACKET then Done(Arr([]), t[1..]) else ParseItems(f, t, nesting, [])
  }

  function EndArray<N>(t: Text, items: seq<Json<N>>): Parsed<N>
  {
    if Head(t) == RBRACKET then Done(Arr(items), t[1..]) else Fail
  }

  /** The loop of parse_array_value; a comma before the bracket is tolerated. */
  function ParseItems<N>(f: Format<N>, t: Text, nesting: nat, acc: seq<Json<N>>): (r: Parsed<N>)
    ensures r.Done? ==> |r.rest| <= |t|
    decreases |t|, 3
  {
    if Head(t) == NUL then Fail else
    var v := ParseValue(f, t, nesting);
    if v.Fail? then Fail else
    var t2 := SkipWs(v.rest);
    if Head(t2) != COMMA then EndArray(t2, acc + [v.value]) else
    var t3 := SkipWs(t2[1..]);
    if Head(t3) == RBRACKET then EndArray(t3, acc + [v.value])
    else ParseItems(f, t3, nesting, acc + [v.value])
  }

  function ParseObject<N>(f: Format<N>, s: Text, nesting: nat): (r: Parsed<N>)
    requires s != []
    ensures r.Done? ==> |r.rest| <= |s|
    decreases |s|, 1
  {
    var t := SkipWs(s[1..]);
    if Head(t) == RBRACE then Done(Obj([]), t[1..]) else ParseFields(f, t, nesting, [])
  }

  function EndObject<N>(t: Text, fields: seq<Field<N>>): Parsed<N>
  {
    if Head(t) == RBRACE then Done(Obj(fields), t[1..]) else Fail
  }

  predicate HasName<N>(fields: seq<Field<N>>, name: Text)
  {
    exists i :: 0 <= i < |fields| && fields[i].name == name
  }

  datatype Entry<N> = Bad | Got(field: Field<N>, after: Text)

  /** One round of the object loop: a key without zero bytes, a colon and a value. */
  function ParseField<N>(f: Format<N>, t: Text, nesting: nat): (r: Entry<N>)
    ensures r.Got? ==> |r.after| < |t|
    decreases |t|, 3
  {
    match GetQuoted(t)
    case None => Bad
    case Some((key, rest)) =>
      if NUL in key then Bad else
      var t1 := SkipWs(rest);
      if Head(t1) != COLON then Bad else
      match ParseValue(f, t1[1..], nesting)
      case Fail => Bad
      case Done(v, after) => Got(Field(key, v), after)
  }

  /** The loop of parse_object_value; repeated keys are refused. */
  function ParseFields<N>(f: Format<N>, t: Text, nesting: nat, acc: seq<Field<N>>): (r: Parsed<N>)
    ensures r.Done? ==> |r.rest| <= |t|
    decreases |t|, 4
  {
    match ParseField(f, t, nesting)
    case Bad => Fail
    case Got(fd, after) =>
      if HasName(acc, fd.name) then Fail else
      var t2 := SkipWs(after);
      if Head(t2) != COMMA then EndObject(t2, acc + [fd]) else
      var t3 := SkipWs(t2[1..]);
      if Head(t3) == RBRACE then EndObject(t3, acc + [fd])
      else ParseFields(f, t3, nesting, acc + [fd])
  }

  /** json_parse_string: an optional byte order mark, then one value; trailing text is ignored. */
  function ParseText<N>(f: Format<N>, text: Text): Option<Json<N>>
  {
    var s := if |text| >= 3 && text[0] == 0xEF && text[1] == 0xBB && text[2] == 0xBF then text[3..] else text;
    match ParseValue(f, s, 0)
    case Fail => None
    case Done(v, _) => Some(v)
  }

  // ------------------------------------------------------------------ round trip

  predicate DistinctFields<N>(fields: seq<Field<N>>)
  {
    forall i, j :: 0 <= i < j < |fields| ==> fields[i].name != fields[j].name
  }

  /** Values that the library can hold: object keys are distinct C strings. */
  predicate WellFormed<N>(v: Json<N>)
  {
    match v
    case Arr(items) => forall i :: 0 <= i < |items| ==> WellFormed(items[i])
    case Obj(fields) =>
      DistinctFields(fields) && forall i :: 0 <= i < |fields| ==> NUL !in fields[i].name && WellFormed(fields[i].value)
    case _ => true
  }

  function Max(a: nat, b: nat): nat { if a < b then b else a }

  /** Levels of containers below a value that hold something. */
  function Depth<N>(v: Json<N>): nat
    decreases v, 1
  {
    match v
    case Arr(items) => ItemsDepth(items)
    case Obj(fields) => FieldsDepth(fields)
    case _ => 0
  }

  function ItemsDepth<N>(items: seq<Json<N>>): nat
    decreases items, 0
  {
    if items == [] then 0 else Max(1 + Depth(items[0]), ItemsDepth(items[1..]))
  }

  function FieldsDepth<N>(fields: seq<Field<N>>): nat
    decreases fields, 0
  {
    if fields == [] then 0 else Max(1 + Depth(fields[0].value), FieldsDepth(fields[1..]))
  }

  predicate ValueStart(c: byte)
  {
    c == LBRACE || c == LBRACKET || c == QUOTE || c == 102 || c == 116 || c == 110 || NumberStart(c)
  }

  lemma {:induction false} SerStart<N(!new)>(f: Format<N>, v: Json<N>, level: nat)
    requires Lawful(f)
    ensures Ser(f, v, level) != [] && ValueStart(Ser(f, v, level)[0])
  {
    match v
    case Number(n) => assert f.show(n) != [] && NumberStart(f.show(n)[0]);
    case _ =>
  }

  lemma {:induction false} SkipSpaces(ws: Text, s: Text)
    requires forall i :: 0 <= i < |ws| ==> IsSpace(ws[i])
    requires s != [] && !IsSpace(s[0])
    ensures SkipWs(ws + s) == s
  {
    if ws == [] {
      assert ws + s == s;
    } else {
      assert (ws + s)[1..] == ws[1..] + s;
      SkipSpaces(ws[1..], s);
    }
  }

  function Ws<N>(f: Format<N>, level: nat): (r: Text)
    ensures forall i :: 0 <= i < |r| ==> IsSpace(r[i])
  {
    Nl(f) + Indent(f, level)
  }

  /** What follows the first entry, up to the closing bracket. */
  function Tail<N>(f: Format<N>, parts: seq<Text>, level: nat): Text
    requires parts != []
  {
    if |parts| == 1 then Ws(f, level) else [COMMA] + (Ws(f, level + 1) + (parts[1] + Tail(f, parts[1..], level)))
  }

  lemma LastLine(ind: Text, first: Text, nl: Text, out: Text)
    ensures ind + first + [] + nl + [] + out == ind + (first + (nl + out))
  {
  }

  lemma MoreLines(ind: Text, first: Text, nl: Text, lines: Text, out: Text, next: Text)
    requires lines + out == ind + next
    ensures ind + first + [COMMA] + nl + lines + out == ind + (first + ([COMMA] + (nl + ind + next)))
  {
    assert ind + first + [COMMA] + nl + lines + out == ind + first + [COMMA] + nl + (lines + out);
  }

  lemma {:induction false} LinesJoin<N>(f: Format<N>, parts: seq<Text>, level: nat)
    requires parts != []
    ensures Lines(f, parts, level) + Indent(f, level) == Indent(f, level + 1) + (parts[0] + Tail(f, parts, level))
  {
    if |parts| == 1 {
      assert parts[1..] == [];
      LastLine(Indent(f, level + 1), parts[0], Nl(f), Indent(f, level));
    } else {
      LinesJoin(f, parts[1..], level);
      MoreLines(Indent(f, level + 1), parts[0], Nl(f), Lines(f, parts[1..], level), Indent(f, level),
                parts[1] + Tail(f, parts[1..], level));
    }
  }

  lemma OpenBracket(open: byte, nl: Text, lines: Text, out: Text, ind: Text, next: Text, close: Text, rest: Text)
    requires lines + out == ind + next
    ensures ([open] + nl + lines + out + close + rest)[1..] == nl + ind + (next + (close + rest))
  {
    assert ([open] + nl + lines + out + close + rest)[1..] == nl + (lines + out) + close + rest;
  }

  /** Behind the opening bracket the parser sees the first entry. */
  lemma {:induction false} BracketOpens<N>(f: Format<N>, open: byte, parts: seq<Text>, level: nat, close: byte,
                                           rest: Text)
    requires parts != [] && parts[0] != [] && !IsSpace(parts[0][0])
    ensures SkipWs((Bracketed(f, open, parts, level, close) + rest)[1..]) ==
              parts[0] + Tail(f, parts, level) + ([close] + rest)
  {
    LinesJoin(f, parts, level);
    var t := parts[0] + Tail(f, parts, level) + ([close] + rest);
    OpenBracket(open, Nl(f), Lines(f, parts, level), Indent(f, level), Indent(f, level + 1),
                parts[0] + Tail(f, parts, level), [close], rest);
    SkipSpaces(Ws(f, level + 1), t);
  }

  /** What parsing a printed value gives, at any nesting and in front of any delimiter. */
  ghost predicate Returns<N>(f: Format<N>, v: Json<N>, level: nat, nesting: nat, rest: Text)
  {
    ParseValue(f, Ser(f, v, level) + rest, nesting) == if nesting + Depth(v) <= MAX_NESTING then Done(v, rest) else Fail
  }

  lemma {:induction false} NoSpaceAhead<N(!new)>(f: Format<N>, v: Json<N>, level: nat, rest: Text)
    requires Lawful(f)
    ensures Ser(f, v, level) + rest != [] && ValueStart((Ser(f, v, level) + rest)[0])
    ensures SkipWs(Ser(f, v, level) + rest) == Ser(f, v, level) + rest
  {
    SerStart(f, v, level);
  }

  lemma ScalarRoundTrip<N(!new)>(f: Format<N>, v: Json<N>, level: nat, nesting: nat, rest: Text)
    requires Lawful(f) && Delimited(rest) && !v.Arr? && !v.Obj?
    ensures Returns(f, v, level, nesting, rest)
  {
    NoSpaceAhead(f, v, level, rest);
    var s := Ser(f, v, level) + rest;
    match v
    case Null => assert s[..4] == NULL_TEXT && s[4..] == rest;
    case Bool(b) =>
      if b { assert s[..4] == TRUE_TEXT && s[4..] == rest; }
      else { assert s[0] == 102 && s[..5] == FALSE_TEXT && s[5..] == rest; }
    case Number(n) =>
      assert ReadsBack(f, n);
      assert f.show(n) != [] && NumberStart(f.show(n)[0]);
      assert s[|f.show(n)|..] == rest;
    case Str(str) => QuotedRoundTrip(str, f.slashes, rest);
  }

  /** One round of the array loop, at the last item. */
  lemma {:induction false} LastItem<N>(f: Format<N>, t: Text, nesting: nat, acc: seq<Json<N>>, v: Json<N>, after: Text,
                                       rest: Text)
    requires Head(t) != NUL && ParseValue(f, t, nesting) == Done(v, after) && SkipWs(after) == [RBRACKET] + rest
    ensures ParseItems(f, t, nesting, acc) == Done(Arr(acc + [v]), rest)
  {
    assert ([RBRACKET] + rest)[1..] == rest;
  }

  /** One round of the array loop, with more to come. */
  lemma {:induction false} NextItem<N>(f: Format<N>, t: Text, nesting: nat, acc: seq<Json<N>>, v: Json<N>, x: Text,
                                       more: Text)
    requires Head(t) != NUL && ParseValue(f, t, nesting) == Done(v, [COMMA] + x)
    requires SkipWs(x) == more && Head(more) != RBRACKET
    ensures ParseItems(f, t, nesting, acc) == ParseItems(f, more, nesting, acc + [v])
  {
    assert SkipWs([COMMA] + x) == [COMMA] + x && ([COMMA] + x)[1..] == x;
  }

  lemma {:induction false} ArrayRoundTrip<N(!new)>(f: Format<N>, items: seq<Json<N>>, level: nat, nesting: nat,
                                                   rest: Text)
    requires Lawful(f) && nesting <= MAX_NESTING && (forall i :: 0 <= i < |items| ==> WellFormed(items[i]))
    ensures ParseArray(f, Ser(f, Arr(items), level) + rest, nesting + 1) ==
      if nesting + ItemsDepth(items) <= MAX_NESTING then Done(Arr(items), rest) else Fail
    decreases items, 2
  {
    var s := Ser(f, Arr(items), level) + rest;
    if items == [] {
      assert s[1..] == [RBRACKET] + rest;
      assert ([RBRACKET] + rest)[1..] == rest;
    } else {
      SerStart(f, items[0], level + 1);
      BracketOpens(f, LBRACKET, ItemParts(f, items, level), level, RBRACKET, rest);
      ItemsRoundTrip(f, items, level, nesting, [], rest);
      assert [] + items == items;
    }
  }

  /** The text the array loop sees: the items from the first one on, and the bracket. */
  function ItemsText<N>(f: Format<N>, items: seq<Json<N>>, level: nat, rest: Text): Text
    requires items != []
  {
    Ser(f, items[0], level + 1) + Tail(f, ItemParts(f, items, level), level) + ([RBRACKET] + rest)
  }

  function AfterItem<N>(f: Format<N>, items: seq<Json<N>>, level: nat, rest: Text): Text
    requires items != []
  {
    Tail(f, ItemParts(f, items, level), level) + ([RBRACKET] + rest)
  }

  lemma {:induction false} FirstItem<N(!new)>(f: Format<N>, items: seq<Json<N>>, level: nat, rest: Text)
    requires Lawful(f) && items != []
    ensures ItemsText(f, items, level, rest) == Ser(f, items[0], level + 1) + AfterItem(f, items, level, rest)
    ensures Head(ItemsText(f, items, level, rest)) != NUL && Delimited(AfterItem(f, items, level, rest))
  {
    SerStart(f, items[0], level + 1);
    TailDelimits(f, ItemParts(f, items, level), level, RBRACKET, rest);
  }

  lemma {:induction false} OneItem<N(!new)>(f: Format<N>, items: seq<Json<N>>, level: nat, nesting: nat,
                                            acc: seq<Json<N>>, rest: Text)
    requires Lawful(f) && |items| == 1
    requires ParseValue(f, ItemsText(f, items, level, rest), nesting) ==
               Done(items[0], AfterItem(f, items, level, rest))
    ensures ParseItems(f, ItemsText(f, items, level, rest), nesting, acc) == Done(Arr(acc + items), rest)
  {
    FirstItem(f, items, level, rest);
    SkipSpaces(Ws(f, level), [RBRACKET] + rest);
    LastItem(f, ItemsText(f, items, level, rest), nesting, acc, items[0], AfterItem(f, items, level, rest), rest);
    assert acc + [items[0]] == acc + items;
  }

  lemma {:induction false} MoreItems<N(!new)>(f: Format<N>, items: seq<Json<N>>, level: nat, nesting: nat,
                                              acc: seq<Json<N>>, rest: Text)
    requires Lawful(f) && |items| > 1
    requires ParseValue(f, ItemsText(f, items, level, rest), nesting) ==
               Done(items[0], AfterItem(f, items, level, rest))
    ensures ParseItems(f, ItemsText(f, items, level, rest), nesting, acc) ==
      ParseItems(f, ItemsText(f, items[1..], level, rest), nesting, acc + [items[0]])
  {
    var parts, more := ItemParts(f, items, level), ItemsText(f, items[1..], level, rest);
    FirstItem(f, items, level, rest);
    SerStart(f, items[1], level + 1);
    assert parts[1..] == ItemParts(f, items[1..], level) && parts[1] == parts[1..][0];
    TailNext(f, parts, level, [RBRACKET] + rest);
    NextItem(f, ItemsText(f, items, level, rest), nesting, acc, items[0], Ws(f, level + 1) + more, more);
  }

  lemma {:induction false} FirstItemTrip<N(!new)>(f: Format<N>, items: seq<Json<N>>, level: nat, nesting: nat,
                                                  acc: seq<Json<N>>, rest: Text)
    requires Lawful(f) && items != [] && WellFormed(items[0])
    ensures ParseItems(f, ItemsText(f, items, level, rest), nesting, acc) ==
      if nesting + Depth(items[0]) > MAX_NESTING then Fail
      else if |items| == 1 then Done(Arr(acc + items), rest)
      else ParseItems(f, ItemsText(f, items[1..], level, rest), nesting, acc + [items[0]])
    decreases items, 0
  {
    FirstItem(f, items, level, rest);
    RoundTrip(f, items[0], level + 1, nesting, AfterItem(f, items, level, rest));
    if nesting + Depth(items[0]) <= MAX_NESTING {
      if |items| == 1 {
        OneItem(f, items, level, nesting, acc, rest);
      } else {
        MoreItems(f, items, level, nesting, acc, rest);
      }
    }
  }

  lemma {:induction false} ItemsRoundTrip<N(!new)>(f: Format<N>, items: seq<Json<N>>, level: nat, nesting: nat,
                                                   acc: seq<Json<N>>, rest: Text)
    requires Lawful(f) && nesting <= MAX_NESTING && items != [] &&
             (forall i :: 0 <= i < |items| ==> WellFormed(items[i]))
    ensures ParseItems(f, ItemsText(f, items, level, rest), nesting + 1, acc) ==
      if nesting + ItemsDepth(items) <= MAX_NESTING then Done(Arr(acc + items), rest) else Fail
    decreases items, 1
  {
    FirstItemTrip(f, items, level, nesting + 1, acc, rest);
    if |items| > 1 {
      var acc', more := acc + [items[0]], items[1..];
      assert acc' + more == acc + items;
      ItemsRoundTrip(f, more, level, nesting, acc', rest);
    }
  }

  lemma {:induction false} TailDelimits<N>(f: Format<N>, parts: seq<Text>, level: nat, close: byte, rest: Text)
    requires parts != [] && (close == RBRACKET || close == RBRACE)
    ensures Delimited(Tail(f, parts, level) + ([close] + rest))
  {
  }

  lemma {:induction false} TailNext<N>(f: Format<N>, parts: seq<Text>, level: nat, close: Text)
    requires |parts| > 1 && parts[1] != [] && !IsSpace(parts[1][0])
    ensures var more := parts[1] + Tail(f, parts[1..], level) + close;
      && Tail(f, parts, level) + close == [COMMA] + (Ws(f, level + 1) + more)
      && SkipWs(Ws(f, level + 1) + more) == more && Head(more) == parts[1][0]
  {
    var ws, p, tail := Ws(f, level + 1), parts[1], Tail(f, parts[1..], level);
    assert [COMMA] + (ws + (p + tail)) + close == [COMMA] + (ws + (p + tail + close));
    SkipSpaces(ws, p + tail + close);
  }

  lemma {:induction false} LastField<N>(f: Format<N>, t: Text, nesting: nat, acc: seq<Field<N>>, fd: Field<N>,
                                        after: Text, rest: Text)
    requires ParseField(f, t, nesting) == Got(fd, after) && !HasName(acc, fd.name) && SkipWs(after) == [RBRACE] + rest
    ensures ParseFields(f, t, nesting, acc) == Done(Obj(acc + [fd]), rest)
  {
    assert ([RBRACE] + rest)[1..] == rest;
  }

  lemma {:induction false} NextField<N>(f: Format<N>, t: Text, nesting: nat, acc: seq<Field<N>>, fd: Field<N>, x: Text,
                                        more: Text)
    requires ParseField(f, t, nesting) == Got(fd, [COMMA] + x) && !HasName(acc, fd.name)
    requires SkipWs(x) == more && Head(more) != RBRACE
    ensures ParseFields(f, t, nesting, acc) == ParseFields(f, more, nesting, acc + [fd])
  {
    assert SkipWs([COMMA] + x) == [COMMA] + x && ([COMMA] + x)[1..] == x;
  }

  lemma {:induction false} ObjectRoundTrip<N(!new)>(f: Format<N>, fields: seq<Field<N>>, level: nat, nesting: nat,
                                                    rest: Text)
    requires Lawful(f) && nesting <= MAX_NESTING && WellFormed(Obj(fields))
    ensures ParseObject(f, Ser(f, Obj(fields), level) + rest, nesting + 1) ==
      if nesting + FieldsDepth(fields) <= MAX_NESTING then Done(Obj(fields), rest) else Fail
    decreases fields, 2
  {
    var s := Ser(f, Obj(fields), level) + rest;
    if fields == [] {
      assert s[1..] == [RBRACE] + rest;
      assert ([RBRACE] + rest)[1..] == rest;
    } else {
      FieldStart(f, fields[0], level, []);
      BracketOpens(f, LBRACE, FieldParts(f, fields, level), level, RBRACE, rest);
      assert [] + fields == fields;
      FieldsRoundTrip(f, fields, level, nesting, [], rest);
    }
  }

  lemma FieldPieces(name: Text, gap: Text, value: Text, after: Text)
    ensures name + [COLON] + gap + value + after == name + ([COLON] + (gap + (value + after)))
  {
  }

  lemma {:induction false} FieldStart<N>(f: Format<N>, fd: Field<N>, level: nat, after: Text)
    ensures SerField(f, fd, level) + after ==
      SerString(fd.name, f.slashes) + ([COLON] + (Gap(f) + (Ser(f, fd.value, level + 1) + after)))
    ensures SerField(f, fd, level) != [] && SerField(f, fd, level)[0] == QUOTE
  {
    FieldPieces(SerString(fd.name, f.slashes), Gap(f), Ser(f, fd.value, level + 1), after);
  }

  /** A printed field is read up to its value, whose parse decides what follows. */
  lemma {:induction false} FieldReads<N(!new)>(f: Format<N>, fd: Field<N>, level: nat, nesting: nat, after: Text)
    requires Lawful(f)
    ensures var t := SerField(f, fd, level) + after;
      && GetQuoted(t).Some? && GetQuoted(t).value.0 == fd.name && Head(t) == QUOTE
      && Head(SkipWs(GetQuoted(t).value.1)) == COLON
      && ParseValue(f, SkipWs(GetQuoted(t).value.1)[1..], nesting) ==
           ParseValue(f, Ser(f, fd.value, level + 1) + after, nesting)
  {
    FieldStart(f, fd, level, after);
    NoSpaceAhead(f, fd.value, level + 1, after);
    KeyThenColon(fd.name, f.slashes, Gap(f), Ser(f, fd.value, level + 1) + after);
    SameAfterSpaces(f, SkipWs(GetQuoted(SerField(f, fd, level) + after).value.1)[1..],
                    Ser(f, fd.value, level + 1) + after, nesting);
  }

  lemma {:induction false} SameAfterSpaces<N>(f: Format<N>, a: Text, b: Text, nesting: nat)
    requires SkipWs(a) == SkipWs(b)
    ensures ParseValue(f, a, nesting) == ParseValue(f, b, nesting)
  {
  }

  lemma KeyThenColon(name: Text, slashes: bool, gap: Text, value: Text)
    requires value != [] && !IsSpace(value[0]) && forall i :: 0 <= i < |gap| ==> IsSpace(gap[i])
    ensures var t := SerString(name, slashes) + ([COLON] + (gap + value));
      && GetQuoted(t).Some? && GetQuoted(t).value.0 == name
      && Head(SkipWs(GetQuoted(t).value.1)) == COLON
      && SkipWs(SkipWs(GetQuoted(t).value.1)[1..]) == value
  {
    var colon := [COLON] + (gap + value);
    QuotedRoundTrip(name, slashes, colon);
    assert SkipWs(colon) == colon && colon[1..] == gap + value;
    SkipSpaces(gap, value);
  }

  lemma NewName<N>(acc: seq<Field<N>>, fields: seq<Field<N>>)
    requires DistinctFields(acc + fields) && fields != []
    ensures !HasName(acc, fields[0].name)
  {
    forall i | 0 <= i < |acc| ensures acc[i].name != fields[0].name {
      assert (acc + fields)[i] == acc[i] && (acc + fields)[|acc|] == fields[0];
    }
  }

  function FieldsText<N>(f: Format<N>, fields: seq<Field<N>>, level: nat, rest: Text): Text
    requires fields != []
  {
    SerField(f, fields[0], level) + Tail(f, FieldParts(f, fields, level), level) + ([RBRACE] + rest)
  }

  function AfterField<N>(f: Format<N>, fields: seq<Field<N>>, level: nat, rest: Text): Text
    requires fields != []
  {
    Tail(f, FieldParts(f, fields, level), level) + ([RBRACE] + rest)
  }

  lemma {:induction false} FirstField<N(!new)>(f: Format<N>, fields: seq<Field<N>>, level: nat, rest: Text)
    requires fields != []
    ensures FieldsText(f, fields, level, rest) == SerField(f, fields[0], level) + AfterField(f, fields, level, rest)
    ensures Delimited(AfterField(f, fields, level, rest))
  {
    TailDelimits(f, FieldParts(f, fields, level), level, RBRACE, rest);
  }

  lemma {:induction false} OneField<N(!new)>(f: Format<N>, fields: seq<Field<N>>, level: nat, nesting: nat,
                                             acc: seq<Field<N>>, rest: Text)
    requires |fields| == 1 && !HasName(acc, fields[0].name)
    requires ParseField(f, FieldsText(f, fields, level, rest), nesting) ==
               Got(fields[0], AfterField(f, fields, level, rest))
    ensures ParseFields(f, FieldsText(f, fields, level, rest), nesting, acc) == Done(Obj(acc + fields), rest)
  {
    SkipSpaces(Ws(f, level), [RBRACE] + rest);
    LastField(f, FieldsText(f, fields, level, rest), nesting, acc, fields[0], AfterField(f, fields, level, rest), rest);
    assert acc + [fields[0]] == acc + fields;
  }

  lemma {:induction false} MoreFields<N(!new)>(f: Format<N>, fields: seq<Field<N>>, level: nat, nesting: nat,
                                               acc: seq<Field<N>>, rest: Text)
    requires |fields| > 1 && !HasName(acc, fields[0].name)
    ensures ParseField(f, FieldsText(f, fields, level, rest), nesting) ==
              Got(fields[0], AfterField(f, fields, level, rest)) ==>
      ParseFields(f, FieldsText(f, fields, level, rest), nesting, acc) ==
      ParseFields(f, FieldsText(f, fields[1..], level, rest), nesting, acc + [fields[0]])
  {
    if ParseField(f, FieldsText(f, fields, level, rest), nesting) ==
      Got(fields[0], AfterField(f, fields, level, rest)) {
      var parts, more := FieldParts(f, fields, level), FieldsText(f, fields[1..], level, rest);
      FieldStart(f, fields[1], level, []);
      assert parts[1..] == FieldParts(f, fields[1..], level) && parts[1] == parts[1..][0];
      TailNext(f, parts, level, [RBRACE] + rest);
      NextField(f, FieldsText(f, fields, level, rest), nesting, acc, fields[0], Ws(f, level + 1) + more, more);
    }
  }

  lemma {:induction false} FieldOutcome<N(!new)>(f: Format<N>, fields: seq<Field<N>>, level: nat, nesting: nat,
                                                 rest: Text)
    requires Lawful(f) && fields != [] && NUL !in fields[0].name
    requires Returns(f, fields[0].value, level + 1, nesting, AfterField(f, fields, level, rest))
    ensures ParseField(f, FieldsText(f, fields, level, rest), nesting) ==
      if nesting + Depth(fields[0].value) <= MAX_NESTING then Got(fields[0], AfterField(f, fields, level, rest))
      else Bad
  {
    FirstField(f, fields, level, rest);
    FieldReads(f, fields[0], level, nesting, AfterField(f, fields, level, rest));
  }

  predicate FieldOk<N>(fd: Field<N>) { NUL !in fd.name && WellFormed(fd.value) }

  lemma {:induction false} FirstFieldTrip<N(!new)>(f: Format<N>, fields: seq<Field<N>>, level: nat, nesting: nat,
                                                   acc: seq<Field<N>>, rest: Text)
    requires Lawful(f) && fields != [] && DistinctFields(acc + fields) && FieldOk(fields[0])
    ensures ParseFields(f, FieldsText(f, fields, level, rest), nesting, acc) ==
      if nesting + Depth(fields[0].value) > MAX_NESTING then Fail
      else if |fields| == 1 then Done(Obj(acc + fields), rest)
      else ParseFields(f, FieldsText(f, fields[1..], level, rest), nesting, acc + [fields[0]])
    decreases fields, 0
  {
    FirstField(f, fields, level, rest);
    RoundTrip(f, fields[0].value, level + 1, nesting, AfterField(f, fields, level, rest));
    FieldOutcome(f, fields, level, nesting, rest);
    NewName(acc, fields);
    if nesting + Depth(fields[0].value) <= MAX_NESTING {
      if |fields| == 1 {
        OneField(f, fields, level, nesting, acc, rest);
      } else {
        MoreFields(f, fields, level, nesting, acc, rest);
      }
    }
  }

  lemma {:induction false} FieldsRoundTrip<N(!new)>(f: Format<N>, fields: seq<Field<N>>, level: nat, nesting: nat,
                                                    acc: seq<Field<N>>, rest: Text)
    requires Lawful(f) && nesting <= MAX_NESTING && fields != []
    requires DistinctFields(acc + fields) && forall i :: 0 <= i < |fields| ==> FieldOk(fields[i])
    ensures ParseFields(f, FieldsText(f, fields, level, rest), nesting + 1, acc) ==
      if nesting + FieldsDepth(fields) <= MAX_NESTING then Done(Obj(acc + fields), rest) else Fail
    decreases fields, 1
  {
    FirstFieldTrip(f, fields, level, nesting + 1, acc, rest);
    if |fields| > 1 {
      var acc', more := acc + [fields[0]], fields[1..];
      assert acc' + more == acc + fields;
      assert forall i :: 0 <= i < |more| ==> more[i] == fields[i + 1];
      FieldsRoundTrip(f, more, level, nesting, acc', rest);
    }
  }

  /** Parsing undoes printing, up to the nesting limit and not beyond it. */
  lemma {:induction false} RoundTrip<N(!new)>(f: Format<N>, v: Json<N>, level: nat, nesting: nat, rest: Text)
    requires Lawful(f) && WellFormed(v) && Delimited(rest)
    ensures Returns(f, v, level, nesting, rest)
    decreases v, 3
  {
    NoSpaceAhead(f, v, level, rest);
    if nesting <= MAX_NESTING {
      match v
      case Arr(items) => ArrayRoundTrip(f, items, level, nesting, rest);
      case Obj(fields) => ObjectRoundTrip(f, fields, level, nesting, rest);
      case _ => ScalarRoundTrip(f, v, level, nesting, rest);
    }
  }

  /** The text of a document parses to the same tree, with keys in the same order, exactly
      when its nesting is within the limit. */
  lemma {:induction false} TextRoundTrip<N(!new)>(f: Format<N>, v: Json<N>)
    requires Lawful(f) && WellFormed(v)
    ensures ParseText(f, Ser(f, v, 0)) == if Depth(v) <= MAX_NESTING then Some(v) else None
  {
    SerStart(f, v, 0);
    RoundTrip(f, v, 0, 0, []);
    assert Ser(f, v, 0) + [] == Ser(f, v, 0);
  }
}
