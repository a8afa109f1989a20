/**
 The loops of cJSON's parser and printers (soaagent/cJSON.c), proved against the functions of
 module Json, with the sizes the printers allocate.
 */
module JsonLoops {
  import opened CString
  import opened JsonString
  import opened Json
  import opened Decimal

  // ----- parsing -----

  /** skip */
  method SkipLoop(t: string) returns (p: string)
    ensures p == Skip(t)
  {
    p := t;
    while p != [] && p[0] as int <= 32
      invariant Skip(p) == Skip(t)
      decreases |p|
    {
      p := p[1..];
    }
  }

  /** A digit loop of parse_number: the value, the text left, and how many digits were read. */
  method DigitLoop(t: string, acc: nat) returns (n: nat, p: string, read: nat)
    ensures (n, p) == TakeDigits(t, acc) && read == |t| - |p|
  {
    n, p, read := acc, t, 0;
    while p != [] && IsDigit(p[0])
      invariant TakeDigits(p, n) == TakeDigits(t, acc) && read == |t| - |p|
      decreases |p|
    {
      n := 10 * n + DigitValue(p[0]);
      p := p[1..];
      read := read + 1;
    }
  }

  /** The exponent of parse_number. */
  method ExponentLoop(t: string) returns (subscale: int, p: string)
    ensures (subscale, p) == Exponent(t)
  {
    p, subscale := t, 0;
    if At(p, 'e') || At(p, 'E') {
      p := p[1..];
      var negative := false;
      if At(p, '+') {
        p := p[1..];
      } else if At(p, '-') {
        negative := true;
        p := p[1..];
      }
      var e: nat, read: nat;
      e, p, read := DigitLoop(p, 0);
      subscale := if negative then 0 - e else e;
    }
  }

  method WholeLoop(num: string) returns (n: nat, p: string)
    ensures (n, p) == Whole(num)
  {
    n, p := 0, num;
    if At(p, '0') {
      p := p[1..];
    }
    if p != [] && '1' <= p[0] <= '9' {
      var read: nat;
      n, p, read := DigitLoop(p, 0);
    }
  }

  method FractionLoop(num: string, start: nat) returns (n: nat, digits: nat, p: string)
    ensures (n, digits, p) == Fraction(num, start)
  {
    n, digits, p := start, 0, num;
    if |p| >= 2 && p[0] == '.' && IsDigit(p[1]) {
      n, p, digits := DigitLoop(p[1..], n);
    }
  }

  /** The digits of parse_number after its sign. */
  method MagnitudeLoops(num: string) returns (x: real, p: string)
    ensures (x, p) == ParseMagnitude(num)
  {
    hide Whole, Fraction, Exponent, Scaled;
    var n: nat, digits: nat, subscale: int;
    n, p := WholeLoop(num);
    n, digits, p := FractionLoop(p, n);
    subscale, p := ExponentLoop(p);
    x := Scaled(n, subscale - digits);
  }

  /** parse_number */
  method ParseNumberLoops(num: string) returns (x: real, p: string)
    requires num != [] && (num[0] == '-' || IsDigit(num[0]))
    ensures (x, p) == ParseNumber(num)
  {
    hide ParseMagnitude;
    if At(num, '-') {
      x, p := MagnitudeLoops(num[1..]);
      x := -x;
    } else {
      x, p := MagnitudeLoops(num);
    }
  }

  /** parse_value */
  method ParseValueLoops(value: string) returns (r: Parsed<Json>)
    ensures r == ParseValue(value)
    decreases |value|, 2
  {
    if StartsWith(value, "null") {
      return Ok(Null, value[4..]);
    }
    if StartsWith(value, "false") {
      return Ok(False, value[5..]);
    }
    if StartsWith(value, "true") {
      return Ok(True, value[4..]);
    }
    if At(value, '"') {
      var s, _ := ParseStringLoops(value);
      return match s case Ok(text, rest) => Ok(String(text), rest) case Fail => Fail case Overrun => Overrun;
    }
    if value != [] && (value[0] == '-' || IsDigit(value[0])) {
      var x, rest := ParseNumberLoops(value);
      return Ok(Number(x), rest);
    }
    if At(value, '[') {
      r := ParseArrayLoop(value);
      return;
    }
    if At(value, '{') {
      r := ParseObjectLoop(value);
      return;
    }
    return Fail;
  }

  /** The elements read so far, followed by the rest of the chain. */
  function Chain(read: seq<Json>, rest: Items): Items
  {
    if read == [] then rest else Item(read[0], Chain(read[1..], rest))
  }

  /** What ParseItems does once it has an element and stands at the text after it. */
  function ItemsAfter(u: string): Parsed<Items>
  {
    if At(u, ',') then ParseItems(u[1..]) else if At(u, ']') then Ok(NoItem, u[1..]) else Fail
  }

  function Chained(read: seq<Json>, r: Parsed<Items>): Parsed<Items>
  {
    if r.Ok? then Ok(Chain(read, r.value), r.rest) else r
  }

  lemma {:induction false} ChainSnoc(read: seq<Json>, v: Json, rest: Items)
    ensures Chain(read + [v], rest) == Chain(read, Item(v, rest))
  {
    if read == [] {
      assert Chain([v], rest) == Item(v, Chain([v][1..], rest));
    } else {
      assert (read + [v])[1..] == read[1..] + [v];
      ChainSnoc(read[1..], v, rest);
    }
  }

  /** The chain once the next element is r. */
  function AfterItem(read: seq<Json>, r: Parsed<Json>): Parsed<Items>
  {
    match r
    case Ok(v, rest) => Chained(read + [v], ItemsAfter(Skip(rest)))
    case Fail => Fail
    case Overrun => Overrun
  }

  /** Reading one more element. */
  lemma ItemRead(read: seq<Json>, t: string)
    ensures Chained(read, ParseItems(t)) == AfterItem(read, ParseValue(Skip(t)))
  {
    hide ParseValue, Chain;
    var r := ParseValue(Skip(t));
    if r.Ok? {
      var more := ItemsAfter(Skip(r.rest));
      if more.Ok? {
        ChainSnoc(read, r.value, more.value);
      }
    }
  }

  /** parse_array */
  method ParseArrayLoop(t: string) returns (r: Parsed<Json>)
    requires At(t, '[')
    ensures r == ParseArray(t)
    decreases |t|, 1
  {
    hide ParseValue, ParseItems, Chain;
    var value := SkipLoop(t[1..]);
    if At(value, ']') {
      return Ok(Array(NoItem), value[1..]);
    }
    ghost var first := value;
    ItemRead([], first);
    EmptyChain(ParseItems(first));
    var start := SkipLoop(value);
    var child := ParseValueLoops(start);
    if !child.Ok? {
      return if child.Fail? then Fail else Overrun;
    }
    var read := [child.value];
    assert [] + [child.value] == read;
    value := SkipLoop(child.rest);
    while At(value, ',')
      invariant |value| < |t|
      invariant ParseItems(first) == Chained(read, ItemsAfter(value))
      decreases |value|
    {
      ItemRead(read, value[1..]);
      start := SkipLoop(value[1..]);
      child := ParseValueLoops(start);
      if !child.Ok? {
        return if child.Fail? then Fail else Overrun;
      }
      read := read + [child.value];
      value := SkipLoop(child.rest);
    }
    if At(value, ']') {
      return Ok(Array(Chain(read, NoItem)), value[1..]);
    }
    return Fail;
  }

  lemma EmptyChain(r: Parsed<Items>)
    ensures Chained([], r) == r
  {
  }

  function ChainMembers(read: seq<(string, Json)>, rest: Members): Members
  {
    if read == [] then rest else Member(read[0].0, read[0].1, ChainMembers(read[1..], rest))
  }

  function MembersAfter(u: string): Parsed<Members>
  {
    if At(u, ',') then ParseMembers(u[1..]) else if At(u, '}') then Ok(NoMember, u[1..]) else Fail
  }

  function ChainedMembers(read: seq<(string, Json)>, r: Parsed<Members>): Parsed<Members>
  {
    if r.Ok? then Ok(ChainMembers(read, r.value), r.rest) else r
  }

  lemma {:induction false} ChainMembersSnoc(read: seq<(string, Json)>, name: string, v: Json, rest: Members)
    ensures ChainMembers(read + [(name, v)], rest) == ChainMembers(read, Member(name, v, rest))
  {
    var one := [(name, v)];
    if read == [] {
      assert ChainMembers(one, rest) == Member(name, v, ChainMembers(one[1..], rest));
    } else {
      assert (read + one)[1..] == read[1..] + one;
      ChainMembersSnoc(read[1..], name, v, rest);
    }
  }

  /** A member from before its name: the name, the value, and the text after it. */
  function ReadMember(t: string): (r: Parsed<(string, Json)>)
    ensures r.Ok? ==> |r.rest| < |t|
  {
    var n := ParseName(t);
    match n
    case Fail => Fail
    case Overrun => Overrun
    case Ok(name, text) =>
      var r := ParseValue(text);
      match r
      case Fail => Fail
      case Overrun => Overrun
      case Ok(v, rest) => Ok((name, v), Skip(rest))
  }

  function AfterMember(read: seq<(string, Json)>, r: Parsed<(string, Json)>): Parsed<Members>
  {
    match r
    case Ok(m, rest) => ChainedMembers(read + [m], MembersAfter(rest))
    case Fail => Fail
    case Overrun => Overrun
  }

  lemma MemberRead(read: seq<(string, Json)>, t: string)
    ensures ChainedMembers(read, ParseMembers(t)) == AfterMember(read, ReadMember(t))
  {
    hide ParseValue, ParseName, ChainMembers;
    var r := ReadMember(t);
    if r.Ok? {
      var more := MembersAfter(r.rest);
      if more.Ok? {
        ChainMembersSnoc(read, r.value.0, r.value.1, more.value);
      }
    }
  }

  /** The name, the colon and the value of one member. */
  method ReadMemberLoops(t: string) returns (r: Parsed<(string, Json)>)
    ensures r == ReadMember(t)
    decreases |t|, 3
  {
    hide ParseValue, ParseString;
    var start := SkipLoop(t);
    var name, _ := ParseStringLoops(start);
    if !name.Ok? {
      return if name.Fail? then Fail else Overrun;
    }
    var value := SkipLoop(name.rest);
    if !At(value, ':') {
      return Fail;
    }
    start := SkipLoop(value[1..]);
    var child := ParseValueLoops(start);
    if !child.Ok? {
      return if child.Fail? then Fail else Overrun;
    }
    value := SkipLoop(child.rest);
    return Ok((name.value, child.value), value);
  }

  /** parse_object */
  method ParseObjectLoop(t: string) returns (r: Parsed<Json>)
    requires At(t, '{')
    ensures r == ParseObject(t)
    decreases |t|, 1
  {
    hide ReadMember, ParseMembers, ChainMembers;
    var value := SkipLoop(t[1..]);
    if At(value, '}') {
      return Ok(Object(NoMember), value[1..]);
    }
    ghost var first := value;
    MemberRead([], first);
    EmptyMemberChain(ParseMembers(first));
    var child := ReadMemberLoops(value);
    if !child.Ok? {
      return if child.Fail? then Fail else Overrun;
    }
    var read := [child.value];
    assert [] + [child.value] == read;
    value := child.rest;
    while At(value, ',')
      invariant |value| < |t|
      invariant ParseMembers(first) == ChainedMembers(read, MembersAfter(value))
      decreases |value|
    {
      MemberRead(read, value[1..]);
      child := ReadMemberLoops(value[1..]);
      if !child.Ok? {
        return if child.Fail? then Fail else Overrun;
      }
      read := read + [child.value];
      value := child.rest;
    }
    if At(value, '}') {
      return Ok(Object(ChainMembers(read, NoMember)), value[1..]);
    }
    return Fail;
  }

  lemma EmptyMemberChain(r: Parsed<Members>)
    ensures ChainedMembers([], r) == r
  {
  }

  // ----- printing -----

  /** print_string_ptr: the text, and the bytes its buffer was given. */
  method PrintStringLoops(str: string) returns (out: string, size: nat)
    requires NoNul(str)
    ensures out == PrintString(str) && |out| < size
  {
    hide EscapeChar;
    var len := 0;
    var i := 0;
    while i < |str|
      invariant 0 <= i <= |str|
      invariant len + |Escape(str[i..])| == |Escape(str)|
    {
      EscapeNext(str, i);
      EscapedLength(str[i]);
      len := len + 1;
      if str[i] in {'"', '\\', '\U{0008}', '\U{000C}', '\n', '\r', '\t'} {
        len := len + 1;
      } else if str[i] as int < 32 {
        len := len + 5;
      }
      i := i + 1;
    }
    size := len + 3;
    out := "\"";
    i := 0;
    assert str[0..] == str;
    while i < |str|
      invariant 0 <= i <= |str|
      invariant out + Escape(str[i..]) == "\"" + Escape(str)
    {
      EscapeNext(str, i);
      Associate(out, EscapeChar(str[i]), Escape(str[i + 1..]));
      EscapeForms(str[i]);
      var token := str[i];
      if token as int > 31 && token != '"' && token != '\\' {
        out := out + [token];
      } else if token == '\\' {
        out := out + ['\\', '\\'];
      } else if token == '"' {
        out := out + ['\\', '"'];
      } else if token == '\U{0008}' {
        out := out + ['\\', 'b'];
      } else if token == '\U{000C}' {
        out := out + ['\\', 'f'];
      } else if token == '\n' {
        out := out + ['\\', 'n'];
      } else if token == '\r' {
        out := out + ['\\', 'r'];
      } else if token == '\t' {
        out := out + ['\\', 't'];
      } else {
        out := out + (['\\', 'u'] + LowerHex4(token as int));
      }
      i := i + 1;
    }
    assert Escape(str[i..]) == "" && out + "" == out;
    out := out + "\"";
  }

  /** "%04x" */
  function LowerHex4(n: nat): (s: string)
    requires n < 0x1_0000
    ensures |s| == 4
  {
    [LowerHex(n / 0x1000), LowerHex(n / 0x100 % 16), LowerHex(n / 16 % 16), LowerHex(n % 16)]
  }

  lemma EscapeForms(c: char)
    ensures c as int <= 31 && c !in {'\U{0008}', '\U{000C}', '\n', '\r', '\t'} ==>
              EscapeChar(c) == ['\\', 'u'] + LowerHex4(c as int)
    ensures (c as int > 31 && c != '"' && c != '\\') ==> EscapeChar(c) == [c]
    ensures c == '\\' ==> EscapeChar(c) == ['\\', '\\']
    ensures c == '"' ==> EscapeChar(c) == ['\\', '"']
    ensures c == '\U{0008}' ==> EscapeChar(c) == ['\\', 'b']
    ensures c == '\U{000C}' ==> EscapeChar(c) == ['\\', 'f']
    ensures c == '\n' ==> EscapeChar(c) == ['\\', 'n']
    ensures c == '\r' ==> EscapeChar(c) == ['\\', 'r']
    ensures c == '\t' ==> EscapeChar(c) == ['\\', 't']
  {
  }

  lemma EscapeNext(str: string, i: nat)
    requires i < |str|
    ensures Escape(str[i..]) == EscapeChar(str[i]) + Escape(str[i + 1..])
  {
    assert str[i..][1..] == str[i + 1..];
  }

  lemma EscapedLength(c: char)
    ensures |EscapeChar(c)| == if c in {'"', '\\', '\U{0008}', '\U{000C}', '\n', '\r', '\t'} then 2
                               else if c as int < 32 then 6 else 1
  {
  }

  lemma NumeralLength(n: int)
    requires INT_MIN <= n <= INT_MAX
    ensures |Format(n)| < 21
  {
    var a := if n < 0 then -n else n;
    DigitsLength(a, 10);
  }

  lemma {:induction false} DigitsLength(n: nat, k: nat)
    requires n < TenTo(k) && 1 <= k
    ensures |Digits(n)| <= k
    decreases k
  {
    if n >= 10 {
      DigitsLength(n / 10, k - 1);
    }
  }

  function TenTo(k: nat): nat
  {
    if k == 0 then 1 else 10 * TenTo(k - 1)
  }

  /** The renderings of the elements of an array. */
  function Entries(items: Items, depth: nat, fmt: bool): seq<string>
    requires PrintableItems(items)
  {
    if items.NoItem? then [] else [Print(items.head, depth, fmt)] + Entries(items.next, depth, fmt)
  }

  function Joined(entries: seq<string>, separator: string): string
  {
    if entries == [] then ""
    else if |entries| == 1 then entries[0]
    else entries[0] + (separator + Joined(entries[1..], separator))
  }

  function TotalLength(entries: seq<string>): nat
  {
    if entries == [] then 0 else |entries[0]| + TotalLength(entries[1..])
  }

  lemma {:induction false} JoinedIsPrintItems(items: Items, depth: nat, fmt: bool)
    requires PrintableItems(items)
    ensures Joined(Entries(items, depth, fmt), "," + If(fmt, " ")) == PrintItems(items, depth, fmt)
    decreases items
  {
    hide Print, If;
    if items.Item? {
      var e := Entries(items.next, depth, fmt);
      JoinedIsPrintItems(items.next, depth, fmt);
      assert Entries(items, depth, fmt)[1..] == e;
      if items.next.NoItem? {
        assert Print(items.head, depth, fmt) + "" == Print(items.head, depth, fmt);
      }
    }
  }

  lemma {:induction false} JoinedLength(entries: seq<string>, separator: string)
    requires entries != []
    ensures |Joined(entries, separator)| == TotalLength(entries) + (|entries| - 1) * |separator|
  {
    if |entries| > 1 {
      JoinedLength(entries[1..], separator);
      assert (|entries| - 1) * |separator| == (|entries| - 2) * |separator| + |separator|;
    }
  }

  lemma {:induction false} TotalLengthSnoc(entries: seq<string>, e: string)
    ensures TotalLength(entries + [e]) == TotalLength(entries) + |e|
  {
    if entries == [] {
      assert TotalLength([e]) == |e| + TotalLength([e][1..]);
    } else {
      assert (entries + [e])[1..] == entries[1..] + [e];
      TotalLengthSnoc(entries[1..], e);
    }
  }

  /** The composing loop of print_array: entries and separators in order. */
  method Compose(entries: seq<string>, fmt: bool) returns (out: string)
    ensures out == Joined(entries, "," + If(fmt, " "))
  {
    hide If;
    out := "";
    var i := 0;
    assert entries[0..] == entries;
    while i < |entries|
      invariant 0 <= i <= |entries|
      invariant out + Joined(entries[i..], "," + If(fmt, " ")) == Joined(entries, "," + If(fmt, " "))
    {
      JoinedNext(entries, i, "," + If(fmt, " "), out);
      out := out + entries[i];
      if i != |entries| - 1 {
        out := out + ("," + If(fmt, " "));
      }
      i := i + 1;
    }
    assert out + "" == out;
  }

  lemma JoinedNext(entries: seq<string>, i: nat, separator: string, out: string)
    requires i < |entries|
    ensures var written := if i == |entries| - 1 then out + entries[i] else out + entries[i] + separator;
            out + Joined(entries[i..], separator) == written + Joined(entries[i + 1..], separator)
  {
    var rest := entries[i..];
    assert rest[1..] == entries[i + 1..];
    if i == |entries| - 1 {
      assert out + entries[i] + "" == out + entries[i];
    } else {
      var more := Joined(entries[i + 1..], separator);
      assert out + (entries[i] + (separator + more)) == out + entries[i] + separator + more;
    }
  }

  /** print_value: the text, and the bytes its buffer was given. */
  method PrintValueLoops(v: Json, depth: nat, fmt: bool) returns (out: string, size: nat)
    requires Printable(v)
    ensures out == Print(v, depth, fmt) && |out| < size
    decreases v, 1
  {
    match v {
      case Number(x) =>
        NumeralLength(x.Floor);
        return Format(x.Floor), 21;
      case String(s) =>
        out, size := PrintStringLoops(s);
      case Array(items) =>
        out, size := PrintArrayLoops(items, depth, fmt);
      case Object(members) =>
        out, size := PrintObjectLoops(members, depth, fmt);
      case Null =>
        return "null", 5;
      case False =>
        return "false", 6;
      case True =>
        return "true", 5;
    }
  }

  /** print_array */
  method PrintArrayLoops(items: Items, depth: nat, fmt: bool) returns (out: string, size: nat)
    requires PrintableItems(items)
    ensures out == Print(Array(items), depth, fmt) && |out| < size
    decreases items, 0
  {
    hide Print, PrintItems, If, Printable, Entries, TotalLength, Joined;
    ArrayText(items, depth, fmt);
    NoLength();
    if items.NoItem? {
      return "[]", 3;
    }
    var per := 2 + (if fmt then 1 else 0);
    var len := 5;
    var entries: seq<string> := [];
    var child := items;
    NoMoreEntries(depth + 1, fmt);
    while child.Item?
      invariant PrintableItems(child)
      invariant items nonincreases to child
      invariant entries == [] ==> child == items
      invariant entries + Entries(child, depth + 1, fmt) == Entries(items, depth + 1, fmt)
      invariant len == 5 + TotalLength(entries) + |entries| * per
      decreases child
    {
      var ret, _ := PrintValueLoops(child.head, depth + 1, fmt);
      TotalLengthSnoc(entries, ret);
      NextEntry(child, depth + 1, fmt, entries);
      entries := entries + [ret];
      len := len + |ret| + per;
      child := child.next;
    }
    assert entries == Entries(items, depth + 1, fmt);
    JoinedIsPrintItems(items, depth + 1, fmt);
    JoinedLength(entries, "," + If(fmt, " "));
    var body := Compose(entries, fmt);
    return "[" + body + "]", len;
  }

  lemma ArrayText(items: Items, depth: nat, fmt: bool)
    requires PrintableItems(items)
    ensures Print(Array(items), depth, fmt) == "[" + PrintItems(items, depth + 1, fmt) + "]"
    ensures items.NoItem? ==> Print(Array(items), depth, fmt) == "[]"
    ensures |If(fmt, " ")| == (if fmt then 1 else 0)
  {
  }

  lemma NextEntry(child: Items, depth: nat, fmt: bool, entries: seq<string>)
    requires child.Item? && PrintableItems(child)
    ensures entries + Entries(child, depth, fmt)
         == (entries + [Print(child.head, depth, fmt)]) + Entries(child.next, depth, fmt)
  {
    hide Print;
    Associate(entries, [Print(child.head, depth, fmt)], Entries(child.next, depth, fmt));
  }

  lemma NoLength()
    ensures TotalLength([]) == 0
  {
  }

  lemma NoMoreEntries(depth: nat, fmt: bool)
    ensures Entries(NoItem, depth, fmt) == []
  {
  }

  /** The names and values of an object as print_object collects them. */
  function Collected(members: Members, depth: nat, fmt: bool): seq<(string, string)>
    requires PrintableMembers(members)
  {
    if members.NoMember? then []
    else [(PrintString(members.name), Print(members.child, depth, fmt))] + Collected(members.following, depth, fmt)
  }

  /** One line of a rendered object: the indented name and value. */
  function Line(e: (string, string), depth: nat, fmt: bool): string
  {
    If(fmt, Tabs(depth)) + e.0 + ":" + If(fmt, "\t") + e.1
  }

  function Lines(es: seq<(string, string)>, depth: nat, fmt: bool): string
  {
    if es == [] then ""
    else if |es| == 1 then Line(es[0], depth, fmt) + If(fmt, "\n")
    else Line(es[0], depth, fmt) + ("," + If(fmt, "\n") + Lines(es[1..], depth, fmt))
  }

  lemma {:induction false} LinesArePrintMembers(members: Members, depth: nat, fmt: bool)
    requires PrintableMembers(members)
    ensures Lines(Collected(members, depth, fmt), depth, fmt) == PrintMembers(members, depth, fmt)
    decreases members
  {
    hide Print, If, PrintString, Tabs;
    if members.Member? {
      LinesArePrintMembers(members.following, depth, fmt);
      assert Collected(members, depth, fmt)[1..] == Collected(members.following, depth, fmt);
    }
  }

  /** What print_object adds to len for one member. */
  function Room(e: (string, string), depth: nat, fmt: bool): nat
  {
    |e.1| + |e.0| + 2 + (if fmt then 2 + depth else 0)
  }

  function Rooms(es: seq<(string, string)>, depth: nat, fmt: bool): nat
  {
    if es == [] then 0 else Room(es[0], depth, fmt) + Rooms(es[1..], depth, fmt)
  }

  lemma {:induction false} RoomsSnoc(es: seq<(string, string)>, e: (string, string), depth: nat, fmt: bool)
    ensures Rooms(es + [e], depth, fmt) == Rooms(es, depth, fmt) + Room(e, depth, fmt)
  {
    hide Room;
    if es == [] {
      assert Rooms([e], depth, fmt) == Room(e, depth, fmt) + Rooms([e][1..], depth, fmt);
    } else {
      assert (es + [e])[1..] == es[1..] + [e];
      RoomsSnoc(es[1..], e, depth, fmt);
    }
  }

  /** The members take no more than the room counted for them. */
  lemma {:induction false} LinesFit(es: seq<(string, string)>, depth: nat, fmt: bool)
    ensures |Lines(es, depth, fmt)| <= Rooms(es, depth, fmt)
  {
    if es != [] {
      LinesFit(es[1..], depth, fmt);
    }
  }

  /** The composing loop of print_object. */
  method ComposeLines(es: seq<(string, string)>, depth: nat, fmt: bool, start: string) returns (out: string)
    ensures out == start + Lines(es, depth, fmt)
  {
    hide If, Line, Lines;
    out := start;
    var i := 0;
    assert es[0..] == es;
    while i < |es|
      invariant 0 <= i <= |es|
      invariant out + Lines(es[i..], depth, fmt) == start + Lines(es, depth, fmt)
    {
      LinesNext(es, i, depth, fmt, out);
      out := out + Line(es[i], depth, fmt);
      if i != |es| - 1 {
        out := out + ",";
      }
      out := out + If(fmt, "\n");
      i := i + 1;
    }
    NoLines(es[i..], depth, fmt);
    assert out + "" == out;
  }

  lemma NoLines(es: seq<(string, string)>, depth: nat, fmt: bool)
    requires es == []
    ensures Lines(es, depth, fmt) == ""
  {
  }

  lemma LinesNext(es: seq<(string, string)>, i: nat, depth: nat, fmt: bool, out: string)
    requires i < |es|
    ensures var comma := if i == |es| - 1 then out + Line(es[i], depth, fmt) else out + Line(es[i], depth, fmt) + ",";
            out + Lines(es[i..], depth, fmt) == comma + If(fmt, "\n") + Lines(es[i + 1..], depth, fmt)
  {
    hide If, Line;
    var rest := es[i..];
    assert rest[1..] == es[i + 1..];
    var line, newline, more := Line(es[i], depth, fmt), If(fmt, "\n"), Lines(es[i + 1..], depth, fmt);
    if i == |es| - 1 {
      assert out + (line + newline) == out + line + newline + "";
    } else {
      assert out + (line + ("," + newline + more)) == out + line + "," + newline + more;
    }
  }

  /** print_object */
  method PrintObjectLoops(members: Members, depth: nat, fmt: bool) returns (out: string, size: nat)
    requires PrintableMembers(members)
    ensures out == Print(Object(members), depth, fmt) && |out| < size
    decreases members, 0
  {
    hide Print, PrintMembers, If, Printable, PrintString, NoNul, Room;
    ObjectRendering(members, depth, fmt);
    if members.NoMember? {
      return "{" + If(fmt, "\n" + Tabs(depth - 1)) + "}", if fmt then depth + 4 else 3;
    }
    var depth' := depth + 1;
    var len := 7 + (if fmt then depth' else 0);
    var es: seq<(string, string)> := [];
    var child := members;
    NothingCollected(depth', fmt);
    while child.Member?
      invariant PrintableMembers(child)
      invariant members nonincreases to child
      invariant es + Collected(child, depth', fmt) == Collected(members, depth', fmt)
      invariant len == 7 + (if fmt then depth' else 0) + Rooms(es, depth', fmt)
      decreases child
    {
      var str, _ := PrintStringLoops(child.name);
      var ret, _ := PrintValueLoops(child.child, depth', fmt);
      RoomsSnoc(es, (str, ret), depth', fmt);
      len := len + Room((str, ret), depth', fmt);
      es := es + [(str, ret)];
      child := child.following;
    }
    assert es == Collected(members, depth', fmt);
    LinesArePrintMembers(members, depth', fmt);
    LinesFit(es, depth', fmt);
    out := ComposeLines(es, depth', fmt, "{" + If(fmt, "\n"));
    out := out + If(fmt, Tabs(depth' - 1)) + "}";
    size := len;
  }

  lemma NothingCollected(depth: nat, fmt: bool)
    ensures Collected(NoMember, depth, fmt) == []
  {
  }

  lemma ObjectRendering(members: Members, depth: nat, fmt: bool)
    requires PrintableMembers(members)
    ensures Print(Object(members), depth, fmt)
         == if members.NoMember? then "{" + If(fmt, "\n" + Tabs(depth - 1)) + "}"
            else "{" + If(fmt, "\n") + PrintMembers(members, depth + 1, fmt) + If(fmt, Tabs(depth)) + "}"
    ensures |If(fmt, "\n" + Tabs(depth - 1))| == if fmt then 1 + (if depth > 0 then depth - 1 else 0) else 0
    ensures |If(fmt, "\n")| == (if fmt then 1 else 0) && |If(fmt, Tabs(depth))| == (if fmt then depth else 0)
  {
  }
}
