/** cJSON value trees, the two printers and the recursive parser as functions (soaagent/cJSON.c). */
module Json {
  import opened JsonString
  import opened Decimal

  /** A node and the next-linked list of its children; numbers are the valuedouble. */
  datatype Json =
    | Null
    | False
    | True
    | Number(value: real)
    | String(s: string)
    | Array(items: Items)
    | Object(members: Members)

  datatype Items = NoItem | Item(head: Json, next: Items)

  datatype Members = NoMember | Member(name: string, child: Json, following: Members)

  const INT_MAX := 0x7FFF_FFFF
  const INT_MIN := -0x8000_0000

  /** A number that print_number renders with "%d". */
  predicate IntNumber(x: real)
  {
    x == x.Floor as real && INT_MIN <= x.Floor <= INT_MAX
  }

  /** Those are the integers of 32 bits with a sign. */
  lemma IntNumbers32(n: int)
    ensures IntNumber(n as real) <==> -0x8000_0000 <= n < 0x8000_0000
  {
    assert (n as real).Floor == n;
  }

  /** Trees over C strings and int-range numbers, every member named. */
  predicate Printable(v: Json)
  {
    match v
    case Number(x) => IntNumber(x)
    case String(s) => NoNul(s)
    case Array(items) => PrintableItems(items)
    case Object(members) => PrintableMembers(members)
    case _ => true
  }

  predicate PrintableItems(items: Items)
  {
    items.Item? ==> Printable(items.head) && PrintableItems(items.next)
  }

  predicate PrintableMembers(members: Members)
  {
    members.Member? ==> NoNul(members.name) && Printable(members.child) && PrintableMembers(members.following)
  }

  // ----- printing -----

  function Tabs(n: int): (s: string)
    ensures |s| == if n > 0 then n else 0
    ensures forall i | 0 <= i < |s| :: s[i] == '\t'
  {
    if n <= 0 then "" else "\t" + Tabs(n - 1)
  }

  /** s in the formatted rendering, nothing in the other. */
  function If(fmt: bool, s: string): string
  {
    if fmt then s else ""
  }

  /** print_value */
  function Print(v: Json, depth: nat, fmt: bool): string
    requires Printable(v)
    decreases v
  {
    match v
    case Null => "null"
    case False => "false"
    case True => "true"
    case Number(x) => Format(x.Floor)
    case String(s) => PrintString(s)
    case Array(items) => "[" + PrintItems(items, depth + 1, fmt) + "]"
    case Object(members) =>
      if members.NoMember? then "{" + If(fmt, "\n" + Tabs(depth - 1)) + "}"
      else "{" + If(fmt, "\n") + PrintMembers(members, depth + 1, fmt) + If(fmt, Tabs(depth)) + "}"
  }

  /** The entries of print_array. */
  function PrintItems(items: Items, depth: nat, fmt: bool): string
    requires PrintableItems(items)
    decreases items
  {
    match items
    case NoItem => ""
    case Item(v, next) =>
      Print(v, depth, fmt)
      + (if next.NoItem? then "" else "," + If(fmt, " ") + PrintItems(next, depth, fmt))
  }

  /** The entries of print_object. */
  function PrintMembers(members: Members, depth: nat, fmt: bool): string
    requires PrintableMembers(members)
    decreases members
  {
    match members
    case NoMember => ""
    case Member(name, v, following) =>
      If(fmt, Tabs(depth)) + PrintString(name) + ":" + If(fmt, "\t") + Print(v, depth, fmt)
      + (if following.NoMember? then If(fmt, "\n")
         else "," + If(fmt, "\n") + PrintMembers(following, depth, fmt))
  }

  // ----- parsing -----

  /** skip */
  function Skip(t: string): (r: string)
    ensures |r| <= |t| && (r != [] ==> r[0] as int > 32)
  {
    if t != [] && t[0] as int <= 32 then Skip(t[1..]) else t
  }

  function Pow10(e: int): real
    decreases if e < 0 then -e else e
  {
    if e == 0 then 1.0 else if e > 0 then 10.0 * Pow10(e - 1) else Pow10(e + 1) / 10.0
  }

  function Scaled(n: nat, e: int): real
  {
    n as real * Pow10(e)
  }

  /** The exponent, signed, and the text after it. */
  function Exponent(t: string): (r: (int, string))
    ensures |r.1| <= |t|
  {
    if At(t, 'e') || At(t, 'E') then
      var u := t[1..];
      if At(u, '-') then
        var r := TakeDigits(u[1..], 0);
        var n: int := r.0;
        (-n, r.1)
      else if At(u, '+') then TakeDigits(u[1..], 0)
      else TakeDigits(u, 0)
    else (0, t)
  }

  /** The digits before the point, a leading zero skipped. */
  function Whole(t: string): (r: (nat, string))
    ensures |r.1| <= |t|
    ensures t != [] && IsDigit(t[0]) ==> |r.1| < |t|
  {
    var u := if At(t, '0') then t[1..] else t;
    if u != [] && '1' <= u[0] <= '9' then TakeDigits(u, 0) else (0, u)
  }

  /** The digits after the point onto n, how many there were, and the text left. */
  function Fraction(t: string, n: nat): (r: (nat, nat, string))
    ensures |r.2| <= |t|
  {
    if |t| >= 2 && t[0] == '.' && IsDigit(t[1]) then
      var d := TakeDigits(t[1..], n);
      (d.0, |t| - 1 - |d.1|, d.1)
    else (n, 0, t)
  }

  /** parse_number, on the text after the sign. */
  function ParseMagnitude(t: string): (r: (real, string))
    ensures |r.1| <= |t|
    ensures t != [] && IsDigit(t[0]) ==> |r.1| < |t|
  {
    var w := Whole(t);
    var f := Fraction(w.1, w.0);
    var e := Exponent(f.2);
    (Scaled(f.0, e.0 - f.1), e.1)
  }

  /** parse_number */
  function ParseNumber(t: string): (r: (real, string))
    requires t != [] && (t[0] == '-' || IsDigit(t[0]))
    ensures |r.1| < |t|
  {
    if t[0] == '-' then var (x, rest) := ParseMagnitude(t[1..]); (-x, rest)
    else ParseMagnitude(t)
  }

  /** parse_value */
  function ParseValue(t: string): (r: Parsed<Json>)
    ensures r.Ok? ==> |r.rest| < |t|
    decreases |t|, 2
  {
    if StartsWith(t, "null") then Ok(Null, t[4..])
    else if StartsWith(t, "false") then Ok(False, t[5..])
    else if StartsWith(t, "true") then Ok(True, t[4..])
    else if At(t, '"') then
      var r := ParseString(t);
      (match r case Ok(s, rest) => Ok(String(s), rest) case Fail => Fail case Overrun => Overrun)
    else if t != [] && (t[0] == '-' || IsDigit(t[0])) then
      var (x, rest) := ParseNumber(t);
      Ok(Number(x), rest)
    else if At(t, '[') then ParseArray(t)
    else if At(t, '{') then ParseObject(t)
    else Fail
  }

  /** parse_array */
  function ParseArray(t: string): (r: Parsed<Json>)
    requires At(t, '[')
    ensures r.Ok? ==> |r.rest| < |t|
    decreases |t|, 1
  {
    var u := Skip(t[1..]);
    if At(u, ']') then Ok(Array(NoItem), u[1..])
    else
      var r := ParseItems(u);
      match r case Ok(items, rest) => Ok(Array(items), rest) case Fail => Fail case Overrun => Overrun
  }

  /** One turn of parse_array's chain of elements, from before the element. */
  function ParseItems(t: string): (r: Parsed<Items>)
    ensures r.Ok? ==> |r.rest| < |t|
    decreases |t|, 3
  {
    var r := ParseValue(Skip(t));
    match r
    case Fail => Fail
    case Overrun => Overrun
    case Ok(v, rest) =>
      var u := Skip(rest);
      if At(u, ',') then
        var more := ParseItems(u[1..]);
        if more.Ok? then Ok(Item(v, more.value), more.rest) else more
      else if At(u, ']') then Ok(Item(v, NoItem), u[1..])
      else Fail
  }

  /** parse_object */
  function ParseObject(t: string): (r: Parsed<Json>)
    requires At(t, '{')
    ensures r.Ok? ==> |r.rest| < |t|
    decreases |t|, 1
  {
    var u := Skip(t[1..]);
    if At(u, '}') then Ok(Object(NoMember), u[1..])
    else
      var r := ParseMembers(u);
      match r case Ok(members, rest) => Ok(Object(members), rest) case Fail => Fail case Overrun => Overrun
  }

  /** A member's name, its colon, and the text of its value. */
  function ParseName(t: string): (r: Parsed<string>)
    ensures r.Ok? ==> |r.rest| < |t|
  {
    var r := ParseString(Skip(t));
    match r
    case Fail => Fail
    case Overrun => Overrun
    case Ok(name, rest) =>
      var u := Skip(rest);
      if At(u, ':') then Ok(name, Skip(u[1..])) else Fail
  }

  /** One turn of parse_object's chain of members, from before the name. */
  function ParseMembers(t: string): (r: Parsed<Members>)
    ensures r.Ok? ==> |r.rest| < |t|
    decreases |t|, 3
  {
    var n := ParseName(t);
    match n
    case Fail => Fail
    case Overrun => Overrun
    case Ok(name, text) =>
      var r := ParseValue(text);
      match r
      case Fail => Fail
      case Overrun => Overrun
      case Ok(v, rest) =>
        var u := Skip(rest);
        if At(u, ',') then
          var more := ParseMembers(u[1..]);
          if more.Ok? then Ok(Member(name, v, more.value), more.rest) else more
        else if At(u, '}') then Ok(Member(name, v, NoMember), u[1..])
        else Fail
  }

  /** cJSON_ParseWithOpts */
  function ParseWithOpts(t: string, requireEnd: bool): Parsed<Json>
  {
    var r := ParseValue(Skip(t));
    if r.Ok? && requireEnd then (if Skip(r.rest) == [] then Ok(r.value, []) else Fail) else r
  }

  // ----- round trip -----

  /** Text that ends a number: nothing parse_number would read on. */
  predicate Ends(rest: string)
  {
    rest == [] || (!IsDigit(rest[0]) && rest[0] !in {'.', 'e', 'E'})
  }

  lemma {:induction false} SkipTabs(n: int, t: string)
    ensures Skip(Tabs(n) + t) == Skip(t)
  {
    if n <= 0 {
      assert Tabs(n) + t == t;
    } else {
      assert (Tabs(n) + t)[1..] == Tabs(n - 1) + t;
      SkipTabs(n - 1, t);
    }
  }

  lemma SkipOne(c: char, t: string)
    ensures c as int <= 32 ==> Skip([c] + t) == Skip(t)
    ensures c as int > 32 ==> Skip([c] + t) == [c] + t
  {
    assert ([c] + t)[1..] == t;
  }

  lemma SkipStays(t: string)
    ensures t == [] || t[0] as int > 32 ==> Skip(t) == t
  {
  }

  /** What the printers put first. */
  lemma PrintStart(v: Json, depth: nat, fmt: bool)
    requires Printable(v)
    ensures var p := Print(v, depth, fmt); p != [] && p[0] as int > 32 && p[0] != ']'
  {
  }

  lemma {:induction false} ParsePrintNegative(n: nat, rest: string)
    requires Ends(rest) && n > 0
    ensures var t := ['-'] + Digits(n) + rest; t[0] == '-' && ParseNumber(t) == (-(n as real), rest)
  {
    hide ParseMagnitude, Digits;
    var t := ['-'] + Digits(n) + rest;
    assert t[1..] == Digits(n) + rest;
    ParsePrintMagnitude(n, rest);
  }

  lemma {:induction false} ParsePrintNatural(n: nat, rest: string)
    requires Ends(rest)
    ensures var t := Digits(n) + rest; IsDigit(t[0]) && ParseNumber(t) == (n as real, rest)
  {
    hide ParseMagnitude, Digits;
    var t := Digits(n) + rest;
    assert t[0] == Digits(n)[0];
    ParsePrintMagnitude(n, rest);
  }

  lemma {:induction false} ParsePrintNumber(n: int, rest: string)
    requires Ends(rest)
    ensures var t := Format(n) + rest; (t[0] == '-' || IsDigit(t[0])) && ParseNumber(t) == (n as real, rest)
  {
    hide ParseNumber, Digits;
    if n < 0 {
      ParsePrintNegative(-n, rest);
    } else {
      ParsePrintNatural(n, rest);
    }
  }

  lemma {:induction false} ParsePrintMagnitude(n: nat, rest: string)
    requires Ends(rest)
    ensures ParseMagnitude(Digits(n) + rest) == (n as real, rest)
  {
    var t := Digits(n) + rest;
    assert t[0] == Digits(n)[0];
    if n == 0 {
      assert t[1..] == rest;
    } else {
      TakeDigitsOfDigits(n, rest);
    }
  }

  /** The first character decides what parse_value does. */
  lemma FirstCharacter(t: string)
    requires t != []
    ensures t[0] == '"' ==>
              ParseValue(t) == match ParseString(t)
                               case Ok(s, rest) => Ok(String(s), rest)
                               case Fail => Fail
                               case Overrun => Overrun
    ensures t[0] == '-' || IsDigit(t[0]) ==> ParseValue(t) == Ok(Number(ParseNumber(t).0), ParseNumber(t).1)
    ensures t[0] == '[' ==> ParseValue(t) == ParseArray(t)
    ensures t[0] == '{' ==> ParseValue(t) == ParseObject(t)
  {
    hide ParseString, ParseNumber, ParseArray, ParseObject;
    assert StartsWith(t, "null") ==> t[0] == 'n';
    assert StartsWith(t, "false") ==> t[0] == 'f';
    assert StartsWith(t, "true") ==> t[0] == 't';
  }

  /** parse_value of a number. */
  lemma {:induction false} ParsePrintNumberValue(n: int, rest: string)
    requires Ends(rest)
    ensures ParseValue(Format(n) + rest) == Ok(Number(n as real), rest)
  {
    hide ParseNumber, ParseValue;
    ParsePrintNumber(n, rest);
    FirstCharacter(Format(n) + rest);
  }

  lemma {:induction false} ParsePrintStringValue(s: string, rest: string)
    requires NoNul(s)
    ensures ParseValue(PrintString(s) + rest) == Ok(String(s), rest)
  {
    hide ParseString, ParseValue, PrintString;
    ParsePrintString(s, rest);
    QuoteFirst(s);
    FirstCharacter(PrintString(s) + rest);
  }

  lemma ParsePrintWord(v: Json, rest: string)
    requires v.Null? || v.False? || v.True?
    ensures ParseValue(Print(v, 0, false) + rest) == Ok(v, rest)
  {
    var w := Print(v, 0, false);
    var t := w + rest;
    assert t[|w|..] == rest;
    assert t[0] == w[0];
    assert StartsWith(t, w);
  }

  /**
   Printing and parsing: either rendering of a printable tree, at any depth and followed by
   anything that ends a number, parses back to the tree and leaves what follows.
   */
  lemma {:induction false} ParsePrint(v: Json, depth: nat, fmt: bool, rest: string)
    requires Printable(v) && Ends(rest)
    ensures ParseValue(Print(v, depth, fmt) + rest) == Ok(v, rest)
    decreases v
  {
    match v {
      case Number(x) =>
        ParsePrintNumberValue(x.Floor, rest);
      case String(s) =>
        ParsePrintStringValue(s, rest);
      case Array(items) =>
        ParsePrintArray(items, depth, fmt, rest);
      case Object(members) =>
        ParsePrintObject(members, depth, fmt, rest);
      case _ =>
        ParsePrintWord(v, rest);
    }
  }

  lemma {:induction false} ParsePrintArray(items: Items, depth: nat, fmt: bool, rest: string)
    requires PrintableItems(items)
    ensures ParseValue(Print(Array(items), depth, fmt) + rest) == Ok(Array(items), rest)
    decreases items, 1
  {
    hide ParseValue, ParseItems, PrintItems;
    var t := Print(Array(items), depth, fmt) + rest;
    var u := PrintItems(items, depth + 1, fmt) + "]" + rest;
    assert t[1..] == u;
    FirstCharacter(t);
    if items.NoItem? {
      NoEntries(depth + 1, fmt);
      assert u == "]" + rest && u[1..] == rest;
      SkipStays(u);
    } else {
      ItemsStart(items, depth + 1, fmt);
      SkipStays(u);
      ParsePrintItems(items, depth + 1, fmt, rest);
    }
  }

  lemma NoEntries(depth: nat, fmt: bool)
    ensures PrintItems(NoItem, depth, fmt) == "" && PrintMembers(NoMember, depth, fmt) == ""
  {
  }

  lemma ItemsStart(items: Items, depth: nat, fmt: bool)
    requires items.Item? && PrintableItems(items)
    ensures var p := PrintItems(items, depth, fmt); p != [] && p[0] as int > 32 && p[0] != ']'
  {
    hide Print;
    PrintStart(items.head, depth, fmt);
  }

  lemma {:induction false} ParsePrintItems(items: Items, depth: nat, fmt: bool, rest: string)
    requires items.Item? && PrintableItems(items)
    ensures ParseItems(PrintItems(items, depth, fmt) + "]" + rest) == Ok(items, rest)
    decreases items, 0
  {
    hide ParseValue, Print;
    var p := Print(items.head, depth, fmt);
    PrintStart(items.head, depth, fmt);
    var more := PrintItems(items.next, depth, fmt) + "]" + rest;
    var after := if items.next.NoItem? then "]" + rest else "," + If(fmt, " ") + more;
    var t := PrintItems(items, depth, fmt) + "]" + rest;
    assert t == p + after;
    SkipStays(t);
    SkipStays(after);
    ParsePrint(items.head, depth, fmt, after);
    if items.next.NoItem? {
      assert after[1..] == rest;
    } else {
      assert after[1..] == If(fmt, " ") + more;
      ParsePrintItems(items.next, depth, fmt, rest);
      SpaceBeforeItems(If(fmt, " "), more);
    }
  }

  lemma SpaceBeforeItems(space: string, t: string)
    requires space == "" || space == " "
    ensures ParseItems(space + t) == ParseItems(t)
  {
    hide ParseValue;
    if space == "" {
      assert space + t == t;
    } else {
      SkipOne(' ', t);
    }
  }

  lemma {:induction false} ParsePrintObject(members: Members, depth: nat, fmt: bool, rest: string)
    requires PrintableMembers(members)
    ensures ParseValue(Print(Object(members), depth, fmt) + rest) == Ok(Object(members), rest)
    decreases members, 1
  {
    hide ParseValue, ParseObject, Print, PrintMembers;
    ObjectText(members, depth, fmt, rest);
    var t := Print(Object(members), depth, fmt) + rest;
    FirstCharacter(t);
    if members.NoMember? {
      SkipIndent(fmt, depth - 1, "}" + rest);
      SkipStays("}" + rest);
      ParseObjectEnd(t, rest);
    } else {
      var u := PrintMembers(members, depth + 1, fmt) + (If(fmt, Tabs(depth)) + "}" + rest);
      SkipNewline(fmt, u);
      MembersStart(members, depth + 1, fmt, If(fmt, Tabs(depth)) + "}" + rest);
      SkippedMembers(u);
      ParsePrintMembers(members, depth + 1, fmt, depth, rest);
      ParseObjectMembers(t);
    }
  }

  /** How the text of an object continues after its brace. */
  lemma ObjectText(members: Members, depth: nat, fmt: bool, rest: string)
    requires PrintableMembers(members)
    ensures var t := Print(Object(members), depth, fmt) + rest;
            && At(t, '{')
            && t[1..] == (if members.NoMember? then If(fmt, "\n" + Tabs(depth - 1)) + ("}" + rest)
                          else If(fmt, "\n")
                               + (PrintMembers(members, depth + 1, fmt) + (If(fmt, Tabs(depth)) + "}" + rest)))
  {
    hide PrintMembers, If;
  }

  lemma ParseObjectEnd(t: string, rest: string)
    requires At(t, '{') && Skip(t[1..]) == "}" + rest
    ensures ParseObject(t) == Ok(Object(NoMember), rest)
  {
    assert ("}" + rest)[1..] == rest;
  }

  lemma ParseObjectMembers(t: string)
    requires At(t, '{') && At(Skip(t[1..]), '"') && ParseMembers(Skip(t[1..])).Ok?
    ensures var r := ParseMembers(Skip(t[1..])); ParseObject(t) == Ok(Object(r.value), r.rest)
  {
    hide ParseMembers;
  }

  lemma SkipIndent(fmt: bool, n: int, t: string)
    ensures Skip(If(fmt, "\n" + Tabs(n)) + t) == Skip(t)
    ensures Skip(If(fmt, Tabs(n)) + t) == Skip(t)
  {
    if fmt {
      assert "\n" + Tabs(n) + t == "\n" + (Tabs(n) + t);
      SkipOne('\n', Tabs(n) + t);
      SkipTabs(n, t);
    } else {
      assert "" + t == t;
    }
  }

  lemma SkipNewline(fmt: bool, t: string)
    ensures Skip(If(fmt, "\n") + t) == Skip(t) == Skip(If(fmt, "\t") + t)
  {
    SkipOne('\n', t);
    SkipOne('\t', t);
    assert "" + t == t;
  }

  /** The list of members starts with a quote after its indentation. */
  lemma MembersStart(members: Members, depth: nat, fmt: bool, tail: string)
    requires members.Member? && PrintableMembers(members)
    ensures At(Skip(PrintMembers(members, depth, fmt) + tail), '"')
  {
    hide Print, PrintString, If, Tabs, PrintMembers;
    var after := Print(members.child, depth, fmt)
                 + (if members.following.NoMember? then If(fmt, "\n") + tail
                    else "," + (If(fmt, "\n") + (PrintMembers(members.following, depth, fmt) + tail)));
    MembersText(members, depth, fmt, tail);
    NameText(If(fmt, Tabs(depth)), PrintString(members.name), If(fmt, "\t"), after);
    var q := PrintString(members.name) + (":" + If(fmt, "\t") + after);
    SkipIndent(fmt, depth, q);
    QuoteFirst(members.name);
    SkipStays(q);
  }

  lemma QuoteFirst(s: string)
    ensures At(PrintString(s), '"')
  {
  }

  lemma SkippedMembers(t: string)
    ensures ParseMembers(Skip(t)) == ParseMembers(t)
  {
    hide ParseValue, ParseString;
    SkipStays(Skip(t));
  }

  lemma NameText(tabs: string, name: string, tab: string, value: string)
    ensures tabs + name + ":" + tab + value == tabs + (name + (":" + tab + value))
    ensures (":" + tab + value)[1..] == tab + value
  {
  }

  /** The name and colon of a printed member. */
  lemma {:induction false} ParsePrintName(name: string, depth: nat, fmt: bool, value: string)
    requires NoNul(name) && value != [] && value[0] as int > 32
    ensures ParseName(If(fmt, Tabs(depth)) + PrintString(name) + ":" + If(fmt, "\t") + value) == Ok(name, value)
  {
    hide ParseString, PrintString, If, Tabs;
    var after := ":" + If(fmt, "\t") + value;
    var q := PrintString(name) + after;
    NameText(If(fmt, Tabs(depth)), PrintString(name), If(fmt, "\t"), value);
    SkipIndent(fmt, depth, q);
    QuoteFirst(name);
    SkipStays(q);
    ParsePrintString(name, after);
    SkipStays(after);
    SkipNewline(fmt, value);
    SkipStays(value);
  }

  lemma {:induction false} ParsePrintMembers(members: Members, depth: nat, fmt: bool, close: nat, rest: string)
    requires members.Member? && PrintableMembers(members)
    ensures ParseMembers(PrintMembers(members, depth, fmt) + (If(fmt, Tabs(close)) + "}" + rest)) == Ok(members, rest)
    decreases members, 0
  {
    hide ParseValue, Print, ParseName, PrintString, If, PrintMembers, ParseMembers;
    var Member(name, v, following) := members;
    var p := Print(v, depth, fmt);
    var tail := If(fmt, Tabs(close)) + "}" + rest;
    var more := PrintMembers(following, depth, fmt) + tail;
    var after := if following.NoMember? then If(fmt, "\n") + tail else "," + (If(fmt, "\n") + more);
    var t := PrintMembers(members, depth, fmt) + tail;
    PrintStart(v, depth, fmt);
    MembersText(members, depth, fmt, tail);
    ParsePrintName(name, depth, fmt, p + after);
    AfterEnds(fmt, close, rest, following.NoMember?, more);
    ParsePrint(v, depth, fmt, after);
    if following.NoMember? {
      ParseLastMember(t, name, v, after, rest);
    } else {
      ParsePrintMembers(following, depth, fmt, close, rest);
      SkipNewline(fmt, more);
      SkippedMembers(If(fmt, "\n") + more);
      SkippedMembers(more);
      ParseNextMember(t, name, v, If(fmt, "\n") + more);
    }
  }

  /** How the printed members continue after the first name and its colon. */
  lemma MembersText(members: Members, depth: nat, fmt: bool, tail: string)
    requires members.Member? && PrintableMembers(members)
    ensures PrintMembers(members, depth, fmt) + tail
         == If(fmt, Tabs(depth)) + PrintString(members.name) + ":" + If(fmt, "\t")
            + (Print(members.child, depth, fmt)
               + (if members.following.NoMember? then If(fmt, "\n") + tail
                  else "," + (If(fmt, "\n") + (PrintMembers(members.following, depth, fmt) + tail))))
  {
    hide Print, PrintString, If, Tabs;
    var head := If(fmt, Tabs(depth)) + PrintString(members.name) + ":" + If(fmt, "\t");
    var p, more := Print(members.child, depth, fmt), PrintMembers(members.following, depth, fmt);
    var e := if members.following.NoMember? then If(fmt, "\n") else "," + If(fmt, "\n") + more;
    Regroup(head, p, e, tail);
    Regroup(",", If(fmt, "\n"), more, tail);
  }

  lemma Regroup(a: string, b: string, c: string, d: string)
    ensures a + b + c + d == a + (b + (c + d)) && a + b + c + d == a + (b + c + d)
  {
  }

  lemma ParseLastMember(t: string, name: string, v: Json, after: string, rest: string)
    requires ParseName(t).Ok? && ParseName(t).value == name && ParseValue(ParseName(t).rest) == Ok(v, after)
    requires Skip(after) == "}" + rest
    ensures ParseMembers(t) == Ok(Member(name, v, NoMember), rest)
  {
    hide ParseName, ParseValue;
    assert ("}" + rest)[1..] == rest;
  }

  lemma ParseNextMember(t: string, name: string, v: Json, more: string)
    requires ParseName(t).Ok? && ParseName(t).value == name && ParseValue(ParseName(t).rest) == Ok(v, "," + more)
    requires ParseMembers(more).Ok?
    ensures ParseMembers(t) == Ok(Member(name, v, ParseMembers(more).value), ParseMembers(more).rest)
  {
    hide ParseName, ParseValue;
    var after := "," + more;
    assert after[1..] == more;
    SkipStays(after);
  }

  /** What follows a member's value: its end, and what remains after skipping. */
  lemma AfterEnds(fmt: bool, close: nat, rest: string, last: bool, more: string)
    ensures var tail := If(fmt, Tabs(close)) + "}" + rest;
            var after := if last then If(fmt, "\n") + tail else "," + (If(fmt, "\n") + more);
            Ends(after) && (last ==> Skip(after) == "}" + rest)
  {
    var tail := If(fmt, Tabs(close)) + "}" + rest;
    if last {
      assert tail == If(fmt, Tabs(close)) + ("}" + rest);
      SkipNewline(fmt, tail);
      SkipIndent(fmt, close, "}" + rest);
      SkipStays("}" + rest);
    }
  }

  /** cJSON_Parse of either rendering, with or without requiring the text to end, is the tree. */
  lemma {:induction false} ParseRendering(v: Json, fmt: bool, requireEnd: bool)
    requires Printable(v)
    ensures ParseWithOpts(Print(v, 0, fmt), requireEnd) == Ok(v, [])
  {
    hide Print, ParseValue;
    PrintStart(v, 0, fmt);
    SkipStays(Print(v, 0, fmt));
    ParsePrint(v, 0, fmt, "");
    assert Print(v, 0, fmt) + "" == Print(v, 0, fmt);
  }

  // ----- printed text is a C string -----

  lemma NoNulConcat(a: string, b: string)
    ensures NoNul(a + b) <==> NoNul(a) && NoNul(b)
  {
    assert forall i | 0 <= i < |b| :: (a + b)[|a| + i] == b[i];
    assert forall i | 0 <= i < |a| :: (a + b)[i] == a[i];
  }

  lemma {:induction false} EscapeNoNul(s: string)
    requires NoNul(s)
    ensures NoNul(Escape(s))
  {
    if s != [] {
      EscapeNoNul(s[1..]);
      EscapeCharNoNul(s[0]);
      NoNulConcat(EscapeChar(s[0]), Escape(s[1..]));
    }
  }

  lemma EscapeCharNoNul(c: char)
    requires c != '\0'
    ensures NoNul(EscapeChar(c))
  {
  }

  lemma PrintStringNoNul(s: string)
    requires NoNul(s)
    ensures NoNul(PrintString(s))
  {
    hide Escape;
    EscapeNoNul(s);
  }

  lemma Wrapped(a: string, x: string, b: string)
    requires NoNul(a) && NoNul(x) && NoNul(b)
    ensures NoNul(a + x + b)
  {
    NoNulConcat(a, x);
    NoNulConcat(a + x, b);
  }

  lemma IndentNoNul(depth: nat, fmt: bool)
    ensures NoNul("{" + If(fmt, "\n")) && NoNul(If(fmt, Tabs(depth)) + "}") && NoNul(If(fmt, "\n" + Tabs(depth - 1)))
  {
  }

  /** Neither rendering of a printable tree holds a NUL. */
  lemma {:induction false} PrintNoNul(v: Json, depth: nat, fmt: bool)
    requires Printable(v)
    ensures NoNul(Print(v, depth, fmt))
    decreases v
  {
    hide PrintString, PrintItems, PrintMembers, If, Tabs;
    match v {
      case Number(x) => FormatChars(x.Floor);
      case String(s) => PrintStringNoNul(s);
      case Array(items) =>
        PrintItemsNoNul(items, depth + 1, fmt);
        Wrapped("[", PrintItems(items, depth + 1, fmt), "]");
      case Object(members) =>
        IndentNoNul(depth, fmt);
        if members.NoMember? {
          Wrapped("{", If(fmt, "\n" + Tabs(depth - 1)), "}");
        } else {
          PrintMembersNoNul(members, depth + 1, fmt);
          Wrapped("{" + If(fmt, "\n"), PrintMembers(members, depth + 1, fmt), If(fmt, Tabs(depth)) + "}");
          assert Print(v, depth, fmt)
              == ("{" + If(fmt, "\n")) + PrintMembers(members, depth + 1, fmt) + (If(fmt, Tabs(depth)) + "}");
        }
      case _ =>
    }
  }

  lemma {:induction false} PrintItemsNoNul(items: Items, depth: nat, fmt: bool)
    requires PrintableItems(items)
    ensures NoNul(PrintItems(items, depth, fmt))
    decreases items
  {
    hide Print;
    if items.Item? {
      PrintNoNul(items.head, depth, fmt);
      PrintItemsNoNul(items.next, depth, fmt);
    }
  }

  lemma {:induction false} PrintMembersNoNul(members: Members, depth: nat, fmt: bool)
    requires PrintableMembers(members)
    ensures NoNul(PrintMembers(members, depth, fmt))
    decreases members
  {
    hide Print, PrintString;
    if members.Member? {
      PrintStringNoNul(members.name);
      PrintNoNul(members.child, depth, fmt);
      PrintMembersNoNul(members.following, depth, fmt);
    }
  }
}
