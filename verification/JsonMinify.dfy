/** cJSON_Minify: what it keeps, that it turns one rendering into the other, its in-place loop (soaagent/cJSON.c). */
module JsonMinify {
  import opened CString
  import opened JsonString
  import opened Json
  import Decimal

  predicate IsBlank(c: char)
  {
    c in {' ', '\t', '\r', '\n'}
  }

  /** Where the line comment at the start of t ends: at its newline or at the NUL. */
  function AfterLine(t: string): (r: string)
    ensures |r| <= |t| && r == t[|t| - |r|..]
  {
    if t != [] && t[0] != '\n' then AfterLine(t[1..]) else t
  }

  // What follows the first "*/"; none if there is none.
  function AfterBlock(t: string): (r: Option<string>)
    ensures r.Some? ==> |r.value| + 2 <= |t| && r.value == t[|t| - |r.value|..]
  {
    if t == [] then None
    else if StartsWith(t, "*/") then Some(t[2..])
    else AfterBlock(t[1..])
  }

  /** A string literal from after its opening quote: what is copied, and what follows it. */
  function CopyLiteral(t: string): (r: Option<(string, string)>)
    ensures r.Some? ==> r.value.0 != [] && t == r.value.0 + r.value.1
  {
    if t == [] then None
    else if t[0] == '"' then Some((t[..1], t[1..]))
    else
      var n := if t[0] == '\\' then 2 else 1;
      if |t| < n then None
      else
        var r := CopyLiteral(t[n..]);
        if r.Some? then Some((t[..n] + r.value.0, r.value.1)) else None
  }

  /** The text cJSON_Minify leaves; none when it would read past the terminating NUL. */
  function Minify(t: string): (r: Option<string>)
    ensures r.Some? ==> |r.value| <= |t|
    decreases |t|
  {
    if t == [] then Some("")
    else if IsBlank(t[0]) then Minify(t[1..])
    else if StartsWith(t, "//") then Minify(AfterLine(t[1..]))
    else if StartsWith(t, "/*") then
      var rest := AfterBlock(t);
      if rest.Some? then Minify(rest.value) else None
    else if t[0] == '"' then
      var lit := CopyLiteral(t[1..]);
      if lit.None? then None
      else Prefixed(t[..1] + lit.value.0, Minify(lit.value.1))
    else Prefixed(t[..1], Minify(t[1..]))
  }

  function Prefixed(s: string, r: Option<string>): (q: Option<string>)
    ensures q.Some? <==> r.Some?
    ensures q.Some? ==> q.value == s + r.value
  {
    if r.Some? then Some(s + r.value) else None
  }

  // ----- one rendering into the other -----

  /** Characters that Minify copies on their own. */
  predicate Kept(u: string)
  {
    forall i | 0 <= i < |u| :: !IsBlank(u[i]) && u[i] != '/' && u[i] != '"'
  }

  predicate Blank(u: string)
  {
    forall i | 0 <= i < |u| :: IsBlank(u[i])
  }

  lemma {:induction false} MinifyKept(u: string, rest: string)
    requires Kept(u)
    ensures Minify(u + rest) == Prefixed(u, Minify(rest))
  {
    if u == "" {
      assert u + rest == rest;
      EmptyPrefix(Minify(rest));
    } else {
      var t := u + rest;
      assert t[1..] == u[1..] + rest && t[..1] == u[..1];
      MinifyKept(u[1..], rest);
      assert u == u[..1] + u[1..];
      PrefixedTwice(u[..1], u[1..], Minify(rest));
    }
  }

  lemma EmptyPrefix(r: Option<string>)
    ensures Prefixed("", r) == r
  {
    if r.Some? {
      assert "" + r.value == r.value;
    }
  }

  lemma PrefixedTwice(s: string, t: string, r: Option<string>)
    ensures Prefixed(s, Prefixed(t, r)) == Prefixed(s + t, r)
  {
    if r.Some? {
      assert s + (t + r.value) == (s + t) + r.value;
    }
  }

  lemma {:induction false} MinifyBlank(u: string, rest: string)
    requires Blank(u)
    ensures Minify(u + rest) == Minify(rest)
  {
    if u == "" {
      assert u + rest == rest;
    } else {
      assert (u + rest)[1..] == u[1..] + rest;
      MinifyBlank(u[1..], rest);
    }
  }

  lemma TabsAreBlank(fmt: bool, n: int)
    ensures Blank(If(fmt, Tabs(n))) && Blank(If(fmt, "\n" + Tabs(n)))
  {
  }

  lemma {:induction false} CopyEscaped(s: string, rest: string)
    ensures CopyLiteral(Escape(s) + "\"" + rest) == Some((Escape(s) + "\"", rest))
  {
    var t := Escape(s) + "\"" + rest;
    if s == [] {
      assert t[1..] == rest && t[..1] == "\"";
    } else {
      hide EscapeChar;
      var e, tail := EscapeChar(s[0]), Escape(s[1..]) + "\"" + rest;
      assert t == e + tail;
      CopyEscaped(s[1..], rest);
      CopyEscapedChar(s[0], tail, Escape(s[1..]) + "\"", rest);
      assert e + (Escape(s[1..]) + "\"") == Escape(s) + "\"";
    }
  }

  lemma CopyEscapedChar(c: char, tail: string, copied: string, rest: string)
    requires CopyLiteral(tail) == Some((copied, rest))
    ensures CopyLiteral(EscapeChar(c) + tail) == Some((EscapeChar(c) + copied, rest))
  {
    var e := EscapeChar(c);
    if |e| <= 2 {
      CopyUnit(e, tail, copied, rest);
    } else {
      CopyPlain(e[2..], tail, copied, rest);
      CopyUnit(e[..2], e[2..] + tail, e[2..] + copied, rest);
      hide CopyLiteral, EscapeChar;
      assert e == e[..2] + e[2..];
      Associate(e[..2], e[2..], tail);
      Associate(e[..2], e[2..], copied);
    }
  }

  /** The literal's loop takes a backslash together with the character behind it. */
  lemma CopyUnit(e: string, tail: string, copied: string, rest: string)
    requires (|e| == 1 && e[0] != '"' && e[0] != '\\') || (|e| == 2 && e[0] == '\\')
    requires CopyLiteral(tail) == Some((copied, rest))
    ensures CopyLiteral(e + tail) == Some((e + copied, rest))
  {
    assert (e + tail)[|e|..] == tail && (e + tail)[..|e|] == e;
  }

  lemma {:induction false} CopyPlain(u: string, tail: string, copied: string, rest: string)
    requires forall i | 0 <= i < |u| :: u[i] != '"' && u[i] != '\\'
    requires CopyLiteral(tail) == Some((copied, rest))
    ensures CopyLiteral(u + tail) == Some((u + copied, rest))
  {
    if u == "" {
      assert u + tail == tail && u + copied == copied;
    } else {
      assert (u + tail)[1..] == u[1..] + tail && (u + tail)[..1] == u[..1];
      CopyPlain(u[1..], tail, copied, rest);
      assert u[..1] + (u[1..] + copied) == u + copied;
    }
  }

  lemma {:induction false} MinifyString(s: string, rest: string)
    ensures Minify(PrintString(s) + rest) == Prefixed(PrintString(s), Minify(rest))
  {
    hide CopyLiteral;
    var t := PrintString(s) + rest;
    assert t[1..] == Escape(s) + "\"" + rest && t[..1] == "\"";
    CopyEscaped(s, rest);
    assert "\"" + (Escape(s) + "\"") == PrintString(s);
  }

  lemma NumeralIsKept(n: int)
    ensures Kept(Decimal.Format(n))
  {
    Decimal.FormatChars(n);
  }

  /** Minifying either rendering, at any depth, leaves the unformatted one. */
  lemma {:induction false} MinifyPrint(v: Json, depth: nat, fmt: bool, depth': nat, rest: string)
    requires Printable(v)
    ensures Minify(Print(v, depth, fmt) + rest) == Prefixed(Print(v, depth', false), Minify(rest))
    decreases v
  {
    match v {
      case Number(x) =>
        NumeralIsKept(x.Floor);
        MinifyKept(Decimal.Format(x.Floor), rest);
      case String(s) =>
        MinifyString(s, rest);
      case Array(items) =>
        MinifyArray(items, depth, fmt, depth', rest);
      case Object(members) =>
        MinifyObject(members, depth, fmt, depth', rest);
      case _ =>
        MinifyKept(Print(v, depth, fmt), rest);
    }
  }

  lemma {:induction false} MinifyArray(items: Items, depth: nat, fmt: bool, depth': nat, rest: string)
    requires PrintableItems(items)
    ensures Minify(Print(Array(items), depth, fmt) + rest) == Prefixed(Print(Array(items), depth', false), Minify(rest))
    decreases items, 1
  {
    hide Minify, PrintItems;
    var p, q := PrintItems(items, depth + 1, fmt), PrintItems(items, depth' + 1, false);
    assert Print(Array(items), depth, fmt) + rest == "[" + (p + ("]" + rest));
    MinifyKept("[", p + ("]" + rest));
    MinifyItems(items, depth + 1, fmt, depth' + 1, "]" + rest);
    MinifyKept("]", rest);
    PrefixedTwice(q, "]", Minify(rest));
    PrefixedTwice("[", q + "]", Minify(rest));
    assert "[" + (q + "]") == "[" + q + "]";
  }

  lemma {:induction false} MinifyItems(items: Items, depth: nat, fmt: bool, depth': nat, rest: string)
    requires PrintableItems(items)
    ensures Minify(PrintItems(items, depth, fmt) + rest) == Prefixed(PrintItems(items, depth', false), Minify(rest))
    decreases items, 0
  {
    hide Minify, Print, PrintItems, If;
    NoEntries(depth, fmt);
    NoEntries(depth', false);
    if items.NoItem? {
      assert "" + rest == rest;
      EmptyPrefix(Minify(rest));
    } else {
      ItemsText(items, depth, fmt, rest);
      PlainItems(items, depth');
      var p', more' := Print(items.head, depth', false), PrintItems(items.next, depth', false);
      if items.next.NoItem? {
        assert p' + "" == p';
        MinifyPrint(items.head, depth, fmt, depth', rest);
      } else {
        var more := PrintItems(items.next, depth, fmt) + rest;
        MinifyPrint(items.head, depth, fmt, depth', "," + (If(fmt, " ") + more));
        MinifyKept(",", If(fmt, " ") + more);
        SpaceIsBlank(fmt);
        MinifyBlank(If(fmt, " "), more);
        MinifyItems(items.next, depth, fmt, depth', rest);
        PrefixedTwice(",", more', Minify(rest));
        PrefixedTwice(p', "," + more', Minify(rest));
      }
    }
  }

  lemma SpaceIsBlank(fmt: bool)
    ensures Blank(If(fmt, " "))
  {
  }

  /** How the printed elements continue after the first. */
  lemma ItemsText(items: Items, depth: nat, fmt: bool, rest: string)
    requires items.Item? && PrintableItems(items)
    ensures PrintItems(items, depth, fmt) + rest
         == Print(items.head, depth, fmt)
            + (if items.next.NoItem? then rest else "," + (If(fmt, " ") + (PrintItems(items.next, depth, fmt) + rest)))
  {
    hide Print, If;
    var p, more := Print(items.head, depth, fmt), PrintItems(items.next, depth, fmt);
    ItemsSeparated(p, If(fmt, " "), more, rest);
  }

  lemma ItemsSeparated(p: string, space: string, more: string, rest: string)
    ensures p + ("," + space + more) + rest == p + ("," + (space + (more + rest)))
    ensures p + "" + rest == p + rest
  {
  }

  /** The unformatted elements. */
  lemma PlainItems(items: Items, depth: nat)
    requires items.Item? && PrintableItems(items)
    ensures PrintItems(items, depth, false)
         == Print(items.head, depth, false)
            + (if items.next.NoItem? then "" else "," + PrintItems(items.next, depth, false))
  {
    hide Print;
    assert "," + "" + PrintItems(items.next, depth, false) == "," + PrintItems(items.next, depth, false);
  }

  lemma {:induction false} MinifyObject(members: Members, depth: nat, fmt: bool, depth': nat, rest: string)
    requires PrintableMembers(members)
    ensures Minify(Print(Object(members), depth, fmt) + rest)
              == Prefixed(Print(Object(members), depth', false), Minify(rest))
    decreases members, 1
  {
    hide Minify, PrintMembers, If;
    var m := Minify(rest);
    MinifyKept("}", rest);
    TabsAreBlank(fmt, depth - 1);
    TabsAreBlank(fmt, depth);
    NewlineIsBlank(fmt);
    PlainIsEmpty();
    if members.NoMember? {
      var indent := If(fmt, "\n" + Tabs(depth - 1));
      assert Print(Object(members), depth, fmt) + rest == "{" + (indent + ("}" + rest));
      MinifyKept("{", indent + ("}" + rest));
      MinifyBlank(indent, "}" + rest);
      PrefixedTwice("{", "}", m);
      assert "{" + "" + "}" == "{" + "}";
    } else {
      var p, q := PrintMembers(members, depth + 1, fmt), PrintMembers(members, depth' + 1, false);
      var close := If(fmt, Tabs(depth)) + ("}" + rest);
      ObjectParts(If(fmt, "\n"), p, If(fmt, Tabs(depth)), rest);
      MinifyKept("{", If(fmt, "\n") + (p + close));
      MinifyBlank(If(fmt, "\n"), p + close);
      MinifyMembers(members, depth + 1, fmt, depth' + 1, close);
      MinifyBlank(If(fmt, Tabs(depth)), "}" + rest);
      PrefixedTwice(q, "}", m);
      PrefixedTwice("{", q + "}", m);
      assert "{" + "" + q + "" + "}" == "{" + (q + "}");
    }
  }

  lemma ObjectParts(newline: string, p: string, tabs: string, rest: string)
    ensures "{" + newline + p + tabs + "}" + rest == "{" + (newline + (p + (tabs + ("}" + rest))))
  {
  }

  lemma NewlineIsBlank(fmt: bool)
    ensures Blank(If(fmt, "\n")) && Blank(If(fmt, "\t"))
  {
  }

  lemma PlainIsEmpty()
    ensures forall s :: If(false, s) == ""
  {
  }

  lemma {:induction false} MinifyMembers(members: Members, depth: nat, fmt: bool, depth': nat, rest: string)
    requires members.Member? && PrintableMembers(members)
    ensures Minify(PrintMembers(members, depth, fmt) + rest)
              == Prefixed(PrintMembers(members, depth', false), Minify(rest))
    decreases members, 0
  {
    hide Minify, Print, PrintMembers, PrintString, If, Tabs;
    var Member(name, v, following) := members;
    var p, p' := Print(v, depth, fmt), Print(v, depth', false);
    var more' := PrintMembers(following, depth', false);
    var after := if following.NoMember? then If(fmt, "\n") + rest
                 else "," + (If(fmt, "\n") + (PrintMembers(following, depth, fmt) + rest));
    var after' := if following.NoMember? then "" else "," + more';
    NewlineIsBlank(fmt);
    if following.NoMember? {
      MinifyBlank(If(fmt, "\n"), rest);
      EmptyPrefix(Minify(rest));
    } else {
      MinifyMembers(following, depth, fmt, depth', rest);
      MinifyBlank(If(fmt, "\n"), PrintMembers(following, depth, fmt) + rest);
      MinifyKept(",", If(fmt, "\n") + (PrintMembers(following, depth, fmt) + rest));
      PrefixedTwice(",", more', Minify(rest));
    }
    assert Minify(after) == Prefixed(after', Minify(rest));
    MinifyPrint(v, depth, fmt, depth', after);
    MinifyName(name, depth, fmt, p + after);
    PrefixedTwice(p', after', Minify(rest));
    PrefixedTwice(PrintString(name) + ":", p' + after', Minify(rest));
    MembersText(members, depth, fmt, rest);
    PlainMembers(members, depth');
  }

  /** A member's name and colon keep only their characters. */
  lemma {:induction false} MinifyName(name: string, depth: nat, fmt: bool, value: string)
    ensures Minify(If(fmt, Tabs(depth)) + PrintString(name) + ":" + If(fmt, "\t") + value)
         == Prefixed(PrintString(name) + ":", Minify(value))
  {
    hide Minify, PrintString, If, Tabs;
    var tabs, tab := If(fmt, Tabs(depth)), If(fmt, "\t");
    NameText(tabs, PrintString(name), tab, value);
    assert ":" + tab + value == ":" + (tab + value);
    TabsAreBlank(fmt, depth);
    NewlineIsBlank(fmt);
    MinifyBlank(tabs, PrintString(name) + (":" + (tab + value)));
    MinifyString(name, ":" + (tab + value));
    MinifyKept(":", tab + value);
    MinifyBlank(tab, value);
    PrefixedTwice(PrintString(name), ":", Minify(value));
  }

  /** The unformatted members. */
  lemma PlainMembers(members: Members, depth: nat)
    requires members.Member? && PrintableMembers(members)
    ensures PrintMembers(members, depth, false)
         == PrintString(members.name) + ":"
            + (Print(members.child, depth, false)
               + (if members.following.NoMember? then "" else "," + PrintMembers(members.following, depth, false)))
  {
    hide Print, PrintString;
    MembersText(members, depth, false, "");
    var q := PrintMembers(members, depth, false);
    assert q + "" == q;
    assert PrintMembers(members.following, depth, false) + "" == PrintMembers(members.following, depth, false);
  }

  /** Minifying the formatted rendering yields exactly the unformatted one, which minifying leaves alone. */
  lemma {:induction false} MinifyRendering(v: Json, fmt: bool)
    requires Printable(v)
    ensures Minify(Print(v, 0, fmt)) == Some(Print(v, 0, false))
  {
    hide Print;
    MinifyPrint(v, 0, fmt, 0, "");
    assert Print(v, 0, fmt) + "" == Print(v, 0, fmt);
    assert Print(v, 0, false) + "" == Print(v, 0, false);
  }

  // ----- the in-place loop -----

  /** From the read position on, the buffer still holds the text and its NUL. */
  ghost predicate Unread(json: array<char>, t: string, at: nat)
    reads json
  {
    at <= |t| < json.Length && json[at..|t|] == t[at..] && json[|t|] == '\0' && NoNul(t)
  }

  /** Reading at the read position. */
  lemma CharAt(json: array<char>, t: string, at: nat)
    requires Unread(json, t, at)
    ensures at <= |t| < json.Length
    ensures json[at] == '\0' <==> at == |t|
    ensures at < |t| ==> json[at] == t[at] == t[at..][0]
    ensures at < |t| ==> json[at + 1] == (if at + 1 < |t| then t[at + 1] else '\0')
    ensures at < |t| ==> t[at..][1..] == t[at + 1..]
    ensures at < |t| ==> Unread(json, t, at + 1)
  {
    if at < |t| {
      assert json[at] == json[at..|t|][0];
      assert json[at + 1..|t|] == json[at..|t|][1..];
      if at + 1 < |t| {
        assert json[at + 1] == json[at..|t|][1];
      }
    }
  }

  /** The while loop over a line comment. */
  method SkipLine(json: array<char>, ghost t: string, start: nat) returns (at: nat)
    requires Unread(json, t, start)
    ensures Unread(json, t, at) && start <= at <= |t| && t[at..] == AfterLine(t[start..])
  {
    hide Unread, AfterLine;
    at := start;
    CharAt(json, t, at);
    while json[at] != '\0' && json[at] != '\n'
      invariant start <= at <= |t| < json.Length && Unread(json, t, at)
      invariant json[at] == '\0' <==> at == |t|
      invariant AfterLine(t[at..]) == AfterLine(t[start..])
      decreases |t| - at
    {
      CharAt(json, t, at);
      LineTurn(t, at);
      at := at + 1;
      CharAt(json, t, at);
    }
    CharAt(json, t, at);
    LineTurn(t, at);
  }

  lemma LineTurn(t: string, at: nat)
    requires at <= |t|
    ensures AfterLine(t[at..]) == if at < |t| && t[at] != '\n' then AfterLine(t[at + 1..]) else t[at..]
  {
    if at < |t| {
      assert t[at..][1..] == t[at + 1..];
    }
  }

  /** The while loop over a block comment, and the step past its end. */
  method SkipBlock(json: array<char>, ghost t: string, start: nat) returns (at: nat)
    requires Unread(json, t, start) && AfterBlock(t[start..]).Some?
    ensures Unread(json, t, at) && start <= at <= |t| && AfterBlock(t[start..]) == Some(t[at..])
  {
    hide Unread, AfterBlock;
    at := start;
    BlockTurn(json, t, at);
    while json[at] != '\0' && !(json[at] == '*' && json[at + 1] == '/')
      invariant start <= at < |t| < json.Length && Unread(json, t, at)
      invariant AfterBlock(t[at..]) == AfterBlock(t[start..])
      decreases |t| - at
    {
      BlockTurn(json, t, at);
      at := at + 1;
      BlockTurn(json, t, at);
    }
    BlockTurn(json, t, at);
    at := at + 2;
  }

  /** One look at a block comment that is closed. */
  lemma BlockTurn(json: array<char>, t: string, at: nat)
    requires Unread(json, t, at) && AfterBlock(t[at..]).Some?
    ensures at < |t| < json.Length && json[at] != '\0'
    ensures var ends := json[at] == '*' && json[at + 1] == '/';
            if ends then at + 2 <= |t| && Unread(json, t, at + 2) && AfterBlock(t[at..]) == Some(t[at + 2..])
            else Unread(json, t, at + 1) && AfterBlock(t[at..]) == AfterBlock(t[at + 1..])
  {
    hide Unread, AfterBlock;
    CharAt(json, t, at);
    BlockOpen(t, at);
    if json[at] == '*' && json[at + 1] == '/' {
      CharAt(json, t, at + 1);
    }
  }

  lemma BlockOpen(t: string, at: nat)
    requires at <= |t|
    ensures AfterBlock(t[at..]).Some? ==> at < |t|
    ensures at < |t| && !(t[at] == '*' && at + 1 < |t| && t[at + 1] == '/') ==>
              AfterBlock(t[at..]) == AfterBlock(t[at + 1..])
    ensures at < |t| && t[at] == '*' && at + 1 < |t| && t[at + 1] == '/' ==>
              AfterBlock(t[at..]) == Some(t[at + 2..])
  {
    var u := t[at..];
    if at < |t| {
      assert u[1..] == t[at + 1..];
      assert StartsWith(u, "*/") <==> t[at] == '*' && at + 1 < |t| && t[at + 1] == '/';
      if at + 1 < |t| {
        assert u[2..] == t[at + 2..];
      }
    }
  }

  /** `*into++ = *json++` */
  method Move(json: array<char>, ghost t: string, into: nat, at: nat)
    requires into <= at < |t| && Unread(json, t, at)
    modifies json
    ensures Unread(json, t, at + 1)
    ensures json[..into + 1] == old(json[..into]) + [t[at]]
  {
    CharAt(json, t, at);
    ghost var before := json[..];
    json[into] := json[at];
    assert json[..into + 1] == before[..into] + [json[into]];
    assert json[at + 1..|t|] == before[at + 1..|t|] == before[at..|t|][1..];
  }

  /** The branch for string literals, after its opening quote has been moved. */
  method MoveLiteral(json: array<char>, ghost t: string, into0: nat, at0: nat) returns (into: nat, at: nat)
    requires into0 <= at0 && Unread(json, t, at0) && CopyLiteral(t[at0..]).Some?
    modifies json
    ensures into <= at <= |t| && Unread(json, t, at)
    ensures json[..into] == old(json[..into0]) + CopyLiteral(t[at0..]).value.0
    ensures t[at..] == CopyLiteral(t[at0..]).value.1
  {
    hide Unread, CopyLiteral;
    into, at := into0, at0;
    CharAt(json, t, at);
    ghost var lit, before := CopyLiteral(t[at0..]).value, json[..into0];
    LiteralOpen(t, at);
    while json[at] != '\0' && json[at] != '"'
      invariant into <= at < |t| < json.Length && Unread(json, t, at)
      invariant json[at] == t[at] && json[at] != '\0'
      invariant CopyLiteral(t[at..]).Some? && CopyLiteral(t[at..]).value.1 == lit.1
      invariant before + lit.0 == json[..into] + CopyLiteral(t[at..]).value.0
      decreases |t| - at
    {
      LiteralTurn(t, at);
      ghost var written, turn := json[..into], at;
      into, at := MoveTurn(json, t, into, at);
      Associate(written, t[turn..at], CopyLiteral(t[at..]).value.0);
      LiteralOpen(t, at);
      CharAt(json, t, at);
    }
    LiteralCloses(t, at);
    Move(json, t, into, at);
    into, at := into + 1, at + 1;
  }

  /** One turn of the literal's loop: a character, or a backslash and the character after it. */
  method MoveTurn(json: array<char>, ghost t: string, into0: nat, at0: nat) returns (into: nat, at: nat)
    requires into0 <= at0 < |t| && Unread(json, t, at0)
    requires t[at0] == '\\' ==> at0 + 1 < |t|
    modifies json
    ensures at == at0 + (if t[at0] == '\\' then 2 else 1) && into <= at && Unread(json, t, at)
    ensures json[..into] == old(json[..into0]) + t[at0..at]
  {
    hide Unread;
    into, at := into0, at0;
    CharAt(json, t, at);
    if json[at] == '\\' {
      Move(json, t, into, at);
      into, at := into + 1, at + 1;
    }
    Move(json, t, into, at);
    into, at := into + 1, at + 1;
  }

  lemma LiteralOpen(t: string, at: nat)
    requires at <= |t| && CopyLiteral(t[at..]).Some?
    ensures at < |t|
  {
  }

  lemma LiteralCloses(t: string, at: nat)
    requires at < |t| && t[at] == '"'
    ensures CopyLiteral(t[at..]) == Some(([t[at]], t[at + 1..]))
  {
    var u := t[at..];
    assert u[..1] == [t[at]] && u[1..] == t[at + 1..];
  }

  /** One turn of the literal's loop takes one character, or two after a backslash. */
  lemma LiteralTurn(t: string, at: nat)
    requires at < |t| && t[at] != '"' && CopyLiteral(t[at..]).Some?
    ensures var n := if t[at] == '\\' then 2 else 1;
            && at + n <= |t| && CopyLiteral(t[at + n..]).Some?
            && CopyLiteral(t[at..]).value.0 == t[at..at + n] + CopyLiteral(t[at + n..]).value.0
            && CopyLiteral(t[at..]).value.1 == CopyLiteral(t[at + n..]).value.1
  {
    var n := if t[at] == '\\' then 2 else 1;
    var u := t[at..];
    assert u[0] == t[at];
    assert |u| >= n && u[n..] == t[at + n..] && u[..n] == t[at..at + n];
  }

  // ----- cJSON_Minify -----

  /** What Minify does at position at, by the character there. */
  lemma MinifyTurn(t: string, at: nat)
    requires at < |t| && Minify(t[at..]).Some?
    ensures var next := if at + 1 < |t| then t[at + 1] else '\0';
            var m := Minify(t[at..]);
            if IsBlank(t[at]) then m == Minify(t[at + 1..])
            else if t[at] == '/' && next == '/' then m == Minify(AfterLine(t[at..]))
            else if t[at] == '/' && next == '*' then
              AfterBlock(t[at..]).Some? && m == Minify(AfterBlock(t[at..]).value)
            else if t[at] == '"' then
              && CopyLiteral(t[at + 1..]).Some?
              && var lit := CopyLiteral(t[at + 1..]).value;
                 m == Prefixed([t[at]] + lit.0, Minify(lit.1))
            else m == Prefixed([t[at]], Minify(t[at + 1..]))
  {
    hide AfterBlock, CopyLiteral;
    var u := t[at..];
    assert u[1..] == t[at + 1..] && u[..1] == [t[at]] && u[0] == t[at];
    assert StartsWith(u, "//") <==> t[at] == '/' && at + 1 < |t| && t[at + 1] == '/';
    assert StartsWith(u, "/*") <==> t[at] == '/' && at + 1 < |t| && t[at + 1] == '*';
    if t[at] == '/' {
      assert AfterLine(u) == AfterLine(u[1..]);
    }
  }

  /** The part of the result still to be written at position at. */
  ghost predicate Remains(t: string, at: nat, written: string, result: string)
  {
    at <= |t| && Minify(t[at..]).Some? && result == written + Minify(t[at..]).value
  }

  lemma PassesOver(t: string, at: nat, next: nat, written: string, result: string)
    requires Remains(t, at, written, result) && next <= |t| && Minify(t[next..]) == Minify(t[at..])
    ensures Remains(t, next, written, result)
  {
    hide Minify;
  }

  lemma Writes(t: string, at: nat, next: nat, written: string, part: string, result: string)
    requires Remains(t, at, written, result) && next <= |t|
    requires Minify(t[at..]) == Prefixed(part, Minify(t[next..]))
    ensures Remains(t, next, written + part, result)
  {
    hide Minify;
    Associate(written, part, Minify(t[next..]).value);
  }

  /** One turn of the main loop. */
  method MinifyStep(json: array<char>, ghost t: string, into0: nat, at0: nat, ghost result: string)
    returns (into: nat, at: nat)
    requires into0 <= at0 < |t| && Unread(json, t, at0) && Remains(t, at0, json[..into0], result)
    modifies json
    ensures into <= at <= |t| && at > at0 && Unread(json, t, at) && Remains(t, at, json[..into], result)
  {
    hide Unread, Minify, AfterBlock, CopyLiteral, AfterLine;
    into, at := into0, at0;
    CharAt(json, t, at);
    RemainsSome(t, at, json[..into], result);
    MinifyTurn(t, at);
    hide Remains, Prefixed;
    ghost var written := json[..into];
    if json[at] == ' ' {
      at := at + 1;
      PassesOver(t, at0, at, written, result);
    } else if json[at] == '\t' {
      at := at + 1;
      PassesOver(t, at0, at, written, result);
    } else if json[at] == '\r' {
      at := at + 1;
      PassesOver(t, at0, at, written, result);
    } else if json[at] == '\n' {
      at := at + 1;
      PassesOver(t, at0, at, written, result);
    } else if json[at] == '/' && json[at + 1] == '/' {
      LineMoves(t, at);
      at := SkipLine(json, t, at);
      PassesOver(t, at0, at, written, result);
    } else if json[at] == '/' && json[at + 1] == '*' {
      at := SkipBlock(json, t, at);
      PassesOver(t, at0, at, written, result);
    } else if json[at] == '"' {
      Move(json, t, into, at);
      into, at := MoveLiteral(json, t, into + 1, at + 1);
      ghost var part := [t[at0]] + CopyLiteral(t[at0 + 1..]).value.0;
      Associate(written, [t[at0]], CopyLiteral(t[at0 + 1..]).value.0);
      Writes(t, at0, at, written, part, result);
    } else {
      Move(json, t, into, at);
      into, at := into + 1, at + 1;
      Writes(t, at0, at, written, [t[at0]], result);
    }
  }

  lemma RemainsSome(t: string, at: nat, written: string, result: string)
    requires Remains(t, at, written, result)
    ensures at <= |t| && Minify(t[at..]).Some?
  {
  }

  lemma LineMoves(t: string, at: nat)
    requires at < |t| && t[at] == '/'
    ensures |AfterLine(t[at..])| < |t[at..]|
  {
  }

  /** cJSON_Minify of a buffer that holds the text t and its NUL. */
  method MinifyInPlace(json: array<char>, ghost t: string)
    requires Unread(json, t, 0) && Minify(t).Some?
    modifies json
    ensures var m := Minify(t).value; |m| < json.Length && json[..|m|] == m && json[|m|] == '\0'
  {
    hide Minify, Unread;
    ghost var result := Minify(t).value;
    var into: nat, at: nat := 0, 0;
    assert t[0..] == t && json[..0] + result == result;
    CharAt(json, t, at);
    while json[at] != '\0'
      invariant into <= at <= |t| < json.Length && Unread(json, t, at)
      invariant json[at] == '\0' <==> at == |t|
      invariant Remains(t, at, json[..into], result)
      decreases |t| - at
    {
      into, at := MinifyStep(json, t, into, at, result);
      CharAt(json, t, at);
    }
    NothingRemains(t, at);
    json[into] := '\0';
  }

  lemma NothingRemains(t: string, at: nat)
    requires at == |t|
    ensures Minify(t[at..]) == Some("")
  {
  }

  /** A buffer that holds either rendering of a printable tree ends up holding the unformatted one. */
  method MinifyRenderingInPlace(json: array<char>, ghost v: Json, ghost fmt: bool)
    requires Printable(v) && |Print(v, 0, fmt)| < json.Length
    requires json[..|Print(v, 0, fmt)| + 1] == Print(v, 0, fmt) + "\0"
    modifies json
    ensures |Print(v, 0, false)| < json.Length && json[..|Print(v, 0, false)| + 1] == Print(v, 0, false) + "\0"
  {
    hide Print, Minify;
    PrintNoNul(v, 0, fmt);
    MinifyRendering(v, fmt);
    BufferIsUnread(json, Print(v, 0, fmt));
    MinifyInPlace(json, Print(v, 0, fmt));
  }

  lemma BufferIsUnread(json: array<char>, t: string)
    requires |t| < json.Length && json[..|t| + 1] == t + "\0" && NoNul(t)
    ensures Unread(json, t, 0)
  {
    assert forall i | 0 <= i < |t| :: json[i] == (t + "\0")[i];
    assert json[|t|] == (t + "\0")[|t|];
  }
}
