/**
 What the cJSON printers write (soaagent/cJSON.c): JSON texts in which every gap is determined, nothing in one
 rendering, and in the other a line for each member, indented by its depth.
 */
module PrintedJson {
  import opened CString
  import opened JsonString
  import opened Json
  import opened Decimal
  import opened JsonGrammar

  // ----- numbers -----

  lemma {:induction false} NaturalAppends(s: string, c: char)
    requires AllDigits(s) && '0' <= c <= '9'
    ensures AllDigits(s + [c]) && Natural(s + [c]) == 10 * Natural(s) + (c as int - '0' as int)
  {
    if s == [] {
      OneDigit(c);
      assert s + [c] == [c];
    } else {
      var t := s + [c];
      assert t[1..] == s[1..] + [c] && t[0] == s[0];
      NaturalAppends(s[1..], c);
      FirstPlace(s);
      FirstPlace(t);
      var d, n := s[0] as int - '0' as int, Natural(s[1..]);
      FirstPlaceMoves(d, Ten(|s| - 1), n, c as int - '0' as int);
      hide Natural, Ten, AllDigits;
    }
  }

  lemma OneDigit(c: char)
    requires '0' <= c <= '9'
    ensures Natural([c]) == c as int - '0' as int && Natural([]) == 0
  {
    assert [c][1..] == [];
    assert Ten(0) == 1;
  }

  lemma FirstPlaceMoves(d: int, t: int, n: int, c: int)
    ensures d * (10 * t) + (10 * n + c) == 10 * (d * t + n) + c
  {
  }

  /** The digits of a number denote it. */
  lemma {:induction false} DigitsDenote(n: nat)
    ensures AllDigits(Digits(n)) && Natural(Digits(n)) == n && (|Digits(n)| > 1 ==> Digits(n)[0] != '0')
  {
    if n < 10 {
      assert Digits(n) == [] + [DigitChar(n)];
      NaturalAppends([], DigitChar(n));
    } else {
      DigitsDenote(n / 10);
      NaturalAppends(Digits(n / 10), DigitChar(n % 10));
    }
  }

  function NumeralOf(n: int): Numeral
  {
    Numeral(n < 0, Digits(if n < 0 then -n else n), "", NoPower)
  }

  lemma {:induction false} FormatIsNumeral(n: int)
    ensures GoodNumeral(NumeralOf(n)) && NumeralText(NumeralOf(n)) == Format(n)
    ensures Denoted(NumeralOf(n)) == n as real
  {
    var a := if n < 0 then -n else n;
    DigitsDenote(a);
    hide Digits, Natural;
    var w := Digits(a);
    assert w + ("" + "") == w;
    assert "" + w == w;
  }

  // ----- strings -----

  /** The form in which the printer writes a character. */
  function PieceOf(c: char): Piece
    requires c != '\0'
  {
    if c == '"' || c == '\\' then Short(c)
    else if c as int > 31 then Plain(c)
    else if c == '\U{0008}' then Short('b')
    else if c == '\U{000C}' then Short('f')
    else if c == '\n' then Short('n')
    else if c == '\r' then Short('r')
    else if c == '\t' then Short('t')
    else Code(['0', '0', LowerHex(c as int / 16), LowerHex(c as int % 16)])
  }

  function PiecesOf(s: string): (ps: seq<Piece>)
    requires NoNul(s)
    ensures |ps| == |s|
  {
    if s == [] then [] else [PieceOf(s[0])] + PiecesOf(s[1..])
  }

  /** A character is written in one well-formed piece, a short one where there is one. */
  lemma CharIsPiece(c: char)
    requires c != '\0'
    ensures WellFormed(PieceOf(c)) && Source(PieceOf(c)) == EscapeChar(c) && Meaning(PieceOf(c)) == [c]
  {
    var p := PieceOf(c);
    if p.Code? {
      ControlCode(c);
      assert "\\u" + p.hex == ['\\', 'u'] + p.hex;
    }
  }

  lemma ControlCode(c: char)
    requires 0 < c as int < 32
    ensures var h := ['0', '0', LowerHex(c as int / 16), LowerHex(c as int % 16)];
            FourHex(h) && ParseHex4(h) == c as int && Utf8(c as int) == [c]
  {
  }

  lemma {:induction false} StringIsPieces(s: string)
    requires NoNul(s)
    ensures AllWellFormed(PiecesOf(s)) && Sources(PiecesOf(s)) == Escape(s) && Meanings(PiecesOf(s)) == s
  {
    if s == [] {
    } else {
      hide PieceOf, WellFormed, Source, Meaning, EscapeChar;
      CharIsPiece(s[0]);
      StringIsPieces(s[1..]);
      var ps := PiecesOf(s);
      assert ps[1..] == PiecesOf(s[1..]);
      assert s == [s[0]] + s[1..];
    }
  }

  lemma {:induction false} PrintedStringIsQuoted(s: string)
    requires NoNul(s)
    ensures GoodName(PrintString(s), s) && GoodToken(PrintString(s), String(s))
  {
    StringIsPieces(s);
    var ps := PiecesOf(s);
    hide Escape, Sources, Meanings, WellFormed;
    assert PrintString(s) == Quoted(ps);
  }

  /** How many characters are written with a letter behind a backslash, and how many as a code. */
  function Shorts(s: string): nat
  {
    if s == [] then 0
    else Shorts(s[1..]) + if s[0] in {'"', '\\', '\U{0008}', '\U{000C}', '\n', '\r', '\t'} then 1 else 0
  }

  function Codes(s: string): nat
  {
    if s == [] then 0
    else
      Codes(s[1..]) + if s[0] as int < 32 && s[0] !in {'\U{0008}', '\U{000C}', '\n', '\r', '\t'} then 1 else 0
  }

  /** A printed string has one character more for each of the first kind, five for each of the second, and quotes. */
  lemma {:induction false} PrintedLength(s: string)
    ensures |PrintString(s)| == |s| + Shorts(s) + 5 * Codes(s) + 2
  {
    EscapeLength(s);
  }

  lemma {:induction false} EscapeLength(s: string)
    ensures |Escape(s)| == |s| + Shorts(s) + 5 * Codes(s)
  {
    if s != [] {
      EscapeLength(s[1..]);
    }
  }

  /** A string without quotes, backslashes and control characters is printed as it stands. */
  lemma {:induction false} PlainIsPrintedPlain(s: string)
    requires forall i | 0 <= i < |s| :: s[i] as int >= 32 && s[i] != '"' && s[i] != '\\'
    ensures PrintString(s) == "\"" + s + "\""
  {
    EscapeStays(s);
  }

  lemma {:induction false} EscapeStays(s: string)
    requires forall i | 0 <= i < |s| :: s[i] as int >= 32 && s[i] != '"' && s[i] != '\\'
    ensures Escape(s) == s
  {
    if s != [] {
      EscapeStays(s[1..]);
      assert [s[0]] + s[1..] == s;
    }
  }

  // ----- the gaps -----

  /** A new line with n tabs. */
  predicate NewLine(g: string, n: int)
  {
    && |g| == 1 + (if n > 0 then n else 0) && g[0] == '\n'
    && forall i | 1 <= i < |g| :: g[i] == '\t'
  }

  /** The gap is this one in the formatted rendering, and nothing in the other. */
  predicate LineOrNone(fmt: bool, g: string, n: int)
  {
    if fmt then NewLine(g, n) else g == ""
  }

  /**
   The gaps of a printed document: in an array a space behind each comma; in an object each member on a line of
   its own, indented by the brackets around it, a tab behind its colon, and the closing brace on a line.
   */
  predicate LaidOut(d: Doc, depth: nat, fmt: bool)
  {
    match d
    case Token(_, _) => true
    case Arr(inner, entries) => inner == "" && LaidDocs(entries, depth + 1, fmt, true)
    case Obj(inner, fields) =>
      && (if fields.NoField? then LineOrNone(fmt, inner, depth - 1) else inner == "")
      && LaidFields(fields, depth + 1, fmt)
  }

  predicate LaidDocs(ds: Docs, depth: nat, fmt: bool, first: bool)
  {
    ds.OneDoc? ==>
      && ds.before == (if fmt && !first then " " else "") && ds.after == ""
      && LaidOut(ds.head, depth, fmt) && LaidDocs(ds.next, depth, fmt, false)
  }

  predicate LaidFields(fs: Fields, depth: nat, fmt: bool)
  {
    fs.Field? ==>
      && LineOrNone(fmt, fs.before, depth) && fs.after == "" && fs.gap == (if fmt then "\t" else "")
      && (if fs.following.NoField? then LineOrNone(fmt, fs.end, depth - 1) else fs.end == "")
      && LaidOut(fs.child, depth, fmt) && LaidFields(fs.following, depth, fmt)
  }

  // ----- the document that is printed -----

  function Written(v: Json, depth: nat, fmt: bool): Doc
    requires Printable(v)
    decreases v
  {
    match v
    case Array(items) => Arr("", WrittenItems(items, depth + 1, fmt, true))
    case Object(members) =>
      Obj(if members.NoMember? then If(fmt, "\n" + Tabs(depth - 1)) else "", WrittenMembers(members, depth + 1, fmt))
    case _ => Token(Print(v, 0, false), v)
  }

  function WrittenItems(items: Items, depth: nat, fmt: bool, first: bool): (ds: Docs)
    requires PrintableItems(items)
    ensures ds.NoDoc? <==> items.NoItem?
    decreases items
  {
    if items.NoItem? then NoDoc
    else
      OneDoc(if first then "" else If(fmt, " "), Written(items.head, depth, fmt), "",
             WrittenItems(items.next, depth, fmt, false))
  }

  function WrittenMembers(members: Members, depth: nat, fmt: bool): (fs: Fields)
    requires PrintableMembers(members) && depth > 0
    ensures fs.NoField? <==> members.NoMember?
    decreases members
  {
    if members.NoMember? then NoField
    else
      Field(If(fmt, "\n" + Tabs(depth)), PrintString(members.name), members.name, "", If(fmt, "\t"),
            Written(members.child, depth, fmt),
            if members.following.NoMember? then If(fmt, "\n" + Tabs(depth - 1)) else "",
            WrittenMembers(members.following, depth, fmt))
  }

  lemma NewLineOfTabs(fmt: bool, n: int)
    ensures LineOrNone(fmt, If(fmt, "\n" + Tabs(n)), n) && Blanks(If(fmt, "\n" + Tabs(n)))
  {
  }

  lemma OtherGaps(fmt: bool)
    ensures Blanks("") && Blanks(If(fmt, " ")) && Blanks(If(fmt, "\t"))
  {
  }

  lemma {:induction false} AtomIsToken(v: Json)
    requires Printable(v) && !v.Array? && !v.Object?
    ensures GoodToken(Print(v, 0, false), v)
  {
    match v {
      case Number(x) =>
        FormatIsNumeral(x.Floor);
        var n := NumeralOf(x.Floor);
        hide GoodNumeral, NumeralText, Denoted, Format;
        assert GoodNumeral(n) && Print(v, 0, false) == NumeralText(n) && v == Number(Denoted(n));
      case String(s) =>
        PrintedStringIsQuoted(s);
      case _ =>
    }
  }

  lemma {:induction false} WrittenIsLaidOut(v: Json, depth: nat, fmt: bool)
    requires Printable(v)
    ensures var d := Written(v, depth, fmt); LaidOut(d, depth, fmt) && Tree(d) == v && Formed(d, Strict)
    decreases v
  {
    hide NewLine, LineOrNone, Tabs, If, Blanks, GoodToken, Print;
    OtherGaps(fmt);
    match v {
      case Array(items) =>
        WrittenItemsAreLaidOut(items, depth + 1, fmt, true);
      case Object(members) =>
        NewLineOfTabs(fmt, depth - 1);
        WrittenMembersAreLaidOut(members, depth + 1, fmt);
      case _ =>
        AtomIsToken(v);
    }
  }

  lemma {:induction false} WrittenItemsAreLaidOut(items: Items, depth: nat, fmt: bool, first: bool)
    requires PrintableItems(items)
    ensures var ds := WrittenItems(items, depth, fmt, first);
            LaidDocs(ds, depth, fmt, first) && Trees(ds) == items && FormedDocs(ds, Strict)
    decreases items
  {
    hide Blanks, Print, Written, LaidOut, Formed, Tree;
    OtherGaps(fmt);
    if items.Item? {
      WrittenIsLaidOut(items.head, depth, fmt);
      WrittenItemsAreLaidOut(items.next, depth, fmt, false);
    }
  }

  lemma {:induction false} WrittenMembersAreLaidOut(members: Members, depth: nat, fmt: bool)
    requires PrintableMembers(members) && depth > 0
    ensures var fs := WrittenMembers(members, depth, fmt);
            LaidFields(fs, depth, fmt) && Named(fs) == members && FormedFields(fs, Strict)
    decreases members
  {
    hide NewLine, LineOrNone, Tabs, Blanks, Print, Written, LaidOut, Formed, Tree, GoodName, PrintString;
    OtherGaps(fmt);
    if members.Member? {
      NewLineOfTabs(fmt, depth);
      NewLineOfTabs(fmt, depth - 1);
      TabIsGap(fmt);
      PrintedStringIsQuoted(members.name);
      WrittenIsLaidOut(members.child, depth, fmt);
      WrittenMembersAreLaidOut(members.following, depth, fmt);
    }
  }

  lemma TabIsGap(fmt: bool)
    ensures If(fmt, "\t") == if fmt then "\t" else ""
  {
  }

  // ----- its text -----

  lemma {:induction false} WrittenText(v: Json, depth: nat, fmt: bool)
    requires Printable(v)
    ensures Text(Written(v, depth, fmt)) == Print(v, depth, fmt)
    decreases v
  {
    hide PrintItems, PrintMembers, DocsText, FieldsText, Tabs;
    match v {
      case Array(items) =>
        if items.NoItem? {
          assert PrintItems(items, depth + 1, fmt) == "" by {
            NoEntries(depth + 1, fmt);
          }
        } else {
          WrittenItemsText(items, depth + 1, fmt, true);
          assert If(fmt && false, " ") + PrintItems(items, depth + 1, fmt) == PrintItems(items, depth + 1, fmt);
        }
      case Object(members) =>
        if members.Member? {
          WrittenMembersText(members, depth + 1, fmt);
          BracesMeet(fmt, PrintMembers(members, depth + 1, fmt), Tabs(depth));
        }
      case _ =>
    }
  }

  lemma BracesMeet(fmt: bool, body: string, tabs: string)
    ensures "{" + ((If(fmt, "\n") + body + If(fmt, tabs)) + "}") == "{" + If(fmt, "\n") + body + If(fmt, tabs) + "}"
  {
  }

  lemma {:induction false} WrittenItemsText(items: Items, depth: nat, fmt: bool, first: bool)
    requires items.Item? && PrintableItems(items)
    ensures DocsText(WrittenItems(items, depth, fmt, first))
         == If(fmt && !first, " ") + PrintItems(items, depth, fmt)
    decreases items
  {
    hide Print, Written, Text;
    WrittenText(items.head, depth, fmt);
    var p := Print(items.head, depth, fmt);
    if items.next.Item? {
      WrittenItemsText(items.next, depth, fmt, false);
      assert p + ("" + ("," + (If(fmt, " ") + PrintItems(items.next, depth, fmt))))
          == p + ("," + If(fmt, " ") + PrintItems(items.next, depth, fmt));
    } else {
      assert p + ("" + "") == p + "";
    }
  }

  /** The members' text, with the new line before the first and the tabs after the last. */
  lemma {:induction false} WrittenMembersText(members: Members, depth: nat, fmt: bool)
    requires members.Member? && PrintableMembers(members) && depth > 0
    ensures FieldsText(WrittenMembers(members, depth, fmt))
         == If(fmt, "\n") + PrintMembers(members, depth, fmt) + If(fmt, Tabs(depth - 1))
    decreases members
  {
    hide Print, Written, Text, Tabs, PrintString;
    WrittenText(members.child, depth, fmt);
    var name, p := PrintString(members.name), Print(members.child, depth, fmt);
    if members.following.Member? {
      WrittenMembersText(members.following, depth, fmt);
      NextLine(fmt, Tabs(depth), name, p, PrintMembers(members.following, depth, fmt), Tabs(depth - 1));
    } else {
      LastLine(fmt, Tabs(depth), name, p, Tabs(depth - 1));
    }
  }

  lemma NextLine(fmt: bool, tabs: string, name: string, p: string, more: string, last: string)
    ensures If(fmt, "\n" + tabs) + (name + ("" + (":" + (If(fmt, "\t") + (p
              + ("" + ("," + (If(fmt, "\n") + more + If(fmt, last)))))))))
         == If(fmt, "\n") + (If(fmt, tabs) + name + ":" + If(fmt, "\t") + p + ("," + If(fmt, "\n") + more))
            + If(fmt, last)
  {
    var n, t, g, l := If(fmt, "\n"), If(fmt, tabs), If(fmt, "\t"), If(fmt, last);
    assert If(fmt, "\n" + tabs) == n + t;
    hide If;
    var e := "," + n + more;
    Associate(",", n + more, l);
    Associate(",", n, more);
    assert "" + (e + l) == e + l;
    var tail := ":" + (g + (p + (e + l)));
    assert "" + tail == tail;
    Chained(t, name, g, p, e, l);
    Associate(n, t, name + tail);
    Associate(n, t + name + ":" + g + p + e, l);
  }

  lemma Chained(t: string, name: string, g: string, p: string, e: string, l: string)
    ensures t + (name + (":" + (g + (p + (e + l))))) == (t + name + ":" + g + p + e) + l
  {
    Associate(t, name, ":" + (g + (p + (e + l))));
    Associate(t + name, ":", g + (p + (e + l)));
    Associate(t + name + ":", g, p + (e + l));
    Associate(t + name + ":" + g, p, e + l);
    Associate(t + name + ":" + g + p, e, l);
  }

  lemma LastLine(fmt: bool, tabs: string, name: string, p: string, last: string)
    ensures If(fmt, "\n" + tabs) + (name + ("" + (":" + (If(fmt, "\t") + (p + (If(fmt, "\n" + last) + ""))))))
         == If(fmt, "\n") + (If(fmt, tabs) + name + ":" + If(fmt, "\t") + p + If(fmt, "\n")) + If(fmt, last)
  {
    var n, t, g, l := If(fmt, "\n"), If(fmt, tabs), If(fmt, "\t"), If(fmt, last);
    assert If(fmt, "\n" + tabs) == n + t && If(fmt, "\n" + last) == n + l;
    hide If;
    assert (n + l) + "" == n + l;
    var tail := ":" + (g + (p + (n + l)));
    assert "" + tail == tail;
    Chained(t, name, g, p, n, l);
    Associate(n, t, name + tail);
    Associate(n, t + name + ":" + g + p + n, l);
  }

  /**
   Either rendering of a printable tree is a JSON text that denotes it, and every gap in it is determined by the
   depth: the unformatted one has none, the formatted one is indented.
   */
  lemma {:induction false} PrintedIsJson(v: Json, depth: nat, fmt: bool) returns (d: Doc)
    requires Printable(v)
    ensures Text(d) == Print(v, depth, fmt) && Tree(d) == v
    ensures Formed(d, Strict) && LaidOut(d, depth, fmt)
  {
    hide Written, Print, Text;
    d := Written(v, depth, fmt);
    WrittenText(v, depth, fmt);
    WrittenIsLaidOut(v, depth, fmt);
  }
}
