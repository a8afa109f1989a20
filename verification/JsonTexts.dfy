/**
 What holds of every text that cJSON accepts, printed by cJSON or not (soaagent/cJSON.c): its tree can be
 printed, and either rendering parses back to it.
 */
module JsonTexts {
  import opened JsonString
  import opened Json
  import opened Decimal

  /** Every number of the tree is one that print_number renders with "%d". */
  predicate IntNumbers(v: Json)
  {
    match v
    case Number(x) => IntNumber(x)
    case Array(items) => IntItems(items)
    case Object(members) => IntMembers(members)
    case _ => true
  }

  predicate IntItems(items: Items)
  {
    items.Item? ==> IntNumbers(items.head) && IntItems(items.next)
  }

  predicate IntMembers(members: Members)
  {
    members.Member? ==> IntNumbers(members.child) && IntMembers(members.following)
  }

  // ----- no NUL in what the routines leave -----

  lemma {:induction false} SkipNoNul(t: string)
    requires NoNul(t)
    ensures NoNul(Skip(t))
  {
    if t != [] && t[0] as int <= 32 {
      SkipNoNul(t[1..]);
    }
  }

  lemma {:induction false} TakeDigitsNoNul(t: string, acc: nat)
    requires NoNul(t)
    ensures NoNul(TakeDigits(t, acc).1)
    decreases t
  {
    if t != [] && IsDigit(t[0]) {
      TakeDigitsNoNul(t[1..], 10 * acc + DigitValue(t[0]));
    }
  }

  lemma WholeNoNul(t: string)
    requires NoNul(t)
    ensures NoNul(Whole(t).1)
  {
    hide TakeDigits;
    TakeDigitsNoNul(if At(t, '0') then t[1..] else t, 0);
  }

  lemma FractionNoNul(t: string, n: nat)
    requires NoNul(t)
    ensures NoNul(Fraction(t, n).2)
  {
    hide TakeDigits;
    if |t| >= 2 {
      TakeDigitsNoNul(t[1..], n);
    }
  }

  lemma ExponentNoNul(t: string)
    requires NoNul(t)
    ensures NoNul(Exponent(t).1)
  {
    hide TakeDigits;
    if t != [] {
      TakeDigitsNoNul(t[1..], 0);
    }
    if |t| >= 2 {
      TakeDigitsNoNul(t[2..], 0);
      assert t[1..][1..] == t[2..];
    }
  }

  lemma ParseNumberNoNul(t: string)
    requires NoNul(t) && t != [] && (t[0] == '-' || IsDigit(t[0]))
    ensures NoNul(ParseNumber(t).1)
  {
    hide Whole, Fraction, Exponent, Scaled;
    var u := if t[0] == '-' then t[1..] else t;
    WholeNoNul(u);
    var w := Whole(u);
    FractionNoNul(w.1, w.0);
    ExponentNoNul(Fraction(w.1, w.0).2);
  }

  lemma Utf8NoNul(uc: nat)
    requires 0 < uc < 0x11_0000
    ensures NoNul(Utf8(uc))
  {
  }

  lemma UnescapeUnicodeNoNul(t: string)
    requires NoNul(t) && t != [] && UnescapeUnicode(t).Write?
    ensures NoNul(UnescapeUnicode(t).out) && NoNul(UnescapeUnicode(t).rest)
  {
    var uc := ParseHex4(t[1..]);
    hide ParseHex4, Utf8;
    if uc != 0 {
      Utf8NoNul(uc);
    }
    if |t| >= 11 {
      Utf8NoNul(0x1_0000 + uc % 0x400 * 0x400 + ParseHex4(t[7..]) % 0x400);
    }
  }

  lemma TurnNoNul(t: string)
    requires NoNul(t) && t != [] && TurnAt(t).Write?
    ensures NoNul(TurnAt(t).out) && NoNul(TurnAt(t).rest)
  {
    hide UnescapeUnicode;
    if t[0] == '\\' && |t| > 1 && t[1] == 'u' {
      UnescapeUnicodeNoNul(t[1..]);
    }
  }

  lemma {:induction false} UnescapeNoNul(t: string)
    requires NoNul(t) && Unescape(t).Ok?
    ensures NoNul(Unescape(t).value) && NoNul(Unescape(t).rest)
    decreases |t|
  {
    hide TurnAt;
    if t != [] && t[0] != '"' {
      TurnNoNul(t);
      UnescapeNoNul(TurnAt(t).rest);
      NoNulConcat(TurnAt(t).out, Unescape(TurnAt(t).rest).value);
    }
  }

  lemma ParseStringNoNul(t: string)
    requires NoNul(t) && ParseString(t).Ok?
    ensures NoNul(ParseString(t).value) && NoNul(ParseString(t).rest)
  {
    hide Unescape, Measure;
    UnescapeNoNul(t[1..]);
  }

  lemma ParseNameNoNul(t: string)
    requires NoNul(t) && ParseName(t).Ok?
    ensures NoNul(ParseName(t).value) && NoNul(ParseName(t).rest)
  {
    hide ParseString, Skip;
    SkipNoNul(t);
    ParseStringNoNul(Skip(t));
    var u := Skip(ParseString(Skip(t)).rest);
    SkipNoNul(ParseString(Skip(t)).rest);
    SkipNoNul(u[1..]);
  }

  // ----- a parsed tree can be printed -----

  /** The tree of a C string can be printed, if its numbers can. */
  lemma {:induction false} ParsedIsPrintable(t: string)
    requires NoNul(t) && ParseValue(t).Ok?
    ensures NoNul(ParseValue(t).rest)
    ensures IntNumbers(ParseValue(t).value) ==> Printable(ParseValue(t).value)
    decreases |t|, 2
  {
    hide ParseString, ParseNumber, ParseArray, ParseObject;
    if StartsWith(t, "null") || StartsWith(t, "false") || StartsWith(t, "true") {
    } else if At(t, '"') {
      ParseStringNoNul(t);
    } else if t[0] == '-' || IsDigit(t[0]) {
      ParseNumberNoNul(t);
    } else if At(t, '[') {
      ParsedArray(t);
    } else {
      ParsedObject(t);
    }
  }

  lemma {:induction false} ParsedArray(t: string)
    requires NoNul(t) && At(t, '[') && ParseArray(t).Ok?
    ensures NoNul(ParseArray(t).rest)
    ensures IntNumbers(ParseArray(t).value) ==> Printable(ParseArray(t).value)
    decreases |t|, 1
  {
    hide ParseItems, Skip;
    SkipNoNul(t[1..]);
    var u := Skip(t[1..]);
    if !At(u, ']') {
      ParsedItems(u);
    }
  }

  lemma {:induction false} ParsedItems(t: string)
    requires NoNul(t) && ParseItems(t).Ok?
    ensures NoNul(ParseItems(t).rest)
    ensures IntItems(ParseItems(t).value) ==> PrintableItems(ParseItems(t).value)
    decreases |t|, 3
  {
    hide ParseValue, Skip;
    SkipNoNul(t);
    ParsedIsPrintable(Skip(t));
    var rest := ParseValue(Skip(t)).rest;
    SkipNoNul(rest);
    var u := Skip(rest);
    if At(u, ',') {
      ParsedItems(u[1..]);
    }
  }

  lemma {:induction false} ParsedObject(t: string)
    requires NoNul(t) && At(t, '{') && ParseObject(t).Ok?
    ensures NoNul(ParseObject(t).rest)
    ensures IntNumbers(ParseObject(t).value) ==> Printable(ParseObject(t).value)
    decreases |t|, 1
  {
    hide ParseMembers, Skip;
    SkipNoNul(t[1..]);
    var u := Skip(t[1..]);
    if !At(u, '}') {
      ParsedMembers(u);
    }
  }

  lemma {:induction false} ParsedMembers(t: string)
    requires NoNul(t) && ParseMembers(t).Ok?
    ensures NoNul(ParseMembers(t).rest)
    ensures IntMembers(ParseMembers(t).value) ==> PrintableMembers(ParseMembers(t).value)
    decreases |t|, 3
  {
    hide ParseValue, ParseName, Skip;
    ParseNameNoNul(t);
    var text := ParseName(t).rest;
    ParsedIsPrintable(text);
    var rest := ParseValue(text).rest;
    SkipNoNul(rest);
    var u := Skip(rest);
    if At(u, ',') {
      ParsedMembers(u[1..]);
    }
  }

  /**
   Every text that cJSON_Parse accepts, however it is laid out: if its numbers are those that "%d" renders,
   its tree can be printed, and either rendering is accepted again as the same tree.
   */
  lemma {:induction false} AcceptedIsReprinted(t: string, requireEnd: bool, fmt: bool, again: bool)
    requires NoNul(t) && ParseWithOpts(t, requireEnd).Ok?
    ensures var v := ParseWithOpts(t, requireEnd).value;
            IntNumbers(v) <==> Printable(v)
    ensures var v := ParseWithOpts(t, requireEnd).value;
            IntNumbers(v) ==> ParseWithOpts(Print(v, 0, fmt), again) == Ok(v, [])
  {
    hide ParseValue, Print, Skip;
    SkipNoNul(t);
    ParsedIsPrintable(Skip(t));
    var v := ParseWithOpts(t, requireEnd).value;
    PrintableNumbers(v);
    if Printable(v) {
      ParseRendering(v, fmt, again);
    }
  }

  lemma {:induction false} PrintableNumbers(v: Json)
    ensures Printable(v) ==> IntNumbers(v)
  {
    match v {
      case Array(items) => PrintableItemNumbers(items);
      case Object(members) => PrintableMemberNumbers(members);
      case _ =>
    }
  }

  lemma {:induction false} PrintableItemNumbers(items: Items)
    ensures PrintableItems(items) ==> IntItems(items)
  {
    if items.Item? {
      PrintableNumbers(items.head);
      PrintableItemNumbers(items.next);
    }
  }

  lemma {:induction false} PrintableMemberNumbers(members: Members)
    ensures PrintableMembers(members) ==> IntMembers(members)
  {
    if members.Member? {
      PrintableNumbers(members.child);
      PrintableMemberNumbers(members.following);
    }
  }
}
