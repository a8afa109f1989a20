/**
 String literals of cJSON (soaagent/cJSON.c): escaping, unescaping and the transcoding of
 UTF-16 escapes to UTF-8.

 A `const char *` is the text from it to the terminating NUL, so `*p` is the first
 character, `p + 1` the tail, and a pointer moved past the NUL is an `Overrun`.
 */
module JsonString {
  import opened Bits
  import opened CString

  /** What a parsing routine makes of its input. */
  datatype Parsed<+T> = Ok(value: T, rest: string) | Fail | Overrun

  /** Whether the text continues with the characters w (strncmp in parse_value). */
  predicate StartsWith(t: string, w: string)
  {
    w <= t
  }

  /** `*p == c` */
  predicate At(t: string, c: char)
  {
    t != [] && t[0] == c
  }

  // ----- hexadecimal -----

  function HexDigit(c: char): (v: nat)
    requires IsHexDigit(c)
    ensures v < 16
  {
    if '0' <= c <= '9' then c as int - '0' as int
    else if 'A' <= c <= 'F' then 10 + c as int - 'A' as int
    else 10 + c as int - 'a' as int
  }

  predicate FourHex(t: string)
  {
    |t| >= 4 && IsHexDigit(t[0]) && IsHexDigit(t[1]) && IsHexDigit(t[2]) && IsHexDigit(t[3])
  }

  /** parse_hex4: zero unless four digits follow. */
  function ParseHex4(t: string): (h: nat)
    ensures h < 0x1_0000
  {
    if FourHex(t) then ((HexDigit(t[0]) * 16 + HexDigit(t[1])) * 16 + HexDigit(t[2])) * 16 + HexDigit(t[3]) else 0
  }

  const UPPER16: string := "0123456789ABCDEF"
  const LOWER16: string := "0123456789abcdef"

  predicate DigitOf(c: char, d: nat)
    requires d < 16
  {
    c == UPPER16[d] || c == LOWER16[d]
  }

  lemma DigitOfValue(c: char, d: nat)
    requires d < 16 && DigitOf(c, d)
    ensures IsHexDigit(c) && HexDigit(c) == d
  {
  }

  /** Four digits of either case are read as the number they denote. */
  lemma HexDenotes(t: string, a: nat, b: nat, c: nat, d: nat)
    requires a < 16 && b < 16 && c < 16 && d < 16 && |t| >= 4
    requires DigitOf(t[0], a) && DigitOf(t[1], b) && DigitOf(t[2], c) && DigitOf(t[3], d)
    ensures ParseHex4(t) == 0x1000 * a + 0x100 * b + 0x10 * c + d
  {
    hide HexDigit, IsHexDigit, DigitOf;
    DigitOfValue(t[0], a);
    DigitOfValue(t[1], b);
    DigitOfValue(t[2], c);
    DigitOfValue(t[3], d);
  }

  /** Anything else is read as zero. */
  lemma OtherHexIsZero(t: string)
    requires |t| < 4 || exists i | 0 <= i < 4 :: t[i] !in UPPER16 && t[i] !in LOWER16
    ensures ParseHex4(t) == 0
  {
    hide HexDigit;
    if |t| >= 4 {
      var i :| 0 <= i < 4 && t[i] !in UPPER16 && t[i] !in LOWER16;
      HexIsListed(t[i]);
      hide IsHexDigit;
    }
  }

  lemma HexIsListed(c: char)
    ensures IsHexDigit(c) ==> c in UPPER16 || c in LOWER16
  {
    if '0' <= c <= '9' {
      assert c == UPPER16[c as int - '0' as int];
    } else if 'A' <= c <= 'F' {
      assert c == UPPER16[c as int - 'A' as int + 10];
    } else if 'a' <= c <= 'f' {
      assert c == LOWER16[c as int - 'a' as int + 10];
    }
  }

  // ----- UTF-8 -----

  /** The low six bits of uc as a continuation byte: (uc | 0x80) & 0xBF. */
  function Continuation(uc: nat): (c: byte)
    ensures 0x80 <= c as int < 0xC0 && c as int == 0x80 + uc % 64
  {
    (0x80 + uc % 64) as char
  }

  /** The bytes parse_string writes for a code point, lead byte from firstByteMark. */
  function Utf8(uc: nat): (s: seq<byte>)
    requires uc < 0x11_0000
    ensures 1 <= |s| <= 4
  {
    if uc < 0x80 then [uc as char]
    else if uc < 0x800 then [(0xC0 + uc / 64) as char, Continuation(uc)]
    else if uc < 0x1_0000 then [(0xE0 + uc / 64 / 64) as char, Continuation(uc / 64), Continuation(uc)]
    else [(0xF0 + uc / 64 / 64 / 64) as char, Continuation(uc / 64 / 64), Continuation(uc / 64), Continuation(uc)]
  }

  const FIRST_BYTE_MARK := [0x00, 0x00, 0xC0, 0xE0, 0xF0, 0xF8, 0xFC]

  /** The switch of parse_string on len: continuation bytes from the last one back, then the lead byte. */
  function SwitchBytes(uc: nat, left: nat, len: nat): seq<nat>
    requires 1 <= left <= len < |FIRST_BYTE_MARK|
    decreases left
  {
    if left == 1 then [Or(uc, FIRST_BYTE_MARK[len])]
    else SwitchBytes(Shr(uc, 6), left - 1, len) + [And(Or(uc, 0x80), 0xBF)]
  }

  /** The shifts, masks and marks of parse_string write the bytes of Utf8. */
  lemma BitForms(uc: nat)
    requires uc < 0x11_0000
    ensures var bytes := SwitchBytes(uc, |Utf8(uc)|, |Utf8(uc)|);
            |bytes| == |Utf8(uc)| && forall i | 0 <= i < |bytes| :: bytes[i] == Utf8(uc)[i] as int
  {
    hide And, Or, Shr;
    var b := uc / 64;
    var c := b / 64;
    ShiftBySix(uc);
    ShiftBySix(b);
    ShiftBySix(c);
    LowSixMarked(uc);
    LowSixMarked(b);
    LowSixMarked(c);
    LeadBits(uc);
    var n := |Utf8(uc)|;
    if n == 1 {
      assert SwitchBytes(uc, 1, 1) == [Or(uc, 0)];
    } else if n == 2 {
      assert SwitchBytes(b, 1, 2) == [Or(b, 0xC0)];
    } else if n == 3 {
      assert SwitchBytes(c, 1, 3) == [Or(c, 0xE0)];
      assert SwitchBytes(b, 2, 3) == [Or(c, 0xE0), And(Or(b, 0x80), 0xBF)];
    } else {
      assert SwitchBytes(c / 64, 1, 4) == [Or(c / 64, 0xF0)];
      assert SwitchBytes(c, 2, 4) == [Or(c / 64, 0xF0), And(Or(c, 0x80), 0xBF)];
      assert SwitchBytes(b, 3, 4) == [Or(c / 64, 0xF0), And(Or(c, 0x80), 0xBF), And(Or(b, 0x80), 0xBF)];
    }
  }

  lemma ShiftBySix(a: nat)
    ensures Shr(a, 6) == a / 64
  {
    ShiftIsQuotient(a, 6);
    assert Pow2(6) == 64;
  }

  /** A lead byte's mark leaves the bits of the code point alone. */
  lemma LeadBits(uc: nat)
    ensures Or(uc, 0) == uc
    ensures uc / 64 < 0x20 ==> Or(uc / 64, 0xC0) == 0xC0 + uc / 64
    ensures uc / 64 / 64 < 0x10 ==> Or(uc / 64 / 64, 0xE0) == 0xE0 + uc / 64 / 64
    ensures uc / 64 / 64 / 64 < 0x8 ==> Or(uc / 64 / 64 / 64, 0xF0) == 0xF0 + uc / 64 / 64 / 64
  {
    assert Pow2(5) == 0x20 && Pow2(4) == 0x10 && Pow2(3) == 0x8;
    hide Or;
    if uc / 64 < 0x20 {
      OrAdds(uc / 64, 6, 5);
    }
    if uc / 64 / 64 < 0x10 {
      OrAdds(uc / 64 / 64, 14, 4);
    }
    if uc / 64 / 64 / 64 < 0x8 {
      OrAdds(uc / 64 / 64 / 64, 30, 3);
    }
    OrZero(uc);
  }

  lemma OrZero(a: nat)
    ensures Or(a, 0) == a
  {
  }

  /** The ten bits that each half of a surrogate pair carries, put together. */
  lemma PairBits(uc: nat, uc2: nat)
    ensures Or(And(uc, 0x3FF) * 0x400, And(uc2, 0x3FF)) == uc % 0x400 * 0x400 + uc2 % 0x400
  {
    assert Pow2(5) == 32;
    assert Pow2(10) == 0x400;
    hide Or, And;
    MaskIsRemainder(uc, 10);
    MaskIsRemainder(uc2, 10);
    OrAdds(uc2 % 0x400, uc % 0x400, 10);
    OrCommutes(uc % 0x400 * 0x400, uc2 % 0x400);
  }

  /** A Unicode scalar value: any code point but a surrogate. */
  predicate Scalar(uc: nat)
  {
    uc < 0xD800 || 0xE000 <= uc < 0x11_0000
  }

  predicate IsContinuation(c: char)
  {
    0x80 <= c as int < 0xC0
  }

  function Low6(c: char): nat
    requires IsContinuation(c)
  {
    c as int - 0x80
  }

  /** The decoder of section 3 of RFC 3629: shortest forms only, no surrogates. */
  function DecodeUtf8(s: string): Option<nat>
  {
    if |s| == 1 && s[0] as int < 0x80 then Some(s[0] as int)
    else if |s| == 2 && 0xC0 <= s[0] as int < 0xE0 && IsContinuation(s[1]) then
      var uc := (s[0] as int - 0xC0) * 64 + Low6(s[1]);
      if uc >= 0x80 then Some(uc) else None
    else if |s| == 3 && 0xE0 <= s[0] as int < 0xF0 && IsContinuation(s[1]) && IsContinuation(s[2]) then
      var uc := ((s[0] as int - 0xE0) * 64 + Low6(s[1])) * 64 + Low6(s[2]);
      if uc >= 0x800 && Scalar(uc) then Some(uc) else None
    else if |s| == 4 && 0xF0 <= s[0] as int < 0xF8
            && IsContinuation(s[1]) && IsContinuation(s[2]) && IsContinuation(s[3]) then
      var uc := (((s[0] as int - 0xF0) * 64 + Low6(s[1])) * 64 + Low6(s[2])) * 64 + Low6(s[3]);
      if uc >= 0x1_0000 && Scalar(uc) then Some(uc) else None
    else None
  }

  /** The bytes written for a scalar value are its UTF-8 encoding. */
  lemma Utf8Decodes(uc: nat)
    requires Scalar(uc)
    ensures DecodeUtf8(Utf8(uc)) == Some(uc)
  {
  }

  /** Only those bytes decode to it, so the encoding is the one of RFC 3629. */
  lemma Utf8Unique(s: string, uc: nat)
    requires DecodeUtf8(s) == Some(uc)
    ensures Scalar(uc) && s == Utf8(uc)
  {
    if |s| == 2 {
      var a, b := s[0] as int - 0xC0, Low6(s[1]);
      assert uc / 64 == a && uc % 64 == b;
    } else if |s| == 3 {
      var a, b, c := s[0] as int - 0xE0, Low6(s[1]), Low6(s[2]);
      assert uc / 64 == a * 64 + b && uc % 64 == c;
      assert uc / 64 / 64 == a && uc / 64 % 64 == b;
    } else if |s| == 4 {
      var a, b, c, d := s[0] as int - 0xF0, Low6(s[1]), Low6(s[2]), Low6(s[3]);
      assert uc / 64 == (a * 64 + b) * 64 + c && uc % 64 == d;
      assert uc / 64 / 64 == a * 64 + b && uc / 64 % 64 == c;
      assert uc / 64 / 64 / 64 == a && uc / 64 / 64 % 64 == b;
    }
  }

  // ----- parse_string -----

  /** What one turn of the copying loop writes, and where it leaves the pointer. */
  datatype Turn = Write(out: string, rest: string) | PastEnd

  /** An escape: t is the text after the backslash. */
  function UnescapeOne(t: string): (r: Turn)
    ensures r.Write? ==> |r.rest| < |t| && |r.out| <= 4
  {
    if t == [] then PastEnd
    else if t[0] == 'b' then Write("\U{0008}", t[1..])
    else if t[0] == 'f' then Write("\U{000C}", t[1..])
    else if t[0] == 'n' then Write("\n", t[1..])
    else if t[0] == 'r' then Write("\r", t[1..])
    else if t[0] == 't' then Write("\t", t[1..])
    else if t[0] == 'u' then UnescapeUnicode(t)
    else Write([t[0]], t[1..])
  }

  /** The case 'u': t starts with it. */
  function UnescapeUnicode(t: string): (r: Turn)
    requires t != []
    ensures r.Write? ==> |r.rest| < |t| && |r.out| <= 4
  {
    if |t| < 5 then PastEnd
    else
      var uc := ParseHex4(t[1..]);
      if 0xDC00 <= uc <= 0xDFFF || uc == 0 then Write("", t[5..])
      else if 0xD800 <= uc <= 0xDBFF then
        if |t| < 7 || t[5] != '\\' || t[6] != 'u' then Write("", t[5..])
        else if |t| < 11 then PastEnd
        else
          var uc2 := ParseHex4(t[7..]);
          if uc2 < 0xDC00 || uc2 > 0xDFFF then Write("", t[11..])
          else Write(Utf8(0x1_0000 + uc % 0x400 * 0x400 + uc2 % 0x400), t[11..])
      else Write(Utf8(uc), t[5..])
  }

  /** One turn of the copying loop. */
  function TurnAt(t: string): (r: Turn)
    requires t != []
    ensures r.Write? ==> |r.rest| < |t|
  {
    if t[0] == '\\' then UnescapeOne(t[1..]) else Write([t[0]], t[1..])
  }

  /** The copying loop, from just after the opening quote; an unterminated literal ends at the NUL. */
  function Unescape(t: string): (r: Parsed<string>)
    ensures r.Ok? ==> |r.rest| <= |t|
    ensures !r.Fail?
    decreases |t|
  {
    if t == [] then Ok("", [])
    else if t[0] == '"' then Ok("", t[1..])
    else
      var turn := TurnAt(t);
      if turn.PastEnd? then Overrun
      else
        var r := Unescape(turn.rest);
        if r.Ok? then Ok(turn.out + r.value, r.rest) else r
  }

  /** The measuring loop: how many times it counts, and the text it stops at. */
  function Measure(t: string): (r: Parsed<nat>)
    ensures !r.Fail?
    decreases |t|
  {
    if t == [] || t[0] == '"' then Ok(0, t)
    else if t[0] == '\\' then
      if |t| < 2 then Overrun
      else
        var r := Measure(t[2..]);
        if r.Ok? then Ok(r.value + 1, r.rest) else r
    else
      var r := Measure(t[1..]);
      if r.Ok? then Ok(r.value + 1, r.rest) else r
  }

  /** parse_string: measure, then copy. */
  function ParseString(t: string): (r: Parsed<string>)
    ensures r.Ok? ==> |r.rest| < |t|
  {
    if !At(t, '"') then Fail
    else if Measure(t[1..]).Overrun? then Overrun
    else Unescape(t[1..])
  }

  /** The two loops of parse_string; len is what the copy's buffer was sized for. */
  method ParseStringLoops(str: string) returns (r: Parsed<string>, len: nat)
    ensures r == ParseString(str)
    ensures At(str, '"') && Measure(str[1..]).Ok? ==> len == Measure(str[1..]).value
  {
    len := 0;
    if !At(str, '"') {
      return Fail, 0;
    }
    var ptr := str[1..];
    while ptr != [] && ptr[0] != '"'
      invariant Measure(str[1..]).Ok? <==> Measure(ptr).Ok?
      invariant Measure(ptr).Ok? ==> Measure(str[1..]).value == len + Measure(ptr).value
      decreases |ptr|
    {
      len := len + 1;
      if ptr[0] == '\\' {
        if |ptr| < 2 {
          return Overrun, len;
        }
        ptr := ptr[2..];
      } else {
        ptr := ptr[1..];
      }
    }
    var out := "";
    ptr := str[1..];
    AppendGrows("", "", if Unescape(ptr).Ok? then Unescape(ptr).value else "");
    while ptr != [] && ptr[0] != '"'
      invariant Unescape(str[1..]).Ok? <==> Unescape(ptr).Ok?
      invariant Unescape(ptr).Ok? ==> Unescape(str[1..]) == Ok(out + Unescape(ptr).value, Unescape(ptr).rest)
      decreases |ptr|
    {
      hide UnescapeOne;
      ghost var start, before := ptr, out;
      if ptr[0] != '\\' {
        out, ptr := out + [ptr[0]], ptr[1..];
      } else {
        var turn := UnescapeOne(ptr[1..]);
        if turn.PastEnd? {
          return Overrun, len;
        }
        out, ptr := out + turn.out, turn.rest;
      }
      if Unescape(ptr).Ok? {
        AppendGrows(before, out, Unescape(ptr).value);
      }
    }
    AppendGrows("", out, "");
    return Ok(out, if ptr != [] then ptr[1..] else ptr), len;
  }

  lemma AppendGrows(before: string, out: string, more: string)
    requires before <= out
    ensures out + more == before + (out[|before|..] + more)
    ensures "" + more == more && out + "" == out
  {
  }

  // ----- print_string_ptr -----

  function LowerHex(d: nat): (c: char)
    requires d < 16
    ensures IsHexDigit(c) && HexDigit(c) == d
  {
    if d < 10 then ('0' as int + d) as char else ('a' as int + d - 10) as char
  }

  /** One character as it is printed inside quotes. */
  function EscapeChar(c: char): (s: string)
    ensures 1 <= |s| <= 6
  {
    if c as int > 31 && c != '"' && c != '\\' then [c]
    else if c == '\\' then "\\\\"
    else if c == '"' then "\\\""
    else if c == '\U{0008}' then "\\b"
    else if c == '\U{000C}' then "\\f"
    else if c == '\n' then "\\n"
    else if c == '\r' then "\\r"
    else if c == '\t' then "\\t"
    else ['\\', 'u', '0', '0', LowerHex(c as int / 16), LowerHex(c as int % 16)]
  }

  function Escape(s: string): string
  {
    if s == [] then [] else EscapeChar(s[0]) + Escape(s[1..])
  }

  /** print_string_ptr of a string that is not NULL. */
  function PrintString(s: string): string
  {
    "\"" + Escape(s) + "\""
  }

  /** A C string holds no NUL. */
  predicate NoNul(s: string)
  {
    forall i | 0 <= i < |s| :: s[i] != '\0'
  }

  /** One printed character is read back as itself. */
  lemma {:induction false} UnescapeEscapedChar(c: char, rest: string)
    requires c != '\0'
    ensures var t := EscapeChar(c) + rest;
            t[0] != '"' && TurnAt(t) == Write([c], rest)
  {
    var e := EscapeChar(c);
    var t := e + rest;
    if |e| == 1 {
      assert t[1..] == rest;
    } else if |e| == 2 {
      assert t[1..][1..] == rest;
    } else {
      var u := t[1..];
      assert u[1..] == ['0', '0', e[4], e[5]] + rest && u[5..] == rest;
      assert ParseHex4(u[1..]) == c as int;
    }
  }

  lemma UnescapeTurn(t: string, out: string, rest: string)
    requires t != [] && t[0] != '"' && TurnAt(t) == Write(out, rest)
    ensures Unescape(t) == var r := Unescape(rest); if r.Ok? then Ok(out + r.value, r.rest) else r
  {
    hide TurnAt;
  }

  /** Reading a printed string gives the string back and stops after its closing quote. */
  lemma {:induction false} UnescapeEscape(s: string, rest: string)
    requires NoNul(s)
    ensures Unescape(Escape(s) + "\"" + rest) == Ok(s, rest)
  {
    if s == [] {
      assert (Escape(s) + "\"" + rest)[1..] == rest;
    } else {
      hide EscapeChar, TurnAt, Unescape;
      var tail := Escape(s[1..]) + "\"" + rest;
      UnescapeEscapedChar(s[0], tail);
      UnescapeEscape(s[1..], rest);
      assert Escape(s) + "\"" + rest == EscapeChar(s[0]) + tail;
      UnescapeTurn(EscapeChar(s[0]) + tail, [s[0]], tail);
      assert s == [s[0]] + s[1..];
    }
  }

  /** The measuring loop ends at the quote that closes a printed string. */
  lemma {:induction false} MeasureEscape(s: string, rest: string)
    ensures var m := Measure(Escape(s) + "\"" + rest); m.Ok? && m.rest == "\"" + rest && m.value >= |s|
  {
    if s == [] {
    } else {
      hide EscapeChar;
      var tail := Escape(s[1..]) + "\"" + rest;
      MeasureEscapedChar(s[0], tail);
      MeasureEscape(s[1..], rest);
      assert Escape(s) + "\"" + rest == EscapeChar(s[0]) + tail;
    }
  }

  /** The measuring loop counts plain characters one by one. */
  lemma {:induction false} MeasurePlain(u: string, rest: string)
    requires forall i | 0 <= i < |u| :: u[i] != '"' && u[i] != '\\'
    ensures var m, n := Measure(u + rest), Measure(rest);
            n.Ok? ==> m == Ok(n.value + |u|, n.rest)
  {
    if u == [] {
      assert u + rest == rest;
    } else {
      assert (u + rest)[1..] == u[1..] + rest;
      MeasurePlain(u[1..], rest);
    }
  }

  lemma MeasureEscapedChar(c: char, tail: string)
    ensures var m, n := Measure(EscapeChar(c) + tail), Measure(tail);
            n.Ok? ==> m.Ok? && m.rest == n.rest && m.value >= n.value + 1
  {
    var e := EscapeChar(c);
    var t := e + tail;
    if |e| == 1 {
      assert t[1..] == tail;
    } else if |e| == 2 {
      assert t[2..] == tail;
    } else {
      var u := ['0', '0', e[4], e[5]];
      assert t[2..] == u + tail;
      MeasurePlain(u, tail);
    }
  }

  lemma {:induction false} ParsePrintString(s: string, rest: string)
    requires NoNul(s)
    ensures ParseString(PrintString(s) + rest) == Ok(s, rest)
  {
    var t := PrintString(s) + rest;
    assert t[1..] == Escape(s) + "\"" + rest;
    UnescapeEscape(s, rest);
    MeasureEscape(s, rest);
  }

  // ----- literals with well-formed escapes (section 7 of RFC 8259) -----

  datatype Piece =
    | Plain(c: char)
    | Short(letter: char)
    | Code(hex: string)
    | Pair(high: string, low: string)

  predicate WellFormed(p: Piece)
  {
    match p
    case Plain(c) => c != '"' && c != '\\' && c != '\0'
    case Short(x) => x in {'"', '\\', '/', 'b', 'f', 'n', 'r', 't'}
    case Code(h) => |h| == 4 && FourHex(h) && ParseHex4(h) != 0 && Scalar(ParseHex4(h))
    case Pair(h, l) => |h| == 4 && FourHex(h) && 0xD800 <= ParseHex4(h) < 0xDC00
                       && |l| == 4 && FourHex(l) && 0xDC00 <= ParseHex4(l) < 0xE000
  }

  function Source(p: Piece): string
  {
    match p
    case Plain(c) => [c]
    case Short(x) => ['\\', x]
    case Code(h) => "\\u" + h
    case Pair(h, l) => "\\u" + h + "\\u" + l
  }

  /** What the piece stands for, the code points of \u escapes as the numbers of section 3 of RFC 3629. */
  ghost function Meaning(p: Piece): string
    requires WellFormed(p)
  {
    match p
    case Plain(c) => [c]
    case Short('b') => ['\U{0008}']
    case Short('f') => ['\U{000C}']
    case Short('n') => ['\U{000A}']
    case Short('r') => ['\U{000D}']
    case Short('t') => ['\U{0009}']
    case Short(x) => [x]
    case Code(h) => Utf8(ParseHex4(h))
    case Pair(h, l) => Utf8(0x1_0000 + (ParseHex4(h) - 0xD800) * 0x400 + (ParseHex4(l) - 0xDC00))
  }

  function Sources(ps: seq<Piece>): string
  {
    if ps == [] then "" else Source(ps[0]) + Sources(ps[1..])
  }

  ghost function Meanings(ps: seq<Piece>): string
    requires forall i | 0 <= i < |ps| :: WellFormed(ps[i])
  {
    if ps == [] then "" else Meaning(ps[0]) + Meanings(ps[1..])
  }

  lemma HexPrefix(h: string, rest: string)
    requires |h| == 4 && FourHex(h)
    ensures ParseHex4(h + rest) == ParseHex4(h)
  {
  }

  lemma CodeUnescapes(h: string, rest: string)
    requires WellFormed(Code(h))
    ensures TurnAt(Source(Code(h)) + rest) == Write(Meaning(Code(h)), rest)
  {
    hide ParseHex4, Utf8;
    var t := Source(Code(h)) + rest;
    var u := t[1..];
    assert u == "u" + (h + rest);
    assert u[1..] == h + rest;
    assert u[5..] == rest;
    HexPrefix(h, rest);
  }

  lemma PairUnescapes(h: string, l: string, rest: string)
    requires WellFormed(Pair(h, l))
    ensures TurnAt(Source(Pair(h, l)) + rest) == Write(Meaning(Pair(h, l)), rest)
  {
    hide ParseHex4, Utf8;
    var t := Source(Pair(h, l)) + rest;
    var second := "\\u" + l + rest;
    var u := t[1..];
    PairSlices(h, l, rest);
    HexPrefix(h, second);
    HexPrefix(l, rest);
    SurrogateBits(ParseHex4(h), ParseHex4(l));
  }

  lemma PairSlices(h: string, l: string, rest: string)
    requires |h| == 4 && |l| == 4
    ensures var t, second := Source(Pair(h, l)) + rest, "\\u" + l + rest;
            var u := t[1..];
            && t[0] == '\\' && u != [] && u[0] == 'u' && u[1..] == h + second && u[5..] == second
            && |u| >= 11 && u[7..] == l + rest && u[11..] == rest
  {
    var t := Source(Pair(h, l)) + rest;
    assert t == "\\u" + h + "\\u" + l + rest;
  }

  lemma PieceUnescapes(p: Piece, rest: string)
    requires WellFormed(p)
    ensures (Source(p) + rest)[0] != '"' && TurnAt(Source(p) + rest) == Write(Meaning(p), rest)
  {
    hide ParseHex4, Utf8;
    var t := Source(p) + rest;
    match p {
      case Plain(c) =>
        assert t[1..] == rest;
      case Short(x) =>
        assert t[1..][1..] == rest;
      case Code(h) =>
        CodeUnescapes(h, rest);
      case Pair(h, l) =>
        PairUnescapes(h, l, rest);
    }
  }

  lemma SurrogateBits(high: nat, low: nat)
    requires 0xD800 <= high < 0xDC00 && 0xDC00 <= low < 0xE000
    ensures high % 0x400 == high - 0xD800 && low % 0x400 == low - 0xDC00
  {
  }

  lemma MeasureEscapeLetter(x: char, tail: string)
    ensures var m, n := Measure(['\\', x] + tail), Measure(tail);
            n.Ok? ==> m == Ok(n.value + 1, n.rest)
  {
    assert (['\\', x] + tail)[2..] == tail;
  }

  lemma CodeMeasures(h: string, tail: string)
    requires |h| == 4 && FourHex(h)
    ensures var m, n := Measure("\\u" + h + tail), Measure(tail);
            n.Ok? ==> m == Ok(n.value + 5, n.rest)
  {
    hide Measure;
    assert "\\u" + h + tail == ['\\', 'u'] + (h + tail);
    MeasureEscapeLetter('u', h + tail);
    MeasurePlain(h, tail);
  }

  lemma PieceMeasures(p: Piece, rest: string)
    requires WellFormed(p)
    ensures var m, n := Measure(Source(p) + rest), Measure(rest);
            n.Ok? ==> m.Ok? && m.rest == n.rest && m.value >= n.value + |Meaning(p)|
  {
    hide ParseHex4, Measure;
    match p {
      case Plain(c) =>
        MeasurePlain([c], rest);
      case Short(x) =>
        MeasureEscapeLetter(x, rest);
      case Code(h) =>
        CodeMeasures(h, rest);
      case Pair(h, l) =>
        assert Source(p) + rest == "\\u" + h + ("\\u" + l + rest);
        CodeMeasures(h, "\\u" + l + rest);
        CodeMeasures(l, rest);
    }
  }

  lemma SourcesStep(ps: seq<Piece>, rest: string)
    requires ps != []
    ensures Sources(ps) + "\"" + rest == Source(ps[0]) + (Sources(ps[1..]) + "\"" + rest)
  {
    hide Source;
  }

  lemma {:induction false} LiteralUnescapes(ps: seq<Piece>, rest: string)
    requires forall i | 0 <= i < |ps| :: WellFormed(ps[i])
    ensures Unescape(Sources(ps) + "\"" + rest) == Ok(Meanings(ps), rest)
  {
    if ps == [] {
      assert (Sources(ps) + "\"" + rest)[1..] == rest;
    } else {
      hide Source, Meaning, TurnAt, WellFormed;
      var tail := Sources(ps[1..]) + "\"" + rest;
      PieceUnescapes(ps[0], tail);
      LiteralUnescapes(ps[1..], rest);
      SourcesStep(ps, rest);
    }
  }

  lemma {:induction false} LiteralMeasures(ps: seq<Piece>, rest: string)
    requires forall i | 0 <= i < |ps| :: WellFormed(ps[i])
    ensures var m := Measure(Sources(ps) + "\"" + rest);
            m.Ok? && m.rest == "\"" + rest && |Meanings(ps)| <= m.value
  {
    if ps == [] {
    } else {
      hide Source, Meaning, WellFormed, Measure;
      PieceMeasures(ps[0], Sources(ps[1..]) + "\"" + rest);
      LiteralMeasures(ps[1..], rest);
      SourcesStep(ps, rest);
    }
  }

  /**
   A literal of well-formed pieces is parsed to their meanings, the measuring loop stops at the
   closing quote that ends the copy, and the copy is never longer than was measured.
   */
  lemma {:induction false} LiteralDecodes(ps: seq<Piece>, rest: string)
    requires forall i | 0 <= i < |ps| :: WellFormed(ps[i])
    ensures var t := Sources(ps) + "\"" + rest;
            && ParseString("\"" + t) == Ok(Meanings(ps), rest)
            && Measure(t).Ok? && Measure(t).rest == "\"" + rest
            && |Meanings(ps)| <= Measure(t).value
  {
    hide Measure, Unescape, Sources, Meanings;
    LiteralUnescapes(ps, rest);
    LiteralMeasures(ps, rest);
    var t := Sources(ps) + "\"" + rest;
    assert ("\"" + t)[1..] == t;
  }
}
