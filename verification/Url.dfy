/** URL coding of published service descriptions (soaagent/url_encode.c, soaregister/service_mgt.c). */
module Url {
  import opened CString

  const HEX_CHARS: seq<byte> := ['0', '1', '2', '3', '4', '5', '6', '7', '8', '9', 'A', 'B', 'C', 'D', 'E', 'F']

  /** Whether url_encode writes c as a percent escape. */
  predicate Escaped(c: byte)
  {
    || (c < '0' && c != '-' && c != '.')
    || (c < 'A' && c > '9')
    || (c > 'Z' && c < 'a' && c != '_')
    || c > 'z'
  }

  function EncodeByte(c: byte): (r: seq<byte>)
    ensures 1 <= |r| <= 3
  {
    if c == ' ' then ['+']
    else if Escaped(c) then ['%', HEX_CHARS[c as int / 16], HEX_CHARS[c as int % 16]]
    else [c]
  }

  function Encode(s: seq<byte>): (r: seq<byte>)
    ensures |s| <= |r| <= 3 * |s|
  {
    if s == [] then [] else EncodeByte(s[0]) + Encode(s[1..])
  }

  lemma EncodeNext(s: seq<byte>, from: nat)
    requires from < |s|
    ensures Encode(s[from..]) == EncodeByte(s[from]) + Encode(s[from + 1..])
  {
    assert s[from..][1..] == s[from + 1..];
  }

  /** url_encode */
  method UrlEncode(s: seq<byte>) returns (to: seq<byte>)
    ensures to == Encode(s)
  {
    hide Encode;
    to := [];
    var from := 0;
    assert s[0..] == s;
    while from < |s|
      invariant 0 <= from <= |s|
      invariant to + Encode(s[from..]) == Encode(s)
    {
      EncodeNext(s, from);
      var c := s[from];
      from := from + 1;
      var written: seq<byte>;
      if c == ' ' {
        written := ['+'];
      } else if (c < '0' && c != '-' && c != '.')
                || (c < 'A' && c > '9')
                || (c > 'Z' && c < 'a' && c != '_')
                || c > 'z' {
        written := ['%', HEX_CHARS[c as int / 16], HEX_CHARS[c as int % 16]];
      } else {
        written := [c];
      }
      assert written == EncodeByte(c);
      Associate(to, written, Encode(s[from..]));
      to := to + written;
    }
    assert s[from..] == [] && Encode([]) == [] by {
      NothingToEncode();
    }
  }

  // ----- what an encoding looks like -----

  /** A byte that stands for itself: a letter, a digit or one of three marks. */
  predicate Itself(c: byte)
  {
    'a' <= c <= 'z' || 'A' <= c <= 'Z' || '0' <= c <= '9' || c in {'-', '.', '_'}
  }

  const DIGITS16: string := "0123456789ABCDEF"

  /** Letters, digits, '-', '.' and '_' stay, a space becomes '+', any other byte a percent sign and two digits. */
  lemma EncodedByte(c: byte)
    ensures Encode([c]) == if Itself(c) then [c]
                           else if c == ' ' then ['+']
                           else ['%', DIGITS16[c as int / 16], DIGITS16[c as int % 16]]
  {
    assert Encode([c]) == EncodeByte(c) + Encode([]);
    SameDigits(c as int / 16);
    SameDigits(c as int % 16);
    hide Encode;
  }

  lemma SameDigits(n: int)
    requires 0 <= n < 16
    ensures HEX_CHARS[n] == DIGITS16[n]
  {
  }

  /** A string is encoded byte by byte. */
  lemma {:induction false} EncodeConcat(a: seq<byte>, b: seq<byte>)
    ensures Encode(a + b) == Encode(a) + Encode(b)
  {
    if a == [] {
      assert a + b == b;
    } else {
      assert (a + b)[1..] == a[1..] + b;
      EncodeConcat(a[1..], b);
    }
  }

  /** The bytes that are written as percent escapes. */
  function Others(s: seq<byte>): nat
  {
    if s == [] then 0 else Others(s[1..]) + if Itself(s[0]) || s[0] == ' ' then 0 else 1
  }

  /** An encoding has two characters more for every such byte. */
  lemma {:induction false} EncodedLength(s: seq<byte>)
    ensures |Encode(s)| == |s| + 2 * Others(s)
  {
    if s != [] {
      EncodedLength(s[1..]);
      EncodedByte(s[0]);
      assert s == [s[0]] + s[1..];
      EncodeConcat([s[0]], s[1..]);
    }
  }

  lemma NothingToEncode()
    ensures Encode([]) == [] && Decode([]) == []
  {
  }

  /** One digit as hextoint reads it, upper case lowered first. */
  function HexValue(c: byte): (v: int)
    requires IsHexDigit(c)
    ensures 0 <= v < 16
  {
    if '0' <= c <= '9' then c as int - '0' as int
    else if 'A' <= c <= 'Z' then c as int - 'A' as int + 10
    else c as int - 'a' as int + 10
  }

  /** hextoint */
  function HexToInt(high: byte, low: byte): (v: int)
    requires IsHexDigit(high) && IsHexDigit(low)
    ensures 0 <= v < 256
  {
    HexValue(high) * 16 + HexValue(low)
  }

  /** The next decoded byte and how much of the text it took. */
  function DecodeStep(s: seq<byte>): (r: (byte, nat))
    requires s != []
    ensures 1 <= r.1 <= |s|
  {
    if s[0] == '+' then (' ', 1)
    else if s[0] == '%' && |s| >= 3 && IsHexDigit(s[1]) && IsHexDigit(s[2])
    then (HexToInt(s[1], s[2]) as char, 3)
    else (s[0], 1)
  }

  function Decode(s: seq<byte>): (r: seq<byte>)
    ensures |r| <= |s|
    decreases |s|
  {
    if s == [] then []
    else
      var (c, used) := DecodeStep(s);
      [c] + Decode(s[used..])
  }

  lemma DecodeNext(s: seq<byte>, data: nat)
    requires data < |s|
    ensures var (c, used) := DecodeStep(s[data..]);
            Decode(s[data..]) == [c] + Decode(s[data + used..])
  {
    var (c, used) := DecodeStep(s[data..]);
    assert s[data..][used..] == s[data + used..];
  }

  /** url_decode */
  method UrlDecode(str: seq<byte>) returns (dest: seq<byte>)
    ensures dest == Decode(str)
  {
    hide Decode;
    var data := 0;
    dest := [];
    assert str[0..] == str;
    while data < |str|
      invariant 0 <= data <= |str|
      invariant dest + Decode(str[data..]) == Decode(str)
    {
      DecodeNext(str, data);
      var len := |str| - data - 1;  // what is left after this byte
      var c: byte;
      ghost var start := data;
      if str[data] == '+' {
        c := ' ';
      } else if str[data] == '%' && len >= 2 && IsHexDigit(str[data + 1]) && IsHexDigit(str[data + 2]) {
        c := HexToInt(str[data + 1], str[data + 2]) as char;
        data := data + 2;
      } else {
        c := str[data];
      }
      data := data + 1;
      assert DecodeStep(str[start..]) == (c, data - start);
      assert dest + ([c] + Decode(str[data..])) == (dest + [c]) + Decode(str[data..]);
      dest := dest + [c];
    }
    assert str[data..] == [] && Decode([]) == [] by {
      NothingToEncode();
    }
  }

  /** Some percent escape is decoded. */
  ghost predicate HasEscape(s: seq<byte>)
  {
    exists i :: EscapeAt(s, i)
  }

  /** An escape at position i. */
  predicate EscapeAt(s: seq<byte>, i: int)
  {
    0 <= i < |s| - 2 && s[i] == '%' && IsHexDigit(s[i + 1]) && IsHexDigit(s[i + 2])
  }

  lemma EscapeShifts(s: seq<byte>, n: nat, i: int)
    requires n <= |s| && n <= i
    ensures EscapeAt(s, i) <==> EscapeAt(s[n..], i - n)
  {
  }

  lemma EscapeAhead(s: seq<byte>)
    requires s != [] && !EscapeAt(s, 0)
    ensures HasEscape(s) <==> HasEscape(s[1..])
  {
    hide EscapeAt;
    if HasEscape(s) {
      var i :| EscapeAt(s, i);
      EscapeNotBefore(s, i);
      EscapeShifts(s, 1, i);
    }
    if HasEscape(s[1..]) {
      var i :| EscapeAt(s[1..], i);
      EscapeNotBefore(s[1..], i);
      EscapeShifts(s, 1, i + 1);
    }
  }

  lemma EscapeNotBefore(s: seq<byte>, i: int)
    requires EscapeAt(s, i)
    ensures i >= 0
  {
  }

  lemma EscapeIsOne(s: seq<byte>, i: int)
    requires EscapeAt(s, i)
    ensures HasEscape(s)
  {
  }

  lemma NoEscape()
    ensures !HasEscape([])
  {
  }

  lemma DecodeStepEscape(s: seq<byte>)
    requires s != []
    ensures DecodeStep(s).1 == if EscapeAt(s, 0) then 3 else 1
  {
  }

  /** The decoded text leaves room for its NUL in a buffer as long as the text exactly when an escape is decoded. */
  lemma {:induction false} DecodeFits(s: seq<byte>)
    ensures |Decode(s)| + 1 <= |s| <==> HasEscape(s)
    decreases |s|
  {
    if s == [] {
      NoEscape();
    } else {
      hide HasEscape, DecodeStep, EscapeAt;
      DecodeStepEscape(s);
      if EscapeAt(s, 0) {
        EscapeIsOne(s, 0);
      } else {
        EscapeAhead(s);
      }
      DecodeFits(s[DecodeStep(s).1..]);
    }
  }

  // ----- what decoding makes of each form -----

  const LOWER16: string := "0123456789abcdef"

  /** A percent sign and two hexadecimal digits of either case are one byte. */
  lemma DecodedEscape(a: nat, b: nat, h: byte, l: byte, rest: seq<byte>)
    requires a < 16 && b < 16 && h in {DIGITS16[a], LOWER16[a]} && l in {DIGITS16[b], LOWER16[b]}
    ensures Decode(['%', h, l] + rest) == [(16 * a + b) as char] + Decode(rest)
  {
    DigitOfEitherCase(a, h);
    DigitOfEitherCase(b, l);
    var s: seq<byte> := ['%', h, l] + rest;
    assert s[3..] == rest;
    hide IsHexDigit, HexValue;
    assert DecodeStep(s) == ((16 * a + b) as char, 3);
  }

  lemma DigitOfEitherCase(a: nat, h: byte)
    requires a < 16 && h in {DIGITS16[a], LOWER16[a]}
    ensures IsHexDigit(h) && HexValue(h) == a
  {
  }

  /** A plus sign is a space, and any other character but a percent sign itself. */
  lemma DecodedOther(c: byte, rest: seq<byte>)
    requires c != '%'
    ensures Decode([c] + rest) == [if c == '+' then ' ' else c] + Decode(rest)
  {
    var s := [c] + rest;
    assert s[1..] == rest;
    assert DecodeStep(s) == (if c == '+' then ' ' else c, 1);
  }

  predicate Digit16(c: byte)
  {
    c in DIGITS16 || c in LOWER16
  }

  /** A percent sign that two hexadecimal digits do not follow stays. */
  lemma DecodedPercent(s: seq<byte>)
    requires s != [] && s[0] == '%' && (|s| < 3 || !Digit16(s[1]) || !Digit16(s[2]))
    ensures Decode(s) == ['%'] + Decode(s[1..])
  {
    hide IsHexDigit, Digit16, Decode;
    if |s| >= 3 {
      OnlyDigits(s[1]);
      OnlyDigits(s[2]);
    }
    OneByte(s);
  }

  lemma OneByte(s: seq<byte>)
    requires s != [] && (s[0] != '%' || |s| < 3 || !IsHexDigit(s[1]) || !IsHexDigit(s[2]))
    ensures Decode(s) == [if s[0] == '+' then ' ' else s[0]] + Decode(s[1..])
  {
    hide IsHexDigit;
  }

  lemma OnlyDigits(c: byte)
    ensures IsHexDigit(c) ==> Digit16(c)
  {
    if '0' <= c <= '9' {
      assert c == DIGITS16[c as int - '0' as int];
    } else if 'A' <= c <= 'F' {
      assert c == DIGITS16[c as int - 'A' as int + 10];
    } else if 'a' <= c <= 'f' {
      assert c == LOWER16[c as int - 'a' as int + 10];
    }
  }

  lemma HexRoundTrip(c: byte)
    ensures var high, low := HEX_CHARS[c as int / 16], HEX_CHARS[c as int % 16];
            IsHexDigit(high) && IsHexDigit(low) && HexToInt(high, low) == c as int
  {
    HexDigitRoundTrip(c as int / 16);
    HexDigitRoundTrip(c as int % 16);
  }

  lemma HexDigitRoundTrip(n: int)
    requires 0 <= n < 16
    ensures IsHexDigit(HEX_CHARS[n]) && HexValue(HEX_CHARS[n]) == n
  {
  }

  /** The first encoded byte decodes to the byte it came from, whatever follows. */
  lemma DecodeStepEncodeByte(c: byte, rest: seq<byte>)
    ensures DecodeStep(EncodeByte(c) + rest) == (c, |EncodeByte(c)|)
  {
    hide HexToInt;
    HexRoundTrip(c);
  }

  /** Decoding an encoded string gives the string back. */
  lemma {:induction false} DecodeEncode(s: seq<byte>)
    ensures Decode(Encode(s)) == s
  {
    if s == [] {
    } else {
      hide EncodeByte, DecodeStep;
      DecodeStepEncodeByte(s[0], Encode(s[1..]));
      assert Encode(s)[|EncodeByte(s[0])|..] == Encode(s[1..]);
      DecodeEncode(s[1..]);
    }
  }

  /** The alphabet of an encoded string: one path component, and printable. */
  predicate Plain(c: byte)
  {
    '0' <= c <= '9' || 'A' <= c <= 'Z' || 'a' <= c <= 'z' || c in {'-', '.', '_', '+', '%'}
  }

  lemma {:induction false} EncodedIsPlain(s: seq<byte>)
    ensures forall i | 0 <= i < |Encode(s)| :: Plain(Encode(s)[i])
    ensures '/' !in Encode(s)
  {
    if s == [] {
    } else {
      EncodedIsPlain(s[1..]);
      EncodeByteIsPlain(s[0]);
    }
  }

  lemma EncodeByteIsPlain(c: byte)
    ensures forall i | 0 <= i < |EncodeByte(c)| :: Plain(EncodeByte(c)[i])
  {
  }

  // ----- publishing -----

  const MAX_NODE_PATH_LEN := 10852  // 1024 * 10 + 512 + 100

  /** The ephemeral node that register_services creates for a description. */
  function NodePath(group: seq<byte>, description: seq<byte>): seq<byte>
  {
    Truncate("/" + group + "/providers/" + Encode(description), MAX_NODE_PATH_LEN)
  }

  /** The name under which a node appears in its parent's child list. */
  function ChildName(path: seq<byte>): (name: seq<byte>)
    ensures '/' !in name
    decreases |path|
  {
    if '/' !in path then path else ChildName(path[1..])
  }

  lemma {:induction false} ChildNameAfterSlash(prefix: seq<byte>, name: seq<byte>)
    requires '/' !in name
    ensures ChildName(prefix + "/" + name) == name
    decreases |prefix|
  {
    var path := prefix + "/" + name;
    assert path[|prefix|] == '/';
    if prefix == [] {
      assert path[1..] == name;
    } else {
      assert path[1..] == prefix[1..] + "/" + name;
      ChildNameAfterSlash(prefix[1..], name);
    }
  }

  /** Decoding a cut encoding gives the string back only when two characters of a final "%" or "%2" are missing. */
  lemma {:induction false} DecodeCutEncoding(s: seq<byte>, t: seq<byte>)
    requires t < Encode(s)
    ensures Decode(t) == s <==> |Encode(s)| == |t| + 2 && EndsInPercent(s)
  {
    assert |EncodeByte('2')| == 1;
    hide DecodeStep, EncodeByte;
    var e := EncodeByte(s[0]);
    if |t| >= |e| {
      var u := t[|e|..];
      assert t == e + u && u < Encode(s[1..]) by {
        assert t == Encode(s)[..|t|];
      }
      DecodeStepEncodeByte(s[0], u);
      DecodeCutEncoding(s[1..], u);
      assert Decode(t) == [s[0]] + Decode(u);
      EncodeLength(s);
      assert |s| > 1;
      hide Decode, Encode;
      MorePercent(s);
    } else {
      DecodeCutByte(s, t);
    }
  }

  /** A longer string ends in "%" or "%2" when its rest does, or when it is "%2". */
  lemma MorePercent(s: seq<byte>)
    requires s != []
    ensures |s| > 2 ==> (EndsInPercent(s) <==> EndsInPercent(s[1..]))
    ensures |s| == 2 ==> (EndsInPercent(s) <==> EndsInPercent(s[1..]) || s == ['%', '2'])
    ensures s == [s[0]] + s[1..]
  {
  }

  /** How long an encoding is. */
  lemma {:induction false} EncodeLength(s: seq<byte>)
    requires s != []
    ensures |Encode(s)| == |EncodeByte(s[0])| + |Encode(s[1..])|
    ensures |Encode(s[1..])| >= |s| - 1
    ensures |s| == 2 ==> Encode(s[1..]) == EncodeByte(s[1])
    ensures |s| == 1 ==> Encode(s[1..]) == []
  {
    if |s| > 1 {
      EncodeLength(s[1..]);
    }
  }

  /** The same when the cut falls inside the first byte's escape. */
  lemma DecodeCutByte(s: seq<byte>, t: seq<byte>)
    requires t < Encode(s) && |t| < |EncodeByte(s[0])|
    ensures Decode(t) == s <==> |Encode(s)| == |t| + 2 && EndsInPercent(s)
  {
    EncodeLength(s);
    assert forall i | 0 <= i < |t| :: t[i] == EncodeByte(s[0])[i];
    DecodeStub(t);
    hide Encode, Decode;
    if t == [] {
      CutAway(s);
    } else {
      CutEscape(s, t);
    }
  }

  /** Two encoded characters are not those of a string that ends in "%" or "%2". */
  lemma CutAway(s: seq<byte>)
    requires s != [] && |Encode(s)| == |EncodeByte(s[0])| + |Encode(s[1..])|
    requires |Encode(s[1..])| >= |s| - 1 && (|s| == 2 ==> Encode(s[1..]) == EncodeByte(s[1]))
    ensures |Encode(s)| == 2 ==> !EndsInPercent(s)
  {
    hide Encode;
  }

  /** An encoding is the byte itself or an escape. */
  lemma EscapeStarts(c: byte)
    ensures |EncodeByte(c)| == 1 || (|EncodeByte(c)| == 3 && EncodeByte(c)[0] == '%')
    ensures c == '%' ==> EncodeByte(c) == ['%', '2', '5']
  {
  }

  lemma SecondByte(c: byte)
    ensures c == '%' ==> |EncodeByte(c)| == 3
    ensures c == '2' ==> |EncodeByte(c)| == 1
  {
  }

  /** One or two characters of an escape are the whole string only when it is "%" or "%2". */
  lemma CutEscape(s: seq<byte>, t: seq<byte>)
    requires s != [] && 0 < |t| < |EncodeByte(s[0])| && t == EncodeByte(s[0])[..|t|]
    requires |Encode(s)| == |EncodeByte(s[0])| + |Encode(s[1..])|
    requires |Encode(s[1..])| >= |s| - 1 && (|s| == 2 ==> Encode(s[1..]) == EncodeByte(s[1]))
    requires |s| == 1 ==> Encode(s[1..]) == []
    ensures t == s <==> |Encode(s)| == |t| + 2 && EndsInPercent(s)
  {
    EscapeStarts(s[0]);
    if |s| > 1 {
      SecondByte(s[1]);
    }
    hide Encode, EncodeByte;
    if |s| > 2 {
      assert |Encode(s)| >= 5;
    } else if |s| == 2 {
      assert t == s <==> |t| == 2 && s[0] == '%' && s[1] == '2';
    } else {
      assert t == s <==> |t| == 1 && s[0] == '%';
    }
  }

  /** One or two characters that begin an escape are decoded as they stand. */
  lemma DecodeStub(t: seq<byte>)
    requires |t| <= 2 && (t != [] ==> t[0] == '%')
    ensures |t| == 2 && t[1] != '+' ==> Decode(t) == t
    ensures |t| <= 1 ==> Decode(t) == t
  {
    if |t| == 2 {
      assert Decode(t[1..][1..]) == [];
      assert DecodeStep(t) == ('%', 1);
      assert t == [t[0]] + t[1..];
    } else if |t| == 1 {
      assert Decode(t[1..]) == [];
    }
  }

  predicate EndsInPercent(s: seq<byte>)
  {
    || (|s| >= 1 && s[|s| - 1] == '%')
    || (|s| >= 2 && s[|s| - 2] == '%' && s[|s| - 1] == '2')
  }

  /** An agent recovers a published description exactly when cutting the node path did no harm. */
  lemma {:induction false} AgentRecoversDescription(group: seq<byte>, description: seq<byte>)
    requires |group| + 12 < 10852
    ensures var len := |group| + 12 + |description| + 2 * Others(description);
            Decode(ChildName(NodePath(group, description))) == description
            <==> len < 10852 || (len == 10853 && EndsInPercent(description))
  {
    hide Encode, Decode, ChildName, EndsInPercent, Others;
    EncodedLength(description);
    EncodedIsPlain(description);
    DecodeEncode(description);
    var prefix, full := "/" + group + "/providers", Encode(description);
    var path := "/" + group + "/providers/" + full;
    assert path == prefix + "/" + full;
    if |path| < MAX_NODE_PATH_LEN {
      ChildNameAfterSlash(prefix, full);
    } else {
      var kept := full[..MAX_NODE_PATH_LEN - 1 - |prefix| - 1];
      assert Truncate(path, MAX_NODE_PATH_LEN) == prefix + "/" + kept;
      ChildNameAfterSlash(prefix, kept);
      DecodeCutEncoding(description, kept);
    }
  }

  /** A description as long as the path buffer does not come back. */
  lemma LongDescriptionIsLost()
    ensures var description: seq<byte> := seq(MAX_NODE_PATH_LEN, i => 'a');
            Decode(ChildName(NodePath("group", description))) != description
  {
    hide Encode, Decode, ChildName, NodePath;
    var description: seq<byte> := seq(MAX_NODE_PATH_LEN, i => 'a');
    AgentRecoversDescription("group", description);
  }
}
