/**
 cJSON_Minify on every text that cJSON accepts, printed by cJSON or not (soaagent/cJSON.c): the minified text
 is accepted as the same tree, provided every literal is closed and no escape "\u" swallows its end.
 */
module MinifyTexts {
  import opened CString
  import opened JsonString
  import opened Json
  import opened Decimal
  import opened JsonMinify

  /** Four characters that end no literal and begin no escape; four hexadecimal digits are such. */
  predicate FourPlain(t: string)
  {
    |t| >= 4 && forall i | 0 <= i < 4 :: t[i] != '"' && t[i] != '\\'
  }

  /** What follows a literal, from after its opening quote; none if it is not closed or an escape \u is cut short. */
  function LiteralEnd(t: string): (r: Option<string>)
    ensures r.Some? ==> |r.value| < |t| && t[|t| - |r.value|..] == r.value
    decreases |t|
  {
    if t == [] then None
    else if t[0] == '"' then Some(t[1..])
    else if t[0] != '\\' then LiteralEnd(t[1..])
    else if |t| < 2 then None
    else if t[1] != 'u' then LiteralEnd(t[2..])
    else if FourPlain(t[2..]) then LiteralEnd(t[6..])
    else None
  }

  /** Every literal of the text is closed, with four characters of its own behind every \u. */
  predicate WholeLiterals(t: string)
    decreases |t|
  {
    if t == [] then true
    else if t[0] == '"' then
      var end := LiteralEnd(t[1..]);
      end.Some? && WholeLiterals(end.value)
    else WholeLiterals(t[1..])
  }

  lemma {:induction false} HexIsPlain(t: string)
    requires FourHex(t)
    ensures FourPlain(t)
  {
  }

  // ----- literals -----

  /** The literal up to and with its closing quote. */
  function Lit(t: string): (u: string)
    requires LiteralEnd(t).Some?
    ensures t == u + LiteralEnd(t).value
  {
    var n := |t| - |LiteralEnd(t).value|;
    assert t == t[..n] + t[n..];
    t[..n]
  }

  lemma LitStep(t: string, n: nat)
    requires n <= |t| && LiteralEnd(t).Some? && LiteralEnd(t[n..]) == LiteralEnd(t)
    ensures Lit(t) == t[..n] + Lit(t[n..])
  {
    hide LiteralEnd;
    assert t == t[..n] + t[n..];
  }

  lemma {:induction false} LiteralIsCopied(t: string)
    requires LiteralEnd(t).Some?
    ensures CopyLiteral(t) == Some((Lit(t), LiteralEnd(t).value))
    decreases |t|
  {
    hide CopyLiteral;
    if t[0] == '"' {
      CopyQuote(t);
    } else {
      var n := if t[0] != '\\' then 1 else 2;
      assert t == t[..n] + t[n..];
      if n == 1 || t[1] != 'u' {
        LitStep(t, n);
        LiteralIsCopied(t[n..]);
        CopyUnit(t[..n], t[n..], Lit(t[n..]), LiteralEnd(t).value);
      } else {
        LitStep(t, 6);
        LiteralIsCopied(t[6..]);
        CopyPlain(t[2..6], t[6..], Lit(t[6..]), LiteralEnd(t).value);
        CopyUnit(t[..2], t[2..6] + t[6..], t[2..6] + Lit(t[6..]), LiteralEnd(t).value);
        hide LiteralEnd, Lit;
        assert t[2..6] + t[6..] == t[2..];
        assert t[..2] + (t[2..6] + Lit(t[6..])) == t[..6] + Lit(t[6..]);
      }
    }
  }

  lemma CopyQuote(t: string)
    requires At(t, '"')
    ensures LiteralEnd(t) == Some(t[1..]) && CopyLiteral(t) == Some((Lit(t), t[1..]))
  {
  }

  lemma {:induction false} LiteralIsMeasured(t: string)
    requires LiteralEnd(t).Some?
    ensures Measure(t).Ok?
    decreases |t|
  {
    if t[0] == '"' {
    } else if t[0] != '\\' {
      LiteralIsMeasured(t[1..]);
    } else if t[1] != 'u' {
      LiteralIsMeasured(t[2..]);
    } else {
      LiteralIsMeasured(t[6..]);
      MeasurePlain(t[2..6], t[6..]);
      hide LiteralEnd;
      assert t[2..6] + t[6..] == t[2..];
    }
  }

  /** What stands before the end of the literal stays when what follows the literal changes. */
  lemma SameLiteral(t: string, other: string)
    requires LiteralEnd(t).Some?
    ensures var t' := Lit(t) + other;
            |t'| >= |Lit(t)| >= 1 && forall i | 0 <= i < |Lit(t)| :: t'[i] == t[i]
  {
  }

  predicate HighHalf(uc: nat)
  {
    0xD800 <= uc < 0xDC00
  }

  /** What a \u escape that is not read as a pair writes. */
  function SingleOut(uc: nat): string
    requires uc < 0x1_0000
  {
    if uc == 0 || 0xD800 <= uc < 0xE000 then "" else Utf8(uc)
  }

  lemma HexOfFour(h: string, rest: string)
    requires |h| == 4
    ensures ParseHex4(h + rest) == ParseHex4(h)
  {
  }

  lemma SingleEscape(h: string, rest: string)
    requires |h| == 4 && (HighHalf(ParseHex4(h)) ==> !StartsWith(rest, "\\u"))
    ensures UnescapeUnicode("u" + h + rest) == Write(SingleOut(ParseHex4(h)), rest)
  {
    var t := "u" + h + rest;
    assert t[1..] == h + rest && t[5..] == rest;
    HexOfFour(h, rest);
    assert |t| >= 7 && t[5] == '\\' && t[6] == 'u' ==> rest[..2] == "\\u";
    hide ParseHex4, Utf8;
  }

  /** A \u escape of zero, of half a pair, or of anything but hexadecimal digits writes nothing. */
  lemma DroppedEscape(h: string, rest: string)
    requires |h| == 4
    requires var uc := ParseHex4(h);
             uc == 0 || 0xDC00 <= uc < 0xE000 || (0xD800 <= uc < 0xDC00 && !StartsWith(rest, "\\u"))
    ensures TurnAt("\\u" + h + rest) == Write("", rest)
  {
    hide ParseHex4, Utf8;
    SingleEscape(h, rest);
    var t := "\\u" + h + rest;
    assert t[1..] == "u" + h + rest && t[..2] == "\\u";
    assert t[0] == '\\' && t[1] == 'u' && t[1..][0] == 'u';
  }

  /** What a pair of escapes writes; nothing if the second is no low half. */
  function PairOut(uc: nat, uc2: nat): string
    requires HighHalf(uc)
  {
    if uc2 < 0xDC00 || uc2 > 0xDFFF then "" else Utf8(0x1_0000 + uc % 0x400 * 0x400 + uc2 % 0x400)
  }

  lemma PairText(h: string, l: string, rest: string)
    requires |h| == 4 && |l| == 4
    ensures var t, second := "u" + h + ("\\u" + l + rest), "\\u" + l + rest;
            && |t| >= 11 && t[0] == 'u' && t[1..] == h + second && t[5] == '\\' && t[6] == 'u'
            && t[7..] == l + rest && t[11..] == rest
  {
    var t := "u" + h + ("\\u" + l + rest);
    assert t == "u" + h + "\\u" + l + rest;
  }

  lemma PairEscape(h: string, l: string, rest: string)
    requires |h| == 4 && |l| == 4 && HighHalf(ParseHex4(h))
    ensures UnescapeUnicode("u" + h + ("\\u" + l + rest)) == Write(PairOut(ParseHex4(h), ParseHex4(l)), rest)
  {
    hide ParseHex4, Utf8;
    PairText(h, l, rest);
    HexOfFour(h, "\\u" + l + rest);
    HexOfFour(l, rest);
  }

  /** How far a literal reaches behind an escape. */
  lemma LiteralReaches(t: string)
    requires LiteralEnd(t).Some? && t[0] != '"'
    ensures t[0] != '\\' ==> LiteralEnd(t[1..]) == LiteralEnd(t)
    ensures t[0] == '\\' ==> |t| >= 2 && |Lit(t)| >= 3
    ensures t[0] == '\\' && t[1] != 'u' ==> LiteralEnd(t[2..]) == LiteralEnd(t)
    ensures t[0] == '\\' && t[1] == 'u' ==> |t| >= 6 && LiteralEnd(t[6..]) == LiteralEnd(t)
  {
  }

  /** A literal that begins with \u, and the same literal before another text. */
  lemma UnicodeText(t: string, other: string)
    requires LiteralEnd(t).Some? && StartsWith(t, "\\u")
    ensures |t| >= 6 && LiteralEnd(t[6..]) == LiteralEnd(t)
    ensures t[1..] == "u" + t[2..6] + t[6..] && t == "\\u" + t[2..6] + t[6..]
    ensures Lit(t) + other == "\\u" + t[2..6] + (Lit(t[6..]) + other)
    ensures (Lit(t) + other)[1..] == "u" + t[2..6] + (Lit(t[6..]) + other)
  {
    assert t[0] == t[..2][0] == '\\' && t[1] == t[..2][1] == 'u';
    LiteralReaches(t);
    LitStep(t, 6);
    hide LiteralEnd, Lit, StartsWith;
    EscapeText(t, Lit(t[6..]), other);
  }

  lemma EscapeText(t: string, lit: string, other: string)
    requires |t| >= 6 && t[0] == '\\' && t[1] == 'u'
    ensures t[1..] == "u" + t[2..6] + t[6..] && t == "\\u" + t[2..6] + t[6..]
    ensures var t' := t[..6] + lit + other;
            t' == "\\u" + t[2..6] + (lit + other) && t'[1..] == "u" + t[2..6] + (lit + other)
  {
    assert t[..6] == "\\u" + t[2..6];
    assert t == t[..6] + t[6..];
  }

  lemma SameStart(t: string, other: string)
    requires LiteralEnd(t).Some?
    ensures StartsWith(Lit(t) + other, "\\u") <==> StartsWith(t, "\\u")
  {
    SameLiteral(t, other);
    var t' := Lit(t) + other;
    if t[0] == '\\' {
      LiteralReaches(t);
      assert t'[..2] == t[..2];
    }
    hide LiteralEnd, Lit;
  }

  /** What a \u escape writes and takes does not depend on what follows its literal. */
  lemma UnicodeIsLocal(t: string, other: string)
    requires LiteralEnd(t).Some? && StartsWith(t, "\\u")
    ensures var t', turn := Lit(t) + other, UnescapeUnicode(t[1..]);
            && turn.Write? && LiteralEnd(turn.rest) == LiteralEnd(t)
            && |t'| >= 2 && UnescapeUnicode(t'[1..]) == Write(turn.out, Lit(turn.rest) + other)
  {
    UnicodeText(t, other);
    var h, after := t[2..6], t[6..];
    var after' := Lit(after) + other;
    SameStart(after, other);
    if HighHalf(ParseHex4(h)) && StartsWith(after, "\\u") {
      UnicodeText(after, other);
      PairEscape(h, after[2..6], after[6..]);
      PairEscape(h, after[2..6], Lit(after[6..]) + other);
    } else {
      SingleEscape(h, after);
      SingleEscape(h, after');
    }
  }

  /** A piece at the front of a literal stays there when what follows the literal changes. */
  lemma SameFront(t: string, n: nat, other: string)
    requires n <= |t| && LiteralEnd(t).Some? && LiteralEnd(t[n..]) == LiteralEnd(t)
    ensures var t' := Lit(t) + other; |t'| > n && t'[..n] == t[..n] && t'[n..] == Lit(t[n..]) + other
  {
    hide Lit, LiteralEnd;
    LitStep(t, n);
    SameLiteral(t[n..], other);
    FrontOf(t[..n], Lit(t[n..]), other);
  }

  lemma FrontOf(a: string, b: string, c: string)
    ensures (a + b + c)[..|a|] == a && (a + b + c)[|a|..] == b + c
  {
    Associate(a, b, c);
  }

  lemma PlainTurn(t: string, rest: string)
    requires t != [] && t[0] != '\\' && t[1..] == rest
    ensures TurnAt(t) == Write([t[0]], rest)
  {
  }

  lemma EscapeTurn(t: string, rest: string)
    requires |t| >= 2 && t[0] == '\\' && t[1] != 'u' && t[2..] == rest
    ensures TurnAt(t).Write? && TurnAt(t) == Write(ShortOut(t[1]), rest)
  {
    assert t[1..][1..] == t[2..];
  }

  function ShortOut(c: char): string
  {
    if c == 'b' then "\U{0008}" else if c == 'f' then "\U{000C}" else if c == 'n' then "\n"
    else if c == 'r' then "\r" else if c == 't' then "\t" else [c]
  }

  lemma UnicodeTurn(t: string)
    requires |t| >= 2 && t[0] == '\\' && t[1] == 'u'
    ensures TurnAt(t) == UnescapeUnicode(t[1..]) && t[..2] == "\\u"
  {
  }

  lemma FrontChar(t: string, t': string, n: nat, i: nat)
    requires i < n <= |t| && n <= |t'| && t'[..n] == t[..n]
    ensures t'[i] == t[i]
  {
    assert t'[i] == t'[..n][i] == t[..n][i];
  }

  /** One turn of the copying loop is alike whatever follows the literal. */
  lemma TurnIsLocal(t: string, other: string)
    requires LiteralEnd(t).Some? && t[0] != '"'
    ensures var t', turn := Lit(t) + other, TurnAt(t);
            && turn.Write? && LiteralEnd(turn.rest) == LiteralEnd(t)
            && t' != [] && t'[0] != '"' && TurnAt(t') == Write(turn.out, Lit(turn.rest) + other)
  {
    LiteralReaches(t);
    var t' := Lit(t) + other;
    hide UnescapeUnicode, TurnAt, LiteralEnd, Lit;
    if t[0] != '\\' {
      SameFront(t, 1, other);
      FrontChar(t, t', 1, 0);
      PlainTurn(t, t[1..]);
      PlainTurn(t', Lit(t[1..]) + other);
    } else if t[1] != 'u' {
      SameFront(t, 2, other);
      FrontChar(t, t', 2, 0);
      FrontChar(t, t', 2, 1);
      EscapeTurn(t, t[2..]);
      EscapeTurn(t', Lit(t[2..]) + other);
    } else {
      SameFront(t, 6, other);
      FrontChar(t, t', 6, 0);
      FrontChar(t, t', 6, 1);
      UnicodeTurn(t);
      UnicodeTurn(t');
      UnicodeIsLocal(t, other);
    }
  }

  /** A literal is read alike whatever follows it. */
  lemma {:induction false} UnescapeIsLocal(t: string, other: string)
    requires LiteralEnd(t).Some?
    ensures Unescape(t).Ok? && Unescape(t).rest == LiteralEnd(t).value
    ensures Unescape(Lit(t) + other) == Ok(Unescape(t).value, other)
    decreases |t|
  {
    hide TurnAt;
    if t[0] == '"' {
      assert (Lit(t) + other)[1..] == other;
    } else {
      TurnIsLocal(t, other);
      hide LiteralEnd, Lit;
      UnescapeIsLocal(TurnAt(t).rest, other);
    }
  }

  /** How a literal's end is found behind its first piece. */
  lemma EndStep(t: string, n: nat)
    requires n <= |t| && n == if At(t, '\\') then if |t| >= 2 && t[1] == 'u' then 6 else 2 else 1
    requires !At(t, '"') && (n == 6 ==> FourPlain(t[2..6]))
    ensures LiteralEnd(t) == LiteralEnd(t[n..])
  {
    assert n == 6 ==> t[2..][..4] == t[2..6];
    if n == 6 {
      assert forall i | 0 <= i < 4 :: t[2..][i] == t[2..6][i];
    }
  }

  /** A literal ends alike whatever follows it. */
  lemma {:induction false} LitEnd(t: string, other: string)
    requires LiteralEnd(t).Some?
    ensures LiteralEnd(Lit(t) + other) == Some(other)
    decreases |t|
  {
    var t' := Lit(t) + other;
    if t[0] == '"' {
      assert t'[0] == '"' && t'[1..] == other;
    } else {
      LiteralReaches(t);
      var n := if t[0] == '\\' then if t[1] == 'u' then 6 else 2 else 1;
      assert n == 6 ==> FourPlain(t[2..6]);
      hide LiteralEnd, Lit, FourPlain;
      SameFront(t, n, other);
      FrontChar(t, t', n, 0);
      if n > 1 {
        FrontChar(t, t', n, 1);
      }
      if n == 6 {
        assert t'[2..6] == t'[..6][2..] == t[..6][2..] == t[2..6];
      }
      EndStep(t', n);
      LitEnd(t[n..], other);
    }
  }

  /** A quoted string is read alike whatever follows it. */
  lemma StringIsLocal(t: string, other: string)
    requires At(t, '"') && LiteralEnd(t[1..]).Some?
    ensures ParseString(t).Ok? && ParseString(t).rest == LiteralEnd(t[1..]).value
    ensures ParseString(['"'] + (Lit(t[1..]) + other)) == Ok(ParseString(t).value, other)
  {
    var u := t[1..];
    var t' := ['"'] + (Lit(u) + other);
    assert t'[1..] == Lit(u) + other;
    LiteralIsMeasured(u);
    LitEnd(u, other);
    LiteralIsMeasured(t'[1..]);
    hide Unescape, Measure, LiteralEnd, Lit;
    UnescapeIsLocal(u, other);
  }

  // ----- white space -----

  /** What may follow a value in an accepted text. */
  predicate Closed(rest: string)
  {
    Skip(rest) == [] || Skip(rest)[0] in {',', ']', '}'}
  }

  /** Nothing that a number would go on with. */
  predicate Stops(rest: string)
  {
    rest == [] || rest[0] as int <= 32 || rest[0] in {',', ']', '}'}
  }

  lemma {:induction false} SkipWhole(t: string)
    requires WholeLiterals(t)
    ensures WholeLiterals(Skip(t))
  {
    if t != [] && t[0] as int <= 32 {
      SkipWhole(t[1..]);
    }
  }

  /** A character that the minifier copies on its own. */
  lemma OneKept(t: string)
    requires t != [] && !IsBlank(t[0]) && t[0] != '/' && t[0] != '"'
    ensures Minify(t) == Prefixed([t[0]], Minify(t[1..]))
    ensures WholeLiterals(t) <==> WholeLiterals(t[1..])
  {
    assert t[..1] == [t[0]];
  }

  /** Skipping before minifying and after it comes to the same. */
  lemma {:induction false} SkipMinified(t: string)
    requires Minify(Skip(t)).Some?
    ensures Minify(t).Some? && Skip(Minify(t).value) == Skip(Minify(Skip(t)).value)
  {
    if t != [] && t[0] as int <= 32 {
      SkipMinified(t[1..]);
      if !IsBlank(t[0]) {
        OneKept(t);
        SkipOne(t[0], Minify(t[1..]).value);
      }
    }
  }

  lemma {:induction false} ClosedStops(rest: string)
    requires Closed(rest)
    ensures Stops(rest) && (Minify(rest).Some? ==> Stops(Minify(rest).value))
  {
    if rest != [] && IsBlank(rest[0]) {
      ClosedStops(rest[1..]);
    } else if rest != [] {
      OneKept(rest);
    }
  }

  // ----- numbers -----

  predicate NumberChar(c: char)
  {
    IsDigit(c) || c in {'.', 'e', 'E', '+', '-'}
  }

  /** A routine that reads numbers went from t to rest. */
  predicate Taken(t: string, rest: string)
  {
    && |rest| <= |t| && t[|t| - |rest|..] == rest
    && forall i | 0 <= i < |t| - |rest| :: NumberChar(t[i])
  }

  lemma TakenOn(t: string, u: string, rest: string)
    requires Taken(t, u) && Taken(u, rest)
    ensures Taken(t, rest)
  {
    var n := |t| - |u|;
    assert t[|t| - |rest|..] == t[n..][|u| - |rest|..];
    assert forall i | 0 <= i < |u| :: t[n..][i] == t[n + i];
  }

  lemma TakenOne(t: string)
    requires t != [] && NumberChar(t[0])
    ensures Taken(t, t[1..])
  {
  }

  lemma {:induction false} DigitsTaken(t: string, acc: nat)
    ensures Taken(t, TakeDigits(t, acc).1)
    decreases |t|
  {
    if t != [] && IsDigit(t[0]) {
      DigitsTaken(t[1..], 10 * acc + DigitValue(t[0]));
      TakenOne(t);
      TakenOn(t, t[1..], TakeDigits(t, acc).1);
    }
  }

  lemma WholeTaken(t: string)
    ensures Taken(t, Whole(t).1)
  {
    var u := if At(t, '0') then t[1..] else t;
    DigitsTaken(u, 0);
    hide TakeDigits, Taken;
    if At(t, '0') {
      TakenOne(t);
    } else {
      NothingTaken(t);
    }
    NothingTaken(u);
    TakenOn(t, u, Whole(t).1);
  }

  lemma NothingTaken(t: string)
    ensures Taken(t, t)
  {
  }

  lemma FractionTaken(t: string, n: nat)
    ensures Taken(t, Fraction(t, n).2)
  {
    hide TakeDigits, Taken;
    if |t| >= 2 && t[0] == '.' && IsDigit(t[1]) {
      TakenOne(t);
      DigitsTaken(t[1..], n);
      TakenOn(t, t[1..], TakeDigits(t[1..], n).1);
    } else {
      NothingTaken(t);
    }
  }

  lemma ExponentTaken(t: string)
    ensures Taken(t, Exponent(t).1)
  {
    hide TakeDigits, Taken;
    if At(t, 'e') || At(t, 'E') {
      TakenOne(t);
      var u := t[1..];
      if At(u, '-') || At(u, '+') {
        TakenOne(u);
        DigitsTaken(u[1..], 0);
        TakenOn(u, u[1..], TakeDigits(u[1..], 0).1);
      } else {
        DigitsTaken(u, 0);
      }
      TakenOn(t, u, Exponent(t).1);
    } else {
      NothingTaken(t);
    }
  }

  lemma MagnitudeTaken(t: string)
    ensures Taken(t, ParseMagnitude(t).1)
  {
    hide Whole, Fraction, Exponent, Taken, Scaled;
    var w := Whole(t);
    var f := Fraction(w.1, w.0);
    WholeTaken(t);
    FractionTaken(w.1, w.0);
    ExponentTaken(f.2);
    TakenOn(t, w.1, f.2);
    TakenOn(t, f.2, Exponent(f.2).1);
  }

  lemma NumberTaken(t: string)
    requires t != [] && (t[0] == '-' || IsDigit(t[0]))
    ensures Taken(t, ParseNumber(t).1)
  {
    hide ParseMagnitude, Taken;
    if t[0] == '-' {
      TakenOne(t);
      MagnitudeTaken(t[1..]);
      TakenOn(t, t[1..], ParseNumber(t).1);
    } else {
      MagnitudeTaken(t);
    }
  }

  // What stops numbers is left over as it is.

  lemma {:induction false} DigitsPass(q: string, acc: nat, rest: string)
    requires Stops(rest)
    ensures var d := TakeDigits(q, acc); TakeDigits(q + rest, acc) == (d.0, d.1 + rest)
    decreases |q|
  {
    if q == [] {
      assert q + rest == rest;
    } else {
      assert (q + rest)[1..] == q[1..] + rest;
      if IsDigit(q[0]) {
        DigitsPass(q[1..], 10 * acc + DigitValue(q[0]), rest);
      }
    }
  }

  lemma FirstPasses(q: string, rest: string)
    requires Stops(rest)
    ensures forall c | NumberChar(c) :: At(q + rest, c) <==> At(q, c)
    ensures q != [] ==> (q + rest)[0] == q[0] && (q + rest)[1..] == q[1..] + rest
    ensures q == [] ==> q + rest == rest
  {
  }

  lemma WholePasses(q: string, rest: string)
    requires Stops(rest)
    ensures var w := Whole(q); Whole(q + rest) == (w.0, w.1 + rest)
  {
    hide TakeDigits;
    FirstPasses(q, rest);
    var u := if At(q, '0') then q[1..] else q;
    FirstPasses(u, rest);
    DigitsPass(u, 0, rest);
  }

  lemma FractionPasses(q: string, n: nat, rest: string)
    requires Stops(rest)
    ensures var f := Fraction(q, n); Fraction(q + rest, n) == (f.0, f.1, f.2 + rest)
  {
    hide TakeDigits;
    FirstPasses(q, rest);
    if q != [] {
      FirstPasses(q[1..], rest);
      DigitsPass(q[1..], n, rest);
    }
  }

  lemma ExponentPasses(q: string, rest: string)
    requires Stops(rest)
    ensures var e := Exponent(q); Exponent(q + rest) == (e.0, e.1 + rest)
  {
    hide TakeDigits;
    FirstPasses(q, rest);
    if q != [] {
      var u := q[1..];
      FirstPasses(u, rest);
      DigitsPass(u, 0, rest);
      if u != [] {
        DigitsPass(u[1..], 0, rest);
      }
    }
  }

  lemma MagnitudePasses(q: string, rest: string)
    requires Stops(rest)
    ensures var m := ParseMagnitude(q); ParseMagnitude(q + rest) == (m.0, m.1 + rest)
  {
    hide Whole, Fraction, Exponent, Scaled, Stops;
    var w := Whole(q);
    WholePasses(q, rest);
    var f := Fraction(w.1, w.0);
    FractionPasses(w.1, w.0, rest);
    ExponentPasses(f.2, rest);
  }

  lemma NumberPasses(q: string, rest: string)
    requires Stops(rest) && q != [] && (q[0] == '-' || IsDigit(q[0]))
    ensures q + rest != [] && (q + rest)[0] == q[0]
    ensures ParseNumber(q + rest) == (ParseNumber(q).0, ParseNumber(q).1 + rest)
  {
    hide ParseMagnitude;
    FirstPasses(q, rest);
    MagnitudePasses(q, rest);
    MagnitudePasses(q[1..], rest);
  }

  lemma TakenIsKept(t: string, rest: string)
    requires Taken(t, rest)
    ensures var q := t[..|t| - |rest|]; t == q + rest && Kept(q)
  {
  }

  /** A number is read alike before anything that stops it. */
  lemma NumberIsLocal(t: string, other: string)
    requires t != [] && (t[0] == '-' || IsDigit(t[0])) && Stops(ParseNumber(t).1) && Stops(other)
    ensures var r := ParseNumber(t);
            var q := t[..|t| - |r.1|];
            && t == q + r.1 && Kept(q) && q != [] && (q + other)[0] == t[0]
            && ParseNumber(q + other) == (r.0, other)
  {
    hide ParseNumber, Taken, Stops, Kept;
    var rest := ParseNumber(t).1;
    var q := t[..|t| - |rest|];
    NumberTaken(t);
    TakenIsKept(t, rest);
    assert q[0] == t[0];
    NumberPasses(q, rest);
    NumberPasses(q, other);
    assert |ParseNumber(q).1| == 0;
    assert [] + other == other;
  }

  // ----- the parser on minified text -----

  /** What can begin a value. */
  lemma ValueStart(t: string)
    requires ParseValue(t).Ok?
    ensures t != [] && t[0] as int > 32 && t[0] !in {'/', ',', ':', ']', '}'} && Skip(t) == t
  {
    hide ParseString, ParseNumber, ParseArray, ParseObject;
    if StartsWith(t, "null") || StartsWith(t, "false") || StartsWith(t, "true") {
      assert t[0] in {'n', 'f', 't'};
    }
  }

  /** The value v read from t, with rest left over, is also read from what Minify makes of them. */
  ghost predicate ValueKept(t: string, v: Json, rest: string)
  {
    Minify(rest).Some? ==> Minify(t).Some? && ParseValue(Minify(t).value) == Ok(v, Minify(rest).value)
  }

  ghost predicate ItemsKept(t: string, items: Items, rest: string)
  {
    Minify(rest).Some? ==> Minify(t).Some? && ParseItems(Minify(t).value) == Ok(items, Minify(rest).value)
  }

  ghost predicate MembersKept(t: string, members: Members, rest: string)
  {
    Minify(rest).Some? ==> Minify(t).Some? && ParseMembers(Minify(t).value) == Ok(members, Minify(rest).value)
  }

  lemma {:induction false} KeptWhole(q: string, rest: string)
    requires Kept(q) && WholeLiterals(q + rest)
    ensures WholeLiterals(rest)
  {
    if q == [] {
      assert q + rest == rest;
    } else {
      assert (q + rest)[1..] == q[1..] + rest;
      KeptWhole(q[1..], rest);
    }
  }

  lemma MinifiedWord(t: string, v: Json, rest: string)
    requires v.Null? || v.False? || v.True?
    requires t == Print(v, 0, false) + rest && WholeLiterals(t)
    ensures WholeLiterals(rest) && ValueKept(t, v, rest)
  {
    var w := Print(v, 0, false);
    KeptWhole(w, rest);
    MinifyKept(w, rest);
    hide ParseValue, Minify;
    if Minify(rest).Some? {
      ParsePrintWord(v, Minify(rest).value);
    }
  }

  lemma MinifiedNumber(t: string)
    requires t != [] && (t[0] == '-' || IsDigit(t[0])) && WholeLiterals(t) && Closed(ParseNumber(t).1)
    ensures var r := ParseNumber(t); WholeLiterals(r.1) && ValueKept(t, Number(r.0), r.1)
  {
    hide ParseNumber, Minify, Closed, Stops, WholeLiterals;
    var r := ParseNumber(t);
    ClosedStops(r.1);
    var q := t[..|t| - |r.1|];
    NumberIsLocal(t, r.1);
    KeptWhole(q, r.1);
    MinifyKept(q, r.1);
    if Minify(r.1).Some? {
      NumberIsLocal(t, Minify(r.1).value);
      NumberValue(q + Minify(r.1).value);
    }
  }

  lemma NumberValue(t: string)
    requires t != [] && (t[0] == '-' || IsDigit(t[0]))
    ensures ParseValue(t) == Ok(Number(ParseNumber(t).0), ParseNumber(t).1)
  {
    hide ParseNumber;
    assert !StartsWith(t, "null") && !StartsWith(t, "false") && !StartsWith(t, "true");
  }

  lemma QuotedMinified(t: string)
    requires At(t, '"') && LiteralEnd(t[1..]).Some?
    ensures Minify(t) == Prefixed(['"'] + Lit(t[1..]), Minify(LiteralEnd(t[1..]).value))
  {
    hide CopyLiteral, LiteralEnd, Lit;
    LiteralIsCopied(t[1..]);
    assert t[..1] == ['"'];
    assert !StartsWith(t, "//") && !StartsWith(t, "/*");
  }

  lemma QuoteText(lit: string, m: string)
    ensures (['"'] + lit) + m == ['"'] + (lit + m) && At(['"'] + (lit + m), '"')
  {
  }

  /** The same of a string. */
  ghost predicate StringKept(t: string, s: string, rest: string)
  {
    Minify(rest).Some? ==>
      Minify(t).Some? && At(Minify(t).value, '"') && ParseString(Minify(t).value) == Ok(s, Minify(rest).value)
  }

  lemma MinifiedString(t: string)
    requires At(t, '"') && WholeLiterals(t)
    ensures ParseString(t).Ok? && WholeLiterals(ParseString(t).rest)
    ensures StringKept(t, ParseString(t).value, ParseString(t).rest)
  {
    var rest := LiteralEnd(t[1..]).value;
    hide ParseString, Minify, LiteralEnd, Lit;
    QuotedMinified(t);
    StringIsLocal(t, rest);
    if Minify(rest).Some? {
      var m := Minify(rest).value;
      StringIsLocal(t, m);
      QuoteText(Lit(t[1..]), m);
    }
  }

  lemma StringValue(t: string)
    requires At(t, '"')
    ensures ParseValue(t) == match ParseString(t)
                             case Ok(s, rest) => Ok(String(s), rest)
                             case Fail => Fail
                             case Overrun => Overrun
  {
    hide ParseString;
    assert !StartsWith(t, "null") && !StartsWith(t, "false") && !StartsWith(t, "true");
  }

  /** Which word a value is, and what follows it. */
  lemma WordText(t: string, v: Json)
    requires v.Null? || v.False? || v.True?
    requires StartsWith(t, Print(v, 0, false))
    ensures var w := Print(v, 0, false); t == w + t[|w|..] && ParseValue(t) == Ok(v, t[|w|..])
  {
    var w := Print(v, 0, false);
    assert t == t[..|w|] + t[|w|..];
    hide ParseValue;
    ParsePrintWord(v, t[|w|..]);
  }

  /** The value that a closed text begins with is read from the minified text too. */
  lemma {:induction false} MinifiedValue(t: string)
    requires WholeLiterals(t) && ParseValue(t).Ok? && Closed(ParseValue(t).rest)
    ensures var r := ParseValue(t); WholeLiterals(r.rest) && ValueKept(t, r.value, r.rest)
    decreases |t|, 2
  {
    hide Minify, WholeLiterals, Closed, ParseString, ParseNumber, ParseArray, ParseObject;
    if StartsWith(t, "null") {
      WordText(t, Null);
      MinifiedWord(t, Null, t[4..]);
    } else if StartsWith(t, "false") {
      WordText(t, False);
      MinifiedWord(t, False, t[5..]);
    } else if StartsWith(t, "true") {
      WordText(t, True);
      MinifiedWord(t, True, t[4..]);
    } else if At(t, '"') {
      MinifiedString(t);
      if Minify(ParseString(t).rest).Some? {
        StringValue(Minify(t).value);
      }
    } else if t[0] == '-' || IsDigit(t[0]) {
      MinifiedNumber(t);
    } else if At(t, '[') {
      MinifiedArray(t);
    } else {
      MinifiedObject(t);
    }
  }

  /** A bracket, brace, comma or colon at the front. */
  lemma MarkKept(t: string)
    requires t != [] && t[0] in {'[', ']', '{', '}', ',', ':'}
    ensures WholeLiterals(t) <==> WholeLiterals(t[1..])
    ensures Minify(t) == Prefixed([t[0]], Minify(t[1..]))
    ensures Minify(t).Some? ==> Minify(t).value[0] == t[0] && Minify(t).value[1..] == Minify(t[1..]).value
                                && Skip(Minify(t).value) == Minify(t).value
  {
    OneKept(t);
  }

  /** What follows a value in a list is found behind the minified value too. */
  lemma MarkAhead(rest: string, c: char)
    requires At(Skip(rest), c) && c in {']', '}', ',', ':'} && WholeLiterals(rest)
    ensures WholeLiterals(Skip(rest)[1..])
    ensures Minify(Skip(rest)[1..]).Some? ==>
              Minify(rest).Some? && Skip(Minify(rest).value) == [c] + Minify(Skip(rest)[1..]).value
  {
    hide Minify, WholeLiterals, Skip;
    SkipWhole(rest);
    MarkKept(Skip(rest));
    if Minify(Skip(rest)[1..]).Some? {
      SkipMinified(rest);
    }
  }

  lemma {:induction false} MinifiedItems(t: string)
    requires WholeLiterals(t) && ParseItems(t).Ok?
    ensures var r := ParseItems(t); WholeLiterals(r.rest) && ItemsKept(t, r.value, r.rest)
    decreases |t|, 3
  {
    hide Minify, WholeLiterals, ParseValue, Skip;
    var s := Skip(t);
    var rest := ParseValue(s).rest;
    var u := Skip(rest);
    SkipWhole(t);
    MinifiedValue(s);
    MarkAhead(rest, u[0]);
    if At(u, ',') {
      MinifiedItems(u[1..]);
    }
    if Minify(ParseItems(t).rest).Some? {
      SkipMinified(t);
      ValueStart(Minify(s).value);
      assert ([u[0]] + Minify(u[1..]).value)[1..] == Minify(u[1..]).value;
    }
  }

  lemma {:induction false} MinifiedArray(t: string)
    requires WholeLiterals(t) && At(t, '[') && ParseArray(t).Ok?
    ensures var r := ParseArray(t); WholeLiterals(r.rest) && ValueKept(t, r.value, r.rest)
    decreases |t|, 1
  {
    hide Minify, WholeLiterals, ParseItems, Skip, ParseValue;
    var u := Skip(t[1..]);
    MarkKept(t);
    SkipWhole(t[1..]);
    if At(u, ']') {
      MarkKept(u);
    } else {
      MinifiedItems(u);
    }
    if Minify(ParseArray(t).rest).Some? {
      SkipMinified(t[1..]);
      ArrayValue(Minify(t).value);
      if !At(u, ']') {
        ItemsBegin(Minify(u).value);
      }
    }
  }

  lemma ItemsBegin(t: string)
    requires ParseItems(t).Ok?
    ensures ParseItems(Skip(t)) == ParseItems(t) && !At(Skip(t), ']')
  {
    hide ParseValue;
    SkipStays(Skip(t));
    ValueStart(Skip(t));
  }

  lemma MembersBegin(t: string)
    requires ParseMembers(t).Ok?
    ensures ParseMembers(Skip(t)) == ParseMembers(t) && !At(Skip(t), '}')
  {
    hide ParseValue, ParseString;
    SkippedMembers(t);
    NameQuote(Skip(t));
  }

  lemma ArrayValue(t: string)
    requires At(t, '[') || At(t, '{')
    ensures ParseValue(t) == if At(t, '[') then ParseArray(t) else ParseObject(t)
  {
    hide ParseArray, ParseObject;
    assert !StartsWith(t, "null") && !StartsWith(t, "false") && !StartsWith(t, "true");
  }

  lemma MinifiedName(t: string)
    requires WholeLiterals(t) && ParseName(t).Ok?
    ensures WholeLiterals(ParseName(t).rest)
    ensures var r := ParseName(t);
            Minify(r.rest).Some? ==>
              Minify(t).Some? && ParseName(Minify(t).value) == Ok(r.value, Skip(Minify(r.rest).value))
  {
    hide Minify, WholeLiterals, ParseString, Skip;
    var s := Skip(t);
    var rest := ParseString(s).rest;
    var u := Skip(rest);
    SkipWhole(t);
    NameQuote(s);
    MinifiedString(s);
    MarkAhead(rest, ':');
    SkipWhole(u[1..]);
    if Minify(Skip(u[1..])).Some? {
      SkipMinified(u[1..]);
      SkipMinified(t);
      SkipStays(Minify(s).value);
      assert ([':'] + Minify(u[1..]).value)[1..] == Minify(u[1..]).value;
    }
  }

  lemma NameQuote(t: string)
    ensures ParseString(t).Ok? ==> At(t, '"')
  {
  }

  lemma {:induction false} MinifiedMembers(t: string)
    requires WholeLiterals(t) && ParseMembers(t).Ok?
    ensures var r := ParseMembers(t); WholeLiterals(r.rest) && MembersKept(t, r.value, r.rest)
    decreases |t|, 3
  {
    hide Minify, WholeLiterals, ParseValue, ParseName, Skip;
    MinifiedName(t);
    var text := ParseName(t).rest;
    var rest := ParseValue(text).rest;
    var u := Skip(rest);
    MinifiedValue(text);
    MarkAhead(rest, u[0]);
    if At(u, ',') {
      MinifiedMembers(u[1..]);
    }
    if Minify(ParseMembers(t).rest).Some? {
      ValueStart(Minify(text).value);
      assert ([u[0]] + Minify(u[1..]).value)[1..] == Minify(u[1..]).value;
    }
  }

  lemma {:induction false} MinifiedObject(t: string)
    requires WholeLiterals(t) && At(t, '{') && ParseObject(t).Ok?
    ensures var r := ParseObject(t); WholeLiterals(r.rest) && ValueKept(t, r.value, r.rest)
    decreases |t|, 1
  {
    hide Minify, WholeLiterals, ParseMembers, Skip, ParseValue;
    var u := Skip(t[1..]);
    MarkKept(t);
    SkipWhole(t[1..]);
    if At(u, '}') {
      MarkKept(u);
    } else {
      MinifiedMembers(u);
    }
    if Minify(ParseObject(t).rest).Some? {
      SkipMinified(t[1..]);
      ArrayValue(Minify(t).value);
      if !At(u, '}') {
        MembersBegin(Minify(u).value);
      }
    }
  }

  /**
   Every text that cJSON accepts up to its end, and whose literals are whole, is minified to a text
   that cJSON accepts as the same tree.
   */
  lemma {:induction false} MinifiedIsAccepted(t: string)
    requires WholeLiterals(t) && ParseWithOpts(t, true).Ok?
    ensures Minify(t).Some? && ParseWithOpts(Minify(t).value, true) == ParseWithOpts(t, true)
  {
    hide Minify, WholeLiterals, ParseValue, Skip;
    var s := Skip(t);
    var rest := ParseValue(s).rest;
    SkipWhole(t);
    MinifiedValue(s);
    NothingMinified();
    SkipMinified(rest);
    SkipMinified(t);
    ValueStart(Minify(s).value);
  }

  lemma NothingMinified()
    ensures Minify("") == Some("") && Skip("") == ""
  {
  }

  /** A literal that is not closed is accepted as the string up to the end, and the minifier reads past the end. */
  lemma {:induction false} OpenLiteralIsNotMinified(s: string)
    requires forall i | 0 <= i < |s| :: s[i] != '"' && s[i] != '\\'
    ensures ParseWithOpts(['"'] + s, true) == Ok(String(s), "") && Minify(['"'] + s) == None
  {
    var t := ['"'] + s;
    assert t[1..] == s;
    OpenLiteral(s);
    hide Unescape, Measure, CopyLiteral;
    StringValue(t);
    SkipStays(t);
    assert !StartsWith(t, "//") && !StartsWith(t, "/*");
  }

  lemma {:induction false} OpenLiteral(s: string)
    requires forall i | 0 <= i < |s| :: s[i] != '"' && s[i] != '\\'
    ensures Measure(s).Ok? && Unescape(s) == Ok(s, "") && CopyLiteral(s) == None
  {
    if s != [] {
      OpenLiteral(s[1..]);
      PlainTurn(s, s[1..]);
      hide TurnAt;
      assert s == [s[0]] + s[1..];
    }
  }

  /** A literal whose \u swallows a quote: accepted as the empty string, and read past by the minifier. */
  lemma SwallowedQuoteIsNotMinified()
    ensures ParseWithOpts("\"\\u12\"3\"", true) == Ok(String(""), "") && Minify("\"\\u12\"3\"") == None
  {
    var t: string := "\"\\u12\"3\"";
    hide ParseWithOpts, Minify, CopyLiteral;
    SwallowedText();
    SwallowedParse(t);
    SwallowedCopy();
    QuoteAtEnd();
    LiteralMinified(t, "\\u12\"", "3\"");
  }

  lemma SwallowedText()
    ensures var t: string := "\"\\u12\"3\""; t[0] == '"' && t[1..] == "\\u12\"3\""
  {
  }

  lemma SwallowedParse(t: string)
    requires At(t, '"') && t[1..] == "\\u12\"3\""
    ensures ParseWithOpts(t, true) == Ok(String(""), "")
  {
    hide Unescape, Measure;
    SwallowedString();
    hide ParseValue;
    StringValue(t);
    SkipStays(t);
    NothingSkipped();
  }

  lemma NothingSkipped()
    ensures Skip("") == ""
  {
  }

  lemma LiteralMinified(t: string, copied: string, rest: string)
    requires At(t, '"') && CopyLiteral(t[1..]) == Some((copied, rest))
    ensures Minify(t) == Prefixed(t[..1] + copied, Minify(rest))
  {
    hide CopyLiteral;
    assert !StartsWith(t, "//") && !StartsWith(t, "/*");
  }

  lemma QuoteAtEnd()
    ensures Minify("3\"") == None
  {
    var t: string := "\"";
    assert !StartsWith(t, "//") && !StartsWith(t, "/*") && t[1..] == "";
    assert Minify(t) == None;
    assert "3\""[1..] == t;
    hide Minify;
    OneKept("3\"");
  }

  lemma SwallowedString()
    ensures Measure("\\u12\"3\"").Ok? && Unescape("\\u12\"3\"") == Ok("", "")
  {
    SwallowedCount();
    SwallowedEscape();
    QuoteIsEnd();
    hide TurnAt, Measure, Unescape;
    UnescapeTurn("\\u12\"3\"", "", "\"");
    assert "" + "" == "";
  }

  lemma QuoteIsEnd()
    ensures Unescape("\"") == Ok("", "")
  {
    assert "\""[1..] == "";
  }

  lemma SwallowedCount()
    ensures Measure("\\u12\"3\"").Ok?
  {
    var u: string := "\\u12\"3\"";
    MeasurePlain("12", "\"3\"");
    assert "12" + "\"3\"" == u[2..];
  }

  lemma SwallowedEscape()
    ensures var u := "\\u12\"3\""; u[0] != '"' && TurnAt(u) == Write("", "\"")
  {
    var u: string := "\\u12\"3\"";
    var h: string := "12\"3";
    assert !FourHex(h);
    SingleEscape(h, "\"");
    assert u[1..] == "u" + h + "\"";
    UnicodeTurn(u);
  }

  lemma SwallowedCopy()
    ensures CopyLiteral("\\u12\"3\"") == Some(("\\u12\"", "3\""))
  {
    hide CopyLiteral;
    SwallowedDigits();
    CopyUnit("\\u", "12\"3\"", "12\"", "3\"");
    assert "\\u" + "12\"3\"" == "\\u12\"3\"" && "\\u" + "12\"" == "\\u12\"";
  }

  lemma SwallowedDigits()
    ensures CopyLiteral("12\"3\"") == Some(("12\"", "3\""))
  {
    hide CopyLiteral;
    CopyQuoteFirst("3\"");
    assert ['"'] + "3\"" == "\"3\"";
    CopyPlain("12", "\"3\"", "\"", "3\"");
    assert "12" + "\"3\"" == "12\"3\"" && "12" + "\"" == "12\"";
  }

  lemma CopyQuoteFirst(rest: string)
    ensures CopyLiteral(['"'] + rest) == Some(("\"", rest))
  {
    var t := ['"'] + rest;
    assert t[1..] == rest && t[..1] == "\"";
  }

  // ----- in place -----

  /** A buffer that holds a text cJSON accepts ends up holding a text that it accepts as the same tree. */
  method MinifyAcceptedInPlace(json: array<char>, ghost t: string) returns (ghost m: string)
    requires Unread(json, t, 0) && WholeLiterals(t) && ParseWithOpts(t, true).Ok?
    modifies json
    ensures |m| < json.Length && json[..|m|] == m && json[|m|] == '\0'
    ensures |m| <= |t| && ParseWithOpts(m, true) == ParseWithOpts(t, true)
  {
    hide Minify, Unread, WholeLiterals, ParseWithOpts;
    MinifiedIsAccepted(t);
    m := Minify(t).value;
    MinifyInPlace(json, t);
  }

  lemma {:induction false} MinifyNoNul(t: string)
    requires NoNul(t) && Minify(t).Some?
    ensures NoNul(Minify(t).value)
    decreases |t|
  {
    hide CopyLiteral, AfterBlock, AfterLine;
    if t == [] {
    } else if IsBlank(t[0]) {
      MinifyNoNul(t[1..]);
    } else if StartsWith(t, "//") {
      MinifyNoNul(AfterLine(t[1..]));
    } else if StartsWith(t, "/*") {
      MinifyNoNul(AfterBlock(t).value);
    } else if t[0] == '"' {
      var lit := CopyLiteral(t[1..]).value;
      NoNulConcat(lit.0, lit.1);
      MinifyNoNul(lit.1);
      NoNulConcat(t[..1] + lit.0, Minify(lit.1).value);
      NoNulConcat(t[..1], lit.0);
    } else {
      MinifyNoNul(t[1..]);
      NoNulConcat(t[..1], Minify(t[1..]).value);
    }
  }
}
