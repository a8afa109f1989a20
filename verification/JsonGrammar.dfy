/**
 JSON texts as people write them (sections 2 to 7 of RFC 8259), with blanks of their own between the tokens:
 cJSON reads every one of them as the tree that it denotes (soaagent/cJSON.c).
 */
module JsonGrammar {
  import opened CString
  import opened JsonString
  import opened Json
  import opened Decimal
  import opened MinifyTexts

  // ----- numerals -----

  datatype Sign = Unsigned | Plus | Minus

  datatype Power = NoPower | Power(mark: char, sign: Sign, digits: string)

  /** A numeral: "-"? whole ("." fraction)? (("e" | "E") ("+" | "-")? digits)? */
  datatype Numeral = Numeral(minus: bool, whole: string, fraction: string, power: Power)

  predicate AllDigits(s: string)
  {
    forall i | 0 <= i < |s| :: '0' <= s[i] <= '9'
  }

  predicate GoodNumeral(n: Numeral)
  {
    && AllDigits(n.whole) && n.whole != [] && (|n.whole| > 1 ==> n.whole[0] != '0')
    && AllDigits(n.fraction)
    && (n.power.Power? ==> n.power.mark in {'e', 'E'} && n.power.digits != [] && AllDigits(n.power.digits))
  }

  function SignText(s: Sign): string
  {
    match s
    case Unsigned => ""
    case Plus => "+"
    case Minus => "-"
  }

  function PowerText(p: Power): string
  {
    if p.NoPower? then "" else [p.mark] + (SignText(p.sign) + p.digits)
  }

  function FractionText(f: string): string
  {
    if f == [] then "" else "." + f
  }

  function NumeralText(n: Numeral): string
  {
    (if n.minus then "-" else "") + (n.whole + (FractionText(n.fraction) + PowerText(n.power)))
  }

  function Ten(k: nat): (r: nat)
    ensures r > 0
  {
    if k == 0 then 1 else 10 * Ten(k - 1)
  }

  /** The number that digits stand for, by their places. */
  function Natural(s: string): nat
    requires AllDigits(s)
  {
    if s == [] then 0 else (s[0] as int - '0' as int) * Ten(|s| - 1) + Natural(s[1..])
  }

  /** The digits behind a point. */
  function Behind(s: string): real
    requires AllDigits(s)
  {
    if s == [] then 0.0 else ((s[0] as int - '0' as int) as real + Behind(s[1..])) / 10.0
  }

  /** x times ten to the e. */
  function Shifted(x: real, e: int): real
    decreases if e < 0 then -e else e
  {
    if e == 0 then x else if e > 0 then 10.0 * Shifted(x, e - 1) else Shifted(x, e + 1) / 10.0
  }

  function PowerOf(p: Power): int
    requires p.Power? ==> AllDigits(p.digits)
  {
    if p.NoPower? then 0
    else
      var n: int := Natural(p.digits);
      if p.sign.Minus? then -n else n
  }

  /** What a numeral denotes. */
  function Denoted(n: Numeral): real
    requires GoodNumeral(n)
  {
    var x := Shifted(Natural(n.whole) as real + Behind(n.fraction), PowerOf(n.power));
    if n.minus then -x else x
  }

  // ----- reading numerals -----

  lemma DigitsApart(c: char)
    ensures IsDigit(c) <==> '0' <= c <= '9'
  {
  }

  lemma {:induction false} DigitsAreTaken(s: string, acc: nat, rest: string)
    requires AllDigits(s) && NoDigitFirst(rest)
    ensures TakeDigits(s + rest, acc) == (acc * Ten(|s|) + Natural(s), rest)
    decreases |s|
  {
    if s == [] {
      assert s + rest == rest;
    } else {
      assert (s + rest)[1..] == s[1..] + rest;
      var d := s[0] as int - '0' as int;
      DigitsAreTaken(s[1..], 10 * acc + d, rest);
      TenTimes(acc, d, |s|);
    }
  }

  lemma TenTimes(acc: nat, d: nat, n: nat)
    requires n > 0
    ensures (10 * acc + d) * Ten(n - 1) == acc * Ten(n) + d * Ten(n - 1)
  {
    var t := Ten(n - 1);
    assert (10 * acc + d) * t == 10 * acc * t + d * t;
    assert acc * (10 * t) == 10 * acc * t;
  }

  lemma {:induction false} WholeIsRead(w: string, rest: string)
    requires AllDigits(w) && w != [] && (|w| > 1 ==> w[0] != '0') && NoDigitFirst(rest)
    ensures Whole(w + rest) == (Natural(w), rest)
  {
    var t := w + rest;
    if w[0] == '0' {
      assert t[1..] == rest && w[1..] == [];
    } else {
      DigitsAreTaken(w, 0, rest);
    }
  }

  lemma FractionIsRead(f: string, n: nat, rest: string)
    requires AllDigits(f) && NoDigitFirst(rest) && !At(rest, '.')
    ensures Fraction(FractionText(f) + rest, n) == (n * Ten(|f|) + Natural(f), |f|, rest)
  {
    hide TakeDigits, Ten, Natural, FractionText, AllDigits, Fraction;
    NoFraction(n);
    NoFractionText();
    var t := FractionText(f) + rest;
    if f == [] {
      assert t == rest;
      FractionTurn(t, n);
    } else {
      PointText(f, rest);
      DigitsAreTaken(f, n, rest);
      FractionTurn(t, n);
    }
  }

  lemma FractionTurn(t: string, n: nat)
    ensures Fraction(t, n) == if |t| >= 2 && t[0] == '.' && IsDigit(t[1])
                              then var d := TakeDigits(t[1..], n); (d.0, |t| - 1 - |d.1|, d.1)
                              else (n, 0, t)
  {
    hide TakeDigits;
  }

  lemma NoFraction(n: nat)
    ensures n * Ten(0) + Natural([]) == n
  {
  }

  lemma NoFractionText()
    ensures FractionText([]) == []
  {
  }

  lemma PointText(f: string, rest: string)
    requires AllDigits(f) && f != []
    ensures var t := FractionText(f) + rest;
            |t| == 1 + |f| + |rest| && t[0] == '.' && IsDigit(t[1]) && t[1..] == f + rest
  {
  }

  lemma PowerStart(p: Power, rest: string)
    requires p.Power?
    ensures var t := PowerText(p) + rest; t[0] == p.mark && t[1..] == SignText(p.sign) + (p.digits + rest)
  {
  }

  lemma SignStart(s: Sign, u: string)
    ensures s.Unsigned? ==> SignText(s) + u == u
    ensures s.Plus? ==> At(SignText(s) + u, '+') && (SignText(s) + u)[1..] == u
    ensures s.Minus? ==> At(SignText(s) + u, '-') && (SignText(s) + u)[1..] == u
  {
  }

  lemma ExponentIsRead(p: Power, rest: string)
    requires p.Power? ==> p.mark in {'e', 'E'} && p.digits != [] && AllDigits(p.digits)
    requires NoDigitFirst(rest) && !At(rest, 'e') && !At(rest, 'E')
    ensures Exponent(PowerText(p) + rest) == (PowerOf(p), rest)
  {
    if p.NoPower? {
      assert PowerText(p) + rest == rest;
    } else {
      var u := p.digits + rest;
      assert u[0] == p.digits[0];
      PowerStart(p, rest);
      SignStart(p.sign, u);
      DigitsAreTaken(p.digits, 0, rest);
      NoughtTimes(Ten(|p.digits|));
      hide TakeDigits, Natural, Ten, SignText, PowerText;
    }
  }

  lemma NoughtTimes(t: nat)
    ensures 0 * t == 0
  {
  }

  lemma {:induction false} Pow10Step(e: int)
    ensures Pow10(e) == 10.0 * Pow10(e - 1)
  {
  }

  lemma {:induction false} ShiftIsPower(x: real, e: int)
    ensures Shifted(x, e) == x * Pow10(e)
    decreases if e < 0 then -e else e
  {
    if e > 0 {
      ShiftIsPower(x, e - 1);
      assert 10.0 * (x * Pow10(e - 1)) == x * (10.0 * Pow10(e - 1));
    } else if e < 0 {
      ShiftIsPower(x, e + 1);
      assert (x * Pow10(e + 1)) / 10.0 == x * (Pow10(e + 1) / 10.0);
    }
  }

  /** Taking k places behind the point and lowering the exponent by k comes to the same. */
  lemma {:induction false} PlacesAndPower(k: nat, e: int)
    ensures Ten(k) as real * Pow10(e - k) == Pow10(e)
  {
    if k > 0 {
      PlacesAndPower(k - 1, e);
      Pow10Step(e - (k - 1));
      var a, b := Ten(k - 1) as real, Pow10(e - k);
      assert 10.0 * a * b == a * (10.0 * b);
    }
  }

  lemma {:induction false} BehindIsNatural(f: string)
    requires AllDigits(f)
    ensures Natural(f) as real == Behind(f) * Ten(|f|) as real
  {
    hide Natural, Behind, Ten;
    if f == [] {
      NoPlaces();
    } else {
      BehindIsNatural(f[1..]);
      FirstPlace(f);
      BehindStep(f[0] as int - '0' as int, Natural(f[1..]), Behind(f[1..]), Ten(|f| - 1));
    }
  }

  lemma NoPlaces()
    ensures Natural([]) == 0 && Behind([]) == 0.0 && Ten(0) == 1
  {
  }

  lemma FirstPlace(f: string)
    requires AllDigits(f) && f != []
    ensures var d := f[0] as int - '0' as int;
            && Natural(f) == d * Ten(|f| - 1) + Natural(f[1..]) && Ten(|f|) == 10 * Ten(|f| - 1)
            && Behind(f) == (d as real + Behind(f[1..])) / 10.0
  {
  }

  lemma BehindStep(d: nat, n: nat, b: real, t: nat)
    requires n as real == b * t as real
    ensures (d * t + n) as real == (d as real + b) / 10.0 * (10 * t) as real
  {
    var x, y := d as real + b, t as real;
    assert (d * t) as real == d as real * y;
    assert x / 10.0 * (10.0 * y) == x * y;
    assert x * y == d as real * y + b * y;
  }

  lemma ScaledIsShifted(w: nat, f: string, e: int)
    requires AllDigits(f)
    ensures Scaled(w * Ten(|f|) + Natural(f), e - |f|) == Shifted(w as real + Behind(f), e)
  {
    hide Natural, Behind, Ten, Pow10, Shifted;
    var k := |f|;
    BehindIsNatural(f);
    PlacesAndPower(k, e);
    ShiftIsPower(w as real + Behind(f), e);
    ScaleStep(w, Natural(f), Behind(f), Ten(k), Pow10(e - k), Pow10(e));
  }

  lemma ScaleStep(w: nat, n: nat, b: real, t: nat, p: real, q: real)
    requires n as real == b * t as real && t as real * p == q
    ensures (w * t + n) as real * p == (w as real + b) * q
  {
    var x, y := w as real + b, t as real;
    assert (w * t) as real == w as real * y;
    assert w as real * y + b * y == x * y;
    assert x * y * p == x * (y * p);
  }

  /** What follows a numeral and does not go on with it. */
  lemma AfterNumeral(rest: string)
    requires Stops(rest)
    ensures NoDigitFirst(rest) && !At(rest, '.') && !At(rest, 'e') && !At(rest, 'E')
  {
  }

  lemma PowerFirst(p: Power, rest: string)
    requires (p.Power? ==> p.mark in {'e', 'E'}) && Stops(rest)
    ensures NoDigitFirst(PowerText(p) + rest) && !At(PowerText(p) + rest, '.')
  {
  }

  lemma FractionFirst(f: string, more: string)
    requires NoDigitFirst(more)
    ensures NoDigitFirst(FractionText(f) + more)
  {
    if f == [] {
      assert FractionText(f) + more == more;
    }
  }

  /** The text of a numeral after its sign. */
  function Unsigned(n: Numeral): string
  {
    n.whole + (FractionText(n.fraction) + PowerText(n.power))
  }

  lemma MagnitudeIsRead(n: Numeral, rest: string)
    requires GoodNumeral(n) && Stops(rest)
    ensures ParseMagnitude(Unsigned(n) + rest)
         == (Shifted(Natural(n.whole) as real + Behind(n.fraction), PowerOf(n.power)), rest)
  {
    hide Whole, Fraction, Exponent, Scaled, Shifted, Natural, Behind, Ten, PowerText, FractionText;
    var power := PowerText(n.power) + rest;
    var fraction := FractionText(n.fraction) + power;
    AfterNumeral(rest);
    PowerFirst(n.power, rest);
    FractionFirst(n.fraction, power);
    WholeIsRead(n.whole, fraction);
    FractionIsRead(n.fraction, Natural(n.whole), power);
    ExponentIsRead(n.power, rest);
    ScaledIsShifted(Natural(n.whole), n.fraction, PowerOf(n.power));
    Regrouped(n.whole, FractionText(n.fraction), PowerText(n.power), rest);
  }

  lemma Regrouped(a: string, b: string, c: string, d: string)
    ensures a + (b + c) + d == a + (b + (c + d))
  {
  }

  lemma NumeralFirst(n: Numeral, rest: string)
    requires GoodNumeral(n)
    ensures var t := NumeralText(n) + rest;
            && t != [] && (if n.minus then t[0] == '-' && t[1..] == Unsigned(n) + rest
                           else IsDigit(t[0]) && t[0] != '-' && t == Unsigned(n) + rest)
  {
    hide FractionText, PowerText, AllDigits;
    assert "" + Unsigned(n) == Unsigned(n);
    DigitFirst(n.whole);
  }

  lemma DigitFirst(s: string)
    requires AllDigits(s) && s != []
    ensures IsDigit(s[0])
  {
  }

  /** Every numeral is read as the number it denotes. */
  lemma {:induction false} NumeralIsRead(n: Numeral, rest: string)
    requires GoodNumeral(n) && Stops(rest)
    ensures ParseValue(NumeralText(n) + rest) == Ok(Number(Denoted(n)), rest)
  {
    hide ParseMagnitude, ParseValue, Shifted, Natural, Behind, NumeralText, Unsigned;
    var t := NumeralText(n) + rest;
    NumeralFirst(n, rest);
    MagnitudeIsRead(n, rest);
    FirstCharacter(t);
  }

  // ----- strings -----

  predicate AllWellFormed(ps: seq<Piece>)
  {
    forall i | 0 <= i < |ps| :: WellFormed(ps[i])
  }

  function Quoted(ps: seq<Piece>): string
  {
    "\"" + (Sources(ps) + "\"")
  }

  lemma {:induction false} QuotedIsRead(ps: seq<Piece>, rest: string)
    requires AllWellFormed(ps)
    ensures At(Quoted(ps) + rest, '"') && ParseString(Quoted(ps) + rest) == Ok(Meanings(ps), rest)
  {
    hide ParseString, Sources, Meanings;
    LiteralDecodes(ps, rest);
    assert "\"" + (Sources(ps) + "\"" + rest) == Quoted(ps) + rest;
  }

  // ----- documents -----

  /** A text and what it denotes: a token, or an array or object with the blanks inside it. */
  datatype Doc =
    | Token(text: string, value: Json)
    | Arr(inner: string, entries: Docs)
    | Obj(inner: string, fields: Fields)

  /** The entries of an array, each with the blanks before and after it. */
  datatype Docs = NoDoc | OneDoc(before: string, head: Doc, after: string, next: Docs)

  /** The members of an object, with the blanks around the name and around the value. */
  datatype Fields =
    | NoField
    | Field(before: string, quoted: string, name: string, after: string, gap: string, child: Doc, end: string,
            following: Fields)

  function Text(d: Doc): string
  {
    match d
    case Token(text, _) => text
    case Arr(inner, entries) => "[" + ((if entries.NoDoc? then inner else DocsText(entries)) + "]")
    case Obj(inner, fields) => "{" + ((if fields.NoField? then inner else FieldsText(fields)) + "}")
  }

  function DocsText(ds: Docs): string
  {
    if ds.NoDoc? then ""
    else ds.before + (Text(ds.head) + (ds.after + if ds.next.NoDoc? then "" else "," + DocsText(ds.next)))
  }

  function FieldsText(fs: Fields): string
  {
    if fs.NoField? then ""
    else
      fs.before + (fs.quoted + (fs.after + (":" + (fs.gap + (Text(fs.child)
      + (fs.end + if fs.following.NoField? then "" else "," + FieldsText(fs.following)))))))
  }

  function Tree(d: Doc): Json
  {
    match d
    case Token(_, v) => v
    case Arr(_, entries) => Array(Trees(entries))
    case Obj(_, fields) => Object(Named(fields))
  }

  function Trees(ds: Docs): Items
  {
    if ds.NoDoc? then NoItem else Item(Tree(ds.head), Trees(ds.next))
  }

  function Named(fs: Fields): Members
  {
    if fs.NoField? then NoMember else Member(fs.name, Tree(fs.child), Named(fs.following))
  }

  /** A token of the grammar and its value. */
  ghost predicate GoodToken(text: string, v: Json)
  {
    || (text == "null" && v == Null) || (text == "false" && v == False) || (text == "true" && v == True)
    || (exists n :: GoodNumeral(n) && text == NumeralText(n) && v == Number(Denoted(n)))
    || (exists ps :: AllWellFormed(ps) && text == Quoted(ps) && v == String(Meanings(ps)))
  }

  ghost predicate GoodName(text: string, name: string)
  {
    exists ps :: AllWellFormed(ps) && text == Quoted(ps) && name == Meanings(ps)
  }

  /** Any characters up to the space. */
  predicate Blanks(g: string)
  {
    forall i | 0 <= i < |g| :: g[i] as int <= 32
  }

  /**
   How a document is written: with the grammar's tokens and blanks between them; with comments too; or with
   blanks and whatever the parser takes for a token.
   */
  datatype Style = Strict | Commented | Loose

  ghost predicate TokenOk(style: Style, text: string, v: Json)
  {
    if style.Loose? then text != [] && !v.Array? && !v.Object? && exists rest :: ParseValue(text + rest) == Ok(v, rest)
    else GoodToken(text, v)
  }

  ghost predicate NameOk(style: Style, text: string, name: string)
  {
    if style.Loose? then exists rest :: ParseString(text + rest) == Ok(name, rest) else GoodName(text, name)
  }

  ghost predicate GapOk(style: Style, g: string)
  {
    if style.Commented? then Comments(g) else Blanks(g)
  }

  /** A comment to the end of its line. */
  predicate LineComment(c: string)
  {
    |c| >= 3 && c[0] == c[1] == '/' && c[|c| - 1] == '\n' && forall i | 0 <= i < |c| - 1 :: c[i] != '\n'
  }

  predicate BlockComment(c: string)
  {
    && |c| >= 4 && c[0] == '/' && c[1] == '*' && c[|c| - 2] == '*' && c[|c| - 1] == '/'
    && forall i | 1 <= i < |c| - 2 :: !(c[i] == '*' && c[i + 1] == '/')
  }

  /** White space of the grammar and comments, in any order. */
  ghost predicate Comments(g: string)
    decreases |g|
  {
    || g == []
    || (g[0] in {' ', '\t', '\r', '\n'} && Comments(g[1..]))
    || (exists n | 0 < n <= |g| :: (LineComment(g[..n]) || BlockComment(g[..n])) && Comments(g[n..]))
  }

  /** A document whose gaps and tokens are of the style. */
  ghost predicate Formed(d: Doc, style: Style)
  {
    match d
    case Token(text, v) => TokenOk(style, text, v)
    case Arr(inner, entries) => GapOk(style, inner) && FormedDocs(entries, style)
    case Obj(inner, fields) => GapOk(style, inner) && FormedFields(fields, style)
  }

  ghost predicate FormedDocs(ds: Docs, style: Style)
  {
    ds.OneDoc? ==>
      GapOk(style, ds.before) && Formed(ds.head, style) && GapOk(style, ds.after) && FormedDocs(ds.next, style)
  }

  ghost predicate FormedFields(fs: Fields, style: Style)
  {
    fs.Field? ==>
      && GapOk(style, fs.before) && NameOk(style, fs.quoted, fs.name) && GapOk(style, fs.after) && GapOk(style, fs.gap)
      && Formed(fs.child, style) && GapOk(style, fs.end) && FormedFields(fs.following, style)
  }

  // ----- reading documents -----

  lemma {:induction false} BlanksSkipped(g: string, t: string)
    requires Blanks(g)
    ensures Skip(g + t) == Skip(t)
  {
    if g == [] {
      assert g + t == t;
    } else {
      assert (g + t)[1..] == g[1..] + t;
      BlanksSkipped(g[1..], t);
    }
  }

  lemma BlanksStop(g: string, t: string)
    requires Blanks(g) && Stops(t)
    ensures Stops(g + t)
  {
    if g == [] {
      assert g + t == t;
    }
  }

  lemma {:induction false} TokenIsRead(text: string, v: Json, rest: string)
    requires GoodToken(text, v) && Stops(rest)
    ensures ParseValue(text + rest) == Ok(v, rest)
  {
    hide ParseValue, ParseString, GoodNumeral, Quoted, Meanings, NumeralText, Denoted;
    if (text == "null" && v == Null) || (text == "false" && v == False) || (text == "true" && v == True) {
      ParsePrintWord(v, rest);
    } else if n :| GoodNumeral(n) && text == NumeralText(n) && v == Number(Denoted(n)) {
      NumeralIsRead(n, rest);
    } else {
      var ps :| AllWellFormed(ps) && text == Quoted(ps) && v == String(Meanings(ps));
      QuotedIsRead(ps, rest);
      StringValue(text + rest);
    }
  }

  lemma MarkStays(c: char, t: string)
    requires c as int > 32
    ensures Skip([c] + t) == [c] + t && ([c] + t)[1..] == t && At([c] + t, c)
  {
    SkipOne(c, t);
  }

  /** A document is read as the tree it denotes, up to its end. */
  lemma {:induction false} DocIsRead(d: Doc, rest: string)
    requires Formed(d, Strict) && Stops(rest)
    ensures ParseValue(Text(d) + rest) == Ok(Tree(d), rest)
    decreases d
  {
    match d {
      case Token(text, v) =>
        TokenIsRead(text, v, rest);
      case Arr(inner, entries) =>
        ArrayIsRead(inner, entries, rest);
      case Obj(inner, fields) =>
        ObjectIsRead(inner, fields, rest);
    }
  }

  lemma EnclosedText(open: char, body: string, close: char, rest: string)
    ensures ([open] + (body + [close])) + rest == [open] + (body + ([close] + rest))
  {
    Associate([open], body + [close], rest);
    Associate(body, [close], rest);
  }

  lemma {:induction false} ArrayIsRead(inner: string, entries: Docs, rest: string)
    requires Blanks(inner) && FormedDocs(entries, Strict)
    ensures ParseValue(Text(Arr(inner, entries)) + rest) == Ok(Array(Trees(entries)), rest)
    decreases entries, 1
  {
    hide ParseValue, ParseItems, DocsText, Skip, Blanks;
    var t := Text(Arr(inner, entries)) + rest;
    var body := if entries.NoDoc? then inner else DocsText(entries);
    EnclosedText('[', body, ']', rest);
    MarkStays('[', body + ("]" + rest));
    MarkStays(']', rest);
    ArrayValue(t);
    if entries.NoDoc? {
      BlanksSkipped(inner, "]" + rest);
    } else {
      DocsAreRead(entries, rest);
      ItemsBegin(DocsText(entries) + ("]" + rest));
    }
  }

  lemma {:induction false} DocsAreRead(ds: Docs, rest: string)
    requires ds.OneDoc? && FormedDocs(ds, Strict)
    ensures ParseItems(DocsText(ds) + ("]" + rest)) == Ok(Trees(ds), rest)
    decreases ds, 0
  {
    hide ParseValue, Text, Skip, Blanks, Stops;
    var end := "]" + rest;
    var tail := if ds.next.NoDoc? then end else "," + (DocsText(ds.next) + end);
    DocsTail(ds, end);
    MarkStays(']', rest);
    MarkStays(',', DocsText(ds.next) + end);
    MarkStops(tail);
    BlanksStop(ds.after, tail);
    BlanksSkipped(ds.after, tail);
    DocIsRead(ds.head, ds.after + tail);
    BlanksSkipped(ds.before, Text(ds.head) + (ds.after + tail));
    ValueStart(Text(ds.head) + (ds.after + tail));
    if ds.next.OneDoc? {
      DocsAreRead(ds.next, rest);
    }
  }

  lemma DocsTail(ds: Docs, end: string)
    requires ds.OneDoc?
    ensures DocsText(ds) + end
         == ds.before + (Text(ds.head) + (ds.after + if ds.next.NoDoc? then end else "," + (DocsText(ds.next) + end)))
  {
    hide Text;
  }

  lemma MarkStops(t: string)
    ensures At(t, ',') || At(t, ']') || At(t, '}') ==> Stops(t)
  {
  }

  lemma {:induction false} ObjectIsRead(inner: string, fields: Fields, rest: string)
    requires Blanks(inner) && FormedFields(fields, Strict)
    ensures ParseValue(Text(Obj(inner, fields)) + rest) == Ok(Object(Named(fields)), rest)
    decreases fields, 1
  {
    hide ParseValue, ParseMembers, FieldsText, Skip, Blanks;
    var t := Text(Obj(inner, fields)) + rest;
    var body := if fields.NoField? then inner else FieldsText(fields);
    EnclosedText('{', body, '}', rest);
    MarkStays('{', body + ("}" + rest));
    MarkStays('}', rest);
    ArrayValue(t);
    if fields.NoField? {
      BlanksSkipped(inner, "}" + rest);
    } else {
      FieldsAreRead(fields, rest);
      MembersBegin(FieldsText(fields) + ("}" + rest));
    }
  }

  /** A member's name and colon are read, up to its value. */
  lemma {:induction false} NameIsRead(before: string, quoted: string, name: string, after: string, gap: string,
                                      value: string)
    requires Blanks(before) && GoodName(quoted, name) && Blanks(after) && Blanks(gap) && Skip(value) == value
    ensures ParseName(before + (quoted + (after + (":" + (gap + value))))) == Ok(name, value)
  {
    hide ParseString, Skip, Blanks, Quoted, Meanings;
    var ps :| AllWellFormed(ps) && quoted == Quoted(ps) && name == Meanings(ps);
    var u := ":" + (gap + value);
    var q := quoted + (after + u);
    BlanksSkipped(before, q);
    QuotedIsRead(ps, after + u);
    SkipStays(q);
    BlanksSkipped(after, u);
    MarkStays(':', gap + value);
    BlanksSkipped(gap, value);
  }

  lemma {:induction false} FieldsAreRead(fs: Fields, rest: string)
    requires fs.Field? && FormedFields(fs, Strict)
    ensures ParseMembers(FieldsText(fs) + ("}" + rest)) == Ok(Named(fs), rest)
    decreases fs, 0
  {
    hide ParseValue, ParseName, Text, Skip, Blanks, Stops, GoodName;
    var end := "}" + rest;
    var tail := After(fs, end);
    var value := Text(fs.child) + (fs.end + tail);
    FieldsTail(fs, end);
    MarkStays('}', rest);
    MarkStays(',', FieldsText(fs.following) + end);
    MarkStops(tail);
    BlanksStop(fs.end, tail);
    BlanksSkipped(fs.end, tail);
    DocIsRead(fs.child, fs.end + tail);
    ValueStart(value);
    NameIsRead(fs.before, fs.quoted, fs.name, fs.after, fs.gap, value);
    if fs.following.Field? {
      FieldsAreRead(fs.following, rest);
    }
  }

  /** The text behind a member's value: the end of its object, or a comma and the next members. */
  function After(fs: Fields, end: string): string
    requires fs.Field?
  {
    if fs.following.NoField? then end else "," + (FieldsText(fs.following) + end)
  }

  lemma FieldsTail(fs: Fields, end: string)
    requires fs.Field?
    ensures FieldsText(fs) + end
         == fs.before + (fs.quoted + (fs.after + (":" + (fs.gap + (Text(fs.child) + (fs.end + After(fs, end)))))))
  {
    hide Text;
    var more := if fs.following.NoField? then "" else "," + FieldsText(fs.following);
    assert more + end == After(fs, end);
    var value := Text(fs.child) + (fs.end + more);
    assert value + end == Text(fs.child) + (fs.end + After(fs, end));
    Nested(fs.before, fs.quoted, fs.after, fs.gap, value, end);
  }

  lemma Nested(a: string, b: string, c: string, d: string, e: string, f: string)
    ensures a + (b + (c + (":" + (d + e)))) + f == a + (b + (c + (":" + (d + (e + f)))))
  {
    assert (d + e) + f == d + (e + f);
    assert (":" + (d + e)) + f == ":" + ((d + e) + f);
    assert (c + (":" + (d + e))) + f == c + ((":" + (d + e)) + f);
    assert (b + (c + (":" + (d + e)))) + f == b + ((c + (":" + (d + e))) + f);
  }

  /**
   Every JSON text, whatever characters up to the space stand around its tokens, is accepted as the tree
   it denotes.  If the text must end there, nothing but such characters may follow; if not, anything may that
   does not go on with a number.
   */
  lemma {:induction false} JsonTextIsRead(before: string, d: Doc, after: string)
    requires Blanks(before) && Formed(d, Strict) && Stops(after)
    ensures ParseWithOpts(before + Text(d) + after, true) == if Skip(after) == [] then Ok(Tree(d), []) else Fail
    ensures ParseWithOpts(before + Text(d) + after, false) == Ok(Tree(d), after)
    ensures Blanks(after) ==> Skip(after) == []
  {
    hide ParseValue, Text, Skip, Formed, Blanks, Stops;
    var t := Text(d) + after;
    assert before + Text(d) + after == before + t;
    BlanksSkipped(before, t);
    AtEnd();
    assert after + "" == after;
    DocIsRead(d, after);
    ValueStart(t);
    if Blanks(after) {
      BlanksSkipped(after, "");
    }
  }

  lemma AtEnd()
    ensures Stops("") && Skip("") == ""
  {
  }
}
