/**
 cJSON_Minify on commented JSON (soaagent/cJSON.c): white space and comments between the tokens go, the tokens
 stay, and what is left is accepted as the tree that the text denotes.
 */
module CommentedJson {
  import opened CString
  import opened JsonString
  import opened Json
  import opened JsonMinify
  import opened MinifyTexts
  import opened JsonGrammar
  import Decimal

  // ----- gaps -----

  lemma {:induction false} LineIsSkipped(c: string, t: string)
    requires c != [] && c[|c| - 1] == '\n' && forall i | 0 <= i < |c| - 1 :: c[i] != '\n'
    ensures AfterLine(c + t) == "\n" + t
  {
    if |c| == 1 {
      assert c == "\n";
    } else {
      assert (c + t)[1..] == c[1..] + t;
      LineIsSkipped(c[1..], t);
    }
  }

  lemma {:induction false} BlockIsSkipped(c: string, t: string)
    requires |c| >= 2 && c[|c| - 2] == '*' && c[|c| - 1] == '/'
    requires forall i | 0 <= i < |c| - 2 :: !(c[i] == '*' && c[i + 1] == '/')
    ensures AfterBlock(c + t) == Some(t)
  {
    var u := c + t;
    assert StartsWith(u, "*/") <==> c[0] == '*' && c[1] == '/' by {
      assert u[..2] == c[..2] == [c[0], c[1]];
    }
    if |c| == 2 {
      assert u[2..] == t;
    } else {
      assert u[1..] == c[1..] + t;
      BlockIsSkipped(c[1..], t);
    }
  }

  lemma CommentIsDropped(c: string, t: string)
    requires LineComment(c) || BlockComment(c)
    ensures Minify(c + t) == Minify(t)
  {
    hide AfterLine, AfterBlock;
    var u := c + t;
    assert u[1..] == c[1..] + t;
    TwoFirst(c, t);
    if LineComment(c) {
      LineIsSkipped(c[1..], t);
      assert ("\n" + t)[1..] == t;
      assert Minify("\n" + t) == Minify(t);
    } else {
      BlockFirst(u);
      BlockIsSkipped(c[1..], t);
    }
  }

  lemma TwoFirst(c: string, t: string)
    requires |c| >= 2 && c[0] == '/'
    ensures StartsWith(c + t, "//") <==> c[1] == '/'
    ensures StartsWith(c + t, "/*") <==> c[1] == '*'
  {
    var u := c + t;
    assert u[0] == c[0] && u[1] == c[1];
    assert c[1] == '/' ==> "//" <= u;
    assert c[1] == '*' ==> "/*" <= u;
    assert "//" <= u ==> u[1] == "//"[1];
    assert "/*" <= u ==> u[1] == "/*"[1];
  }

  lemma BlockFirst(u: string)
    requires |u| >= 2 && u[0] == '/'
    ensures AfterBlock(u) == AfterBlock(u[1..])
  {
    assert !StartsWith(u, "*/");
  }

  lemma {:induction false} GapIsDropped(g: string, t: string)
    requires Comments(g)
    ensures Minify(g + t) == Minify(t)
    decreases |g|
  {
    hide LineComment, BlockComment;
    if g == [] {
      assert g + t == t;
    } else if g[0] in {' ', '\t', '\r', '\n'} && Comments(g[1..]) {
      assert (g + t)[1..] == g[1..] + t;
      GapIsDropped(g[1..], t);
    } else {
      hide Minify;
      var n :| 0 < n <= |g| && (LineComment(g[..n]) || BlockComment(g[..n])) && Comments(g[n..]);
      assert g + t == g[..n] + (g[n..] + t);
      CommentIsDropped(g[..n], g[n..] + t);
      GapIsDropped(g[n..], t);
    }
  }

  // ----- tokens -----

  lemma DigitsAreKept(s: string)
    requires AllDigits(s)
    ensures Kept(s)
  {
  }

  lemma KeptConcat(a: string, b: string)
    requires Kept(a) && Kept(b)
    ensures Kept(a + b)
  {
  }

  lemma NumeralIsKept(n: Numeral)
    requires GoodNumeral(n)
    ensures Kept(NumeralText(n))
  {
    hide Kept, AllDigits;
    DigitsAreKept(n.whole);
    DigitsAreKept(n.fraction);
    MarksAreKept(n.power);
    var f, p := FractionText(n.fraction), PowerText(n.power);
    if n.fraction != [] {
      KeptConcat(".", n.fraction);
    }
    if n.power.Power? {
      DigitsAreKept(n.power.digits);
      KeptConcat(SignText(n.power.sign), n.power.digits);
      KeptConcat([n.power.mark], SignText(n.power.sign) + n.power.digits);
    }
    KeptConcat(f, p);
    KeptConcat(n.whole, f + p);
    KeptConcat(if n.minus then "-" else "", n.whole + (f + p));
  }

  lemma MarksAreKept(p: Power)
    requires p.Power? ==> p.mark in {'e', 'E'}
    ensures Kept("") && Kept("-") && Kept(".") && (p.Power? ==> Kept([p.mark]) && Kept(SignText(p.sign)))
  {
  }

  lemma PieceIsPassed(p: Piece, t: string)
    requires WellFormed(p)
    ensures LiteralEnd(Source(p) + t) == LiteralEnd(t)
  {
    hide LiteralEnd, ParseHex4;
    var u := Source(p) + t;
    match p {
      case Plain(c) =>
        assert u[1..] == t;
        EndStep(u, 1);
      case Short(x) =>
        assert u[2..] == t;
        EndStep(u, 2);
      case Code(h) =>
        CodeIsPassed(h, t);
      case Pair(h, l) =>
        assert u == "\\u" + h + ("\\u" + l + t);
        CodeIsPassed(h, "\\u" + l + t);
        CodeIsPassed(l, t);
    }
  }

  lemma CodeIsPassed(h: string, t: string)
    requires |h| == 4 && FourHex(h)
    ensures LiteralEnd("\\u" + h + t) == LiteralEnd(t)
  {
    hide LiteralEnd;
    var u := "\\u" + h + t;
    assert u[2..6] == h && u[6..] == t;
    HexIsPlain(h);
    hide FourHex, FourPlain;
    EndStep(u, 6);
  }

  lemma {:induction false} PiecesArePassed(ps: seq<Piece>, rest: string)
    requires AllWellFormed(ps)
    ensures LiteralEnd(Sources(ps) + ("\"" + rest)) == Some(rest)
  {
    if ps == [] {
      assert Sources(ps) + ("\"" + rest) == "\"" + rest && ("\"" + rest)[1..] == rest;
    } else {
      hide LiteralEnd, Source, WellFormed;
      var tail := Sources(ps[1..]) + ("\"" + rest);
      assert Sources(ps) + ("\"" + rest) == Source(ps[0]) + tail;
      PieceIsPassed(ps[0], tail);
      PiecesArePassed(ps[1..], rest);
    }
  }

  lemma {:induction false} QuotedStays(ps: seq<Piece>, rest: string)
    requires AllWellFormed(ps)
    ensures Minify(Quoted(ps) + rest) == Prefixed(Quoted(ps), Minify(rest))
  {
    hide LiteralEnd, Sources, Minify, AllWellFormed, Lit, Prefixed, Quoted;
    var t := Quoted(ps) + rest;
    var u := Sources(ps) + ("\"" + rest);
    QuotedParts(ps, rest);
    PiecesArePassed(ps, rest);
    QuotedMinified(t);
    SameFronts(Lit(u), Sources(ps) + "\"", rest, u);
  }

  lemma QuotedParts(ps: seq<Piece>, rest: string)
    ensures var t, u := Quoted(ps) + rest, Sources(ps) + ("\"" + rest);
            && At(t, '"') && t[1..] == u && Quoted(ps) == ['"'] + (Sources(ps) + "\"")
            && u == (Sources(ps) + "\"") + rest
  {
    hide Sources;
  }

  lemma SameFronts(a: string, b: string, rest: string, u: string)
    requires u == a + rest == b + rest
    ensures a == b
  {
    assert |a| == |u| - |rest| == |b|;
    assert a == u[..|a|] == b;
  }

  lemma {:induction false} TokenStays(text: string, v: Json, rest: string)
    requires GoodToken(text, v)
    ensures Minify(text + rest) == Prefixed(text, Minify(rest))
  {
    hide Minify, GoodNumeral, NumeralText, Denoted, Quoted, Meanings, WellFormed;
    if (text == "null" && v == Null) || (text == "false" && v == False) || (text == "true" && v == True) {
      MinifyKept(text, rest);
    } else if n :| GoodNumeral(n) && text == NumeralText(n) && v == Number(Denoted(n)) {
      NumeralIsKept(n);
      MinifyKept(text, rest);
    } else {
      var ps :| AllWellFormed(ps) && text == Quoted(ps) && v == String(Meanings(ps));
      QuotedStays(ps, rest);
    }
  }

  lemma NameStays(text: string, name: string, rest: string)
    requires GoodName(text, name)
    ensures Minify(text + rest) == Prefixed(text, Minify(rest))
  {
    hide Minify, Quoted, Meanings, WellFormed;
    var ps :| AllWellFormed(ps) && text == Quoted(ps) && name == Meanings(ps);
    QuotedStays(ps, rest);
  }

  // ----- documents -----

  /** The document without its gaps. */
  function Bare(d: Doc): Doc
  {
    match d
    case Token(_, _) => d
    case Arr(_, entries) => Arr("", BareDocs(entries))
    case Obj(_, fields) => Obj("", BareFields(fields))
  }

  function BareDocs(ds: Docs): Docs
  {
    if ds.NoDoc? then NoDoc else OneDoc("", Bare(ds.head), "", BareDocs(ds.next))
  }

  function BareFields(fs: Fields): Fields
  {
    if fs.NoField? then NoField
    else Field("", fs.quoted, fs.name, "", "", Bare(fs.child), "", BareFields(fs.following))
  }

  lemma {:induction false} BareIsStrict(d: Doc)
    requires Formed(d, Commented)
    ensures Formed(Bare(d), Strict) && Tree(Bare(d)) == Tree(d)
    decreases d
  {
    match d {
      case Token(_, _) =>
      case Arr(_, entries) => BareDocsAreStrict(entries);
      case Obj(_, fields) => BareFieldsAreStrict(fields);
    }
  }

  lemma {:induction false} BareDocsAreStrict(ds: Docs)
    requires FormedDocs(ds, Commented)
    ensures FormedDocs(BareDocs(ds), Strict) && Trees(BareDocs(ds)) == Trees(ds)
    decreases ds
  {
    if ds.OneDoc? {
      BareIsStrict(ds.head);
      BareDocsAreStrict(ds.next);
    }
  }

  lemma {:induction false} BareFieldsAreStrict(fs: Fields)
    requires FormedFields(fs, Commented)
    ensures FormedFields(BareFields(fs), Strict) && Named(BareFields(fs)) == Named(fs)
    decreases fs
  {
    hide GoodName;
    if fs.Field? {
      BareIsStrict(fs.child);
      BareFieldsAreStrict(fs.following);
    }
  }

  /** A piece of text that Minify makes m of, whatever follows. */
  ghost predicate Becomes(t: string, m: string, rest: string)
  {
    Minify(t + rest) == Prefixed(m, Minify(rest))
  }

  lemma Then(a: string, m: string, b: string, n: string, rest: string)
    requires Becomes(a, m, b + rest) && Becomes(b, n, rest)
    ensures Becomes(a + b, m + n, rest)
  {
    hide Minify;
    assert (a + b) + rest == a + (b + rest);
    PrefixedTwice(m, n, Minify(rest));
  }

  lemma GapBecomes(g: string, rest: string)
    requires Comments(g)
    ensures Becomes(g, "", rest)
  {
    hide Minify;
    GapIsDropped(g, rest);
    EmptyPrefix(Minify(rest));
  }

  lemma MarkBecomes(c: char, rest: string)
    requires c in {'[', ']', '{', '}', ',', ':'}
    ensures Becomes([c], [c], rest)
  {
    hide Minify;
    MinifyKept([c], rest);
  }

  /** The text of a commented document becomes the text of the bare one. */
  lemma {:induction false} DocIsMinified(d: Doc, rest: string)
    requires Formed(d, Commented)
    ensures Becomes(Text(d), Text(Bare(d)), rest)
    decreases d
  {
    hide Becomes;
    match d {
      case Token(text, v) =>
        TokenBecomes(text, v, rest);
      case Arr(inner, entries) =>
        var body := if entries.NoDoc? then inner else DocsText(entries);
        var bare := if entries.NoDoc? then "" else DocsText(BareDocs(entries));
        if entries.NoDoc? {
          GapBecomes(inner, "]" + rest);
        } else {
          DocsAreMinified(entries, "]" + rest);
        }
        Bracketed('[', body, bare, ']', rest);
      case Obj(inner, fields) =>
        var body := if fields.NoField? then inner else FieldsText(fields);
        var bare := if fields.NoField? then "" else FieldsText(BareFields(fields));
        if fields.NoField? {
          GapBecomes(inner, "}" + rest);
        } else {
          FieldsAreMinified(fields, "}" + rest);
        }
        Bracketed('{', body, bare, '}', rest);
    }
  }

  lemma TokenBecomes(text: string, v: Json, rest: string)
    requires GoodToken(text, v)
    ensures Becomes(text, text, rest)
  {
    hide Minify, GoodToken;
    TokenStays(text, v, rest);
  }

  lemma Bracketed(open: char, body: string, bare: string, close: char, rest: string)
    requires open in {'[', '{'} && close in {']', '}'} && Becomes(body, bare, [close] + rest)
    ensures Becomes([open] + (body + [close]), [open] + (bare + [close]), rest)
  {
    hide Becomes;
    MarkBecomes(close, rest);
    Then(body, bare, [close], [close], rest);
    MarkBecomes(open, (body + [close]) + rest);
    Then([open], [open], body + [close], bare + [close], rest);
  }

  lemma {:induction false} DocsAreMinified(ds: Docs, rest: string)
    requires ds.OneDoc? && FormedDocs(ds, Commented)
    ensures Becomes(DocsText(ds), DocsText(BareDocs(ds)), rest)
    decreases ds
  {
    hide Becomes, Comments, Text;
    var more := if ds.next.NoDoc? then "" else "," + DocsText(ds.next);
    var bare := if ds.next.NoDoc? then "" else "," + DocsText(BareDocs(ds.next));
    if ds.next.OneDoc? {
      DocsAreMinified(ds.next, rest);
      MarkBecomes(',', DocsText(ds.next) + rest);
      Then(",", ",", DocsText(ds.next), DocsText(BareDocs(ds.next)), rest);
    } else {
      NothingBecomes(rest);
    }
    GapBecomes(ds.after, more + rest);
    Then(ds.after, "", more, bare, rest);
    DocIsMinified(ds.head, (ds.after + more) + rest);
    Then(Text(ds.head), Text(Bare(ds.head)), ds.after + more, "" + bare, rest);
    var tail := Text(ds.head) + (ds.after + more);
    GapBecomes(ds.before, tail + rest);
    Then(ds.before, "", tail, Text(Bare(ds.head)) + ("" + bare), rest);
  }

  lemma NothingBecomes(rest: string)
    ensures Becomes("", "", rest)
  {
    hide Minify;
    assert "" + rest == rest;
    EmptyPrefix(Minify(rest));
  }

  lemma NameBecomes(text: string, name: string, rest: string)
    requires GoodName(text, name)
    ensures Becomes(text, text, rest)
  {
    hide Minify, GoodName;
    NameStays(text, name, rest);
  }

  lemma {:induction false} FieldsAreMinified(fs: Fields, rest: string)
    requires fs.Field? && FormedFields(fs, Commented)
    ensures Becomes(FieldsText(fs), FieldsText(BareFields(fs)), rest)
    decreases fs
  {
    hide Becomes, Comments, Text, GoodName;
    var more := if fs.following.NoField? then "" else "," + FieldsText(fs.following);
    var bare := if fs.following.NoField? then "" else "," + FieldsText(BareFields(fs.following));
    if fs.following.Field? {
      FieldsAreMinified(fs.following, rest);
      MarkBecomes(',', FieldsText(fs.following) + rest);
      Then(",", ",", FieldsText(fs.following), FieldsText(BareFields(fs.following)), rest);
    } else {
      NothingBecomes(rest);
    }
    GapBecomes(fs.end, more + rest);
    Then(fs.end, "", more, bare, rest);
    DocIsMinified(fs.child, (fs.end + more) + rest);
    Then(Text(fs.child), Text(Bare(fs.child)), fs.end + more, "" + bare, rest);
    MemberIsMinified(fs, Text(fs.child) + (fs.end + more), Text(Bare(fs.child)) + ("" + bare), rest);
  }

  /** The name of a member and what is around its colon. */
  lemma MemberIsMinified(fs: Fields, value: string, bare: string, rest: string)
    requires fs.Field? && Comments(fs.before) && GoodName(fs.quoted, fs.name) && Comments(fs.after) && Comments(fs.gap)
    requires Becomes(value, bare, rest)
    ensures Becomes(fs.before + (fs.quoted + (fs.after + (":" + (fs.gap + value)))),
                    "" + (fs.quoted + ("" + (":" + ("" + bare)))), rest)
  {
    hide Becomes, Comments, GoodName;
    var a := fs.gap + value;
    GapBecomes(fs.gap, value + rest);
    Then(fs.gap, "", value, bare, rest);
    MarkBecomes(':', a + rest);
    Then(":", ":", a, "" + bare, rest);
    GapBecomes(fs.after, (":" + a) + rest);
    Then(fs.after, "", ":" + a, ":" + ("" + bare), rest);
    var b := fs.after + (":" + a);
    NameBecomes(fs.quoted, fs.name, b + rest);
    Then(fs.quoted, fs.quoted, b, "" + (":" + ("" + bare)), rest);
    GapBecomes(fs.before, (fs.quoted + b) + rest);
    Then(fs.before, "", fs.quoted + b, fs.quoted + ("" + (":" + ("" + bare))), rest);
  }

  /**
   A JSON text with white space and comments around its tokens is minified to its tokens alone, which are
   accepted as the tree that the text denotes.
   */
  lemma {:induction false} CommentedIsRead(before: string, d: Doc, after: string)
    requires Comments(before) && Formed(d, Commented) && Comments(after)
    ensures Minify(before + Text(d) + after) == Some(Text(Bare(d)))
    ensures ParseWithOpts(Text(Bare(d)), true) == Ok(Tree(d), [])
  {
    hide Minify, Comments, Formed, Text, Tree, ParseWithOpts;
    GapIsDropped(before, Text(d) + after);
    assert before + Text(d) + after == before + (Text(d) + after);
    DocIsMinified(d, after);
    GapIsDropped(after, "");
    assert after + "" == after;
    NothingMinified();
    BareIsStrict(d);
    NoBlanks();
    AtEnd();
    JsonTextIsRead("", Bare(d), "");
    assert "" + Text(Bare(d)) + "" == Text(Bare(d));
    assert Text(Bare(d)) + "" == Text(Bare(d));
  }

  lemma NoBlanks()
    ensures Blanks("")
  {
  }
}
