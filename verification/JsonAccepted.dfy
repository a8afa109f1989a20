/**
 What cJSON accepts is written like JSON (soaagent/cJSON.c): tokens with brackets, braces, commas and colons in
 their places, and nothing but characters up to the space between them.
 */
module JsonAccepted {
  import opened JsonString
  import opened Json
  import opened Decimal
  import opened MinifyTexts
  import opened JsonGrammar

  predicate Suffix(r: string, t: string)
  {
    |r| <= |t| && t[|t| - |r|..] == r
  }

  lemma SuffixOn(a: string, b: string, c: string)
    requires Suffix(a, b) && Suffix(b, c)
    ensures Suffix(a, c)
  {
    assert c[|c| - |a|..] == c[|c| - |b|..][|b| - |a|..];
  }

  lemma Drops(t: string, n: nat)
    requires n <= |t|
    ensures Suffix(t[n..], t)
  {
  }

  /** What stands before a suffix. */
  function Front(t: string, r: string): (f: string)
    requires Suffix(r, t)
    ensures t == f + r
  {
    t[..|t| - |r|]
  }

  // ----- what the token routines leave is the end of their text -----

  lemma UnicodeLeaves(t: string)
    requires t != [] && UnescapeUnicode(t).Write?
    ensures Suffix(UnescapeUnicode(t).rest, t)
  {
    hide ParseHex4, Utf8;
  }

  lemma TurnLeaves(t: string)
    requires t != [] && TurnAt(t).Write?
    ensures Suffix(TurnAt(t).rest, t)
  {
    hide UnescapeUnicode;
    if |t| > 1 {
      if t[1] == 'u' && t[0] == '\\' {
        UnicodeLeaves(t[1..]);
        SuffixOn(TurnAt(t).rest, t[1..], t);
      }
      assert t[1..][1..] == t[2..];
    }
  }

  lemma {:induction false} UnescapeLeaves(t: string)
    requires Unescape(t).Ok?
    ensures Suffix(Unescape(t).rest, t)
    decreases |t|
  {
    hide TurnAt, Suffix;
    if t == [] {
      Drops(t, 0);
    } else if t[0] == '"' {
      Drops(t, 1);
    } else {
      TurnLeaves(t);
      UnescapeLeaves(TurnAt(t).rest);
      SuffixOn(Unescape(t).rest, TurnAt(t).rest, t);
    }
  }

  lemma StringLeaves(t: string)
    requires ParseString(t).Ok?
    ensures Suffix(ParseString(t).rest, t)
  {
    hide Unescape, Measure, Suffix;
    Drops(t, 1);
    UnescapeLeaves(t[1..]);
    SuffixOn(ParseString(t).rest, t[1..], t);
  }

  lemma {:induction false} SkipLeaves(t: string)
    ensures Suffix(Skip(t), t) && Blanks(Front(t, Skip(t)))
  {
    if t != [] && t[0] as int <= 32 {
      SkipLeaves(t[1..]);
      hide Suffix, Blanks, Front, Skip;
      Drops(t, 1);
      SuffixOn(Skip(t[1..]), t[1..], t);
      FrontMore(t, Skip(t[1..]));
    } else {
      NothingInFront(t);
    }
  }

  lemma FrontMore(t: string, r: string)
    requires t != [] && t[0] as int <= 32 && Suffix(r, t[1..]) && Suffix(r, t) && Blanks(Front(t[1..], r))
    ensures Blanks(Front(t, r))
  {
    var g := Front(t[1..], r);
    assert forall i | 1 <= i < |Front(t, r)| :: Front(t, r)[i] == g[i - 1];
  }

  lemma NothingInFront(t: string)
    ensures Suffix(t, t) && Front(t, t) == [] && Blanks([])
  {
  }

  // ----- accepted texts -----

  /** The value that is read, taken as a token. */
  lemma TokenIsWritten(t: string) returns (d: Doc)
    requires ParseValue(t).Ok? && Suffix(ParseValue(t).rest, t)
    requires !ParseValue(t).value.Array? && !ParseValue(t).value.Object?
    ensures Formed(d, Loose) && Tree(d) == ParseValue(t).value && t == Text(d) + ParseValue(t).rest
  {
    hide ParseValue;
    var r := ParseValue(t);
    d := Token(Front(t, r.rest), r.value);
    assert ParseValue(d.text + r.rest) == r;
  }

  lemma {:induction false} ValueIsWritten(t: string) returns (d: Doc)
    requires ParseValue(t).Ok?
    ensures Formed(d, Loose) && Tree(d) == ParseValue(t).value && t == Text(d) + ParseValue(t).rest
    decreases |t|, 2
  {
    ValueStart(t);
    hide ParseString, ParseNumber, ParseArray, ParseObject, Suffix, Formed, Tree, Text;
    if StartsWith(t, "null") || StartsWith(t, "true") {
      Drops(t, 4);
      d := TokenIsWritten(t);
    } else if StartsWith(t, "false") {
      Drops(t, 5);
      d := TokenIsWritten(t);
    } else if At(t, '"') {
      StringLeaves(t);
      d := TokenIsWritten(t);
    } else if t[0] == '-' || IsDigit(t[0]) {
      NumberLeaves(t);
      d := TokenIsWritten(t);
    } else if At(t, '[') {
      d := ArrayIsWritten(t);
    } else {
      d := ObjectIsWritten(t);
    }
  }

  lemma NumberLeaves(t: string)
    requires t != [] && (t[0] == '-' || IsDigit(t[0]))
    ensures Suffix(ParseNumber(t).1, t)
  {
    NumberTaken(t);
    hide ParseNumber;
  }

  lemma {:induction false} ArrayIsWritten(t: string) returns (d: Doc)
    requires At(t, '[') && ParseArray(t).Ok?
    ensures Formed(d, Loose) && Tree(d) == ParseArray(t).value && t == Text(d) + ParseArray(t).rest
    decreases |t|, 1
  {
    hide ParseItems, Skip, DocsText, Suffix, Blanks, Front;
    SkipLeaves(t[1..]);
    NothingInFront(t);
    var u := Skip(t[1..]);
    var g := Front(t[1..], u);
    if At(u, ']') {
      d := Arr(g, NoDoc);
      Enclosed(t, '[', g, u, ']');
    } else {
      var ds := ItemsAreWritten(u);
      var wider := ds.(before := g + ds.before);
      d := Arr("", wider);
      BlanksJoin(g, ds.before);
      WiderDocs(ds, g);
      var end := "]" + ParseArray(t).rest;
      Wrapped(t, '[', g, DocsText(ds), end);
    }
  }

  lemma BlanksJoin(a: string, b: string)
    requires Blanks(a) && Blanks(b)
    ensures Blanks(a + b)
  {
  }

  lemma WiderDocs(ds: Docs, g: string)
    requires ds.OneDoc?
    ensures DocsText(ds.(before := g + ds.before)) == g + DocsText(ds)
    ensures Trees(ds.(before := g + ds.before)) == Trees(ds)
  {
    hide Text;
    var more := Text(ds.head) + (ds.after + if ds.next.NoDoc? then "" else "," + DocsText(ds.next));
    assert (g + ds.before) + more == g + (ds.before + more);
  }

  /** An empty list. */
  lemma Enclosed(t: string, open: char, g: string, u: string, close: char)
    requires At(t, open) && t[1..] == g + u && At(u, close)
    ensures t == [open] + (g + [close]) + u[1..]
  {
    assert t == [open] + t[1..] && u == [close] + u[1..];
  }

  /** A list with entries. */
  lemma Wrapped(t: string, open: char, g: string, body: string, end: string)
    requires At(t, open) && t[1..] == g + (body + end) && end != []
    ensures t == [open] + ((g + body) + end[..1]) + end[1..]
  {
    assert t == [open] + t[1..] && end == end[..1] + end[1..];
  }

  lemma {:induction false} ItemsAreWritten(t: string) returns (ds: Docs)
    requires ParseItems(t).Ok?
    ensures ds.OneDoc? && FormedDocs(ds, Loose) && Trees(ds) == ParseItems(t).value
    ensures t == DocsText(ds) + ("]" + ParseItems(t).rest)
    decreases |t|, 3
  {
    hide ParseValue, Skip, Suffix, Blanks, Text, Formed, Front;
    SkipLeaves(t);
    var s := Skip(t);
    var head := ValueIsWritten(s);
    var rest := ParseValue(s).rest;
    SkipLeaves(rest);
    var u := Skip(rest);
    var before, after := Front(t, s), Front(rest, u);
    var end := "]" + ParseItems(t).rest;
    var next := NoDoc;
    if At(u, ',') {
      next := ItemsAreWritten(u[1..]);
      assert u == "," + u[1..];
    } else {
      assert u == "]" + u[1..];
    }
    ds := OneDoc(before, head, after, next);
    DocsTail(ds, end);
  }

  lemma {:induction false} ObjectIsWritten(t: string) returns (d: Doc)
    requires At(t, '{') && ParseObject(t).Ok?
    ensures Formed(d, Loose) && Tree(d) == ParseObject(t).value && t == Text(d) + ParseObject(t).rest
    decreases |t|, 1
  {
    hide ParseMembers, Skip, FieldsText, Suffix, Blanks, NameOk, Front;
    SkipLeaves(t[1..]);
    NothingInFront(t);
    var u := Skip(t[1..]);
    var g := Front(t[1..], u);
    if At(u, '}') {
      d := Obj(g, NoField);
      Enclosed(t, '{', g, u, '}');
    } else {
      var fs := MembersAreWritten(u);
      var wider := fs.(before := g + fs.before);
      d := Obj("", wider);
      BlanksJoin(g, fs.before);
      WiderFields(fs, g);
      var end := "}" + ParseObject(t).rest;
      Wrapped(t, '{', g, FieldsText(fs), end);
    }
  }

  lemma WiderFields(fs: Fields, g: string)
    requires fs.Field?
    ensures FieldsText(fs.(before := g + fs.before)) == g + FieldsText(fs)
    ensures Named(fs.(before := g + fs.before)) == Named(fs)
  {
    hide Text;
    var more := fs.quoted + (fs.after + (":" + (fs.gap + (Text(fs.child)
                + (fs.end + if fs.following.NoField? then "" else "," + FieldsText(fs.following))))));
    assert (g + fs.before) + more == g + (fs.before + more);
  }

  lemma NameIsWritten(t: string) returns (before: string, quoted: string, after: string, gap: string)
    requires ParseName(t).Ok?
    ensures Blanks(before) && Blanks(after) && Blanks(gap) && NameOk(Loose, quoted, ParseName(t).value)
    ensures t == before + (quoted + (after + (":" + (gap + ParseName(t).rest))))
  {
    hide ParseString, Skip, Suffix, Blanks, Front;
    SkipLeaves(t);
    var s := Skip(t);
    StringLeaves(s);
    var rest := ParseString(s).rest;
    SkipLeaves(rest);
    var u := Skip(rest);
    SkipLeaves(u[1..]);
    before, quoted, after, gap := Front(t, s), Front(s, rest), Front(rest, u), Front(u[1..], Skip(u[1..]));
    assert ParseString(quoted + rest) == ParseString(s);
    assert u == ":" + u[1..];
  }

  lemma {:induction false} MembersAreWritten(t: string) returns (fs: Fields)
    requires ParseMembers(t).Ok?
    ensures fs.Field? && FormedFields(fs, Loose) && Named(fs) == ParseMembers(t).value
    ensures t == FieldsText(fs) + ("}" + ParseMembers(t).rest)
    decreases |t|, 3
  {
    hide ParseValue, ParseName, Skip, Suffix, Blanks, Text, Formed, NameOk, Front;
    var before, quoted, after, gap := NameIsWritten(t);
    var name, text := ParseName(t).value, ParseName(t).rest;
    var child := ValueIsWritten(text);
    var rest := ParseValue(text).rest;
    SkipLeaves(rest);
    var u := Skip(rest);
    var following := NoField;
    if At(u, ',') {
      following := MembersAreWritten(u[1..]);
      assert u == "," + u[1..];
    } else {
      assert u == "}" + u[1..];
    }
    fs := Field(before, quoted, name, after, gap, child, Front(rest, u), following);
    FieldsTail(fs, "}" + ParseMembers(t).rest);
  }

  /**
   Every text that cJSON accepts up to its end consists of tokens with brackets, braces, commas and colons in
   their places, and of blanks, and the tree is the one that this text denotes.
   */
  lemma {:induction false} AcceptedIsWritten(t: string) returns (before: string, d: Doc, after: string)
    requires ParseWithOpts(t, true).Ok?
    ensures t == before + Text(d) + after && Blanks(before) && Blanks(after) && Formed(d, Loose)
    ensures Tree(d) == ParseWithOpts(t, true).value
  {
    hide ParseValue, Skip, Suffix, Blanks, Text, Formed, Tree, Front;
    SkipLeaves(t);
    var s := Skip(t);
    d := ValueIsWritten(s);
    var rest := ParseValue(s).rest;
    SkipLeaves(rest);
    before, after := Front(t, s), rest;
    assert Front(rest, Skip(rest)) == rest;
    assert before + (Text(d) + after) == before + Text(d) + after;
  }
}
