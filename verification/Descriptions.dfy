/**
 What a provider publishes about itself, and what the agent registers of it (soaagent/service_conf.c): every
 service of every description in the form of services.json, however its text is laid out.
 */
module Descriptions {
  import opened CString
  import opened JsonString
  import opened Json
  import opened JsonGrammar
  import opened MinifyTexts
  import opened ServiceConf
  import Url

  // ----- objects as lists of names and values -----

  function Built(entries: seq<(string, Json)>): Members
  {
    if entries == [] then NoMember else Member(entries[0].0, entries[0].1, Built(entries[1..]))
  }

  function Listed(vs: seq<Json>): Items
  {
    if vs == [] then NoItem else Item(vs[0], Listed(vs[1..]))
  }

  /** The name n, with any of its letters in upper case. */
  predicate Spells(n: string, name: string)
  {
    |n| == |name| && forall i | 0 <= i < |n| ::
      n[i] == name[i] || ('a' <= name[i] <= 'z' && n[i] as int == name[i] as int - 32)
  }

  predicate LowerCase(name: string)
  {
    forall i | 0 <= i < |name| :: !('A' <= name[i] <= 'Z')
  }

  /** The first entry that spells the name has this value; other entries may stand before, between and after. */
  ghost predicate Has(entries: seq<(string, Json)>, name: string, v: Json)
  {
    exists i | 0 <= i < |entries| ::
      Spells(entries[i].0, name) && entries[i].1 == v && forall j | 0 <= j < i :: !Spells(entries[j].0, name)
  }

  lemma SpellingsAreSame(n: string, name: string)
    requires LowerCase(name)
    ensures SameIgnoringCase(n, name) <==> Spells(n, name)
  {
    forall i | 0 <= i < |n| && i < |name|
      ensures Lower(n[i]) == Lower(name[i])
         <==> (n[i] == name[i] || ('a' <= name[i] <= 'z' && n[i] as int == name[i] as int - 32))
    {
      LetterCase(n[i], name[i]);
    }
  }

  lemma LetterCase(a: char, b: char)
    requires !('A' <= b <= 'Z')
    ensures Lower(a) == Lower(b) <==> (a == b || ('a' <= b <= 'z' && a as int == b as int - 32))
  {
  }

  /** cJSON_GetObjectItem finds the first member of that name, whatever its case and whatever else there is. */
  lemma {:induction false} MemberIsFound(entries: seq<(string, Json)>, name: string, v: Json)
    requires LowerCase(name) && Has(entries, name, v)
    ensures GetObjectItem(Object(Built(entries)), name) == Some(v)
  {
    FirstIsFound(entries, name, v);
  }

  lemma {:induction false} FirstIsFound(entries: seq<(string, Json)>, name: string, v: Json)
    requires LowerCase(name) && Has(entries, name, v)
    ensures FindMember(Built(entries), name) == Some(v)
  {
    hide SameIgnoringCase, Spells;
    var i :| 0 <= i < |entries| && Spells(entries[i].0, name) && entries[i].1 == v
             && forall j | 0 <= j < i :: !Spells(entries[j].0, name);
    SpellingsAreSame(entries[0].0, name);
    if i > 0 {
      var rest := entries[1..];
      assert rest[i - 1] == entries[i] && forall j | 0 <= j < i - 1 :: rest[j] == entries[j + 1];
      FirstIsFound(rest, name, v);
    }
  }

  // ----- descriptions -----

  /** An object that describes one service, beside whatever else it says. */
  ghost predicate DescribesService(v: Json, service: string, version: string)
  {
    exists entries :: v == Object(Built(entries)) && Has(entries, "service", String(service))
                      && Has(entries, "version", String(version))
  }

  /** An object that describes a provider. */
  ghost predicate DescribesProvider(root: Json, group: string, host: string, port: int, list: seq<(string, string)>)
  {
    exists entries, vs ::
      && root == Object(Built(entries))
      && Has(entries, "host", String(host)) && Has(entries, "port", Number(port as real))
      && Has(entries, "group", String(group)) && Has(entries, "services", Array(Listed(vs)))
      && |vs| == |list| && (forall i | 0 <= i < |vs| :: DescribesService(vs[i], list[i].0, list[i].1))
      && -0x8000_0000 <= port < 0x8000_0000
  }

  lemma ServiceIsFound(v: Json, service: string, version: string)
    requires DescribesService(v, service, version)
    ensures GetString(v, "service") == Some(service) && GetString(v, "version") == Some(version)
  {
    hide GetObjectItem, Has, Built;
    var entries :| v == Object(Built(entries)) && Has(entries, "service", String(service))
                   && Has(entries, "version", String(version));
    MemberIsFound(entries, "service", String(service));
    MemberIsFound(entries, "version", String(version));
  }

  lemma {:induction false} ServicesAreFound(vs: seq<Json>, list: seq<(string, string)>)
    requires |vs| == |list| && forall i | 0 <= i < |vs| :: DescribesService(vs[i], list[i].0, list[i].1)
    ensures GetServices(Listed(vs)) == Some(list)
  {
    hide DescribesService, GetString;
    if vs != [] {
      ServiceIsFound(vs[0], list[0].0, list[0].1);
      ServicesAreFound(vs[1..], list[1..]);
      assert list == [(list[0].0, list[0].1)] + list[1..];
    }
  }

  lemma WholeNumber(n: int)
    ensures ValueInt(Number(n as real)) == n
  {
    assert (n as real).Floor == n && (-(n as real)) == (-n) as real && (((-n) as real)).Floor == -n;
  }

  /** A number's valueint is the number with its fraction cut off. */
  lemma TowardZero(x: real)
    ensures var n := ValueInt(Number(x));
            if x >= 0.0 then n as real <= x < n as real + 1.0 else n as real - 1.0 < x <= n as real
  {
  }

  /** Every service of a description is read, in order, with the group, host and port. */
  lemma {:induction false} ProviderIsDescribed(root: Json, group: string, host: string, port: int,
                                               list: seq<(string, string)>)
    requires DescribesProvider(root, group, host, port, list)
    ensures Describe(root) == Some(Description(group, host, port, list))
  {
    hide GetObjectItem, Has, Built, GetServices, DescribesService, ValueInt;
    var entries, vs :|
      && root == Object(Built(entries))
      && Has(entries, "host", String(host)) && Has(entries, "port", Number(port as real))
      && Has(entries, "group", String(group)) && Has(entries, "services", Array(Listed(vs)))
      && |vs| == |list| && forall i | 0 <= i < |vs| :: DescribesService(vs[i], list[i].0, list[i].1);
    MemberIsFound(entries, "host", String(host));
    MemberIsFound(entries, "port", Number(port as real));
    MemberIsFound(entries, "group", String(group));
    MemberIsFound(entries, "services", Array(Listed(vs)));
    ServicesAreFound(vs, list);
    WholeNumber(port);
  }

  /** A child whose text the parser refuses changes nothing. */
  lemma RefusedIsSkipped(filters: seq<ServiceInfo>, children: seq<Child>, text: seq<byte>)
    requires NoNul(text) && ParseWithOpts(text, false).Fail?
    ensures SnapshotOf(filters, children + [ReadChild(Url.Encode(text))]) == SnapshotOf(filters, children)
  {
    hide ParseWithOpts, ReadChild, Describe, Collect;
    PublishedIsRead(text);
    var more := children + [ReadChild(Url.Encode(text))];
    assert more[..|more| - 1] == children;
  }

  /** Only the text before a NUL counts. */
  lemma {:induction false} TextEndsAtNul(text: seq<byte>, more: seq<byte>)
    requires NoNul(text)
    ensures ReadChild(Url.Encode(text + ['\0'] + more)) == ReadDescription(text)
  {
    hide ReadDescription, Url.Encode, Url.Decode, UpToNul;
    var whole: seq<byte> := text + ['\0'] + more;
    Url.DecodeEncode(whole);
    var end: string := ['\0'] + more;
    CutAtNul(text, end);
    Associate(text, ['\0'], more);
  }

  lemma {:induction false} CutAtNul(s: string, more: string)
    requires NoNul(s) && At(more, '\0')
    ensures UpToNul(s + more) == s
  {
    if s == [] {
      assert s + more == more;
    } else {
      assert (s + more)[1..] == s[1..] + more;
      CutAtNul(s[1..], more);
      assert s == [s[0]] + s[1..];
    }
  }

  // ----- from the published text to the registrations -----

  /** The text s, cut to n characters. */
  function CutTo(s: string, n: nat): string
  {
    if |s| <= n then s else s[..n]
  }

  lemma FieldsAreCut(group: string, service: string, version: string, host: string, port: int)
    ensures PadRegister(group, service, version, host, port)
         == RegisterInfo(ServiceInfo(CutTo(group, 49), CutTo(service, 29), CutTo(version, 19)), CutTo(host, 19), port)
  {
  }

  /** What is registered of one service. */
  function Registered(group: string, host: string, port: int, s: (string, string)): RegisterInfo
  {
    RegisterInfo(ServiceInfo(CutTo(group, 49), CutTo(s.0, 29), CutTo(s.1, 19)), CutTo(host, 19), port)
  }

  /**
   A published JSON text that describes a provider, with any layout, further members and order of members, and
   whatever follows it, is read as that description; and the agent registers exactly the services of it that
   it has declared.
   */
  lemma {:induction false} PublishedServicesAreRegistered(text: seq<byte>, before: string, d: Doc, after: string,
                                                          group: string, host: string, port: int,
                                                          list: seq<(string, string)>, filters: seq<ServiceInfo>)
    requires text == before + Text(d) + after && NoNul(text) && Blanks(before) && Stops(after) && Formed(d, Strict)
    requires DescribesProvider(Tree(d), group, host, port, list)
    ensures ReadChild(Url.Encode(text)) == Described(Description(group, host, port, list))
    ensures forall r ::
              r in Elements(SnapshotOf(filters, [ReadChild(Url.Encode(text))])) <==>
                r.srv in filters && exists i :: 0 <= i < |list| && r == Registered(group, host, port, list[i])
  {
    hide DescribesProvider, Describe, ReadChild, ParseWithOpts, Text, Tree, Formed, Collect, Offers;
    PublishedIsRead(text);
    JsonTextIsRead(before, d, after);
    ProviderIsDescribed(Tree(d), group, host, port, list);
    var child := Described(Description(group, host, port, list));
    SnapshotElements(filters, [child]);
    forall r
      ensures RegisteredBy(filters, [child], r)
         <==> r.srv in filters && exists i :: 0 <= i < |list| && r == Registered(group, host, port, list[i])
    {
      OneChildOffers(filters, child.d, r);
    }
  }

  lemma OneChildOffers(filters: seq<ServiceInfo>, d: Description, r: RegisterInfo)
    ensures RegisteredBy(filters, [Described(d)], r) <==>
              r.srv in filters
              && exists i :: 0 <= i < |d.services| && r == Registered(d.group, d.host, d.port, d.services[i])
  {
    var child := Described(d);
    assert RegisteredBy(filters, [child], r) <==> Offers(filters, d, 0, r) by {
      assert child in [child];
    }
    forall i | 0 <= i < |d.services|
      ensures PadIn(d, i) == Registered(d.group, d.host, d.port, d.services[i])
    {
      FieldsAreCut(d.group, d.services[i].0, d.services[i].1, d.host, d.port);
    }
    hide PadIn, Registered;
  }
}
