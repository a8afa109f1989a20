/**
 What happens to groups whose provider key does not fit its field (soaagent/service_conf.c): their
 snapshots are stored under a cut key, are never found again, and so their routes are never deleted.
 */
module StaleRoutes {
  import opened CString
  import opened Json
  import opened JsonMinify
  import opened JsonString
  import opened ServiceConf
  import opened ResourceMgt
  import D = Discovery
  import Decimal
  import PrintedJson
  import Url

  // ----- routes of long groups -----

  /** Every stored key fits its field. */
  predicate KeysFit(mapping: map<string, Snapshot>)
  {
    forall key | key in mapping :: |key| < PROVIDER_KEY_LEN
  }

  lemma {:induction false} RunKeysFit(es: seq<D.Event>)
    ensures KeysFit(D.Run(es).mapping)
    decreases |es|
  {
    hide ProviderKey, SnapshotOf, D.Children, Diff, NotifyAll;
    if es != [] {
      RunKeysFit(es[..|es| - 1]);
    }
  }

  lemma LongKeyIsCut(group: string)
    requires |group| >= 49
    ensures |ProviderKey(group)| >= PROVIDER_KEY_LEN
  {
  }

  lemma {:induction false} AdditionsKeepRoutes(t: Tables, cs: seq<Change>, key: string, node: string)
    requires forall i | 0 <= i < |cs| :: cs[i].status == 1
    requires Routes(t, key, node)
    ensures Routes(NotifyAll(t, cs), key, node)
    decreases |cs|
  {
    if cs != [] {
      AdditionKeepsRoutes(t, cs[0].info, key, node);
      hide ResourceAdd, ResourceDelete;
      AdditionsKeepRoutes(Notify(t, cs[0]), cs[1..], key, node);
    }
  }

  lemma AdditionKeepsRoutes(t: Tables, r: RegisterInfo, key: string, node: string)
    requires Routes(t, key, node)
    ensures Routes(ResourceAdd(t, r), key, node)
  {
    hide ServiceKey, NodeKey;
  }

  lemma {:induction false} NothingToDelete(right: Snapshot)
    ensures Diff(None, right).Some? ==>
              forall i | 0 <= i < |Diff(None, right).value| :: Diff(None, right).value[i].status == 1
  {
    MissingStatus(Elements(right), [], 1);
  }

  lemma {:induction false} MissingStatus(from: seq<RegisterInfo>, other: seq<RegisterInfo>, status: int)
    ensures forall i | 0 <= i < |Missing(from, other, status)| :: Missing(from, other, status)[i].status == status
  {
    if from != [] {
      MissingStatus(from[1..], other, status);
    }
  }

  /**
   After every history, a child list of a group of 49 characters or more deletes no route, whatever
   it holds: the group's last snapshot is never found.
   */
  lemma {:induction false} LongGroupNeverDeletes(es: seq<D.Event>, group: string, names: seq<seq<byte>>, key: string,
                                                 node: string)
    requires |group| >= 49 && Routes(D.Run(es).tables, key, node)
    ensures D.MappingFind(D.Run(es).mapping, ProviderKey(group)) == None
    ensures Routes(D.Run(es + [D.Providers(group, names)]).tables, key, node)
  {
    hide ProviderKey, SnapshotOf, D.Children, Diff, NotifyAll, Routes;
    var e := D.Providers(group, names);
    assert (es + [e])[..|es|] == es;
    RunKeysFit(es);
    LongKeyIsCut(group);
    var s := D.Run(es);
    var remote := SnapshotOf(s.filters, D.Children(names));
    NothingToDelete(remote);
    if Diff(None, remote).Some? {
      AdditionsKeepRoutes(s.tables, Diff(None, remote).value, key, node);
    }
  }

  // ----- one service, published and withdrawn -----

  /** A group name of letters that the printer and the keys leave alone. */
  predicate Letters(s: seq<byte>)
  {
    forall i | 0 <= i < |s| :: 'a' <= s[i] <= 'z'
  }

  function Service(): Json
  {
    Object(Member("service", String("s"), Member("version", String("1"), NoMember)))
  }

  /** A provider of service s, version 1, at host h, port 1. */
  function Tree(group: string): Json
  {
    Object(Member("host", String("h"),
           Member("port", Number(1.0),
           Member("group", String(group),
           Member("services", Array(Item(Service(), NoItem)), NoMember)))))
  }

  function Quote(s: seq<byte>): seq<byte>
  {
    "\"" + s + "\""
  }

  function ServiceText(): seq<byte>
  {
    "{" + (Quote("service") + ":" + (Quote("s") + ("," + (Quote("version") + ":" + (Quote("1") + ""))))) + "}"
  }

  function Text(group: seq<byte>): seq<byte>
  {
    "{" + (Quote("host") + ":" + (Quote("h") + (","
        + (Quote("port") + ":" + ("1" + (","
        + (Quote("group") + ":" + (Quote(group) + (","
        + (Quote("services") + ":" + (("[" + (ServiceText() + "") + "]") + "")))))))))))
    + "}"
  }

  predicate Unescaped(s: string)
  {
    forall i | 0 <= i < |s| :: ' ' <= s[i] <= '~' && s[i] != '"' && s[i] != '\\'
  }

  lemma {:induction false} QuoteIsPrinted(s: seq<byte>)
    requires Unescaped(s)
    ensures PrintString(s) == Quote(s) && NoNul(s)
  {
    PrintedJson.PlainIsPrintedPlain(s);
  }

  lemma PlainObject(members: Members, depth: nat)
    requires members.Member? && PrintableMembers(members)
    ensures Print(Object(members), depth, false) == "{" + PrintMembers(members, depth + 1, false) + "}"
  {
    hide PrintMembers;
    var m := PrintMembers(members, depth + 1, false);
    assert "{" + "" + m + "" + "}" == "{" + m + "}";
  }

  lemma ServiceIsPrinted(depth: nat)
    ensures Printable(Service()) && Print(Service(), depth, false) == ServiceText()
  {
    hide Print, PrintMembers, PrintString, Quote;
    QuoteIsPrinted("service");
    QuoteIsPrinted("s");
    QuoteIsPrinted("version");
    QuoteIsPrinted("1");
    var version := Member("version", String("1"), NoMember);
    var members := Member("service", String("s"), version);
    PlainObject(members, depth);
    PlainMembers(version, depth + 1);
    PlainMembers(members, depth + 1);
    StringIsPrinted("s", depth + 1);
    StringIsPrinted("1", depth + 1);
  }

  lemma StringIsPrinted(s: seq<byte>, depth: nat)
    requires NoNul(s)
    ensures Print(String(s), depth, false) == PrintString(s)
  {
  }

  lemma OneIsPrinted(depth: nat)
    ensures Printable(Number(1.0)) && Print(Number(1.0), depth, false) == "1"
  {
    assert (1.0).Floor == 1;
    assert Decimal.Digits(1) == ['1'];
  }

  lemma {:induction false} TreeIsPrinted(group: seq<byte>)
    requires Letters(group)
    ensures Printable(Tree(group)) && Print(Tree(group), 0, false) == Text(group)
  {
    hide Print, PrintMembers, PrintItems, PrintString, Quote, ServiceText, Service;
    QuoteIsPrinted("host");
    QuoteIsPrinted("h");
    QuoteIsPrinted("port");
    QuoteIsPrinted("group");
    QuoteIsPrinted(group);
    QuoteIsPrinted("services");
    ServiceIsPrinted(2);
    OneIsPrinted(1);
    StringIsPrinted("h", 1);
    StringIsPrinted(group, 1);
    var items := Item(Service(), NoItem);
    var services := Member("services", Array(items), NoMember);
    var fromGroup := Member("group", String(group), services);
    var fromPort := Member("port", Number(1.0), fromGroup);
    var members := Member("host", String("h"), fromPort);
    PlainItems(items, 2);
    ArrayIsPrinted(items, 1);
    PlainMembers(services, 1);
    PlainMembers(fromGroup, 1);
    PlainMembers(fromPort, 1);
    PlainMembers(members, 1);
    PlainObject(members, 0);
  }

  lemma ArrayIsPrinted(items: Items, depth: nat)
    requires PrintableItems(items)
    ensures Print(Array(items), depth, false) == "[" + PrintItems(items, depth + 1, false) + "]"
  {
    hide PrintItems;
  }

  /** What the agent reads from the published text. */
  function Provider(group: string): Description
  {
    Description(group, "h", 1, [("s", "1")])
  }

  lemma NamesDiffer(a: string, b: string)
    requires a != [] && b != [] && Lower(a[0]) != Lower(b[0])
    ensures !SameIgnoringCase(a, b)
  {
  }

  lemma ServiceIsRead()
    ensures GetServices(Item(Service(), NoItem)) == Some([("s", "1")])
  {
    NamesDiffer("service", "version");
    assert GetString(Service(), "service") == Some("s");
    assert GetString(Service(), "version") == Some("1");
    assert GetServices(NoItem) == Some([]);
    assert [("s", "1")] + [] == [("s", "1")];
  }

  lemma TreeIsDescribed(group: string)
    ensures Describe(Tree(group)) == Some(Provider(group))
  {
    hide SameIgnoringCase, GetServices, Service;
    ServiceIsRead();
    SameNames("host");
    SameNames("port");
    SameNames("group");
    SameNames("services");
    NamesDiffer("host", "port");
    NamesDiffer("host", "group");
    NamesDiffer("port", "group");
    NamesDiffer("host", "services");
    NamesDiffer("port", "services");
    NamesDiffer("group", "services");
    var services := Member("services", Array(Item(Service(), NoItem)), NoMember);
    var fromGroup := Member("group", String(group), services);
    var fromPort := Member("port", Number(1.0), fromGroup);
    assert FindMember(fromGroup, "services") == Some(services.child);
    assert FindMember(fromPort, "services") == Some(services.child);
    assert FindMember(fromPort, "port") == Some(Number(1.0));
    assert FindMember(fromPort, "group") == Some(String(group));
    assert (1.0).Floor == 1;
    var root := Tree(group);
    assert GetObjectItem(root, "host") == Some(String("h"));
    assert GetObjectItem(root, "port") == Some(Number(1.0));
    assert GetObjectItem(root, "group") == Some(String(group));
    assert GetObjectItem(root, "services") == Some(services.child);
    assert ChildNodes(services.child) == Item(Service(), NoItem);
    assert ValueInt(Number(1.0)) == 1;
  }

  lemma SameNames(a: string)
    ensures SameIgnoringCase(a, a)
  {
  }

  lemma {:induction false} TextIsRead(group: seq<byte>)
    requires Letters(group)
    ensures ReadChild(Url.Encode(Text(group))) == Described(Provider(group))
  {
    hide Describe, ReadChild, Print, Text, Tree;
    TreeIsPrinted(group);
    PublishedTreeIsRead(Tree(group), false, Text(group));
    TreeIsDescribed(group);
  }

  /** What the agent registers of it; the group is cut to its field. */
  function Registration(group: string): RegisterInfo
  {
    RegisterInfo(ServiceInfo(Truncate(group, FIELD_GROUP_LEN), "s", "1"), "h", 1)
  }

  /** The service is declared; a provider publishes it, and withdraws it again. */
  function Declared(group: seq<byte>): seq<D.Event>
  {
    [D.Declare(group, "s", "1")]
  }

  function Published(group: seq<byte>): seq<D.Event>
  {
    Declared(group) + [D.Providers(group, [Url.Encode(Text(group))])]
  }

  function Withdrawn(group: seq<byte>): seq<D.Event>
  {
    Published(group) + [D.Providers(group, [])]
  }

  lemma SnapshotOfOne(group: seq<byte>)
    requires Letters(group)
    ensures SnapshotOf([Registration(group).srv], D.Children([Url.Encode(Text(group))]))
              == Some([Registration(group)])
  {
    hide ReadChild, Text;
    TextIsRead(group);
    var name: seq<byte> := Url.Encode(Text(group));
    assert [name][..0] == [];
    assert D.Children([name]) == [Described(Provider(group))];
    var filters, d := [Registration(group).srv], Provider(group);
    assert PadIn(d, 0) == Registration(group);
    assert Collect(filters, d, 1, [Registration(group)]) == [Registration(group)];
    assert [] + [Registration(group)] == [Registration(group)];
    assert Collect(filters, d, 0, []) == [Registration(group)];
    assert [Described(d)][..0] == [];
    assert SnapshotOf(filters, []) == None;
    assert SnapshotOf(filters, [Described(d)]) == WithChild(filters, None, Described(d));
  }

  lemma AfterDeclared(group: seq<byte>)
    ensures D.Run(Declared(group)) == D.INITIAL.(filters := [Registration(group).srv])
  {
    assert Declared(group)[..0] == [];
  }

  lemma {:induction false} AfterPublished(group: seq<byte>)
    requires Letters(group)
    ensures var s, r := D.Run(Published(group)), Registration(group);
            Routes(s.tables, ServiceKey(r.srv), NodeKey(r)) && s.filters == [r.srv]
  {
    hide ServiceKey, NodeKey, ProviderKey, Text, SnapshotOf;
    var e := D.Providers(group, [Url.Encode(Text(group))]);
    assert Published(group)[..1] == Declared(group);
    AfterDeclared(group);
    SnapshotOfOne(group);
    var r := Registration(group);
    assert [r][1..] == [];
    assert Missing([r], [], 1) == [Change(r, 1)];
    assert Missing([], [r], -1) == [];
    var left, right: Snapshot := None, Some([r]);
    assert Elements(left) == [] && Elements(right) == [r];
    assert [] + [Change(r, 1)] == [Change(r, 1)];
    assert Diff(left, right) == Some([Change(r, 1)]);
    var t := D.INITIAL.tables;
    assert [Change(r, 1)][1..] == [];
    assert NotifyAll(t, [Change(r, 1)]) == NotifyAll(Notify(t, Change(r, 1)), []);
  }

  /** No group has a snapshot once the list is empty again. */
  lemma NothingIsLatest(group: seq<byte>, g: string)
    ensures D.Latest(Withdrawn(group), g) == None
  {
    hide SnapshotOf, Text;
    var es := Withdrawn(group);
    assert es[..2] == Published(group);
    assert Published(group)[..1] == Declared(group);
    assert Declared(group)[..0] == [];
    assert D.Latest(Declared(group), g) == None;
    NoSnapshot(D.FiltersAfter(Published(group)));
  }

  lemma NoSnapshot(filters: seq<ServiceInfo>)
    ensures SnapshotOf(filters, D.Children([])) == None
  {
  }

  lemma {:induction false} EventsAreGood(group: seq<byte>, i: nat)
    requires Letters(group) && |group| <= 48 && i < |Withdrawn(group)|
    ensures D.GoodEvent(Withdrawn(group)[i])
  {
    hide ReadChild, Text;
    TextIsRead(group);
    assert '#' !in "s" && '#' !in group;
  }

  /**
   A service that was published and withdrawn: the group has no snapshot any more, and its route is gone
   exactly when the group's provider key fits its field.
   */
  lemma {:induction false} RouteOutlivesItsProvider(group: seq<byte>)
    requires Letters(group)
    ensures var es, r := Withdrawn(group), Registration(group);
            && D.Latest(es, group) == None
            && (Routes(D.Run(es).tables, ServiceKey(r.srv), NodeKey(r)) <==> |ProviderKey(group)| >= PROVIDER_KEY_LEN)
  {
    hide ServiceKey, NodeKey, Routes, D.Run, D.Latest, Text, D.GoodEvent;
    var es, r := Withdrawn(group), Registration(group);
    NothingIsLatest(group, group);
    if |group| >= 49 {
      LongKeyIsCut(group);
      AfterPublished(group);
      LongGroupNeverDeletes(Published(group), group, [], ServiceKey(r.srv), NodeKey(r));
    } else {
      forall i | 0 <= i < |es|
        ensures D.GoodEvent(es[i])
      {
        EventsAreGood(group, i);
      }
      D.RoutesAreRegistrations(es);
      forall q
        ensures !D.Known(es, q)
      {
        NothingIsKnown(group, q);
      }
    }
  }

  lemma NothingIsKnown(group: seq<byte>, r: RegisterInfo)
    ensures !D.Known(Withdrawn(group), r)
  {
    hide D.Latest, Withdrawn;
    forall g
      ensures D.Latest(Withdrawn(group), g) == None
    {
      NothingIsLatest(group, g);
    }
  }
}
