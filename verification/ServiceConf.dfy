/**
 Registrations: the keys they are stored under, how a child node is turned into the
 registrations an agent cares about, and the difference of two snapshots
 (soaagent/service_conf.c, soaagent/service_conf.h).
 */
module ServiceConf {
  import opened CString
  import opened Decimal
  import opened Json
  import JsonString
  import JsonMinify
  import JsonTexts
  import MinifyTexts
  import Url

  const FIELD_HOST_LEN := 20
  const FIELD_GROUP_LEN := 50
  const FIELD_SERVICE_LEN := 30
  const FIELD_VERSION_LEN := 20
  const SERVICE_KEY_LEN := FIELD_GROUP_LEN + FIELD_SERVICE_LEN + FIELD_VERSION_LEN
  const NODE_KEY_LEN := FIELD_HOST_LEN + 6
  const PROVIDER_KEY_LEN := FIELD_GROUP_LEN + 10

  datatype ServiceInfo = ServiceInfo(group: string, service: string, version: string)

  datatype RegisterInfo = RegisterInfo(srv: ServiceInfo, host: string, port: int)

  /** service_filter_padding: every field cut to its array. */
  function PadService(group: string, service: string, version: string): ServiceInfo
  {
    ServiceInfo(Truncate(group, FIELD_GROUP_LEN), Truncate(service, FIELD_SERVICE_LEN),
                Truncate(version, FIELD_VERSION_LEN))
  }

  /** register_info_padding */
  function PadRegister(group: string, service: string, version: string, host: string, port: int): RegisterInfo
  {
    RegisterInfo(PadService(group, service, version), Truncate(host, FIELD_HOST_LEN), port)
  }

  // ----- keys -----

  /** node_resource_construct_key */
  function NodeKey(r: RegisterInfo): string
  {
    Truncate(r.host + "#" + Format(r.port), NODE_KEY_LEN)
  }

  /** service_resource_construct_key */
  function ServiceKey(s: ServiceInfo): string
  {
    Truncate(s.group + "#" + (s.service + "#" + s.version), SERVICE_KEY_LEN)
  }

  /** provider_construct_key, into a buffer of MAX_NODE_PATH_LEN bytes. */
  function ProviderKey(group: string): string
  {
    Truncate("/" + group + "/providers", Url.MAX_NODE_PATH_LEN)
  }

  /** What keeps keys apart: no separator in group and service, fields that fit, a port of at most five digits. */
  predicate Clean(r: RegisterInfo)
  {
    && '#' !in r.srv.group && '#' !in r.srv.service
    && |r.srv.group| < FIELD_GROUP_LEN && |r.srv.service| < FIELD_SERVICE_LEN && |r.srv.version| < FIELD_VERSION_LEN
    && |r.host| < FIELD_HOST_LEN
    && -9999 <= r.port <= 99999
  }

  function BeforeFirst(s: string): string
  {
    if s == [] || s[0] == '#' then [] else [s[0]] + BeforeFirst(s[1..])
  }

  function AfterLast(s: string): string
  {
    if '#' !in s then s else AfterLast(s[1..])
  }

  lemma {:induction false} FirstPart(a: string, x: string)
    requires '#' !in a
    ensures BeforeFirst(a + "#" + x) == a && (a + "#" + x)[|a| + 1..] == x
  {
    if a == [] {
    } else {
      assert (a + "#" + x)[1..] == a[1..] + "#" + x;
      FirstPart(a[1..], x);
      assert a == [a[0]] + a[1..];
    }
  }

  lemma {:induction false} LastPart(x: string, a: string)
    requires '#' !in a
    ensures AfterLast(x + "#" + a) == a && (x + "#" + a)[..|x|] == x
  {
    var s := x + "#" + a;
    assert s[|x|] == '#';
    if x == [] {
      assert s[1..] == a;
    } else {
      assert s[1..] == x[1..] + "#" + a;
      LastPart(x[1..], a);
    }
  }

  lemma FirstSeparator(a: string, x: string, b: string, y: string)
    requires '#' !in a && '#' !in b && a + "#" + x == b + "#" + y
    ensures a == b && x == y
  {
    FirstPart(a, x);
    FirstPart(b, y);
  }

  lemma LastSeparator(x: string, a: string, y: string, b: string)
    requires '#' !in a && '#' !in b && x + "#" + a == y + "#" + b
    ensures a == b && x == y
  {
    LastPart(x, a);
    LastPart(y, b);
    assert |x| == |x + "#" + a| - 1 - |a| == |y|;
  }

  lemma NumeralHasNoSeparator(n: int)
    ensures '#' !in Format(n)
  {
    FormatChars(n);
  }

  /** The service key and node key of a clean registration determine it. */
  lemma {:induction false} KeysDetermine(q: RegisterInfo, r: RegisterInfo)
    requires Clean(q) && Clean(r)
    requires ServiceKey(q.srv) == ServiceKey(r.srv) && NodeKey(q) == NodeKey(r)
    ensures q == r
  {
    hide Format;
    FirstSeparator(q.srv.group, q.srv.service + "#" + q.srv.version, r.srv.group, r.srv.service + "#" + r.srv.version);
    FirstSeparator(q.srv.service, q.srv.version, r.srv.service, r.srv.version);
    ShortNumeral(q.port);
    ShortNumeral(r.port);
    NumeralHasNoSeparator(q.port);
    NumeralHasNoSeparator(r.port);
    LastSeparator(q.host, Format(q.port), r.host, Format(r.port));
    FormatInjective(q.port, r.port);
  }

  /** A provider key that was not cut belongs to one group. */
  lemma ProviderKeyInjective(a: string, b: string)
    requires ProviderKey(a) == ProviderKey(b) && |ProviderKey(a)| < Url.MAX_NODE_PATH_LEN - 1
    ensures a == b
  {
    var p, q := "/" + a + "/providers", "/" + b + "/providers";
    assert p == q;
    assert a == p[1..|a| + 1] && b == q[1..|b| + 1];
  }

  /** A provider's node is a child of the path that agents of its group watch. */
  lemma PublishedIsWatched(group: seq<byte>, description: seq<byte>)
    requires |group| + 12 + |Url.Encode(description)| < 10852
    ensures Url.NodePath(group, description) == ProviderKey(group) + "/" + Url.Encode(description)
  {
    hide Url.Encode;
    assert "/" + group + "/providers/" + Url.Encode(description)
        == ("/" + group + "/providers") + "/" + Url.Encode(description);
  }

  // ----- children -----

  /** A provider's description of itself. */
  datatype Description = Description(group: string, host: string, port: int, services: seq<(string, string)>)

  /** tolower of the C locale. */
  function Lower(c: char): char
  {
    if 'A' <= c <= 'Z' then (c as int + 32) as char else c
  }

  /** cJSON_strcasecmp(a, b) == 0 */
  predicate SameIgnoringCase(a: string, b: string)
  {
    |a| == |b| && forall i | 0 <= i < |a| :: Lower(a[i]) == Lower(b[i])
  }

  /** The first member of that name, as cJSON_GetObjectItem finds it. */
  function FindMember(members: Members, name: string): Option<Json>
  {
    if members.NoMember? then None
    else if SameIgnoringCase(members.name, name) then Some(members.child)
    else FindMember(members.following, name)
  }

  /** cJSON_GetObjectItem; the children of other nodes have no names. */
  function GetObjectItem(v: Json, name: string): Option<Json>
  {
    if v.Object? then FindMember(v.members, name) else None
  }

  /** Its valuestring, if it is a string node. */
  function GetString(v: Json, name: string): Option<string>
  {
    var item := GetObjectItem(v, name);
    if item.Some? && item.value.String? then Some(item.value.s) else None
  }

  /** The name and version of every service; none if one of them lacks a field that is dereferenced. */
  function GetServices(items: Items): Option<seq<(string, string)>>
  {
    if items.NoItem? then Some([])
    else
      var name, version := GetString(items.head, "service"), GetString(items.head, "version");
      var rest := GetServices(items.next);
      if name.Some? && version.Some? && rest.Some? then Some([(name.value, version.value)] + rest.value) else None
  }

  /** valueint: a number without its fraction, 1 for true, 0 in every other node. */
  function ValueInt(v: Json): int
  {
    match v
    case Number(x) => if x >= 0.0 then x.Floor else -((-x).Floor)
    case True => 1
    case _ => 0
  }

  /** The children that cJSON_GetArraySize and cJSON_GetArrayItem walk; only arrays and objects have any. */
  function ChildNodes(v: Json): Items
  {
    match v
    case Array(items) => items
    case Object(members) => Values(members)
    case _ => NoItem
  }

  function Values(members: Members): Items
  {
    if members.NoMember? then NoItem else Item(members.child, Values(members.following))
  }

  function StringOr(v: Json, other: string): string
  {
    if v.String? then v.s else other
  }

  /**
   The fields that parse_node_register_info reads; none if it dereferences one that is missing, or
   prints a string that is none.  Without services, group and host are looked up but not printed.
   */
  function Describe(root: Json): Option<Description>
  {
    var host, port, group := GetObjectItem(root, "host"), GetObjectItem(root, "port"), GetObjectItem(root, "group");
    var services := GetObjectItem(root, "services");
    if host.None? || port.None? || group.None? || services.None? then None
    else
      var children := ChildNodes(services.value);
      var list := GetServices(children);
      if list.None? || (children.Item? && !(host.value.String? && group.value.String?)) then None
      else Some(Description(StringOr(group.value, ""), StringOr(host.value, ""), ValueInt(port.value), list.value))
  }

  /**
   A child of a provider path: not JSON, a text whose end the parser runs past, JSON without the fields
   that are dereferenced, or a description.
   */
  datatype Child = NotJson | CutOff | Incomplete | Described(d: Description)

  function UpToNul(s: string): string
  {
    if s == [] || s[0] == '\0' then [] else [s[0]] + UpToNul(s[1..])
  }

  function ReadDescription(text: string): Child
  {
    var root := ParseWithOpts(text, false);
    if root.Fail? then NotJson
    else if root.Overrun? then CutOff
    else
      var d := Describe(root.value);
      if d.Some? then Described(d.value) else Incomplete
  }

  /** url_decode and the reading part of parse_node_register_info. */
  function ReadChild(name: seq<byte>): Child
  {
    ReadDescription(UpToNul(Url.Decode(name)))
  }

  lemma {:induction false} UpToNulStays(s: string)
    requires JsonString.NoNul(s)
    ensures UpToNul(s) == s
  {
    if s != [] {
      UpToNulStays(s[1..]);
      assert s == [s[0]] + s[1..];
    }
  }

  /** A description published under its URL-encoded text is read by the agent as the text itself. */
  lemma {:induction false} PublishedIsRead(text: seq<byte>)
    requires JsonString.NoNul(text)
    ensures ReadChild(Url.Encode(text)) == ReadDescription(text)
  {
    hide ReadDescription;
    Url.DecodeEncode(text);
    UpToNulStays(text);
  }

  /** From a value tree through printing, URL coding and parsing back: nothing is lost. */
  lemma {:induction false} PublishedTreeIsRead(v: Json, fmt: bool, text: seq<byte>)
    requires Printable(v) && text == Print(v, 0, fmt)
    ensures ReadChild(Url.Encode(text)) == match Describe(v) case Some(d) => Described(d) case None => Incomplete
  {
    hide Describe, ReadChild;
    PrintNoNul(v, 0, fmt);
    PublishedIsRead(text);
    ParseRendering(v, fmt, false);
  }

  /** A published text that is accepted is read alike when it is printed anew, in either rendering. */
  lemma {:induction false} ReprintedIsReadAlike(text: seq<byte>, again: seq<byte>, fmt: bool)
    requires JsonString.NoNul(text) && ParseWithOpts(text, false).Ok?
    requires JsonTexts.IntNumbers(ParseWithOpts(text, false).value)
    requires Printable(ParseWithOpts(text, false).value) ==> again == Print(ParseWithOpts(text, false).value, 0, fmt)
    ensures ReadChild(Url.Encode(again)) == ReadChild(Url.Encode(text))
  {
    hide Describe, ReadChild, ParseWithOpts, JsonTexts.IntNumbers, Print;
    JsonTexts.AcceptedIsReprinted(text, false, fmt, false);
    PrintNoNul(ParseWithOpts(text, false).value, 0, fmt);
    PublishedIsRead(text);
    PublishedIsRead(again);
  }

  /** A published text that is accepted up to its end, with whole literals, is read alike when it is minified. */
  lemma {:induction false} MinifiedIsReadAlike(text: seq<byte>, again: seq<byte>)
    requires JsonString.NoNul(text) && MinifyTexts.WholeLiterals(text) && ParseWithOpts(text, true).Ok?
    requires JsonMinify.Minify(text).Some? ==> again == JsonMinify.Minify(text).value
    ensures ReadChild(Url.Encode(again)) == ReadChild(Url.Encode(text))
  {
    hide Describe, ReadChild, ParseValue, JsonMinify.Minify, MinifyTexts.WholeLiterals;
    MinifyTexts.MinifiedIsAccepted(text);
    MinifyTexts.MinifyNoNul(text);
    PublishedIsRead(text);
    PublishedIsRead(again);
  }

  // ----- filters and snapshots -----

  /** service_filter_find */
  method ServiceFilterFind(filters: seq<ServiceInfo>, info: ServiceInfo) returns (found: bool)
    ensures found == (info in filters)
  {
    var p := 0;
    while p < |filters|
      invariant 0 <= p <= |filters| && info !in filters[..p]
    {
      if filters[p].group == info.group && filters[p].service == info.service && filters[p].version == info.version {
        return true;
      }
      p := p + 1;
    }
    return false;
  }

  /** find_register_info */
  method FindRegisterInfo(infos: seq<RegisterInfo>, r: RegisterInfo) returns (found: bool)
    ensures found == (r in infos)
  {
    var p := 0;
    while p < |infos|
      invariant 0 <= p <= |infos| && r !in infos[..p]
    {
      if infos[p].srv.group == r.srv.group && infos[p].srv.service == r.srv.service
         && infos[p].srv.version == r.srv.version && infos[p].host == r.host && infos[p].port == r.port {
        return true;
      }
      p := p + 1;
    }
    return false;
  }

  function PadIn(d: Description, i: nat): RegisterInfo
    requires i < |d.services|
  {
    PadRegister(d.group, d.services[i].0, d.services[i].1, d.host, d.port)
  }

  /** The registrations of d from service i on that pass the filters, appended without repeats. */
  function Collect(filters: seq<ServiceInfo>, d: Description, i: nat, result: seq<RegisterInfo>): seq<RegisterInfo>
    requires i <= |d.services|
    decreases |d.services| - i
  {
    if i == |d.services| then result
    else
      var r := PadIn(d, i);
      Collect(filters, d, i + 1, if r.srv in filters && r !in result then result + [r] else result)
  }

  /** A snapshot is NULL until a child has been parsed. */
  type Snapshot = Option<seq<RegisterInfo>>

  function Elements(s: Snapshot): seq<RegisterInfo>
  {
    if s.Some? then s.value else []
  }

  /** parse_node_register_info on one child; the snapshot is left alone when the child is no JSON. */
  function WithChild(filters: seq<ServiceInfo>, s: Snapshot, c: Child): Snapshot
  {
    if c.Described? then Some(Collect(filters, c.d, 0, Elements(s))) else s
  }

  /** The snapshot of a child list. */
  function SnapshotOf(filters: seq<ServiceInfo>, children: seq<Child>): Snapshot
  {
    if children == [] then None
    else WithChild(filters, SnapshotOf(filters, children[..|children| - 1]), children[|children| - 1])
  }

  /** The filtering loop of parse_node_register_info. */
  method ParseNode(filters: seq<ServiceInfo>, s: Snapshot, d: Description) returns (result: seq<RegisterInfo>)
    ensures Some(result) == WithChild(filters, s, Described(d))
  {
    result := if s.Some? then s.value else [];
    var j := 0;
    while j < |d.services|
      invariant 0 <= j <= |d.services|
      invariant Collect(filters, d, j, result) == Collect(filters, d, 0, Elements(s))
    {
      hide PadRegister;
      var r := PadIn(d, j);
      var matched := ServiceFilterFind(filters, r.srv);
      if matched {
        var found := FindRegisterInfo(result, r);
        if !found {
          result := result + [r];
        }
      }
      j := j + 1;
    }
  }

  /** d registers r with one of its services from i on, and the filters pass it. */
  ghost predicate Offers(filters: seq<ServiceInfo>, d: Description, i: nat, r: RegisterInfo)
  {
    exists k | i <= k < |d.services| :: r == PadIn(d, k) && r.srv in filters
  }

  lemma OffersNext(filters: seq<ServiceInfo>, d: Description, i: nat, r: RegisterInfo)
    requires i < |d.services|
    ensures Offers(filters, d, i, r) <==> (r == PadIn(d, i) && r.srv in filters) || Offers(filters, d, i + 1, r)
  {
    hide PadIn;
  }

  lemma OffersEnd(filters: seq<ServiceInfo>, d: Description, r: RegisterInfo)
    ensures !Offers(filters, d, |d.services|, r)
  {
  }

  lemma DistinctMore(s: seq<RegisterInfo>, r: RegisterInfo)
    requires Distinct(s) && r !in s
    ensures Distinct(s + [r])
  {
  }

  lemma {:induction false} CollectDistinct(filters: seq<ServiceInfo>, d: Description, i: nat, result: seq<RegisterInfo>)
    requires i <= |d.services| && Distinct(result)
    ensures Distinct(Collect(filters, d, i, result))
    decreases |d.services| - i
  {
    hide PadIn;
    if i == |d.services| {
    } else {
      var q := PadIn(d, i);
      if q !in result {
        DistinctMore(result, q);
      }
      hide Distinct;
      CollectDistinct(filters, d, i + 1, if q.srv in filters && q !in result then result + [q] else result);
    }
  }

  /** Exactly the filtered registrations are collected. */
  lemma {:induction false} CollectMember(filters: seq<ServiceInfo>, d: Description, i: nat, result: seq<RegisterInfo>,
                                         r: RegisterInfo)
    requires i <= |d.services|
    ensures r in Collect(filters, d, i, result) <==> r in result || Offers(filters, d, i, r)
    decreases |d.services| - i
  {
    hide PadIn, Offers;
    if i == |d.services| {
      OffersEnd(filters, d, r);
    } else {
      var q := PadIn(d, i);
      var next := if q.srv in filters && q !in result then result + [q] else result;
      CollectMember(filters, d, i + 1, next, r);
      OffersNext(filters, d, i, r);
    }
  }

  /** A child of that list registers r and the filters pass it. */
  ghost predicate RegisteredBy(filters: seq<ServiceInfo>, children: seq<Child>, r: RegisterInfo)
  {
    exists c :: c in children && c.Described? && Offers(filters, c.d, 0, r)
  }

  /** A snapshot holds exactly what its children register and the filters pass, none of it twice. */
  lemma {:induction false} SnapshotElements(filters: seq<ServiceInfo>, children: seq<Child>)
    ensures var s := Elements(SnapshotOf(filters, children));
            Distinct(s) && forall r :: r in s <==> RegisteredBy(filters, children, r)
    decreases |children|
  {
    hide Offers, Collect;
    if children == [] {
    } else {
      var init, c := children[..|children| - 1], children[|children| - 1];
      assert children == init + [c];
      SnapshotElements(filters, init);
      if c.Described? {
        CollectDistinct(filters, c.d, 0, Elements(SnapshotOf(filters, init)));
      }
      forall r
        ensures r in Elements(SnapshotOf(filters, children)) <==> RegisteredBy(filters, children, r)
      {
        if c.Described? {
          CollectMember(filters, c.d, 0, Elements(SnapshotOf(filters, init)), r);
        }
        RegisteredByLast(filters, init, c, r);
      }
    }
  }

  lemma RegisteredByLast(filters: seq<ServiceInfo>, init: seq<Child>, c: Child, r: RegisterInfo)
    ensures RegisteredBy(filters, init + [c], r)
       <==> RegisteredBy(filters, init, r) || (c.Described? && Offers(filters, c.d, 0, r))
  {
    hide Offers;
    var all := init + [c];
    assert c in all && forall b :: b in init ==> b in all;
    if RegisteredBy(filters, all, r) {
      var b :| b in all && b.Described? && Offers(filters, b.d, 0, r);
      if b !in init {
        assert b == c;
      }
    }
  }

  // ----- difference of snapshots -----

  /** A register_info whose status says what happened to it. */
  datatype Change = Change(info: RegisterInfo, status: int)

  /** The entries of `from` that `other` lacks, marked. */
  function Missing(from: seq<RegisterInfo>, other: seq<RegisterInfo>, status: int): seq<Change>
  {
    if from == [] then []
    else (if from[0] in other then [] else [Change(from[0], status)]) + Missing(from[1..], other, status)
  }

  /** diff_register_info */
  function Diff(left: Snapshot, right: Snapshot): Option<seq<Change>>
  {
    if left.None? && right.None? then None
    else Some(Missing(Elements(left), Elements(right), -1) + Missing(Elements(right), Elements(left), 1))
  }

  /** One of the two scanning loops of diff_register_info. */
  method MissingLoop(from: seq<RegisterInfo>, other: seq<RegisterInfo>, status: int, start: seq<Change>)
    returns (result: seq<Change>)
    ensures result == start + Missing(from, other, status)
  {
    result := start;
    var p := 0;
    assert from[0..] == from;
    while p < |from|
      invariant 0 <= p <= |from|
      invariant result + Missing(from[p..], other, status) == start + Missing(from, other, status)
    {
      assert from[p..][1..] == from[p + 1..];
      var found := FindRegisterInfo(other, from[p]);
      if !found {
        result := result + [Change(from[p], status)];
      }
      p := p + 1;
    }
  }

  /** copy_register_info */
  method CopyLoop(src: seq<RegisterInfo>, status: int) returns (dest: seq<Change>)
    ensures dest == Missing(src, [], status)
  {
    dest := [];
    var p := 0;
    assert src[0..] == src;
    while p < |src|
      invariant 0 <= p <= |src|
      invariant dest + Missing(src[p..], [], status) == Missing(src, [], status)
    {
      assert src[p..][1..] == src[p + 1..];
      dest := dest + [Change(src[p], status)];
      p := p + 1;
    }
  }

  lemma NothingMissing(l: seq<RegisterInfo>, r: seq<RegisterInfo>)
    ensures Missing(l, [], -1) + Missing([], l, 1) == Missing(l, [], -1)
    ensures Missing([], r, -1) + Missing(r, [], 1) == Missing(r, [], 1)
    ensures [] + Missing(l, r, -1) == Missing(l, r, -1)
  {
  }

  /** diff_register_info, with its four cases. */
  method DiffRegisterInfo(left: Snapshot, right: Snapshot) returns (result: Option<seq<Change>>)
    ensures result == Diff(left, right)
  {
    if left.None? && right.None? {
      return None;
    }
    NothingMissing(Elements(left), Elements(right));
    var changes;
    if left.Some? && right.None? {
      changes := CopyLoop(left.value, -1);
    } else if left.None? && right.Some? {
      changes := CopyLoop(right.value, 1);
    } else {
      changes := MissingLoop(left.value, right.value, -1, []);
      changes := MissingLoop(right.value, left.value, 1, changes);
    }
    return Some(changes);
  }

  function ChangedBy(s: set<RegisterInfo>, c: Change): set<RegisterInfo>
  {
    if c.status == -1 then s - {c.info} else if c.status == 1 then s + {c.info} else s
  }

  /** The set of registrations after a list of changes. */
  function Changed(s: set<RegisterInfo>, cs: seq<Change>): set<RegisterInfo>
    decreases |cs|
  {
    if cs == [] then s else Changed(ChangedBy(s, cs[0]), cs[1..])
  }

  /** Every change takes effect: it removes something present or adds something absent. */
  ghost predicate Effective(s: set<RegisterInfo>, cs: seq<Change>)
    decreases |cs|
  {
    cs == []
    || (&& ((cs[0].status == -1 && cs[0].info in s) || (cs[0].status == 1 && cs[0].info !in s))
        && Effective(ChangedBy(s, cs[0]), cs[1..]))
  }

  function ToSet(s: seq<RegisterInfo>): set<RegisterInfo>
  {
    set r | r in s
  }

  lemma {:induction false} ChangedConcat(s: set<RegisterInfo>, cs: seq<Change>, ds: seq<Change>)
    ensures Changed(s, cs + ds) == Changed(Changed(s, cs), ds)
    ensures Effective(s, cs) && Effective(Changed(s, cs), ds) ==> Effective(s, cs + ds)
    decreases |cs|
  {
    if cs == [] {
      assert cs + ds == ds;
    } else {
      assert (cs + ds)[1..] == cs[1..] + ds;
      ChangedConcat(ChangedBy(s, cs[0]), cs[1..], ds);
    }
  }

  /** Removing what is missing elsewhere. */
  lemma {:induction false} MissingRemoved(s: set<RegisterInfo>, from: seq<RegisterInfo>, other: seq<RegisterInfo>)
    requires Distinct(from) && forall r | r in from :: r in s
    ensures Effective(s, Missing(from, other, -1))
    ensures Changed(s, Missing(from, other, -1)) == s - (ToSet(from) - ToSet(other))
    decreases |from|
  {
    if from == [] {
    } else {
      var rest := from[1..];
      assert from == [from[0]] + rest;
      assert from[0] !in rest;
      if from[0] in other {
        MissingRemoved(s, rest, other);
        assert Missing(from, other, -1) == Missing(rest, other, -1);
      } else {
        MissingRemoved(s - {from[0]}, rest, other);
        assert Missing(from, other, -1)[1..] == Missing(rest, other, -1);
      }
    }
  }

  /** Adding what is missing here. */
  lemma {:induction false} MissingAdded(s: set<RegisterInfo>, from: seq<RegisterInfo>, other: seq<RegisterInfo>)
    requires Distinct(from) && forall r | r in from :: r in s ==> r in other
    ensures Effective(s, Missing(from, other, 1))
    ensures Changed(s, Missing(from, other, 1)) == s + (ToSet(from) - ToSet(other))
    decreases |from|
  {
    if from == [] {
    } else {
      var rest := from[1..];
      assert from == [from[0]] + rest;
      assert from[0] !in rest;
      if from[0] in other {
        MissingAdded(s, rest, other);
        assert Missing(from, other, 1) == Missing(rest, other, 1);
      } else {
        MissingAdded(s + {from[0]}, rest, other);
        assert Missing(from, other, 1)[1..] == Missing(rest, other, 1);
      }
    }
  }

  /**
   Applying the difference to any set that holds the left snapshot beside unrelated entries
   leaves the right snapshot beside them, and every change in it takes effect.
   */
  lemma {:induction false} DiffApplies(others: set<RegisterInfo>, left: Snapshot, right: Snapshot)
    requires Distinct(Elements(left)) && Distinct(Elements(right))
    requires others !! ToSet(Elements(left)) && others !! ToSet(Elements(right))
    requires Diff(left, right).Some?
    ensures Effective(others + ToSet(Elements(left)), Diff(left, right).value)
    ensures Changed(others + ToSet(Elements(left)), Diff(left, right).value) == others + ToSet(Elements(right))
  {
    hide Effective, Changed, Missing;
    var l, r := Elements(left), Elements(right);
    var s := others + ToSet(l);
    var s' := s - (ToSet(l) - ToSet(r));
    MissingRemoved(s, l, r);
    MissingAdded(s', r, l);
    ChangedConcat(s, Missing(l, r, -1), Missing(r, l, 1));
    assert s' + (ToSet(r) - ToSet(l)) == others + ToSet(r);
  }

  /** No registration is mentioned twice. */
  ghost predicate NoneTwice(cs: seq<Change>)
  {
    forall i, j | 0 <= i < j < |cs| :: cs[i].info != cs[j].info
  }

  lemma {:induction false} MissingEntries(from: seq<RegisterInfo>, other: seq<RegisterInfo>, status: int)
    requires Distinct(from)
    ensures NoneTwice(Missing(from, other, status))
    ensures forall c :: c in Missing(from, other, status) <==> c.status == status && c.info in from && c.info !in other
  {
    if from == [] {
    } else {
      var rest := from[1..];
      assert from == [from[0]] + rest;
      assert from[0] !in rest;
      MissingEntries(rest, other, status);
    }
  }

  /** A difference mentions exactly what was lost and what was gained, nothing twice. */
  lemma {:induction false} DiffEntries(left: Snapshot, right: Snapshot)
    requires Distinct(Elements(left)) && Distinct(Elements(right)) && Diff(left, right).Some?
    ensures var l, r, cs := Elements(left), Elements(right), Diff(left, right).value;
            && NoneTwice(cs)
            && forall c :: c in cs <==> (c.status == -1 && c.info in l && c.info !in r)
                                        || (c.status == 1 && c.info in r && c.info !in l)
  {
    hide Missing;
    MissingEntries(Elements(left), Elements(right), -1);
    MissingEntries(Elements(right), Elements(left), 1);
    var a, b := Missing(Elements(left), Elements(right), -1), Missing(Elements(right), Elements(left), 1);
    var cs := Diff(left, right).value;
    forall i, j | 0 <= i < j < |cs|
      ensures cs[i].info != cs[j].info
    {
      assert i < |a| ==> a[i] in a;
      assert j >= |a| ==> b[j - |a|] in b;
    }
  }
}
