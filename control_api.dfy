/**
  dbus.c: the control interface org.tizen.busactd that the daemon serves on
  /Org/Tizen/BusActD. Three methods: ListListeners describes the registry,
  AddSubscription adds a RUNTIME rule for a bus name, RemoveSubscription
  removes a RUNTIME rule by its subscription id. Replies are values; the
  GVariant encoding is not modelled.
*/
module ControlApi {
  import opened Wrappers
  import opened Types
  import opened Transport
  import opened Registry
  import opened MatchString
  import opened Busactd

  /** The G_DBUS_ERROR codes the handlers answer with. */
  datatype DBusError = NoMemory | InvalidArgs | UnknownMethod

  /** One entry of a match's a{sv} description; every value is a string. */
  datatype Prop = Prop(key: string, value: string)

  /** One entry of a{ua{sv}}: a match, keyed by its m_id. */
  datatype MatchEntry = MatchEntry(id: nat, props: seq<Prop>)

  /** One entry of a{sa{ua{sv}}}: a Listener's bus name and its matches. */
  datatype ListenerEntry = ListenerEntry(busname: string, matches: seq<MatchEntry>)

  /** The answer to a method call: a return value of one of the three signatures, or an error. */
  datatype Reply =
    | Listeners(entries: seq<ListenerEntry>)
    | SubscriptionId(id: nat)
    | Status(text: string)
    | Error(code: DBusError, message: string)

  /** The arguments of a call, as g_variant_get extracts them: (ss) for AddSubscription, (u) for RemoveSubscription. */
  datatype Parameters = Parameters(busname: Option<string>, subscription: Option<string>, id: nat)

  const ParametersMessage := "Failed to get busname or subscription from parameters."
  const ListenerMessage := "Failed to get new listener."
  const ZeroIdMessage := "Subscription ID has to be none 0."
  const NotFound := "not found"
  const NotAllowed := "not allowed: match type is not RUNTIME"
  const Removed := "removed"

  // ---------------------------------------------------------------------
  // ListListeners

  /** The Type entry of a match. */
  function TypeName(k: MatchType): (s: string)
    ensures s == "PERSISTENT" <==> k == Persistent
    ensures s == "RUNTIME" <==> k == Runtime
  {
    match k
    case Persistent => "PERSISTENT"
    case Runtime => assert "RUNTIME"[0] != "PERSISTENT"[0]; "RUNTIME"
  }

  /** The entry for one filter field: present only when the field is not NULL. */
  function Field(key: string, v: Option<string>): (ps: seq<Prop>)
    ensures |ps| <= 1
    ensures forall j | 0 <= j < |ps| :: v.Some? && ps[j] == Prop(key, v.value)
    ensures |ps| == 1 <==> v.Some?
  {
    if v.Some? then [Prop(key, v.value)] else []
  }

  /** The a{sv} description of a match: its non-NULL fields, in order, then its type. */
  function Props(m: MatchV): (ps: seq<Prop>)
    ensures |ps| > 0 && ps[|ps| - 1] == Prop("Type", TypeName(m.kind))
  {
    Field("Sender", m.filter.sender) + Field("Path", m.filter.path) + Field("Interface", m.filter.interface)
    + Field("Member", m.filter.member) + Field("Arg", m.filter.arg) + [Prop("Type", TypeName(m.kind))]
  }

  /** The value of the first entry with the given key: how a reader of an a{sv} looks a key up. */
  function Lookup(ps: seq<Prop>, key: string): (v: Option<string>)
  {
    if ps == [] then None
    else if ps[0].key == key then Some(ps[0].value)
    else Lookup(ps[1..], key)
  }

  /** Looking a key up in a concatenation: the first part wins. */
  lemma {:induction false} LookupAppend(a: seq<Prop>, b: seq<Prop>, key: string)
    ensures Lookup(a + b, key) == if Lookup(a, key).Some? then Lookup(a, key) else Lookup(b, key)
    decreases |a|
  {
    if a != [] {
      assert (a + b)[0] == a[0] && (a + b)[1..] == a[1..] + b;
      LookupAppend(a[1..], b, key);
    } else {
      assert a + b == b;
    }
  }

  /** A field's entry answers for its own key and for no other. */
  lemma FieldLookup(key: string, v: Option<string>, other: string)
    ensures Lookup(Field(key, v), key) == v
    ensures other != key ==> Lookup(Field(key, v), other).None?
  {
  }

  /** The first of two lookups that finds something. */
  function OrElse(x: Option<string>, y: Option<string>): (r: Option<string>)
    ensures r.Some? <==> x.Some? || y.Some?
  {
    if x.Some? then x else y
  }

  /** Lookup in a description, part by part. */
  lemma LookupParts(s: seq<Prop>, p: seq<Prop>, i: seq<Prop>, mb: seq<Prop>, a: seq<Prop>, t: seq<Prop>, key: string)
    ensures Lookup(s + p + i + mb + a + t, key)
            == OrElse(Lookup(s, key), OrElse(Lookup(p, key), OrElse(Lookup(i, key),
               OrElse(Lookup(mb, key), OrElse(Lookup(a, key), Lookup(t, key))))))
  {
    assert s + p + i + mb + a + t == s + (p + (i + (mb + (a + t))));
    LookupAppend(s, p + (i + (mb + (a + t))), key);
    LookupAppend(p, i + (mb + (a + t)), key);
    LookupAppend(i, mb + (a + t), key);
    LookupAppend(mb, a + t, key);
    LookupAppend(a, t, key);
  }

  /**
    Reading a description back gives the match: each of Sender, Path,
    Interface, Member and Arg is present exactly when the field is not
    NULL, with the field's value, and Type names the match type.
  */
  lemma PropsReadBack(m: MatchV)
    ensures Lookup(Props(m), "Sender") == m.filter.sender
    ensures Lookup(Props(m), "Path") == m.filter.path
    ensures Lookup(Props(m), "Interface") == m.filter.interface
    ensures Lookup(Props(m), "Member") == m.filter.member
    ensures Lookup(Props(m), "Arg") == m.filter.arg
    ensures Lookup(Props(m), "Type") == Some(TypeName(m.kind))
  {
    var f := m.filter;
    var s, p, i, mb, a := Field("Sender", f.sender), Field("Path", f.path), Field("Interface", f.interface),
                          Field("Member", f.member), Field("Arg", f.arg);
    var t := [Prop("Type", TypeName(m.kind))];
    LookupParts(s, p, i, mb, a, t, "Sender");
    LookupParts(s, p, i, mb, a, t, "Path");
    LookupParts(s, p, i, mb, a, t, "Interface");
    LookupParts(s, p, i, mb, a, t, "Member");
    LookupParts(s, p, i, mb, a, t, "Arg");
    LookupParts(s, p, i, mb, a, t, "Type");
  }

  /** The a{ua{sv}} of a match list: one entry per match, in list order, keyed by m_id. */
  function Describe(ms: seq<MatchV>): (ds: seq<MatchEntry>)
    ensures |ds| == |ms|
    ensures forall k | 0 <= k < |ms| :: ds[k] == MatchEntry(ms[k].mId, Props(ms[k]))
  {
    seq(|ms|, k requires 0 <= k < |ms| => MatchEntry(ms[k].mId, Props(ms[k])))
  }

  /** The entry of one Listener. */
  function EntryOf(l: ListenerV): ListenerEntry
  {
    ListenerEntry(l.busname, Describe(l.matches))
  }

  /** The ListListeners return value: the registry in order, skipping Listeners without matches. */
  function Listing(reg: seq<ListenerV>): (es: seq<ListenerEntry>)
    ensures |es| <= |reg|
    ensures forall j | 0 <= j < |es| :: es[j].matches != []
  {
    if reg == [] then []
    else (if reg[0].matches == [] then [] else [EntryOf(reg[0])]) + Listing(reg[1..])
  }

  /** An entry is listed exactly when it describes a Listener that has matches. */
  lemma {:induction false} ListingIff(reg: seq<ListenerV>, e: ListenerEntry)
    ensures e in Listing(reg) <==> exists j | 0 <= j < |reg| :: reg[j].matches != [] && e == EntryOf(reg[j])
  {
    if reg != [] {
      ListingIff(reg[1..], e);
      if e in Listing(reg[1..]) {
        var j :| 0 <= j < |reg[1..]| && reg[1..][j].matches != [] && e == EntryOf(reg[1..][j]);
        assert reg[j + 1] == reg[1..][j];
      }
      if exists j | 0 <= j < |reg| :: reg[j].matches != [] && e == EntryOf(reg[j]) {
        var j :| 0 <= j < |reg| && reg[j].matches != [] && e == EntryOf(reg[j]);
        if j > 0 {
          assert reg[1..][j - 1] == reg[j];
        }
      }
    }
  }

  /**
    Under the registry invariant every Listener has a match, so the listing
    has one entry per Listener, in registry order, and each match appears
    keyed by its m_id with its description.
  */
  lemma {:induction false} ListingOfSettled(reg: seq<ListenerV>)
    requires forall j | 0 <= j < |reg| :: reg[j].matches != []
    ensures |Listing(reg)| == |reg|
    ensures forall j | 0 <= j < |reg| :: Listing(reg)[j] == EntryOf(reg[j])
    ensures forall j: nat, k: nat | Located(reg, j, k) ::
              k < |Listing(reg)[j].matches| && Listing(reg)[j].matches[k] == MatchEntry(reg[j].matches[k].mId, Props(reg[j].matches[k]))
  {
    if reg != [] {
      ListingOfSettled(reg[1..]);
      assert forall j | 1 <= j < |reg| :: reg[j] == reg[1..][j - 1];
    }
  }

  // ---------------------------------------------------------------------
  // AddSubscription

  /**
    The m_id of the first match of Listener `name` whose filter is `f`: the
    id AddSubscription answers with for that name and rule.
  */
  function RuleId(reg: seq<ListenerV>, name: string, f: Filter): (r: Option<nat>)
    ensures r.Some? ==> IndexOf(reg, name).Some? && FirstSame(reg[IndexOf(reg, name).value].matches, f).Some?
    ensures r.Some? ==> r.value == reg[IndexOf(reg, name).value].matches[FirstSame(reg[IndexOf(reg, name).value].matches, f).value].mId
    ensures r.None? <==> IndexOf(reg, name).None? || FirstSame(reg[IndexOf(reg, name).value].matches, f).None?
  {
    match IndexOf(reg, name)
    case None => None
    case Some(i) =>
      match FirstSame(reg[i].matches, f)
      case None => None
      case Some(k) => Some(reg[i].matches[k].mId)
  }

  /** A Listener whose name is owned has no live rule: the id of any of its rules is 0. */
  lemma OwnedRuleIdZero(reg: seq<ListenerV>, n: nat, name: string, f: Filter)
    requires Inv(reg, n) && IndexOf(reg, name).Some? && reg[IndexOf(reg, name).value].owner == Owned
    requires RuleId(reg, name, f).Some?
    ensures RuleId(reg, name, f) == Some(0)
  {
    assert Settled(reg[IndexOf(reg, name).value]);
  }

  /** Filters decide FirstSame, so re-registration, which keeps every filter, keeps its answer. */
  lemma {:induction false} FirstSameRules(b: seq<MatchV>, a: seq<MatchV>, f: Filter)
    requires SameRules(b, a)
    ensures FirstSame(a, f) == FirstSame(b, f)
    decreases |a|
  {
    if a != [] {
      assert SameRules(b[1..], a[1..]);
      FirstSameRules(b[1..], a[1..], f);
    }
  }

  /** A filter that is not in a list is found, after it is appended, at the end. */
  lemma {:induction false} FirstSameAppended(ms: seq<MatchV>, m: MatchV)
    requires FirstSame(ms, m.filter).None?
    ensures FirstSame(ms + [m], m.filter) == Some(|ms|)
  {
    assert (ms + [m])[|ms|] == m;
  }

  /**
    What busactd_add_match builds, before the re-registration, when the
    Listener of `name` holds no rule with filter `f`: an unsubscribed rule
    tagged RUNTIME joins the end of the resident Listener's list, or, when
    the name is not resident, a new undecided Listener holding only that
    rule joins the end of the registry. The second component is the
    position then re-registered.
  */
  function AddedRule(reg: seq<ListenerV>, name: string, f: Filter): (r: (seq<ListenerV>, nat))
    ensures r.1 < |r.0| && r.0[r.1].busname == name
    ensures IndexOf(reg, name).Some? ==> r == (AppendMatch(reg, IndexOf(reg, name).value, MatchV(f, Runtime, 0)), IndexOf(reg, name).value)
    ensures IndexOf(reg, name).None? ==> r == Admit(reg, ListenerV(name, 0, Undecided, [MatchV(f, Runtime, 0)]))
  {
    match IndexOf(reg, name)
    case Some(i) => (AppendMatch(reg, i, MatchV(f, Runtime, 0)), i)
    case None => (reg + [ListenerV(name, 0, Undecided, [MatchV(f, Runtime, 0)])], |reg|)
  }

  /**
    Once the Listener holding the added rule is registered, the rule is the
    last of its list, the first with its filter, tagged RUNTIME, and its id
    is the one RuleId reports.
  */
  lemma AddedRuleFound(reg: seq<ListenerV>, after: seq<ListenerV>, name: string, f: Filter, owned: bool, n0: nat, n1: nat)
    requires RuleId(reg, name, f).None?
    requires RegisteredAt(AddedRule(reg, name, f).0, after, AddedRule(reg, name, f).1, owned, n0, n1)
    ensures IndexOf(after, name) == Some(AddedRule(reg, name, f).1)
    ensures |after[AddedRule(reg, name, f).1].matches| > 0
    ensures FirstSame(after[AddedRule(reg, name, f).1].matches, f) == Some(|after[AddedRule(reg, name, f).1].matches| - 1)
    ensures after[AddedRule(reg, name, f).1].matches[|after[AddedRule(reg, name, f).1].matches| - 1].kind == Runtime
    ensures RuleId(after, name, f) == Some(after[AddedRule(reg, name, f).1].matches[|after[AddedRule(reg, name, f).1].matches| - 1].mId)
  {
    var before := AddedRuleShape(reg, name, f);
    RuleAtEnd(AddedRule(reg, name, f).0, after, AddedRule(reg, name, f).1, name, before, MatchV(f, Runtime, 0), owned, n0, n1);
  }

  /**
    Before the re-registration, the added rule ends the list of the
    Listener of `name`, that Listener is the first of its name, and the
    rules before the added one (`before`) hold none with its filter.
  */
  lemma AddedRuleShape(reg: seq<ListenerV>, name: string, f: Filter) returns (before: seq<MatchV>)
    requires RuleId(reg, name, f).None?
    ensures IndexOf(AddedRule(reg, name, f).0, name) == Some(AddedRule(reg, name, f).1)
    ensures AddedRule(reg, name, f).0[AddedRule(reg, name, f).1].matches == before + [MatchV(f, Runtime, 0)]
    ensures FirstSame(before, f).None?
  {
    var (mid, p) := AddedRule(reg, name, f);
    before := if IndexOf(reg, name).Some? then reg[p].matches else [];
    assert mid[p].matches == before + [MatchV(f, Runtime, 0)];
    assert forall j | 0 <= j < p :: mid[j] == reg[j];
  }

  /** A rule appended after a list without its filter is found at the end, re-registration or not. */
  lemma RuleAtEnd(mid: seq<ListenerV>, after: seq<ListenerV>, p: nat, name: string, before: seq<MatchV>, mv: MatchV,
                  owned: bool, n0: nat, n1: nat)
    requires p < |mid| && IndexOf(mid, name) == Some(p) && mid[p].matches == before + [mv]
    requires FirstSame(before, mv.filter).None?
    requires RegisteredAt(mid, after, p, owned, n0, n1)
    ensures IndexOf(after, name) == Some(p) && |after[p].matches| == |before| + 1
    ensures FirstSame(after[p].matches, mv.filter) == Some(|before|) && after[p].matches[|before|].kind == mv.kind
    ensures RuleId(after, name, mv.filter) == Some(after[p].matches[|before|].mId)
  {
    FirstSameAppended(before, mv);
    IndexOfSameNames(mid, after, name);
    assert SameRules(mid[p].matches, after[p].matches);
    FirstSameRules(mid[p].matches, after[p].matches, mv.filter);
  }

  /** IndexOf looks only at names: two registries with the same names answer alike. */
  lemma {:induction false} IndexOfSameNames(a: seq<ListenerV>, b: seq<ListenerV>, name: string)
    requires |a| == |b| && forall j | 0 <= j < |a| :: a[j].busname == b[j].busname
    ensures IndexOf(b, name) == IndexOf(a, name)
  {
    if a != [] {
      IndexOfSameNames(a[1..], b[1..], name);
    }
  }

  /**
    A rule just added can be removed again by the id the handler replied
    with: unless the id is 0, RemoveSubscription finds that very rule, and
    it is RUNTIME.
  */
  lemma AddedRuleRemovable(reg: seq<ListenerV>, after: seq<ListenerV>, name: string, f: Filter, owned: bool, n0: nat, n1: nat)
    requires RuleId(reg, name, f).None?
    requires RegisteredAt(AddedRule(reg, name, f).0, after, AddedRule(reg, name, f).1, owned, n0, n1)
    requires Inv(after, n1)
    ensures RuleId(after, name, f).Some?
    ensures RuleId(after, name, f).value != 0 ==> RemoveReply(after, RuleId(after, name, f).value) == Status(Removed)
  {
    AddedRuleFound(reg, after, name, f, owned, n0, n1);
    var p := AddedRule(reg, name, f).1;
    var k := |after[p].matches| - 1;
    var id := after[p].matches[k].mId;
    if id != 0 {
      var q := FindById(after, id).value;
      assert Located(after, p, k) && Located(after, q.0, q.1);
      assert q == (p, k);
    }
  }

  /** The position of a resident Listener is the position of its name, and its view is its record. */
  lemma ResidentAt(d: Daemon, l: Listener)
    requires d.Valid() && l in d.listeners
    ensures IndexOf(d.Abs(), l.busname) == Some(FirstIndex(d.listeners, l))
    ensures d.Abs()[FirstIndex(d.listeners, l)] == l.View()
  {
    var i := FirstIndex(d.listeners, l);
    assert d.Abs()[i].busname == l.busname;
    assert UniqueNames(d.Abs());
  }

  /**
    The AddSubscription handler: NO_MEMORY when an argument is missing,
    when no Listener can be had for the name or when the rule cannot be
    built, and then nothing changes; otherwise the rule, tagged RUNTIME,
    goes through busactd_add_match and the reply is the m_id of the rule
    the Listener now holds: the id of an equal rule it already had, and
    then nothing changes, else the new rule's id (0 while the name is
    owned, or when the bus refused it), with the registry AddedRule
    builds, re-registered.
  */
  method AddSubscription(d: Daemon, busname: Option<string>, subscription: Option<string>) returns (reply: Reply)
    requires d.Valid()
    modifies d.Repr, d.bus
    ensures d.Valid()
    ensures busname.None? || subscription.None? ==> reply == Error(NoMemory, ParametersMessage)
    ensures reply.Error? ==>
              && reply.code == NoMemory && d.Abs() == old(d.Abs())
              && d.bus.subscriptions == old(d.bus.subscriptions) && d.bus.nextId == old(d.bus.nextId)
    ensures reply.Error? || reply.SubscriptionId?
    ensures reply.SubscriptionId? ==>
              && busname.Some? && subscription.Some?
              && RuleId(d.Abs(), busname.value, ParseFilter(subscription.value)) == Some(reply.id)
    ensures reply.SubscriptionId? && old(RuleId(d.Abs(), busname.value, ParseFilter(subscription.value))).Some? ==>
              && reply.id == old(RuleId(d.Abs(), busname.value, ParseFilter(subscription.value))).value
              && d.Abs() == old(d.Abs())
              && d.bus.subscriptions == old(d.bus.subscriptions) && d.bus.nextId == old(d.bus.nextId)
    ensures reply.SubscriptionId? && old(RuleId(d.Abs(), busname.value, ParseFilter(subscription.value))).None? ==>
              && RegisteredAt(AddedRule(old(d.Abs()), busname.value, ParseFilter(subscription.value)).0, d.Abs(),
                              AddedRule(old(d.Abs()), busname.value, ParseFilter(subscription.value)).1,
                              old(busname.value in d.bus.owned), old(d.bus.nextId), d.bus.nextId)
              && RegisteredOnBusAt(AddedRule(old(d.Abs()), busname.value, ParseFilter(subscription.value)).0, d.Abs(),
                                   AddedRule(old(d.Abs()), busname.value, ParseFilter(subscription.value)).1,
                                   old(d.bus.subscriptions), d.bus.subscriptions)
  {
    if busname.None? || subscription.None? {
      return Error(NoMemory, ParametersMessage);
    }
    var name, text := busname.value, subscription.value;
    var l := d.ListenerGet(name);
    if l == null {
      return Error(NoMemory, ListenerMessage);
    }
    assert d.Abs() == old(d.Abs());
    reply := AddParsed(d, l, name, text);
  }

  /** The AddSubscription handler once Listener l has been had for `name`: the rule is built from `text` and added. */
  method AddParsed(d: Daemon, l: Listener, name: string, text: string) returns (reply: Reply)
    requires d.Valid() && l.busname == name
    requires IndexOf(d.Abs(), name).Some? ==> l == d.listeners[IndexOf(d.Abs(), name).value]
    requires IndexOf(d.Abs(), name).None? ==>
               l !in d.listeners && d.Outside(l) && l.matches == [] && l.View() == ListenerV(name, 0, Undecided, [])
    modifies d.Repr, d.bus, l
    ensures d.Valid()
    ensures reply.Error? || reply.SubscriptionId?
    ensures reply.Error? ==>
              && reply == Error(NoMemory, ParametersMessage) && d.Abs() == old(d.Abs())
              && d.bus.subscriptions == old(d.bus.subscriptions) && d.bus.nextId == old(d.bus.nextId)
    ensures reply.SubscriptionId? ==> RuleId(d.Abs(), name, ParseFilter(text)) == Some(reply.id)
    ensures reply.SubscriptionId? && old(RuleId(d.Abs(), name, ParseFilter(text))).Some? ==>
              && reply.id == old(RuleId(d.Abs(), name, ParseFilter(text))).value && d.Abs() == old(d.Abs())
              && d.bus.subscriptions == old(d.bus.subscriptions) && d.bus.nextId == old(d.bus.nextId)
    ensures reply.SubscriptionId? && old(RuleId(d.Abs(), name, ParseFilter(text))).None? ==>
              && RegisteredAt(AddedRule(old(d.Abs()), name, ParseFilter(text)).0, d.Abs(), AddedRule(old(d.Abs()), name, ParseFilter(text)).1,
                              old(name in d.bus.owned), old(d.bus.nextId), d.bus.nextId)
              && RegisteredOnBusAt(AddedRule(old(d.Abs()), name, ParseFilter(text)).0, d.Abs(), AddedRule(old(d.Abs()), name, ParseFilter(text)).1,
                                   old(d.bus.subscriptions), d.bus.subscriptions)
  {
    var m := RuntimeMatch(text);
    assert d.Valid() && d.Abs() == old(d.Abs());
    if m == null {
      return Error(NoMemory, ParametersMessage);
    }
    reply := AddRuntimeMatch(d, l, m, name, ParseFilter(text));
  }

  /** busactd_match_new_from_string, then the type set to RUNTIME. */
  method RuntimeMatch(text: string) returns (m: Match?)
    ensures m != null ==> fresh(m) && m.View() == MatchV(ParseFilter(text), Runtime, 0)
  {
    m := MatchNewFromString(text);
    if m != null {
      m.kind := Runtime;
    }
  }

  /** busactd_add_match on the Listener of `name` and a fresh RUNTIME rule with filter `f`, and the id to reply with. */
  method AddRuntimeMatch(d: Daemon, l: Listener, m: Match, name: string, ghost f: Filter) returns (reply: Reply)
    requires d.Valid() && l.busname == name && m.View() == MatchV(f, Runtime, 0)
    requires l in d.listeners ==> IndexOf(d.Abs(), name).Some? && l == d.listeners[IndexOf(d.Abs(), name).value]
    requires l !in d.listeners ==>
               IndexOf(d.Abs(), name).None? && d.Outside(l) && l.matches == [] && l.View() == ListenerV(name, 0, Undecided, [])
    requires m !in d.Repr && m !in l.matches
    modifies d.Repr, d.bus, l, m
    ensures d.Valid() && reply.SubscriptionId?
    ensures RuleId(d.Abs(), name, f) == Some(reply.id)
    ensures old(RuleId(d.Abs(), name, f)).Some? ==>
              && reply.id == old(RuleId(d.Abs(), name, f)).value && d.Abs() == old(d.Abs())
              && d.bus.subscriptions == old(d.bus.subscriptions) && d.bus.nextId == old(d.bus.nextId)
    ensures old(RuleId(d.Abs(), name, f)).None? ==>
              && RegisteredAt(AddedRule(old(d.Abs()), name, f).0, d.Abs(), AddedRule(old(d.Abs()), name, f).1,
                              old(name in d.bus.owned), old(d.bus.nextId), d.bus.nextId)
              && RegisteredOnBusAt(AddedRule(old(d.Abs()), name, f).0, d.Abs(), AddedRule(old(d.Abs()), name, f).1,
                                   old(d.bus.subscriptions), d.bus.subscriptions)
  {
    var same := FirstSame(Views(l.matches), m.View().filter);
    if same.Some? {
      reply := KeepSameRule(d, l, m, name);
    } else if l in d.listeners {
      reply := JoinResidentRule(d, l, m, name, f);
    } else {
      reply := JoinNewRule(d, l, m, name, f);
    }
  }

  /** The resident Listener already holds an equal rule: its id is the reply and nothing changes. */
  method KeepSameRule(d: Daemon, l: Listener, m: Match, name: string) returns (reply: Reply)
    requires d.Valid() && l.busname == name && l in d.listeners
    requires IndexOf(d.Abs(), name).Some? && l == d.listeners[IndexOf(d.Abs(), name).value]
    requires m !in d.Repr && m !in l.matches && m.mId == 0
    requires FirstSame(Views(l.matches), m.View().filter).Some?
    modifies d.Repr, d.bus, l, m
    ensures d.Valid() && d.Abs() == old(d.Abs())
    ensures d.bus.subscriptions == old(d.bus.subscriptions) && d.bus.nextId == old(d.bus.nextId)
    ensures reply.SubscriptionId? && old(RuleId(d.Abs(), name, m.View().filter)) == Some(reply.id)
  {
    ghost var k := FirstSame(Views(l.matches), m.View().filter).value;
    ResidentAt(d, l);
    var r := d.AddMatch(l, m);
    reply := SubscriptionId(r.mId);
    ResidentAt(d, l);
    assert r == l.matches[k];
  }

  /**
    A new rule for a resident Listener: it joins the end of the list,
    tagged RUNTIME, the Listener is re-registered, and the new rule's id
    is the reply.
  */
  method JoinResidentRule(d: Daemon, l: Listener, m: Match, name: string, ghost f: Filter) returns (reply: Reply)
    requires d.Valid() && l.busname == name && l in d.listeners
    requires IndexOf(d.Abs(), name).Some? && l == d.listeners[IndexOf(d.Abs(), name).value]
    requires m !in d.Repr && m !in l.matches && m.View() == MatchV(f, Runtime, 0)
    requires FirstSame(Views(l.matches), f).None?
    modifies d.Repr, d.bus, l, m
    ensures d.Valid() && reply.SubscriptionId?
    ensures old(RuleId(d.Abs(), name, f)).None?
    ensures RegisteredAt(AddedRule(old(d.Abs()), name, f).0, d.Abs(), AddedRule(old(d.Abs()), name, f).1,
                         old(name in d.bus.owned), old(d.bus.nextId), d.bus.nextId)
    ensures RegisteredOnBusAt(AddedRule(old(d.Abs()), name, f).0, d.Abs(), AddedRule(old(d.Abs()), name, f).1,
                              old(d.bus.subscriptions), d.bus.subscriptions)
    ensures RuleId(d.Abs(), name, f) == Some(reply.id)
  {
    ghost var reg, ms := d.Abs(), l.matches;
    var i := IndexOf(reg, name).value;
    ResidentAt(d, l);
    DistinctFirstIndex(d.listeners, i);
    assert Views(ms) == reg[i].matches;
    assert AddedRule(reg, name, f) == (AppendMatch(reg, i, m.View()), i);
    var r := d.AddMatch(l, m);
    reply := SubscriptionId(r.mId);
    AddedRuleFound(reg, d.Abs(), name, f, old(name in d.bus.owned), old(d.bus.nextId), d.bus.nextId);
    ResidentAt(d, l);
    assert l.matches[|ms|] == m;
  }

  /**
    A rule for a Listener not yet resident: the Listener joins the end of
    the registry holding that one RUNTIME rule, is registered, and the
    rule's id is the reply.
  */
  method JoinNewRule(d: Daemon, l: Listener, m: Match, name: string, ghost f: Filter) returns (reply: Reply)
    requires d.Valid() && l.busname == name && l !in d.listeners
    requires IndexOf(d.Abs(), name).None? && d.Outside(l) && l.matches == [] && l.View() == ListenerV(name, 0, Undecided, [])
    requires m !in d.Repr && m !in l.matches && m.View() == MatchV(f, Runtime, 0)
    modifies d.Repr, d.bus, l, m
    ensures d.Valid() && reply.SubscriptionId?
    ensures old(RuleId(d.Abs(), name, f)).None?
    ensures RegisteredAt(AddedRule(old(d.Abs()), name, f).0, d.Abs(), AddedRule(old(d.Abs()), name, f).1,
                         old(name in d.bus.owned), old(d.bus.nextId), d.bus.nextId)
    ensures RegisteredOnBusAt(AddedRule(old(d.Abs()), name, f).0, d.Abs(), AddedRule(old(d.Abs()), name, f).1,
                              old(d.bus.subscriptions), d.bus.subscriptions)
    ensures RuleId(d.Abs(), name, f) == Some(reply.id)
  {
    ghost var reg := d.Abs();
    assert l.View().(matches := Views(l.matches) + [m.View()]) == ListenerV(name, 0, Undecided, [MatchV(f, Runtime, 0)]);
    var r := d.AddMatch(l, m);
    reply := SubscriptionId(r.mId);
    AddedRuleFound(reg, d.Abs(), name, f, old(name in d.bus.owned), old(d.bus.nextId), d.bus.nextId);
    ResidentAt(d, l);
    assert l.matches[0] == m;
  }

  // ---------------------------------------------------------------------
  // RemoveSubscription

  /** The reply of the RemoveSubscription handler to `id`, on registry `reg`. */
  function RemoveReply(reg: seq<ListenerV>, id: nat): (r: Reply)
    ensures r.Status? || r == Error(InvalidArgs, ZeroIdMessage)
  {
    if id == 0 then Error(InvalidArgs, ZeroIdMessage)
    else match FindById(reg, id)
      case None => Status(NotFound)
      case Some(p) => if reg[p.0].matches[p.1].kind == Runtime then Status(Removed) else Status(NotAllowed)
  }

  /** The registry after the handler: only "removed" changes it, by removing the match found. */
  function RemoveEffect(reg: seq<ListenerV>, id: nat): seq<ListenerV>
  {
    if RemoveReply(reg, id) == Status(Removed) then RemoveMatchAt(reg, FindById(reg, id).value.0, FindById(reg, id).value.1)
    else reg
  }

  /** The live subscriptions after the handler: only "removed" releases any. */
  function RemoveReleased(reg: seq<ListenerV>, id: nat, subs: set<nat>): set<nat>
  {
    if RemoveReply(reg, id) == Status(Removed) then Released(reg, FindById(reg, id).value.0, FindById(reg, id).value.1, subs)
    else subs
  }

  /** "removed" is the answer exactly when some match carries the id and the first such match is RUNTIME. */
  lemma RemoveReplyRemoved(reg: seq<ListenerV>, id: nat)
    ensures RemoveReply(reg, id) == Status(Removed) <==>
              id != 0 && FindById(reg, id).Some? && reg[FindById(reg, id).value.0].matches[FindById(reg, id).value.1].kind == Runtime
  {
  }

  /** An id no match carries is answered "not found", and nothing changes. */
  lemma NothingToRemove(reg: seq<ListenerV>, id: nat, subs: set<nat>)
    requires id != 0 && FindById(reg, id).None?
    ensures RemoveReply(reg, id) == Status(NotFound)
    ensures RemoveEffect(reg, id) == reg && RemoveReleased(reg, id, subs) == subs
  {
  }

  /** The handler keeps the registry invariant. */
  lemma RemoveEffectKeepsInv(reg: seq<ListenerV>, n: nat, id: nat)
    requires Inv(reg, n)
    ensures Inv(RemoveEffect(reg, id), n)
  {
    if RemoveReply(reg, id) == Status(Removed) {
      var p := FindById(reg, id).value;
      RemoveMatchKeepsInv(reg, p.0, p.1, n);
    }
  }

  /** After "removed", asking again for the same id is answered "not found". */
  lemma RemoveThenNotFound(reg: seq<ListenerV>, n: nat, id: nat)
    requires Inv(reg, n) && RemoveReply(reg, id) == Status(Removed)
    ensures RemoveReply(RemoveEffect(reg, id), id) == Status(NotFound)
  {
    var p := FindById(reg, id).value;
    RemoveMatchForgetsOnlyItsId(reg, p.0, p.1, n, 0);
  }

  /** The handler leaves every other id found or not found as it was. */
  lemma RemoveKeepsOtherIds(reg: seq<ListenerV>, n: nat, id: nat, other: nat)
    requires Inv(reg, n) && other != id
    ensures FindById(RemoveEffect(reg, id), other).Some? <==> FindById(reg, other).Some?
  {
    if RemoveReply(reg, id) == Status(Removed) {
      var p := FindById(reg, id).value;
      RemoveMatchForgetsOnlyItsId(reg, p.0, p.1, n, other);
    }
  }

  /** The handler never removes a PERSISTENT match: each one is still in the registry afterwards. */
  lemma RemoveKeepsPersistent(reg: seq<ListenerV>, id: nat, j: nat, h: nat)
    requires Located(reg, j, h) && reg[j].matches[h].kind == Persistent
    ensures exists q: (nat, nat) :: Located(RemoveEffect(reg, id), q.0, q.1) && RemoveEffect(reg, id)[q.0].matches[q.1] == reg[j].matches[h]
  {
    if RemoveReply(reg, id) == Status(Removed) {
      var p := FindById(reg, id).value;
      TargetLocated(reg, p.0, p.1, (j, h));
      var q := Target(reg, p.0, p.1, (j, h));
      assert Located(RemoveEffect(reg, id), q.0, q.1);
    } else {
      assert Located(RemoveEffect(reg, id), (j, h).0, (j, h).1);
    }
  }

  /** The handler, with busactd_remove_match releasing what it frees, leaves no callback dangling. */
  lemma RemoveKeepsTracked(reg: seq<ListenerV>, id: nat, subs: set<nat>)
    requires Tracked(reg, subs)
    ensures Tracked(RemoveEffect(reg, id), RemoveReleased(reg, id, subs))
  {
    if RemoveReply(reg, id) == Status(Removed) {
      var p := FindById(reg, id).value;
      ReleasedKeepsTracked(reg, p.0, p.1, subs);
    }
  }

  /**
    The RemoveSubscription handler: INVALID_ARGS for id 0; "not found" when
    no match has the id; "not allowed: match type is not RUNTIME" when the
    match is PERSISTENT; otherwise the match is removed and the reply is
    "removed". busactd_remove_match does not tell the bus, so no
    subscription is released.
  */
  method RemoveSubscription(d: Daemon, id: nat) returns (reply: Reply)
    requires d.Valid()
    modifies d, d.Repr, d.bus
    ensures d.Valid() && d.bus.owned == old(d.bus.owned) && d.bus.emitted == old(d.bus.emitted)
    ensures reply == RemoveReply(old(d.Abs()), id)
    ensures d.Abs() == RemoveEffect(old(d.Abs()), id)
    ensures d.bus.subscriptions == old(d.bus.subscriptions) && d.bus.nextId == old(d.bus.nextId)
  {
    if id == 0 {
      return Error(InvalidArgs, ZeroIdMessage);
    }
    var found := d.FindMatchById(id);
    assert d.Valid() && d.Abs() == old(d.Abs()) && d.bus.subscriptions == old(d.bus.subscriptions) && d.bus.owned == old(d.bus.owned) && d.bus.emitted == old(d.bus.emitted);
    if found.None? {
      NothingToRemove(d.Abs(), id, d.bus.subscriptions.Keys);
      return Status(NotFound);
    }
    var (l, m) := found.value;
    reply := RemoveFound(d, l, m, id, false);
  }

  /**
    The RemoveSubscription handler with busactd_remove_match corrected to
    release what it frees: the same replies and registry, and the bus
    drops the removed match's subscription and, when its Listener leaves,
    the Listener's NameOwnerChanged subscription.
  */
  method RemoveSubscriptionReleasing(d: Daemon, id: nat) returns (reply: Reply)
    requires d.Valid()
    modifies d, d.Repr, d.bus
    ensures d.Valid() && d.bus.owned == old(d.bus.owned) && d.bus.emitted == old(d.bus.emitted)
    ensures reply == RemoveReply(old(d.Abs()), id)
    ensures d.Abs() == RemoveEffect(old(d.Abs()), id)
    ensures d.bus.subscriptions.Keys == RemoveReleased(old(d.Abs()), id, old(d.bus.subscriptions.Keys))
  {
    if id == 0 {
      return Error(InvalidArgs, ZeroIdMessage);
    }
    var found := d.FindMatchById(id);
    assert d.Valid() && d.Abs() == old(d.Abs()) && d.bus.subscriptions == old(d.bus.subscriptions) && d.bus.owned == old(d.bus.owned) && d.bus.emitted == old(d.bus.emitted);
    if found.None? {
      NothingToRemove(d.Abs(), id, d.bus.subscriptions.Keys);
      return Status(NotFound);
    }
    var (l, m) := found.value;
    reply := RemoveFound(d, l, m, id, true);
  }

  /**
    The handler once busactd_find_match_by_id has found match m of Listener
    l for `id`; `release` says whether busactd_remove_match is the
    corrected one that tells the bus.
  */
  method RemoveFound(d: Daemon, l: Listener, m: Match, id: nat, release: bool) returns (reply: Reply)
    requires d.Valid() && id != 0 && FindById(d.Abs(), id).Some?
    requires l == d.listeners[FindById(d.Abs(), id).value.0]
    requires m == l.matches[FindById(d.Abs(), id).value.1]
    modifies d, d.Repr, d.bus
    ensures d.Valid() && d.bus.owned == old(d.bus.owned) && d.bus.emitted == old(d.bus.emitted)
    ensures reply == RemoveReply(old(d.Abs()), id)
    ensures d.Abs() == RemoveEffect(old(d.Abs()), id)
    ensures !release ==> d.bus.subscriptions == old(d.bus.subscriptions) && d.bus.nextId == old(d.bus.nextId)
    ensures release ==> d.bus.subscriptions.Keys == RemoveReleased(old(d.Abs()), id, old(d.bus.subscriptions.Keys))
  {
    ghost var p := FindById(d.Abs(), id).value;
    assert m.View() == d.Abs()[p.0].matches[p.1];
    if m.kind != Runtime {
      return Status(NotAllowed);
    }
    Evict(d, l, m, p.0, p.1, release);
    reply := Status(Removed);
  }

  /**
    busactd_remove_match on the match at position k of resident Listener i:
    as written (the bus keeps every subscription) or, with `release`, as
    it should be (the bus drops what the removal frees).
  */
  method Evict(d: Daemon, l: Listener, m: Match, ghost i: nat, ghost k: nat, release: bool)
    requires d.Valid() && i < |d.listeners| && l == d.listeners[i] && k < |l.matches| && m == l.matches[k]
    modifies d`listeners, l`matches, d.bus
    ensures d.Valid() && d.bus.owned == old(d.bus.owned) && d.bus.emitted == old(d.bus.emitted)
    ensures Located(old(d.Abs()), i, k)
    ensures d.Abs() == RemoveMatchAt(old(d.Abs()), i, k)
    ensures !release ==> d.bus.subscriptions == old(d.bus.subscriptions) && d.bus.nextId == old(d.bus.nextId)
    ensures release ==> d.bus.subscriptions.Keys == Released(old(d.Abs()), i, k, old(d.bus.subscriptions.Keys))
  {
    DistinctFirstIndex(d.listeners, i);
    assert l.Valid();
    DistinctFirstIndex(l.matches, k);
    if release {
      d.RemoveMatchReleasing(l, m);
    } else {
      d.RemoveMatch(l, m);
    }
  }

  // ---------------------------------------------------------------------
  // Dispatch

  /** The three methods of the interface. */
  datatype Handler = ListListenersCall | AddSubscriptionCall | RemoveSubscriptionCall

  /** A method's name in the introspection data: the name dispatch sends to that handler. */
  function MethodName(h: Handler): (s: string)
    ensures Route(s) == Some(h)
  {
    match h
    case ListListenersCall => "ListListeners"
    case AddSubscriptionCall => "AddSubscription"
    case RemoveSubscriptionCall => "RemoveSubscription"
  }

  /** The streq chain of busactd_dbus_handle_method_call. */
  function Route(name: string): (h: Option<Handler>)
  {
    if name == "ListListeners" then Some(ListListenersCall)
    else if name == "AddSubscription" then Some(AddSubscriptionCall)
    else if name == "RemoveSubscription" then Some(RemoveSubscriptionCall)
    else None
  }

  /** Dispatch is exact: a name reaches a handler exactly when it is that handler's name. */
  lemma RouteExact(name: string, h: Handler)
    ensures Route(name) == Some(h) <==> name == MethodName(h)
  {
  }

  /**
    busactd_dbus_handle_method_call: each of the three names reaches its
    handler; any other name is answered UNKNOWN_METHOD and changes nothing.
  */
  method HandleMethodCall(d: Daemon, name: string, params: Parameters) returns (reply: Reply)
    requires d.Valid()
    modifies d, d.Repr, d.bus
    ensures d.Valid()
    ensures Route(name).None? ==> reply == Error(UnknownMethod, "Unknown method: " + name)
    ensures Route(name) == Some(ListListenersCall) ==> reply == Listeners(Listing(old(d.Abs())))
    ensures Route(name).None? || Route(name) == Some(ListListenersCall) || reply.Error? || Route(name) == Some(RemoveSubscriptionCall) ==>
              d.bus.subscriptions == old(d.bus.subscriptions) && d.bus.nextId == old(d.bus.nextId)
    ensures Route(name).None? || Route(name) == Some(ListListenersCall) ==> d.Abs() == old(d.Abs())
    ensures Route(name) == Some(AddSubscriptionCall) ==>
              reply.SubscriptionId? || (reply.Error? && reply.code == NoMemory && d.Abs() == old(d.Abs()))
    ensures Route(name) == Some(AddSubscriptionCall) && reply.SubscriptionId? ==>
              && params.busname.Some? && params.subscription.Some?
              && RuleId(d.Abs(), params.busname.value, ParseFilter(params.subscription.value)) == Some(reply.id)
    ensures Route(name) == Some(AddSubscriptionCall) && reply.SubscriptionId?
            && old(RuleId(d.Abs(), params.busname.value, ParseFilter(params.subscription.value))).Some? ==>
              && d.Abs() == old(d.Abs())
              && d.bus.subscriptions == old(d.bus.subscriptions) && d.bus.nextId == old(d.bus.nextId)
    ensures Route(name) == Some(AddSubscriptionCall) && reply.SubscriptionId?
            && old(RuleId(d.Abs(), params.busname.value, ParseFilter(params.subscription.value))).None? ==>
              && RegisteredAt(AddedRule(old(d.Abs()), params.busname.value, ParseFilter(params.subscription.value)).0, d.Abs(),
                              AddedRule(old(d.Abs()), params.busname.value, ParseFilter(params.subscription.value)).1,
                              old(params.busname.value in d.bus.owned), old(d.bus.nextId), d.bus.nextId)
              && RegisteredOnBusAt(AddedRule(old(d.Abs()), params.busname.value, ParseFilter(params.subscription.value)).0, d.Abs(),
                                   AddedRule(old(d.Abs()), params.busname.value, ParseFilter(params.subscription.value)).1,
                                   old(d.bus.subscriptions), d.bus.subscriptions)
    ensures Route(name) == Some(RemoveSubscriptionCall) ==>
              reply == RemoveReply(old(d.Abs()), params.id) && d.Abs() == RemoveEffect(old(d.Abs()), params.id)
  {
    match Route(name)
    case None =>
      reply := Error(UnknownMethod, "Unknown method: " + name);
    case Some(ListListenersCall) =>
      reply := Listeners(Listing(d.Abs()));
    case Some(AddSubscriptionCall) =>
      reply := AddSubscription(d, params.busname, params.subscription);
    case Some(RemoveSubscriptionCall) =>
      reply := RemoveSubscription(d, params.id);
  }
}
