/**
  The configuration side of main.c: how a `.conf` file of section
  [BusAct] becomes a Listener with PERSISTENT rules, how the three
  configuration layers are walked once the bus is connected, and when the
  idle timer lets the daemon quit.

  libsystem's config_parse and config_parse_dir are not part of this
  model: a file reaches the model as the list of its items in file order
  (or the error config_parse fails with), and a directory as the list of
  its files.
*/
module Config {
  import opened Wrappers
  import opened Types
  import opened Registry
  import opened MatchString
  import opened Busactd

  /** BUSACT_CONF_EXT. */
  const ConfExt: string := ".conf"

  /** The errno values the loader returns, negated. */
  const EINVAL: int := 22
  const ENOMEM: int := 12

  /** The two configuration layers with fixed paths; the runtime layer sits between them. */
  const PresetDir: string := "/usr/lib/busactd"
  const SysconfigDir: string := "/etc/busactd"

  /** endswith: `s` ends with `suffix`. */
  predicate EndsWith(s: string, suffix: string)
  {
    |suffix| <= |s| && s[|s| - |suffix|..] == suffix
  }

  /** basename: the part of the path after its last '/' (all of it when there is none). */
  function Basename(path: string): (b: string)
    ensures '/' !in b && EndsWith(path, b)
    ensures |b| < |path| ==> path[|path| - |b| - 1] == '/'
  {
    if path == [] || path[|path| - 1] == '/' then []
    else
      var p, c := path[..|path| - 1], path[|path| - 1];
      var q := Basename(p);
      assert path[|p| - |q|..] == p[|p| - |q|..] + [c];
      assert |q| < |p| ==> path[|p| - |q| - 1] == p[|p| - |q| - 1];
      q + [c]
  }

  /** A suffix without '/' that the path ends with is a suffix of its basename too. */
  lemma {:induction false} BasenameKeepsSuffix(path: string, suffix: string)
    requires '/' !in suffix && EndsWith(path, suffix)
    ensures EndsWith(Basename(path), suffix)
    decreases |path|
  {
    if suffix != [] {
      var p := path[..|path| - 1];
      assert path[|path| - 1] == suffix[|suffix| - 1];
      var s := suffix[..|suffix| - 1];
      assert p[|p| - |s|..] == s;
      BasenameKeepsSuffix(p, s);
      assert Basename(path) == Basename(p) + [path[|path| - 1]];
      var b := Basename(path);
      assert b[|b| - |suffix|..] == Basename(p)[|Basename(p)| - |s|..] + [path[|path| - 1]];
    }
  }

  /**
    busactd_get_busname_from_name: the basename with the extension cut
    off. The cut never underflows: a path ending in ".conf" has a
    basename ending in ".conf".
  */
  function BusnameFromPath(path: string): (name: string)
    requires EndsWith(path, ConfExt)
    ensures name + ConfExt == Basename(path)
    ensures '/' !in name
  {
    BasenameKeepsSuffix(path, ConfExt);
    var b := Basename(path);
    assert b == b[..|b| - |ConfExt|] + ConfExt;
    b[..|b| - |ConfExt|]
  }

  // ---------------------------------------------------------------------
  // One configuration file

  /** One `key=value` line of a configuration file, with the section it is in. */
  datatype Item = Item(section: string, key: string, value: string)

  /** A positive errno value. */
  type Errno = n: nat | n > 0 witness 1

  /** What config_parse makes of a file: its items in file order, or the errno it fails with. */
  datatype ConfigText = Items(items: seq<Item>) | Unreadable(errno: Errno)

  /** The item is handled by busactd_config_parse_dbus_signal. */
  predicate IsSubscribe(it: Item)
  {
    it.section == "BusAct" && it.key == "Subscribe"
  }

  /** The item is handled by config_parse_string into the Listener's busname. */
  predicate IsBusName(it: Item)
  {
    it.section == "BusAct" && it.key == "BusName"
  }

  /** The non-empty Subscribe values, in file order: one rule each, equal or not. */
  function Rules(items: seq<Item>): (rs: seq<string>)
    ensures |rs| <= |items|
    ensures forall k | 0 <= k < |rs| :: rs[k] != []
  {
    if items == [] then []
    else (if IsSubscribe(items[0]) && items[0].value != [] then [items[0].value] else []) + Rules(items[1..])
  }

  /** The rules of a file are the rules of its parts, in order. */
  lemma {:induction false} RulesAppend(a: seq<Item>, b: seq<Item>)
    ensures Rules(a + b) == Rules(a) + Rules(b)
  {
    if a == [] {
      assert a + b == b;
    } else {
      assert (a + b)[0] == a[0] && (a + b)[1..] == a[1..] + b;
      RulesAppend(a[1..], b);
    }
  }

  /** Each non-empty Subscribe value adds one rule at the end; an empty one adds nothing. */
  lemma RulesSnoc(items: seq<Item>, it: Item)
    ensures IsSubscribe(it) && it.value != [] ==> Rules(items + [it]) == Rules(items) + [it.value]
    ensures !(IsSubscribe(it) && it.value != []) ==> Rules(items + [it]) == Rules(items)
  {
    RulesAppend(items, [it]);
  }

  /** The value of the last BusName item, if there is one: each assignment replaces the previous. */
  function NameItem(items: seq<Item>): (n: Option<string>)
    ensures n.Some? <==> exists k | 0 <= k < |items| :: IsBusName(items[k])
    ensures n.Some? ==> exists k | 0 <= k < |items| :: IsBusName(items[k]) && items[k].value == n.value
                                                       && forall j | k < j < |items| :: !IsBusName(items[j])
  {
    if items == [] then None
    else if IsBusName(items[|items| - 1]) then Some(items[|items| - 1].value)
    else
      var init := items[..|items| - 1];
      assert forall k | 0 <= k < |init| :: init[k] == items[k];
      NameItem(init)
  }

  /** The name of the Listener a file defines: its BusName, else the one its file name gives. */
  function FileBusname(path: string, items: seq<Item>): (name: string)
    requires EndsWith(path, ConfExt)
    ensures NameItem(items).None? ==> name + ConfExt == Basename(path)
  {
    match NameItem(items)
    case Some(n) => n
    case None => BusnameFromPath(path)
  }

  /** The records of the PERSISTENT matches a file's rules become, unsubscribed, in order. */
  function RuleViews(rs: seq<string>): (ms: seq<MatchV>)
  {
    seq(|rs|, k requires 0 <= k < |rs| => MatchV(ParseFilter(rs[k]), Persistent, 0))
  }

  /** The Listener a readable `.conf` file hands to busactd_add_listener. */
  function Candidate(path: string, items: seq<Item>): (l: ListenerV)
    requires EndsWith(path, ConfExt)
    ensures l.lId == 0 && l.owner == Undecided && |l.matches| == |Rules(items)|
    ensures forall k | 0 <= k < |l.matches| :: l.matches[k].kind == Persistent && l.matches[k].mId == 0
  {
    ListenerV(FileBusname(path, items), 0, Undecided, RuleViews(Rules(items)))
  }

  /**
    busactd_config_parse_dbus_signal: an empty value is skipped; otherwise
    the value is parsed into a fresh match, tagged PERSISTENT and appended
    to the list being built, or -ENOMEM when that cannot be allocated.
  */
  method ParseDbusSignal(pending: seq<Match>, rvalue: string) returns (r: int, after: seq<Match>)
    ensures r == 0 || r == -ENOMEM
    ensures r != 0 ==> after == pending
    ensures rvalue == [] ==> r == 0 && after == pending
    ensures rvalue != [] && r == 0 ==>
              && |after| == |pending| + 1 && after == pending + [after[|pending|]]
              && fresh(after[|pending|]) && after[|pending|].View() == MatchV(ParseFilter(rvalue), Persistent, 0)
  {
    if rvalue == [] {
      return 0, pending;
    }
    var m := MatchNewFromString(rvalue);
    if m == null {
      return -ENOMEM, pending;
    }
    m.kind := Persistent;
    r, after := 0, pending + [m];
  }

  /** The matches built so far are fresh, distinct and record the rules read so far. */
  ghost predicate Built(pending: seq<Match>, rs: seq<string>)
    reads pending
  {
    && Distinct(pending)
    && Views(pending) == RuleViews(rs)
  }

  /** One item of the walk: a Subscribe item goes to busactd_config_parse_dbus_signal, any other is not this table's. */
  method TakeItem(pending: seq<Match>, ghost done: seq<Item>, it: Item) returns (r: int, after: seq<Match>, ghost added: set<object>)
    requires Built(pending, Rules(done))
    ensures r == 0 || r == -ENOMEM
    ensures r == 0 ==> Built(after, Rules(done + [it]))
    ensures fresh(added) && forall k | 0 <= k < |after| :: after[k] in pending || after[k] in added
  {
    RulesSnoc(done, it);
    added := {};
    if !IsSubscribe(it) {
      return 0, pending, added;
    }
    r, after := ParseDbusSignal(pending, it.value);
    if r == 0 && it.value != [] {
      var m := after[|pending|];
      BuiltSnoc(pending, m, Rules(done), it.value);
      added := {m};
    }
  }

  /** A new match for one more rule, appended, keeps the list built. */
  lemma BuiltSnoc(before: seq<Match>, m: Match, rs: seq<string>, t: string)
    requires Built(before, rs) && m !in before && m.View() == MatchV(ParseFilter(t), Persistent, 0)
    ensures Built(before + [m], rs + [t])
  {
    ViewsAppend(before, [m]);
    assert RuleViews(rs + [t]) == RuleViews(rs) + [m.View()];
  }

  /**
    The paths config_parse_dir has handed to busactd_parse_config_file so
    far, in order. It is bookkeeping of the model, kept apart from the
    daemon and its registry, in the way the bus keeps its log of emitted
    signals.
  */
  class ParseLog {
    ghost var handed: seq<string>

    constructor ()
      ensures handed == []
    {
      handed := [];
    }
  }

  /**
    busactd_parse_config_file: -EINVAL for a path without the ".conf"
    extension, before anything else; -ENOMEM when the Listener or a rule
    cannot be allocated; config_parse's error when the file cannot be
    read. A file without a rule is dropped with result 0 and changes
    nothing; any other is admitted through busactd_add_listener, under its
    BusName or, failing that, the name its file name gives.
  */
  method ParseConfigFile(d: Daemon, path: string, text: ConfigText) returns (r: int)
    requires d.Valid()
    modifies d.Repr, d.bus
    ensures d.Valid()
    ensures !EndsWith(path, ConfExt) ==> r == -EINVAL
    ensures r == 0 || r == -EINVAL || r == -ENOMEM || (text.Unreadable? && r == -(text.errno as int))
    ensures r != 0 ==> d.Abs() == old(d.Abs())
    ensures r != 0 || (text.Items? && Rules(text.items) == []) ==>
              d.bus.subscriptions == old(d.bus.subscriptions) && d.bus.nextId == old(d.bus.nextId)
    ensures r == 0 ==> EndsWith(path, ConfExt) && text.Items?
    ensures fresh(d.Repr - old(d.Repr))
    ensures Extends(old(d.Abs()), d.Abs())
    ensures r == 0 && Rules(text.items) == [] ==> d.Abs() == old(d.Abs())
    ensures r == 0 && Rules(text.items) != [] ==> IndexOf(d.Abs(), FileBusname(path, text.items)).Some?
    ensures r == 0 && Rules(text.items) != [] ==>
              RegisteredAt(Admit(old(d.Abs()), Candidate(path, text.items)).0, d.Abs(),
                           Admit(old(d.Abs()), Candidate(path, text.items)).1,
                           old(FileBusname(path, text.items) in d.bus.owned), old(d.bus.nextId), d.bus.nextId)
    ensures r == 0 && Rules(text.items) != [] ==>
              RegisteredOnBusAt(Admit(old(d.Abs()), Candidate(path, text.items)).0, d.Abs(),
                                Admit(old(d.Abs()), Candidate(path, text.items)).1, old(d.bus.subscriptions), d.bus.subscriptions)
  {
    if !EndsWith(path, ConfExt) {
      r := -EINVAL;
    } else {
      var obtained: bool := *;
      if !obtained {
        r := -ENOMEM;
      } else if text.Unreadable? {
        r := -(text.errno as int);
      } else {
        r := ParseItems(d, path, text.items);
      }
    }
  }

  /**
    busactd_parse_config_file once config_parse has read the file into
    `items`: -ENOMEM when a rule or the name cannot be allocated; 0 and no
    change for a file without a rule; otherwise 0, and its Listener is
    admitted and registered.
  */
  method ParseItems(d: Daemon, path: string, items: seq<Item>) returns (r: int)
    requires d.Valid() && EndsWith(path, ConfExt)
    modifies d.Repr, d.bus
    ensures d.Valid()
    ensures r == 0 || r == -ENOMEM
    ensures r != 0 ==> d.Abs() == old(d.Abs())
    ensures r != 0 || Rules(items) == [] ==>
              d.bus.subscriptions == old(d.bus.subscriptions) && d.bus.nextId == old(d.bus.nextId)
    ensures fresh(d.Repr - old(d.Repr))
    ensures Extends(old(d.Abs()), d.Abs())
    ensures r == 0 && Rules(items) == [] ==> d.Abs() == old(d.Abs())
    ensures r == 0 && Rules(items) != [] ==> IndexOf(d.Abs(), FileBusname(path, items)).Some?
    ensures r == 0 && Rules(items) != [] ==>
              RegisteredAt(Admit(old(d.Abs()), Candidate(path, items)).0, d.Abs(),
                           Admit(old(d.Abs()), Candidate(path, items)).1,
                           old(FileBusname(path, items) in d.bus.owned), old(d.bus.nextId), d.bus.nextId)
    ensures r == 0 && Rules(items) != [] ==>
              RegisteredOnBusAt(Admit(old(d.Abs()), Candidate(path, items)).0, d.Abs(),
                                Admit(old(d.Abs()), Candidate(path, items)).1, old(d.bus.subscriptions), d.bus.subscriptions)
  {
    var pending: seq<Match>;
    ghost var made: set<object>;
    r, pending, made := BuildRules(items);
    if r < 0 {
      return r;
    }
    var name: string;
    if NameItem(items).Some? {
      name := NameItem(items).value;
    } else {
      var copied: bool := *;
      if !copied {
        return -ENOMEM;
      }
      name := BusnameFromPath(path);
    }
    if pending == [] {
      return 0;
    }
    assert d.Valid() && d.Abs() == old(d.Abs());
    var l := NewListener(name, pending);
    made := made + {l};
    assert fresh(made) && d.Repr == old(d.Repr);
    assert d.Valid() && d.Abs() == old(d.Abs());
    AdmitRules(d, path, items, l, made);
    r := 0;
  }

  /** The Listener busactd_parse_config_file fills in: undecided, not subscribed, holding the matches built. */
  method NewListener(name: string, pending: seq<Match>) returns (l: Listener)
    requires Distinct(pending)
    ensures fresh(l) && l.Valid() && l.busname == name && l.matches == pending
    ensures l.lId == 0 && l.owner == Undecided
  {
    l := new Listener(name);
    l.matches := pending;
  }

  /** The end of busactd_parse_config_file for a file with rules: its Listener goes to busactd_add_listener. */
  method AdmitRules(d: Daemon, path: string, items: seq<Item>, l: Listener, ghost made: set<object>)
    requires d.Valid() && EndsWith(path, ConfExt) && l.busname == FileBusname(path, items)
    requires Built(l.matches, Rules(items)) && l.matches != []
    requires l.lId == 0 && l.owner == Undecided
    requires l in made && forall m | m in l.matches :: m in made
    requires forall o | o in made :: o !in d.Repr
    modifies d.Repr, d.bus, made
    ensures d.Valid()
    ensures RegisteredAt(Admit(old(d.Abs()), Candidate(path, items)).0, d.Abs(),
                         Admit(old(d.Abs()), Candidate(path, items)).1,
                         old(l.busname in d.bus.owned), old(d.bus.nextId), d.bus.nextId)
    ensures RegisteredOnBusAt(Admit(old(d.Abs()), Candidate(path, items)).0, d.Abs(),
                              Admit(old(d.Abs()), Candidate(path, items)).1, old(d.bus.subscriptions), d.bus.subscriptions)
    ensures Extends(old(d.Abs()), d.Abs()) && IndexOf(d.Abs(), l.busname).Some?
    ensures d.Repr <= old(d.Repr) + made
  {
    ghost var reg, repr, ms := d.Abs(), d.Repr, l.matches;
    assert l.View() == Candidate(path, items);
    assert d.Detached(l);
    var _ := d.AddListener(l);
    MatchesMade(d.Repr, repr, l, ms, made);
    AdmitExtends(reg, d.Abs(), Candidate(path, items), old(l.busname in d.bus.owned), old(d.bus.nextId), d.bus.nextId);
  }

  /** What busactd_add_listener adds to the footprint of the registry is the Listener and its matches. */
  lemma MatchesMade(repr: set<object>, repr0: set<object>, l: Listener, ms: seq<Match>, made: set<object>)
    requires repr <= repr0 + {l} + set m | m in ms
    requires l in made && forall m | m in ms :: m in made
    ensures repr <= repr0 + made
  {
  }

  /**
    The Subscribe half of config_parse over busactd_parse_config_file's
    table: each item in file order, each non-empty Subscribe value parsed
    into a new PERSISTENT match at the end of the list; the first
    allocation failure stops the walk with -ENOMEM.
  */
  method BuildRules(items: seq<Item>) returns (r: int, pending: seq<Match>, ghost made: set<object>)
    ensures r == 0 || r == -ENOMEM
    ensures r == 0 ==> Built(pending, Rules(items))
    ensures fresh(made) && forall k | 0 <= k < |pending| :: pending[k] in made
  {
    pending, made := [], {};
    var i := 0;
    while i < |items|
      invariant 0 <= i <= |items|
      invariant Built(pending, Rules(items[..i]))
      invariant fresh(made) && forall k | 0 <= k < |pending| :: pending[k] in made
    {
      var rr;
      ghost var added;
      rr, pending, added := TakeItem(pending, items[..i], items[i]);
      made := made + added;
      if rr < 0 {
        return rr, pending, made;
      }
      assert items[..i + 1] == items[..i] + [items[i]];
      i := i + 1;
    }
    assert items[..i] == items;
    r := 0;
  }

  // ---------------------------------------------------------------------
  // What loading does to the registry

  /** Every Listener of `before` keeps its place and its name in `after`; any new one comes after them. */
  ghost predicate Extends(before: seq<ListenerV>, after: seq<ListenerV>)
  {
    |before| <= |after| && forall j | 0 <= j < |before| :: after[j].busname == before[j].busname
  }

  /**
    Admitting a Listener never removes or reorders a resident one, and
    afterwards a Listener of its name is resident.
  */
  lemma AdmitExtends(reg: seq<ListenerV>, after: seq<ListenerV>, l: ListenerV, owned: bool, n0: nat, n1: nat)
    requires RegisteredAt(Admit(reg, l).0, after, Admit(reg, l).1, owned, n0, n1)
    ensures Extends(reg, after)
    ensures IndexOf(after, l.busname).Some?
  {
    var (a, p) := Admit(reg, l);
    assert after[p].busname == l.busname;
    forall j | 0 <= j < |reg| ensures after[j].busname == reg[j].busname {
      if j == p {
        assert IndexOf(reg, l.busname).Some?;
      }
    }
  }

  /** A Listener resident in `before` is still resident in any registry that extends it. */
  lemma ExtendsKeepsResident(before: seq<ListenerV>, after: seq<ListenerV>, name: string)
    requires Extends(before, after) && IndexOf(before, name).Some?
    ensures IndexOf(after, name).Some?
  {
    var j := IndexOf(before, name).value;
    assert after[j].busname == name;
  }

  /** A registry that extends one extending `before` extends `before`. */
  lemma ExtendsTrans(before: seq<ListenerV>, mid: seq<ListenerV>, after: seq<ListenerV>)
    requires Extends(before, mid) && Extends(mid, after)
    ensures Extends(before, after)
  {
  }

  /** Every Listener of a set of names resident in `before` is still resident in a registry that extends it. */
  lemma ExtendsKeepsResidents(before: seq<ListenerV>, after: seq<ListenerV>, names: set<string>)
    requires Extends(before, after) && forall n | n in names :: IndexOf(before, n).Some?
    ensures forall n | n in names :: IndexOf(after, n).Some?
  {
    forall n | n in names ensures IndexOf(after, n).Some? {
      ExtendsKeepsResident(before, after, n);
    }
  }

  // ---------------------------------------------------------------------
  // Loading the configuration directories

  /** What a GLib source callback tells the main loop: keep the source, or drop it. */
  datatype SourceAction = Continue | Remove

  /** A file of a configuration directory as config_parse_dir hands it over: its path and what config_parse makes of it. */
  datatype ConfigFile = ConfigFile(path: string, text: ConfigText)

  /** A file busactd_parse_config_file admits a Listener from, unless an allocation fails. */
  predicate Admissible(f: ConfigFile)
  {
    EndsWith(f.path, ConfExt) && f.text.Items? && Rules(f.text.items) != []
  }

  /** The names the admissible files among `files` are admitted under. */
  ghost function AdmissibleNames(files: seq<ConfigFile>): set<string>
  {
    set f | f in files && Admissible(f) :: FileBusname(f.path, f.text.items)
  }

  /** The names admissible from the directories `dirs` of `tree`, together. */
  ghost function AdmissibleIn(tree: map<string, seq<ConfigFile>>, dirs: seq<string>): set<string>
  {
    if dirs == [] then {}
    else AdmissibleIn(tree, dirs[..|dirs| - 1]) + AdmissibleNames(FilesOf(tree, dirs[|dirs| - 1]))
  }

  /** Visiting one more directory adds the names admissible from it. */
  lemma AdmissibleInSnoc(tree: map<string, seq<ConfigFile>>, dirs: seq<string>, dir: string)
    ensures AdmissibleIn(tree, dirs + [dir]) == AdmissibleIn(tree, dirs) + AdmissibleNames(FilesOf(tree, dir))
  {
    assert (dirs + [dir])[..|dirs|] == dirs;
  }

  /** A name admissible from a list of directories is admissible from one of them. */
  lemma {:induction false} AdmissibleInSome(tree: map<string, seq<ConfigFile>>, dirs: seq<string>, n: string)
    requires n in AdmissibleIn(tree, dirs)
    ensures exists dir | dir in dirs :: n in AdmissibleNames(FilesOf(tree, dir))
  {
    var last := dirs[|dirs| - 1];
    if n !in AdmissibleNames(FilesOf(tree, last)) {
      AdmissibleInSome(tree, dirs[..|dirs| - 1], n);
      var dir :| dir in dirs[..|dirs| - 1] && n in AdmissibleNames(FilesOf(tree, dir));
      assert dir in dirs;
    } else {
      assert last in dirs;
    }
  }

  /** The subdirectory of each layer that holds this daemon's files. */
  function KindDir(kind: DaemonType): (s: string)
    ensures s == "system" <==> kind == System
    ensures s == "user" <==> kind == User
  {
    match kind
    case System => "system"
    case User => "user"
  }

  /** config_dirs in load order: preset, runtime (empty when there is none), sysconfig. */
  function Layers(runtimeDir: string): (ls: seq<string>)
    ensures |ls| == 3 && ls[0] == PresetDir && ls[1] == runtimeDir && ls[2] == SysconfigDir
  {
    [PresetDir, runtimeDir, SysconfigDir]
  }

  /** The directory of one layer: the layer joined with the kind's subdirectory. */
  function LayerDir(layer: string, kind: DaemonType): (dir: string)
  {
    layer + "/" + KindDir(kind)
  }

  /** The directories busactd_load_listeners reads: one per non-empty layer, in layer order. */
  function LoadOrder(layers: seq<string>, kind: DaemonType): (dirs: seq<string>)
    ensures |dirs| <= |layers|
  {
    if layers == [] then []
    else (if layers[0] == [] then [] else [LayerDir(layers[0], kind)]) + LoadOrder(layers[1..], kind)
  }

  /**
    Every directory read comes from a non-empty layer, and when no layer
    is empty each layer gives its directory, in order.
  */
  lemma {:induction false} LoadOrderShape(layers: seq<string>, kind: DaemonType)
    ensures (forall j | 0 <= j < |layers| :: layers[j] != []) ==>
              |LoadOrder(layers, kind)| == |layers| &&
              forall j | 0 <= j < |layers| :: LoadOrder(layers, kind)[j] == LayerDir(layers[j], kind)
    ensures forall d | d in LoadOrder(layers, kind) :: exists j | 0 <= j < |layers| :: layers[j] != [] && d == LayerDir(layers[j], kind)
  {
    if layers != [] {
      var rest := LoadOrder(layers[1..], kind);
      LoadOrderShape(layers[1..], kind);
      forall d | d in rest ensures exists j | 1 <= j < |layers| :: layers[j] != [] && d == LayerDir(layers[j], kind) {
        var j :| 0 <= j < |layers[1..]| && layers[1..][j] != [] && d == LayerDir(layers[1..][j], kind);
        assert layers[j + 1] == layers[1..][j];
      }
    }
  }

  /**
    The preset layer is read first and the sysconfig layer last, so a
    sysconfig file's rules join a preset Listener's; the runtime layer
    sits between them and is skipped when there is none.
  */
  lemma {:induction false} LoadOrderOfLayers(runtimeDir: string, kind: DaemonType)
    ensures runtimeDir == [] ==>
              LoadOrder(Layers(runtimeDir), kind) == [LayerDir(PresetDir, kind), LayerDir(SysconfigDir, kind)]
    ensures runtimeDir != [] ==>
              LoadOrder(Layers(runtimeDir), kind) ==
                [LayerDir(PresetDir, kind), LayerDir(runtimeDir, kind), LayerDir(SysconfigDir, kind)]
  {
    var ls := Layers(runtimeDir);
    assert ls[1..][1..][1..] == [];
    assert LoadOrder(ls[1..][1..], kind) == [LayerDir(SysconfigDir, kind)];
  }

  /** The files config_parse_dir finds in `dir` (none when it does not exist). */
  function FilesOf(tree: map<string, seq<ConfigFile>>, dir: string): (files: seq<ConfigFile>)
  {
    if dir in tree then tree[dir] else []
  }

  /** The files config_parse_dir finds in the directories `dirs` of `tree`, directory by directory. */
  function FilesIn(tree: map<string, seq<ConfigFile>>, dirs: seq<string>): (files: seq<ConfigFile>)
  {
    if dirs == [] then [] else FilesIn(tree, dirs[..|dirs| - 1]) + FilesOf(tree, dirs[|dirs| - 1])
  }

  /** Visiting one more directory hands over its files after all the earlier ones. */
  lemma FilesInSnoc(tree: map<string, seq<ConfigFile>>, dirs: seq<string>, dir: string)
    ensures FilesIn(tree, dirs + [dir]) == FilesIn(tree, dirs) + FilesOf(tree, dir)
  {
    assert (dirs + [dir])[..|dirs|] == dirs;
  }

  /** The log entries of `files` handed to busactd_parse_config_file in order: their paths. */
  function Handed(files: seq<ConfigFile>): (paths: seq<string>)
    ensures |paths| == |files| && forall i | 0 <= i < |files| :: paths[i] == files[i].path
  {
    seq(|files|, i requires 0 <= i < |files| => files[i].path)
  }

  /** Handing over two runs of files one after the other logs one run after the other. */
  lemma HandedAppend(a: seq<ConfigFile>, b: seq<ConfigFile>)
    ensures Handed(a + b) == Handed(a) + Handed(b)
  {
    assert forall i | 0 <= i < |a| + |b| :: Handed(a + b)[i] == (Handed(a) + Handed(b))[i];
  }

  /**
    A walk over `files` that returned `results`, one per file, admitted
    the names `admitted`: every admissible file whose call returned 0 left
    its name among them.
  */
  ghost predicate Walked(files: seq<ConfigFile>, results: seq<int>, admitted: set<string>)
  {
    |results| == |files| &&
    forall k | 0 <= k < |files| && results[k] == 0 && Admissible(files[k]) ::
      FileBusname(files[k].path, files[k].text.items) in admitted
  }

  /** Two walks one after the other admit the names of both. */
  lemma WalkedAppend(a: seq<ConfigFile>, ra: seq<int>, na: set<string>, b: seq<ConfigFile>, rb: seq<int>, nb: set<string>)
    requires Walked(a, ra, na) && Walked(b, rb, nb)
    ensures Walked(a + b, ra + rb, na + nb)
  {
    forall k | 0 <= k < |a + b| && (ra + rb)[k] == 0 && Admissible((a + b)[k])
      ensures FileBusname((a + b)[k].path, (a + b)[k].text.items) in na + nb
    {
      if k >= |a| {
        assert (a + b)[k] == b[k - |a|] && (ra + rb)[k] == rb[k - |a|];
      }
    }
  }

  /**
    One file of a directory, as config_parse_dir hands it to
    busactd_parse_config_file, its path recorded in `log` on the way: what
    the walk over the directory relies on.
  */
  method ParseDirEntry(d: Daemon, log: ParseLog, f: ConfigFile) returns (r: int)
    requires d.Valid() && log !in d.Repr
    modifies d.Repr, d.bus, log
    ensures d.Valid() && fresh(d.Repr - old(d.Repr))
    ensures log.handed == old(log.handed) + [f.path]
    ensures !EndsWith(f.path, ConfExt) ==> r == -EINVAL
    ensures Extends(old(d.Abs()), d.Abs())
    ensures r == 0 && Admissible(f) ==> IndexOf(d.Abs(), FileBusname(f.path, f.text.items)).Some?
  {
    log.handed := log.handed + [f.path];
    r := ParseConfigFile(d, f.path, f.text);
  }

  /**
    config_parse_dir over one directory: every file goes to
    busactd_parse_config_file in turn, in order, as the log records,
    whatever the previous one returned; `results` are what the calls
    returned. Every
    admissible file whose call returned 0 leaves its name resident. The
    ghost result `admitted` collects those names.
  */
  method LoadDir(d: Daemon, log: ParseLog, files: seq<ConfigFile>) returns (ghost admitted: set<string>, ghost results: seq<int>)
    requires d.Valid() && log !in d.Repr
    modifies d.Repr, d.bus, log
    ensures d.Valid() && fresh(d.Repr - old(d.Repr))
    ensures Walked(files, results, admitted) && log.handed == old(log.handed) + Handed(files)
    ensures forall i | 0 <= i < |files| :: !EndsWith(files[i].path, ConfExt) ==> results[i] == -EINVAL
    ensures Extends(old(d.Abs()), d.Abs())
    ensures admitted <= AdmissibleNames(files)
    ensures forall n | n in admitted :: IndexOf(d.Abs(), n).Some?
  {
    admitted, results := {}, [];
    var i := 0;
    while i < |files|
      invariant 0 <= i <= |files| && d.Valid() && fresh(d.Repr - old(d.Repr))
      invariant Walked(files[..i], results, admitted) && log.handed == old(log.handed) + Handed(files[..i])
      invariant forall k | 0 <= k < i :: !EndsWith(files[k].path, ConfExt) ==> results[k] == -EINVAL
      invariant Extends(old(d.Abs()), d.Abs())
      invariant admitted <= AdmissibleNames(files)
      invariant forall n | n in admitted :: IndexOf(d.Abs(), n).Some?
    {
      admitted, results := LoadEntry(d, log, files, i, old(log.handed), old(d.Abs()), admitted, results);
      i := i + 1;
    }
    assert files[..i] == files;
  }

  /**
    One step of config_parse_dir: the i-th file is handed over, carrying
    what the walk has logged, returned and admitted for the files before
    it over to the first i + 1 files.
  */
  method LoadEntry(d: Daemon, log: ParseLog, files: seq<ConfigFile>, i: nat,
                   ghost handed: seq<string>, ghost reg: seq<ListenerV>,
                   ghost admitted: set<string>, ghost results: seq<int>)
    returns (ghost admitted2: set<string>, ghost results2: seq<int>)
    requires d.Valid() && log !in d.Repr && i < |files|
    requires Walked(files[..i], results, admitted) && log.handed == handed + Handed(files[..i])
    requires forall k | 0 <= k < i :: !EndsWith(files[k].path, ConfExt) ==> results[k] == -EINVAL
    requires Extends(reg, d.Abs())
    requires admitted <= AdmissibleNames(files)
    requires forall n | n in admitted :: IndexOf(d.Abs(), n).Some?
    modifies d.Repr, d.bus, log
    ensures d.Valid() && fresh(d.Repr - old(d.Repr))
    ensures Walked(files[..i + 1], results2, admitted2) && log.handed == handed + Handed(files[..i + 1])
    ensures forall k | 0 <= k < i + 1 :: !EndsWith(files[k].path, ConfExt) ==> results2[k] == -EINVAL
    ensures Extends(reg, d.Abs())
    ensures admitted2 <= AdmissibleNames(files)
    ensures forall n | n in admitted2 :: IndexOf(d.Abs(), n).Some?
  {
    ghost var mid := d.Abs();
    var r := ParseDirEntry(d, log, files[i]);
    ExtendsTrans(reg, mid, d.Abs());
    ExtendsKeepsResidents(mid, d.Abs(), admitted);
    ghost var name := if r == 0 && Admissible(files[i]) then {FileBusname(files[i].path, files[i].text.items)} else {};
    WalkedAppend(files[..i], results, admitted, [files[i]], [r], name);
    HandedAppend(files[..i], [files[i]]);
    assert files[..i + 1] == files[..i] + [files[i]];
    AppendAssoc(handed, Handed(files[..i]), Handed([files[i]]));
    admitted2, results2 := admitted + name, results + [r];
  }

  /**
    One step of busactd_load_listeners: config_parse_dir over the i-th
    layer's directory, if that layer is not empty, after the directories
    `visited` of the layers before it, carrying what the walk has logged
    and admitted so far over to the directories `visited2` of the first
    i + 1 layers.
  */
  method LoadLayer(d: Daemon, log: ParseLog, tree: map<string, seq<ConfigFile>>, layers: seq<string>, i: nat, visited: seq<string>,
                   ghost handed: seq<string>, ghost reg: seq<ListenerV>,
                   ghost admitted: set<string>, ghost results: seq<int>)
    returns (visited2: seq<string>, ghost admitted2: set<string>, ghost results2: seq<int>)
    requires d.Valid() && log !in d.Repr
    requires i < |layers| && visited == LoadOrder(layers[..i], d.kind)
    requires Walked(FilesIn(tree, visited), results, admitted)
    requires log.handed == handed + Handed(FilesIn(tree, visited))
    requires Extends(reg, d.Abs())
    requires forall n | n in admitted :: IndexOf(d.Abs(), n).Some?
    requires admitted <= AdmissibleIn(tree, visited)
    modifies d.Repr, d.bus, log
    ensures d.Valid() && fresh(d.Repr - old(d.Repr))
    ensures visited2 == LoadOrder(layers[..i + 1], d.kind)
    ensures Walked(FilesIn(tree, visited2), results2, admitted2)
    ensures log.handed == handed + Handed(FilesIn(tree, visited2))
    ensures Extends(reg, d.Abs())
    ensures forall n | n in admitted2 :: IndexOf(d.Abs(), n).Some?
    ensures admitted2 <= AdmissibleIn(tree, visited2)
  {
    LoadOrderSnoc(layers, i, d.kind);
    if layers[i] == [] {
      return visited, admitted, results;
    }
    var dir := LayerDir(layers[i], d.kind);
    ghost var mid, before := d.Abs(), FilesIn(tree, visited);
    ghost var names, rs := LoadDir(d, log, FilesOf(tree, dir));
    ExtendsTrans(reg, mid, d.Abs());
    ExtendsKeepsResidents(mid, d.Abs(), admitted);
    AdmissibleInSnoc(tree, visited, dir);
    FilesInSnoc(tree, visited, dir);
    WalkedAppend(before, results, admitted, FilesOf(tree, dir), rs, names);
    HandedAppend(before, FilesOf(tree, dir));
    AppendAssoc(handed, Handed(before), Handed(FilesOf(tree, dir)));
    visited2, admitted2, results2 := visited + [dir], admitted + names, results + rs;
  }

  /**
    busactd_load_listeners, the idle callback: while the bus connection
    is not up it changes nothing and keeps its source; then it hands
    every directory of LoadOrder to config_parse_dir, ignores the result,
    and removes its source. Every file of those directories, directory by
    directory, goes to busactd_parse_config_file, as the log records, with
    its result in `results`; every admissible one whose call returned 0 leaves its
    name resident. The ghost result `admitted` collects those names.
  */
  method LoadListeners(d: Daemon, log: ParseLog, connected: bool, runtimeDir: string, tree: map<string, seq<ConfigFile>>)
    returns (action: SourceAction, visited: seq<string>, ghost admitted: set<string>, ghost results: seq<int>)
    requires d.Valid() && log !in d.Repr
    modifies d.Repr, d.bus, log
    ensures d.Valid()
    ensures !connected ==> action == Continue && visited == [] && d.Abs() == old(d.Abs())
    ensures !connected ==> d.bus.subscriptions == old(d.bus.subscriptions) && d.bus.nextId == old(d.bus.nextId)
    ensures connected ==> action == Remove && visited == LoadOrder(Layers(runtimeDir), d.kind)
    ensures Walked(FilesIn(tree, visited), results, admitted)
    ensures log.handed == old(log.handed) + Handed(FilesIn(tree, visited))
    ensures Extends(old(d.Abs()), d.Abs())
    ensures forall n | n in admitted :: IndexOf(d.Abs(), n).Some?
    ensures admitted <= AdmissibleIn(tree, visited)
    ensures admitted != {} || old(d.Abs()) != [] ==> IdleTimeout(d.Abs()).0 == Continue
  {
    admitted, results := {}, [];
    if !connected {
      return Continue, [], admitted, results;
    }
    var layers := Layers(runtimeDir);
    visited := [];
    var i := 0;
    while i < |layers|
      invariant 0 <= i <= |layers| && d.Valid() && fresh(d.Repr - old(d.Repr))
      invariant visited == LoadOrder(layers[..i], d.kind)
      invariant Walked(FilesIn(tree, visited), results, admitted)
      invariant log.handed == old(log.handed) + Handed(FilesIn(tree, visited))
      invariant Extends(old(d.Abs()), d.Abs())
      invariant forall n | n in admitted :: IndexOf(d.Abs(), n).Some?
      invariant admitted <= AdmissibleIn(tree, visited)
    {
      visited, admitted, results := LoadLayer(d, log, tree, layers, i, visited, old(log.handed), old(d.Abs()), admitted, results);
      i := i + 1;
    }
    assert layers[..i] == layers;
    action := Remove;
    LoadedKeepsTimer(old(d.Abs()), d.Abs(), admitted);
  }

  /** After loading, the idle timer keeps running when a Listener was resident before or was admitted. */
  lemma LoadedKeepsTimer(before: seq<ListenerV>, after: seq<ListenerV>, admitted: set<string>)
    requires Extends(before, after) && forall n | n in admitted :: IndexOf(after, n).Some?
    ensures admitted != {} || before != [] ==> IdleTimeout(after).0 == Continue
  {
    if admitted != {} {
      var n :| n in admitted;
      assert IndexOf(after, n).Some?;
    }
  }

  /** Reading one more layer extends the load order by its directory, if the layer is not empty. */
  lemma LoadOrderSnoc(layers: seq<string>, i: nat, kind: DaemonType)
    requires i < |layers|
    ensures LoadOrder(layers[..i + 1], kind) ==
              LoadOrder(layers[..i], kind) + (if layers[i] == [] then [] else [LayerDir(layers[i], kind)])
  {
    LoadOrderAppend(layers[..i], [layers[i]], kind);
    assert layers[..i] + [layers[i]] == layers[..i + 1];
  }

  /** The load order of two runs of layers is the load order of each, in turn. */
  lemma {:induction false} LoadOrderAppend(a: seq<string>, b: seq<string>, kind: DaemonType)
    ensures LoadOrder(a + b, kind) == LoadOrder(a, kind) + LoadOrder(b, kind)
  {
    if a == [] {
      assert a + b == b;
    } else {
      assert (a + b)[1..] == a[1..] + b;
      LoadOrderAppend(a[1..], b, kind);
      var head := if a[0] == [] then [] else [LayerDir(a[0], kind)];
      assert LoadOrder(a + b, kind) == head + LoadOrder(a[1..] + b, kind);
      AppendAssoc(head, LoadOrder(a[1..], kind), LoadOrder(b, kind));
    }
  }

  /**
    busactd_idle_timeout_callback: while a Listener is registered the
    timer keeps running; with none left the main loop is told to quit and
    the timer is removed.
  */
  function IdleTimeout(reg: seq<ListenerV>): (r: (SourceAction, bool))
    ensures r.0 == Continue <==> |reg| > 0
    ensures r.1 <==> reg == []
    ensures r.1 <==> r.0 == Remove
  {
    if |reg| > 0 then (Continue, false) else (Remove, true)
  }
}
