/**
  busactd.c: the Listener registry kept in heap objects.

  A Match and a Listener are objects whose fields the daemon updates in
  place (the subscription handles, the ownership belief, the match list);
  the Daemon owns the list of resident Listeners. Every method is proved
  against the value-level functions of module Registry through the views
  Match.View, Listener.View and Daemon.Abs.
*/
module Busactd {
  import opened Wrappers
  import opened Types
  import opened Transport
  import opened Registry
  import opened MatchString

  /** struct busactd_match, without the back-pointer to its Listener. */
  class Match {
    var sender: Option<string>
    var path: Option<string>
    var interface: Option<string>
    var member: Option<string>
    var arg: Option<string>
    var kind: MatchType
    var mId: nat

    /** The record as a value. */
    function View(): (v: MatchV)
      reads this
      ensures v.mId == mId && v.kind == kind
    {
      MatchV(Filter(sender, path, interface, member, arg), kind, mId)
    }

    /** busactd_match_new: a zero-filled record, so every field NULL, PERSISTENT and unsubscribed. */
    constructor ()
      ensures View() == MatchV(AnyFilter, Persistent, 0)
    {
      sender, path, interface, member, arg := None, None, None, None, None;
      kind := MatchTypeOfCode(0);
      mId := 0;
    }

    /**
      One word of a rule, as the loop body of busactd_match_new_from_string
      handles it: `key=value` with a non-empty value and a key that is a
      prefix of a field name sets that field to the unquoted value; any
      other word changes nothing. `ok` is false when copying the word or
      the value fails.
    */
    method Assign(t: string) returns (ok: bool)
      modifies this
      ensures ok ==> View() == old(View()).(filter := ApplyWord(old(View()).filter, t))
    {
      ok := *;
      if !ok {
        return;
      }
      var e := EqIndex(t);
      if e < |t| - 1 {
        var field := FieldOf(t[..e]);
        if field.Some? {
          ok := *;
          if !ok {
            return;
          }
          var val := Unquote(t[e + 1..]);
          assert Assignment(t) == Some((field.value, val));
          SetField(field.value, val);
        }
      }
    }

    /** The switch of busactd_match_new_from_string that stores a value in the field its key named. */
    method SetField(g: Field, v: string)
      modifies this
      ensures View() == old(View()).(filter := Set(old(View()).filter, g, v))
    {
      match g
      case Sender => sender := Some(v);
      case Path => path := Some(v);
      case Interface => interface := Some(v);
      case Member => member := Some(v);
      case Arg => arg := Some(v);
    }
  }

  /** The values of a list of matches. */
  function Views(ms: seq<Match>): (vs: seq<MatchV>)
    reads ms
    ensures |vs| == |ms| && forall k | 0 <= k < |ms| :: vs[k] == ms[k].View()
  {
    seq(|ms|, k reads ms requires 0 <= k < |ms| => ms[k].View())
  }

  /** The values of a concatenation are the concatenation of the values. */
  lemma ViewsAppend(a: seq<Match>, b: seq<Match>)
    ensures Views(a + b) == Views(a) + Views(b)
  {
    assert forall k | 0 <= k < |a + b| :: Views(a + b)[k] == (Views(a) + Views(b))[k];
  }

  /** No object occurs twice in a list. */
  ghost predicate Distinct<T>(xs: seq<T>)
  {
    forall i, j | 0 <= i < j < |xs| :: xs[i] != xs[j]
  }

  /** The position of the first occurrence of `x`. */
  function FirstIndex<T(==)>(xs: seq<T>, x: T): (k: nat)
    requires x in xs
    ensures k < |xs| && xs[k] == x && x !in xs[..k]
  {
    if xs[0] == x then 0
    else
      var j := FirstIndex(xs[1..], x);
      assert xs[..j + 1] == [xs[0]] + xs[1..][..j];
      j + 1
  }

  /** In a list without repetitions, the first occurrence of the i-th element is the i-th. */
  lemma DistinctFirstIndex<T>(xs: seq<T>, i: nat)
    requires Distinct(xs) && i < |xs|
    ensures FirstIndex(xs, xs[i]) == i
  {
  }

  /** g_list_remove: the list without the first occurrence of `x`. */
  function ListRemove<T(==)>(xs: seq<T>, x: T): (r: seq<T>)
    ensures x !in xs ==> r == xs
    ensures x in xs ==> r == xs[..FirstIndex(xs, x)] + xs[FirstIndex(xs, x) + 1..]
  {
    if xs == [] then []
    else if xs[0] == x then xs[1..]
    else
      var rest := ListRemove(xs[1..], x);
      RemoveBehindHead(xs, x, rest);
      [xs[0]] + rest
  }

  /** Removing `x` behind a head that is not `x` keeps the head in front. */
  lemma RemoveBehindHead<T>(xs: seq<T>, x: T, rest: seq<T>)
    requires xs != [] && xs[0] != x
    requires x !in xs[1..] ==> rest == xs[1..]
    requires x in xs[1..] ==> rest == xs[1..][..FirstIndex(xs[1..], x)] + xs[1..][FirstIndex(xs[1..], x) + 1..]
    ensures x !in xs ==> [xs[0]] + rest == xs
    ensures x in xs ==> [xs[0]] + rest == xs[..FirstIndex(xs, x)] + xs[FirstIndex(xs, x) + 1..]
  {
    assert xs == [xs[0]] + xs[1..];
    if x in xs {
      var j := FirstIndex(xs[1..], x);
      assert FirstIndex(xs, x) == j + 1;
      assert xs[..j + 1] == [xs[0]] + xs[1..][..j];
      assert xs[j + 2..] == xs[1..][j + 1..];
    }
  }

  /**
    The bus side of busactd_register_listener, taking Listener `b` to `a`:
    the NameOwnerChanged watch for the name becomes live when one was made,
    then the matches are subscribed while the name is unowned, or every id
    they held is dropped while it is owned.
  */
  ghost predicate RegisteredOnBus(b: ListenerV, a: ListenerV, s0: map<nat, Filter>, s1: map<nat, Filter>)
  {
    var s := if b.lId == 0 && a.lId != 0 then s0[a.lId := NameOwnerChangedFilter(b.busname)] else s0;
    && (a.owner == Unowned ==> SubscribedOnBus(b.matches, a.matches, s, s1))
    && (a.owner == Owned ==> s1 == Unsubscribing(b.matches, s))
  }

  /** The registry `after` is `before` with Listener `i` re-registered, as seen from the bus. */
  ghost predicate RegisteredOnBusAt(before: seq<ListenerV>, after: seq<ListenerV>, i: nat, s0: map<nat, Filter>, s1: map<nat, Filter>)
  {
    i < |before| && i < |after| && RegisteredOnBus(before[i], after[i], s0, s1)
  }

  /**
    Under the id discipline of the registry (every id held or live is below
    the counter n0), a NameOwnerChanged watch that registration makes is
    live afterwards with the filter for the Listener's own name.
  */
  lemma {:induction false} WatchLive(b: ListenerV, a: ListenerV, owned: bool, n0: nat, n1: nat, s0: map<nat, Filter>, s1: map<nat, Filter>)
    requires Registered(b, a, owned, n0, n1) && RegisteredOnBus(b, a, s0, s1)
    requires forall k | 0 <= k < |b.matches| :: b.matches[k].mId < n0
    requires forall id | id in s0 :: id < n0
    requires b.lId == 0 && a.lId != 0
    ensures a.lId in s1 && s1[a.lId] == NameOwnerChangedFilter(a.busname)
  {
    var s := s0[a.lId := NameOwnerChangedFilter(b.busname)];
    if a.owner == Owned {
      assert forall k | 0 <= k < |b.matches| :: b.matches[k].mId != a.lId;
      assert s1 == Unsubscribing(b.matches, s);
    }
  }

  /**
    Re-registering a resident Listener keeps its NameOwnerChanged watch as
    it was: registration makes no second watch, and since no match holds
    the watch's id, neither subscribing nor unsubscribing the matches
    touches it.
  */
  lemma {:induction false} WatchKept(before: seq<ListenerV>, after: seq<ListenerV>, i: nat, owned: bool, n0: nat, n1: nat,
                                     s0: map<nat, Filter>, s1: map<nat, Filter>)
    requires InvBut(before, i, n0) && RegisteredAt(before, after, i, owned, n0, n1)
    requires RegisteredOnBusAt(before, after, i, s0, s1)
    requires before[i].lId != 0 && before[i].lId in s0
    ensures after[i].lId == before[i].lId && after[i].lId in s1 && s1[after[i].lId] == s0[before[i].lId]
  {
    var b, a := before[i], after[i];
    if a.owner == Owned {
      forall k | 0 <= k < |b.matches| ensures b.matches[k].mId != b.lId {
        assert Located(before, i, k);
      }
      assert s1 == Unsubscribing(b.matches, s0);
    }
  }

  /** struct busactd_listener, without the daemon pointer and the reference count. */
  class Listener {
    const busname: string
    var lId: nat
    var owner: Ownership
    var matches: seq<Match>

    /** A Match is in the list at most once. */
    ghost predicate Valid()
      reads this
    {
      Distinct(matches)
    }

    /** The record as a value. */
    function View(): (v: ListenerV)
      reads this, matches
      ensures v.busname == busname && v.lId == lId && v.owner == owner && v.matches == Views(matches)
    {
      ListenerV(busname, lId, owner, Views(matches))
    }

    /**
      busactd_listener_new followed by the strdup of the name in
      busactd_listener_get: undecided, not subscribed, no matches.
    */
    constructor (name: string)
      ensures Valid() && matches == []
      ensures View() == ListenerV(name, 0, Undecided, [])
    {
      busname := name;
      lId := 0;
      owner := Undecided;
      matches := [];
    }

    /** busactd_listener_update_name_has_owner: ask the bus and record a decided belief. */
    method UpdateNameHasOwner(bus: Bus)
      modifies this`owner
      ensures owner == OwnershipOf(busname in bus.owned)
    {
      var has := bus.NameHasOwner(busname);
      owner := OwnershipOf(has);
    }

    /**
      busactd_listener_subscribe_signal: every match not yet subscribed is
      handed to the bus with its filter, and keeps the id the bus returns.
    */
    method SubscribeSignals(bus: Bus)
      requires Valid() && bus.Valid()
      modifies matches, bus
      ensures bus.Valid() && bus.owned == old(bus.owned) && bus.emitted == old(bus.emitted)
      ensures Subscribed(old(Views(matches)), Views(matches), old(bus.nextId), bus.nextId)
      ensures SubscribedOnBus(old(Views(matches)), Views(matches), old(bus.subscriptions), bus.subscriptions)
    {
      ghost var b, n0, s0 := Views(matches), bus.nextId, bus.subscriptions;
      ghost var a := b;
      var i := 0;
      while i < |matches|
        invariant bus.Valid() && bus.owned == old(bus.owned) && bus.emitted == old(bus.emitted)
        invariant |a| == |matches| && forall k | 0 <= k < |matches| :: matches[k].View() == a[k]
        invariant SubscribedUpTo(b, a, i, n0, bus.nextId)
        invariant SubscribedOnBusUpTo(b, a, i, s0, bus.subscriptions)
      {
        a := SubscribeAt(bus, i, b, a, n0, s0);
        i := i + 1;
      }
      assert Views(matches) == a;
    }

    /**
      One step of busactd_listener_subscribe_signal: the i-th match, if it
      has no id yet, is handed to the bus and keeps the id returned. `a` is
      the list's view so far, and the result its view after the step.
    */
    method SubscribeAt(bus: Bus, i: nat, ghost b: seq<MatchV>, ghost a: seq<MatchV>, ghost n0: nat, ghost s0: map<nat, Filter>)
      returns (ghost a2: seq<MatchV>)
      requires Valid() && bus.Valid() && i < |matches|
      requires |a| == |matches| && forall k | 0 <= k < |matches| :: matches[k].View() == a[k]
      requires SubscribedUpTo(b, a, i, n0, bus.nextId) && SubscribedOnBusUpTo(b, a, i, s0, bus.subscriptions)
      modifies matches[i], bus
      ensures bus.Valid() && bus.owned == old(bus.owned) && bus.emitted == old(bus.emitted)
      ensures |a2| == |matches| && forall k | 0 <= k < |matches| :: matches[k].View() == a2[k]
      ensures SubscribedUpTo(b, a2, i + 1, n0, bus.nextId) && SubscribedOnBusUpTo(b, a2, i + 1, s0, bus.subscriptions)
    {
      var m := matches[i];
      a2 := a;
      if m.mId == 0 {
        ghost var n1, s1 := bus.nextId, bus.subscriptions;
        var id := bus.Subscribe(m.View().filter);
        SubscribeOnBusStep(b, a, i, s0, s1, id, bus.subscriptions);
        m.mId := id;
        SubscribeStep(b, a, i, n0, n1, id, bus.nextId);
        forall k | 0 <= k < |matches| && k != i ensures matches[k].View() == a[k] {
          assert matches[k] != m;
        }
        a2 := a[i := m.View()];
      } else {
        SkipOnBusStep(b, a, i, s0, bus.subscriptions);
      }
    }

    /** busactd_listener_unsubscribe_signal: every subscribed match is unsubscribed and its id cleared. */
    method UnsubscribeSignals(bus: Bus)
      requires Valid() && bus.Valid()
      modifies matches, bus
      ensures bus.Valid() && bus.owned == old(bus.owned) && bus.emitted == old(bus.emitted)
      ensures bus.nextId == old(bus.nextId)
      ensures Unsubscribed(old(Views(matches)), Views(matches))
      ensures bus.subscriptions == Unsubscribing(old(Views(matches)), old(bus.subscriptions))
    {
      ghost var b, s0 := Views(matches), bus.subscriptions;
      var i := 0;
      while i < |matches|
        invariant 0 <= i <= |matches|
        invariant bus.Valid() && bus.owned == old(bus.owned) && bus.emitted == old(bus.emitted)
        invariant bus.nextId == old(bus.nextId)
        invariant forall k | 0 <= k < |matches| :: matches[k].View().filter == b[k].filter
        invariant forall k | 0 <= k < |matches| :: matches[k].kind == b[k].kind
        invariant forall k | i <= k < |matches| :: matches[k].mId == b[k].mId
        invariant forall k | 0 <= k < i :: matches[k].mId == 0
        invariant bus.subscriptions == s0 - HeldIds(b, i)
      {
        var m := matches[i];
        UnsubscribeOnBusStep(b, i, s0);
        if m.mId != 0 {
          bus.Unsubscribe(m.mId);
          m.mId := 0;
        }
        i := i + 1;
      }
    }

    /**
      busactd_register_listener: decide the belief if it is undecided,
      subscribe NameOwnerChanged for the name once, then subscribe the
      matches while the name is unowned and unsubscribe them while it is
      owned.
    */
    method Register(bus: Bus)
      requires Valid() && bus.Valid()
      modifies this, matches, bus
      ensures Valid() && bus.Valid() && matches == old(matches)
      ensures bus.owned == old(bus.owned) && bus.emitted == old(bus.emitted)
      ensures Registered(old(View()), View(), old(busname in bus.owned), old(bus.nextId), bus.nextId)
      ensures RegisteredOnBus(old(View()), View(), old(bus.subscriptions), bus.subscriptions)
    {
      ghost var before, owned, n0 := View(), busname in bus.owned, bus.nextId;
      if owner == Undecided {
        UpdateNameHasOwner(bus);
      }
      assert owner == if before.owner == Undecided then OwnershipOf(owned) else before.owner;
      if lId == 0 {
        lId := bus.Subscribe(NameOwnerChangedFilter(busname));
      }
      assert Views(matches) == before.matches && n0 <= bus.nextId;
      assert before.lId != 0 ==> lId == before.lId;
      assert before.lId == 0 ==> lId == 0 || n0 <= lId < bus.nextId;
      match owner
      case Unowned => SubscribeSignals(bus);
      case Owned => UnsubscribeSignals(bus);
    }
  }

  /** struct busactd: which bus it serves, the bus, and the resident Listeners in registration order. */
  class Daemon {
    const kind: DaemonType
    const bus: Bus
    var listeners: seq<Listener>
    ghost var Repr: set<object>
    /** The Listener whose list holds each Match: the back-pointer of struct busactd_match. */
    ghost var Home: map<Match, Listener>

    /**
      The heap shape: every Listener and Match is owned by the daemon, no
      Listener is resident twice, and no Match is shared between lists.
    */
    ghost predicate Shaped()
      reads this, Repr
    {
      && this in Repr && bus !in Repr
      && (forall i | 0 <= i < |listeners| :: listeners[i] in Repr)
      && Distinct(listeners)
      && (forall i | 0 <= i < |listeners| :: listeners[i].Valid())
      && (forall i, k | 0 <= i < |listeners| && 0 <= k < |listeners[i].matches| ::
            listeners[i].matches[k] in Repr && listeners[i].matches[k] in Home
            && Home[listeners[i].matches[k]] == listeners[i])
    }

    /** listener_list as a value. */
    function Abs(): (reg: seq<ListenerV>)
      reads this, Repr
      requires Shaped()
      ensures |reg| == |listeners| && forall i | 0 <= i < |listeners| :: reg[i] == listeners[i].View()
    {
      seq(|listeners|, i reads this, Repr requires Shaped() && 0 <= i < |listeners| => listeners[i].View())
    }

    /** The registry invariant holds of the resident Listeners, against the bus's id counter. */
    ghost predicate Valid()
      reads this, Repr, bus
    {
      Shaped() && bus.Valid() && Inv(Abs(), bus.nextId)
    }

    /** busactd_new as far as the registry goes: no Listener yet. */
    constructor (kind: DaemonType, bus: Bus)
      requires bus.Valid()
      ensures Valid() && this.kind == kind && this.bus == bus && Abs() == []
    {
      this.kind := kind;
      this.bus := bus;
      listeners := [];
      Repr := {this};
      Home := map[];
    }

    /**
      busactd_listener_get: the resident Listener of that name, or else a
      new, unregistered one, or null when allocation fails.
    */
    method ListenerGet(name: string) returns (l: Listener?)
      requires Valid()
      ensures Valid() && listeners == old(listeners) && Abs() == old(Abs())
      ensures IndexOf(Abs(), name).Some? ==> l == listeners[IndexOf(Abs(), name).value]
      ensures IndexOf(Abs(), name).None? ==>
                l == null || (fresh(l) && l.Valid() && l.matches == [] && l.View() == ListenerV(name, 0, Undecided, []))
    {
      var idx := IndexOf(Abs(), name);
      if idx.Some? {
        l := listeners[idx.value];
      } else {
        var obtained: bool := *;
        if obtained {
          l := new Listener(name);
        } else {
          l := null;
        }
      }
    }

    /**
      busactd_find_match_by_id: nothing for id 0, otherwise the first match
      with that id, scanning the Listeners in order and each list in order.
    */
    method FindMatchById(id: nat) returns (r: Option<(Listener, Match)>)
      requires Valid()
      ensures Valid()
      ensures r.None? <==> FindById(Abs(), id).None?
      ensures r.Some? ==> FindById(Abs(), id).Some?
                          && r.value.0 == listeners[FindById(Abs(), id).value.0]
                          && r.value.1 == listeners[FindById(Abs(), id).value.0].matches[FindById(Abs(), id).value.1]
    {
      if id == 0 {
        return None;
      }
      var i := 0;
      while i < |listeners|
        invariant 0 <= i <= |listeners|
        invariant forall j: nat, k: nat | j < i && Located(Abs(), j, k) :: Abs()[j].matches[k].mId != id
      {
        var l := listeners[i];
        var k := 0;
        while k < |l.matches|
          invariant 0 <= k <= |l.matches|
          invariant forall h | 0 <= h < k :: l.matches[h].mId != id
        {
          if l.matches[k].mId == id {
            assert Located(Abs(), i, k) && Abs()[i].matches[k].mId == id;
            return Some((l, l.matches[k]));
          }
          k := k + 1;
        }
        i := i + 1;
      }
      return None;
    }

    /**
      busactd_remove_listener: the Listener leaves the registry. Its
      NameOwnerChanged subscription is left on the bus.
    */
    method RemoveListener(l: Listener)
      requires Shaped() && l in listeners
      modifies this`listeners
      ensures Shaped()
      ensures listeners == ListRemove(old(listeners), l)
      ensures Abs() == Without(old(Abs()), FirstIndex(old(listeners), l))
    {
      ghost var reg, ls := Abs(), listeners;
      var i := FirstIndex(listeners, l);
      Drop(i);
      ghost var after := Abs();
      ghost var want := Without(reg, i);
      forall j | 0 <= j < |after| ensures after[j] == want[j] {
        var sj := if j < i then j else j + 1;
        assert listeners[j] == ls[sj];
        assert want[j] == reg[sj];
      }
      assert after == want;
    }

    /** g_list_remove of the i-th resident Listener. */
    method Drop(i: nat)
      requires Shaped() && i < |listeners|
      modifies this`listeners
      ensures Shaped() && listeners == old(listeners[..i] + listeners[i + 1..])
    {
      ghost var ls := listeners;
      listeners := listeners[..i] + listeners[i + 1..];
      assert forall j | 0 <= j < i :: listeners[j] == ls[j];
      assert forall j | i <= j < |listeners| :: listeners[j] == ls[j + 1];
    }

    /**
      busactd_register_listener on the i-th resident Listener, which the
      invariant exempts: the call repairs the whole invariant and touches
      no other Listener.
    */
    method RegisterAt(i: nat)
      requires Shaped() && bus.Valid() && InvBut(Abs(), i, bus.nextId)
      modifies Repr, bus
      ensures Valid() && listeners == old(listeners) && Repr == old(Repr) && Home == old(Home)
      ensures listeners[i].matches == old(listeners[i].matches)
      ensures bus.owned == old(bus.owned) && bus.emitted == old(bus.emitted)
      ensures RegisteredAt(old(Abs()), Abs(), i, old(listeners[i].busname in bus.owned), old(bus.nextId), bus.nextId)
      ensures RegisteredOnBusAt(old(Abs()), Abs(), i, old(bus.subscriptions), bus.subscriptions)
      ensures old(Abs())[i].lId == 0 && Abs()[i].lId != 0 ==>
                Abs()[i].lId in bus.subscriptions && bus.subscriptions[Abs()[i].lId] == NameOwnerChangedFilter(Abs()[i].busname)
    {
      var l := listeners[i];
      ghost var before := Abs();
      l.Register(bus);
      assert Shaped();
      ghost var after := Abs();
      forall j | 0 <= j < |listeners| && j != i ensures after[j] == before[j] {
        assert listeners[j] != l;
        assert forall k | 0 <= k < |listeners[j].matches| :: listeners[j].matches[k] !in l.matches;
        assert listeners[j].View() == old(listeners[j].View());
      }
      RegisterRestoresInv(before, after, i, old(l.busname in bus.owned), old(bus.nextId), bus.nextId);
      if before[i].lId == 0 && after[i].lId != 0 {
        assert forall k | 0 <= k < |before[i].matches| :: Located(before, i, k);
        WatchLive(before[i], after[i], old(l.busname in bus.owned), old(bus.nextId), bus.nextId, old(bus.subscriptions), bus.subscriptions);
      }
    }
  
    /**
      A Listener built outside the registry, by busactd_listener_new or
      busactd_listener_get, which, like its matches, nothing has subscribed yet.
    */
    ghost predicate Outside(l: Listener)
      reads this, Repr, l, l.matches
    {
      && l !in Repr && l.Valid()
      && (forall k | 0 <= k < |l.matches| :: l.matches[k] !in Repr)
      && l.lId == 0 && Unsubscribed0(Views(l.matches))
    }

    /** An outside Listener with at least one match: what busactd_add_listener admits. */
    ghost predicate Detached(l: Listener)
      reads this, Repr, l, l.matches
    {
      Outside(l) && |l.matches| > 0
    }

    /** g_list_append of a detached Listener to listener_list. */
    method Append(l: Listener)
      requires Shaped() && l !in Repr && l.Valid() && forall k | 0 <= k < |l.matches| :: l.matches[k] !in Repr
      modifies this
      ensures Shaped() && Repr == old(Repr) + {l} + (set m | m in l.matches)
      ensures listeners == old(listeners) + [l] && l.View() == old(l.View())
      ensures Abs() == old(Abs()) + [l.View()]
    {
      ghost var reg := Abs();
      Link(l);
      forall j | 0 <= j < |reg| ensures Abs()[j] == reg[j] {
        assert listeners[j] == old(listeners)[j];
      }
      assert Abs() == reg + [l.View()];
    }

    /** The list and ownership updates of Append, before its effect on Abs is drawn. */
    method Link(l: Listener)
      requires Shaped() && l !in Repr && l.Valid() && forall k | 0 <= k < |l.matches| :: l.matches[k] !in Repr
      modifies this
      ensures Shaped() && Repr == old(Repr) + {l} + (set m | m in l.matches)
      ensures listeners == old(listeners) + [l]
    {
      listeners := listeners + [l];
      Repr := Repr + {l} + set m | m in l.matches;
      Home := Home + map m | m in l.matches :: l;
    }

    /** g_list_concat of a detached Listener's matches onto the i-th resident Listener's list. */
    method Merge(i: nat, r: Listener, l: Listener)
      requires Shaped() && Detached(l) && i < |listeners| && r == listeners[i]
      modifies this, r`matches
      ensures Shaped() && Repr == old(Repr) + (set m | m in l.matches)
      ensures listeners == old(listeners)
      ensures r.matches == old(r.matches) + l.matches
    {
      Repr, Home := Repr + (set m | m in l.matches), Home + (map m | m in l.matches :: r);
      r.matches := r.matches + l.matches;
      assert Shaped();
    }

    /** Merge, seen through Abs: only the i-th view changes, and its list grows by the new values. */
    method MergeAt(i: nat, r: Listener, l: Listener)
      requires Shaped() && Detached(l) && i < |listeners| && r == listeners[i]
      modifies this, r`matches
      ensures Shaped() && Repr == old(Repr) + (set m | m in l.matches)
      ensures listeners == old(listeners)
      ensures Abs() == old(Abs())[i := old(Abs())[i].(matches := old(Abs())[i].matches + Views(l.matches))]
    {
      ghost var reg := Abs();
      ghost var mine := r.matches;
      Merge(i, r, l);
      ViewsAppend(mine, l.matches);
      ghost var after := Abs();
      ghost var want := reg[i := reg[i].(matches := reg[i].matches + Views(l.matches))];
      assert |after| == |want|;
      forall j | 0 <= j < |after| ensures after[j] == want[j] {
        if j == i {
          assert after[j] == r.View();
        } else {
          assert listeners[j] != r;
          assert listeners[j].View() == old(listeners[j].View());
        }
      }
      assert after == want;
    }

    /**
      The list surgery of busactd_add_listener for a detached Listener: it
      joins the end of the registry when its name is not resident, and
      otherwise hands its matches to the resident Listener of that name.
    */
    method Enter(l: Listener) returns (pos: nat)
      requires Shaped() && bus.Valid() && Inv(Abs(), bus.nextId) && Detached(l)
      modifies this, listeners
      ensures Shaped() && old(Repr) <= Repr <= old(Repr) + {l} + set m | m in l.matches
      ensures pos == Admit(old(Abs()), old(l.View())).1 && pos < |listeners|
      ensures Abs() == Admit(old(Abs()), old(l.View())).0
      ensures InvBut(Abs(), pos, bus.nextId)
      ensures listeners[pos].busname == l.busname
      ensures IndexOf(old(Abs()), l.busname).None? ==> listeners[pos] == l && l.matches == old(l.matches)
    {
      ghost var reg, lv := Abs(), l.View();
      pos := Place(l);
      AdmitKeepsInvBut(reg, lv, bus.nextId);
    }

    /** Enter's list surgery, seen through Abs as Admit. */
    method Place(l: Listener) returns (pos: nat)
      requires Shaped() && Detached(l)
      modifies this, listeners
      ensures Shaped() && old(Repr) <= Repr <= old(Repr) + {l} + set m | m in l.matches
      ensures pos == Admit(old(Abs()), old(l.View())).1 && pos < |listeners|
      ensures Abs() == Admit(old(Abs()), old(l.View())).0
      ensures listeners[pos].busname == l.busname
      ensures IndexOf(old(Abs()), l.busname).None? ==> listeners[pos] == l && l.matches == old(l.matches)
    {
      var idx := IndexOf(Abs(), l.busname);
      if idx.None? {
        assert forall j | 0 <= j < |listeners| :: listeners[j].busname != l.busname;
        Append(l);
        pos := |listeners| - 1;
      } else {
        pos := idx.value;
        MergeAt(pos, listeners[pos], l);
      }
    }

    /**
      busactd_add_listener: a Listener whose name is not resident joins the
      end of the registry; otherwise the resident Listener of that name
      takes over its matches (unless it is that very Listener). The
      resident Listener is then re-registered and returned.
    */
    method AddListener(l: Listener) returns (r: Listener)
      requires Shaped() && bus.Valid()
      requires l in listeners ==> InvBut(Abs(), FirstIndex(listeners, l), bus.nextId)
      requires l !in listeners ==> Inv(Abs(), bus.nextId) && Detached(l)
      modifies Repr, bus, l, l.matches
      ensures Valid() && bus.owned == old(bus.owned) && bus.emitted == old(bus.emitted)
      ensures old(Repr) <= Repr <= old(Repr) + {l} + set m | m in old(l.matches)
      ensures old(l in listeners) ==>
                && r == l && listeners == old(listeners)
                && RegisteredAt(old(Abs()), Abs(), FirstIndex(listeners, l), old(l.busname in bus.owned), old(bus.nextId), bus.nextId)
                && RegisteredOnBusAt(old(Abs()), Abs(), FirstIndex(listeners, l), old(bus.subscriptions), bus.subscriptions)
      ensures old(l !in listeners) ==>
                && Admit(old(Abs()), old(l.View())).1 < |listeners|
                && r == listeners[Admit(old(Abs()), old(l.View())).1]
                && RegisteredAt(Admit(old(Abs()), old(l.View())).0, Abs(), Admit(old(Abs()), old(l.View())).1,
                                old(l.busname in bus.owned), old(bus.nextId), bus.nextId)
                && RegisteredOnBusAt(Admit(old(Abs()), old(l.View())).0, Abs(), Admit(old(Abs()), old(l.View())).1,
                                     old(bus.subscriptions), bus.subscriptions)
      ensures old(l in listeners) || IndexOf(old(Abs()), l.busname).None? ==> r == l && l.matches == old(l.matches)
    {
      var pos: nat;
      if l in listeners {
        pos := FirstIndex(listeners, l);
      } else {
        pos := Enter(l);
      }
      r := listeners[pos];
      RegisterAt(pos);
    }

    /** The k-th match leaves the list of the i-th resident Listener (g_list_remove). */
    method DropMatch(i: nat, r: Listener, k: nat)
      requires Shaped() && i < |listeners| && r == listeners[i] && k < |r.matches|
      modifies r`matches
      ensures Shaped() && r.matches == old(r.matches[..k] + r.matches[k + 1..])
      ensures Abs() == old(Abs())[i := old(Abs())[i].(matches := Dropped(old(Abs())[i].matches, k))]
    {
      ghost var reg, ms := Abs(), r.matches;
      r.matches := r.matches[..k] + r.matches[k + 1..];
      assert forall h | 0 <= h < |r.matches| :: r.matches[h] == ms[if h < k then h else h + 1];
      assert Shaped();
      ghost var after := Abs();
      ghost var want := reg[i := reg[i].(matches := Dropped(reg[i].matches, k))];
      forall j | 0 <= j < |after| ensures after[j] == want[j] {
        if j != i {
          assert listeners[j] != r;
        } else {
          assert Views(r.matches) == Dropped(reg[i].matches, k);
        }
      }
      assert after == want;
    }

    /** The belief of the i-th resident Listener becomes `o`; no other view changes. */
    method SetOwner(i: nat, r: Listener, o: Ownership)
      requires Shaped() && i < |listeners| && r == listeners[i]
      modifies r`owner
      ensures Shaped() && Abs() == old(Abs())[i := old(Abs())[i].(owner := o)]
    {
      ghost var reg := Abs();
      r.owner := o;
      assert Shaped();
      ghost var after := Abs();
      ghost var want := reg[i := reg[i].(owner := o)];
      forall j | 0 <= j < |after| ensures after[j] == want[j] {
        if j != i {
          assert listeners[j] != r;
        }
      }
      assert after == want;
    }

    /** A new match joins the end of the i-th resident Listener's list. */
    method Attach(i: nat, r: Listener, m: Match)
      requires Shaped() && i < |listeners| && r == listeners[i] && m !in Repr
      modifies this, r`matches
      ensures Shaped() && Repr == old(Repr) + {m} && listeners == old(listeners)
      ensures r.matches == old(r.matches) + [m]
      ensures Abs() == AppendMatch(old(Abs()), i, old(m.View()))
    {
      ghost var reg, ms := Abs(), r.matches;
      Repr, Home := Repr + {m}, Home[m := r];
      r.matches := r.matches + [m];
      assert Shaped();
      ghost var after := Abs();
      ghost var want := AppendMatch(reg, i, m.View());
      forall j | 0 <= j < |after| ensures after[j] == want[j] {
        if j != i {
          assert listeners[j] != r;
        } else {
          ViewsAppend(ms, [m]);
        }
      }
      assert after == want;
    }

    /** busactd_add_match when no equal match exists and the Listener is resident. */
    method JoinResident(l: Listener, m: Match)
      requires Valid() && l in listeners && m !in Repr && m.mId == 0
      modifies Repr, bus, m
      ensures Valid() && bus.owned == old(bus.owned) && bus.emitted == old(bus.emitted)
      ensures RegisteredAt(AppendMatch(old(Abs()), FirstIndex(old(listeners), l), old(m.View())), Abs(),
                           FirstIndex(old(listeners), l), old(l.busname in bus.owned), old(bus.nextId), bus.nextId)
      ensures RegisteredOnBusAt(AppendMatch(old(Abs()), FirstIndex(old(listeners), l), old(m.View())), Abs(),
                                FirstIndex(old(listeners), l), old(bus.subscriptions), bus.subscriptions)
      ensures listeners == old(listeners) && l.matches == old(l.matches) + [m]
    {
      var i := FirstIndex(listeners, l);
      ghost var reg := Abs();
      Attach(i, l, m);
      AppendKeepsInvBut(reg, i, old(m.View()), bus.nextId);
      var _ := AddListener(l);
    }

    /** busactd_add_match when no equal match exists and the Listener is not resident yet. */
    method JoinOutside(l: Listener, m: Match)
      requires Valid() && Outside(l) && m !in Repr && m !in l.matches && m.mId == 0
      modifies Repr, bus, l, l.matches, m
      ensures Valid() && bus.owned == old(bus.owned) && bus.emitted == old(bus.emitted)
      ensures RegisteredAt(Admit(old(Abs()), old(l.View()).(matches := old(Views(l.matches)) + [old(m.View())])).0, Abs(),
                           Admit(old(Abs()), old(l.View()).(matches := old(Views(l.matches)) + [old(m.View())])).1,
                           old(l.busname in bus.owned), old(bus.nextId), bus.nextId)
      ensures RegisteredOnBusAt(Admit(old(Abs()), old(l.View()).(matches := old(Views(l.matches)) + [old(m.View())])).0, Abs(),
                                Admit(old(Abs()), old(l.View()).(matches := old(Views(l.matches)) + [old(m.View())])).1,
                                old(bus.subscriptions), bus.subscriptions)
      ensures IndexOf(old(Abs()), l.busname).None? ==> l in listeners && l.matches == old(l.matches) + [m]
    {
      ghost var ms, reg, mv := l.matches, Abs(), m.View();
      ghost var want := l.View().(matches := Views(l.matches) + [mv]);
      l.matches := l.matches + [m];
      ViewsAppend(ms, [m]);
      assert l.Valid() by {
        assert forall k | 0 <= k < |ms| :: l.matches[k] == ms[k];
      }
      assert Unsubscribed0(Views(l.matches));
      assert Abs() == reg;
      assert Detached(l);
      ghost var lv := l.View();
      assert lv == want;
      var _ := AddListener(l);
      assert RegisteredAt(Admit(reg, lv).0, Abs(), Admit(reg, lv).1, old(l.busname in bus.owned), old(bus.nextId), bus.nextId);
    }

    /**
      busactd_add_match: the match the list already holds with the same
      filter, if there is one, and nothing changes; otherwise the new match
      joins the end of the Listener's list and the Listener is added (see
      AddListener) and re-registered.
    */
    method AddMatch(l: Listener, m: Match) returns (r: Match)
      requires Valid() && (l in listeners || Outside(l))
      requires m !in Repr && m !in l.matches && m.mId == 0
      modifies Repr, bus, l, l.matches, m
      ensures Valid() && bus.owned == old(bus.owned) && bus.emitted == old(bus.emitted)
      ensures FirstSame(old(Views(l.matches)), old(m.View().filter)).Some? ==>
                && r == old(l.matches[FirstSame(Views(l.matches), m.View().filter).value])
                && Abs() == old(Abs()) && bus.subscriptions == old(bus.subscriptions) && bus.nextId == old(bus.nextId)
      ensures FirstSame(old(Views(l.matches)), old(m.View().filter)).None? && old(l in listeners) ==>
                && r == m
                && RegisteredAt(AppendMatch(old(Abs()), FirstIndex(old(listeners), l), old(m.View())), Abs(),
                                FirstIndex(old(listeners), l), old(l.busname in bus.owned), old(bus.nextId), bus.nextId)
                && RegisteredOnBusAt(AppendMatch(old(Abs()), FirstIndex(old(listeners), l), old(m.View())), Abs(),
                                     FirstIndex(old(listeners), l), old(bus.subscriptions), bus.subscriptions)
      ensures FirstSame(old(Views(l.matches)), old(m.View().filter)).None? && old(l !in listeners) ==>
                && r == m
                && RegisteredAt(Admit(old(Abs()), old(l.View()).(matches := old(Views(l.matches)) + [old(m.View())])).0, Abs(),
                                Admit(old(Abs()), old(l.View()).(matches := old(Views(l.matches)) + [old(m.View())])).1,
                                old(l.busname in bus.owned), old(bus.nextId), bus.nextId)
                && RegisteredOnBusAt(Admit(old(Abs()), old(l.View()).(matches := old(Views(l.matches)) + [old(m.View())])).0, Abs(),
                                     Admit(old(Abs()), old(l.View()).(matches := old(Views(l.matches)) + [old(m.View())])).1,
                                     old(bus.subscriptions), bus.subscriptions)
      ensures FirstSame(old(Views(l.matches)), old(m.View().filter)).Some? ==> l.matches == old(l.matches) && listeners == old(listeners)
      ensures FirstSame(old(Views(l.matches)), old(m.View().filter)).None? && (old(l in listeners) || IndexOf(old(Abs()), l.busname).None?) ==>
                l in listeners && l.matches == old(l.matches) + [m]
    {
      var same := FirstSame(Views(l.matches), m.View().filter);
      if same.Some? {
        return l.matches[same.value];
      }
      if l in listeners {
        JoinResident(l, m);
      } else {
        JoinOutside(l, m);
      }
      r := m;
    }

    /**
      busactd_remove_match as written: nothing unless the match is RUNTIME;
      otherwise it leaves its Listener's list, and the Listener leaves the
      registry when the list becomes empty. The bus is not told: the
      match's subscription and, on eviction, the Listener's NameOwnerChanged
      subscription stay live.
    */
    method RemoveMatch(l: Listener, m: Match)
      requires Valid() && l in listeners && m in l.matches
      modifies this`listeners, l`matches
      ensures Valid() && bus.subscriptions == old(bus.subscriptions)
      ensures Abs() == RemoveMatchAt(old(Abs()), FirstIndex(old(listeners), l), FirstIndex(old(l.matches), m))
    {
      ghost var reg, i, k := Abs(), FirstIndex(listeners, l), FirstIndex(l.matches, m);
      Unlink(l, m);
      RemoveMatchKeepsInv(reg, i, k, bus.nextId);
    }

    /** RemoveMatch's list surgery, seen through Abs as Registry.RemoveMatchAt. */
    method Unlink(l: Listener, m: Match)
      requires Shaped() && l in listeners && m in l.matches
      modifies this`listeners, l`matches
      ensures Shaped()
      ensures Abs() == RemoveMatchAt(old(Abs()), FirstIndex(old(listeners), l), FirstIndex(old(l.matches), m))
    {
      if m.kind != Runtime {
        return;
      }
      ghost var reg := Abs();
      var i, k := FirstIndex(listeners, l), FirstIndex(l.matches, m);
      DropMatch(i, l, k);
      if |l.matches| == 0 {
        ghost var mid := Abs();
        RemoveListener(l);
        assert Abs() == Without(reg, i) by {
          assert forall j | 0 <= j < |Abs()| :: Abs()[j] == mid[if j < i then j else j + 1];
        }
      }
    }

    /**
      busactd_remove_match as it should be: the same list surgery, and the
      bus is told to drop the match's subscription and, when the Listener
      leaves the registry, its NameOwnerChanged subscription.
    */
    method RemoveMatchReleasing(l: Listener, m: Match)
      requires Valid() && l in listeners && m in l.matches
      modifies this`listeners, l`matches, bus
      ensures Valid() && bus.owned == old(bus.owned) && bus.emitted == old(bus.emitted)
      ensures Abs() == RemoveMatchAt(old(Abs()), FirstIndex(old(listeners), l), FirstIndex(old(l.matches), m))
      ensures bus.subscriptions.Keys
              == Released(old(Abs()), FirstIndex(old(listeners), l), FirstIndex(old(l.matches), m), old(bus.subscriptions.Keys))
    {
      ghost var reg, subs := Abs(), bus.subscriptions.Keys;
      var i, k := FirstIndex(listeners, l), FirstIndex(l.matches, m);
      ghost var want := Released(reg, i, k, subs);
      var runtime, mid, lid, last := m.kind == Runtime, m.mId, l.lId, |l.matches| == 1;
      assert reg[i].lId == lid && reg[i].matches[k] == m.View() && last == (|reg[i].matches| == 1);
      ReleasedInSteps(reg, i, k, subs);
      RemoveMatch(l, m);
      ghost var s1 := bus.subscriptions.Keys;
      if runtime && mid != 0 {
        Unsubscribe(mid);
        s1 := s1 - {mid};
      }
      assert bus.subscriptions.Keys == s1;
      if runtime && last && lid != 0 {
        Unsubscribe(lid);
      }
    }

    /** g_dbus_connection_signal_unsubscribe on the daemon's connection: no record of the daemon changes. */
    method Unsubscribe(id: nat)
      requires Valid()
      modifies bus
      ensures Valid() && Abs() == old(Abs())
      ensures bus.subscriptions == old(bus.subscriptions) - {id}
      ensures bus.owned == old(bus.owned) && bus.emitted == old(bus.emitted) && bus.nextId == old(bus.nextId)
    {
      ghost var reg := Abs();
      bus.Unsubscribe(id);
      assert Abs() == reg;
    }

    /**
      busactd_dbus_name_owner_changed_callback for a resident Listener: the
      notification names the Listener's bus name; an empty new owner means
      the name was released, any other means it was acquired. The Listener
      is then re-registered.
    */
    method OnNameOwnerChanged(l: Listener, name: string, oldOwner: string, newOwner: string)
      requires Valid() && l in listeners && name == l.busname
      modifies Repr, bus
      ensures Valid() && listeners == old(listeners)
      ensures bus.owned == old(bus.owned) && bus.emitted == old(bus.emitted)
      ensures RegisteredAt(old(Abs())[FirstIndex(listeners, l) := old(Abs())[FirstIndex(listeners, l)].(owner := OwnershipOf(newOwner != ""))],
                           Abs(), FirstIndex(listeners, l), old(l.busname in bus.owned), old(bus.nextId), bus.nextId)
      ensures RegisteredOnBusAt(old(Abs())[FirstIndex(listeners, l) := old(Abs())[FirstIndex(listeners, l)].(owner := OwnershipOf(newOwner != ""))],
                                Abs(), FirstIndex(listeners, l), old(bus.subscriptions), bus.subscriptions)
    {
      var i := FirstIndex(listeners, l);
      var o := if newOwner == "" then Unowned else Owned;
      ghost var reg := Abs();
      SetOwner(i, l, o);
      OwnerChangeKeepsInvBut(reg, i, o, bus.nextId);
      RegisterAt(i);
    }

    /**
      busactd_dbus_subscribe_signal_callback: a signal that matched one of
      the Listener's rules is re-emitted with the Listener's bus name as its
      destination, which makes the bus start that service. A failed emission
      is only logged.
    */
    method OnSignal(l: Listener, path: string, interface: string, member: string, args: seq<string>)
      modifies bus
      ensures bus.owned == old(bus.owned) && bus.subscriptions == old(bus.subscriptions) && bus.nextId == old(bus.nextId)
      ensures bus.emitted == old(bus.emitted) + [Emission(l.busname, path, interface, member, args)]
              || bus.emitted == old(bus.emitted)
    {
      var _ := bus.Emit(Emission(l.busname, path, interface, member, args));
    }
  }

  /**
    One step of FOREACH_WORD from position `i` of `s`: skips the
    whitespace and cuts off the next word `t`, leaving `j` just past it
    (`more` is false when only whitespace is left, and `j` is then the end).
  */
  method NextWord(s: string, i: nat) returns (t: string, more: bool, j: nat)
    requires i <= |s|
    ensures j <= |s|
    ensures more ==> i < j && WordsFrom(s, i) == [t] + WordsFrom(s, j)
    ensures !more ==> WordsFrom(s, i) == [] && j == |s|
  {
    var a := SkipSpace(s, i);
    if a == |s| {
      return [], false, |s|;
    }
    var b := WordEnd(s, a);
    t, more, j := s[a..b], true, b;
  }

  /** Concatenation is associative. */
  lemma AppendAssoc<T>(a: seq<T>, b: seq<T>, c: seq<T>)
    ensures a + (b + c) == (a + b) + c
  {
  }

  /**
    busactd_match_new_from_string: a fresh PERSISTENT, unsubscribed match
    whose filter is the rule's words applied in order (see ParseFilter), or
    null when an allocation fails.
  */
  method MatchNewFromString(s: string) returns (m: Match?)
    ensures m != null ==> fresh(m) && m.View() == MatchV(ParseFilter(s), Persistent, 0)
  {
    var obtained: bool := *;
    if !obtained {
      return null;
    }
    m := new Match();
    ghost var done: seq<string> := [];
    var i := 0;
    while i < |s|
      invariant i <= |s|
      invariant Words(s) == done + WordsFrom(s, i)
      invariant m.View() == MatchV(ParseWords(done), Persistent, 0)
      decreases |s| - i
    {
      var t, more, j := NextWord(s, i);
      if more {
        var ok := m.Assign(t);
        if !ok {
          return null;
        }
        ParseWordsSnoc(done, t);
        AppendAssoc(done, [t], WordsFrom(s, j));
        done := done + [t];
      }
      i := j;
    }
    assert Words(s) == done;
  }
}
