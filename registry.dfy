/**
  The listener registry of busactd.c as values: lookups, admission, match
  removal, the effect of re-registration, and the invariant every operation
  keeps. The methods of module Busactd are proved against these functions.
*/
module Registry {
  import opened Wrappers
  import opened Types

  /** streq_ptr: two NULLs are equal, NULL never equals a string. */
  function StrEqPtr(a: Option<string>, b: Option<string>): (r: bool)
    ensures r <==> a == b
  {
    match (a, b)
    case (None, None) => true
    case (Some(x), Some(y)) => x == y
    case _ => false
  }

  /** busactd_match_compare_func, read as "equal": streq_ptr on all five fields. */
  function SameFilter(a: Filter, b: Filter): (r: bool)
    ensures r <==> a == b
  {
    && StrEqPtr(a.sender, b.sender)
    && StrEqPtr(a.path, b.path)
    && StrEqPtr(a.interface, b.interface)
    && StrEqPtr(a.member, b.member)
    && StrEqPtr(a.arg, b.arg)
  }

  /** The position of the first match whose filter equals `f` (the lookup in busactd_add_match). */
  function FirstSame(ms: seq<MatchV>, f: Filter): (r: Option<nat>)
    ensures r.Some? ==> r.value < |ms| && ms[r.value].filter == f
    ensures r.Some? ==> forall k | 0 <= k < r.value :: ms[k].filter != f
    ensures r.None? <==> forall k | 0 <= k < |ms| :: ms[k].filter != f
  {
    if ms == [] then None
    else if SameFilter(ms[0].filter, f) then Some(0)
    else match FirstSame(ms[1..], f)
      case None => None
      case Some(k) => Some(k + 1)
  }

  /** The position of the first Listener named `name` (g_list_find_custom with strcmp). */
  function IndexOf(reg: seq<ListenerV>, name: string): (r: Option<nat>)
    ensures r.Some? ==> r.value < |reg| && reg[r.value].busname == name
    ensures r.Some? ==> forall j | 0 <= j < r.value :: reg[j].busname != name
    ensures r.None? <==> forall j | 0 <= j < |reg| :: reg[j].busname != name
  {
    if reg == [] then None
    else if reg[0].busname == name then Some(0)
    else match IndexOf(reg[1..], name)
      case None => None
      case Some(j) => Some(j + 1)
  }

  /** (i, k) names the k-th match of the i-th Listener. */
  predicate Located(reg: seq<ListenerV>, i: nat, k: nat)
  {
    i < |reg| && k < |reg[i].matches|
  }

  /** The position of the first match in `ms` whose m_id is `id`. */
  function FindIn(ms: seq<MatchV>, id: nat): (r: Option<nat>)
    ensures r.Some? ==> r.value < |ms| && ms[r.value].mId == id
    ensures r.Some? ==> forall k | 0 <= k < r.value :: ms[k].mId != id
    ensures r.None? <==> forall k | 0 <= k < |ms| :: ms[k].mId != id
  {
    if ms == [] then None
    else if ms[0].mId == id then Some(0)
    else match FindIn(ms[1..], id)
      case None => None
      case Some(k) => Some(k + 1)
  }

  /** The registry-order scan behind busactd_find_match_by_id, without the id-0 guard. */
  function FindFrom(reg: seq<ListenerV>, id: nat): (r: Option<(nat, nat)>)
    ensures r.Some? ==> Located(reg, r.value.0, r.value.1)
                        && reg[r.value.0].matches[r.value.1].mId == id
    ensures r.Some? ==> forall j, k | 0 <= j < r.value.0 && 0 <= k < |reg[j].matches| :: reg[j].matches[k].mId != id
    ensures r.Some? ==> forall k | 0 <= k < r.value.1 :: reg[r.value.0].matches[k].mId != id
    ensures r.None? <==> forall j: nat, k: nat | Located(reg, j, k) :: reg[j].matches[k].mId != id
  {
    if reg == [] then None
    else match FindIn(reg[0].matches, id)
      case Some(k) => Some((0, k))
      case None =>
        match FindFrom(reg[1..], id)
        case None =>
          assert forall j: nat, k: nat | Located(reg, j, k) && j > 0 :: reg[j].matches[k] == reg[1..][j - 1].matches[k];
          None
        case Some(p) => Some((p.0 + 1, p.1))
  }

  /**
    busactd_find_match_by_id: none for id 0; otherwise the first match with
    that m_id, in registry order and then list order.
  */
  function FindById(reg: seq<ListenerV>, id: nat): (r: Option<(nat, nat)>)
    ensures id == 0 ==> r.None?
    ensures r.Some? ==> Located(reg, r.value.0, r.value.1)
                        && reg[r.value.0].matches[r.value.1].mId == id
    ensures r.Some? ==> forall j, k | 0 <= j < r.value.0 && 0 <= k < |reg[j].matches| :: reg[j].matches[k].mId != id
    ensures r.Some? ==> forall k | 0 <= k < r.value.1 :: reg[r.value.0].matches[k].mId != id
    ensures id != 0 ==> (r.None? <==> forall j: nat, k: nat | Located(reg, j, k) :: reg[j].matches[k].mId != id)
  {
    if id == 0 then None else FindFrom(reg, id)
  }

  // ---------------------------------------------------------------------
  // The invariant of the registry

  /** Invariant A: one Listener per bus name. */
  ghost predicate UniqueNames(reg: seq<ListenerV>)
  {
    forall i, j | 0 <= i < j < |reg| :: reg[i].busname != reg[j].busname
  }

  /**
    What every resident Listener satisfies once its registration has run:
    it has a match (Invariant C), its belief is decided (Invariant D), and
    while the name is owned none of its matches is subscribed (Invariant B).
  */
  ghost predicate Settled(l: ListenerV)
  {
    && |l.matches| > 0
    && l.owner != Undecided
    && (l.owner == Owned ==> forall k | 0 <= k < |l.matches| :: l.matches[k].mId == 0)
  }

  /** Every m_id is below the id the bus hands out next. */
  ghost predicate IdsBelow(reg: seq<ListenerV>, next: nat)
  {
    forall i: nat, k: nat | Located(reg, i, k) :: reg[i].matches[k].mId < next
  }

  /** No two matches share a non-zero m_id. */
  ghost predicate IdsDistinct(reg: seq<ListenerV>)
  {
    forall i: nat, k: nat, j: nat, h: nat | Located(reg, i, k) && Located(reg, j, h)
                        && reg[i].matches[k].mId != 0
                        && reg[i].matches[k].mId == reg[j].matches[h].mId
      :: i == j && k == h
  }

  /** Every l_id is below the id the bus hands out next. */
  ghost predicate WatchesBelow(reg: seq<ListenerV>, next: nat)
  {
    forall j | 0 <= j < |reg| :: reg[j].lId < next
  }

  /**
    A non-zero l_id belongs to one Listener and to no match: the bus hands
    out every id, for watches and rules alike, from one counter.
  */
  ghost predicate WatchesApart(reg: seq<ListenerV>)
  {
    && (forall j1, j2 {:trigger reg[j1].lId, reg[j2].lId} | 0 <= j1 < j2 < |reg| && reg[j1].lId != 0
          :: reg[j1].lId != reg[j2].lId)
    && (forall j, i: nat, k: nat {:trigger reg[i].matches[k].mId, reg[j].lId}
          | 0 <= j < |reg| && Located(reg, i, k) && reg[j].lId != 0
          :: reg[i].matches[k].mId != reg[j].lId)
  }

  /** The invariant of the registry between two events of the main loop. */
  ghost predicate Inv(reg: seq<ListenerV>, next: nat)
  {
    && UniqueNames(reg)
    && (forall i | 0 <= i < |reg| :: Settled(reg[i]))
    && IdsBelow(reg, next)
    && IdsDistinct(reg)
    && WatchesBelow(reg, next)
    && WatchesApart(reg)
  }

  /**
    The invariant with Listener `i` about to be re-registered: it has a
    match, but its belief may be undecided or may have just changed.
  */
  ghost predicate InvBut(reg: seq<ListenerV>, i: nat, next: nat)
  {
    && i < |reg|
    && UniqueNames(reg)
    && (forall j | 0 <= j < |reg| && j != i :: Settled(reg[j]))
    && |reg[i].matches| > 0
    && IdsBelow(reg, next)
    && IdsDistinct(reg)
    && WatchesBelow(reg, next)
    && WatchesApart(reg)
  }

  // ---------------------------------------------------------------------
  // busactd_register_listener

  /** Same filter and same type: what subscribing or unsubscribing never touches. */
  ghost predicate SameRules(b: seq<MatchV>, a: seq<MatchV>)
  {
    |a| == |b| && forall k | 0 <= k < |a| :: a[k].filter == b[k].filter && a[k].kind == b[k].kind
  }

  /**
    busactd_listener_subscribe_signal: every match with m_id 0 is handed to
    the bus and gets 0 or an id from [n0, n1), ids handed out later being
    larger; matches already subscribed keep their id.
  */
  ghost predicate Subscribed(b: seq<MatchV>, a: seq<MatchV>, n0: nat, n1: nat)
  {
    && n0 <= n1
    && SameRules(b, a)
    && (forall k | 0 <= k < |a| :: b[k].mId != 0 ==> a[k].mId == b[k].mId)
    && (forall k | 0 <= k < |a| :: b[k].mId == 0 ==> a[k].mId == 0 || n0 <= a[k].mId < n1)
    && (forall k, h | 0 <= k < h < |a| && b[k].mId == 0 && b[h].mId == 0 && a[k].mId != 0 && a[h].mId != 0
          :: a[k].mId < a[h].mId)
  }

  /** Subscribed, for the first `i` matches of a list being walked; the rest are untouched. */
  ghost predicate SubscribedUpTo(b: seq<MatchV>, a: seq<MatchV>, i: nat, n0: nat, n1: nat)
  {
    && i <= |a| && n0 <= n1 && SameRules(b, a)
    && (forall k | i <= k < |a| :: a[k].mId == b[k].mId)
    && (forall k | 0 <= k < i :: b[k].mId != 0 ==> a[k].mId == b[k].mId)
    && (forall k | 0 <= k < i :: b[k].mId == 0 ==> a[k].mId == 0 || n0 <= a[k].mId < n1)
    && (forall k, h | 0 <= k < h < i && b[k].mId == 0 && b[h].mId == 0 && a[k].mId != 0 && a[h].mId != 0
          :: a[k].mId < a[h].mId)
  }

  /** One step of the walk: an unsubscribed match gets 0 or the next id of the bus. */
  lemma SubscribeStep(b: seq<MatchV>, a: seq<MatchV>, i: nat, n0: nat, n1: nat, id: nat, n2: nat)
    requires SubscribedUpTo(b, a, i, n0, n1) && i < |a| && a[i].mId == 0
    requires (id == 0 && n2 == n1) || (id == n1 && n2 == n1 + 1)
    ensures SubscribedUpTo(b, a[i := a[i].(mId := id)], i + 1, n0, n2)
  {
  }

  /** busactd_listener_unsubscribe_signal: every m_id becomes 0. */
  ghost predicate Unsubscribed(b: seq<MatchV>, a: seq<MatchV>)
  {
    SameRules(b, a) && forall k | 0 <= k < |a| :: a[k].mId == 0
  }

  /** The ids the walk over the first `i` matches newly handed out: matches that had 0 and now have an id. */
  ghost function NewIds(b: seq<MatchV>, a: seq<MatchV>, i: nat): set<nat>
    requires i <= |a| == |b|
  {
    set k | 0 <= k < i && b[k].mId == 0 && a[k].mId != 0 :: a[k].mId
  }

  /**
    The bus side of busactd_listener_subscribe_signal, for the first `i`
    matches: each match it subscribed is live under its new id with its
    filter, every subscription live before is kept as it was, and nothing
    else becomes live.
  */
  ghost predicate SubscribedOnBusUpTo(b: seq<MatchV>, a: seq<MatchV>, i: nat, s0: map<nat, Filter>, s1: map<nat, Filter>)
  {
    && i <= |a| == |b|
    && s1.Keys == s0.Keys + NewIds(b, a, i)
    && (forall id | id in s0 :: s1[id] == s0[id])
    && (forall k | 0 <= k < i && b[k].mId == 0 && a[k].mId != 0 :: s1[a[k].mId] == a[k].filter)
  }

  /** The bus side of busactd_listener_subscribe_signal, for the whole list. */
  ghost predicate SubscribedOnBus(b: seq<MatchV>, a: seq<MatchV>, s0: map<nat, Filter>, s1: map<nat, Filter>)
  {
    |a| == |b| && SubscribedOnBusUpTo(b, a, |a|, s0, s1)
  }

  /**
    One step of the walk on the bus: a match with m_id 0 that the bus
    refused leaves the subscriptions alone; one it accepted is live under
    its new id, which no live subscription had.
  */
  lemma SubscribeOnBusStep(b: seq<MatchV>, a: seq<MatchV>, i: nat, s0: map<nat, Filter>, s1: map<nat, Filter>, id: nat, s2: map<nat, Filter>)
    requires SubscribedOnBusUpTo(b, a, i, s0, s1) && i < |a| && b[i].mId == 0
    requires (id == 0 && s2 == s1) || (id != 0 && id !in s1 && s2 == s1[id := a[i].filter])
    ensures SubscribedOnBusUpTo(b, a[i := a[i].(mId := id)], i + 1, s0, s2)
  {
    var a2 := a[i := a[i].(mId := id)];
    assert NewIds(b, a2, i) == NewIds(b, a, i);
    if id != 0 {
      assert NewIds(b, a2, i + 1) == NewIds(b, a, i) + {id};
    } else {
      assert NewIds(b, a2, i + 1) == NewIds(b, a, i);
    }
  }

  /** A match that already had an id is passed over: the bus does not change. */
  lemma SkipOnBusStep(b: seq<MatchV>, a: seq<MatchV>, i: nat, s0: map<nat, Filter>, s1: map<nat, Filter>)
    requires SubscribedOnBusUpTo(b, a, i, s0, s1) && i < |a| && b[i].mId != 0
    ensures SubscribedOnBusUpTo(b, a, i + 1, s0, s1)
  {
    assert NewIds(b, a, i + 1) == NewIds(b, a, i);
  }

  /** The m_ids of the first `i` matches of a list. */
  ghost function HeldIds(b: seq<MatchV>, i: nat): set<nat>
    requires i <= |b|
  {
    set k | 0 <= k < i :: b[k].mId
  }

  /** The bus side of busactd_listener_unsubscribe_signal: every id the list held is dropped, and nothing else. */
  ghost function Unsubscribing(b: seq<MatchV>, s: map<nat, Filter>): (r: map<nat, Filter>)
    ensures forall k | 0 <= k < |b| :: b[k].mId !in r
    ensures forall id | id in s && (forall k | 0 <= k < |b| :: b[k].mId != id) :: id in r && r[id] == s[id]
  {
    s - HeldIds(b, |b|)
  }

  /** One step of the unsubscribing walk: the next id is dropped, which changes nothing when it is 0. */
  lemma UnsubscribeOnBusStep(b: seq<MatchV>, i: nat, s: map<nat, Filter>)
    requires i < |b| && 0 !in s
    ensures s - HeldIds(b, i + 1) == (s - HeldIds(b, i)) - {b[i].mId}
  {
    assert HeldIds(b, i + 1) == HeldIds(b, i) + {b[i].mId};
  }

  /**
    busactd_register_listener, taking Listener `b` to `a`: the belief is
    queried (answer `owned`) only while undecided, NameOwnerChanged is
    subscribed only while l_id is 0, and then the matches are subscribed if
    the name is unowned and unsubscribed if it is owned. The watch comes
    first, so a match subscribed here gets a larger id than a watch made
    here. The bus's id counter goes from n0 to n1.
  */
  ghost predicate Registered(b: ListenerV, a: ListenerV, owned: bool, n0: nat, n1: nat)
  {
    && n0 <= n1
    && a.busname == b.busname
    && a.owner == (if b.owner == Undecided then OwnershipOf(owned) else b.owner)
    && (b.lId != 0 ==> a.lId == b.lId)
    && (b.lId == 0 ==> a.lId == 0 || n0 <= a.lId < n1)
    && (a.owner == Unowned ==> Subscribed(b.matches, a.matches, n0, n1))
    && (a.owner == Owned ==> Unsubscribed(b.matches, a.matches))
    && (b.lId == 0 && a.lId != 0 ==>
          forall k | 0 <= k < |a.matches| && k < |b.matches| && b.matches[k].mId == 0 && a.matches[k].mId != 0
            :: a.lId < a.matches[k].mId)
  }

  /** The registry `after` is `before` with Listener `i` re-registered. */
  ghost predicate RegisteredAt(before: seq<ListenerV>, after: seq<ListenerV>, i: nat, owned: bool, n0: nat, n1: nat)
  {
    && i < |before| && |after| == |before|
    && (forall j | 0 <= j < |before| && j != i :: after[j] == before[j])
    && Registered(before[i], after[i], owned, n0, n1)
  }

  /** Re-registering the Listener the invariant exempts restores the whole invariant. */
  lemma {:induction false} RegisterRestoresInv(before: seq<ListenerV>, after: seq<ListenerV>, i: nat, owned: bool, n0: nat, n1: nat)
    requires InvBut(before, i, n0)
    requires RegisteredAt(before, after, i, owned, n0, n1)
    ensures Inv(after, n1)
  {
    var b, a := before[i], after[i];
    assert SameRules(b.matches, a.matches);
    forall j | 0 <= j < |after| ensures after[j].busname == before[j].busname {
    }
    forall j: nat, k: nat | Located(after, j, k) ensures after[j].matches[k].mId < n1 {
      assert Located(before, j, k);
    }
    RegisterKeepsIdsDistinct(before, after, i, owned, n0, n1);
  }

  /** Re-registration keeps non-zero m_ids distinct: a surviving id is below n0, a fresh one at least n0. */
  lemma {:induction false} RegisterKeepsIdsDistinct(before: seq<ListenerV>, after: seq<ListenerV>, i: nat, owned: bool, n0: nat, n1: nat)
    requires InvBut(before, i, n0)
    requires RegisteredAt(before, after, i, owned, n0, n1)
    ensures IdsDistinct(after)
  {
    var b, a := before[i], after[i];
    forall i1: nat, k1: nat, j1: nat, h1: nat | Located(after, i1, k1) && Located(after, j1, h1)
        && (i1 != j1 || k1 != h1) && after[i1].matches[k1].mId != 0
      ensures after[i1].matches[k1].mId != after[j1].matches[h1].mId
    {
      assert Located(before, i1, k1) && Located(before, j1, h1);
      var bx, bz := before[i1].matches[k1].mId, before[j1].matches[h1].mId;
      // an id either survived from `before` (so it is below n0) or is fresh (so it is at least n0)
      if i1 == i && j1 == i {
        assert a.owner == Unowned;
        if bx == 0 && bz == 0 && a.matches[h1].mId != 0 {
          if k1 < h1 {
            assert a.matches[k1].mId < a.matches[h1].mId;
          } else {
            assert a.matches[h1].mId < a.matches[k1].mId;
          }
        }
      }
    }
  }

  // ---------------------------------------------------------------------
  // busactd_add_listener and busactd_add_match

  /**
    busactd_add_listener before its re-registration: a Listener with a new
    name is appended; one whose name is resident has its matches
    concatenated onto the resident's list, without de-duplication. The
    second component is the position of the Listener then re-registered.
  */
  function Admit(reg: seq<ListenerV>, l: ListenerV): (r: (seq<ListenerV>, nat))
    ensures r.1 < |r.0| && r.0[r.1].busname == l.busname
    ensures IndexOf(reg, l.busname).None? ==> |r.0| == |reg| + 1 && r.1 == |reg| && r.0[r.1] == l
    ensures IndexOf(reg, l.busname).Some? ==>
              && |r.0| == |reg| && r.1 == IndexOf(reg, l.busname).value
              && r.0[r.1] == reg[r.1].(matches := reg[r.1].matches + l.matches)
    ensures forall j | 0 <= j < |reg| && j != r.1 :: r.0[j] == reg[j]
    ensures UniqueNames(reg) ==> UniqueNames(r.0)
  {
    match IndexOf(reg, l.busname)
    case None => (reg + [l], |reg|)
    case Some(i) => (reg[i := reg[i].(matches := reg[i].matches + l.matches)], i)
  }

  /** None of the matches is subscribed yet: what a freshly parsed match list looks like. */
  ghost predicate Unsubscribed0(ms: seq<MatchV>)
  {
    forall k | 0 <= k < |ms| :: ms[k].mId == 0
  }

  /**
    Admitting a Listener with unsubscribed matches leaves the registry in
    the state that re-registering the admitted position repairs.
  */
  lemma {:induction false} AdmitKeepsInvBut(reg: seq<ListenerV>, l: ListenerV, n: nat)
    requires Inv(reg, n) && 0 < n
    requires |l.matches| > 0 && Unsubscribed0(l.matches) && l.lId == 0
    ensures InvBut(Admit(reg, l).0, Admit(reg, l).1, n)
  {
    var (r, i) := Admit(reg, l);
    // every non-zero id of `r` sits where it sat in `reg`
    assert forall j: nat, k: nat | Located(r, j, k) && r[j].matches[k].mId != 0 ::
      Located(reg, j, k) && r[j].matches[k] == reg[j].matches[k];
  }

  /** busactd_add_match when no equal match exists: the match goes to the end of Listener i's list. */
  function AppendMatch(reg: seq<ListenerV>, i: nat, m: MatchV): (r: seq<ListenerV>)
    requires i < |reg|
    ensures |r| == |reg| && r[i].matches == reg[i].matches + [m]
    ensures r[i] == reg[i].(matches := r[i].matches)
    ensures forall j | 0 <= j < |reg| && j != i :: r[j] == reg[j]
  {
    reg[i := reg[i].(matches := reg[i].matches + [m])]
  }

  /** An unsubscribed match added to a resident Listener leaves that Listener to be re-registered. */
  lemma {:induction false} AppendKeepsInvBut(reg: seq<ListenerV>, i: nat, m: MatchV, n: nat)
    requires Inv(reg, n) && i < |reg| && m.mId == 0 && 0 < n
    ensures InvBut(AppendMatch(reg, i, m), i, n)
  {
    var r := AppendMatch(reg, i, m);
    assert forall j: nat, k: nat | Located(r, j, k) && r[j].matches[k].mId != 0 ::
      Located(reg, j, k) && r[j].matches[k] == reg[j].matches[k];
  }

  /** A NameOwnerChanged notification changes the belief of Listener i, which is then re-registered. */
  lemma OwnerChangeKeepsInvBut(reg: seq<ListenerV>, i: nat, o: Ownership, n: nat)
    requires Inv(reg, n) && i < |reg|
    ensures InvBut(reg[i := reg[i].(owner := o)], i, n)
  {
    var r := reg[i := reg[i].(owner := o)];
    assert forall j | 0 <= j < |r| :: r[j].busname == reg[j].busname && r[j].matches == reg[j].matches;
  }

  // ---------------------------------------------------------------------
  // busactd_remove_listener and busactd_remove_match

  /** The registry without its i-th Listener (g_list_remove). */
  function Without(reg: seq<ListenerV>, i: nat): (r: seq<ListenerV>)
    requires i < |reg|
    ensures |r| == |reg| - 1
    ensures forall j | 0 <= j < |r| :: r[j] == reg[if j < i then j else j + 1]
  {
    reg[..i] + reg[i + 1..]
  }

  /** Evicting a Listener keeps the invariant: it only ever constrains what remains. */
  lemma {:induction false} WithoutKeepsInv(reg: seq<ListenerV>, i: nat, n: nat)
    requires Inv(reg, n) && i < |reg|
    ensures Inv(Without(reg, i), n)
  {
    var r := Without(reg, i);
    forall j1, j2 | 0 <= j1 < j2 < |r| ensures r[j1].busname != r[j2].busname {
      assert r[j1] == reg[if j1 < i then j1 else j1 + 1] && r[j2] == reg[if j2 < i then j2 else j2 + 1];
    }
    forall j1: nat, h1: nat, j2: nat, h2: nat | Located(r, j1, h1) && Located(r, j2, h2)
        && r[j1].matches[h1].mId != 0 && r[j1].matches[h1].mId == r[j2].matches[h2].mId
      ensures j1 == j2 && h1 == h2
    {
      var s1, s2 := if j1 < i then j1 else j1 + 1, if j2 < i then j2 else j2 + 1;
      assert Located(reg, s1, h1) && Located(reg, s2, h2);
      assert r[j1] == reg[s1] && r[j2] == reg[s2];
    }
    forall j: nat, h: nat | Located(r, j, h) ensures r[j].matches[h].mId < n {
      var s := if j < i then j else j + 1;
      assert r[j] == reg[s] && Located(reg, s, h);
    }
  }

  /** A match list without its k-th entry (g_list_remove). */
  function Dropped(ms: seq<MatchV>, k: nat): (r: seq<MatchV>)
    requires k < |ms|
    ensures |r| == |ms| - 1
    ensures forall h | 0 <= h < |r| :: r[h] == ms[if h < k then h else h + 1]
  {
    ms[..k] + ms[k + 1..]
  }

  /**
    busactd_remove_match on the k-th match of Listener i: nothing unless the
    match is RUNTIME; otherwise it leaves the list, and the Listener leaves
    the registry exactly when its list becomes empty.
  */
  function RemoveMatchAt(reg: seq<ListenerV>, i: nat, k: nat): (r: seq<ListenerV>)
    requires Located(reg, i, k)
    ensures reg[i].matches[k].kind != Runtime ==> r == reg
    ensures reg[i].matches[k].kind == Runtime && |reg[i].matches| == 1 ==> r == Without(reg, i)
    ensures reg[i].matches[k].kind == Runtime && |reg[i].matches| > 1 ==>
              && |r| == |reg|
              && r[i] == reg[i].(matches := Dropped(reg[i].matches, k))
              && forall j | 0 <= j < |reg| && j != i :: r[j] == reg[j]
  {
    if reg[i].matches[k].kind != Runtime then reg
    else
      var rest := Dropped(reg[i].matches, k);
      if rest == [] then Without(reg, i) else reg[i := reg[i].(matches := rest)]
  }

  /** Removing a match keeps the registry invariant. */
  lemma {:induction false} RemoveMatchKeepsInv(reg: seq<ListenerV>, i: nat, k: nat, n: nat)
    requires Inv(reg, n) && Located(reg, i, k)
    ensures Inv(RemoveMatchAt(reg, i, k), n)
  {
    var ms := reg[i].matches;
    if ms[k].kind != Runtime {
    } else if |ms| == 1 {
      WithoutKeepsInv(reg, i, n);
    } else {
      var r := RemoveMatchAt(reg, i, k);
      assert forall j | 0 <= j < |r| :: r[j].busname == reg[j].busname;
      forall j: nat, h: nat | Located(r, j, h)
        ensures Located(reg, j, if j == i && h >= k then h + 1 else h)
        ensures r[j].matches[h] == reg[j].matches[if j == i && h >= k then h + 1 else h]
      {
      }
      forall j1: nat, h1: nat, j2: nat, h2: nat | Located(r, j1, h1) && Located(r, j2, h2)
          && r[j1].matches[h1].mId != 0 && r[j1].matches[h1].mId == r[j2].matches[h2].mId
        ensures j1 == j2 && h1 == h2
      {
        var g1, g2 := if j1 == i && h1 >= k then h1 + 1 else h1, if j2 == i && h2 >= k then h2 + 1 else h2;
        assert reg[j1].matches[g1].mId == reg[j2].matches[g2].mId;
      }
    }
  }

  /** Where the match at (j, h) of the registry after removing (i, k) sat before. */
  function Source(reg: seq<ListenerV>, i: nat, k: nat, j: nat, h: nat): (nat, nat)
    requires Located(reg, i, k)
  {
    if |reg[i].matches| == 1 then (if j < i then j else j + 1, h)
    else (j, if j == i && h >= k then h + 1 else h)
  }

  /** Where the match at p, other than (i, k), sits after removing (i, k). */
  function Target(reg: seq<ListenerV>, i: nat, k: nat, p: (nat, nat)): (nat, nat)
    requires Located(reg, i, k)
  {
    if |reg[i].matches| == 1 then (if p.0 <= i then p.0 else p.0 - 1, p.1)
    else (p.0, if p.0 == i && p.1 > k then p.1 - 1 else p.1)
  }

  /** Every match after a removal is a match from before, other than the removed one. */
  lemma SourceLocated(reg: seq<ListenerV>, i: nat, k: nat, j: nat, h: nat)
    requires Located(reg, i, k) && reg[i].matches[k].kind == Runtime
    requires Located(RemoveMatchAt(reg, i, k), j, h)
    ensures Located(reg, Source(reg, i, k, j, h).0, Source(reg, i, k, j, h).1)
    ensures Source(reg, i, k, j, h) != (i, k)
    ensures RemoveMatchAt(reg, i, k)[j].matches[h]
            == reg[Source(reg, i, k, j, h).0].matches[Source(reg, i, k, j, h).1]
  {
  }

  /** Every match from before a removal, other than the removed one, is still there. */
  lemma TargetLocated(reg: seq<ListenerV>, i: nat, k: nat, p: (nat, nat))
    requires Located(reg, i, k) && reg[i].matches[k].kind == Runtime
    requires Located(reg, p.0, p.1) && p != (i, k)
    ensures Located(RemoveMatchAt(reg, i, k), Target(reg, i, k, p).0, Target(reg, i, k, p).1)
    ensures RemoveMatchAt(reg, i, k)[Target(reg, i, k, p).0].matches[Target(reg, i, k, p).1]
            == reg[p.0].matches[p.1]
  {
  }

  /**
    After a RUNTIME match with a non-zero id is removed, no match carries
    that id any more, while every other id is found exactly when it was
    found before.
  */
  lemma {:induction false} RemoveMatchForgetsOnlyItsId(reg: seq<ListenerV>, i: nat, k: nat, n: nat, other: nat)
    requires Inv(reg, n) && Located(reg, i, k)
    requires reg[i].matches[k].kind == Runtime && reg[i].matches[k].mId != 0
    ensures FindById(RemoveMatchAt(reg, i, k), reg[i].matches[k].mId).None?
    ensures other != reg[i].matches[k].mId ==>
              (FindById(RemoveMatchAt(reg, i, k), other).Some? <==> FindById(reg, other).Some?)
  {
    var id := reg[i].matches[k].mId;
    var r := RemoveMatchAt(reg, i, k);
    forall j: nat, h: nat | Located(r, j, h) ensures r[j].matches[h].mId != id {
      SourceLocated(reg, i, k, j, h);
    }
    if other != id && other != 0 {
      if FindById(reg, other).Some? {
        var p := FindById(reg, other).value;
        TargetLocated(reg, i, k, p);
      }
      if FindById(r, other).Some? {
        var q := FindById(r, other).value;
        SourceLocated(reg, i, k, q.0, q.1);
      }
    }
  }

  // ---------------------------------------------------------------------
  // Live subscriptions and the records their callbacks point at

  /**
    Every live subscription id belongs to a match of the registry or to a
    Listener's NameOwnerChanged subscription: no callback is left holding a
    Listener that has left the registry.
  */
  ghost predicate Tracked(reg: seq<ListenerV>, subs: set<nat>)
  {
    forall id | id in subs :: FindById(reg, id).Some? || exists j | 0 <= j < |reg| :: reg[j].lId == id
  }

  /**
    As busactd_remove_match is written, the bus keeps every subscription:
    once a RUNTIME match with a live id is removed, that id is live and no
    match of the registry carries it, so its callback still points at the
    removed Listener.
  */
  lemma RemovalOrphans(reg: seq<ListenerV>, i: nat, k: nat, n: nat, subs: set<nat>)
    requires Inv(reg, n) && Located(reg, i, k)
    requires reg[i].matches[k].kind == Runtime && reg[i].matches[k].mId in subs
    requires reg[i].matches[k].mId != 0
    ensures !Tracked(RemoveMatchAt(reg, i, k), subs)
  {
    var id := reg[i].matches[k].mId;
    var r := RemoveMatchAt(reg, i, k);
    RemoveMatchForgetsOnlyItsId(reg, i, k, n, 0);
    forall j | 0 <= j < |r| ensures r[j].lId != id {
      if |reg[i].matches| == 1 {
        assert r[j] == reg[if j < i then j else j + 1];
      } else {
        assert r[j].lId == reg[j].lId;
      }
    }
  }

  /** One Listener, subscribed to its name (id 1) and to one RUNTIME rule (id 2). */
  function OneRule(): (reg: seq<ListenerV>)
    ensures |reg| == 1 && |reg[0].matches| == 1
  {
    [ListenerV("a", 1, Unowned, [MatchV(AnyFilter, Runtime, 2)])]
  }

  /** Removing the only rule of OneRule leaves both of its subscriptions without an owner. */
  lemma OneRuleOrphans()
    ensures Inv(OneRule(), 3) && Tracked(OneRule(), {1, 2})
    ensures RemoveMatchAt(OneRule(), 0, 0) == []
    ensures !Tracked(RemoveMatchAt(OneRule(), 0, 0), {1, 2})
  {
    var reg := OneRule();
    assert FindById(reg, 2) == Some((0, 0));
    assert reg[0].lId == 1;
  }

  /**
    The live ids once a removal also unsubscribes what it frees: the
    match's id, and the Listener's NameOwnerChanged id when the Listener
    leaves the registry.
  */
  function Released(reg: seq<ListenerV>, i: nat, k: nat, subs: set<nat>): (r: set<nat>)
    requires Located(reg, i, k)
    ensures r <= subs
    ensures reg[i].matches[k].kind == Runtime ==> reg[i].matches[k].mId !in r
    ensures reg[i].matches[k].kind == Runtime && |reg[i].matches| == 1 ==> reg[i].lId !in r
    ensures forall id | id in subs && id != reg[i].matches[k].mId && id != reg[i].lId :: id in r
  {
    if reg[i].matches[k].kind != Runtime then subs
    else if |reg[i].matches| == 1 then subs - {reg[i].matches[k].mId, reg[i].lId}
    else subs - {reg[i].matches[k].mId}
  }

  /** Released, reached by dropping the match's id and then the Listener's, each only when it is not 0. */
  lemma ReleasedInSteps(reg: seq<ListenerV>, i: nat, k: nat, subs: set<nat>)
    requires Located(reg, i, k) && 0 !in subs
    ensures var m := reg[i].matches[k];
            var s1 := if m.kind == Runtime && m.mId != 0 then subs - {m.mId} else subs;
            Released(reg, i, k, subs)
            == if m.kind == Runtime && |reg[i].matches| == 1 && reg[i].lId != 0 then s1 - {reg[i].lId} else s1
  {
  }

  /** A removal that unsubscribes what it frees keeps every live subscription owned. */
  lemma {:induction false} ReleasedKeepsTracked(reg: seq<ListenerV>, i: nat, k: nat, subs: set<nat>)
    requires Tracked(reg, subs) && Located(reg, i, k)
    ensures Tracked(RemoveMatchAt(reg, i, k), Released(reg, i, k, subs))
  {
    var r := RemoveMatchAt(reg, i, k);
    if reg[i].matches[k].kind == Runtime {
      forall id | id in Released(reg, i, k, subs)
        ensures FindById(r, id).Some? || exists j | 0 <= j < |r| :: r[j].lId == id
      {
        if FindById(reg, id).Some? {
          var p := FindById(reg, id).value;
          TargetLocated(reg, i, k, p);
          var q := Target(reg, i, k, p);
          assert Located(r, q.0, q.1) && r[q.0].matches[q.1].mId == id;
        } else {
          var j :| 0 <= j < |reg| && reg[j].lId == id;
          if |reg[i].matches| == 1 {
            assert j != i;
            var t := if j < i then j else j - 1;
            assert r[t] == reg[j];
          } else {
            assert r[j].lId == id;
          }
        }
      }
    }
  }
}
