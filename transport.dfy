/**
  The message bus, reduced to the four primitives the daemon uses through
  GDBus: the NameHasOwner query, signal subscription, unsubscription and
  signal emission.

  The bus is a mutable object: a set of names that currently have an owner
  (the oracle NameHasOwner answers from), the live subscriptions with their
  filters, the id the next successful subscription receives, and the log of
  emitted signals.
*/
module Transport {
  import opened Wrappers
  import opened Types

  /** The filter of the NameOwnerChanged subscription a Listener makes for `busname`. */
  function NameOwnerChangedFilter(busname: string): (f: Filter)
    ensures f.arg == Some(busname) && f.member == Some("NameOwnerChanged")
  {
    Filter(Some("org.freedesktop.DBus"), Some("/org/freedesktop/DBus"),
           Some("org.freedesktop.DBus"), Some("NameOwnerChanged"), Some(busname))
  }

  /**
    A signal the daemon emitted: the destination it was addressed to, which
    makes the bus start the destination's service, and the path, interface,
    member and arguments it carries.
  */
  datatype Emission = Emission(destination: string, path: string, interface: string, member: string, args: seq<string>)

  class Bus {
    var owned: set<string>
    var subscriptions: map<nat, Filter>
    var nextId: nat
    var emitted: seq<Emission>

    /** Ids start at 1, so 0 never names a subscription; every live id was handed out already. */
    ghost predicate Valid()
      reads this
    {
      0 < nextId && forall id | id in subscriptions :: 0 < id < nextId
    }

    constructor (owners: set<string>)
      ensures Valid()
      ensures owned == owners && subscriptions == map[] && emitted == []
    {
      owned := owners;
      subscriptions := map[];
      nextId := 1;
      emitted := [];
    }

    /** The synchronous NameHasOwner call; a reply is assumed to arrive and to parse. */
    method NameHasOwner(name: string) returns (has: bool)
      ensures has <==> name in owned
    {
      has := name in owned;
    }

    /**
      g_dbus_connection_signal_subscribe: either a fresh non-zero id, or 0
      when the bus refuses the rule. Which of the two happens is not under
      the daemon's control.
    */
    method Subscribe(f: Filter) returns (id: nat)
      requires Valid()
      modifies this
      ensures Valid()
      ensures owned == old(owned) && emitted == old(emitted)
      ensures id == 0 ==> subscriptions == old(subscriptions) && nextId == old(nextId)
      ensures id != 0 ==> id == old(nextId) && nextId == id + 1
                          && subscriptions == old(subscriptions)[id := f]
    {
      var accepted: bool := *;
      if accepted {
        id := nextId;
        subscriptions := subscriptions[id := f];
        nextId := nextId + 1;
      } else {
        id := 0;
      }
    }

    /** g_dbus_connection_signal_unsubscribe. */
    method Unsubscribe(id: nat)
      requires Valid()
      modifies this
      ensures Valid()
      ensures owned == old(owned) && emitted == old(emitted) && nextId == old(nextId)
      ensures subscriptions == old(subscriptions) - {id}
    {
      subscriptions := subscriptions - {id};
    }

    /** g_dbus_connection_emit_signal, which may fail. */
    method Emit(s: Emission) returns (ok: bool)
      modifies this
      ensures owned == old(owned) && subscriptions == old(subscriptions) && nextId == old(nextId)
      ensures emitted == if ok then old(emitted) + [s] else old(emitted)
    {
      ok := *;
      if ok {
        emitted := emitted + [s];
      }
    }
  }
}
