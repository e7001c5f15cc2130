/**
  The records and enumerations of busactd.h, as values.

  The daemon keeps these records in mutable heap objects (see the classes in
  module Busactd); the datatypes here are the views of those objects that the
  specification functions of module Registry work on.
*/
module Types {
  import opened Wrappers

  /** enum busactd_type: which bus and which configuration subtree the daemon serves. */
  datatype DaemonType = System | User

  /**
    IsNameHasOwner: the Listener's belief about its bus name.
    UNDECIDED (-1) until the first NameHasOwner query, then FALSE (0) or TRUE (1).
  */
  datatype Ownership = Undecided | Unowned | Owned

  /** The numeric value the C enumeration gives each belief. */
  function OwnershipCode(o: Ownership): (c: int)
    ensures -1 <= c <= 1
    ensures o == Undecided <==> c < 0
  {
    match o
    case Undecided => -1
    case Unowned => 0
    case Owned => 1
  }

  /**
    The belief that a boolean NameHasOwner answer, or a NameOwnerChanged
    notification, establishes: never UNDECIDED.
  */
  function OwnershipOf(hasOwner: bool): (o: Ownership)
    ensures o != Undecided
    ensures o == Owned <==> hasOwner
    ensures OwnershipCode(o) == if hasOwner then 1 else 0
  {
    if hasOwner then Owned else Unowned
  }

  /** enum busactd_match_type: config-provided or added over the control API. */
  datatype MatchType = Persistent | Runtime

  /** The numeric value of the C enumeration; PERSISTENT is the zero value. */
  function MatchTypeCode(t: MatchType): (c: nat)
    ensures c == 0 <==> t == Persistent
    ensures c <= 1
  {
    match t
    case Persistent => 0
    case Runtime => 1
  }

  /** The type a zero-filled record holds: the one whose code is 0. */
  function MatchTypeOfCode(c: nat): (t: MatchType)
    requires c <= 1
    ensures MatchTypeCode(t) == c
  {
    if c == 0 then Persistent else Runtime
  }

  /**
    The five filter strings of struct busactd_match. None stands for a NULL
    pointer, which means "any" when the filter is handed to the bus.
  */
  datatype Filter = Filter(
    sender: Option<string>,
    path: Option<string>,
    interface: Option<string>,
    member: Option<string>,
    arg: Option<string>)

  /** The filter of a freshly zero-allocated match: every field NULL. */
  const AnyFilter := Filter(None, None, None, None, None)

  /**
    struct busactd_match without its back-pointer: its filter, its type and
    its signal subscription handle m_id (0 when not subscribed).
  */
  datatype MatchV = MatchV(filter: Filter, kind: MatchType, mId: nat)

  /**
    struct busactd_listener without the daemon pointer and the reference
    count: the bus name, the NameOwnerChanged subscription handle l_id
    (0 when not subscribed), the ownership belief and the match list.
  */
  datatype ListenerV = ListenerV(busname: string, lId: nat, owner: Ownership, matches: seq<MatchV>)
}
