# busactd, modelled in Dafny

busactd is a bus-activation relay. For every service it knows of, it keeps a
Listener with a list of signal Matches (filter rules). While the service's
well-known bus name has no owner, busactd subscribes the Matches on the
service's behalf and re-emits every matching signal addressed to the service,
so that the bus starts it. Once the name is owned, the subscriptions are
dropped. Listeners come from `.conf` files read at start-up (PERSISTENT
matches) and from the `AddSubscription` control method (RUNTIME matches).
RUNTIME matches can be removed again with `RemoveSubscription`.

The model covers:

- the Listener registry and the ownership state machine of `src/busactd/busactd.c`;
- the control methods of `src/busactd/dbus.c`;
- the configuration admission and start-up policy of `src/busactd/main.c`;
- the records of `src/busactd/busactd.h`.

Modules:

- `Wrappers` (`wrappers.dfy`): the `Option` type.
- `Types` (`types.dfy`): the enumerations of busactd.h and the value views of
  its records: `Filter` (the five optional filter strings), `MatchV` and
  `ListenerV`.
- `Transport` (`transport.dfy`): the bus, reduced to the four primitives the
  daemon uses. The `Bus` class holds:
  - the set of owned names, which `NameHasOwner` answers from;
  - the live subscriptions;
  - the next subscription id (ids start at 1, and 0 means "no subscription");
  - the log of emitted signals.

  A subscription may be refused; the daemon has no control over that.
- `Registry` (`registry.dfy`): the specification of the registry, as functions
  on `seq<ListenerV>`. It defines the registry invariant `Inv`:
  - one Listener per name;
  - every resident Listener has a match and a decided belief;
  - an owned name has no subscribed match;
  - subscription ids are below the bus's counter and pairwise distinct.

  It also defines what each operation does to the registry (`Registered`,
  `Admit`, `AppendMatch`, `Without`, `RemoveMatchAt`, `FindById`) and proves
  that each operation keeps `Inv`. `SubscribedOnBus` and `Unsubscribing`
  state what subscribing and unsubscribing a list of matches does to the
  bus's live subscriptions.
- `MatchString` (`match_string.dfy`): the `key=value` rule parser of
  `busactd_match_new_from_string`, as functions. It has lemmas that read the
  parsed filter back field by field.
- `Busactd` (`busactd.dfy`): the mutable records. `Match` and `Listener` are
  classes whose fields the methods update in place. The `Daemon` class holds
  the resident Listeners in order. Every method is proved against the
  `Registry` functions through the views `Match.View`, `Listener.View` and
  `Daemon.Abs`, and keeps `Daemon.Valid` (the heap shape plus `Inv`).
- `ControlApi` (`control_api.dfy`):
  - `ListListeners` is a function on the registry;
  - the `AddSubscription` and `RemoveSubscription` handlers are methods on
    the daemon;
  - the dispatcher is `HandleMethodCall`.
- `Config` (`config.dfy`):
  - the `.conf` admission rules;
  - a `ParseLog` that records each file `config_parse_dir` hands to
    `busactd_parse_config_file` (its path), so that the order in which the
    loaders hand files over can be stated, while the loaders return each
    call's result as a ghost `results` sequence;
  - the bus name derived from a file name;
  - the three-layer load order;
  - the idle-timeout decision.

Allocation failure (of a record or a string copy) and the bus refusing a
subscription are nondeterministic choices inside the methods. The contracts
hold whichever way each choice falls.

Where the code and its documented behaviour differ, the model follows the code:

- On admission, the matches of a Listener whose name is already resident are
  concatenated onto the resident's list. They are not de-duplicated.
- `AddSubscription` rejects only a missing bus name or rule, and answers
  `NO_MEMORY` in both cases. An empty bus name is accepted and gets a
  Listener.
- `RemoveSubscription` answers id 0 with an `INVALID_ARGS` error, not with a
  status string.
- `busactd_remove_match` and `busactd_remove_listener` free records without
  unsubscribing anything (see Findings).

## Model

| member | source | states |
|---|---|---|
| Types.OwnershipCode | src/busactd/busactd.h:37-42 | UNDECIDED is the only negative code; the codes lie in -1..1 |
| Types.OwnershipOf | src/busactd/busactd.h:37-42 | a boolean answer is never UNDECIDED; it is TRUE (code 1) exactly when the name has an owner, otherwise FALSE (code 0) |
| Types.MatchTypeCode | src/busactd/busactd.h:44-47 | PERSISTENT is exactly the type with code 0 |
| Types.MatchTypeOfCode | src/busactd/busactd.h:44-47 | decoding a code is inverse to MatchTypeCode, so a zero-filled record is PERSISTENT |
| Transport.NameOwnerChangedFilter | src/busactd/busactd.c:299-310 | a Listener's name watch is the NameOwnerChanged rule whose first argument is the Listener's name |
| Transport.Bus.NameHasOwner | src/busactd/busactd.c:137-152 | the answer is true exactly when the name currently has an owner |
| Transport.Bus.Subscribe | src/busactd/busactd.c:240-249 | the result is either 0 with nothing changed, or a fresh id (the counter, which then advances) that now maps to the filter |
| Transport.Bus.Unsubscribe | src/busactd/busactd.c:279-281 | exactly that id stops being live; nothing else changes |
| Transport.Bus.Emit | src/busactd/busactd.c:207-219 | the emission is appended to the log, or the call fails and changes nothing |
| Busactd.Match.constructor | src/busactd/busactd.c:100-112 | a new match has every field NULL, is PERSISTENT (the zero value) and is unsubscribed |
| Busactd.Match.Assign | src/busactd/busactd.c:467-503 | one pass of the word loop: when no copy fails, the filter becomes the filter with this word applied, and the type and id are kept |
| Busactd.Match.SetField | src/busactd/busactd.c:482-499 | storing a value sets exactly the named field of the filter; the other fields, the type and the id are kept |
| Busactd.Views | src/busactd/busactd.h:49-58 | the values of a match list are the per-position values of its records |
| Busactd.ViewsAppend | src/busactd/busactd.c:349 | the values of a concatenated list are the concatenation of the values |
| Busactd.ListRemove | src/busactd/busactd.c:365 | g_list_remove leaves a list without the element unchanged, and otherwise cuts out the element's first occurrence |
| Busactd.Listener.constructor | src/busactd/busactd.c:33-46 | a new Listener for a name is UNDECIDED, has l_id 0 and has no matches |
| Busactd.Listener.UpdateNameHasOwner | src/busactd/busactd.c:127-155 | the belief becomes TRUE exactly when the bus reports an owner for the name, and FALSE otherwise |
| Busactd.Listener.SubscribeSignals | src/busactd/busactd.c:226-259 | only matches with m_id 0 are handed to the bus; each gets 0 or a fresh id, ids assigned later in the list are larger, already-subscribed matches keep their id, and filters and types do not change; on the bus, exactly the newly assigned ids become live, each with its match's filter, and every earlier subscription is kept |
| Busactd.Listener.SubscribeAt | src/busactd/busactd.c:234-258 | one pass of the subscription loop keeps both the id relation and the bus relation of the matches handled so far |
| Busactd.Listener.UnsubscribeSignals | src/busactd/busactd.c:261-285 | every m_id becomes 0; the live subscriptions become exactly the old ones without the ids the matches held (Registry.Unsubscribing); the filters, types and id counter do not change |
| Busactd.Listener.Register | src/busactd/busactd.c:287-324 | the belief is queried only while UNDECIDED; NameOwnerChanged is subscribed only while l_id is 0, and a new l_id then maps to the NameOwnerChanged filter for the Listener's name; then, on the registry and on the bus, the matches are subscribed if the name is unowned (SubscribedOnBus) and all their ids dropped if it is owned (Unsubscribing) |
| Busactd.RegisteredOnBus | src/busactd/busactd.c:287-324 | the bus side of busactd_register_listener: a watch made here maps its new id to the NameOwnerChanged filter for the name; then the matches' new ids map to their filters with every earlier subscription kept (unowned), or every id the matches held is dropped and nothing else (owned) |
| Busactd.RegisteredOnBusAt | src/busactd/busactd.c:287-324 | Busactd.RegisteredOnBus for the Listener at position i of the registry |
| Busactd.WatchLive | src/busactd/busactd.c:299-310 | a NameOwnerChanged subscription that registration makes is live afterwards with the filter for the Listener's own name, whether the matches were then subscribed or dropped |
| Busactd.WatchKept | src/busactd/busactd.c:296-310 | re-registering a Listener that already has a watch keeps the watch's id, and keeps it live with the filter it had, whether the matches are then subscribed or dropped |
| Busactd.Daemon.constructor | src/busactd/busactd.h:76-83 | a daemon starts with an empty registry that satisfies the invariant |
| Busactd.Daemon.ListenerGet | src/busactd/busactd.c:77-98 | the registry is unchanged; a resident name gives the resident Listener itself; any other name gives a fresh, UNDECIDED, unsubscribed, empty Listener that is not in the registry, or null when allocation fails |
| Busactd.Daemon.FindMatchById | src/busactd/busactd.c:429-452 | the result is none exactly when FindById is none; otherwise it is the Listener and match at the first position, in registry order and then list order, that holds the id |
| Busactd.Daemon.RemoveListener | src/busactd/busactd.c:359-367 | the registry loses exactly that Listener, and the others keep their order |
| Busactd.Daemon.Drop | src/busactd/busactd.c:365 | the i-th Listener is cut out of the list |
| Busactd.Daemon.RegisterAt | src/busactd/busactd.c:287-324 | re-registering the one Listener the invariant exempts restores the whole invariant, leaves every other Listener's record unchanged, has the bus effect of Listener.Register on that Listener, and leaves a newly made name watch live with that Listener's filter |
| Busactd.Daemon.Append | src/busactd/busactd.c:337-338 | a Listener with a new name is appended to the end of the registry |
| Busactd.Daemon.Link | src/busactd/busactd.c:337-338 | the list and ownership updates of g_list_append: the Listener is last in the list, and it and its matches join the footprint, with every match owned by it |
| Busactd.Daemon.Merge | src/busactd/busactd.c:348-349 | the incoming matches are concatenated onto the resident Listener's list |
| Busactd.Daemon.MergeAt | src/busactd/busactd.c:348-352 | after a merge, only the resident's record changes, and its list is the old list followed by the incoming matches |
| Busactd.Daemon.Enter | src/busactd/busactd.c:334-352 | the list surgery of admission equals Registry.Admit, and it leaves exactly the admitted position to be re-registered |
| Busactd.Daemon.Place | src/busactd/busactd.c:334-352 | the same list surgery, seen through Abs as Registry.Admit: the registry becomes Admit of the old one and the position is Admit's |
| Busactd.Daemon.AddListener | src/busactd/busactd.c:326-357 | an absent name is appended and grows the registry by one; a present name gets the incoming matches concatenated onto its list, without de-duplication; either way the returned resident is re-registered, with the bus effect of Listener.Register, and the invariant holds |
| Busactd.Daemon.DropMatch | src/busactd/busactd.c:420 | the k-th match leaves the i-th Listener's list, and nothing else changes |
| Busactd.Daemon.SetOwner | src/busactd/busactd.c:185-188 | only the belief of the i-th Listener changes |
| Busactd.Daemon.Attach | src/busactd/busactd.c:397 | a new match joins the end of the i-th Listener's list, and nothing else changes |
| Busactd.Daemon.JoinResident | src/busactd/busactd.c:396-399 | a new match on a resident Listener is appended, and that Listener is re-registered, on the registry and on the bus |
| Busactd.Daemon.JoinOutside | src/busactd/busactd.c:396-399 | a new match on a Listener that is not resident goes into its list, and the Listener is admitted as by Registry.Admit and then registered, on the registry and on the bus |
| Busactd.Daemon.AddMatch | src/busactd/busactd.c:384-410 | if a match with an equal filter is present, it is returned and neither the registry nor the bus subscriptions nor the id counter change; otherwise the new match is returned, appended to the list, and its Listener is admitted and re-registered, on the registry and on the bus |
| Busactd.Daemon.RemoveMatch | src/busactd/busactd.c:412-427 | the registry becomes RemoveMatchAt of the match's position and the invariant holds; the bus subscriptions stay as they were (as written) |
| Busactd.Daemon.Unlink | src/busactd/busactd.c:412-427 | the list surgery of busactd_remove_match, seen through Abs as Registry.RemoveMatchAt: a non-RUNTIME match changes nothing; otherwise the match leaves its list, and an emptied Listener leaves the registry |
| Busactd.Daemon.RemoveMatchReleasing | src/busactd/busactd.c:412-427 | the same registry change, and the live subscriptions become Released: the match's id is dropped, and so is the Listener's name watch when the Listener is evicted |
| Busactd.Daemon.Unsubscribe | src/busactd/busactd.c:279-281 | unsubscribing changes no record and drops exactly that id |
| Busactd.Daemon.OnNameOwnerChanged | src/busactd/busactd.c:157-191 | an empty new owner sets the belief to FALSE, any other new owner sets it to TRUE; the Listener is then re-registered, on the registry and on the bus, and the invariant holds; the name must be the Listener's |
| Busactd.Daemon.OnSignal | src/busactd/busactd.c:193-224 | the signal is re-emitted with the Listener's bus name as destination, or the emission fails and nothing changes |
| Busactd.NextWord | src/busactd/busactd.c:467 | one step of FOREACH_WORD from position i: when a word is found, it followed by the words from the new position j > i makes up the words from i; when none is found, no words remain and the position is the end |
| Busactd.AppendAssoc | src/busactd/busactd.c:467-503 | proof helper for Busactd.MatchNewFromString: appending one word at a time, the words seen so far plus the rest are still all the words |
| Busactd.MatchNewFromString | src/busactd/busactd.c:454-515 | on success, a fresh PERSISTENT, unsubscribed match whose filter is ParseFilter of the rule; on allocation failure, no match |
| Registry.StrEqPtr | src/busactd/busactd.c:374-378 | streq_ptr: NULL equals only NULL, and two strings are equal when they are the same text |
| Registry.SameFilter | src/busactd/busactd.c:369-382 | two matches compare equal exactly when all five filter fields are equal |
| Registry.FirstSame | src/busactd/busactd.c:393-395 | the first position whose filter is equal, or none exactly when no filter is equal |
| Registry.IndexOf | src/busactd/busactd.c:81-83 | the first Listener with that name, or none exactly when no Listener has the name |
| Registry.FindIn | src/busactd/busactd.c:443-448 | the first match in a list with that id, or none exactly when no match has it |
| Registry.FindFrom | src/busactd/busactd.c:437-451 | the first match with that id in registry order and then list order, or none exactly when no match has it |
| Registry.FindById | src/busactd/busactd.c:429-452 | id 0 finds nothing; any other id finds the first match carrying it, or nothing exactly when no match carries it |
| Registry.SubscribeStep | src/busactd/busactd.c:234-258 | one pass of the subscription loop: an unsubscribed match gets 0 or the bus's next id, which keeps the loop's relation to its input |
| Registry.SubscribeOnBusStep | src/busactd/busactd.c:240-249 | subscribing one unsubscribed match: a refusal leaves the bus as it was, and a fresh id becomes live with the match's filter, which extends the bus relation by that match |
| Registry.Unsubscribing | src/busactd/busactd.c:261-285 | the live subscriptions without the ids a list of matches held: none of those ids is left, and every other id keeps its filter |
| Registry.UnsubscribeOnBusStep | src/busactd/busactd.c:271-283 | one pass of the unsubscription loop drops exactly the id of that match |
| Registry.Inv | src/busactd/busactd.h:49-67 | between two events of the main loop: one Listener per bus name; every resident Listener has a match and a decided belief, and no match of it is subscribed while its name is owned; every l_id and m_id is below the bus's next id; a non-zero m_id belongs to one match, and a non-zero l_id to one Listener and to no match |
| Registry.Registered | src/busactd/busactd.c:287-324 | busactd_register_listener on one record: the belief is queried only while UNDECIDED; l_id is kept when non-zero and otherwise becomes 0 or a fresh id; the matches are subscribed (fresh ids, increasing along the list) if the name is unowned and all cleared if it is owned; a watch made here gets a smaller id than any match subscribed here |
| Registry.RegisteredAt | src/busactd/busactd.c:287-324 | the registry with only position i re-registered, as Registry.Registered; every other Listener is unchanged |
| Registry.RegisterRestoresInv | src/busactd/busactd.c:287-324 | re-registering the exempt Listener turns InvBut into Inv: beliefs are decided, an owned name has no subscribed match, fresh ids never collide with surviving ones, and a new watch id collides with no match id |
| Registry.RegisterKeepsIdsDistinct | src/busactd/busactd.c:287-324 | re-registering the exempt Listener keeps every non-zero m_id on one match: an id that survives is below the old counter, and fresh ids are at least that and increase along the list |
| Registry.Admit | src/busactd/busactd.c:326-357 | an absent name is appended, so the registry grows by one at the end; a present name gets the incoming matches concatenated onto its list and the length stays the same; other Listeners do not change, and unique names stay unique |
| Registry.AdmitKeepsInvBut | src/busactd/busactd.c:326-357 | admitting a Listener with matches that are not yet subscribed leaves only the admitted position to be repaired by registration |
| Registry.AppendMatch | src/busactd/busactd.c:396-397 | the match joins the end of Listener i's list, and no other Listener changes |
| Registry.AppendKeepsInvBut | src/busactd/busactd.c:396-398 | appending an unsubscribed match leaves only that Listener to be repaired by registration |
| Registry.OwnerChangeKeepsInvBut | src/busactd/busactd.c:185-190 | a belief change leaves only that Listener to be repaired by registration |
| Registry.Without | src/busactd/busactd.c:365 | the registry without its i-th Listener, with the others in order |
| Registry.WithoutKeepsInv | src/busactd/busactd.c:359-367 | evicting a Listener keeps the invariant |
| Registry.Dropped | src/busactd/busactd.c:420 | a list without its k-th match, with the others in order |
| Registry.RemoveMatchAt | src/busactd/busactd.c:412-427 | a match that is not RUNTIME changes nothing; the last RUNTIME match evicts its Listener; any other RUNTIME match leaves its own list, and no other Listener changes |
| Registry.RemoveMatchKeepsInv | src/busactd/busactd.c:412-427 | removing a match keeps the invariant |
| Registry.SourceLocated | src/busactd/busactd.c:420-426 | every match after a removal was present before, and is not the removed match |
| Registry.TargetLocated | src/busactd/busactd.c:420-426 | every match from before a removal, except the removed one, is still present afterwards |
| Registry.RemoveMatchForgetsOnlyItsId | src/busactd/busactd.c:412-452 | after a subscribed RUNTIME match is removed, its id finds nothing, and every other id is found exactly when it was found before |
| Registry.RemovalOrphans | src/busactd/busactd.c:412-427 | as written, removing a subscribed RUNTIME match from a registry that satisfies Inv leaves a live subscription that no record owns |
| Registry.OneRule | src/busactd/busactd.c:412-427 | a one-Listener, one-rule registry, used as the counterexample |
| Registry.OneRuleOrphans | src/busactd/busactd.c:412-427 | concrete case: removing the only rule of a Listener empties the registry while ids 1 (the name watch) and 2 (the rule) stay live |
| Registry.Released | src/busactd/busactd.c:412-427 | the corrected release: the removed RUNTIME match's id is dropped, so is the evicted Listener's name watch, and every other live id is kept |
| Registry.ReleasedKeepsTracked | src/busactd/busactd.c:412-427 | with the corrected release, every live subscription still belongs to a record |
| MatchString.IsSpace | src/busactd/busactd.c:467 | the whitespace FOREACH_WORD splits on: space, tab, newline and carriage return |
| MatchString.SkipSpace | src/busactd/busactd.c:467 | the next position at or after i that is not whitespace, or the end |
| MatchString.WordEnd | src/busactd/busactd.c:467 | the next position at or after i that is whitespace, or the end; past i when i holds a non-blank |
| MatchString.SkipSpaceSpan | src/busactd/busactd.c:467 | everything SkipSpace passes over is whitespace |
| MatchString.WordEndSpan | src/busactd/busactd.c:467 | everything WordEnd passes over is non-blank |
| MatchString.WordsFrom | src/busactd/busactd.c:467 | the words FOREACH_WORD visits from a position on: skip whitespace, take the longest run of non-blanks, and repeat until the end of the text |
| MatchString.Words | src/busactd/busactd.c:467 | the words of the whole rule string, in order |
| MatchString.Join | src/busactd/busactd.c:467 | joining with single spaces; the empty list gives the empty text |
| MatchString.WordsAreWords | src/busactd/busactd.c:467 | FOREACH_WORD yields only non-empty words free of whitespace |
| MatchString.WordsFromSkip | src/busactd/busactd.c:467 | whitespace at the current position does not change the words that follow |
| MatchString.SkipSpaceShift | src/busactd/busactd.c:467 | skipping whitespace in a suffix does not depend on the text before it |
| MatchString.WordEndShift | src/busactd/busactd.c:467 | finding the end of a word in a suffix does not depend on the text before it |
| MatchString.SliceShift | src/busactd/busactd.c:467 | proof helper for MatchString.WordsFromShift: a slice of a suffix is the same slice of the whole text, shifted by the prefix's length |
| MatchString.WordsFromShift | src/busactd/busactd.c:467 | the words of a suffix do not depend on the text before it |
| MatchString.WordEndOfWord | src/busactd/busactd.c:467 | a run of non-blanks ended by whitespace or the end of the text is one word |
| MatchString.WordsOne | src/busactd/busactd.c:467 | a single word splits into itself |
| MatchString.WordsCons | src/busactd/busactd.c:467 | a word, a space and more text split into that word and the words of the rest |
| MatchString.WordsJoin | src/busactd/busactd.c:467 | splitting is the inverse of joining with single spaces |
| MatchString.Lower | src/busactd/busactd.c:481 | ASCII tolower in the C locale |
| MatchString.Name | src/busactd/busactd.c:481-497 | each field name is spelled in lower case, so only the key's letter case is folded before the comparison |
| MatchString.Rank | src/busactd/busactd.c:481-497 | the position of each field in the comparison chain |
| MatchString.KeyNames | src/busactd/busactd.c:481-502 | strncaseeq(t, name, e): the key is no longer than the name and equals the start of it, ignoring ASCII case; the empty key names every field |
| MatchString.FieldOf | src/busactd/busactd.c:481-502 | a selected field is one whose name has the key as a case-insensitive prefix |
| MatchString.FieldOfFirst | src/busactd/busactd.c:481-502 | the key selects the first of sender, path, interface, member, arg whose name it prefixes, and nothing exactly when it prefixes none of them |
| MatchString.FullKeys | src/busactd/busactd.c:481-497 | examples of FieldOfFirst: the full field names select their field in any letter case |
| MatchString.ShortKeys | src/busactd/busactd.c:481-502 | examples of FieldOfFirst: the empty key selects sender; single letters select the first field they begin; an unknown or over-long key selects nothing |
| MatchString.EqIndex | src/busactd/busactd.c:476 | strcspn: the key part has no '=', and the character after it, if any, is '=' |
| MatchString.EqIndexOfKey | src/busactd/busactd.c:476 | a key without '=' followed by '=' is measured exactly |
| MatchString.Quoted | src/busactd/busactd.c:482 | a value of at least two characters that begins with a quote character and ends with the same one |
| MatchString.Unquote | src/busactd/busactd.c:482 | a value quoted with a matching pair loses exactly that pair; any other value is kept |
| MatchString.UnquoteQuote | src/busactd/busactd.c:482 | quoting with either quote character and then unquoting gives the value back |
| MatchString.UnquoteOnce | src/busactd/busactd.c:482 | for any value and either quote character, a doubly quoted value loses only its outer pair of quotes |
| MatchString.Assignment | src/busactd/busactd.c:476-502 | a word assigns only when its value is non-empty, and the value assigned is the unquoted text after the first '=' |
| MatchString.Set | src/busactd/busactd.c:482-499 | setting one field changes that field and no other |
| MatchString.ApplyWord | src/busactd/busactd.c:467-503 | one pass of the loop: a word that assigns a field sets it to the unquoted value, replacing any earlier value; any other word leaves the filter as it was |
| MatchString.ParseWords | src/busactd/busactd.c:463-503 | the loop over all words in order, from the all-NULL filter that busactd_match_new gives |
| MatchString.ParseFilter | src/busactd/busactd.c:454-503 | the filter a rule string denotes: the loop over its words; Busactd.MatchNewFromString is proved to build exactly it, and MatchString.ParseWordsField says field by field what it holds |
| MatchString.ParseWordsSnoc | src/busactd/busactd.c:467-503 | parsing one more word applies it to the filter the earlier words built |
| MatchString.LastWhere | src/busactd/busactd.c:467-503 | a position found holds a word with the property |
| MatchString.LastWhereIsLast | src/busactd/busactd.c:467-503 | no later word has the property, and none is found exactly when no word has it |
| MatchString.LastAssigning | src/busactd/busactd.c:467-503 | a position found holds a word that assigns the field |
| MatchString.LastAssigningIsLast | src/busactd/busactd.c:467-503 | no later word assigns the field, and none is found exactly when no word assigns it |
| MatchString.ParseWordsField | src/busactd/busactd.c:467-503 | each field of the parsed filter is NULL exactly when no word assigns it, and otherwise holds the unquoted value of the last word that assigns it |
| MatchString.NameSelects | src/busactd/busactd.c:481-497 | each field's own name selects that field |
| MatchString.NameIsKey | src/busactd/busactd.c:481-497 | field names contain no '=' and no whitespace |
| MatchString.AssignmentOf | src/busactd/busactd.c:476-499 | `key=value` with a non-empty value assigns the key's field the unquoted value |
| MatchString.ParseOneField | src/busactd/busactd.c:454-515 | the rule `name=value` sets that field alone, and every other field stays NULL |
| MatchString.ParseQuotedField | src/busactd/busactd.c:454-515 | the rule `name='value'` or `name="value"` sets that field to the value without its quotes |
| MatchString.IgnoredWords | src/busactd/busactd.c:478-502 | a word with an empty value, and a word whose key names no field, leave the filter unchanged |
| MatchString.DestinationUnknown | src/busactd/busactd.c:501-502 | `destination` names no field, so an assignment to it is dropped |
| ControlApi.TypeName | src/busactd/dbus.c:128-131 | "PERSISTENT" exactly for PERSISTENT and "RUNTIME" exactly for RUNTIME |
| ControlApi.Field | src/busactd/dbus.c:98-126 | a field has an entry exactly when it is not NULL, and the entry holds the field's value |
| ControlApi.Props | src/busactd/dbus.c:96-131 | a match's description is never empty and always ends with its Type entry |
| ControlApi.LookupAppend | src/busactd/dbus.c:96-131 | looking a key up in a concatenation returns the first part's entry when there is one |
| ControlApi.FieldLookup | src/busactd/dbus.c:98-126 | a field's entry answers for its own key and for no other |
| ControlApi.OrElse | src/busactd/dbus.c:96-131 | the first of two lookups that finds something |
| ControlApi.LookupParts | src/busactd/dbus.c:96-131 | looking up in a description goes through its parts in order |
| ControlApi.PropsReadBack | src/busactd/dbus.c:98-131 | reading a description back gives the match: Sender, Path, Interface, Member and Arg are present exactly when the field is not NULL, with its value, and Type names the match type |
| ControlApi.Describe | src/busactd/dbus.c:90-137 | one entry per match, in list order, keyed by m_id and holding the match's description |
| ControlApi.Listing | src/busactd/dbus.c:78-143 | at most one entry per Listener, and no entry is empty |
| ControlApi.ListingIff | src/busactd/dbus.c:78-143 | an entry is listed exactly when it describes a Listener that has matches |
| ControlApi.ListingOfSettled | src/busactd/dbus.c:78-143 | when every Listener has matches, the listing has one entry per Listener, in order, and each match appears keyed by its m_id with its description |
| ControlApi.RuleId | src/busactd/dbus.c:206-211 | the id of the first rule with that filter on the Listener of that name, or none exactly when there is no such Listener or rule |
| ControlApi.OwnedRuleIdZero | src/busactd/dbus.c:206-211 | under the invariant, any rule of a Listener whose name is owned has id 0 |
| ControlApi.FirstSameRules | src/busactd/busactd.c:393-395 | registration keeps filters, so it keeps the answer of the equal-filter lookup |
| ControlApi.FirstSameAppended | src/busactd/busactd.c:393-397 | a filter that is absent from the list is found at the end once it is appended |
| ControlApi.AddedRule | src/busactd/busactd.c:384-410 | what busactd_add_match builds when the rule is new: on a resident name, Registry.AppendMatch of an unsubscribed RUNTIME rule at the Listener's position; otherwise Registry.Admit of a new UNDECIDED Listener holding only that rule; the position returned holds the name |
| ControlApi.AddedRuleShape | src/busactd/dbus.c:206-211 | before the re-registration, the new RUNTIME rule ends the list of the first Listener of its name, after rules none of which has its filter |
| ControlApi.AddedRuleFound | src/busactd/dbus.c:206-211 | once the Listener holding the added rule is re-registered, the rule is the last of its list, the first with its filter, tagged RUNTIME, and RuleId reports its id |
| ControlApi.AddedRuleRemovable | src/busactd/dbus.c:206-262 | a rule just added can be removed by the id that was replied: unless the id is 0, RemoveSubscription answers "removed" for it |
| ControlApi.ResidentAt | src/busactd/busactd.c:81-83 | a resident Listener sits at the position of its name, and its value is its record |
| ControlApi.AddSubscription | src/busactd/dbus.c:150-212 | a missing bus name or rule gives NO_MEMORY; every error leaves the registry, the live subscriptions and the id counter unchanged; success replies with the id of the Listener's rule for that filter; when an equal rule was already present that is its old id and nothing changes; otherwise the registry becomes AddedRule (the rule tagged RUNTIME) with the Listener re-registered, on the registry and on the bus |
| ControlApi.AddParsed | src/busactd/dbus.c:185-211 | the part of the handler after the Listener lookup: a failed parse is NO_MEMORY and changes nothing, on the bus either; otherwise the reply is the rule's id, nothing changes when the rule was present, and else the registry becomes AddedRule re-registered, on the registry and on the bus |
| ControlApi.RuntimeMatch | src/busactd/dbus.c:195-206 | the parsed match is tagged RUNTIME and is unsubscribed |
| ControlApi.AddRuntimeMatch | src/busactd/dbus.c:206-211 | busactd_add_match followed by the reply: the reply is the rule's id after the call; the old id with nothing changed when the rule was present; else the registry is AddedRule with the RUNTIME rule, re-registered on the registry and on the bus |
| ControlApi.KeepSameRule | src/busactd/dbus.c:206-211 | with an equal rule present, the reply is its id and neither the registry nor the bus changes |
| ControlApi.JoinResidentRule | src/busactd/dbus.c:206-211 | a new rule on a resident Listener: the registry becomes AddedRule (Registry.AppendMatch of the RUNTIME rule) with the Listener re-registered, on the registry and on the bus, and the reply is the id of the rule now held |
| ControlApi.JoinNewRule | src/busactd/dbus.c:206-211 | a rule for a Listener that is not resident: the registry becomes AddedRule (Registry.Admit of a Listener holding the RUNTIME rule) registered, on the registry and on the bus, and the reply is its rule's id |
| ControlApi.RemoveReply | src/busactd/dbus.c:237-262 | the reply is a status, or the INVALID_ARGS error for id 0 |
| ControlApi.RemoveReplyRemoved | src/busactd/dbus.c:247-262 | "removed" is the reply exactly when the id is non-zero, some match carries it, and the first such match is RUNTIME |
| ControlApi.NothingToRemove | src/busactd/dbus.c:247-252 | an id that no match carries gives "not found" and changes nothing |
| ControlApi.RemoveEffect | src/busactd/dbus.c:237-262 | the registry after the handler: when the reply is "removed", Registry.RemoveMatchAt of the first match carrying the id; otherwise unchanged |
| ControlApi.RemoveReleased | src/busactd/busactd.c:412-427 | the live subscriptions after the corrected handler: when the reply is "removed", Registry.Released of the first match carrying the id; otherwise unchanged |
| ControlApi.RemoveEffectKeepsInv | src/busactd/dbus.c:260 | the handler keeps the registry invariant |
| ControlApi.RemoveThenNotFound | src/busactd/dbus.c:247-262 | after "removed", removing the same id again gives "not found" |
| ControlApi.RemoveKeepsOtherIds | src/busactd/dbus.c:247-262 | every other id is found afterwards exactly when it was found before |
| ControlApi.RemoveKeepsPersistent | src/busactd/dbus.c:254-258 | a PERSISTENT match is never removed |
| ControlApi.RemoveKeepsTracked | src/busactd/dbus.c:260 | with the corrected release (ControlApi.RemoveSubscriptionReleasing), the handler leaves no live subscription without an owner |
| ControlApi.RemoveSubscription | src/busactd/dbus.c:214-263 | as written: the reply is RemoveReply of the old registry (INVALID_ARGS for 0, "not found", "not allowed: match type is not RUNTIME" or "removed"); the registry becomes RemoveEffect and the invariant holds; the live subscriptions and the id counter stay exactly as they were |
| ControlApi.RemoveSubscriptionReleasing | src/busactd/dbus.c:214-263 | the handler with busactd_remove_match corrected: the same replies and registry effect, and the live subscriptions become RemoveReleased |
| ControlApi.RemoveFound | src/busactd/dbus.c:254-262 | the handler once the match is found: the same reply and registry effect; as written the bus keeps every subscription and its counter, and with the corrected removal the live ids become RemoveReleased |
| ControlApi.Evict | src/busactd/dbus.c:260 | busactd_remove_match at a located match: the registry becomes RemoveMatchAt; as written the bus keeps every subscription and its counter, and with the corrected removal the live ids become Released |
| ControlApi.Route | src/busactd/dbus.c:284-315 | the streq chain: "ListListeners", "AddSubscription" and "RemoveSubscription" select their handlers, tried in that order, and every other name selects none, which is answered with UNKNOWN_METHOD |
| ControlApi.MethodName | src/busactd/dbus.c:284-302 | the name of each method is one that dispatch sends to that method's handler |
| ControlApi.RouteExact | src/busactd/dbus.c:284-315 | a name reaches a handler exactly when it equals that handler's name |
| ControlApi.HandleMethodCall | src/busactd/dbus.c:265-316 | an unknown name gets UNKNOWN_METHOD and changes nothing, on the registry or the bus; ListListeners replies with the listing and changes nothing; AddSubscription has the outcomes, registry effect and bus effect stated for ControlApi.AddSubscription; RemoveSubscription has the reply and registry effect of ControlApi.RemoveSubscription and leaves the bus as it was |
| Config.EndsWith | src/busactd/main.c:190 | endswith: the text ends with the suffix, which is therefore no longer than the text |
| Config.Basename | src/busactd/main.c:167 | the basename has no '/', the path ends with it, and the path has a '/' just before it when the two differ |
| Config.BasenameKeepsSuffix | src/busactd/main.c:167-168 | a suffix without '/' that the path ends with is also a suffix of its basename, so the cut never underflows |
| Config.BusnameFromPath | src/busactd/main.c:161-175 | the derived name followed by ".conf" is the basename |
| Config.Rules | src/busactd/main.c:145-156 | one rule per non-empty Subscribe value, never an empty rule |
| Config.RulesAppend | src/busactd/main.c:145-156 | the rules of a file are the rules of its parts, in order |
| Config.RulesSnoc | src/busactd/main.c:145-156 | a non-empty Subscribe value adds one rule at the end, even if the same rule is already there; any other item adds nothing |
| Config.NameItem | src/busactd/main.c:183 | a BusName is present exactly when some item sets it, and its value is that of the last item that sets it |
| Config.FileBusname | src/busactd/main.c:204-210 | without a BusName item, the name followed by ".conf" is the basename |
| Config.Candidate | src/busactd/main.c:177-217 | the Listener a file hands over is UNDECIDED and unsubscribed, with one PERSISTENT unsubscribed match per rule |
| Config.ParseDbusSignal | src/busactd/main.c:127-159 | an empty value is skipped with 0; otherwise the result is either 0 with one fresh PERSISTENT match for the parsed rule appended, or -ENOMEM with the list unchanged |
| Config.TakeItem | src/busactd/main.c:182-186 | a Subscribe item goes to the rule parser and any other item leaves the list alone; on success the list records the rules read so far |
| Config.BuiltSnoc | src/busactd/main.c:154-156 | appending a new match for one more rule keeps the list in step with the rules |
| Config.BuildRules | src/busactd/main.c:198 | on success, the match list records every rule of the file in order; the first allocation failure gives -ENOMEM |
| Config.ParseConfigFile | src/busactd/main.c:177-224 | -EINVAL for a path without ".conf" before anything else; -ENOMEM or the reader's error otherwise leave the registry and the bus unchanged; a file without rules is dropped with 0 and changes nothing; any other file is admitted as by Registry.Admit under its BusName or its file's name, and the Listener is registered, on the registry and on the bus |
| Config.ParseItems | src/busactd/main.c:187-217 | once the file is read: 0 or -ENOMEM; -ENOMEM and a file without rules change neither the registry nor the bus; any other file is admitted as by Registry.Admit and registered, on the registry and on the bus |
| Config.NewListener | src/busactd/main.c:179 | a fresh Listener that is UNDECIDED, unsubscribed and holds the matches built |
| Config.AdmitRules | src/busactd/main.c:217 | the file's Listener goes through busactd_add_listener: the registry becomes Admit of the candidate with the admitted position re-registered, on the registry and on the bus, and a Listener of that name is resident afterwards |
| Config.AdmitExtends | src/busactd/busactd.c:326-357 | admission never removes or reorders a resident Listener, and afterwards a Listener with the admitted name is resident |
| Config.ExtendsKeepsResident | src/busactd/busactd.c:326-357 | a resident name stays resident across admissions |
| Config.ExtendsKeepsResidents | src/busactd/busactd.c:326-357 | a set of resident names stays resident across admissions |
| Config.ExtendsTrans | src/busactd/busactd.c:326-357 | admissions in turn keep the places and names of the Listeners resident before the first |
| Config.KindDir | src/busactd/main.c:243 | "system" exactly for the system daemon, "user" exactly for the user daemon |
| Config.Layers | src/busactd/busactd.h:69-74 | there are exactly three layers, in the order preset, runtime, sysconfig |
| Config.LayerDir | src/busactd/main.c:241-243 | asprintf("%s/%s"): the layer, a '/', then "system" or "user" for the daemon's kind |
| Config.LoadOrder | src/busactd/main.c:235-249 | at most one directory per layer |
| Config.LoadOrderShape | src/busactd/main.c:235-249 | every directory comes from a non-empty layer; when no layer is empty, each layer gives its directory, in order |
| Config.LoadOrderOfLayers | src/busactd/main.c:235-249 | the preset directory comes first and the sysconfig directory last; the runtime directory lies between them and is skipped when there is none |
| Config.LoadOrderSnoc | src/busactd/main.c:235-249 | one more layer adds its directory at the end, or nothing if it is empty |
| Config.LoadOrderAppend | src/busactd/main.c:235-249 | the load order of two runs of layers is the load order of each, in turn |
| Config.Handed | src/busactd/main.c:248 | the log a walk over a list of files leaves: one path per file, in order |
| Config.HandedAppend | src/busactd/main.c:233-249 | two walks one after the other log one after the other |
| Config.WalkedAppend | src/busactd/main.c:233-249 | two walks one after the other admit the names of both |
| Config.FilesInSnoc | src/busactd/main.c:233-249 | visiting one more directory hands over its files after all the earlier ones |
| Config.ParseDirEntry | src/busactd/main.c:248 | one file of a directory: the log gains its path before the call, a path without ".conf" gives -EINVAL, resident Listeners keep their places, and an admissible file with result 0 leaves its name resident |
| Config.LoadEntry | src/busactd/main.c:248 | one step of the walk over a directory: the log, the per-file results and the admitted names extend from the files before i to the first i + 1 files |
| Config.LoadDir | src/busactd/main.c:248 | every file of the directory is handed to busactd_parse_config_file, in order, whatever the previous result was: the log gains exactly the files' paths, in order, and `results` holds one result per file; a path without ".conf" gives -EINVAL; every admissible file whose call returned 0 leaves its name resident; resident Listeners keep their places and names |
| Config.LoadLayer | src/busactd/main.c:246-248 | one layer more: an empty layer is skipped; otherwise its directory is loaded, and the log, the per-file results and the admitted names extend from the directories visited before to those plus this one |
| Config.AdmissibleInSnoc | src/busactd/main.c:233-249 | visiting one more directory adds the names admissible from it |
| Config.AdmissibleInSome | src/busactd/main.c:233-249 | a name admissible from a list of directories is admissible from one of them |
| Config.LoadListeners | src/busactd/main.c:226-254 | without a connection it changes nothing, neither the registry nor the bus, logs nothing and answers CONTINUE; otherwise it visits exactly the load-order directories, answers REMOVE, and the log gains the paths of the files of those directories, directory by directory and in each directory's order (FilesIn), with one result per file; every admissible file whose call returned 0 leaves its name resident; resident Listeners keep their places, each admitted name is admissible from a visited directory, and the idle timer then keeps running if any Listener is resident |
| Config.LoadedKeepsTimer | src/busactd/main.c:226-264 | after loading, the idle timer keeps running when a Listener was resident before or was admitted |
| Config.IdleTimeout | src/busactd/main.c:256-264 | CONTINUE exactly while the registry is non-empty; quitting the main loop and REMOVE exactly when it is empty |

## Left out

- Reference counts, `*_free` and `busactd_unregister_listeners` (src/busactd/main.c:119-125) are not modelled. The lifetime of a record is its membership of the registry.
- The `match->listener` back-pointer is replaced by the ghost map `Daemon.Home`. After a merge, the source leaves the merged matches pointing at the freed incoming Listener (src/busactd/busactd.c:349-351); `Home` points them at the resident Listener instead. Merged matches always come from configuration files, so they are PERSISTENT, and `busactd_remove_match` returns before following the pointer.
- The transport is reduced to the `Transport.Bus` primitives. GVariant encoding, the method invocation object, bus-name acquisition and object registration (src/busactd/dbus.c:318-374) are not modelled. The arguments of a re-emitted signal are carried as a list of strings.
- Transport.Bus.NameHasOwner: the reply is assumed to arrive. A failed call, which the source dereferences as a NULL reply at src/busactd/busactd.c:150, is not modelled.
- Subscription ids are unbounded naturals; the 32-bit wrap-around of the unsigned counter is not modelled.
- Busactd.Daemon.ListenerGet: `ref_count` is not modelled. When `busactd_listener_new` itself fails, the source dereferences NULL at src/busactd/busactd.c:91; the model answers null, as it does for a failed name copy.
- Busactd.Match.Assign: a word without '=' makes the source read past the copied word (src/busactd/busactd.c:476-478). The model skips such a word.
- Busactd.Daemon.OnNameOwnerChanged: the source's fatal assertion that the notification names this Listener is a precondition. The old-owner argument is ignored, as in the source.
- Config.ParseConfigFile: `config_parse` is not part of this model. The file is given as its items in file order, or as the error with which reading it fails; the first failing Subscribe handler stops the walk with its error; the last BusName item wins. The Listener record is created after the items are read, because its bus name is a constant field; the order of results (-EINVAL, then -ENOMEM, then the reader's error) is the source's.
- Config.LoadDir: `config_parse_dir` is not part of this model. A directory is the list of its files, in whatever order it hands them over. Because any allocation may fail, the model promises residency only for the admissible files whose call returned 0; the ghost `results` record which those were.
- Config.LoadListeners: the connection is a boolean parameter and the configuration tree is a map from directory to files. A failed `asprintf` of a directory name (src/busactd/main.c:241-246) is not modelled: every non-empty layer is visited.
- `busactd_prepare_runtime_dir`, `parse_argv`, `main` and the main loop (src/busactd/main.c:50-117, 266-313) are not modelled. The runtime layer is a parameter, and an empty string means there is none.
- `basename` is the part after the last '/'; GNU special cases for a trailing '/' are not modelled.
- Logging (src/shared/log.c) is left out, and so is the live-bus test client (src/test/test-busactd.c).

## Findings

| source | as written | input that shows it | evidently intended | confidence | as-written member | corrected member |
|---|---|---|---|---|---|---|
| src/busactd/busactd.c:412-427 | `busactd_remove_match` frees the RUNTIME match, and on its last match frees the Listener through `busactd_remove_listener` (src/busactd/busactd.c:359-367), without unsubscribing anything from the bus. The match's signal subscription and the Listener's NameOwnerChanged subscription stay live with the freed Listener as their user data. | A Listener with only a NameOwnerChanged watch (id 1) and one RUNTIME rule (id 2); `RemoveSubscription(2)` replies "removed", the registry becomes empty, and ids 1 and 2 are still live, so the next matching signal or name change runs a callback on freed memory. | Removing a match unsubscribes its id; evicting a Listener also unsubscribes its name watch, so every live subscription belongs to a record of the registry. | not executed | Busactd.Daemon.RemoveMatch, ControlApi.RemoveSubscription, Registry.RemovalOrphans, Registry.OneRuleOrphans | Busactd.Daemon.RemoveMatchReleasing, ControlApi.RemoveSubscriptionReleasing, Registry.ReleasedKeepsTracked, ControlApi.RemoveKeepsTracked |

`ControlApi.RemoveSubscription`, and `ControlApi.HandleMethodCall` through
it, model the handler as written: the bus keeps every subscription.
`ControlApi.RemoveSubscriptionReleasing` is the same handler over the
corrected removal. Its replies and registry effect are the same; only the set
of live subscriptions differs.
