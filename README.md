# JATOS core: group dispatcher, user sessions, study model, JSON helpers

This project models the in-memory core of JATOS, a server for online studies.
The model is written in Dafny, and the properties below are proved about it.
It has five modules:

- **GroupDispatch** (`group_dispatch.dfy`): the actor that runs one group of
  study participants.
  - It keeps a map from member id (a study-result id) to that member's group
    channel.
  - It handles four kinds of message: a join, a group message (to one
    recipient or to everyone but the sender), a dropout and a forced close
    ("poison").
  - Each handler is a method of class `GroupDispatcher` that updates the
    `channels` map and returns the list of sends it makes.
  - The pure function `Step` states what each handler does, and the lemmas
    next to it state the properties.
- **UserSessions** (`user_session.dfy`):
  - `UserSession` is the per-user record. It holds a map from remote address
    to session id, and an array of the last four login times sorted oldest
    first.
  - `UserSessionCacheAccessor` keeps these records in a cache keyed by the
    lower-cased e-mail. It also applies the rule that a fifth login attempt
    within one minute is a repeated attempt.
  - The array algorithm of `OverwriteOldestLoginTime` is proved against the
    function `ReplaceOldest`. `Replay`/`LastFour` show that the array holds
    the last four attempts.
- **Studies** (`studies.dfy`): the list and set logic of `StudyModel`.
  - the clone constructor
  - the member set
  - the ordered component list: first, next, move up and move down
  - equality and `hashCode`, both by id only
- **JsonUtil** (`json_utils.dfy`): the pure helpers of `JsonUtils`.
  - HTML escaping and truncation of result data, with an unescaping inverse
  - duration formatting
  - group-result-id selection
  - the case-insensitive sidebar sort. It is written as an in-place insertion
    sort over an array and proved to equal the stable sort `SortByTitle`.
- **Common** (`common.dfy`):
  - Java's `null` (as `Option`)
  - the `long` range and 64-bit wrap-around
  - `Long.toString` / `Long.valueOf` on decimal text
  - Java's truncating `/` and `%`
  - `String.toLowerCase` on ASCII letters

## Model

| member | source | states |
|---|---|---|
| GroupDispatch.GroupDispatcher.constructor | app/publix/groupservices/akka/actors/GroupDispatcher.java:55-60 | a new dispatcher has no members and has persisted no dropout; it keeps the registry, itself and its group result id |
| GroupDispatch.GroupDispatcher.PostStop | app/publix/groupservices/akka/actors/GroupDispatcher.java:63-66 | on stop the only send is `Unregister(groupResultId)` to the registry |
| GroupDispatch.GroupDispatcher.OnReceive | app/publix/groupservices/akka/actors/GroupDispatcher.java:68-80 | the new member map, the dropouts persisted and the sends are exactly those of `Step` for the received message |
| GroupDispatch.UnknownMessageIgnored | app/publix/groupservices/akka/actors/GroupDispatcher.java:68-80 | a message of any other type changes no member, persists nothing and sends nothing |
| GroupDispatch.GroupDispatcher.DispatchGroupMsg | app/publix/groupservices/akka/actors/GroupDispatcher.java:82-89 | with a `recipient` key the message goes the addressed way; without one it goes to every channel except the sender's |
| GroupDispatch.BroadcastReachesAllButSender | app/publix/groupservices/akka/actors/GroupDispatcher.java:168-174 | a message without a recipient: the map is unchanged, nothing is persisted, the sender gets nothing, and each other channel gets the message once per member id it holds (exactly once when channels are distinct) |
| GroupDispatch.GroupDispatcher.TellRecipientOnly | app/publix/groupservices/akka/actors/GroupDispatcher.java:91-109 | exactly one send: the message to the addressed member's channel when the recipient parses as a member id, otherwise a reply to the sender whose only key is `error` |
| GroupDispatch.AddressedReachesOnlyRecipient | app/publix/groupservices/akka/actors/GroupDispatcher.java:91-104 | a message addressed to a present member is delivered to that member's channel alone; the map is unchanged and nothing is persisted |
| GroupDispatch.BadRecipientGetsOneErrorReply | app/publix/groupservices/akka/actors/GroupDispatcher.java:94-108 | a recipient that is not a number or not a member yields one reply to the sender and no delivery; the reply's only key is `error`; the map is unchanged |
| GroupDispatch.AddressedMessageAlwaysAnswered | app/publix/groupservices/akka/actors/GroupDispatcher.java:91-109 | a message with a `recipient` key always causes exactly one send: the delivery or the error reply |
| GroupDispatch.ErrorReply | app/publix/groupservices/akka/actors/GroupDispatcher.java:185-187 | the recycled node holds the single key `error`, bound to the error text |
| GroupDispatch.GroupDispatcher.SendErrorBackToSender | app/publix/groupservices/akka/actors/GroupDispatcher.java:182-189 | one send to the sender, carrying a node whose only key is `error` |
| GroupDispatch.GroupDispatcher.CloseAGroupChannel | app/publix/groupservices/akka/actors/GroupDispatcher.java:111-125 | the new map, the persisted dropouts and the sends are those of `Step` for a forced close |
| GroupDispatch.ForcedCloseRepliesMembership | app/publix/groupservices/akka/actors/GroupDispatcher.java:111-125 | the reply is true iff the target was a member, and it is the last send; the target is removed and nothing is persisted; for a member, the close is first forwarded to the target's channel, then every remaining channel receives the `dropped` notice once per member id it holds, and no one else does; otherwise the reply is the only send |
| GroupDispatch.GroupDispatcher.TellDropoutToEveryone | app/publix/groupservices/akka/actors/GroupDispatcher.java:127-136 | a `dropped` notice naming the member, the group result id, the current member set and the group state goes to every channel of the map, once per member id it holds, and to no one else |
| GroupDispatch.GroupDispatcher.HandleDropout | app/publix/groupservices/akka/actors/GroupDispatcher.java:138-153 | the new map, the persisted dropouts and the sends are those of `Step` for a dropout |
| GroupDispatch.DropoutRemovesAndTellsTheRest | app/publix/groupservices/akka/actors/GroupDispatcher.java:138-153 | when the stored channel is the sender's: the member is removed and its drop persisted; every send is either the `dropped` notice (naming the member, the group result id, the remaining member set and the group state) to a remaining channel, or the stop to itself; each remaining channel gets the notice once per member id it holds; the dispatcher tells itself to stop iff no member remains, and then that stop is the only send |
| GroupDispatch.StaleDropoutChangesNothing | app/publix/groupservices/akka/actors/GroupDispatcher.java:142-152 | a dropout from a channel that is not the stored one changes no member and persists nothing; its only possible send is the stop to itself, exactly when the map is empty |
| GroupDispatch.StopOnlyAfterDropoutWhenEmpty | app/publix/groupservices/akka/actors/GroupDispatcher.java:149-152 | for every message, the dispatcher sends itself a stop iff the message was a dropout and no member remains |
| GroupDispatch.GroupDispatcher.JoinGroupDispatcher | app/publix/groupservices/akka/actors/GroupDispatcher.java:155-166 | the new map, the persisted dropouts and the sends are those of `Step` for a join |
| GroupDispatch.JoinNotifiesEveryMember | app/publix/groupservices/akka/actors/GroupDispatcher.java:155-166 | after a join the id maps to the sender and all other entries are unchanged; nothing is persisted; every send is the `joined` notice with the new member set; every channel gets one notice per member id it holds (exactly one when channels are distinct) |
| GroupDispatch.GroupDispatcher.TellAllButSender | app/publix/groupservices/akka/actors/GroupDispatcher.java:168-174 | the sender's channel receives nothing, every other channel receives the message once per member id it holds, and nothing goes outside the map; the sends are the fan-out over the map in some enumeration of its keys |
| GroupDispatch.GroupDispatcher.TellAll | app/publix/groupservices/akka/actors/GroupDispatcher.java:176-180 | every channel of the map receives the message once per member id it holds, and nothing goes outside the map; the sends are the fan-out over the map in some enumeration of its keys |
| GroupDispatch.FanoutDelivers | app/publix/groupservices/akka/actors/GroupDispatcher.java:168-180 | every channel except the skipped one receives the message as many times as it has member ids, and every send goes to a channel of the map |
| GroupDispatch.FanoutOncePerMember | app/publix/groupservices/akka/actors/GroupDispatcher.java:176-180 | when channels are distinct, every member's channel receives exactly one copy |
| GroupDispatch.FanoutLength | app/publix/groupservices/akka/actors/GroupDispatcher.java:176-180 | telling all sends exactly as many messages as there are members |
| GroupDispatch.MalformedRecipientThrows | app/publix/groupservices/akka/actors/GroupDispatcher.java:93-107 | for the recipient "abc" the code as written sends the error reply; the null id then misses in the map, and `toString` on it throws a NullPointerException |
| GroupDispatch.RecipientOnlyAsWritten | app/publix/groupservices/akka/actors/GroupDispatcher.java:91-109 | the routing as written sends exactly one message before it returns or throws; when it throws, that message is the error reply to the sender |
| GroupDispatch.IdToString | app/publix/groupservices/akka/actors/GroupDispatcher.java:105 | `toString` on the id throws exactly when the id is null |
| GroupDispatch.AsWrittenDiffersOnlyByTheFailure | app/publix/groupservices/akka/actors/GroupDispatcher.java:91-109 | the code as written makes the same sends as the corrected routing; it throws exactly when the recipient is not a number |
| UserSessions.InitialTimes | modules/gui/app/models/gui/UserSession.java:38-39 | a new record holds four login times in ascending order |
| UserSessions.UserSession.constructor | modules/gui/app/models/gui/UserSession.java:31-43 | a new record has the given e-mail, no session ids and four times Instant.MIN, and its invariant holds |
| UserSessions.UserSession.GetSessionId | modules/gui/app/models/gui/UserSession.java:49-51 | the id stored for the address, and null iff there is none |
| UserSessions.UserSession.AddSessionId | modules/gui/app/models/gui/UserSession.java:53-55 | afterwards the address maps to the new id and every other address keeps its id |
| UserSessions.UserSession.RemoveSessionId | modules/gui/app/models/gui/UserSession.java:57-59 | returns the previous id, or null if there was none; afterwards the address has no id and the others are kept |
| UserSessions.UserSession.GetOldestLoginTime | modules/gui/app/models/gui/UserSession.java:61-63 | the result is one of the stored times and no later than any of them |
| UserSessions.UserSession.OverwriteOldestLoginTime | modules/gui/app/models/gui/UserSession.java:65-69 | the array stays four long and ascending and becomes `ReplaceOldest` of its old contents |
| UserSessions.ReplaceOldestResorts | modules/gui/app/models/gui/UserSession.java:65-69 | the result has four ascending entries; its multiset is the old one minus the oldest time plus the new time |
| UserSessions.InsertMultiset | modules/gui/app/models/gui/UserSession.java:65-69 | re-sorting adds exactly the new time to the multiset of times |
| UserSessions.InsertAscending | modules/gui/app/models/gui/UserSession.java:65-69 | re-sorting keeps the times ascending |
| UserSessions.ReplayKeepsLastFour | modules/gui/app/models/gui/UserSession.java:33-39 | overwriting from the initial array with non-decreasing times leaves the last four of them, padded with Instant.MIN in front when there were fewer than four |
| UserSessions.ReplayAscending | modules/gui/app/models/gui/UserSession.java:33-37 | any sequence of overwrites keeps the array ascending |
| UserSessions.RepeatedIffFourthLastRecent | modules/gui/app/services/gui/UserSessionCacheAccessor.java:55-67 | after non-decreasing attempts, the next attempt is repeated iff there were at least four and the fourth-last lies within the minute before now |
| UserSessions.UserSessionCacheAccessor.constructor | modules/gui/app/services/gui/UserSessionCacheAccessor.java:22-25 | the cache starts empty |
| UserSessions.UserSessionCacheAccessor.GetUserSessionId | modules/gui/app/services/gui/UserSessionCacheAccessor.java:27-35 | the id stored for the address in the lower-cased e-mail's record; null when there is no such id or no record |
| UserSessions.UserSessionCacheAccessor.SessionIdIgnoresCase | modules/gui/app/services/gui/UserSessionCacheAccessor.java:27-29 | e-mails that differ only in letter case get the same answer |
| UserSessions.UserSessionCacheAccessor.SetUserSessionId | modules/gui/app/services/gui/UserSessionCacheAccessor.java:37-41 | afterwards the lookup returns the new id; the record is created if missing; only that record's map entry changes |
| UserSessions.UserSessionCacheAccessor.StoreSessionId | modules/gui/app/services/gui/UserSessionCacheAccessor.java:40 | the cached record of the key gets the id at the address; no other record changes |
| UserSessions.UserSessionCacheAccessor.RemoveUserSessionId | modules/gui/app/services/gui/UserSessionCacheAccessor.java:43-53 | true iff an id existed for the address; afterwards there is none; the cache keeps its records and gains none |
| UserSessions.UserSessionCacheAccessor.IsRepeatedLoginAttempt | modules/gui/app/services/gui/UserSessionCacheAccessor.java:55-61 | true iff the record's four stored times are all later than Instant.MIN and within the minute before now; a missing record is created empty and nothing else changes |
| UserSessions.UserSessionCacheAccessor.AddLoginAttempt | modules/gui/app/services/gui/UserSessionCacheAccessor.java:63-67 | the record's login times become `ReplaceOldest(old times, now)`; other records are unchanged |
| UserSessions.UserSessionCacheAccessor.StoreLoginTime | modules/gui/app/services/gui/UserSessionCacheAccessor.java:66 | the cached record's login times become `ReplaceOldest(old times, now)`; no other record changes |
| UserSessions.UserSessionCacheAccessor.FindOrCreateByEmail | modules/gui/app/services/gui/UserSessionCacheAccessor.java:69-81 | returns the record cached under the lower-cased e-mail; a missing one is created and saved; existing records are untouched |
| UserSessions.UserSessionCacheAccessor.AddNewSession | modules/gui/app/services/gui/UserSessionCacheAccessor.java:72-74 | a fresh record with no ids and initial times is cached under the key |
| Common.ToLowerSameKey | modules/gui/app/services/gui/UserSessionCacheAccessor.java:28 | two e-mails lower-case to the same key iff they differ only in letter case |
| Studies.StudyModel.constructor | app/models/StudyModel.java:86-95 | a new study has no id, fields unset, no members and no components |
| Studies.StudyModel.Clone | app/models/StudyModel.java:97-113 | title, description, dirNamePrefix and jsonData are copied; not locked, no members, no id; the component list has the original's length, and entry i is a fresh copy of entry i pointing to the new study |
| Studies.StudyModel.HasMember | app/models/StudyModel.java:196-198 | `Set.contains`: true iff the user is in the member set; `AddMember` makes it true and `RemoveMember` false |
| Studies.StudyModel.AddMember | app/models/StudyModel.java:188-190 | the user becomes a member and no other membership changes |
| Studies.StudyModel.RemoveMember | app/models/StudyModel.java:192-194 | the user is no longer a member and no other membership changes |
| Studies.StudyModel.AddComponent | app/models/StudyModel.java:208-210 | the component is appended at the end |
| Studies.StudyModel.RemoveComponent | app/models/StudyModel.java:212-214 | the list loses the first occurrence of the component only; with distinct entries the component is gone afterwards |
| Studies.StudyModel.HasComponent | app/models/StudyModel.java:216-218 | `List.contains`: true iff `indexOf` finds the component |
| Studies.RemoveFirstCutsFirstOccurrence | app/models/StudyModel.java:212-214 | removal cuts out exactly the entry at the first index and keeps the order of the rest |
| Studies.RemoveFirstMultiset | app/models/StudyModel.java:212-214 | removal takes one copy of the component out of the multiset of entries, and nothing else |
| Studies.IndexOf | app/models/StudyModel.java:255-256 | `indexOf`: the first index holding the component, or -1 iff it is absent |
| Studies.StudyModel.GetFirstComponent | app/models/StudyModel.java:220-226 | null iff the list is empty, else the first entry |
| Studies.StudyModel.GetNextComponent | app/models/StudyModel.java:228-235 | for a present component: the entry after its first occurrence, or null iff that is the last; for an absent one: the first entry |
| Studies.StudyModel.NextFollowsListOrder | app/models/StudyModel.java:228-235 | with distinct entries, the next of entry i is entry i + 1, and null for the last |
| Studies.StudyModel.ComponentOrderSwap | app/models/StudyModel.java:253-259 | two requests: component1 goes to the index where component2 sits in the list and component2 to where component1 sits; an absent component yields index -1 (the `indexOf` miss) |
| Studies.StudyModel.ComponentOrderMinusOne | app/models/StudyModel.java:237-243 | no reorder iff the component is first or absent |
| Studies.StudyModel.ComponentOrderPlusOne | app/models/StudyModel.java:245-251 | no reorder iff the component is last |
| Studies.StudyModel.MoveSwapsNeighbours | app/models/StudyModel.java:237-259 | with distinct entries, moving entry i up or down swaps it with its neighbour |
| Studies.StudyModel.PlusOneOnAbsentComponent | app/models/StudyModel.java:245-259 | moving down an absent component swaps it with the first entry, which is sent to index -1 |
| Studies.StudyModel.Equals | app/models/StudyModel.java:306-326 | equal iff the other study is not null and has the same id (two unset ids are equal) |
| Studies.StudyModel.HashCode | app/models/StudyModel.java:298-304 | an `int`; 31 when the id is unset |
| Studies.StudyModel.EqualsThenSameHash | app/models/StudyModel.java:298-326 | equal studies have equal hash codes |
| Studies.StudyModel.SmallIdHash | app/models/StudyModel.java:298-304 | for an id in `int` range (minus 31) the hash is 31 + id |
| Studies.LongHashSmall | app/models/StudyModel.java:302 | `Long.hashCode` of a non-negative `int`-sized value is the value |
| Studies.EqualsIsEquivalence | app/models/StudyModel.java:306-326 | `equals` is reflexive, symmetric and transitive |
| JsonUtil.EscapeHtml | modules/common/app/utils/common/JsonUtils.java:156-157 | the escaped text contains no `<` and no `>`, and only characters of the input or of the entities |
| JsonUtil.EscapeHtmlIsOnePass | modules/common/app/utils/common/JsonUtils.java:156-157 | the three successive replacements equal one pass that escapes each character on its own |
| JsonUtil.UnescapeEscape | modules/common/app/utils/common/JsonUtils.java:156-157 | escaping loses nothing: `Unescape` recovers the input |
| JsonUtil.ComponentResultDataForUI | modules/common/app/utils/common/JsonUtils.java:151-166 | "none" for null data; never `<` or `>`; escaped text under 1000 characters is returned whole, exactly `EscapeHtml(data)`, and unescapes back to the data; otherwise its first 1000 characters plus " ...", 1004 in all |
| JsonUtil.NoDataLooksLikeNone | modules/common/app/utils/common/JsonUtils.java:154-164 | null data and the data "none" are shown identically |
| JsonUtil.Parts | modules/common/app/utils/common/JsonUtils.java:280-284 | for a non-negative duration: seconds, minutes and hours are in range, and days, hours, minutes, seconds and the milliseconds add back up to the duration |
| JsonUtil.Pad2 | modules/common/app/utils/common/JsonUtils.java:285-287 | `%02d`: a number from 0 to 99 becomes two digits that read back as it; the text is never shorter than two, and a negative number keeps its sign |
| JsonUtil.ClockReadsBack | modules/common/app/utils/common/JsonUtils.java:285-287 | the clock text is `HH:MM:SS`, two digits each, reading back the hours, minutes and seconds |
| JsonUtil.DurationText | modules/common/app/utils/common/JsonUtils.java:284-292 | for a non-negative duration the text ends in the eight-character clock text, and is longer iff the duration lasts a day or more |
| JsonUtil.GetDurationPretty | modules/common/app/utils/common/JsonUtils.java:277-295 | null iff the end date is null; otherwise the text of the `long` difference of the dates |
| JsonUtil.DurationUnderADay | modules/common/app/utils/common/JsonUtils.java:285-289 | under a day the text is `HH:MM:SS`, and its fields add back up to the duration |
| JsonUtil.DurationOfDays | modules/common/app/utils/common/JsonUtils.java:284-292 | from one day on the text is the day count in decimal, a colon and the clock text |
| JsonUtil.GetGroupResultId | modules/common/app/utils/common/JsonUtils.java:236-244 | the text of the active group result's id if there is one, else of the history one's, else "none" |
| JsonUtil.GroupResultIdIsUnambiguous | modules/common/app/utils/common/JsonUtils.java:236-244 | the result is "none" iff there is neither group result |
| Common.ParseLongToString | modules/common/app/utils/common/JsonUtils.java:238-240 | the decimal text of a `long` reads back as that `long` |
| JsonUtil.CompareTo | modules/common/app/utils/common/JsonUtils.java:404 | `String.compareTo` is zero iff the texts are equal |
| JsonUtil.CompareToAntisymmetric | modules/common/app/utils/common/JsonUtils.java:404 | swapping the arguments negates the comparison |
| JsonUtil.CompareToTransitive | modules/common/app/utils/common/JsonUtils.java:404 | the comparison is transitive |
| JsonUtil.CompareByTitle | modules/common/app/utils/common/JsonUtils.java:401-406 | zero iff the lower-cased titles are equal (`CompareToAntisymmetric` and `CompareToTransitive` give the comparator's order laws) |
| JsonUtil.CompareIgnoresCase | modules/common/app/utils/common/JsonUtils.java:401-406 | two studies compare as equal iff their titles differ only in letter case |
| JsonUtil.SortByTitleSorted | modules/common/app/utils/common/JsonUtils.java:401-406 | the sorted list is non-decreasing by lower-cased title |
| JsonUtil.SortByTitlePermutation | modules/common/app/utils/common/JsonUtils.java:394 | the sorted list is a permutation of its input |
| JsonUtil.SortByTitleStable | modules/common/app/utils/common/JsonUtils.java:394 | studies whose titles compare as equal keep their input order |
| JsonUtil.StableSortIsSortByTitle | modules/common/app/utils/common/JsonUtils.java:394 | any sorted list in which equally titled studies keep their input order is exactly `SortByTitle` of the input |
| JsonUtil.InsertInPlace | modules/common/app/utils/common/JsonUtils.java:394 | one insertion step on the array inserts entry i into the sorted prefix before it and leaves the rest alone |
| JsonUtil.SortByTitleInPlace | modules/common/app/utils/common/JsonUtils.java:394 | sorting the array in place leaves `SortByTitle` of its old contents |
| JsonUtil.SidebarStudyList | modules/common/app/utils/common/JsonUtils.java:376-396 | the result is the sidebar studies sorted by lower-cased title: sorted, a permutation of them and stable |

## Left out

- Akka delivery, mailboxes, concurrency, supervision and restart are not modelled. Neither are the registry and channel actors. Each handler is one atomic step that returns its list of sends.
- The order in which `HashMap.values()` is walked is unspecified in Java. The broadcast methods return the key enumeration they used as a ghost `order`, and their contracts hold for any such enumeration.
- `GroupService` is not part of this model. The value of `getGroupState` is a parameter of each handler, and the calls to `dropGroupResult` are recorded in the ghost log `dropped`.
- The `groupMembers` field is `keySet().toString()` in the source. The model keeps the member set itself, not its text.
- A join persists nothing: it only reads the group state (`getGroupState`, the handler parameter `state`) and never calls `dropGroupResult`. The model follows the code.
- A forced close that removes the last member does not make the dispatcher stop. Only a dropout does, and the model follows the code.
- GroupDispatch.GroupDispatcher.TellAllButSender: the source skips the sender with the reference test `actorRef != sender()` (GroupDispatcher.java:170), while the dropout test uses `equals` (line 144). The model compares handles by value in both places, so it treats equal handles as the same reference: two distinct `ActorRef` objects for the same actor would be skipped by the model but told by the source.
- GroupDispatch.GroupDispatcher.SendErrorBackToSender: the incoming JSON node is recycled in place in the source. The model builds a fresh node with the same content.
- JSON values are maps from key to text. Jackson's node types, `asText()` of non-text values, and `jsonNode.has` on a null node are not modelled.
- `ComponentModel`'s copy constructor, `setStudy` and `changeComponentOrder` are not part of this model.
  - A component carries an opaque content value, which its copy keeps.
  - `ComponentOrderSwap` and its callers return the two `changeComponentOrder` requests and do not reorder the list.
- Studies.StudyModel.Clone, Studies.StudyModel.RemoveComponent, Studies.StudyModel.GetNextComponent, Studies.StudyModel.ComponentOrderMinusOne, Studies.StudyModel.ComponentOrderPlusOne and Studies.StudyModel.ComponentOrderSwap compare components by reference, because `ComponentModel.equals` is not part of this model.
  - `List.indexOf`, `List.remove` and `List.contains` call that `equals`.
  - If it compares ids, as `StudyModel.equals` does, all components of a fresh clone (ids still null) would count as equal.
  - In that case `Clone`'s distinctness, the first-occurrence removal and the neighbour moves would not describe the source.
- The group state is never null in the model. `groupState.toString()` at GroupDispatcher.java:164 would throw on a null state, while `String.valueOf` at line 134 would write "null".
- The user-session cache accessor is modelled as used by one caller at a time. In the source it is used concurrently, and neither the check-then-create of `findOrCreateByEmail` nor the overwrite-then-sort of `overwriteOldestLoginTime` is synchronised. Lost updates and interleavings are not modelled.
- `UserModel` is compared as a value. Its own `equals` (by e-mail) is not part of this model.
- `StudyModel.equals` takes a `StudyModel` or null. The `instanceof` test against other classes is not modelled.
- `StudyModel.validate`, the setters and getters, and the JPA finders and persisters are not modelled.
- The `memberList` and `componentList` of a study are a set and a sequence value. `HashSet` and `ArrayList` sharing and aliasing are not modelled.
- Jackson and Hibernate serialisation in `JsonUtils` is not modelled: `asJson*`, `initData`, the study export and `initializeAndUnproxy`. `sidebarStudyList` returns the sorted list, not its JSON node.
- `List.sort` is the library's merge sort. The model sorts with an in-place insertion sort, and `StableSortIsSortByTitle` shows that every stable sort by this comparator gives the same list.
- `String.toLowerCase` only folds ASCII letters here. Other Unicode case mappings, locales and UTF-16 code units versus characters are not modelled.
- `Long.valueOf` only accepts ASCII digits here. Other Unicode digits are not modelled.
- `Instant.now()` is the parameter `now`. An `Instant` is a count of nanoseconds no earlier than `Instant.MIN`.
- UserSessions.UserSessionCacheAccessor.IsRepeatedLoginAttempt: does not model the `DateTimeException` that `oldest.plus(1 minute)` throws near `Instant.MAX`, because the model puts no upper bound on instants.
- The cache is a map from key to record object. Expiry and eviction by the cache library are not modelled.
- NullPointerExceptions other than the one under Findings are not modelled: null e-mails, null titles and null start dates.
- JsonUtil.GetDurationPretty: the `long` subtraction wraps as in Java. The contract states the text only when the difference fits in a `long`, and otherwise only that the result is not null.
- `Timestamp.getTime()` is a `long` millisecond count passed in directly.
- The escape of `&` is "&amp" with no semicolon, as in the code. `Unescape` is the inverse of exactly this escaping.

## Findings

| source | as written | input that shows it | evidently intended | confidence | as-written member | corrected member |
|---|---|---|---|---|---|---|
| app/publix/groupservices/akka/actors/GroupDispatcher.java:93-107 | after a malformed recipient the error reply is sent, then execution goes on with a null id: the map lookup misses and `studyResultId.toString()` throws a NullPointerException | a group message whose `recipient` is "abc" | return after the error reply, so the sender gets exactly one reply and the dispatcher does not fail | not executed | GroupDispatch.MalformedRecipientThrows | GroupDispatch.GroupDispatcher.TellRecipientOnly |
