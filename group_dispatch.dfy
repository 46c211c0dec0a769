/**
 * The per-group message dispatcher. One dispatcher owns the membership map
 * of one group result: study-result id -> group channel. It processes one
 * inbound message at a time; every step is modelled as one atomic update of
 * the map together with the list of messages it sends.
 *
 * `Step` is the specification of one step as a function of the old map; the
 * class `GroupDispatcher` implements the handlers imperatively and is proved
 * against `Step`; the lemmas below state what each kind of step promises.
 */
module GroupDispatch {
  import opened Common

  /** The id of a group member: the id of its study result. */
  type MemberId = Long

  /** A handle of an actor: a group channel, the registry, the dispatcher
      itself, or whoever sent a request. Comparing handles by value is a
      modelling choice: the source skips the sender by reference (`!=`) in
      tellAllButSender but uses `equals` in dropout. */
  datatype Actor = Actor(ref: int)

  /** The value the group service reports for the group's state; relayed
      verbatim, never interpreted. */
  datatype GroupState = GroupState(name: string)

  /** The JSON object of a GroupMsg: each field name with the text its value
      gives (Jackson's asText). */
  datatype GroupMsg = GroupMsg(node: map<string, string>)

  const RecipientKey: string := "recipient"
  const ErrorKey: string := "error"

  datatype Event = Joined | Dropped

  /** The membership notification
      {"joined"|"dropped": id, "groupId": .., "groupMembers": .., "groupState": ..};
      the member list is kept as the set of member ids. */
  datatype Notification = Notification(
    event: Event, subject: MemberId, groupResultId: Long,
    members: set<MemberId>, state: GroupState)

  /** The messages the dispatcher reacts to; `Unknown` is any other object. */
  datatype Inbound =
    | GroupMessage(msg: GroupMsg)
    | JoinGroup(joiner: MemberId)
    | Dropout(leaver: MemberId)
    | PoisonSomeone(idOfTheOneToPoison: MemberId)
    | Unknown

  /** What the dispatcher sends. `ForwardedPoison` keeps the original sender
      of the PoisonSomeone request, as Akka's forward does. */
  datatype Outbound =
    | Relay(msg: GroupMsg)
    | Notify(note: Notification)
    | ForwardedPoison(target: MemberId, origin: Actor)
    | CloseReply(closed: bool)
    | PoisonPill
    | Unregister(groupResultId: Long)

  datatype Send = Send(to: Actor, out: Outbound)

  /** The outcome of one step: the new map, the drops persisted through the
      group service, in order, and the messages sent, in order. */
  datatype StepResult = StepResult(
    channels: map<MemberId, Actor>, persisted: seq<MemberId>, sends: seq<Send>)

  // ---------------------------------------------------------------------
  // Error replies

  /** The reply that overwrites a GroupMsg with a single "error" field. */
  function ErrorReply(text: string): (g: GroupMsg)
    ensures g.node.Keys == {ErrorKey} && g.node[ErrorKey] == text
  {
    GroupMsg(map[ErrorKey := text])
  }

  function NotAnIdText(recipient: string): string
  {
    "Recipient " + recipient + " isn't a study result ID."
  }

  function NotAMemberText(id: MemberId): string
  {
    "Recipient " + LongToString(id) + " isn't member of this group."
  }

  // ---------------------------------------------------------------------
  // Broadcasting over the map

  /** `order` lists every key of `keys` exactly once: one iteration order of
      a HashMap with these keys. */
  ghost predicate Enumerates(order: seq<MemberId>, keys: set<MemberId>)
  {
    && (forall i, j :: 0 <= i < j < |order| ==> order[i] != order[j])
    && (forall k :: k in order <==> k in keys)
  }

  /** Some iteration order of a finite key set. */
  ghost function AnOrder(keys: set<MemberId>): (order: seq<MemberId>)
    ensures Enumerates(order, keys)
    decreases keys
  {
    if keys == {} then []
    else
      var k :| k in keys;
      var rest := AnOrder(keys - {k});
      assert forall i :: 0 <= i < |rest| ==> rest[i] != k;
      rest + [k]
  }

  /** One send of `out` per key of `order` present in `m`, in that order, to
      the key's channel, skipping the channel `except`. */
  function Fanout(order: seq<MemberId>, m: map<MemberId, Actor>, except: Option<Actor>, out: Outbound): seq<Send>
    decreases |order|
  {
    if order == [] then []
    else
      var k := order[|order| - 1];
      Fanout(order[..|order| - 1], m, except, out)
        + (if k in m && except != Some(m[k]) then [Send(m[k], out)] else [])
  }

  /** The number of sends addressed to `a`. */
  function SendsTo(sends: seq<Send>, a: Actor): nat
    decreases |sends|
  {
    if sends == [] then 0
    else SendsTo(sends[..|sends| - 1], a) + (if sends[|sends| - 1].to == a then 1 else 0)
  }

  /** The member ids registered under channel `a`. */
  function KeysOf(m: map<MemberId, Actor>, a: Actor): set<MemberId>
  {
    set k: MemberId | k in m && m[k] == a
  }

  /** Every member has a channel of its own. */
  ghost predicate Injective(m: map<MemberId, Actor>)
  {
    forall j, k :: j in m && k in m && j != k ==> m[j] != m[k]
  }

  lemma {:induction false} SendsToConcat(s: seq<Send>, t: seq<Send>, a: Actor)
    ensures SendsTo(s + t, a) == SendsTo(s, a) + SendsTo(t, a)
    decreases |t|
  {
    if t != [] {
      assert (s + t)[..|s + t| - 1] == s + t[..|t| - 1];
      SendsToConcat(s, t[..|t| - 1], a);
    } else {
      assert s + t == s;
    }
  }

  /** The number of keys of `order` registered in `m` under channel `a`. */
  function Holders(order: seq<MemberId>, m: map<MemberId, Actor>, a: Actor): nat
    decreases |order|
  {
    if order == [] then 0
    else
      var k := order[|order| - 1];
      Holders(order[..|order| - 1], m, a) + (if k in m && m[k] == a then 1 else 0)
  }

  lemma SendsToOne(s: Send, a: Actor)
    ensures SendsTo([s], a) == if s.to == a then 1 else 0
  {
    assert [s][..0] == [];
  }

  /** Counting form of Fanout. */
  lemma {:induction false} FanoutCount(order: seq<MemberId>, m: map<MemberId, Actor>, except: Option<Actor>, out: Outbound, a: Actor)
    ensures SendsTo(Fanout(order, m, except, out), a) == if except == Some(a) then 0 else Holders(order, m, a)
    decreases |order|
  {
    if order != [] {
      var p, k := order[..|order| - 1], order[|order| - 1];
      var f := Fanout(p, m, except, out);
      FanoutCount(p, m, except, out, a);
      if k in m && except != Some(m[k]) {
        assert Fanout(order, m, except, out) == f + [Send(m[k], out)];
        SendsToConcat(f, [Send(m[k], out)], a);
        SendsToOne(Send(m[k], out), a);
      } else {
        assert Fanout(order, m, except, out) == f + [];
        assert f + [] == f;
      }
    }
  }

  /** Over an order without repetitions, Holders is the number of member ids
      of the order registered under `a`. */
  lemma {:induction false} HoldersCount(order: seq<MemberId>, m: map<MemberId, Actor>, a: Actor)
    requires forall i, j :: 0 <= i < j < |order| ==> order[i] != order[j]
    ensures Holders(order, m, a) == |set k: MemberId | k in order && k in m && m[k] == a|
    decreases |order|
  {
    var here := set k: MemberId | k in order && k in m && m[k] == a;
    if order == [] {
      assert here == {};
    } else {
      var p, k := order[..|order| - 1], order[|order| - 1];
      HoldersCount(p, m, a);
      var before := set j: MemberId | j in p && j in m && m[j] == a;
      assert Holders(p, m, a) == |before|;
      assert k !in p by {
        forall i | 0 <= i < |p| ensures p[i] != k { assert order[i] == p[i]; }
      }
      assert k !in before;
      if k in m && m[k] == a {
        assert here == before + {k};
        assert |here| == |before| + 1;
        assert Holders(order, m, a) == Holders(p, m, a) + 1;
      } else {
        assert here == before;
      }
    }
  }

  /** A fanout over an iteration order of the whole map reaches each channel
      once per member id registered under it, never reaches `except`, and
      carries `out` and nothing else. */
  lemma FanoutDelivers(order: seq<MemberId>, m: map<MemberId, Actor>, except: Option<Actor>, out: Outbound)
    requires Enumerates(order, m.Keys)
    ensures forall a :: SendsTo(Fanout(order, m, except, out), a)
                     == if except == Some(a) then 0 else |KeysOf(m, a)|
    ensures forall s :: s in Fanout(order, m, except, out) ==>
              s.out == out && s.to in m.Values && except != Some(s.to)
  {
    forall a ensures SendsTo(Fanout(order, m, except, out), a)
                  == if except == Some(a) then 0 else |KeysOf(m, a)| {
      FanoutCount(order, m, except, out, a);
      HoldersCount(order, m, a);
      assert (set k: MemberId | k in order && k in m && m[k] == a) == KeysOf(m, a);
    }
    FanoutCarries(order, m, except, out);
  }

  lemma {:induction false} FanoutCarries(order: seq<MemberId>, m: map<MemberId, Actor>, except: Option<Actor>, out: Outbound)
    ensures forall s :: s in Fanout(order, m, except, out) ==>
              s.out == out && s.to in m.Values && except != Some(s.to)
    decreases |order|
  {
    if order != [] {
      FanoutCarries(order[..|order| - 1], m, except, out);
    }
  }

  /** With one channel per member, a full fanout reaches each member's
      channel exactly once. */
  lemma FanoutOncePerMember(order: seq<MemberId>, m: map<MemberId, Actor>, out: Outbound)
    requires Enumerates(order, m.Keys) && Injective(m)
    ensures forall k :: k in m ==> SendsTo(Fanout(order, m, None, out), m[k]) == 1
  {
    FanoutDelivers(order, m, None, out);
    forall k | k in m ensures |KeysOf(m, m[k])| == 1 {
      assert KeysOf(m, m[k]) == {k};
    }
  }

  // ---------------------------------------------------------------------
  // The specification of one step

  /** The stop request the dispatcher sends itself when its map is empty. */
  function StopIfEmpty(m: map<MemberId, Actor>, me: Actor): seq<Send>
  {
    if m == map[] then [Send(me, PoisonPill)] else []
  }

  /** Routing of a GroupMsg that names a recipient. */
  function RecipientOnly(m: map<MemberId, Actor>, g: GroupMsg, sender: Actor): seq<Send>
    requires RecipientKey in g.node
  {
    var text := g.node[RecipientKey];
    match ParseLong(text)
    case None => [Send(sender, Relay(ErrorReply(NotAnIdText(text))))]
    case Some(id) =>
      if id in m then [Send(m[id], Relay(g))]
      else [Send(sender, Relay(ErrorReply(NotAMemberText(id))))]
  }

  /** The notification broadcast after a membership change. */
  function Notice(event: Event, id: MemberId, gid: Long, m: map<MemberId, Actor>, state: GroupState): Outbound
  {
    Notify(Notification(event, id, gid, m.Keys, state))
  }

  /**
   * One step of the dispatcher of group result `gid` (whose own handle is
   * `me`) with map `m`, on message `msg` from `sender`; `state` is what the
   * group service reports for the group during this step and `order` the
   * order in which the (new) map is iterated.
   */
  function Step(m: map<MemberId, Actor>, gid: Long, me: Actor, msg: Inbound, sender: Actor,
                state: GroupState, order: seq<MemberId>): StepResult
  {
    match msg
    case GroupMessage(g) =>
      if RecipientKey in g.node then StepResult(m, [], RecipientOnly(m, g, sender))
      else StepResult(m, [], Fanout(order, m, Some(sender), Relay(g)))
    case JoinGroup(id) =>
      var m' := m[id := sender];
      StepResult(m', [], Fanout(order, m', None, Notice(Joined, id, gid, m', state)))
    case Dropout(id) =>
      if id in m && m[id] == sender then
        var m' := m - {id};
        StepResult(m', [id], Fanout(order, m', None, Notice(Dropped, id, gid, m', state)) + StopIfEmpty(m', me))
      else
        StepResult(m, [], StopIfEmpty(m, me))
    case PoisonSomeone(id) =>
      if id in m then
        var m' := m - {id};
        StepResult(m', [],
          [Send(m[id], ForwardedPoison(id, sender))]
          + Fanout(order, m', None, Notice(Dropped, id, gid, m', state))
          + [Send(sender, CloseReply(true))])
      else
        StepResult(m, [], [Send(sender, CloseReply(false))])
    case Unknown => StepResult(m, [], [])
  }

  // ---------------------------------------------------------------------
  // What each step promises

  /** Join: the joiner is (re)registered under the sender's channel, all
      other entries stay, nothing is persisted, and every channel of the new
      map receives the `joined` notification listing the new key set, once
      per member id it holds (so exactly once with a channel per member). */
  lemma JoinNotifiesEveryMember(m: map<MemberId, Actor>, gid: Long, me: Actor, id: MemberId,
                                sender: Actor, state: GroupState, order: seq<MemberId>)
    requires Enumerates(order, m[id := sender].Keys)
    ensures var r := Step(m, gid, me, JoinGroup(id), sender, state, order);
      && id in r.channels && r.channels[id] == sender
      && (forall k :: k != id ==> (k in r.channels <==> k in m))
      && (forall k :: k != id && k in m ==> r.channels[k] == m[k])
      && r.persisted == []
      && (forall s :: s in r.sends ==>
            s.out == Notify(Notification(Joined, id, gid, r.channels.Keys, state)))
      && (forall a :: SendsTo(r.sends, a) == |KeysOf(r.channels, a)|)
      && (Injective(r.channels) ==> forall k :: k in r.channels ==> SendsTo(r.sends, r.channels[k]) == 1)
  {
    var m' := m[id := sender];
    var out := Notice(Joined, id, gid, m', state);
    FanoutDelivers(order, m', None, out);
    if Injective(m') {
      FanoutOncePerMember(order, m', out);
    }
  }

  /** A GroupMsg without "recipient" reaches every channel of the map except
      the sender's, once per member id it holds, and changes nothing. */
  lemma BroadcastReachesAllButSender(m: map<MemberId, Actor>, gid: Long, me: Actor, g: GroupMsg,
                                     sender: Actor, state: GroupState, order: seq<MemberId>)
    requires RecipientKey !in g.node
    requires Enumerates(order, m.Keys)
    ensures var r := Step(m, gid, me, GroupMessage(g), sender, state, order);
      && r.channels == m && r.persisted == []
      && SendsTo(r.sends, sender) == 0
      && (forall a :: a != sender ==> SendsTo(r.sends, a) == |KeysOf(m, a)|)
      && (forall s :: s in r.sends ==> s.out == Relay(g) && s.to in m.Values)
      && (Injective(m) ==> forall k :: k in m && m[k] != sender ==> SendsTo(r.sends, m[k]) == 1)
  {
    FanoutDelivers(order, m, Some(sender), Relay(g));
    if Injective(m) {
      forall k | k in m && m[k] != sender ensures |KeysOf(m, m[k])| == 1 {
        assert KeysOf(m, m[k]) == {k};
      }
    }
  }

  /** A GroupMsg addressed to a current member reaches that member's channel
      and nobody else, and changes nothing. */
  lemma AddressedReachesOnlyRecipient(m: map<MemberId, Actor>, gid: Long, me: Actor, g: GroupMsg,
                                      sender: Actor, state: GroupState, order: seq<MemberId>, id: MemberId)
    requires RecipientKey in g.node && ParseLong(g.node[RecipientKey]) == Some(id)
    requires id in m
    ensures var r := Step(m, gid, me, GroupMessage(g), sender, state, order);
      && r.channels == m && r.persisted == []
      && r.sends == [Send(m[id], Relay(g))]
  {
  }

  /** A GroupMsg whose recipient is not a number, or is the id of no member,
      yields exactly one reply, to the sender, whose only field is "error";
      nothing is delivered and nothing changes. */
  lemma BadRecipientGetsOneErrorReply(m: map<MemberId, Actor>, gid: Long, me: Actor, g: GroupMsg,
                                      sender: Actor, state: GroupState, order: seq<MemberId>)
    requires RecipientKey in g.node
    requires var p := ParseLong(g.node[RecipientKey]); p.None? || p.value !in m
    ensures var r := Step(m, gid, me, GroupMessage(g), sender, state, order);
      && r.channels == m && r.persisted == []
      && |r.sends| == 1 && r.sends[0].to == sender
      && r.sends[0].out.Relay? && r.sends[0].out.msg.node.Keys == {ErrorKey}
  {
  }

  /** A GroupMsg that names a recipient is never dropped silently: it causes
      exactly one send, the delivery or the error reply, whether or not the
      recipient is a member. */
  lemma AddressedMessageAlwaysAnswered(m: map<MemberId, Actor>, gid: Long, me: Actor, g: GroupMsg,
                                       sender: Actor, state: GroupState, order: seq<MemberId>)
    requires RecipientKey in g.node
    ensures |Step(m, gid, me, GroupMessage(g), sender, state, order).sends| == 1
  {
  }

  /** Dropout by the channel registered for the member: the entry goes,
      the drop is persisted, the remaining members (and only they) receive
      `dropped` with the remaining key set, and the dispatcher asks itself
      to stop exactly when no member is left. */
  lemma DropoutRemovesAndTellsTheRest(m: map<MemberId, Actor>, gid: Long, me: Actor, id: MemberId,
                                      sender: Actor, state: GroupState, order: seq<MemberId>)
    requires id in m && m[id] == sender
    requires Enumerates(order, (m - {id}).Keys)
    ensures var r := Step(m, gid, me, Dropout(id), sender, state, order);
      && r.channels == m - {id} && r.persisted == [id]
      && (forall s :: s in r.sends && s.out.Notify? ==>
            s.to in r.channels.Values && s.out.note == Notification(Dropped, id, gid, r.channels.Keys, state))
      && (forall s :: s in r.sends ==>
            s == Send(me, PoisonPill)
            || (s.to in r.channels.Values && s.out == Notify(Notification(Dropped, id, gid, r.channels.Keys, state))))
      && (forall a :: a != me ==> SendsTo(r.sends, a) == |KeysOf(r.channels, a)|)
      && ((exists s :: s in r.sends && s.out == PoisonPill) <==> r.channels == map[])
      && (r.channels == map[] ==> r.sends == [Send(me, PoisonPill)])
  {
    var m' := m - {id};
    var out := Notice(Dropped, id, gid, m', state);
    FanoutDelivers(order, m', None, out);
    var f := Fanout(order, m', None, out);
    assert Step(m, gid, me, Dropout(id), sender, state, order) == StepResult(m', [id], f + StopIfEmpty(m', me));
    if m' == map[] {
      assert order == [] by { assert forall k :: k in order ==> k in m'.Keys; }
    }
    forall a | a != me ensures SendsTo(f + StopIfEmpty(m', me), a) == |KeysOf(m', a)| {
      SendsToConcat(f, StopIfEmpty(m', me), a);
      if m' == map[] { assert StopIfEmpty(m', me)[..0] == []; }
    }
    if m' == map[] {
      assert Send(me, PoisonPill) in f + StopIfEmpty(m', me);
    }
  }

  /** A dropout that is stale (the member is registered under another
      channel) or unknown changes nothing and persists nothing; its only
      possible effect is the stop request when the map is already empty. */
  lemma StaleDropoutChangesNothing(m: map<MemberId, Actor>, gid: Long, me: Actor, id: MemberId,
                                   sender: Actor, state: GroupState, order: seq<MemberId>)
    requires !(id in m && m[id] == sender)
    ensures var r := Step(m, gid, me, Dropout(id), sender, state, order);
      && r.channels == m && r.persisted == []
      && r.sends == (if m == map[] then [Send(me, PoisonPill)] else [])
  {
  }

  /** Only a dropout ever makes the dispatcher ask itself to stop, and it does
      so exactly when the map is empty afterwards, stale dropout or not. */
  lemma StopOnlyAfterDropoutWhenEmpty(m: map<MemberId, Actor>, gid: Long, me: Actor, msg: Inbound,
                                      sender: Actor, state: GroupState, order: seq<MemberId>)
    requires Enumerates(order, Step(m, gid, me, msg, sender, state, order).channels.Keys)
    ensures var r := Step(m, gid, me, msg, sender, state, order);
      (exists s :: s in r.sends && s.out == PoisonPill) <==> msg.Dropout? && r.channels == map[]
  {
    var r := Step(m, gid, me, msg, sender, state, order);
    match msg
    case GroupMessage(g) =>
      if RecipientKey !in g.node { FanoutCarries(order, m, Some(sender), Relay(g)); }
    case JoinGroup(id) =>
      FanoutCarries(order, r.channels, None, Notice(Joined, id, gid, r.channels, state));
    case Dropout(id) =>
      if id in m && m[id] == sender {
        DropoutRemovesAndTellsTheRest(m, gid, me, id, sender, state, order);
      } else if m == map[] {
        assert r.sends[0] == Send(me, PoisonPill);
      }
    case PoisonSomeone(id) =>
      if id in m {
        FanoutCarries(order, r.channels, None, Notice(Dropped, id, gid, r.channels, state));
      }
    case Unknown =>
  }

  /** Forced close replies true exactly when the target was a member. On
      true: the target is removed, the close goes to its channel alone and
      first, `dropped` goes to the rest, nothing is persisted. On false:
      the false reply is the only effect. */
  lemma ForcedCloseRepliesMembership(m: map<MemberId, Actor>, gid: Long, me: Actor, id: MemberId,
                                     requester: Actor, state: GroupState, order: seq<MemberId>)
    requires Enumerates(order, (m - {id}).Keys)
    ensures var r := Step(m, gid, me, PoisonSomeone(id), requester, state, order);
      && r.persisted == []
      && r.channels == m - {id}
      && |r.sends| > 0 && r.sends[|r.sends| - 1] == Send(requester, CloseReply(id in m))
      && (id !in m ==> |r.sends| == 1)
      && (id in m ==>
            && r.sends[0] == Send(m[id], ForwardedPoison(id, requester))
            && (forall i :: 0 < i < |r.sends| - 1 ==>
                  r.sends[i].to in r.channels.Values
                  && r.sends[i].out == Notify(Notification(Dropped, id, gid, r.channels.Keys, state)))
            && (forall a :: SendsTo(r.sends[1..|r.sends| - 1], a) == |KeysOf(r.channels, a)|)
            && |r.sends| == |r.channels| + 2)
  {
    if id in m {
      var m' := m - {id};
      var out := Notice(Dropped, id, gid, m', state);
      var first, last := Send(m[id], ForwardedPoison(id, requester)), Send(requester, CloseReply(true));
      var all := [first] + Fanout(order, m', None, out) + [last];
      assert Step(m, gid, me, PoisonSomeone(id), requester, state, order) == StepResult(m', [], all);
      FanoutBetween(order, m', out, first, last);
    }
  }

  /** A fanout to everybody between two other sends: the sends in between
      carry `out`, one per member id of each channel and to no one else. */
  lemma FanoutBetween(order: seq<MemberId>, m: map<MemberId, Actor>, out: Outbound, first: Send, last: Send)
    requires Enumerates(order, m.Keys)
    ensures var all := [first] + Fanout(order, m, None, out) + [last];
      && |all| == |m| + 2 && all[0] == first && all[|all| - 1] == last
      && (forall i :: 0 < i < |all| - 1 ==> all[i].to in m.Values && all[i].out == out)
      && (forall a :: SendsTo(all[1..|all| - 1], a) == |KeysOf(m, a)|)
  {
    var f := Fanout(order, m, None, out);
    var all := [first] + f + [last];
    FanoutDelivers(order, m, None, out);
    FanoutLength(order, m, out);
    assert all[1..|all| - 1] == f;
    forall i | 0 < i < |all| - 1
      ensures all[i].to in m.Values && all[i].out == out
    {
      assert all[i] == f[i - 1];
    }
  }

  /** A fanout to everybody sends one message per key. */
  lemma FanoutLength(order: seq<MemberId>, m: map<MemberId, Actor>, out: Outbound)
    requires Enumerates(order, m.Keys)
    ensures |Fanout(order, m, None, out)| == |m|
  {
    FanoutLengthOf(order, m, out);
    EnumerationSize(order, m.Keys);
  }

  lemma {:induction false} FanoutLengthOf(order: seq<MemberId>, m: map<MemberId, Actor>, out: Outbound)
    requires forall k :: k in order ==> k in m
    ensures |Fanout(order, m, None, out)| == |order|
    decreases |order|
  {
    if order != [] {
      FanoutLengthOf(order[..|order| - 1], m, out);
    }
  }

  lemma {:induction false} EnumerationSize(order: seq<MemberId>, keys: set<MemberId>)
    requires Enumerates(order, keys)
    ensures |order| == |keys|
    decreases |order|
  {
    if order != [] {
      var p, k := order[..|order| - 1], order[|order| - 1];
      assert k !in p by {
        forall i | 0 <= i < |p| ensures p[i] != k { assert order[i] == p[i]; }
      }
      assert forall j :: j in p <==> j in order && j != k;
      EnumerationSize(p, keys - {k});
    }
  }

  /** Any other kind of message is ignored. */
  lemma UnknownMessageIgnored(m: map<MemberId, Actor>, gid: Long, me: Actor,
                              sender: Actor, state: GroupState, order: seq<MemberId>)
    ensures Step(m, gid, me, Unknown, sender, state, order) == StepResult(m, [], [])
  {
  }

  // ---------------------------------------------------------------------
  // The malformed-recipient path as written

  /** The outcome of the recipient-routing code as written: what it sent
      before it returned or failed, and whether it failed. */
  datatype RoutingOutcome = RoutingOutcome(sends: seq<Send>, throwsNullPointer: bool)

  /** `studyResultId.toString()` on a `Long` that may be null; None stands
      for the NullPointerException thrown on null. */
  function IdToString(studyResultId: Option<Long>): (text: Option<string>)
    ensures text.None? <==> studyResultId.None?
  {
    match studyResultId
    case None => None
    case Some(id) => Some(LongToString(id))
  }

  /**
   * The recipient routing exactly as written, statement by statement:
   * `Long.valueOf` leaves the id null when it throws NumberFormatException,
   * whose handler sends the error reply and lets the code go on; the lookup
   * of the id in the map (which only holds the ids of members, never null)
   * then misses, and the "isn't member" text calls `toString` on the id.
   */
  function RecipientOnlyAsWritten(m: map<MemberId, Actor>, g: GroupMsg, sender: Actor): (r: RoutingOutcome)
    requires RecipientKey in g.node
    ensures |r.sends| == 1
    ensures r.throwsNullPointer ==>
      r.sends[0].to == sender && r.sends[0].out.Relay? && r.sends[0].out.msg.node.Keys == {ErrorKey}
  {
    var text := g.node[RecipientKey];
    var studyResultId := ParseLong(text);
    var replied := if studyResultId.None? then [Send(sender, Relay(ErrorReply(NotAnIdText(text))))] else [];
    var channel := if studyResultId.Some? && studyResultId.value in m then Some(m[studyResultId.value]) else None;
    if channel.Some? then RoutingOutcome(replied + [Send(channel.value, Relay(g))], false)
    else
      match IdToString(studyResultId)
      case None => RoutingOutcome(replied, true)
      case Some(idText) =>
        var reply := ErrorReply("Recipient " + idText + " isn't member of this group.");
        RoutingOutcome(replied + [Send(sender, Relay(reply))], false)
  }

  /** The code as written fails on every recipient that is not a number,
      "abc" for one, after it has sent the error reply; the model's routing
      sends the same messages and ends the step there. */
  lemma MalformedRecipientThrows(m: map<MemberId, Actor>, sender: Actor)
    ensures var g := GroupMsg(map[RecipientKey := "abc"]);
      && RecipientOnlyAsWritten(m, g, sender).throwsNullPointer
      && RecipientOnlyAsWritten(m, g, sender).sends == RecipientOnly(m, g, sender)
      && RecipientOnly(m, g, sender) == [Send(sender, Relay(ErrorReply(NotAnIdText("abc"))))]
  {
    var g := GroupMsg(map[RecipientKey := "abc"]);
    assert g.node[RecipientKey] == "abc";
    assert !IsDigit("abc"[0]);
  }

  /** As written, the routing fails exactly on the recipients that are not
      numbers, and otherwise agrees with the model. */
  lemma AsWrittenDiffersOnlyByTheFailure(m: map<MemberId, Actor>, g: GroupMsg, sender: Actor)
    requires RecipientKey in g.node
    ensures RecipientOnlyAsWritten(m, g, sender).sends == RecipientOnly(m, g, sender)
    ensures RecipientOnlyAsWritten(m, g, sender).throwsNullPointer <==> ParseLong(g.node[RecipientKey]).None?
  {
  }

  // ---------------------------------------------------------------------
  // The dispatcher

  class GroupDispatcher {
    /** The members of the group: study-result id -> group channel. */
    var channels: map<MemberId, Actor>
    const registry: Actor
    const me: Actor
    const groupResultId: Long
    /** The ids passed to the group service's dropGroupResult, in order. */
    ghost var dropped: seq<MemberId>

    constructor (registry: Actor, me: Actor, groupResultId: Long)
      ensures channels == map[] && dropped == []
      ensures this.registry == registry && this.me == me && this.groupResultId == groupResultId
    {
      this.registry := registry;
      this.me := me;
      this.groupResultId := groupResultId;
      channels := map[];
      dropped := [];
    }

    /** On stop the dispatcher tells the registry to forget its group. */
    method PostStop() returns (sends: seq<Send>)
      ensures sends == [Send(registry, Unregister(groupResultId))]
    {
      sends := [Send(registry, Unregister(groupResultId))];
    }

    /** The single entry point: one step per inbound message. */
    method OnReceive(msg: Inbound, sender: Actor, state: GroupState)
      returns (sends: seq<Send>, ghost order: seq<MemberId>)
      modifies this
      ensures Enumerates(order, channels.Keys)
      ensures var r := Step(old(channels), groupResultId, me, msg, sender, state, order);
        channels == r.channels && dropped == old(dropped) + r.persisted && sends == r.sends
    {
      match msg
      case GroupMessage(g) =>
        sends, order := DispatchGroupMsg(g, sender);
      case JoinGroup(id) =>
        sends, order := JoinGroupDispatcher(id, sender, state);
      case Dropout(id) =>
        sends, order := HandleDropout(id, sender, state);
      case PoisonSomeone(id) =>
        sends, order := CloseAGroupChannel(id, sender, state);
      case Unknown =>
        sends, order := [], AnOrder(channels.Keys);
    }

    method DispatchGroupMsg(g: GroupMsg, sender: Actor) returns (sends: seq<Send>, ghost order: seq<MemberId>)
      ensures Enumerates(order, channels.Keys)
      ensures RecipientKey in g.node ==> sends == RecipientOnly(channels, g, sender)
      ensures RecipientKey !in g.node ==> sends == Fanout(order, channels, Some(sender), Relay(g))
    {
      if RecipientKey in g.node {
        sends := TellRecipientOnly(g, sender);
        order := AnOrder(channels.Keys);
      } else {
        sends, order := TellAllButSender(g, sender);
      }
    }

    /** Delivers to the named recipient only; a recipient that is not a
        number or not a member gets the sender one error reply. */
    method TellRecipientOnly(g: GroupMsg, sender: Actor) returns (sends: seq<Send>)
      requires RecipientKey in g.node
      ensures |sends| == 1
      ensures var p := ParseLong(g.node[RecipientKey]);
        p.Some? && p.value in channels ==> sends[0] == Send(channels[p.value], Relay(g))
      ensures var p := ParseLong(g.node[RecipientKey]);
        p.None? || p.value !in channels ==>
          sends[0].to == sender && sends[0].out.Relay? && sends[0].out.msg.node.Keys == {ErrorKey}
      ensures sends == RecipientOnly(channels, g, sender)
    {
      var text := g.node[RecipientKey];
      var parsed := ParseLong(text);
      if parsed.None? {
        sends := SendErrorBackToSender(sender, NotAnIdText(text));
        return;
      }
      var id := parsed.value;
      if id in channels {
        sends := [Send(channels[id], Relay(g))];
      } else {
        sends := SendErrorBackToSender(sender, NotAMemberText(id));
      }
    }

    /** The incoming message, emptied and given a single "error" field, goes
        back to its sender. */
    method SendErrorBackToSender(sender: Actor, text: string) returns (sends: seq<Send>)
      ensures sends == [Send(sender, Relay(ErrorReply(text)))]
      ensures sends[0].out.msg.node.Keys == {ErrorKey}
    {
      sends := [Send(sender, Relay(ErrorReply(text)))];
    }

    /** The message goes to every channel in the map other than the sender's. */
    method TellAllButSender(g: GroupMsg, sender: Actor) returns (sends: seq<Send>, ghost order: seq<MemberId>)
      ensures Enumerates(order, channels.Keys)
      ensures sends == Fanout(order, channels, Some(sender), Relay(g))
      ensures forall a :: SendsTo(sends, a) == if a == sender then 0 else |KeysOf(channels, a)|
      ensures forall s :: s in sends ==> s.out == Relay(g) && s.to in channels.Values && s.to != sender
    {
      sends, order := [], [];
      var rest := channels.Keys;
      while rest != {}
        invariant rest <= channels.Keys
        invariant Enumerates(order, channels.Keys - rest)
        invariant sends == Fanout(order, channels, Some(sender), Relay(g))
        decreases rest
      {
        var k :| k in rest;
        var channel := channels[k];
        if channel != sender {
          sends := sends + [Send(channel, Relay(g))];
        }
        assert (order + [k])[..|order|] == order;
        order := order + [k];
        rest := rest - {k};
      }
      FanoutDelivers(order, channels, Some(sender), Relay(g));
    }

    /** The message goes to every channel in the map. */
    method TellAll(out: Outbound) returns (sends: seq<Send>, ghost order: seq<MemberId>)
      ensures Enumerates(order, channels.Keys)
      ensures sends == Fanout(order, channels, None, out)
      ensures forall a :: SendsTo(sends, a) == |KeysOf(channels, a)|
      ensures forall s :: s in sends ==> s.out == out && s.to in channels.Values
    {
      sends, order := [], [];
      var rest := channels.Keys;
      while rest != {}
        invariant rest <= channels.Keys
        invariant Enumerates(order, channels.Keys - rest)
        invariant sends == Fanout(order, channels, None, out)
        decreases rest
      {
        var k :| k in rest;
        sends := sends + [Send(channels[k], out)];
        assert (order + [k])[..|order|] == order;
        order := order + [k];
        rest := rest - {k};
      }
      FanoutDelivers(order, channels, None, out);
    }

    method JoinGroupDispatcher(id: MemberId, sender: Actor, state: GroupState)
      returns (sends: seq<Send>, ghost order: seq<MemberId>)
      modifies this
      ensures Enumerates(order, channels.Keys)
      ensures var r := Step(old(channels), groupResultId, me, JoinGroup(id), sender, state, order);
        channels == r.channels && dropped == old(dropped) + r.persisted && sends == r.sends
    {
      channels := channels[id := sender];
      sends, order := TellAll(Notice(Joined, id, groupResultId, channels, state));
    }

    /** Tells every remaining member who dropped out. */
    method TellDropoutToEveryone(id: MemberId, state: GroupState)
      returns (sends: seq<Send>, ghost order: seq<MemberId>)
      ensures Enumerates(order, channels.Keys)
      ensures sends == Fanout(order, channels, None, Notice(Dropped, id, groupResultId, channels, state))
      ensures forall a :: SendsTo(sends, a) == |KeysOf(channels, a)|
      ensures forall s :: s in sends ==>
        s.out == Notice(Dropped, id, groupResultId, channels, state) && s.to in channels.Values
    {
      sends, order := TellAll(Notice(Dropped, id, groupResultId, channels, state));
    }

    method HandleDropout(id: MemberId, sender: Actor, state: GroupState)
      returns (sends: seq<Send>, ghost order: seq<MemberId>)
      modifies this
      ensures Enumerates(order, channels.Keys)
      ensures var r := Step(old(channels), groupResultId, me, Dropout(id), sender, state, order);
        channels == r.channels && dropped == old(dropped) + r.persisted && sends == r.sends
    {
      sends := [];
      order := AnOrder(channels.Keys);
      if id in channels && channels[id] == sender {
        channels := channels - {id};
        dropped := dropped + [id];
        sends, order := TellDropoutToEveryone(id, state);
      }
      if channels == map[] {
        sends := sends + [Send(me, PoisonPill)];
      }
    }

    method CloseAGroupChannel(id: MemberId, requester: Actor, state: GroupState)
      returns (sends: seq<Send>, ghost order: seq<MemberId>)
      modifies this
      ensures Enumerates(order, channels.Keys)
      ensures var r := Step(old(channels), groupResultId, me, PoisonSomeone(id), requester, state, order);
        channels == r.channels && dropped == old(dropped) + r.persisted && sends == r.sends
    {
      if id in channels {
        var channel := channels[id];
        channels := channels - {id};
        var told;
        told, order := TellDropoutToEveryone(id, state);
        sends := [Send(channel, ForwardedPoison(id, requester))] + told + [Send(requester, CloseReply(true))];
      } else {
        sends := [Send(requester, CloseReply(false))];
        order := AnOrder(channels.Keys);
      }
    }
  }
}
