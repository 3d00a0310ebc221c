/** The hive: actor registry, run queue, action queue, dispatcher step,
    worker slice and the proxy handed to each actor. Thread interleaving is
    abstracted away: every dispatcher iteration and every worker slice is one
    atomic method call, and every queue is a `seq` read from the front. */
module Hive {
  import opened Messages
  import Ids

  /** What the dispatcher's action queue holds: `("queue_message", msg)` and
      `("check_queue_actor", actor)`. */
  datatype Action =
    | QueueMessage(message: Message)
    | CheckQueueActor(actor: Actor)

  // ---------------------------------------------------------------------
  // Specification functions

  /** The messages that the `queue_message` actions of `acts` address to
      `target`, in queue order. */
  ghost function RoutedTo(acts: seq<Action>, target: ActorId): (ms: seq<Message>)
    ensures |ms| <= |acts|
    ensures forall i :: 0 <= i < |ms| ==> ms[i].to == target
  {
    if acts == [] then []
    else
      var head := match acts[0]
        case QueueMessage(m) => if m.to == target then [m] else []
        case CheckQueueActor(_) => [];
      head + RoutedTo(acts[1..], target)
  }

  /** RoutedTo neither invents nor loses messages: it holds exactly the
      messages of the `queue_message` actions addressed to `target`. */
  lemma {:induction false} RoutedToMembers(acts: seq<Action>, target: ActorId, m: Message)
    ensures m in RoutedTo(acts, target) <==> QueueMessage(m) in acts && m.to == target
  {
    if acts != [] {
      RoutedToMembers(acts[1..], target, m);
      assert acts == [acts[0]] + acts[1..];
    }
  }

  lemma {:induction false} RoutedToAppend(a: seq<Action>, b: seq<Action>, target: ActorId)
    ensures RoutedTo(a + b, target) == RoutedTo(a, target) + RoutedTo(b, target)
  {
    if a == [] {
      assert a + b == b;
    } else {
      assert (a + b)[0] == a[0];
      assert (a + b)[1..] == a[1..] + b;
      RoutedToAppend(a[1..], b, target);
    }
  }

  /** Every mailbox of `boxes` after the `queue_message` actions of `acts`
      have been routed: each gains what is addressed to its actor. */
  ghost function Deliver(boxes: map<ActorId, seq<Message>>, acts: seq<Action>): (r: map<ActorId, seq<Message>>)
    ensures r.Keys == boxes.Keys
  {
    map k | k in boxes :: boxes[k] + RoutedTo(acts, k)
  }

  lemma DeliverNothing(boxes: map<ActorId, seq<Message>>)
    ensures Deliver(boxes, []) == boxes
  {
    forall k | k in boxes
      ensures Deliver(boxes, [])[k] == boxes[k]
    {
      assert boxes[k] + [] == boxes[k];
    }
  }

  /** One `queue_message` action appends its message to its target's mailbox
      and to no other; one `check_queue_actor` action changes no mailbox. */
  lemma DeliverOne(boxes: map<ActorId, seq<Message>>, action: Action)
    ensures action.QueueMessage? && action.message.to in boxes ==>
      var m := action.message;
      Deliver(boxes, [action]) == boxes[m.to := boxes[m.to] + [m]]
    ensures !(action.QueueMessage? && action.message.to in boxes) ==>
      Deliver(boxes, [action]) == boxes
  {
    var r := Deliver(boxes, [action]);
    assert [action][1..] == [];
    if action.QueueMessage? && action.message.to in boxes {
      var m := action.message;
      var u := boxes[m.to := boxes[m.to] + [m]];
      forall k | k in boxes
        ensures r[k] == u[k]
      {
        if k != m.to {
          assert boxes[k] + [] == boxes[k];
        }
      }
    } else {
      forall k | k in boxes
        ensures r[k] == boxes[k]
      {
        assert boxes[k] + [] == boxes[k];
      }
    }
  }

  /** Routing two runs of actions one after the other delivers what routing
      them together does. */
  lemma DeliverAppend(boxes: map<ActorId, seq<Message>>, a: seq<Action>, b: seq<Action>)
    ensures Deliver(Deliver(boxes, a), b) == Deliver(boxes, a + b)
  {
    forall k | k in boxes
      ensures Deliver(Deliver(boxes, a), b)[k] == Deliver(boxes, a + b)[k]
    {
      RoutedToAppend(a, b, k);
    }
  }

  /** Taking one more action off the front of the remaining actions extends
      the routed prefix by that action; with none left, nothing changes. */
  lemma DeliverOneMore(boxes: map<ActorId, seq<Message>>, all: seq<Action>, taken: nat)
    requires taken <= |all|
    ensures taken < |all| ==>
      Deliver(Deliver(boxes, all[..taken]), [all[taken]]) == Deliver(boxes, all[..taken + 1])
    ensures taken == |all| ==>
      Deliver(Deliver(boxes, all[..taken]), []) == Deliver(boxes, all[..taken])
  {
    if taken < |all| {
      assert all[..taken] + [all[taken]] == all[..taken + 1];
      DeliverAppend(boxes, all[..taken], [all[taken]]);
    } else {
      DeliverNothing(Deliver(boxes, all[..taken]));
    }
  }

  /** Two messages sent one after the other to the same actor are routed to
      it in that order, whatever was queued before them. */
  lemma SendOrderPreserved(acts: seq<Action>, m1: Message, m2: Message)
    requires m1.to == m2.to
    ensures RoutedTo(acts + [QueueMessage(m1), QueueMessage(m2)], m1.to)
         == RoutedTo(acts, m1.to) + [m1, m2]
  {
    RoutedToAppend(acts, [QueueMessage(m1), QueueMessage(m2)], m1.to);
    var tail := [QueueMessage(m1), QueueMessage(m2)];
    assert tail[1..] == [QueueMessage(m2)];
    assert tail[1..][1..] == [];
  }

  /** How many messages one worker slice takes from a mailbox holding
      `pending` messages: all of them when there is no limit, otherwise no
      more than the limit. */
  function SliceLength(pending: nat, maxMessages: Option<nat>): (k: nat)
    ensures k <= pending
    ensures maxMessages.Some? ==> k <= maxMessages.value
    ensures k == pending || (maxMessages.Some? && k == maxMessages.value)
  {
    match maxMessages
    case None => pending
    case Some(limit) => if pending <= limit then pending else limit
  }

  /** The batches that successive worker slices handle for an actor holding
      `pending` messages and receiving no new ones: each slice is followed by
      a `check_queue_actor` that re-admits the actor while messages remain. */
  ghost function Slices(pending: seq<Message>, maxMessages: Option<nat>): (batches: seq<seq<Message>>)
    requires maxMessages != Some(0)
    ensures batches == [] <==> pending == []
    ensures |batches| <= |pending|
    ensures pending != [] ==> batches[0] == pending[..SliceLength(|pending|, maxMessages)]
    decreases |pending|
  {
    if pending == [] then []
    else
      var k := SliceLength(|pending|, maxMessages);
      [pending[..k]] + Slices(pending[k..], maxMessages)
  }

  ghost function Flatten(batches: seq<seq<Message>>): seq<Message>
  {
    if batches == [] then [] else batches[0] + Flatten(batches[1..])
  }

  /** Every pending message is handled exactly once and in mailbox order;
      every slice is non-empty and within the limit, and every slice but the
      last one is full. */
  lemma {:induction false} SlicesPartitionMailbox(pending: seq<Message>, maxMessages: Option<nat>)
    requires maxMessages != Some(0)
    ensures Flatten(Slices(pending, maxMessages)) == pending
    ensures forall i :: 0 <= i < |Slices(pending, maxMessages)| ==>
      var s := Slices(pending, maxMessages)[i];
      && 0 < |s|
      && (maxMessages.Some? ==> |s| <= maxMessages.value)
      && (i < |Slices(pending, maxMessages)| - 1 ==> maxMessages.Some? && |s| == maxMessages.value)
    decreases |pending|
  {
    if pending != [] {
      var k := SliceLength(|pending|, maxMessages);
      var rest := Slices(pending[k..], maxMessages);
      SlicesPartitionMailbox(pending[k..], maxMessages);
      var all := Slices(pending, maxMessages);
      assert all == [pending[..k]] + rest;
      assert all[1..] == rest;
      assert pending == pending[..k] + pending[k..];
      forall i | 0 <= i < |all|
        ensures 0 < |all[i]|
        ensures maxMessages.Some? ==> |all[i]| <= maxMessages.value
        ensures i < |all| - 1 ==> maxMessages.Some? && |all[i]| == maxMessages.value
      {
        if i == 0 {
          if i < |all| - 1 {
            assert rest != [];
            assert pending[k..] != [];
          }
        } else {
          assert all[i] == rest[i - 1];
        }
      }
    }
  }

  // ---------------------------------------------------------------------
  // Objects

  /** An actor as the hive sees it: its id, its proxy, its mailbox, and a log
      of the messages its handler has been given. */
  class Actor {
    const id: ActorId
    const proxy: HiveProxy
    var mailbox: seq<Message>
    var handled: seq<Message>

    constructor (proxy: HiveProxy, id: ActorId)
      ensures this.proxy == proxy && this.id == id
      ensures mailbox == [] && handled == []
    {
      this.proxy := proxy;
      this.id := id;
      mailbox := [];
      handled := [];
    }

    /** `handle_message`: what the handler computes is the actor's own
        business; here it records the message. */
    method HandleMessage(message: Message)
      modifies this
      ensures handled == old(handled) + [message]
      ensures mailbox == old(mailbox)
    {
      handled := handled + [message];
    }
  }

  class Hive {
    const messageUuid: string
    var registry: map<ActorId, Actor>
    var runQueue: seq<Actor>
    var actions: seq<Action>
    var counter: nat

    /** The registry stores every actor under its own id. */
    ghost predicate Valid()
      reads this
    {
      forall k :: k in registry ==> registry[k].id == k
    }

    /** The mailbox of every registered actor, by id. */
    ghost function Mailboxes(): map<ActorId, seq<Message>>
      reads this`registry, registry.Values
    {
      map k | k in registry :: registry[k].mailbox
    }

    constructor (messageUuid: string)
      ensures Valid()
      ensures this.messageUuid == messageUuid
      ensures registry == map[] && runQueue == [] && actions == [] && counter == 0
    {
      this.messageUuid := messageUuid;
      registry := map[];
      runQueue := [];
      actions := [];
      counter := 0;
    }

    method RegisterActor(actor: Actor)
      requires Valid()
      modifies this
      ensures Valid()
      ensures registry == old(registry)[actor.id := actor]
      ensures runQueue == old(runQueue) && actions == old(actions) && counter == old(counter)
    {
      registry := registry[actor.id := actor];
    }

    /** `remove_actor`: `found` is false where Python's `dict.pop` raises
        `KeyError`; the state is then unchanged. */
    method RemoveActor(actorId: ActorId) returns (found: bool)
      requires Valid()
      modifies this
      ensures Valid()
      ensures found == (actorId in old(registry))
      ensures registry == old(registry) - {actorId}
      ensures runQueue == old(runQueue) && actions == old(actions) && counter == old(counter)
    {
      found := actorId in registry;
      if found {
        registry := registry - {actorId};
      }
    }

    /** `gen_message_id`: the next id from the counter, different from every
        id generated before it. */
    method GenMessageId() returns (messageId: MessageId)
      modifies this
      ensures messageId == Ids.MessageId(messageUuid, old(counter))
      ensures counter == old(counter) + 1
      ensures forall n :: 0 <= n < old(counter) ==> messageId != Ids.MessageId(messageUuid, n)
      ensures registry == old(registry) && runQueue == old(runQueue) && actions == old(actions)
    {
      messageId := Ids.MessageId(messageUuid, counter);
      forall n | 0 <= n < counter
        ensures messageId != Ids.MessageId(messageUuid, n)
      {
        Ids.MessageIdInjective(messageUuid, counter, n);
      }
      counter := counter + 1;
    }

    /** `send_message`: builds the message, with the given id when it is
        truthy and a fresh one otherwise, and queues one `queue_message`
        action for the dispatcher. */
    method SendMessage(to: ActorId, directive: string, fromId: Option<ActorId>,
                       body: Option<string>, inReplyTo: Option<MessageId>,
                       id: Option<MessageId>, wantsReply: Option<bool>)
      returns (messageId: MessageId)
      modifies this
      ensures Truthy(id) ==> messageId == id.value && counter == old(counter)
      ensures !Truthy(id) ==> messageId == Ids.MessageId(messageUuid, old(counter))
                              && counter == old(counter) + 1
      ensures actions == old(actions)
        + [Action.QueueMessage(Message(to, directive, fromId, body, inReplyTo, messageId, wantsReply))]
      ensures registry == old(registry) && runQueue == old(runQueue)
    {
      if Truthy(id) {
        messageId := id.value;
      } else {
        messageId := GenMessageId();
      }
      var message := Message(to, directive, fromId, body, inReplyTo, messageId, wantsReply);
      actions := actions + [Action.QueueMessage(message)];
    }

    /** `request_possibly_requeue_actor`, posted by a worker after a slice. */
    method RequestPossiblyRequeueActor(actor: Actor)
      modifies this
      ensures actions == old(actions) + [CheckQueueActor(actor)]
      ensures registry == old(registry) && runQueue == old(runQueue) && counter == old(counter)
    {
      actions := actions + [CheckQueueActor(actor)];
    }

    /** `queue_actor`: pushes without looking for the actor already queued. */
    method QueueActor(actor: Actor)
      modifies this
      ensures runQueue == old(runQueue) + [actor]
      ensures registry == old(registry) && actions == old(actions) && counter == old(counter)
    {
      runQueue := runQueue + [actor];
    }

    /** `queue_message`: `routed` is false, and nothing changes, when the
        target is not registered; otherwise the message joins the end of the
        target's mailbox and the target the end of the run queue. */
    method QueueMessage(message: Message) returns (routed: bool)
      requires Valid()
      modifies this, if message.to in registry then {registry[message.to]} else {}
      ensures Valid()
      ensures registry == old(registry) && actions == old(actions) && counter == old(counter)
      ensures routed == (message.to in registry)
      ensures !routed ==> unchanged(this)
      ensures routed ==>
        && registry[message.to].mailbox == old(registry[message.to].mailbox) + [message]
        && runQueue == old(runQueue) + [registry[message.to]]
      ensures forall k :: k in registry && k != message.to ==> registry[k].mailbox == old(registry[k].mailbox)
      ensures forall k :: k in registry ==> registry[k].handled == old(registry[k].handled)
      ensures Mailboxes() == Deliver(old(Mailboxes()), [Action.QueueMessage(message)])
    {
      ghost var before := Mailboxes();
      DeliverOne(before, Action.QueueMessage(message));
      if message.to !in registry {
        return false;
      }
      var actor := registry[message.to];
      actor.mailbox := actor.mailbox + [message];
      QueueActor(actor);
      routed := true;
      assert Mailboxes() == before[message.to := before[message.to] + [message]];
    }

    /** The `check_queue_actor` branch of `workloop`: re-admits the actor
        exactly when its mailbox is non-empty. */
    method RequeueIfPending(actor: Actor)
      modifies this
      ensures runQueue == old(runQueue) + (if actor.mailbox != [] then [actor] else [])
      ensures registry == old(registry) && actions == old(actions) && counter == old(counter)
    {
      if actor.mailbox != [] {
        QueueActor(actor);
      }
    }

    /** The actor, if any, that the next dispatcher step appends to. */
    function RouteTarget(): set<Actor>
      reads this
    {
      if actions != [] && actions[0].QueueMessage? && actions[0].message.to in registry
      then {registry[actions[0].message.to]}
      else {}
    }

    /** One iteration of `workloop`: an empty action queue changes nothing;
        otherwise the first action is taken off and carried out. */
    method DispatchStep()
      requires Valid()
      modifies this, RouteTarget()
      ensures Valid()
      ensures registry == old(registry) && counter == old(counter)
      ensures old(actions) == [] ==> unchanged(this)
      ensures old(actions) != [] ==> actions == old(actions)[1..]
      ensures old(actions) != [] && old(actions)[0].CheckQueueActor? ==>
        var a := old(actions)[0].actor;
        && a.mailbox == old(a.mailbox)
        && runQueue == old(runQueue) + (if a.mailbox != [] then [a] else [])
      ensures old(actions) != [] && old(actions)[0].QueueMessage? ==>
        var m := old(actions)[0].message;
        if m.to in registry
        then registry[m.to].mailbox == old(registry[m.to].mailbox) + [m]
             && runQueue == old(runQueue) + [registry[m.to]]
        else runQueue == old(runQueue)
      ensures old(actions) == [] ==> Mailboxes() == old(Mailboxes())
      ensures old(actions) != [] ==> Mailboxes() == Deliver(old(Mailboxes()), [old(actions)[0]])
      ensures forall k :: k in registry ==> registry[k].handled == old(registry[k].handled)
    {
      if actions == [] {
        return;
      }
      var action := actions[0];
      actions := actions[1..];
      match action
      case CheckQueueActor(actor) =>
        RequeueIfPending(actor);
        assert Mailboxes() == old(Mailboxes());
        DeliverOne(Mailboxes(), action);
      case QueueMessage(message) =>
        var _ := QueueMessage(message);
    }

    /** `workloop` run for `rounds` iterations (the stop flag is outside the
        model): each registered actor's mailbox has gained exactly the
        messages routed to it by the actions taken, in action order. */
    method Workloop(rounds: nat)
      requires Valid()
      modifies this, registry.Values
      ensures Valid()
      ensures registry == old(registry) && counter == old(counter)
      ensures var n := if rounds < |old(actions)| then rounds else |old(actions)|;
        && actions == old(actions)[n..]
        && Mailboxes() == Deliver(old(Mailboxes()), old(actions)[..n])
      ensures forall k :: k in registry ==> registry[k].handled == old(registry[k].handled)
    {
      ghost var all := actions;
      ghost var start := Mailboxes();
      var i := 0;
      ghost var taken := 0;
      assert all[..0] == [];
      DeliverNothing(start);
      while i < rounds
        invariant 0 <= i <= rounds
        invariant taken == if i < |all| then i else |all|
        invariant Valid()
        invariant registry == old(registry) && counter == old(counter)
        invariant actions == all[taken..]
        invariant Mailboxes() == Deliver(start, all[..taken])
        invariant forall k :: k in registry ==> registry[k].handled == old(registry[k].handled)
      {
        assert RouteTarget() <= old(registry.Values);
        DispatchStep();
        ghost var next := if taken < |all| then taken + 1 else taken;
        DeliverOneMore(start, all, taken);
        i := i + 1;
        taken := next;
      }
    }

    method GenProxy() returns (proxy: HiveProxy)
      ensures fresh(proxy) && proxy.hive == this && proxy.actor == null
    {
      proxy := new HiveProxy(this);
    }

    /** `create_actor`: the id is the given one when truthy, otherwise the
        class name joined to a fresh token; the new actor has an empty
        mailbox and a fresh proxy bound to it, and is registered under that
        id (replacing any actor registered under it before). */
    method CreateActor(typeName: string, token: string, id: Option<ActorId>)
      returns (actorId: ActorId)
      requires Valid()
      modifies this
      ensures Valid()
      ensures actorId == OrElse(id, Ids.ActorId(typeName, token))
      ensures actorId in registry && fresh(registry[actorId])
      ensures registry == old(registry)[actorId := registry[actorId]]
      ensures registry[actorId].mailbox == [] && registry[actorId].handled == []
      ensures fresh(registry[actorId].proxy)
      ensures registry[actorId].proxy.hive == this && registry[actorId].proxy.actor == registry[actorId]
      ensures runQueue == old(runQueue) && actions == old(actions) && counter == old(counter)
    {
      var proxy := GenProxy();
      actorId := OrElse(id, Ids.ActorId(typeName, token));
      var actor := new Actor(proxy, actorId);
      proxy.AssociateWithActor(actor);
      RegisterActor(actor);
    }
  }

  /** A worker: one call of ProcessActor is one slice. */
  class HiveWorker {
    const hive: Hive
    const maxMessages: Option<nat>

    /** The limit is a parameter; every worker the source's hive starts uses
        its default of 5 messages per slice. */
    constructor (hive: Hive, maxMessages: Option<nat>)
      ensures this.hive == hive && this.maxMessages == maxMessages
    {
      this.hive := hive;
      this.maxMessages := maxMessages;
    }

    /** `process_actor`: with an empty run queue, returns false and changes
        nothing. Otherwise takes the first actor off the run queue, hands its
        handler the first SliceLength messages of its mailbox in order, leaves
        the rest in the mailbox and posts one `check_queue_actor` for it. */
    method ProcessActor() returns (gotActor: bool)
      modifies hive, if hive.runQueue != [] then {hive.runQueue[0]} else {}
      ensures gotActor == (old(hive.runQueue) != [])
      ensures !gotActor ==> unchanged(hive)
      ensures hive.registry == old(hive.registry) && hive.counter == old(hive.counter)
      ensures gotActor ==>
        var actor := old(hive.runQueue)[0];
        var k := SliceLength(|old(actor.mailbox)|, maxMessages);
        && hive.runQueue == old(hive.runQueue)[1..]
        && actor.handled == old(actor.handled) + old(actor.mailbox)[..k]
        && actor.mailbox == old(actor.mailbox)[k..]
        && hive.actions == old(hive.actions) + [CheckQueueActor(actor)]
    {
      if hive.runQueue == [] {
        return false;
      }
      var actor := hive.runQueue[0];
      hive.runQueue := hive.runQueue[1..];
      var processed := 0;
      while maxMessages.None? || processed < maxMessages.value
        invariant processed <= |old(actor.mailbox)|
        invariant maxMessages.Some? ==> processed <= maxMessages.value
        invariant actor.mailbox == old(actor.mailbox)[processed..]
        invariant actor.handled == old(actor.handled) + old(actor.mailbox)[..processed]
        modifies actor
        decreases |actor.mailbox|
      {
        if actor.mailbox == [] {
          break;
        }
        var message := actor.mailbox[0];
        actor.mailbox := actor.mailbox[1..];
        actor.HandleMessage(message);
        processed := processed + 1;
      }
      hive.RequestPossiblyRequeueActor(actor);
      gotActor := true;
    }
  }

  /** The capability an actor holds: it can send, create and remove actors. */
  class HiveProxy {
    const hive: Hive
    var actor: Actor?

    constructor (hive: Hive)
      ensures this.hive == hive && actor == null
    {
      this.hive := hive;
      actor := null;
    }

    method AssociateWithActor(actor: Actor)
      modifies this
      ensures this.actor == actor
    {
      this.actor := actor;
    }

    /** `HiveProxy.send_message`: sends on the hive with the owning actor's
        id as sender when none is given. `None` stands for the
        `AttributeError` of a proxy not yet bound to an actor. */
    method SendMessage(to: ActorId, directive: string, fromId: Option<ActorId>,
                       body: Option<string>, inReplyTo: Option<MessageId>,
                       id: Option<MessageId>, wantsReply: Option<bool>)
      returns (r: Option<MessageId>)
      modifies hive
      ensures !Truthy(fromId) && actor == null ==> r == None && unchanged(hive)
      ensures Truthy(fromId) || actor != null ==>
        var sender := if Truthy(fromId) then fromId.value else actor.id;
        && r.Some?
        && hive.actions == old(hive.actions)
             + [Action.QueueMessage(Message(to, directive, Some(sender), body, inReplyTo, r.value, wantsReply))]
        && (Truthy(id) ==> r.value == id.value && hive.counter == old(hive.counter))
        && (!Truthy(id) ==> r.value == Ids.MessageId(hive.messageUuid, old(hive.counter))
                            && hive.counter == old(hive.counter) + 1)
      ensures hive.registry == old(hive.registry) && hive.runQueue == old(hive.runQueue)
    {
      if !Truthy(fromId) && actor == null {
        return None;
      }
      var sender := if Truthy(fromId) then fromId.value else actor.id;
      var messageId := hive.SendMessage(to, directive, Some(sender), body, inReplyTo, id, wantsReply);
      r := Some(messageId);
    }

    method CreateActor(typeName: string, token: string, id: Option<ActorId>)
      returns (actorId: ActorId)
      requires hive.Valid()
      modifies hive
      ensures hive.Valid()
      ensures actorId == OrElse(id, Ids.ActorId(typeName, token))
      ensures actorId in hive.registry && fresh(hive.registry[actorId])
      ensures hive.registry == old(hive.registry)[actorId := hive.registry[actorId]]
      ensures hive.registry[actorId].mailbox == [] && hive.registry[actorId].handled == []
      ensures fresh(hive.registry[actorId].proxy)
      ensures hive.registry[actorId].proxy.hive == hive
      ensures hive.registry[actorId].proxy.actor == hive.registry[actorId]
      ensures hive.runQueue == old(hive.runQueue) && hive.actions == old(hive.actions)
      ensures hive.counter == old(hive.counter)
    {
      actorId := hive.CreateActor(typeName, token, id);
    }

    method RemoveActor(actorId: ActorId) returns (found: bool)
      requires hive.Valid()
      modifies hive
      ensures hive.Valid()
      ensures found == (actorId in old(hive.registry))
      ensures hive.registry == old(hive.registry) - {actorId}
      ensures hive.runQueue == old(hive.runQueue) && hive.actions == old(hive.actions)
      ensures hive.counter == old(hive.counter)
    {
      found := hive.RemoveActor(actorId);
    }
  }
}
