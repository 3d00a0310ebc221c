# XUDD hive: a Dafny model of the dispatcher and its workers

XUDD is an in-process actor runtime. Actors talk to each other only by
messages. Every message goes through the *hive*, which holds the actor
registry, a run queue of actors with pending messages, and its own action
queue. A pool of worker threads takes actors off the run queue and runs
a bounded number of each actor's messages per visit.

This project models the core of `xudd/hive.py` as a sequential state
machine. Thread interleaving is abstracted away: one dispatcher iteration
(`Hive.DispatchStep`) and one worker slice (`HiveWorker.ProcessActor`) are
each one atomic method call. The Python `Queue` objects become `seq` fields
that are read from the front and appended at the back.

- `messages.dfy` (module `Messages`): the message record the hive builds,
  and Python's `x or y` defaulting for optional string arguments (`None` and
  `""` are both falsy).
- `ids.dfy` (module `Ids`): id formatting. Message ids are
  `"<prefix>:<counter>"`, with the counter written in decimal as Python's
  `%s` writes an int. Actor ids are `"<ClassName>-<token>"`. Injectivity is
  proved through a decimal parser that inverts the formatting.
- `hive.dfy` (module `Hive`) has these parts:
  - The classes `Actor`, `Hive`, `HiveWorker` and `HiveProxy`.
  - The dispatcher actions as a closed datatype `Action`. `QueueMessage`
    stands for `("queue_message", msg)` and `CheckQueueActor` for
    `("check_queue_actor", actor)`.
  - Specification functions:
    - `RoutedTo`: the messages a run of actions addresses to one actor.
    - `Deliver`: every registered mailbox after those actions.
    - `SliceLength`: how many messages one worker slice takes.
    - `Slices`: the batches that successive slices take from one actor.
  - Lemmas about these functions.

The model keeps the source's duplicate-admission behaviour. `queue_actor`
pushes the actor onto the run queue without checking whether it is already
there, so after two `queue_message` steps for one actor the run queue holds
that actor twice. `QueueActor`, `QueueMessage` and `DispatchStep` say so:
each appends the actor, whatever the run queue already holds.

The model follows the code in these points, which are easy to misread:

- `remove_actor` on an id not in the registry raises `KeyError`, because
  `dict.pop` is called without a default. There is no graceful no-op.
- `process_actor` returns `False` on an empty run queue and `None` otherwise.
- The message id supplied to `send_message`, the `from_id` given to the
  proxy and the `id` passed to `create_actor` are replaced by a default
  when they are `None` **or the empty string**. The code uses Python's `or`.

## Model

| member | source | states |
|---|---|---|
| `Messages.Truthy` | xudd/hive.py:140 | an optional string is falsy exactly when it is `None` or the empty string |
| `Messages.OrElse` | xudd/hive.py:284 | like Python's `or`, a truthy left operand is the result and otherwise the fallback is; the result is truthy exactly when either operand is |
| `Ids.Decimal` | xudd/hive.py:246 | the counter renders as a non-empty string of decimal digits: one digit below 10 and no leading zero from 10 up |
| `Ids.ParseDecimalOfDecimal` | xudd/hive.py:246 | reading the rendered counter back as a decimal number gives the counter |
| `Ids.DecimalInjective` | xudd/hive.py:246 | distinct counter values render as distinct strings |
| `Ids.MessageId` | xudd/hive.py:237-246 | a message id is the hive's prefix, a colon, then the counter in decimal |
| `Ids.MessageIdInjective` | xudd/hive.py:244-246 | ids with the same prefix are equal exactly when their counter values are equal |
| `Ids.ActorId` | xudd/hive.py:231-235 | an actor id is the class name, a dash, then the token unchanged |
| `Ids.ActorIdInjective` | xudd/hive.py:235 | for dash-free class names, an actor id is equal to another exactly when both class name and token are |
| `Hive.RoutedTo` | xudd/hive.py:200-221 | every message a run of actions routes to one actor is addressed to that actor, and there are no more of them than actions (membership and order: `RoutedToMembers`, `RoutedToAppend`) |
| `Hive.RoutedToMembers` | xudd/hive.py:219-221 | a message is routed to an actor exactly when a `queue_message` action for it is in the run and it is addressed to that actor: nothing is invented or lost |
| `Hive.RoutedToAppend` | xudd/hive.py:200-221 | routing two runs one after the other routes the first run's messages followed by the second's: per-destination FIFO |
| `Hive.SendOrderPreserved` | xudd/hive.py:140-146 | two sends in a row to one actor reach its mailbox in send order, after whatever came before |
| `Hive.Deliver` | xudd/hive.py:152-172 | routing leaves the set of mailboxes unchanged |
| `Hive.DeliverNothing` | xudd/hive.py:201-205 | an empty run of actions changes no mailbox |
| `Hive.DeliverOne` | xudd/hive.py:156-172 | a routable `queue_message` appends its message to its target's mailbox and no other; an unroutable one, or a `check_queue_actor`, changes no mailbox |
| `Hive.DeliverAppend` | xudd/hive.py:200-221 | delivering two runs in turn equals delivering their concatenation |
| `Hive.DeliverOneMore` | xudd/hive.py:200-206 | taking one more action off the queue extends the routed prefix by that action |
| `Hive.SliceLength` | xudd/hive.py:66-82 | a slice takes no more than the pending messages and no more than the limit, and takes all pending messages or exactly the limit |
| `Hive.Slices` | xudd/hive.py:66-85 | an actor with pending messages gets at least one slice and no more slices than messages; the first slice is the `SliceLength` prefix one `process_actor` call handles |
| `Hive.SlicesPartitionMailbox` | xudd/hive.py:66-85 | repeated slices with re-admission handle every pending message exactly once in mailbox order: each slice is non-empty and within the limit, and every slice but the last is full |
| `Hive.Actor.constructor` | xudd/hive.py:252-253 | a new actor keeps the proxy and id it is built with, and starts with an empty mailbox and no handled messages |
| `Hive.Actor.HandleMessage` | xudd/hive.py:81 | the handler records the message it was given and leaves the mailbox alone |
| `Hive.Hive.constructor` | xudd/hive.py:94-116 | a new hive has an empty registry, empty run and action queues, and a counter at 0 |
| `Hive.Hive.RegisterActor` | xudd/hive.py:124-125 | the actor is stored under its own id, replacing any actor already there; nothing else changes |
| `Hive.Hive.RemoveActor` | xudd/hive.py:127-128 | the id leaves the registry; `found` is false exactly where `dict.pop` raises `KeyError`; nothing else changes |
| `Hive.Hive.GenMessageId` | xudd/hive.py:237-246 | returns the id for the current counter, advances the counter by one, and differs from every id generated before |
| `Hive.Hive.SendMessage` | xudd/hive.py:130-146 | enqueues exactly one `queue_message` action carrying the built message; uses the given id when it is truthy and a freshly generated one otherwise, and returns that id |
| `Hive.Hive.RequestPossiblyRequeueActor` | xudd/hive.py:148-150 | appends one `check_queue_actor` action for the actor |
| `Hive.Hive.QueueActor` | xudd/hive.py:183-187 | appends the actor to the run queue with no duplicate check |
| `Hive.Hive.QueueMessage` | xudd/hive.py:152-172 | routing to an unregistered id returns false and changes nothing; otherwise appends the message to the target's mailbox and the target to the run queue, and leaves every other mailbox unchanged |
| `Hive.Hive.RequeueIfPending` | xudd/hive.py:211-217 | re-admits the actor to the run queue exactly when its mailbox is non-empty |
| `Hive.Hive.DispatchStep` | xudd/hive.py:200-225 | an empty action queue changes nothing; otherwise removes the first action and carries it out; a `check_queue_actor` step changes no mailbox; the mailboxes are those after delivering that one action; no handler runs |
| `Hive.Hive.Workloop` | xudd/hive.py:195-225 | after `rounds` iterations the first `min(rounds, #actions)` actions are gone and every registered mailbox has gained exactly the messages they route to it, in order; no handler runs |
| `Hive.Hive.GenProxy` | xudd/hive.py:192-193 | a fresh proxy bound to this hive and to no actor yet |
| `Hive.Hive.CreateActor` | xudd/hive.py:248-257 | the id is the given one when truthy, else `ClassName-token`; a fresh actor with an empty mailbox and a fresh proxy bound to it is registered under that id; returns the id |
| `Hive.HiveWorker.constructor` | xudd/hive.py:28-43 | a worker over the given hive with the given per-slice limit (the source's default, used by every worker the hive starts, is 5) |
| `Hive.HiveWorker.ProcessActor` | xudd/hive.py:52-85 | an empty run queue gives false and no change; otherwise pops the first actor, handles the first `SliceLength` mailbox messages in order, leaves the rest in the mailbox, and posts exactly one `check_queue_actor` for it |
| `Hive.HiveProxy.constructor` | xudd/hive.py:270-272 | a proxy bound to the hive and to no actor |
| `Hive.HiveProxy.AssociateWithActor` | xudd/hive.py:274-278 | binds the proxy to its actor |
| `Hive.HiveProxy.SendMessage` | xudd/hive.py:280-288 | sends through the hive with `from_id` defaulted to the owning actor's id; `None` where an unbound proxy would raise |
| `Hive.HiveProxy.CreateActor` | xudd/hive.py:296-297 | forwards to the hive's `create_actor` with the same result: the id, a fresh actor with an empty mailbox and no handled messages, and a fresh proxy bound to the hive and to that actor |
| `Hive.HiveProxy.RemoveActor` | xudd/hive.py:293-294 | forwards to the hive's `remove_actor` with the same result |

## Left out

- Threads, the mailbox `Lock` and blocking `Queue.get` with timeouts are left out: every step is atomic here, so the locks protect nothing.
- `run`, `stop`, `should_stop`, `stop_workers` and the worker pool set-up (`__init_and_start_workers`, `num_workers`) are lifecycle plumbing and are left out.
- `HiveWorker.run` is left out: it only repeats `process_actor` until stopped.
- `ActorMessageQueue` and `gen_message_queue` (both hive and proxy) are left out. The queue is the `Actor.mailbox` field, and the lock is left out as above.
- The worker's `actor_queue` is the hive's run queue, which the hive passes to every worker. The model reads `hive.runQueue` directly.
- `uuid.uuid4()` is random. The hive's message prefix is a constructor parameter, and the token of a generated actor id is a parameter of `CreateActor`.
- The actor base class and what `handle_message` computes are user code. `Actor.HandleMessage` appends the message to a `handled` log. A handler that sends messages while it runs is not modelled.
- The `print` diagnostic in `queue_message` is left out. It appears only as the `false` result.
- The `UnknownHiveAction` branch cannot be reached, because `Action` is a closed datatype.
- Message bodies are opaque payloads and are modelled as an optional string.
- The actor class passed to `create_actor` is reduced to its name. Extra constructor arguments are not modelled.
- Hive.HiveWorker.ProcessActor: `max_messages` is `Option<nat>`, so a negative limit is not modelled (it behaves like 0 in the source). The limit is a constructor parameter; the source's hive always starts its workers with the default of 5 (`HiveWorker(self, self.__actor_queue)` passes none).
- Hive.Hive.QueueMessage: returns a `bool`. The source's `None` on success is read as `true`.
- Hive.HiveWorker.ProcessActor: handlers never raise in the model. In the source an exception from `handle_message` leaves the loop before `request_possibly_requeue_actor`, ends that worker thread, and leaves the popped actor's remaining messages without a `check_queue_actor` until a new message arrives.
- Hive.HiveWorker.ProcessActor: returns a `bool`. The source's `None` success value is read as `true`.
- Hive.Hive.Workloop: takes the number of loop iterations as a parameter in place of the stop flag.
- Hive.Hive.Workloop: states the action queue and the mailboxes after the iterations, not the run queue. Each `DispatchStep` states the run queue for its own step.
- Hive.Slices, Hive.SlicesPartitionMailbox: cover an actor that receives no new messages between its slices. A limit of 0 is excluded, because then no slice makes progress and the actor would be re-admitted forever.
- Fairness between actors (a busy actor cannot starve another) would need a model of concurrent workers and is not stated. The run queue is a FIFO. After each slice the actor goes to its back only when the dispatcher later handles the slice's `check_queue_actor` and the mailbox is still non-empty.
