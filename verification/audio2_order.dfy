/** What the interface keeps: every message is sent once, and the audio thread handles the
    messages of an event in the order in which they were sent. */
module Audio2Order {
  import opened Audio2Model

  /** Everything on its way to the audio thread, in the order in which it will be handled. */
  function Queue(io: Io): seq<Item> {
    io.work + Flatten(io.inbox) + Controls(io.batch)
  }

  function IdOf(item: Item): nat {
    match item
    case EventCreate(id) => id
    case Control(m) => m.id
  }

  function Ids(items: seq<Item>): (ids: multiset<nat>) {
    if items == [] then multiset{} else Ids(items[..|items| - 1]) + multiset{IdOf(items[|items| - 1])}
  }

  lemma {:induction false} IdsOfBoth(a: seq<Item>, b: seq<Item>)
    ensures Ids(a + b) == Ids(a) + Ids(b)
  {
    if b == [] {
      assert a + b == a;
    } else {
      assert (a + b)[..|a + b| - 1] == a + b[..|b| - 1];
      IdsOfBoth(a, b[..|b| - 1]);
    }
  }

  lemma {:induction false} IdsHave(items: seq<Item>, i: nat)
    requires i < |items|
    ensures IdOf(items[i]) in Ids(items)
  {
    if i < |items| - 1 {
      IdsHave(items[..|items| - 1], i);
    }
  }

  lemma {:induction false} IdsFrom(items: seq<Item>, id: nat) returns (i: nat)
    requires id in Ids(items)
    ensures i < |items| && IdOf(items[i]) == id
  {
    if IdOf(items[|items| - 1]) == id {
      i := |items| - 1;
    } else {
      i := IdsFrom(items[..|items| - 1], id);
    }
  }

  /** The messages for one event. */
  function For(h: int, items: seq<Item>): seq<Message> {
    if items == [] then [] else
    For(h, items[..|items| - 1])
      + if items[|items| - 1].Control? && items[|items| - 1].msg.handle == h then [items[|items| - 1].msg] else []
  }

  lemma {:induction false} ForBoth(h: int, a: seq<Item>, b: seq<Item>)
    ensures For(h, a + b) == For(h, a) + For(h, b)
  {
    if b == [] {
      assert a + b == a;
    } else {
      assert (a + b)[..|a + b| - 1] == a + b[..|b| - 1];
      ForBoth(h, a, b[..|b| - 1]);
    }
  }

  lemma {:induction false} ForAreQueued(h: int, items: seq<Item>, i: nat) returns (j: nat)
    requires i < |For(h, items)|
    ensures j < |items| && items[j] == Control(For(h, items)[i])
  {
    if i == |For(h, items[..|items| - 1])| {
      j := |items| - 1;
    } else {
      j := ForAreQueued(h, items[..|items| - 1], i);
    }
  }

  lemma ForOne(h: int, item: Item)
    ensures For(h, [item]) == if item.Control? && item.msg.handle == h then [item.msg] else []
    ensures Ids([item]) == multiset{IdOf(item)}
  {
    assert [item][..0] == [];
  }

  // ----- invariants of the interface

  /** Every id is in use once: for one queued message or for one reply. */
  ghost predicate IdsOk(io: Io) {
    && (forall id :: id in Ids(Queue(io)) ==> Ids(Queue(io))[id] == 1 && id < io.nextId && id !in io.replies)
    && (forall id :: id in io.replies ==> id < io.nextId)
    && (forall id :: id in io.createLog ==> id < io.nextId)
  }

  /** Create messages are told from control messages by their ids. */
  ghost predicate KindsOk(io: Io) {
    && (forall i :: 0 <= i < |Queue(io)| ==> (Queue(io)[i].EventCreate? <==> IdOf(Queue(io)[i]) in io.createLog))
    && (forall id :: id in io.replies ==> (io.replies[id].Handle? <==> id in io.createLog))
  }

  /** Handles come from handled create messages, a new one each time. */
  ghost predicate HandlesOk(io: Io) {
    && io.sentLog.Keys == io.events.Keys
    && (forall h :: h in io.events ==> 0 < h < io.nextHandle)
    && 0 < io.nextHandle
    && (forall i :: 0 <= i < |Queue(io)| && Queue(io)[i].Control? ==> Queue(io)[i].msg.handle in io.events)
    && (forall id :: id in io.replies && io.replies[id].Handle? ==> io.replies[id].handle in io.events)
    && (forall a, b :: a in io.replies && b in io.replies && io.replies[a].Handle? && io.replies[a] == io.replies[b] ==>
         a == b)
  }

  /** What was sent to an event is what it handled, followed by what is on its way. */
  ghost predicate InOrder(io: Io) {
    forall h :: h in io.events && h in io.sentLog ==> io.sentLog[h] == io.events[h].handledLog + For(h, Queue(io))
  }

  /** Whether the last message that decides about playing starts the event. */
  predicate LastStarts(log: seq<Message>) {
    log != [] &&
    var m := log[|log| - 1];
    if Decides(m.kind) then Starts(m.kind) else LastStarts(log[..|log| - 1])
  }

  /** Whether the last message that decides about pausing is a pause. */
  predicate LastPauses(log: seq<Message>) {
    log != [] &&
    var m := log[|log| - 1];
    if Pauses(m.kind) then m.kind.EventPause? else LastPauses(log[..|log| - 1])
  }

  /** An event is playing if the last decision said so and the sound has not ended by
      itself since, and it is paused if the last call said so and that call was neither
      ignored nor undone; and so it was whenever its state was asked for. */
  ghost predicate EventOk(io: Io, ev: Event) {
    && (ev.bits.playing <==> LastStarts(ev.handledLog) && !ev.silencedLog)
    && (ev.bits.paused <==> LastPauses(ev.handledLog) && !ev.unpausedLog)
    && (ev.bits.playing || ev.bits.paused ==> !ev.bits.stolen)
    && forall i :: 0 <= i < |ev.handledLog| ==> AnswerOk(io.replies, ev.handledLog, i)
  }

  ghost predicate AnswerOk(replies: map<nat, Reply>, log: seq<Message>, i: int)
    requires 0 <= i < |log|
  {
    && log[i].id in replies
    && (log[i].kind.EventUpdateState? ==>
         && replies[log[i].id].State?
         && (replies[log[i].id].bits.playing <==> LastStarts(log[..i]) && !replies[log[i].id].silencedLog)
         && (replies[log[i].id].bits.paused <==> LastPauses(log[..i]) && !replies[log[i].id].unpausedLog))
  }

  ghost predicate EventsOk(io: Io) {
    forall h :: h in io.events ==> EventOk(io, io.events[h])
  }

  ghost predicate IoOk(io: Io) {
    IdsOk(io) && KindsOk(io) && HandlesOk(io) && InOrder(io) && EventsOk(io)
  }

  // ----- the main thread keeps them

  /** io' differs from io in its queues, in new ids, and in what was sent to event h; newly
      queued ids are new or among the given ones. */
  ghost predicate Moves(io: Io, io': Io, ids: set<nat>, h: int) {
    && io'.replies == io.replies && io'.events == io.events && io'.nextHandle == io.nextHandle
    && io.nextId <= io'.nextId
    && io'.sentLog.Keys == io.sentLog.Keys
    && (forall k :: k in io.sentLog && k != h ==> io'.sentLog[k] == io.sentLog[k])
    && (forall id :: id in Ids(Queue(io)) ==> id in Ids(Queue(io')))
    && (forall id :: id in Ids(Queue(io')) ==> id in Ids(Queue(io)) || id in ids || io.nextId <= id)
    && io.createLog <= io'.createLog
    && (forall id :: id in io'.createLog ==> id in io.createLog || io.nextId <= id)
  }

  lemma MovesTwice(a: Io, b: Io, c: Io, ids: set<nat>, h: int)
    requires Moves(a, b, ids, h) && Moves(b, c, ids, h)
    ensures Moves(a, c, ids, h)
  {
  }

  lemma NewIdMoves(io: Io, ids: set<nat>, h: int)
    requires IoOk(io)
    ensures IoOk(io.(nextId := io.nextId + 1)) && Moves(io, io.(nextId := io.nextId + 1), ids, h)
  {
    assert Queue(io.(nextId := io.nextId + 1)) == Queue(io);
  }

  /** One more item in the queue, behind a and before b. */
  lemma IdsWith(a: seq<Item>, x: Item, b: seq<Item>)
    ensures Ids(a + [x] + b) == Ids(a + b) + multiset{IdOf(x)}
  {
    hide Ids, For;
    IdsOfBoth(a, b);
    IdsOfBoth(a + [x], b);
    IdsOfBoth(a, [x]);
    ForOne(0, x);
  }

  lemma ForWith(h: int, a: seq<Item>, x: Item, b: seq<Item>)
    ensures x.EventCreate? ==> For(h, a + [x] + b) == For(h, a + b)
    ensures x.Control? && x.msg.handle != h ==> For(h, a + [x] + b) == For(h, a + b)
    ensures x.Control? && x.msg.handle == h && b == [] ==> For(h, a + [x] + b) == For(h, a + b) + [x.msg]
  {
    hide Ids, For;
    ForBoth(h, a, b);
    ForBoth(h, a + [x], b);
    ForBoth(h, a, [x]);
    ForOne(h, x);
    assert b == [] ==> a + b == a && a + [x] + b == a + [x];
  }

  lemma ItemsWith(a: seq<Item>, x: Item, b: seq<Item>, i: nat)
    requires i < |a + [x] + b|
    ensures (a + [x] + b)[i] == x || exists j :: 0 <= j < |a + b| && (a + [x] + b)[i] == (a + b)[j]
  {
    if i < |a| {
      assert (a + [x] + b)[i] == (a + b)[i];
    } else if i > |a| {
      assert (a + [x] + b)[i] == (a + b)[i - 1];
    }
  }

  /** A message whose id is not in use is sent to an event. */
  lemma SendBatchedKeeps(io: Io, m: Message, ids: set<nat>)
    requires IoOk(io) && m.handle in io.events && m.id in ids
    requires m.id < io.nextId && m.id !in io.replies && m.id !in io.createLog && m.id !in Ids(Queue(io))
    ensures IoOk(SendBatched(io, m)) && Moves(io, SendBatched(io, m), ids, m.handle)
    ensures m.handle in SendBatched(io, m).sentLog
    ensures SendBatched(io, m).sentLog[m.handle] == io.sentLog[m.handle] + [m]
    ensures Ids(Queue(SendBatched(io, m))) == Ids(Queue(io)) + multiset{m.id}
  {
    hide Ids, For, EventsOk;
    var io' := SendBatched(io, m);
    var a, x := Queue(io), Control(m);
    QueueBatched(io, m);
    IdsWith(a, x, []);
    assert a + [] == a && a + [x] + [] == a + [x];
    forall h | h in io.events
      ensures io'.sentLog[h] == io'.events[h].handledLog + For(h, Queue(io'))
    {
      ForWith(h, a, x, []);
    }
    SameEvents(io, io');
  }

  lemma QueueBatched(io: Io, m: Message)
    ensures Queue(SendBatched(io, m)) == Queue(io) + [Control(m)]
  {
    assert Controls(io.batch + [m]) == Controls(io.batch) + [Control(m)];
  }

  lemma SameEvents(io: Io, io': Io)
    requires EventsOk(io) && io'.events == io.events && io'.replies == io.replies
    ensures EventsOk(io')
  {
  }

  lemma FlattenMore(inbox: seq<Packet>, p: Packet)
    ensures Flatten(inbox + [p]) == Flatten(inbox) + Unpack(p)
  {
    assert (inbox + [p])[..|inbox|] == inbox;
  }

  /** A create message with a new id goes straight to the queue of the thread. */
  lemma SendCreateKeeps(io: Io, ids: set<nat>, h: int)
    requires IoOk(io)
    ensures var id := io.nextId;
            var io' := Send(io, Single(EventCreate(id))).(nextId := id + 1, createLog := io.createLog + {id});
            && IoOk(io') && Moves(io, io', ids, h) && id in Ids(Queue(io'))
  {
    hide Ids, For, EventsOk, AnswerOk, Flatten;
    var id := io.nextId;
    var io' := Send(io, Single(EventCreate(id))).(nextId := id + 1, createLog := io.createLog + {id});
    var a, x, b := io.work + Flatten(io.inbox), EventCreate(id), Controls(io.batch);
    FlattenMore(io.inbox, Single(x));
    assert Queue(io) == a + b && Queue(io') == a + [x] + b;
    IdsWith(a, x, b);
    forall h | h in io.events
      ensures For(h, Queue(io')) == For(h, Queue(io))
    {
      ForWith(h, a, x, b);
    }
    forall i: nat | i < |Queue(io')|
      ensures Queue(io')[i].EventCreate? <==> IdOf(Queue(io')[i]) in io'.createLog
      ensures Queue(io')[i].Control? ==> Queue(io')[i].msg.handle in io.events
    {
      ItemsWith(a, x, b, i);
      if Queue(io')[i] != x {
        var j :| 0 <= j < |a + b| && Queue(io')[i] == (a + b)[j];
        IdsHave(Queue(io), j);
      }
    }
    SameEvents(io, io');
  }

  /** What is kept depends on the queue as a whole, not on how it is spread. */
  lemma SameQueue(io: Io, io': Io, ids: set<nat>, h: int)
    requires IoOk(io) && Queue(io') == Queue(io)
    requires io' == io.(batch := io'.batch, inbox := io'.inbox, work := io'.work)
    ensures IoOk(io') && Moves(io, io', ids, h)
  {
    SameEvents(io, io');
  }

  lemma FlushKeeps(io: Io, ids: set<nat>, h: int)
    requires IoOk(io)
    ensures IoOk(FlushBatchedMessages(io)) && Moves(io, FlushBatchedMessages(io), ids, h)
  {
    FlattenMore(io.inbox, BatchMessage(io.batch));
    assert Queue(FlushBatchedMessages(io)) == Queue(io);
    SameQueue(io, FlushBatchedMessages(io), ids, h);
  }

  lemma {:induction false} SingleIsFlattened(inbox: seq<Packet>, k: nat)
    requires k < |inbox| && inbox[k].Single?
    ensures inbox[k].item in Flatten(inbox)
  {
    if k < |inbox| - 1 {
      SingleIsFlattened(inbox[..|inbox| - 1], k);
    }
  }

  lemma {:induction false} EraseNothing(inbox: seq<Packet>, id: nat)
    requires forall k :: 0 <= k < |inbox| && inbox[k].Single? && inbox[k].item.EventCreate? ==> inbox[k].item.id != id
    ensures EraseMatching(inbox, id) == inbox
  {
    if inbox != [] {
      EraseNothing(inbox[1..], id);
    }
  }

  /** Cancelling a control message does nothing: control messages are sent in batches, and
      Cancel does not look into a batch. */
  lemma CancelFindsNothing(io: Io, id: nat)
    requires IoOk(io) && id !in io.createLog
    ensures Cancel(io, id) == io
  {
    forall k | 0 <= k < |io.inbox| && io.inbox[k].Single? && io.inbox[k].item.EventCreate?
      ensures io.inbox[k].item.id != id
    {
      SingleIsFlattened(io.inbox, k);
      var j :| 0 <= j < |Flatten(io.inbox)| && Flatten(io.inbox)[j] == io.inbox[k].item;
      assert Queue(io)[|io.work| + j] == io.inbox[k].item;
    }
    EraseNothing(io.inbox, id);
  }

  // ----- the audio thread keeps them

  lemma DequeueKeeps(io: Io, ids: set<nat>, h: int)
    requires IoOk(io)
    ensures IoOk(DequeueAll(io)) && Moves(io, DequeueAll(io), ids, h)
  {
    hide Ids, For, Queue, Flatten;
    DequeuedQueue(io);
    SameQueue(io, DequeueAll(io), ids, h);
  }

  lemma DequeuedQueue(io: Io)
    ensures Queue(DequeueAll(io)) == Queue(io)
  {
    if io.work == [] {
      assert Flatten(DequeueAll(io).inbox) == [];
      assert Queue(DequeueAll(io)) == Queue(io);
    }
  }

  lemma NextIsQueued(io: Io)
    requires io.work != []
    ensures Queue(io) == [io.work[0]] + Queue(io.(work := io.work[1..]))
    ensures Ids(Queue(io)) == multiset{IdOf(io.work[0])} + Ids(Queue(io.(work := io.work[1..])))
  {
    hide Ids, Flatten;
    var x, rest := io.work[0], Queue(io.(work := io.work[1..]));
    assert Queue(io) == [x] + rest;
    assert [] + [x] + rest == [x] + rest && [] + rest == rest;
    IdsWith([], x, rest);
  }

  lemma ForNext(h: int, x: Item, rest: seq<Item>)
    ensures For(h, [x] + rest) == For(h, [x]) + For(h, rest)
  {
    ForBoth(h, [x], rest);
  }

  lemma CanHandleNext(io: Io)
    requires IoOk(io) && io.work != []
    ensures io.work[0].Control? ==> io.work[0].msg.handle in io.events
  {
    NextIsQueued(io);
    assert Queue(io)[0] == io.work[0];
  }

  /** The effect of one step of the thread on what the emitters see. */
  ghost predicate Handles(io: Io, io': Io) {
    && io'.nextId == io.nextId && io'.createLog == io.createLog
    && io.sentLog.Keys <= io'.sentLog.Keys && (forall h :: h in io.sentLog ==> io'.sentLog[h] == io.sentLog[h])
    && io.replies.Keys <= io'.replies.Keys && (forall id :: id in io.replies ==> io'.replies[id] == io.replies[id])
    && (forall id :: id in Ids(Queue(io)) ==> id in Ids(Queue(io')) || id in io'.replies)
    && (forall id :: id in Ids(Queue(io')) ==> id in Ids(Queue(io)))
    && (forall id :: id in io'.replies ==> id in io.replies || id in Ids(Queue(io)))
    && (forall id :: id in io'.replies && id !in io.replies && io'.replies[id].Handle? ==>
         io'.replies[id].handle !in io.sentLog
         && io'.replies[id].handle in io'.sentLog && io'.sentLog[io'.replies[id].handle] == [])
  }

  /** A step that leaves all queues and replies alone. */
  lemma HandlesNothing(io: Io, io': Io)
    requires IoOk(io) && io' == io.(events := io'.events) && io'.events.Keys == io.events.Keys
    requires forall h :: h in io.events ==> io'.events[h].handledLog == io.events[h].handledLog
                                            && EventOk(io, io'.events[h])
    ensures IoOk(io') && Handles(io, io')
  {
    assert Queue(io') == Queue(io);
    forall h | h in io'.events
      ensures EventOk(io', io'.events[h])
    {
      assert EventOk(io, io'.events[h]);
    }
  }

  lemma SoundEndsKeeps(io: Io, h: int)
    requires IoOk(io) && h in io.events
    ensures IoOk(SoundEnds(io, h)) && Handles(io, SoundEnds(io, h))
  {
    hide Ids, For;
    forall k | k in io.events
      ensures EventOk(io, SoundEnds(io, h).events[k])
    {
      assert EventOk(io, io.events[k]);
    }
    HandlesNothing(io, SoundEnds(io, h));
  }

  lemma VoicesStolenKeeps(io: Io, h: int)
    requires IoOk(io) && h in io.events
    ensures IoOk(VoicesStolen(io, h)) && Handles(io, VoicesStolen(io, h))
  {
    hide Ids, For;
    forall k | k in io.events
      ensures EventOk(io, VoicesStolen(io, h).events[k])
    {
      assert EventOk(io, io.events[k]);
    }
    HandlesNothing(io, VoicesStolen(io, h));
  }

  /** More replies do not change the old answers. */
  lemma AnswersStay(io: Io, io': Io, ev: Event)
    requires EventOk(io, ev)
    requires io.replies.Keys <= io'.replies.Keys && forall id :: id in io.replies ==> io'.replies[id] == io.replies[id]
    ensures EventOk(io', ev)
  {
    forall i | 0 <= i < |ev.handledLog|
      ensures AnswerOk(io'.replies, ev.handledLog, i)
    {
      assert AnswerOk(io.replies, ev.handledLog, i);
    }
  }

  lemma AppliedOk(io: Io, ev: Event, m: Message, provided: bool)
    requires EventOk(io, ev) && m.id !in io.replies
    ensures var bits := Applied(ev.bits, m.kind, provided);
            var silenced, unpaused := Silenced(ev, m.kind, provided), Unpaused(ev, m.kind);
            var io' := io.(replies := io.replies[m.id := AnswerTo(m.kind, bits, silenced, unpaused)]);
            EventOk(io', Event(bits, ev.handledLog + [m], silenced, unpaused))
  {
    var bits := Applied(ev.bits, m.kind, provided);
    var silenced, unpaused := Silenced(ev, m.kind, provided), Unpaused(ev, m.kind);
    var io' := io.(replies := io.replies[m.id := AnswerTo(m.kind, bits, silenced, unpaused)]);
    var log := ev.handledLog + [m];
    assert log[..|ev.handledLog|] == ev.handledLog;
    forall i | 0 <= i < |log|
      ensures AnswerOk(io'.replies, log, i)
    {
      if i < |ev.handledLog| {
        assert AnswerOk(io.replies, ev.handledLog, i);
        assert log[..i] == ev.handledLog[..i];
      }
    }
  }

  /** The item at the head of the queue gets its reply. */
  lemma HeadHandled(io: Io, io': Io, r: Reply)
    requires IoOk(io) && io.work != [] && (r.Handle? <==> io.work[0].EventCreate?)
    requires io'.replies == io.replies[IdOf(io.work[0]) := r]
    requires io'.nextId == io.nextId && io'.createLog == io.createLog
    requires Queue(io') == Queue(io.(work := io.work[1..]))
    ensures IdsOk(io') && KindsOk(io') && IdOf(io.work[0]) !in io.replies
    ensures forall id :: id in Ids(Queue(io)) ==> id in Ids(Queue(io')) || id in io'.replies
    ensures forall id :: id in Ids(Queue(io')) ==> id in Ids(Queue(io))
    ensures IdOf(io.work[0]) in Ids(Queue(io))
    ensures Queue(io) == [io.work[0]] + Queue(io')
    ensures forall i :: 0 <= i < |Queue(io')| ==> Queue(io')[i] == Queue(io)[i + 1]
  {
    hide Ids, Queue, HandlesOk, InOrder, EventsOk;
    NextIsQueued(io);
    assert Queue(io)[0] == io.work[0];
    IdsHave(Queue(io), 0);
    var head, before, after := IdOf(io.work[0]), Ids(Queue(io)), Ids(Queue(io'));
    forall id | id in after
      ensures id != head && after[id] == 1 && id in before
    {
      assert before[id] == multiset{head}[id] + after[id];
    }
    forall i | 0 <= i < |Queue(io')|
      ensures Queue(io')[i] == Queue(io)[i + 1]
    {
    }
  }

  lemma HandleControlKeeps(io: Io, provided: bool)
    requires IoOk(io) && io.work != [] && io.work[0].Control?
    ensures io.work[0].msg.handle in io.events
    ensures IoOk(HandleNext(io, provided)) && Handles(io, HandleNext(io, provided))
  {
    hide Ids, For, EventOk, Queue, IdsOk, KindsOk, Applied, Silenced, Unpaused;
    CanHandleNext(io);
    var x, m := io.work[0], io.work[0].msg;
    var io', rest := HandleNext(io, provided), Queue(io.(work := io.work[1..]));
    QueueIs(io', io.(work := io.work[1..]));
    HeadHandled(io, io', io'.replies[IdOf(x)]);
    forall h | h in io.events
      ensures io'.sentLog[h] == io'.events[h].handledLog + For(h, rest)
    {
      ForNext(h, x, rest);
      ForOne(h, x);
    }
    forall h | h in io'.events
      ensures EventOk(io', io'.events[h])
    {
      if h == m.handle {
        AppliedOk(io, io.events[h], m, provided);
        AnswersStay(io.(replies := io'.replies), io', io'.events[h]);
      } else {
        AnswersStay(io, io', io.events[h]);
      }
    }
  }

  lemma QueueIs(a: Io, b: Io)
    requires a.work == b.work && a.inbox == b.inbox && a.batch == b.batch
    ensures Queue(a) == Queue(b)
  {
  }

  lemma HandleCreateKeeps(io: Io, provided: bool)
    requires IoOk(io) && io.work != [] && io.work[0].EventCreate?
    ensures IoOk(HandleNext(io, provided)) && Handles(io, HandleNext(io, provided))
  {
    hide Ids, For, EventOk, Queue, IdsOk, KindsOk, AnswerOk;
    var x, c, n := io.work[0], io.work[0].id, io.nextHandle;
    var io', rest := HandleNext(io, provided), Queue(io.(work := io.work[1..]));
    QueueIs(io', io.(work := io.work[1..]));
    HeadHandled(io, io', io'.replies[IdOf(x)]);
    assert n !in io.events;
    NoneFor(n, rest);
    forall h | h in io.events
      ensures io'.sentLog[h] == io'.events[h].handledLog + For(h, rest)
    {
      ForNext(h, x, rest);
      ForOne(h, x);
    }
    forall h | h in io'.events
      ensures EventOk(io', io'.events[h])
    {
      if h == n {
        NewEventOk(io');
      } else {
        AnswersStay(io, io', io.events[h]);
      }
    }
  }

  lemma NewEventOk(io: Io)
    ensures EventOk(io, NEW_EVENT)
  {
  }

  lemma {:induction false} NoneFor(h: int, items: seq<Item>)
    requires forall i :: 0 <= i < |items| && items[i].Control? ==> items[i].msg.handle != h
    ensures For(h, items) == []
  {
    if items != [] {
      NoneFor(h, items[..|items| - 1]);
    }
  }

  lemma HandleNextKeeps(io: Io, provided: bool)
    requires IoOk(io) && io.work != []
    ensures io.work[0].Control? ==> io.work[0].msg.handle in io.events
    ensures IoOk(HandleNext(io, provided)) && Handles(io, HandleNext(io, provided))
  {
    if io.work[0].Control? {
      HandleControlKeeps(io, provided);
    } else {
      HandleCreateKeeps(io, provided);
    }
  }

  // ----- waiting for a create message

  lemma HandlesTwice(a: Io, b: Io, c: Io)
    requires Handles(a, b) && Handles(b, c)
    ensures Handles(a, c)
  {
    hide Ids, Queue;
  }

  lemma DequeueHandles(io: Io)
    requires IoOk(io)
    ensures IoOk(DequeueAll(io)) && Handles(io, DequeueAll(io)) && Handles(io, io)
    ensures Queue(DequeueAll(io)) == Queue(io)
  {
    hide Ids, For, Queue, Flatten, IdsOk, KindsOk, HandlesOk, InOrder, EventsOk;
    DequeueKeeps(io, {}, 0);
    DequeuedQueue(io);
  }

  /** A create message is never in the batch, so the thread gets to it without a flush. */
  lemma CreateIsAhead(io: Io, id: nat)
    requires IoOk(io) && id in io.createLog && id in Ids(Queue(io))
    ensures io.work + Flatten(io.inbox) != []
  {
    var i := IdsFrom(Queue(io), id);
    assert Queue(io)[i].EventCreate?;
  }
}
