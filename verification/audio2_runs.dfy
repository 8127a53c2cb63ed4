/** What every interleaving of the main thread and the audio thread keeps: each emitter's
    messages reach its event once and in order, and a state that is read back is never
    older than the last decision to play or to stop. */
module Audio2Runs {
  import opened Wrappers
  import opened Audio2Model
  import opened Audio2Order

  // ----- one emitter

  /** The messages have not been addressed, and their ids ascend. */
  ghost predicate IssuedOk(issued: seq<Message>, io: Io) {
    && (forall i :: 0 <= i < |issued| ==>
         && issued[i].handle == 0 && issued[i].id < io.nextId && issued[i].id !in io.createLog
         && !issued[i].kind.EventDiscard?)
    && (forall i, j :: 0 <= i < j < |issued| ==> issued[i].id < issued[j].id)
  }

  ghost predicate Unused(msgs: seq<Message>, io: Io) {
    forall i :: 0 <= i < |msgs| ==> msgs[i].id !in Ids(Queue(io)) && msgs[i].id !in io.replies
  }

  /** Update message u is the i-th message issued, and nothing was decided after it. */
  predicate AsksAt(issued: seq<Message>, i: int, u: nat) {
    && 0 <= i < |issued| && issued[i].id == u && issued[i].kind.EventUpdateState?
    && forall j :: i < j < |issued| ==> !Decides(issued[j].kind)
  }

  /** Before the handle is known, everything issued is pending. */
  ghost predicate WaitingOk(e: Emitter, io: Io) {
    && e.handle == 0 && e.pendingMessages == e.issuedLog && e.pendingUpdate.None?
    && e.pendingCreate.Some?
    && var c := e.pendingCreate.value;
       && c in io.createLog
       && (c in io.replies || c in Ids(Queue(io)))
       && (c in io.replies ==>
            io.replies[c].Handle? && io.replies[c].handle in io.sentLog && io.sentLog[io.replies[c].handle] == [])
  }

  /** Afterwards, everything issued has been sent to the event. */
  ghost predicate AttachedOk(e: Emitter, io: Io) {
    && e.handle in io.sentLog && e.pendingMessages == [] && e.pendingCreate.None?
    && io.sentLog[e.handle] == AllAddressed(e.issuedLog, e.handle)
    && (e.pendingUpdate.Some? ==> exists i :: AsksAt(e.issuedLog, i, e.pendingUpdate.value))
  }

  ghost predicate EmitterOk(e: Emitter, io: Io) {
    && (!e.registered ==> e == BLANK)
    && (e.registered ==>
         && IssuedOk(e.issuedLog, io) && Unused(e.pendingMessages, io)
         && (WaitingOk(e, io) || AttachedOk(e, io)))
  }

  ghost predicate ClientOk(c: Client) {
    IoOk(c.io) && EmitterOk(c.e, c.io)
  }

  /** The ids the emitter is waiting for or has yet to send. */
  function Claims(e: Emitter): set<nat> {
    (if e.pendingCreate.Some? then {e.pendingCreate.value} else {}) + set m | m in e.pendingMessages :: m.id
  }

  /** The handle of the emitter's event, even if the emitter does not know it yet. */
  function HandleOf(e: Emitter, io: Io): int {
    if e.handle != 0 then e.handle
    else if e.pendingCreate.Some? && e.pendingCreate.value in io.replies
            && io.replies[e.pendingCreate.value].Handle? then
      io.replies[e.pendingCreate.value].handle
    else 0
  }

  /** What an operation of the emitter may do: d comes from c by sending messages to the
      emitter's own event. */
  ghost predicate Acts(c: Client, d: Client) {
    && Moves(c.io, d.io, Claims(c.e), HandleOf(c.e, c.io))
    && (forall id :: id in Claims(d.e) ==> id in Claims(c.e) || c.io.nextId <= id)
    && (HandleOf(d.e, d.io) == HandleOf(c.e, c.io) || HandleOf(d.e, d.io) == 0)
  }

  lemma ActsTwice(a: Client, b: Client, c: Client)
    requires Acts(a, b) && Acts(b, c) && HandleOf(b.e, b.io) == HandleOf(a.e, a.io)
    ensures Acts(a, c)
  {
  }

  lemma {:induction false} SendAllKeeps(io: Io, msgs: seq<Message>, h: int, n: nat, ids: set<nat>)
    requires IoOk(io) && h in io.events && n <= |msgs|
    requires IssuedOk(msgs, io) && Unused(msgs, io) && forall i :: 0 <= i < |msgs| ==> msgs[i].id in ids
    ensures var io' := SendAll(io, msgs, h, n);
            && IoOk(io') && Moves(io, io', ids, h) && h in io'.sentLog
            && io'.sentLog[h] == io.sentLog[h] + AllAddressed(msgs[..n], h)
            && Unused(msgs[n..], io')
  {
    hide IoOk, SendBatched, Ids, Queue, Moves;
    var io' := SendAll(io, msgs, h, n);
    if n == 0 {
      NothingMoves(io, ids, h);
      assert msgs[..0] == [];
    } else {
      SendAllKeeps(io, msgs, h, n - 1, ids);
      var before := SendAll(io, msgs, h, n - 1);
      assert msgs[n - 1..][0] == msgs[n - 1];
      SendBatchedKeeps(before, Addressed(msgs[n - 1], h), ids);
      MovesTwice(io, before, io', ids, h);
      assert AllAddressed(msgs[..n], h) == AllAddressed(msgs[..n - 1], h) + [Addressed(msgs[n - 1], h)];
      forall i | 0 <= i < |msgs[n..]|
        ensures msgs[n..][i].id !in Ids(Queue(io'))
      {
        assert msgs[n..][i] == msgs[n - 1..][i + 1] == msgs[n + i];
      }
    }
  }

  lemma NothingMoves(io: Io, ids: set<nat>, h: int)
    requires IoOk(io)
    ensures Moves(io, io, ids, h) && h in io.events ==> h in io.sentLog
    ensures Moves(io, io, ids, h)
  {
  }

  lemma ValidateKeeps(c: Client)
    requires ClientOk(c) && c.e.registered
    ensures CanValidate(c) && ClientOk(Validate(c)) && Acts(c, Validate(c))
    ensures HandleOf(Validate(c).e, Validate(c).io) == HandleOf(c.e, c.io)
    ensures Validate(c).e.registered && Validate(c).e.issuedLog == c.e.issuedLog && Validate(c).e.bits == c.e.bits
    ensures Validate(c).e.pendingCreate.None? <==> Created(c)
    ensures Validate(c).e.handle == 0 ==> c.e.handle == 0
  {
    hide SendAll, Ids, Queue, KindsOk, EventsOk, InOrder, Addressed;
    var d := Validate(c);
    NothingMoves(c.io, Claims(c.e), HandleOf(c.e, c.io));
    if c.e.pendingCreate.Some? && Created(c) {
      var h := c.io.replies[c.e.pendingCreate.value].handle;
      var msgs := c.e.pendingMessages;
      SendAllKeeps(c.io, msgs, h, |msgs|, Claims(c.e));
      assert msgs[..|msgs|] == msgs;
      assert [] + AllAddressed(msgs, h) == AllAddressed(msgs, h);
    }
  }

  // ----- what the operations of an emitter keep

  /** The message object is created, and noted as issued. */
  function Issue(c: Client, k: Kind): Client {
    Client(c.e.(issuedLog := c.e.issuedLog + [Message(c.io.nextId, k, 0)]), c.io.(nextId := c.io.nextId + 1))
  }

  /** Sending to an emitter that has its handle. */
  lemma SendNowKeeps(c: Client, k: Kind)
    requires ClientOk(c) && c.e.registered && c.e.pendingCreate.None? && !k.EventDiscard?
    requires Decides(k) ==> c.e.pendingUpdate.None?
    ensures var m := Message(c.io.nextId, k, 0);
            var d := Client(c.e.(issuedLog := c.e.issuedLog + [m]),
                            SendBatched(c.io.(nextId := c.io.nextId + 1), Addressed(m, c.e.handle)));
            ClientOk(d) && Acts(c, d)
  {
    hide Ids, Queue, KindsOk, InOrder, EventsOk, EventOk, IssuedOk, AsksAt;
    var m := Message(c.io.nextId, k, 0);
    var io1 := c.io.(nextId := c.io.nextId + 1);
    NewIdMoves(c.io, Claims(c.e) + {m.id}, c.e.handle);
    QueueIs(c.io, io1);
    SendBatchedKeeps(io1, Addressed(m, c.e.handle), Claims(c.e) + {m.id});
    AttachedMore(c.e, m, c.io, SendBatched(io1, Addressed(m, c.e.handle)));
  }

  /** One more message was issued and sent. */
  lemma AttachedMore(e: Emitter, m: Message, io: Io, io': Io)
    requires IssuedOk(e.issuedLog, io) && AttachedOk(e, io) && io'.createLog == io.createLog
    requires m.id == io.nextId < io'.nextId && m.id !in io.createLog && m.handle == 0 && !m.kind.EventDiscard?
    requires Decides(m.kind) ==> e.pendingUpdate.None?
    requires e.handle in io'.sentLog && io'.sentLog[e.handle] == io.sentLog[e.handle] + [Addressed(m, e.handle)]
    ensures IssuedOk(e.issuedLog + [m], io') && AttachedOk(e.(issuedLog := e.issuedLog + [m]), io')
  {
    var issued := e.issuedLog + [m];
    assert AllAddressed(issued, e.handle) == AllAddressed(e.issuedLog, e.handle) + [Addressed(m, e.handle)];
    if e.pendingUpdate.Some? {
      var i :| AsksAt(e.issuedLog, i, e.pendingUpdate.value);
      assert AsksAt(issued, i, e.pendingUpdate.value);
    }
  }

  /** Sending to an emitter that still waits. */
  lemma SendLaterKeeps(c: Client, k: Kind)
    requires ClientOk(c) && c.e.registered && c.e.pendingCreate.Some? && !k.EventDiscard?
    ensures var m := Message(c.io.nextId, k, 0);
            var d := Client(c.e.(issuedLog := c.e.issuedLog + [m], pendingMessages := c.e.pendingMessages + [m]),
                            c.io.(nextId := c.io.nextId + 1));
            ClientOk(d) && Acts(c, d)
  {
    hide Ids, Queue, KindsOk, InOrder, EventsOk, HandlesOk, EventOk;
    var m := Message(c.io.nextId, k, 0);
    var io1 := c.io.(nextId := c.io.nextId + 1);
    NewIdMoves(c.io, Claims(c.e), HandleOf(c.e, c.io));
    QueueIs(c.io, io1);
  }

  /** SendEventMessage is sending to the emitter as it is after ValidateEventHandle. */
  lemma SendIs(c: Client, k: Kind)
    requires CanValidate(c)
    ensures var v, m := Validate(c), Message(c.io.nextId, k, 0);
            SendEventMessage(c, k) == if v.e.pendingCreate.Some?
              then Client(v.e.(issuedLog := v.e.issuedLog + [m], pendingMessages := v.e.pendingMessages + [m]),
                          v.io.(nextId := v.io.nextId + 1))
              else Client(v.e.(issuedLog := v.e.issuedLog + [m]),
                          SendBatched(v.io.(nextId := v.io.nextId + 1), Addressed(m, v.e.handle)))
  {
    var c1 := Issue(c, k);
    if c.e.pendingCreate.Some? && Created(c) {
      var h := c.io.replies[c.e.pendingCreate.value].handle;
      SendAllLater(c.io, c.e.pendingMessages, h, |c.e.pendingMessages|);
    }
  }

  lemma {:induction false} SendAllLater(io: Io, msgs: seq<Message>, h: int, n: nat)
    requires n <= |msgs|
    ensures SendAll(io.(nextId := io.nextId + 1), msgs, h, n) == SendAll(io, msgs, h, n).(nextId := io.nextId + 1)
  {
    if n > 0 {
      SendAllLater(io, msgs, h, n - 1);
    }
  }

  lemma SendEventKeeps(c: Client, k: Kind)
    requires ClientOk(c) && c.e.registered && !k.EventDiscard? && (Decides(k) ==> c.e.pendingUpdate.None?)
    ensures CanValidate(c) && ClientOk(SendEventMessage(c, k)) && Acts(c, SendEventMessage(c, k))
    ensures SendEventMessage(c, k).e.registered && SendEventMessage(c, k).e.pendingUpdate == c.e.pendingUpdate
    ensures SendEventMessage(c, k).e.handle == 0 ==> c.e.handle == 0
    ensures SendEventMessage(c, k).e.bits == c.e.bits
    ensures SendEventMessage(c, k).e.issuedLog == c.e.issuedLog + [Message(c.io.nextId, k, 0)]
  {
    hide ClientOk, Validate, SendEventMessage, Acts, HandleOf;
    ValidateKeeps(c);
    SendIs(c, k);
    var v := Validate(c);
    if v.e.pendingCreate.Some? {
      SendLaterKeeps(v, k);
    } else {
      SendNowKeeps(v, k);
    }
    ActsTwice(c, v, SendEventMessage(c, k));
  }

  /** Forgetting the pending update touches nothing but the field: Cancel has no effect. */
  lemma CancelIs(c: Client)
    requires ClientOk(c) && c.e.registered
    ensures CancelPendingUpdateMessage(c) == Client(c.e.(pendingUpdate := None), c.io)
    ensures ClientOk(CancelPendingUpdateMessage(c)) && Acts(c, CancelPendingUpdateMessage(c))
  {
    hide Ids, Queue, KindsOk, InOrder, EventsOk, IdsOk;
    NothingMoves(c.io, Claims(c.e), HandleOf(c.e, c.io));
    if c.e.pendingUpdate.Some? {
      var i :| AsksAt(c.e.issuedLog, i, c.e.pendingUpdate.value);
      CancelFindsNothing(c.io, c.e.pendingUpdate.value);
    }
  }

  /** The order of cancelling and sending does not matter. */
  lemma DecideIs(c: Client, k: Kind)
    requires ClientOk(c) && c.e.registered && Decides(k) && !k.EventDiscard?
    ensures CanValidate(c)
    ensures var d := SendEventMessage(Client(c.e.(pendingUpdate := None), c.io), k);
            Decide(c, k) == Client(d.e.(bits := d.e.bits.(playing := Starts(k))), d.io)
  {
    hide Ids, Queue, SendAll, InOrder, EventsOk, HandlesOk, IdsOk, KindsOk, SendBatched, Moves;
    ValidateKeeps(c);
    if c.e.pendingUpdate.Some? {
      UpdateSurvives(c, k);
    }
  }

  /** Cancelling the old update after a new message was sent finds nothing either. */
  lemma UpdateSurvives(c: Client, k: Kind)
    requires ClientOk(c) && c.e.registered && c.e.pendingUpdate.Some?
    ensures CanValidate(c) && Cancel(SendEventMessage(c, k).io, c.e.pendingUpdate.value) == SendEventMessage(c, k).io
  {
    hide Ids, Queue, InOrder, EventsOk, HandlesOk, IdsOk, KindsOk;
    var i :| AsksAt(c.e.issuedLog, i, c.e.pendingUpdate.value);
    CancelFindsNothing(c.io, c.e.pendingUpdate.value);
    assert SendEventMessage(c, k).io.inbox == c.io.inbox;
  }

  lemma DecideKeeps(c: Client, k: Kind)
    requires ClientOk(c) && c.e.registered && Decides(k) && !k.EventDiscard?
    ensures CanValidate(c) && ClientOk(Decide(c, k)) && Acts(c, Decide(c, k))
    ensures Decide(c, k).e.registered && Decide(c, k).e.bits == c.e.bits.(playing := Starts(k))
    ensures Decide(c, k).e.pendingUpdate.None? && (Decide(c, k).e.handle == 0 ==> c.e.handle == 0)
    ensures Decide(c, k).e.issuedLog == c.e.issuedLog + [Message(c.io.nextId, k, 0)]
  {
    hide SendEventMessage, IoOk, Decide;
    DecideIs(c, k);
    CancelIs(c);
    SendEventKeeps(Client(c.e.(pendingUpdate := None), c.io), k);
  }

  lemma AdjustKeeps(c: Client, k: Kind)
    requires ClientOk(c) && c.e.registered && !Decides(k) && !k.EventUpdateState?
    ensures CanValidate(c) && ClientOk(Adjust(c, k)) && Acts(c, Adjust(c, k))
    ensures Adjust(c, k).e.registered && Adjust(c, k).e.pendingUpdate == c.e.pendingUpdate
    ensures Adjust(c, k).e.bits == if Pauses(k) then c.e.bits.(paused := k.EventPause?) else c.e.bits
    ensures Adjust(c, k).e.handle == 0 ==> c.e.handle == 0
    ensures Adjust(c, k).e.issuedLog == c.e.issuedLog + [Message(c.io.nextId, k, 0)]
  {
    hide SendEventMessage, IoOk;
    SendEventKeeps(c, k);
  }

  // ----- reading the state back

  /** What was issued before the question with this id. */
  function BeforeQuestion(issued: seq<Message>, u: nat): seq<Message> {
    if issued == [] then []
    else if issued[|issued| - 1].id == u then issued[..|issued| - 1]
    else BeforeQuestion(issued[..|issued| - 1], u)
  }

  /** Whether Pause or Resume was issued after the question with this id. */
  predicate PausedSince(issued: seq<Message>, u: nat) {
    && issued != [] && issued[|issued| - 1].id != u
    && (Pauses(issued[|issued| - 1].kind) || PausedSince(issued[..|issued| - 1], u))
  }

  lemma {:induction false} BeforeQuestionIs(issued: seq<Message>, i: nat)
    requires i < |issued| && forall j, k :: 0 <= j < k < |issued| ==> issued[j].id < issued[k].id
    ensures BeforeQuestion(issued, issued[i].id) == issued[..i]
    ensures PausedSince(issued, issued[i].id) <==> exists j :: i < j < |issued| && Pauses(issued[j].kind)
  {
    if i < |issued| - 1 {
      var rest := issued[..|issued| - 1];
      BeforeQuestionIs(rest, i);
      assert rest[..i] == issued[..i];
      assert forall j :: 0 <= j < |rest| ==> rest[j] == issued[j];
    }
  }

  /** A state that is read back tells the truth about the last decision, however many
      messages are still on their way: the event is reported as playing exactly if the last
      decision that was issued started it and its sound has not ended by itself since. It is
      reported as paused exactly if the last Pause or Resume before the question was a
      Pause that was neither ignored nor undone. */
  lemma ReadBackIsFresh(c: Client)
    requires ClientOk(c) && c.e.registered && UpdateAnswered(c)
    ensures CanRead(c)
    ensures ReadBack(c).e.bits.playing
            <==> LastStarts(c.e.issuedLog) && !c.io.replies[c.e.pendingUpdate.value].silencedLog
    ensures ReadBack(c).e.bits.paused
            <==> LastPauses(BeforeQuestion(c.e.issuedLog, c.e.pendingUpdate.value))
                 && !c.io.replies[c.e.pendingUpdate.value].unpausedLog
  {
    hide Ids, Queue, For, KindsOk;
    var u, h := c.e.pendingUpdate.value, c.e.handle;
    var i :| AsksAt(c.e.issuedLog, i, u);
    var ev := c.io.events[h];
    var sent := c.io.sentLog[h];
    assert sent == ev.handledLog + For(h, Queue(c.io)) && sent[i] == Addressed(c.e.issuedLog[i], h);
    if i >= |ev.handledLog| {
      var j := ForAreQueued(h, Queue(c.io), i - |ev.handledLog|);
      IdsHave(Queue(c.io), j);
    }
    assert AnswerOk(c.io.replies, ev.handledLog, i);
    assert AllAddressed(c.e.issuedLog[..i], h) == AllAddressed(c.e.issuedLog, h)[..i];
    assert ev.handledLog[..i] == sent[..i];
    LastStartsAddressed(c.e.issuedLog[..i], h);
    NothingDecidedAfter(c.e.issuedLog, i);
    BeforeQuestionIs(c.e.issuedLog, i);
  }

  lemma {:induction false} LastStartsAddressed(log: seq<Message>, h: int)
    ensures LastStarts(AllAddressed(log, h)) == LastStarts(log)
    ensures LastPauses(AllAddressed(log, h)) == LastPauses(log)
  {
    if log != [] {
      LastStartsAddressed(log[..|log| - 1], h);
      assert AllAddressed(log, h)[..|log| - 1] == AllAddressed(log[..|log| - 1], h);
    }
  }

  lemma {:induction false} NothingDecidedAfter(log: seq<Message>, i: nat)
    requires i < |log| && forall j :: i <= j < |log| ==> !Decides(log[j].kind)
    ensures LastStarts(log) == LastStarts(log[..i])
    decreases |log|
  {
    if i < |log| - 1 {
      NothingDecidedAfter(log[..|log| - 1], i);
      assert log[..|log| - 1][..i] == log[..i];
    }
  }

  lemma ReadBackKeeps(c: Client)
    requires ClientOk(c) && c.e.registered
    ensures CanRead(c) && ClientOk(ReadBack(c)) && Acts(c, ReadBack(c))
    ensures HandleOf(ReadBack(c).e, ReadBack(c).io) == HandleOf(c.e, c.io)
  {
    hide Ids, Queue, InOrder, EventsOk, HandlesOk, IdsOk, KindsOk;
    NothingMoves(c.io, Claims(c.e), HandleOf(c.e, c.io));
    if UpdateAnswered(c) {
      ReadBackIsFresh(c);
    }
  }

  /** The state is asked for anew. */
  function Ask(c: Client): Client
    requires CanValidate(c)
  {
    SendEventMessage(Client(c.e.(pendingUpdate := Some(c.io.nextId)), c.io), EventUpdateState)
  }

  lemma AskKeeps(c: Client)
    requires ClientOk(c) && c.e.registered && c.e.handle != 0 && c.e.pendingUpdate.None?
    ensures CanValidate(c) && ClientOk(Ask(c)) && Acts(c, Ask(c)) && Ask(c).e.registered
    ensures Ask(c).e.issuedLog == c.e.issuedLog + [Message(c.io.nextId, EventUpdateState, 0)]
    ensures Ask(c).e.pendingUpdate == Some(c.io.nextId) && Ask(c).e.handle == c.e.handle && Ask(c).e.bits == c.e.bits
  {
    hide Ids, Queue, InOrder, EventsOk, HandlesOk, IdsOk, KindsOk, SendBatched;
    SendNowKeeps(c, EventUpdateState);
    assert AsksAt(Ask(c).e.issuedLog, |c.e.issuedLog|, c.io.nextId);
  }

  lemma OnFrameIs(c: Client)
    requires CanValidate(c) && CanRead(c)
    ensures CanRead(Validate(c))
    ensures var v := Validate(c);
            OnFrame(c)
            == if v.e.handle == 0 || (v.e.pendingUpdate.Some? && !UpdateAnswered(v)) then v else Ask(ReadBack(v))
  {
    hide Validate, SendEventMessage;
  }

  lemma OnFrameKeeps(c: Client)
    requires ClientOk(c) && c.e.registered
    ensures CanValidate(c) && CanRead(c) && ClientOk(OnFrame(c)) && Acts(c, OnFrame(c)) && OnFrame(c).e.registered
    ensures || (OnFrame(c).e.issuedLog == c.e.issuedLog && OnFrame(c).e.pendingUpdate == c.e.pendingUpdate)
            || (&& OnFrame(c).e.issuedLog == c.e.issuedLog + [Message(c.io.nextId, EventUpdateState, 0)]
                && OnFrame(c).e.pendingUpdate == Some(c.io.nextId) && OnFrame(c).e.handle != 0
                && (c.e.pendingUpdate.None? || UpdateAnswered(c)))
    ensures OnFrame(c).e.handle == 0 ==> c.e.handle == 0
    ensures !UpdateAnswered(c) ==> OnFrame(c).e.bits == c.e.bits
  {
    hide IoOk, Acts, HandleOf, Validate, SendEventMessage, OnFrame, ClientOk;
    ValidateKeeps(c);
    ReadBackKeeps(c);
    OnFrameIs(c);
    var v := Validate(c);
    if v.e.handle != 0 && (v.e.pendingUpdate.None? || UpdateAnswered(v)) {
      ReadBackKeeps(v);
      ActsTwice(c, v, ReadBack(v));
      AskKeeps(ReadBack(v));
      ActsTwice(c, ReadBack(v), OnFrame(c));
    }
  }

  // ----- setting up and discarding

  lemma SetupKeeps(c: Client)
    requires ClientOk(c) && !c.e.registered
    ensures ClientOk(Setup(c)) && Acts(c, Setup(c)) && Setup(c).e.registered
  {
    hide Ids, Queue, InOrder, EventsOk, HandlesOk, KindsOk;
    SendCreateKeeps(c.io, {}, 0);
  }

  /** EventDiscard goes behind everything else. */
  lemma DiscardGoesLast(c: Client)
    requires ClientOk(c) && c.e.registered && c.e.pendingCreate.None?
    ensures var m := Message(c.io.nextId, EventDiscard, c.e.handle);
            var io := SendBatched(c.io.(nextId := c.io.nextId + 1), m);
            && ClientOk(Client(BLANK, io)) && Acts(c, Client(BLANK, io))
            && c.e.handle in io.sentLog && io.sentLog[c.e.handle] == AllAddressed(c.e.issuedLog, c.e.handle) + [m]
  {
    hide Ids, Queue, InOrder, EventsOk, KindsOk;
    var m := Message(c.io.nextId, EventDiscard, c.e.handle);
    var io1 := c.io.(nextId := c.io.nextId + 1);
    NewIdMoves(c.io, Claims(c.e) + {m.id}, c.e.handle);
    QueueIs(c.io, io1);
    SendBatchedKeeps(io1, m, Claims(c.e) + {m.id});
  }

  /** Discard sends everything that was issued, each message once and in order, and then
      EventDiscard; nothing is dropped, whether or not the event existed when it was
      called. */
  lemma DiscardSendsAll(c: Client)
    requires ClientOk(c) && c.e.registered && Created(c)
    ensures CanValidate(c) && Discard(c).e == BLANK && ClientOk(Discard(c)) && Acts(c, Discard(c))
    ensures var h, io := HandleOf(c.e, c.io), Discard(c).io;
            && h in io.sentLog
            && io.sentLog[h] == AllAddressed(c.e.issuedLog, h) + [Message(c.io.nextId, EventDiscard, h)]
  {
    hide ClientOk, Acts, Validate, CancelPendingUpdateMessage;
    CancelIs(c);
    var d := CancelPendingUpdateMessage(c);
    ValidateKeeps(d);
    ValidIfCreated(d);
    var v := Validate(d);
    AttachedHandle(v);
    DiscardGoesLast(v);
    ActsTwice(c, d, v);
    ActsTwice(c, v, Discard(c));
  }

  lemma ValidIfCreated(c: Client)
    requires CanValidate(c)
    ensures c.e.pendingCreate.None? ==> Validate(c) == c
  {
  }

  lemma AttachedHandle(c: Client)
    requires ClientOk(c) && c.e.registered && c.e.pendingCreate.None?
    ensures HandleOf(c.e, c.io) == c.e.handle
  {
    hide IoOk, IssuedOk, Unused;
  }

  // ----- unanswered questions

  /** The i-th message issued asks for the state, and has no answer yet. */
  predicate Unanswered(issued: seq<Message>, replies: map<nat, Reply>, i: int) {
    0 <= i < |issued| && issued[i].kind.EventUpdateState? && issued[i].id !in replies
  }

  /** Play, PlayProgrammerSound or Stop was issued between messages i and j. */
  predicate DecidedBetween(issued: seq<Message>, i: int, j: int) {
    exists k :: i < k < j && 0 <= k < |issued| && Decides(issued[k].kind)
  }

  /** Behind every unanswered question there was a decision before the next question, and
      also if nobody waits for its answer any more; and without a handle there is none. */
  ghost predicate QuestionsOk(e: Emitter, replies: map<nat, Reply>) {
    && (forall i, j :: 0 <= i < j < |e.issuedLog| && Unanswered(e.issuedLog, replies, i)
                       && e.issuedLog[j].kind.EventUpdateState? ==>
         DecidedBetween(e.issuedLog, i, j))
    && (forall i :: Unanswered(e.issuedLog, replies, i) ==>
         e.pendingUpdate == Some(e.issuedLog[i].id) || DecidedBetween(e.issuedLog, i, |e.issuedLog|))
    && (e.handle == 0 ==> forall i :: 0 <= i < |e.issuedLog| ==> !e.issuedLog[i].kind.EventUpdateState?)
  }

  lemma StillDecided(issued: seq<Message>, m: Message, i: int, j: int)
    requires j <= |issued|
    ensures DecidedBetween(issued, i, j) ==> DecidedBetween(issued + [m], i, j)
    ensures DecidedBetween(issued, i, |issued|) ==> DecidedBetween(issued + [m], i, |issued| + 1)
    ensures i < |issued| && Decides(m.kind) ==> DecidedBetween(issued + [m], i, |issued| + 1)
  {
    var all := issued + [m];
    assert all[|issued|] == m;
    if DecidedBetween(issued, i, j) {
      var k :| i < k < j && 0 <= k < |issued| && Decides(issued[k].kind);
      assert Decides(all[k].kind);
    }
    if DecidedBetween(issued, i, |issued|) {
      var k :| i < k < |issued| && 0 <= k < |issued| && Decides(issued[k].kind);
      assert Decides(all[k].kind);
    }
  }

  /** A call that sends anything but a question. */
  lemma CallKeepsQuestions(e: Emitter, d: Emitter, m: Message, replies: map<nat, Reply>)
    requires QuestionsOk(e, replies) && d.issuedLog == e.issuedLog + [m] && !m.kind.EventUpdateState?
    requires d.pendingUpdate == e.pendingUpdate || (d.pendingUpdate.None? && Decides(m.kind))
    requires d.handle == 0 ==> e.handle == 0
    ensures QuestionsOk(d, replies)
  {
    hide DecidedBetween;
    assert forall i :: 0 <= i < |e.issuedLog| ==> d.issuedLog[i] == e.issuedLog[i];
    forall i | Unanswered(d.issuedLog, replies, i)
      ensures d.pendingUpdate == Some(d.issuedLog[i].id) || DecidedBetween(d.issuedLog, i, |d.issuedLog|)
    {
      assert Unanswered(e.issuedLog, replies, i);
      StillDecided(e.issuedLog, m, i, 0);
    }
    forall i, j | 0 <= i < j < |d.issuedLog| && Unanswered(d.issuedLog, replies, i)
                  && d.issuedLog[j].kind.EventUpdateState?
      ensures DecidedBetween(d.issuedLog, i, j)
    {
      assert Unanswered(e.issuedLog, replies, i);
      StillDecided(e.issuedLog, m, i, j);
    }
  }

  /** A question, asked when no answer is waited for. */
  lemma QuestionKeepsQuestions(e: Emitter, d: Emitter, m: Message, replies: map<nat, Reply>)
    requires QuestionsOk(e, replies) && d.issuedLog == e.issuedLog + [m] && m.kind.EventUpdateState?
    requires d.pendingUpdate == Some(m.id) && d.handle != 0
    requires e.pendingUpdate.None? || e.pendingUpdate.value in replies
    ensures QuestionsOk(d, replies)
  {
    hide DecidedBetween;
    var n := |e.issuedLog|;
    assert forall i :: 0 <= i < n ==> d.issuedLog[i] == e.issuedLog[i];
    forall i | Unanswered(d.issuedLog, replies, i)
      ensures i == n || (&& Unanswered(e.issuedLog, replies, i)
                         && DecidedBetween(d.issuedLog, i, n) && DecidedBetween(d.issuedLog, i, n + 1))
    {
      if i < n {
        assert Unanswered(e.issuedLog, replies, i);
        StillDecided(e.issuedLog, m, i, n);
      }
    }
    forall i, j | 0 <= i < j < |d.issuedLog| && Unanswered(d.issuedLog, replies, i)
                  && d.issuedLog[j].kind.EventUpdateState?
      ensures DecidedBetween(d.issuedLog, i, j)
    {
      StillDecided(e.issuedLog, m, i, j);
    }
  }

  /** More answers leave fewer questions. */
  lemma AnswersKeepQuestions(e: Emitter, replies: map<nat, Reply>, replies': map<nat, Reply>)
    requires QuestionsOk(e, replies) && replies.Keys <= replies'.Keys
    ensures QuestionsOk(e, replies')
  {
    hide DecidedBetween;
    assert forall i :: Unanswered(e.issuedLog, replies', i) ==> Unanswered(e.issuedLog, replies, i);
  }

  lemma NoQuestions(replies: map<nat, Reply>)
    ensures QuestionsOk(BLANK, replies)
  {
  }

  // ----- all emitters together

  /** closedLog holds, for every event whose emitter was discarded, what was sent to it. */
  datatype World = World(emitters: map<int, Emitter>, io: Io, closedLog: map<int, seq<Message>>)

  datatype Action =
    | SetupEmitter(i: int)
    | DecideEmitter(i: int, k: Kind)
    | AdjustEmitter(i: int, k: Kind)
    | EmitterOnFrame(i: int)
    | DiscardEmitter(i: int)
    | Flush
    | ThreadDequeues
    | ThreadHandles(provided: bool)
    | SoundEnded(h: int)
    | VoicesWereStolen(h: int)

  function ClientAt(w: World, i: int): Client
    requires i in w.emitters
  {
    Client(w.emitters[i], w.io)
  }

  /** What the asserts of the program demand of the caller; the blocking Discard goes on
      once the create message has been handled. */
  predicate Enabled(w: World, a: Action) {
    match a
    case SetupEmitter(i) => i in w.emitters && !w.emitters[i].registered
    case DecideEmitter(i, k) => i in w.emitters && w.emitters[i].registered && Decides(k) && !k.EventDiscard?
    case AdjustEmitter(i, k) => i in w.emitters && w.emitters[i].registered && !Decides(k) && !k.EventUpdateState?
    case EmitterOnFrame(i) => i in w.emitters && w.emitters[i].registered
    case DiscardEmitter(i) => i in w.emitters && w.emitters[i].registered && Created(ClientAt(w, i))
    case Flush => true
    case ThreadDequeues => true
    case ThreadHandles(provided) => w.io.work != []
    case SoundEnded(h) => h in w.io.events
    case VoicesWereStolen(h) => h in w.io.events
  }

  ghost predicate WorldOk(w: World) {
    && IoOk(w.io)
    && (forall i :: i in w.emitters ==> EmitterOk(w.emitters[i], w.io) && QuestionsOk(w.emitters[i], w.io.replies))
    && (forall i, j :: i in w.emitters && j in w.emitters && i != j ==> Apart(w.emitters[i], w.emitters[j], w.io))
    && (forall h :: h in w.closedLog ==> ClosedOk(w, h))
  }

  /** No message and no event belongs to two emitters. */
  ghost predicate Apart(a: Emitter, b: Emitter, io: Io) {
    Claims(a) !! Claims(b) && (HandleOf(a, io) == HandleOf(b, io) ==> HandleOf(a, io) == 0)
  }

  /** A discarded event got EventDiscard last, and nobody can send to it any more. */
  ghost predicate ClosedOk(w: World, h: int)
    requires h in w.closedLog
  {
    && h in w.io.sentLog && w.io.sentLog[h] == w.closedLog[h]
    && DiscardIsLast(w.closedLog[h])
    && forall i :: i in w.emitters ==> HandleOf(w.emitters[i], w.io) != h
  }

  predicate DiscardIsLast(log: seq<Message>) {
    && log != [] && log[|log| - 1].kind.EventDiscard?
    && forall i :: 0 <= i < |log| - 1 ==> !log[i].kind.EventDiscard?
  }

  function Step(w: World, a: Action): World
    requires WorldOk(w) && Enabled(w, a)
  {
    match a
    case SetupEmitter(i) => With(w, i, Setup(ClientAt(w, i)))
    case DecideEmitter(i, k) => ValidateKeeps(ClientAt(w, i)); With(w, i, Decide(ClientAt(w, i), k))
    case AdjustEmitter(i, k) => ValidateKeeps(ClientAt(w, i)); With(w, i, Adjust(ClientAt(w, i), k))
    case EmitterOnFrame(i) => OnFrameKeeps(ClientAt(w, i)); With(w, i, OnFrame(ClientAt(w, i)))
    case DiscardEmitter(i) =>
      DiscardSendsAll(ClientAt(w, i));
      var d := Discard(ClientAt(w, i));
      var h := HandleOf(w.emitters[i], w.io);
      With(w, i, d).(closedLog := w.closedLog[h := d.io.sentLog[h]])
    case Flush => w.(io := FlushBatchedMessages(w.io))
    case ThreadDequeues => w.(io := DequeueAll(w.io))
    case ThreadHandles(provided) => HandleNextKeeps(w.io, provided); w.(io := HandleNext(w.io, provided))
    case SoundEnded(h) => w.(io := SoundEnds(w.io, h))
    case VoicesWereStolen(h) => w.(io := VoicesStolen(w.io, h))
  }

  function With(w: World, i: int, c: Client): World
    requires i in w.emitters
  {
    w.(emitters := w.emitters[i := c.e], io := c.io)
  }

  /** What one emitter does leaves the others as they were. */
  lemma OthersKeep(e: Emitter, c: Client, d: Client)
    requires ClientOk(c) && EmitterOk(e, c.io) && Apart(e, c.e, c.io) && Acts(c, d) && IoOk(d.io)
    ensures EmitterOk(e, d.io) && Apart(e, d.e, d.io) && HandleOf(e, d.io) == HandleOf(e, c.io)
  {
    hide Ids, Queue, InOrder, EventsOk, KindsOk;
    ClaimsAreOld(e, c.io);
    forall i | 0 <= i < |e.pendingMessages|
      ensures e.pendingMessages[i].id in Claims(e)
    {
    }
  }

  lemma ClaimsAreOld(e: Emitter, io: Io)
    requires IoOk(io) && EmitterOk(e, io)
    ensures forall id :: id in Claims(e) ==> id < io.nextId
  {
    forall id | id in Claims(e)
      ensures id < io.nextId
    {
      if e.registered && WaitingOk(e, io) {
        if id != e.pendingCreate.value {
          var m :| m in e.pendingMessages && m.id == id;
        }
      }
    }
  }

  lemma ActionKeeps(w: World, i: int, d: Client)
    requires WorldOk(w) && i in w.emitters && ClientOk(d) && Acts(ClientAt(w, i), d) && QuestionsOk(d.e, d.io.replies)
    ensures WorldOk(With(w, i, d))
  {
    hide IoOk, EmitterOk, Acts, Apart, HandleOf, QuestionsOk;
    var u, c := With(w, i, d), ClientAt(w, i);
    ActsAnswersNothing(c, d);
    forall j | j in u.emitters && j != i
      ensures EmitterOk(u.emitters[j], d.io) && Apart(u.emitters[j], d.e, d.io) && Apart(d.e, u.emitters[j], d.io)
      ensures HandleOf(u.emitters[j], d.io) == HandleOf(u.emitters[j], c.io)
    {
      OthersKeep(w.emitters[j], c, d);
      ApartBack(u.emitters[j], d.e, d.io);
    }
    forall j, k | j in u.emitters && k in u.emitters && j != k
      ensures Apart(u.emitters[j], u.emitters[k], d.io)
    {
      if j != i && k != i {
        StillApart(u.emitters[j], u.emitters[k], c.io, d.io);
      }
    }
    forall h | h in u.closedLog
      ensures ClosedOk(u, h)
    {
      assert ClosedOk(w, h);
      ClosedStays(c, d, h);
    }
  }

  lemma ActsAnswersNothing(c: Client, d: Client)
    requires Acts(c, d)
    ensures d.io.replies == c.io.replies && d.io.events == c.io.events
  {
    hide Ids, Queue;
  }

  lemma ApartBack(a: Emitter, b: Emitter, io: Io)
    requires Apart(a, b, io)
    ensures Apart(b, a, io)
  {
  }

  lemma StillApart(a: Emitter, b: Emitter, io: Io, io': Io)
    requires Apart(a, b, io) && HandleOf(a, io') == HandleOf(a, io) && HandleOf(b, io') == HandleOf(b, io)
    ensures Apart(a, b, io')
  {
  }

  lemma ClosedStays(c: Client, d: Client, h: int)
    requires ClientOk(c) && Acts(c, d) && h in c.io.sentLog && HandleOf(c.e, c.io) != h
    ensures h in d.io.sentLog && d.io.sentLog[h] == c.io.sentLog[h] && HandleOf(d.e, d.io) != h
  {
    hide Ids, Queue, InOrder, EventsOk, KindsOk, IdsOk;
    assert h > 0;
  }

  lemma FlushIsOk(w: World)
    requires WorldOk(w)
    ensures WorldOk(w.(io := FlushBatchedMessages(w.io)))
  {
    hide Ids, Queue, FlushBatchedMessages, IoOk;
    FlushKeeps(w.io, {}, 0);
    QueueOfFlush(w.io);
    AllStay(w, FlushBatchedMessages(w.io));
  }

  lemma DequeueIsOk(w: World)
    requires WorldOk(w)
    ensures WorldOk(w.(io := DequeueAll(w.io)))
  {
    hide Ids, Queue, DequeueAll, IoOk;
    DequeueKeeps(w.io, {}, 0);
    AllStay(w, DequeueAll(w.io));
  }

  lemma QueueOfFlush(io: Io)
    ensures FlushBatchedMessages(io).replies == io.replies
  {
  }

  /** Moving messages along without new ones. */
  lemma AllStay(w: World, io: Io)
    requires WorldOk(w) && IoOk(io) && Moves(w.io, io, {}, 0)
    ensures WorldOk(w.(io := io))
  {
    hide IoOk, EmitterOk, Moves, QuestionsOk;
    var u := w.(io := io);
    forall i | i in u.emitters
      ensures EmitterOk(u.emitters[i], io) && HandleOf(u.emitters[i], io) == HandleOf(u.emitters[i], w.io)
    {
      MovedKeeps(w.emitters[i], w.io, io);
    }
    MovedAnswersNothing(w.io, io);
    forall h | h in u.closedLog
      ensures ClosedOk(u, h)
    {
      assert ClosedOk(w, h);
      MovedSendsNothing(w.io, io, h);
    }
  }

  lemma MovedKeeps(e: Emitter, io: Io, io': Io)
    requires IoOk(io) && EmitterOk(e, io) && IoOk(io') && Moves(io, io', {}, 0)
    ensures EmitterOk(e, io') && HandleOf(e, io') == HandleOf(e, io)
  {
    hide Ids, Queue, InOrder, EventsOk, KindsOk;
  }

  lemma MovedAnswersNothing(io: Io, io': Io)
    requires Moves(io, io', {}, 0)
    ensures io'.replies == io.replies
  {
    hide Ids, Queue;
  }

  lemma MovedSendsNothing(io: Io, io': Io, h: int)
    requires IoOk(io) && Moves(io, io', {}, 0) && h in io.sentLog
    ensures h in io'.sentLog && io'.sentLog[h] == io.sentLog[h]
  {
    hide Ids, Queue, InOrder, EventsOk, KindsOk, IdsOk;
  }

  /** A step of the thread, as the emitters see it. */
  lemma ThreadKeeps(w: World, io: Io)
    requires WorldOk(w) && IoOk(io) && Handles(w.io, io)
    ensures WorldOk(w.(io := io))
  {
    hide IoOk, EmitterOk, Apart, HandleOf, ClosedOk, QuestionsOk, Handles;
    var u := w.(io := io);
    forall i | i in u.emitters
      ensures EmitterOk(u.emitters[i], io) && QuestionsOk(u.emitters[i], io.replies)
    {
      ThreadKeepsEmitter(w.emitters[i], w.io, io);
      HandlesAnswers(w.io, io);
      AnswersKeepQuestions(w.emitters[i], w.io.replies, io.replies);
    }
    forall i, j | i in u.emitters && j in u.emitters && i != j
      ensures Apart(u.emitters[i], u.emitters[j], io)
    {
      ThreadKeepsApart(w.emitters[i], w.emitters[j], w.io, io);
    }
    forall h | h in u.closedLog
      ensures ClosedOk(u, h)
    {
      ThreadKeepsClosed(w, io, h);
    }
  }

  lemma HandlesAnswers(io: Io, io': Io)
    requires Handles(io, io')
    ensures io.replies.Keys <= io'.replies.Keys
  {
    hide Ids, Queue;
  }

  lemma ThreadKeepsEmitter(e: Emitter, io: Io, io': Io)
    requires IoOk(io) && EmitterOk(e, io) && IoOk(io') && Handles(io, io')
    ensures EmitterOk(e, io')
  {
    hide Ids, Queue, InOrder, EventsOk, HandlesOk;
  }

  /** Which handles an emitter can have after a step of the thread. */
  lemma ThreadKeepsHandle(e: Emitter, io: Io, io': Io)
    requires IoOk(io) && EmitterOk(e, io) && IoOk(io') && Handles(io, io')
    ensures var h, h' := HandleOf(e, io), HandleOf(e, io');
            && (h != 0 ==> h in io.sentLog && h' == h)
            && (h == 0 && h' != 0 ==>
                 && h' !in io.sentLog && e.pendingCreate.Some?
                 && e.pendingCreate.value in io'.replies && io'.replies[e.pendingCreate.value] == Handle(h'))
  {
    hide Ids, Queue, InOrder, EventsOk, IdsOk, KindsOk;
  }

  lemma ThreadKeepsApart(a: Emitter, b: Emitter, io: Io, io': Io)
    requires IoOk(io) && EmitterOk(a, io) && EmitterOk(b, io) && IoOk(io') && Handles(io, io') && Apart(a, b, io)
    ensures Apart(a, b, io')
  {
    hide Ids, Queue, InOrder, EventsOk, IdsOk, KindsOk, HandleOf, EmitterOk, Handles;
    ThreadKeepsHandle(a, io, io');
    ThreadKeepsHandle(b, io, io');
    if a.pendingCreate.Some? && b.pendingCreate.Some? {
      assert a.pendingCreate.value in Claims(a) && b.pendingCreate.value in Claims(b);
    }
  }

  lemma ThreadKeepsClosed(w: World, io: Io, h: int)
    requires WorldOk(w) && IoOk(io) && Handles(w.io, io) && h in w.closedLog
    ensures ClosedOk(w.(io := io), h)
  {
    hide IoOk, EmitterOk, HandleOf, Apart;
    assert ClosedOk(w, h);
    forall i | i in w.emitters
      ensures HandleOf(w.emitters[i], io) != h
    {
      ThreadKeepsHandle(w.emitters[i], w.io, io);
      HandlesArePositive(w.io, h);
    }
  }

  lemma HandlesArePositive(io: Io, h: int)
    requires IoOk(io) && h in io.sentLog
    ensures h > 0
  {
  }

  lemma DiscardIsOk(w: World, i: int)
    requires WorldOk(w) && Enabled(w, DiscardEmitter(i))
    ensures WorldOk(Step(w, DiscardEmitter(i)))
  {
    hide IoOk, EmitterOk, HandleOf, Apart, Acts, Discard, DiscardIsLast, QuestionsOk;
    var c := ClientAt(w, i);
    DiscardSendsAll(c);
    NoQuestions(Discard(c).io.replies);
    var d, h := Discard(c), HandleOf(c.e, c.io);
    var u := With(w, i, d);
    ActionKeeps(w, i, d);
    forall j | j in u.emitters
      ensures HandleOf(u.emitters[j], d.io) != h
    {
      HandlesArePositive(d.io, h);
      BlankHasNoHandle(d.io);
      if j != i {
        OthersKeep(w.emitters[j], c, d);
        OthersHaveOtherHandles(w.emitters[j], c.e, c.io);
      }
    }
    LogEndsWithDiscard(c);
    var v := Step(w, DiscardEmitter(i));
    assert v == u.(closedLog := w.closedLog[h := d.io.sentLog[h]]);
    forall k | k in v.closedLog
      ensures ClosedOk(v, k)
    {
      if k != h {
        assert ClosedOk(u, k);
      }
    }
  }

  lemma BlankHasNoHandle(io: Io)
    ensures HandleOf(BLANK, io) == 0
  {
  }

  lemma OthersHaveOtherHandles(a: Emitter, b: Emitter, io: Io)
    requires Apart(a, b, io)
    ensures HandleOf(a, io) == HandleOf(b, io) ==> HandleOf(a, io) == 0
  {
  }

  lemma LogEndsWithDiscard(c: Client)
    requires ClientOk(c) && c.e.registered
    ensures forall h, id :: DiscardIsLast(AllAddressed(c.e.issuedLog, h) + [Message(id, EventDiscard, h)])
  {
    hide IoOk, Unused, WaitingOk, AttachedOk;
  }

  lemma SetupAsksNothing(c: Client)
    requires ClientOk(c) && !c.e.registered
    ensures QuestionsOk(Setup(c).e, Setup(c).io.replies)
  {
    hide IoOk;
  }

  lemma OnFrameQuestions(c: Client)
    requires ClientOk(c) && c.e.registered && QuestionsOk(c.e, c.io.replies)
    ensures CanValidate(c) && CanRead(c) && QuestionsOk(OnFrame(c).e, OnFrame(c).io.replies)
  {
    hide IoOk, EmitterOk, HandleOf, Acts, OnFrame, DecidedBetween, ClientOk;
    OnFrameKeeps(c);
    ActsAnswersNothing(c, OnFrame(c));
    if OnFrame(c).e.issuedLog != c.e.issuedLog {
      QuestionKeepsQuestions(c.e, OnFrame(c).e, Message(c.io.nextId, EventUpdateState, 0), c.io.replies);
    }
  }

  // ----- runs

  /** Whatever the two threads do next, the world stays in order. */
  lemma StepKeeps(w: World, a: Action)
    requires WorldOk(w) && Enabled(w, a)
    ensures WorldOk(Step(w, a))
  {
    hide IoOk, EmitterOk, HandleOf, Apart, Acts, ClosedOk, Handles, Setup, Decide, Adjust, OnFrame, Discard, WorldOk,
         QuestionsOk;
    WorldGives(w);
    match a {
      case SetupEmitter(i) =>
        ClientIsOk(w, i);
        SetupKeeps(ClientAt(w, i));
        SetupAsksNothing(ClientAt(w, i));
        ActionKeeps(w, i, Setup(ClientAt(w, i)));
      case DecideEmitter(i, k) =>
        ClientIsOk(w, i);
        DecideKeeps(ClientAt(w, i), k);
        ActsAnswersNothing(ClientAt(w, i), Decide(ClientAt(w, i), k));
        CallKeepsQuestions(w.emitters[i], Decide(ClientAt(w, i), k).e, Message(w.io.nextId, k, 0), w.io.replies);
        ActionKeeps(w, i, Decide(ClientAt(w, i), k));
      case AdjustEmitter(i, k) =>
        ClientIsOk(w, i);
        AdjustKeeps(ClientAt(w, i), k);
        ActsAnswersNothing(ClientAt(w, i), Adjust(ClientAt(w, i), k));
        CallKeepsQuestions(w.emitters[i], Adjust(ClientAt(w, i), k).e, Message(w.io.nextId, k, 0), w.io.replies);
        ActionKeeps(w, i, Adjust(ClientAt(w, i), k));
      case EmitterOnFrame(i) =>
        ClientIsOk(w, i);
        OnFrameKeeps(ClientAt(w, i));
        OnFrameQuestions(ClientAt(w, i));
        ActionKeeps(w, i, OnFrame(ClientAt(w, i)));
      case DiscardEmitter(i) => DiscardIsOk(w, i);
      case Flush => FlushIsOk(w);
      case ThreadDequeues => DequeueIsOk(w);
      case ThreadHandles(provided) =>
        HandleNextKeeps(w.io, provided);
        ThreadKeeps(w, HandleNext(w.io, provided));
      case SoundEnded(h) =>
        SoundEndsKeeps(w.io, h);
        ThreadKeeps(w, SoundEnds(w.io, h));
      case VoicesWereStolen(h) =>
        VoicesStolenKeeps(w.io, h);
        ThreadKeeps(w, VoicesStolen(w.io, h));
    }
  }

  lemma WorldGives(w: World)
    requires WorldOk(w)
    ensures IoOk(w.io)
  {
  }

  lemma ClientIsOk(w: World, i: int)
    requires WorldOk(w) && i in w.emitters
    ensures ClientOk(ClientAt(w, i)) && QuestionsOk(w.emitters[i], w.io.replies)
  {
    hide IoOk, EmitterOk;
  }

  /** The world after some actions; None if one of them was not enabled. */
  ghost function Steps(w: World, actions: seq<Action>): (u: Option<World>)
    requires WorldOk(w)
    ensures u.Some? ==> WorldOk(u.value)
    decreases |actions|
  {
    hide Step, WorldOk;
    if actions == [] then Some(w) else
      match Steps(w, actions[..|actions| - 1])
      case None => None
      case Some(u) =>
        if Enabled(u, actions[|actions| - 1]) then
          StepKeeps(u, actions[|actions| - 1]);
          Some(Step(u, actions[|actions| - 1]))
        else None
  }

  /** One more action. */
  lemma StepsMore(w: World, actions: seq<Action>, a: Action)
    requires WorldOk(w) && Steps(w, actions).Some? && Enabled(Steps(w, actions).value, a)
    ensures Steps(w, actions + [a]) == Some(Step(Steps(w, actions).value, a))
  {
    assert (actions + [a])[..|actions|] == actions;
  }

  /** A run starts with emitters that have not been set up, and nothing sent. */
  ghost function Run(emitters: set<int>, actions: seq<Action>): (w: Option<World>)
    ensures w.Some? ==> WorldOk(w.value)
  {
    hide WorldOk;
    StartIsOk(emitters);
    Steps(Begin(emitters), actions)
  }

  function Begin(emitters: set<int>): World {
    World(map i | i in emitters :: BLANK, START, map[])
  }

  lemma StartIsOk(emitters: set<int>)
    ensures WorldOk(Begin(emitters))
  {
    assert Queue(START) == [];
  }

  /** Main result on order. In any run, what an emitter has issued is what was sent to its
      event, in that order and with the event's handle, followed by what is pending; and of
      what was sent, the audio thread has handled a first part, and the rest is on its way
      in order. */
  lemma NothingLostOrReordered(emitters: set<int>, actions: seq<Action>, i: int)
    requires Run(emitters, actions).Some? && i in emitters
    ensures var w := Run(emitters, actions).value;
            && i in w.emitters
            && var e := w.emitters[i];
            && (forall j, k :: 0 <= j < k < |e.issuedLog| ==> e.issuedLog[j].id < e.issuedLog[k].id)
            && (e.registered && e.handle == 0 ==> e.pendingMessages == e.issuedLog)
            && (e.registered && e.handle != 0 ==>
                 && e.pendingMessages == [] && e.handle in w.io.events
                 && AllAddressed(e.issuedLog, e.handle)
                    == w.io.events[e.handle].handledLog + For(e.handle, Queue(w.io)))
  {
    hide Ids, Queue, IdsOk, KindsOk, EventsOk, Apart, ClosedOk, Run;
    SameEmitters(emitters, actions);
    var w := Run(emitters, actions).value;
    assert EmitterOk(w.emitters[i], w.io);
  }

  lemma SameEmitters(emitters: set<int>, actions: seq<Action>)
    requires Run(emitters, actions).Some?
    ensures Run(emitters, actions).value.emitters.Keys == emitters
  {
    hide Steps, WorldOk;
    StartIsOk(emitters);
    EmittersStay(Begin(emitters), actions);
  }

  lemma {:induction false} EmittersStay(w: World, actions: seq<Action>)
    requires WorldOk(w) && Steps(w, actions).Some?
    ensures Steps(w, actions).value.emitters.Keys == w.emitters.Keys
    decreases |actions|
  {
    hide WorldOk, Setup, Decide, Adjust, OnFrame, Discard, HandleNext, FlushBatchedMessages, DequeueAll;
    if actions != [] {
      EmittersStay(w, actions[..|actions| - 1]);
    }
  }

  /** Main result on discarding. In any run, an event whose emitter was discarded is sent
      EventDiscard once, behind everything else, and nothing afterwards. */
  lemma DiscardComesLast(emitters: set<int>, actions: seq<Action>, h: int)
    requires Run(emitters, actions).Some? && h in Run(emitters, actions).value.closedLog
    ensures var w := Run(emitters, actions).value;
            && h in w.io.events
            && w.closedLog[h] == w.io.events[h].handledLog + For(h, Queue(w.io))
            && DiscardIsLast(w.closedLog[h])
  {
    hide Ids, Queue, IdsOk, KindsOk, EventsOk, Apart, EmitterOk, Run, DiscardIsLast;
    var w := Run(emitters, actions).value;
    assert ClosedOk(w, h);
  }

  /** Main result on reading back. In any run, when OnFrame finds the answer to its last
      question, the playing bit it copies agrees with the last decision issued before,
      unless the sound has ended by itself since. */
  lemma NoStaleReadBack(emitters: set<int>, actions: seq<Action>, i: int)
    requires Run(emitters, actions).Some? && i in Run(emitters, actions).value.emitters
    requires Run(emitters, actions).value.emitters[i].registered
    ensures var c := ClientAt(Run(emitters, actions).value, i);
            && CanValidate(c) && CanRead(c)
            && (UpdateAnswered(c) ==>
                 && c.e.handle != 0
                 && (OnFrame(c).e.bits.playing
                     <==> LastStarts(c.e.issuedLog) && !c.io.replies[c.e.pendingUpdate.value].silencedLog))
  {
    hide IoOk, EmitterOk, Run, Validate, SendEventMessage;
    var c := ClientAt(Run(emitters, actions).value, i);
    OnFrameKeeps(c);
    if UpdateAnswered(c) {
      ReadBackIsFresh(c);
      OnFrameReads(c);
    }
  }

  /** An emitter with an answer has its handle, and OnFrame copies the answer. */
  lemma OnFrameReads(c: Client)
    requires ClientOk(c) && c.e.registered && UpdateAnswered(c) && CanValidate(c) && CanRead(c)
    ensures c.e.handle != 0 && OnFrame(c).e.bits == c.io.replies[c.e.pendingUpdate.value].bits
  {
    hide IssuedOk, Unused, Ids, Queue, For;
    HandleIsKnown(c);
  }

  lemma HandleIsKnown(c: Client)
    requires ClientOk(c) && c.e.registered && c.e.pendingUpdate.Some?
    ensures c.e.handle > 0 && c.e.pendingCreate.None?
  {
    hide IssuedOk, Unused, Ids, Queue, For, IdsOk, KindsOk, InOrder, EventsOk;
  }

  /** Main result on questions. In any run, between two questions of an emitter of which
      the first has no answer yet, there was a Play or a Stop; so at most one question is
      unanswered since the last decision, and that is the one whose answer the emitter
      waits for. Before the handle is known there is none. */
  lemma UnansweredQuestions(emitters: set<int>, actions: seq<Action>, i: int)
    requires Run(emitters, actions).Some? && i in Run(emitters, actions).value.emitters
    ensures var w := Run(emitters, actions).value;
            var e := w.emitters[i];
            && (forall j, k :: 0 <= j < k && Unanswered(e.issuedLog, w.io.replies, j)
                               && Unanswered(e.issuedLog, w.io.replies, k) ==>
                 DecidedBetween(e.issuedLog, j, k))
            && (forall j :: Unanswered(e.issuedLog, w.io.replies, j) ==>
                 (e.pendingUpdate == Some(e.issuedLog[j].id) <==> !DecidedBetween(e.issuedLog, j, |e.issuedLog|)))
            && (e.handle == 0 ==> forall j :: !Unanswered(e.issuedLog, w.io.replies, j))
  {
    hide IoOk, EmitterOk, Run, DecidedBetween, Apart, ClosedOk;
    var w := Run(emitters, actions).value;
    var e := w.emitters[i];
    assert QuestionsOk(e, w.io.replies);
    forall j | Unanswered(e.issuedLog, w.io.replies, j)
      ensures e.pendingUpdate == Some(e.issuedLog[j].id) ==> !DecidedBetween(e.issuedLog, j, |e.issuedLog|)
    {
      if e.pendingUpdate == Some(e.issuedLog[j].id) {
        PendingIsUndecided(e, w.io, j);
      }
    }
  }

  lemma PendingIsUndecided(e: Emitter, io: Io, j: nat)
    requires EmitterOk(e, io) && j < |e.issuedLog| && e.pendingUpdate == Some(e.issuedLog[j].id)
    ensures !DecidedBetween(e.issuedLog, j, |e.issuedLog|)
  {
    hide Unused;
    var k :| AsksAt(e.issuedLog, k, e.pendingUpdate.value);
    assert k == j;
  }

  /** So if nothing was decided since the oldest unanswered question, it is the only one. */
  lemma OneUnanswered(emitters: set<int>, actions: seq<Action>, i: int, j: int, k: int)
    requires Run(emitters, actions).Some? && i in Run(emitters, actions).value.emitters
    requires var w := Run(emitters, actions).value;
             var issued := w.emitters[i].issuedLog;
             && Unanswered(issued, w.io.replies, j) && Unanswered(issued, w.io.replies, k)
             && j <= k && !DecidedBetween(issued, j, |issued|)
    ensures j == k
  {
    hide Run;
    UnansweredQuestions(emitters, actions, i);
  }

  // ----- pausing

  /** The answer to the pending question, if there is one, will know about every Pause and
      Resume that was issued. */
  predicate PauseKnown(e: Emitter) {
    e.pendingUpdate.Some? ==> !PausedSince(e.issuedLog, e.pendingUpdate.value)
  }

  lemma {:induction false} PauseKnownMeans(issued: seq<Message>, u: nat)
    requires !PausedSince(issued, u) && exists i :: 0 <= i < |issued| && issued[i].id == u && !Pauses(issued[i].kind)
    requires forall j, k :: 0 <= j < k < |issued| ==> issued[j].id < issued[k].id
    ensures LastPauses(BeforeQuestion(issued, u)) == LastPauses(issued)
  {
    var n := |issued| - 1;
    if issued[n].id != u {
      assert forall j :: 0 <= j < n ==> issued[..n][j] == issued[j];
      PauseKnownMeans(issued[..n], u);
    }
  }

  /** Main result on pausing. In any run, the paused bit that OnFrame copies says what the
      last Pause or Resume before the question said. As long as the event obeyed, it agrees
      with the last Pause or Resume issued exactly if that is the same; and it is the same
      if none was issued after the question. */
  lemma PausedReadBack(emitters: set<int>, actions: seq<Action>, i: int)
    requires Run(emitters, actions).Some? && i in Run(emitters, actions).value.emitters
    requires Run(emitters, actions).value.emitters[i].registered
             && UpdateAnswered(ClientAt(Run(emitters, actions).value, i))
    ensures var c := ClientAt(Run(emitters, actions).value, i);
            && CanValidate(c) && CanRead(c)
            && var u, paused := c.e.pendingUpdate.value, OnFrame(c).e.bits.paused;
            && (paused <==> LastPauses(BeforeQuestion(c.e.issuedLog, u)) && !c.io.replies[u].unpausedLog)
            && (!c.io.replies[u].unpausedLog ==>
                 (paused == LastPauses(c.e.issuedLog)
                  <==> LastPauses(BeforeQuestion(c.e.issuedLog, u)) == LastPauses(c.e.issuedLog)))
            && (PauseKnown(c.e) ==> LastPauses(BeforeQuestion(c.e.issuedLog, u)) == LastPauses(c.e.issuedLog))
  {
    hide IoOk, Run, Validate, SendEventMessage, PausedSince, BeforeQuestion, LastPauses, HandleOf;
    var c := ClientAt(Run(emitters, actions).value, i);
    OnFrameKeeps(c);
    ReadBackIsFresh(c);
    OnFrameReads(c);
    var k :| AsksAt(c.e.issuedLog, k, c.e.pendingUpdate.value);
    if PauseKnown(c.e) {
      PauseKnownMeans(c.e.issuedLog, c.e.pendingUpdate.value);
    }
  }

  /** What the caller of Pause and Resume can check: the next answer knows about the call
      exactly if no question is pending at the call. */
  lemma PauseIsKnownIff(c: Client, k: Kind)
    requires ClientOk(c) && c.e.registered && Pauses(k)
    ensures CanValidate(c) && (PauseKnown(Adjust(c, k).e) <==> c.e.pendingUpdate.None?)
  {
    hide IoOk, SendEventMessage, HandleOf;
    AdjustKeeps(c, k);
    if c.e.pendingUpdate.Some? {
      PendingIsOld(c);
      var issued := Adjust(c, k).e.issuedLog;
      assert issued[|issued| - 1] == Message(c.io.nextId, k, 0);
    }
  }

  lemma PendingIsOld(c: Client)
    requires ClientOk(c) && c.e.registered && c.e.pendingUpdate.Some?
    ensures c.e.pendingUpdate.value < c.io.nextId
  {
    hide IoOk, Unused;
    var i :| AsksAt(c.e.issuedLog, i, c.e.pendingUpdate.value);
  }
}
