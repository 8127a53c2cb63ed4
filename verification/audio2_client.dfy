/** Audio2Interface, Audio2Emitter and Audio2Server: every method does to the fields what the
    functions of Audio2Model say. */
module Audio2Client {
  import opened Wrappers
  import opened Audio2Model
  import opened Audio2Order
  import opened Audio2Runs

  class Audio2Interface {
    var batchMessage: seq<Message>
    var inbox: seq<Packet>
    var work: seq<Item>
    var replies: map<nat, Reply>
    var events: map<int, Event>
    var nextId: nat
    var nextHandle: int
    ghost var sentLog: map<int, seq<Message>>
    ghost var createLog: set<nat>

    ghost function View(): Io
      reads this
    {
      Io(batchMessage, inbox, work, replies, events, nextId, nextHandle, sentLog, createLog)
    }

    constructor ()
      ensures View() == START
    {
      batchMessage, inbox, work, replies, events, nextId, nextHandle := [], [], [], map[], map[], 0, 1;
      sentLog, createLog := map[], {};
    }

    method NewMessage(k: Kind) returns (m: Message)
      modifies this`nextId
      ensures m == Message(old(nextId), k, 0) && View() == old(View()).(nextId := old(nextId) + 1)
    {
      m := Message(nextId, k, 0);
      nextId := nextId + 1;
    }

    method SendCreate() returns (id: nat)
      modifies this
      ensures id == old(nextId)
      ensures View()
              == Send(old(View()), Single(EventCreate(id))).(nextId := id + 1, createLog := old(createLog) + {id})
    {
      id := nextId;
      nextId := nextId + 1;
      createLog := createLog + {id};
      inbox := inbox + [Single(EventCreate(id))];
    }

    method SendBatched(m: Message)
      modifies this`batchMessage, this`sentLog
      ensures View() == Audio2Model.SendBatched(old(View()), m)
    {
      batchMessage := batchMessage + [m];
      sentLog := sentLog[m.handle := (if m.handle in sentLog then sentLog[m.handle] else []) + [m]];
    }

    method FlushBatchedMessages()
      modifies this`batchMessage, this`inbox
      ensures View() == Audio2Model.FlushBatchedMessages(old(View()))
    {
      inbox := inbox + [BatchMessage(batchMessage)];
      batchMessage := [];
    }

    /** Removes the message from the queue, if it is there by itself. */
    method Cancel(id: nat)
      modifies this`inbox
      ensures View() == Audio2Model.Cancel(old(View()), id)
    {
      var kept: seq<Packet> := [];
      for i := 0 to |inbox|
        invariant kept + EraseMatching(inbox[i..], id) == EraseMatching(inbox, id)
      {
        assert inbox[i..][1..] == inbox[i + 1..];
        if !(inbox[i].Single? && inbox[i].item.EventCreate? && inbox[i].item.id == id) {
          kept := kept + [inbox[i]];
        }
      }
      inbox := kept;
    }

    /** The audio thread takes all packets, and unpacks them. */
    method DequeueAll()
      requires work == []
      modifies this`work, this`inbox
      ensures View() == Audio2Model.DequeueAll(old(View()))
    {
      for i := 0 to |inbox|
        invariant inbox == old(inbox) && work == Flatten(inbox[..i])
      {
        FlattenMore(inbox[..i], inbox[i]);
        assert inbox[..i + 1] == inbox[..i] + [inbox[i]];
        match inbox[i] {
          case Single(item) => work := work + [item];
          case BatchMessage(msgs) => work := work + Controls(msgs);
        }
      }
      assert inbox[..|inbox|] == inbox;
      inbox := [];
    }

    /** The audio thread handles one message. */
    method HandleNext(provided: bool)
      requires work != [] && (work[0].Control? ==> work[0].msg.handle in events)
      modifies this
      ensures View() == Audio2Model.HandleNext(old(View()), provided)
    {
      var item := work[0];
      work := work[1..];
      match item {
        case EventCreate(id) =>
          events := events[nextHandle := NEW_EVENT];
          replies := replies[id := Handle(nextHandle)];
          sentLog := sentLog[nextHandle := []];
          nextHandle := nextHandle + 1;
        case Control(m) =>
          var e := events[m.handle];
          var bits := Applied(e.bits, m.kind, provided);
          var silenced, unpaused := Silenced(e, m.kind, provided), Unpaused(e, m.kind);
          events := events[m.handle := Event(bits, e.handledLog + [m], silenced, unpaused)];
          replies := replies[m.id := AnswerTo(m.kind, bits, silenced, unpaused)];
      }
    }

    /** Blocks until the audio thread has handled the create message, and whatever comes
        before it. */
    method Wait(id: nat)
      requires IoOk(View()) && id in createLog && (id in replies || id in Ids(Queue(View())))
      modifies this
      ensures IoOk(View()) && Handles(old(View()), View()) && id in replies
    {
      hide IoOk, Handles, Queue, Ids, Audio2Model.DequeueAll, Audio2Model.HandleNext;
      DequeueHandles(View());
      while id !in replies
        invariant IoOk(View()) && Handles(old(View()), View())
        invariant id in createLog && (id in replies || id in Ids(Queue(View())))
        decreases |work| + |Flatten(inbox)|, if work == [] then 1 else 0
      {
        ghost var before := View();
        CreateIsAhead(before, id);
        if work == [] {
          DequeueHandles(before);
          DequeueMeasure(before);
          DequeueAll();
        } else {
          var provided: bool := *;
          HandleNextKeeps(before, provided);
          HandleMeasure(before, provided);
          HandleNext(provided);
        }
        HandlesTwice(old(View()), before, View());
        HandlesGives(before, View());
      }
    }
  }

  lemma DequeueMeasure(io: Io)
    requires io.work == []
    ensures Audio2Model.DequeueAll(io).work == Flatten(io.inbox) && Audio2Model.DequeueAll(io).inbox == []
  {
  }

  lemma HandleMeasure(io: Io, provided: bool)
    requires io.work != [] && (io.work[0].Control? ==> io.work[0].msg.handle in io.events)
    ensures var io' := Audio2Model.HandleNext(io, provided);
            io'.work == io.work[1..] && io'.inbox == io.inbox
  {
  }

  lemma HandlesGives(io: Io, io': Io)
    requires Handles(io, io')
    ensures io'.createLog == io.createLog
    ensures forall id :: id in Ids(Queue(io)) ==> id in Ids(Queue(io')) || id in io'.replies
    ensures io.replies.Keys <= io'.replies.Keys
  {
    hide Queue, Ids;
  }

  class Audio2Emitter {
    /** The address of the object, by which the server sorts. */
    const address: int
    const iface: Audio2Interface
    var emitterRegistered: bool
    var state: Bits
    var eventHandle: int
    var pendingCreateEventMessage: Option<nat>
    var pendingMessages: seq<Message>
    var pendingUpdateStateMsg: Option<nat>
    ghost var issuedLog: seq<Message>

    ghost function View(): Emitter
      reads this
    {
      Emitter(emitterRegistered, state, eventHandle, pendingCreateEventMessage, pendingMessages, pendingUpdateStateMsg,
              issuedLog)
    }

    ghost function Both(): Client
      reads this, iface
    {
      Client(View(), iface.View())
    }

    constructor (address: int, iface: Audio2Interface)
      ensures View() == BLANK && this.address == address && this.iface == iface
    {
      this.address, this.iface := address, iface;
      emitterRegistered, state, eventHandle := false, UNKNOWN, 0;
      pendingCreateEventMessage, pendingMessages, pendingUpdateStateMsg, issuedLog := None, [], None, [];
    }

    /** Setup and SetEventId: the event is created on the other thread. The server's list of
        emitters is in Audio2Server. */
    method Setup()
      requires !emitterRegistered && View() == BLANK
      modifies this, iface
      ensures Both() == Audio2Model.Setup(old(Both()))
    {
      emitterRegistered := true;
      var id := iface.SendCreate();
      pendingCreateEventMessage := Some(id);
    }

    /** Reads the handle once it is there, and sends what has been waiting for it; io is the
        interface after the wait, if there was one. */
    method ValidateEventHandle(wait: bool) returns (ghost io: Io)
      requires ClientOk(Both()) && emitterRegistered
      modifies this`eventHandle, this`pendingCreateEventMessage, this`pendingMessages, iface
      ensures Handles(old(iface.View()), io) && (wait || io == old(iface.View()))
      ensures ClientOk(Client(old(View()), io)) && CanValidate(Client(old(View()), io))
      ensures Both() == Validate(Client(old(View()), io))
      ensures wait ==> Created(Client(old(View()), io))
      ensures emitterRegistered
    {
      hide IoOk, Handles, Queue, Ids, EmitterOk, SendAll;
      io := iface.View();
      ValidateKeeps(Both());
      HandlesItself(io);
      if pendingCreateEventMessage.None? {
        return;
      }
      if wait {
        if pendingCreateEventMessage.value !in iface.replies {
          CreateIsUnderway(View(), io);
          iface.Wait(pendingCreateEventMessage.value);
          ThreadKeepsEmitter(View(), io, iface.View());
          io := iface.View();
          ValidateKeeps(Both());
        }
      } else if pendingCreateEventMessage.value !in iface.replies {
        return;
      }
      ReadHandle();
      SendPending(io);
    }

    method ReadHandle()
      requires pendingCreateEventMessage.Some? && Created(Both()) && CanValidate(Both())
      modifies this`eventHandle, this`pendingCreateEventMessage
      ensures View() == old(View()).(handle := old(iface.replies[pendingCreateEventMessage.value].handle),
                                     pendingCreate := None)
    {
      eventHandle := iface.replies[pendingCreateEventMessage.value].handle;
      pendingCreateEventMessage := None;
    }

    method SendPending(ghost io: Io)
      requires io == iface.View()
      modifies this`pendingMessages, iface`batchMessage, iface`sentLog
      ensures View() == old(View()).(pendingMessages := [])
      ensures iface.View() == SendAll(io, old(pendingMessages), eventHandle, |old(pendingMessages)|)
    {
      for i := 0 to |pendingMessages|
        invariant View() == old(View()) && iface.View() == SendAll(io, pendingMessages, eventHandle, i)
      {
        iface.SendBatched(Addressed(pendingMessages[i], eventHandle));
      }
      pendingMessages := [];
    }

    /** Sends the message directly, or keeps it until the handle is known. */
    method SendEventMessage(k: Kind)
      requires ClientOk(Both()) && emitterRegistered
      modifies this, iface
      ensures CanValidate(old(Both())) && Both() == Audio2Model.SendEventMessage(old(Both()), k)
    {
      hide IoOk, Handles, Queue, Ids, EmitterOk, SendAll, Validate, Audio2Model.SendBatched;
      ValidateKeeps(Both());
      SendIs(Both(), k);
      ghost var io := ValidateEventHandle(false);
      var m := iface.NewMessage(k);
      issuedLog := issuedLog + [m];
      if pendingCreateEventMessage.Some? {
        pendingMessages := pendingMessages + [m];
        return;
      }
      iface.SendBatched(Addressed(m, eventHandle));
    }

    method CancelPendingUpdateMessage()
      modifies this`pendingUpdateStateMsg, iface`inbox
      ensures Both() == Audio2Model.CancelPendingUpdateMessage(old(Both()))
    {
      if pendingUpdateStateMsg.None? {
        return;
      }
      if pendingUpdateStateMsg.value !in iface.replies {
        iface.Cancel(pendingUpdateStateMsg.value);
      }
      pendingUpdateStateMsg := None;
    }

    /** Play, PlayProgrammerSound and Stop. */
    method Decide(k: Kind)
      requires ClientOk(Both()) && emitterRegistered && Decides(k) && !k.EventDiscard?
      modifies this, iface
      ensures CanValidate(old(Both())) && Both() == Audio2Model.Decide(old(Both()), k)
    {
      hide IoOk, EmitterOk, Audio2Model.SendEventMessage, Audio2Model.CancelPendingUpdateMessage;
      SendEventMessage(k);
      state := state.(playing := Starts(k));
      CancelPendingUpdateMessage();
    }

    /** Pause, Resume, Set3DAttributes, SetParameter and SetVolume. */
    method Adjust(k: Kind)
      requires ClientOk(Both()) && emitterRegistered && !Decides(k) && !k.EventUpdateState?
      modifies this, iface
      ensures CanValidate(old(Both())) && Both() == Audio2Model.Adjust(old(Both()), k)
    {
      hide IoOk, EmitterOk, Audio2Model.SendEventMessage;
      SendEventMessage(k);
      match k {
        case EventPause => state := state.(paused := true);
        case EventResume => state := state.(paused := false);
        case _ =>
      }
    }

    /** Reads the state back and asks for it again, once the event exists. */
    method OnFrame()
      requires ClientOk(Both()) && emitterRegistered
      modifies this, iface
      ensures CanValidate(old(Both())) && CanRead(old(Both())) && Both() == Audio2Model.OnFrame(old(Both()))
    {
      hide IoOk, EmitterOk, Audio2Model.SendEventMessage, Audio2Model.OnFrame, Validate;
      OnFrameKeeps(Both());
      OnFrameIs(Both());
      ValidateKeeps(Both());
      ghost var io := ValidateEventHandle(false);
      if eventHandle != 0 {
        if pendingUpdateStateMsg.Some? {
          if pendingUpdateStateMsg.value !in iface.replies {
            return;
          }
          ReadBackKeeps(Both());
          state := iface.replies[pendingUpdateStateMsg.value].bits;
          pendingUpdateStateMsg := None;
        }
        AskAgain();
      }
    }

    /** The new question is noted behind its sending; nothing looks at the field between. */
    method AskAgain()
      requires ClientOk(Both()) && emitterRegistered && eventHandle != 0 && pendingUpdateStateMsg.None?
      modifies this, iface
      ensures CanValidate(old(Both())) && Both() == Ask(old(Both()))
    {
      hide IoOk, EmitterOk, Audio2Model.SendBatched, Queue, Ids;
      AskIs(Both());
      var id := iface.nextId;
      SendEventMessage(EventUpdateState);
      pendingUpdateStateMsg := Some(id);
    }

    /** Sends all that was issued and then EventDiscard; io is the interface after the wait,
        if there was one. */
    method Discard() returns (ghost io: Io)
      requires ClientOk(Both()) && emitterRegistered
      modifies this, iface
      ensures Handles(old(iface.View()), io) && ClientOk(Client(old(View()), io))
      ensures Created(Client(old(View()), io)) && CanValidate(Client(old(View()), io))
      ensures Both() == Audio2Model.Discard(Client(old(View()), io))
    {
      hide IoOk, EmitterOk, Audio2Model.SendBatched, Queue, Ids, Validate, Audio2Model.Discard, Handles,
           Audio2Model.CancelPendingUpdateMessage, Created, CanValidate;
      io := iface.View();
      ghost var c := Both();
      HandlesItself(io);
      WaitingHasNoUpdate(c);
      CancelIs(c);
      CancelPendingUpdateMessage();
      if pendingCreateEventMessage.Some? {
        io := ValidateEventHandle(true);
      } else {
        ValidateKeeps(c);
      }
      DiscardIs(Client(c.e, io));
      SendDiscard();
      Reset();
    }

    method SendDiscard()
      modifies iface
      ensures iface.View() == Audio2Model.SendBatched(old(iface.View()).(nextId := old(iface.nextId) + 1),
                                                      Message(old(iface.nextId), EventDiscard, eventHandle))
    {
      var m := iface.NewMessage(EventDiscard);
      iface.SendBatched(Addressed(m, eventHandle));
    }

    method Reset()
      requires pendingCreateEventMessage.None? && pendingUpdateStateMsg.None?
      modifies this
      ensures View() == BLANK
    {
      eventHandle, pendingMessages, state, issuedLog := 0, [], UNKNOWN, [];
      emitterRegistered := false;
    }
  }

  lemma AskIs(c: Client)
    requires ClientOk(c) && c.e.registered && c.e.handle != 0 && c.e.pendingUpdate.None?
    ensures CanValidate(c)
    ensures var d := Audio2Model.SendEventMessage(c, EventUpdateState);
            Ask(c) == Client(d.e.(pendingUpdate := Some(c.io.nextId)), d.io)
  {
    hide IoOk, IssuedOk, Unused;
  }

  lemma WaitingHasNoUpdate(c: Client)
    requires ClientOk(c) && c.e.registered
    ensures c.e.pendingCreate.Some? ==> c.e.pendingUpdate.None?
    ensures c.e.pendingCreate.None? ==> Created(c)
  {
    hide IoOk, IssuedOk, Unused;
  }

  lemma DiscardIs(c: Client)
    requires ClientOk(c) && c.e.registered && CanValidate(c) && Created(c)
    ensures var v := if c.e.pendingCreate.Some? then Validate(c) else Client(c.e.(pendingUpdate := None), c.io);
            && Audio2Model.Discard(c) == Client(BLANK, Audio2Model.SendBatched(v.io.(nextId := v.io.nextId + 1),
                                                         Message(v.io.nextId, EventDiscard, v.e.handle)))
            && v.e.pendingCreate.None? && v.e.pendingUpdate.None?
  {
    hide IoOk, IssuedOk, Unused;
    CancelIs(c);
    ValidateKeeps(c);
  }

  lemma HandlesItself(io: Io)
    requires IoOk(io)
    ensures Handles(io, io)
  {
    DequeueHandles(io);
  }

  lemma CreateIsUnderway(e: Emitter, io: Io)
    requires EmitterOk(e, io) && e.registered && e.pendingCreate.Some?
    ensures e.pendingCreate.value in io.createLog
    ensures e.pendingCreate.value in io.replies || e.pendingCreate.value in Ids(Queue(io))
  {
    hide IssuedOk, Unused, Ids, Queue;
  }
}
