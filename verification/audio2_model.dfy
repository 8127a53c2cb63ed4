/** The audio client protocol as a transition system. The main thread creates events, sends
    control messages to them in batches, and reads their state back; the audio thread works
    through what arrives. Names of the history variables end in "Log". */
module Audio2Model {
  import opened Wrappers

  datatype Kind =
    | EventPlay | EventPlayProgrammerSound | EventStop | EventPause | EventResume
    | EventUpdate3D | EventSetParameter | EventSetVolume
    | EventUpdateState | EventDiscard

  predicate Starts(k: Kind) { k.EventPlay? || k.EventPlayProgrammerSound? }

  /** Whether the message decides if the event is playing. */
  predicate Decides(k: Kind) { Starts(k) || k.EventStop? || k.EventDiscard? }

  /** A control message; the handle is 0 until it is known. Every message object has its
      own id. */
  datatype Message = Message(id: nat, kind: Kind, handle: int)

  /** Whether the message decides if the event is paused. */
  predicate Pauses(k: Kind) { k.EventPause? || k.EventResume? }

  /** What the audio thread handles one at a time. */
  datatype Item = EventCreate(id: nat) | Control(msg: Message)

  /** What the queue of the audio thread holds. */
  datatype Packet = Single(item: Item) | BatchMessage(msgs: seq<Message>)

  /** The state bits of an event. */
  datatype Bits = Bits(playing: bool, paused: bool, stolen: bool)

  const UNKNOWN := Bits(false, false, false)

  datatype Reply = Handle(handle: int) | State(bits: Bits, silencedLog: bool, unpausedLog: bool) | Done

  /** An event on the audio thread, the messages it has handled, whether its sound has ended
      by itself since the last message that decided about playing, and whether the last
      pause was ignored or undone because its voices were stolen. */
  datatype Event = Event(bits: Bits, handledLog: seq<Message>, silencedLog: bool, unpausedLog: bool)

  const NEW_EVENT := Event(UNKNOWN, [], false, false)

  /** The interface between the threads, and the audio thread behind it. */
  datatype Io = Io(
    batch: seq<Message>,
    inbox: seq<Packet>,
    work: seq<Item>,
    replies: map<nat, Reply>,
    events: map<int, Event>,
    nextId: nat,
    nextHandle: int,
    sentLog: map<int, seq<Message>>,
    createLog: set<nat>)

  datatype Emitter = Emitter(
    registered: bool,
    bits: Bits,
    handle: int,
    pendingCreate: Option<nat>,
    pendingMessages: seq<Message>,
    pendingUpdate: Option<nat>,
    issuedLog: seq<Message>)

  const BLANK := Emitter(false, UNKNOWN, 0, None, [], None, [])
  const START := Io([], [], [], map[], map[], 0, 1, map[], {})

  // ----- the interface

  function Send(io: Io, p: Packet): Io {
    io.(inbox := io.inbox + [p])
  }

  /** SendBatchedInternal. */
  function SendBatched(io: Io, m: Message): Io {
    io.(batch := io.batch + [m],
        sentLog := io.sentLog[m.handle := (if m.handle in io.sentLog then io.sentLog[m.handle] else []) + [m]])
  }

  function FlushBatchedMessages(io: Io): Io {
    Send(io, BatchMessage(io.batch)).(batch := [])
  }

  /** CancelMessage: only a message that is in the queue by itself can be found there. */
  function EraseMatching(inbox: seq<Packet>, id: nat): seq<Packet> {
    if inbox == [] then []
    else if inbox[0].Single? && inbox[0].item.EventCreate? && inbox[0].item.id == id then EraseMatching(inbox[1..], id)
    else [inbox[0]] + EraseMatching(inbox[1..], id)
  }

  function Cancel(io: Io, id: nat): Io {
    io.(inbox := EraseMatching(io.inbox, id))
  }

  // ----- the audio thread

  function Controls(msgs: seq<Message>): (items: seq<Item>)
    ensures |items| == |msgs|
  {
    seq(|msgs|, i requires 0 <= i < |msgs| => Control(msgs[i]))
  }

  function Flatten(inbox: seq<Packet>): seq<Item> {
    if inbox == [] then []
    else Flatten(inbox[..|inbox| - 1]) + Unpack(inbox[|inbox| - 1])
  }

  function Unpack(p: Packet): seq<Item> {
    match p
    case Single(item) => [item]
    case BatchMessage(msgs) => Controls(msgs)
  }

  /** The thread takes everything that is in its queue. */
  function DequeueAll(io: Io): Io {
    if io.work == [] then io.(work := Flatten(io.inbox), inbox := []) else io
  }

  /** What a message does to the event. An event whose voices were stolen gets them back by
      Play if FMOD provides them, and ignores the other calls. */
  function Applied(b: Bits, k: Kind, provided: bool): Bits {
    match k
    case EventPlay => if b.stolen && !provided then b else b.(stolen := false, playing := true)
    case EventPlayProgrammerSound => if b.stolen && !provided then b else b.(stolen := false, playing := true)
    case EventStop => if b.playing && !b.stolen then b.(playing := false) else b
    case EventDiscard => if b.playing && !b.stolen then b.(playing := false) else b
    case EventPause => if b.stolen then b else b.(paused := true)
    case EventResume => if b.stolen then b else b.(paused := false)
    case _ => b
  }

  function Silenced(e: Event, k: Kind, provided: bool): bool {
    if Starts(k) then e.bits.stolen && !provided else if Decides(k) then false else e.silencedLog
  }

  function Unpaused(e: Event, k: Kind): bool {
    if k.EventPause? then e.bits.stolen else e.unpausedLog
  }

  function AnswerTo(k: Kind, bits: Bits, silenced: bool, unpaused: bool): Reply {
    if k.EventUpdateState? then State(bits, silenced, unpaused) else Done
  }

  /** The thread handles the next message. */
  function HandleNext(io: Io, provided: bool): Io
    requires io.work != [] && (io.work[0].Control? ==> io.work[0].msg.handle in io.events)
  {
    var rest := io.(work := io.work[1..]);
    match io.work[0]
    case EventCreate(id) =>
      var h := io.nextHandle;
      rest.(events := io.events[h := NEW_EVENT], replies := io.replies[id := Handle(h)],
            nextHandle := h + 1, sentLog := io.sentLog[h := []])
    case Control(m) =>
      var e := io.events[m.handle];
      var bits := Applied(e.bits, m.kind, provided);
      var silenced, unpaused := Silenced(e, m.kind, provided), Unpaused(e, m.kind);
      rest.(events := io.events[m.handle := Event(bits, e.handledLog + [m], silenced, unpaused)],
            replies := io.replies[m.id := AnswerTo(m.kind, bits, silenced, unpaused)])
  }

  /** The sound has come to its end. */
  function SoundEnds(io: Io, h: int): Io
    requires h in io.events
  {
    io.(events := io.events[h := io.events[h].(bits := io.events[h].bits.(playing := false), silencedLog := true)])
  }

  function VoicesStolen(io: Io, h: int): Io
    requires h in io.events
  {
    var bits := Bits(false, false, true);
    io.(events := io.events[h := io.events[h].(bits := bits, silencedLog := true, unpausedLog := true)])
  }

  // ----- the emitter

  /** An emitter together with the interface it uses. */
  datatype Client = Client(e: Emitter, io: Io)

  /** Setup and SetEventId. */
  function Setup(c: Client): Client {
    var id := c.io.nextId;
    Client(c.e.(registered := true, pendingCreate := Some(id)),
           Send(c.io, Single(EventCreate(id))).(nextId := id + 1, createLog := c.io.createLog + {id}))
  }

  function Addressed(m: Message, h: int): Message { m.(handle := h) }

  function AllAddressed(msgs: seq<Message>, h: int): (s: seq<Message>)
    ensures |s| == |msgs|
  {
    seq(|msgs|, i requires 0 <= i < |msgs| => Addressed(msgs[i], h))
  }

  /** The first n messages go to the event, in order. */
  function SendAll(io: Io, msgs: seq<Message>, h: int, n: nat): (io': Io)
    requires n <= |msgs|
    ensures io' == io.(batch := io'.batch, sentLog := io'.sentLog)
  {
    if n == 0 then io else SendBatched(SendAll(io, msgs, h, n - 1), Addressed(msgs[n - 1], h))
  }

  /** The create message has been handled, or there is none. */
  predicate Created(c: Client) {
    c.e.pendingCreate.Some? ==> c.e.pendingCreate.value in c.io.replies
  }

  /** The reply to a create message is a handle. */
  predicate CanValidate(c: Client) {
    c.e.pendingCreate.Some? && Created(c) ==> c.io.replies[c.e.pendingCreate.value].Handle?
  }

  /** ValidateEventHandle(false). */
  function Validate(c: Client): (d: Client)
    requires CanValidate(c)
    ensures d.e.pendingUpdate == c.e.pendingUpdate && d.io.replies == c.io.replies && d.io.nextId == c.io.nextId
    ensures CanValidate(d)
    ensures c.e.pendingCreate.None? ==> d == c
  {
    if c.e.pendingCreate.None? || !Created(c) then c else
    var h := c.io.replies[c.e.pendingCreate.value].handle;
    Client(c.e.(handle := h, pendingCreate := None, pendingMessages := []),
           SendAll(c.io, c.e.pendingMessages, h, |c.e.pendingMessages|))
  }

  /** SendEventMessage: directly, or later when the handle is not known yet. */
  function SendEventMessage(c: Client, k: Kind): (d: Client)
    requires CanValidate(c)
  {
    var m := Message(c.io.nextId, k, 0);
    var v := Validate(Client(c.e.(issuedLog := c.e.issuedLog + [m]), c.io.(nextId := c.io.nextId + 1)));
    if v.e.pendingCreate.Some? then
      Client(v.e.(pendingMessages := v.e.pendingMessages + [m]), v.io)
    else
      Client(v.e, SendBatched(v.io, Addressed(m, v.e.handle)))
  }

  function CancelPendingUpdateMessage(c: Client): Client {
    if c.e.pendingUpdate.None? then c else
    Client(c.e.(pendingUpdate := None),
           if c.e.pendingUpdate.value in c.io.replies then c.io else Cancel(c.io, c.e.pendingUpdate.value))
  }

  /** Play, PlayProgrammerSound and Stop. */
  function Decide(c: Client, k: Kind): Client
    requires CanValidate(c) && Decides(k) && !k.EventDiscard?
  {
    var d := SendEventMessage(c, k);
    CancelPendingUpdateMessage(Client(d.e.(bits := d.e.bits.(playing := Starts(k))), d.io))
  }

  /** Pause, Resume and the setters. */
  function Adjust(c: Client, k: Kind): Client
    requires CanValidate(c) && !Decides(k) && !k.EventUpdateState?
  {
    var d := SendEventMessage(c, k);
    match k
    case EventPause => Client(d.e.(bits := d.e.bits.(paused := true)), d.io)
    case EventResume => Client(d.e.(bits := d.e.bits.(paused := false)), d.io)
    case _ => d
  }

  /** Whether OnFrame finds the answer to its last question. */
  predicate UpdateAnswered(c: Client) {
    c.e.pendingUpdate.Some? && c.e.pendingUpdate.value in c.io.replies
  }

  predicate CanRead(c: Client) {
    UpdateAnswered(c) ==> c.io.replies[c.e.pendingUpdate.value].State?
  }

  /** The state that was asked for is copied, and asked for again. */
  function ReadBack(c: Client): Client
    requires CanRead(c)
  {
    if UpdateAnswered(c) then
      Client(c.e.(bits := c.io.replies[c.e.pendingUpdate.value].bits, pendingUpdate := None), c.io)
    else c
  }

  function OnFrame(c: Client): Client
    requires CanValidate(c) && CanRead(c)
  {
    var v := Validate(c);
    if v.e.handle == 0 then v
    else if v.e.pendingUpdate.Some? && !UpdateAnswered(v) then v
    else
      var r := ReadBack(v);
      SendEventMessage(Client(r.e.(pendingUpdate := Some(r.io.nextId)), r.io), EventUpdateState)
  }

  /** Discard, once the create message has been handled. */
  function Discard(c: Client): Client
    requires CanValidate(c) && Created(c)
  {
    var v := CancelThenValidate(c);
    var m := Message(v.io.nextId, EventDiscard, v.e.handle);
    Client(BLANK, SendBatched(v.io.(nextId := v.io.nextId + 1), m))
  }

  /** The client that Discard puts EventDiscard behind. */
  function CancelThenValidate(c: Client): Client
    requires CanValidate(c)
  {
    var d := CancelPendingUpdateMessage(c);
    if d.e.pendingCreate.Some? then Validate(d) else d
  }
}
