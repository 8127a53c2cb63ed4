/** The state bits of an emitter between two read-backs: they are those of its own calls. */
module Audio2State {
  import opened Wrappers
  import opened Audio2Model
  import opened Audio2Order
  import opened Audio2Runs

  // ----- which calls the bits follow

  predicate IsPlay(m: Message) { m.kind == EventPlay || m.kind == EventPlayProgrammerSound }

  predicate IsStop(m: Message) { m.kind == EventStop || m.kind == EventDiscard }

  predicate IsPauseOrResume(m: Message) { m.kind == EventPause || m.kind == EventResume }

  /** Message i plays, and none behind it plays or stops. */
  predicate StartsAt(log: seq<Message>, i: int) {
    0 <= i < |log| && IsPlay(log[i]) && forall j :: i < j < |log| ==> !IsPlay(log[j]) && !IsStop(log[j])
  }

  /** Message i pauses, and none behind it pauses or resumes. */
  predicate PausesAt(log: seq<Message>, i: int) {
    0 <= i < |log| && log[i].kind == EventPause && forall j :: i < j < |log| ==> !IsPauseOrResume(log[j])
  }

  lemma {:induction false} LastStartsIs(log: seq<Message>)
    ensures LastStarts(log) <==> exists i :: StartsAt(log, i)
  {
    if log != [] {
      var n := |log| - 1;
      LastStartsIs(log[..n]);
      if IsPlay(log[n]) {
        assert StartsAt(log, n);
      } else if !IsStop(log[n]) {
        SameStart(log, log[..n]);
      }
    }
  }

  lemma SameStart(log: seq<Message>, before: seq<Message>)
    requires log != [] && before == log[..|log| - 1] && !IsPlay(log[|log| - 1]) && !IsStop(log[|log| - 1])
    ensures (exists i :: StartsAt(log, i)) <==> exists i :: StartsAt(before, i)
  {
    assert forall j :: 0 <= j < |before| ==> before[j] == log[j];
    assert forall i :: StartsAt(log, i) ==> StartsAt(before, i);
    assert forall i :: StartsAt(before, i) ==> StartsAt(log, i);
  }

  lemma {:induction false} LastPausesIs(log: seq<Message>)
    ensures LastPauses(log) <==> exists i :: PausesAt(log, i)
  {
    if log != [] {
      var n := |log| - 1;
      LastPausesIs(log[..n]);
      if log[n].kind == EventPause {
        assert PausesAt(log, n);
      } else if !IsPauseOrResume(log[n]) {
        SamePause(log, log[..n]);
      }
    }
  }

  lemma SamePause(log: seq<Message>, before: seq<Message>)
    requires log != [] && before == log[..|log| - 1] && !IsPauseOrResume(log[|log| - 1])
    ensures (exists i :: PausesAt(log, i)) <==> exists i :: PausesAt(before, i)
  {
    assert forall j :: 0 <= j < |before| ==> before[j] == log[j];
    assert forall i :: PausesAt(log, i) ==> PausesAt(before, i);
    assert forall i :: PausesAt(before, i) ==> PausesAt(log, i);
  }

  /** What each call does to the bits at once. */
  lemma DecisionsSetBits(c: Client)
    requires ClientOk(c) && c.e.registered
    ensures CanValidate(c)
    ensures Decide(c, EventPlay).e.bits == c.e.bits.(playing := true)
    ensures Decide(c, EventPlayProgrammerSound).e.bits == c.e.bits.(playing := true)
    ensures Decide(c, EventStop).e.bits == c.e.bits.(playing := false)
  {
    hide ClientOk, Acts, Decide;
    DecideKeeps(c, EventPlay);
    DecideKeeps(c, EventPlayProgrammerSound);
    DecideKeeps(c, EventStop);
  }

  lemma AdjustmentsSetBits(c: Client, k: Kind)
    requires ClientOk(c) && c.e.registered && k in {EventUpdate3D, EventSetParameter, EventSetVolume}
    ensures CanValidate(c)
    ensures Adjust(c, EventPause).e.bits == c.e.bits.(paused := true)
    ensures Adjust(c, EventResume).e.bits == c.e.bits.(paused := false)
    ensures Adjust(c, k).e.bits == c.e.bits
  {
    hide ClientOk, Acts, Adjust;
    AdjustKeeps(c, EventPause);
    AdjustKeeps(c, EventResume);
    AdjustKeeps(c, k);
  }

  // ----- runs without a read-back

  /** The emitter copies an answer, is set up, or is discarded. */
  predicate Interrupts(w: World, a: Action, i: int) {
    || a == SetupEmitter(i) || a == DiscardEmitter(i)
    || (a == EmitterOnFrame(i) && i in w.emitters && UpdateAnswered(ClientAt(w, i)))
  }

  /** None of these actions interrupts emitter i. */
  ghost predicate Uninterrupted(w: World, actions: seq<Action>, i: int)
    requires WorldOk(w)
    decreases |actions|
  {
    hide WorldOk, Step, Enabled;
    actions == [] ||
    (var before := actions[..|actions| - 1];
     && Uninterrupted(w, before, i)
     && (Steps(w, before).Some? ==> !Interrupts(Steps(w, before).value, actions[|actions| - 1], i)))
  }

  /** The bits after one more message was issued. */
  function BitsAfter(bits: Bits, m: Message): Bits {
    if IsPlay(m) then bits.(playing := true)
    else if IsStop(m) then bits.(playing := false)
    else if IsPauseOrResume(m) then bits.(paused := m.kind == EventPause)
    else bits
  }

  /** Every step issues at most one message, and the bits follow it. */
  predicate Follows(e: Emitter, d: Emitter) {
    || (d.issuedLog == e.issuedLog && d.bits == e.bits)
    || (d.issuedLog != [] && d.issuedLog[..|d.issuedLog| - 1] == e.issuedLog
        && d.bits == BitsAfter(e.bits, d.issuedLog[|d.issuedLog| - 1]))
  }

  lemma StepFollows(w: World, a: Action, i: int)
    requires WorldOk(w) && Enabled(w, a) && i in w.emitters && !Interrupts(w, a, i)
    ensures i in Step(w, a).emitters && Follows(w.emitters[i], Step(w, a).emitters[i])
  {
    hide IoOk, EmitterOk, Apart, ClosedOk, QuestionsOk, Acts, HandleNext, Setup, Decide, Adjust, OnFrame, Discard;
    if a.DecideEmitter? && a.i == i {
      ClientIsOk(w, i);
      DecideKeeps(ClientAt(w, i), a.k);
    } else if a.AdjustEmitter? && a.i == i {
      ClientIsOk(w, i);
      AdjustKeeps(ClientAt(w, i), a.k);
    } else if a.EmitterOnFrame? && a.i == i {
      ClientIsOk(w, i);
      OnFrameKeeps(ClientAt(w, i));
    }
  }

  // ----- the bits at any time

  /** Some message behind the first n plays or stops; some pauses or resumes. */
  predicate DecisionSince(log: seq<Message>, n: nat) {
    exists k :: n <= k < |log| && (IsPlay(log[k]) || IsStop(log[k]))
  }

  predicate PauseSaidSince(log: seq<Message>, n: nat) {
    exists k :: n <= k < |log| && IsPauseOrResume(log[k])
  }

  /** The bits of d come from those of e, and from what was issued since. */
  predicate BitsFollow(e: Emitter, d: Emitter) {
    && e.issuedLog <= d.issuedLog
    && d.bits.stolen == e.bits.stolen
    && d.bits.playing == (if DecisionSince(d.issuedLog, |e.issuedLog|) then LastStarts(d.issuedLog) else e.bits.playing)
    && d.bits.paused == (if PauseSaidSince(d.issuedLog, |e.issuedLog|) then LastPauses(d.issuedLog) else e.bits.paused)
  }

  lemma FollowsOn(a: Emitter, e: Emitter, d: Emitter)
    requires BitsFollow(a, e) && Follows(e, d)
    ensures BitsFollow(a, d)
  {
    if d.issuedLog != e.issuedLog || d.bits != e.bits {
      var n, m := |e.issuedLog|, d.issuedLog[|d.issuedLog| - 1];
      assert d.issuedLog == e.issuedLog + [m];
      MoreSince(e.issuedLog, m, |a.issuedLog|);
    }
  }

  lemma MoreSince(log: seq<Message>, m: Message, n: nat)
    requires n <= |log|
    ensures DecisionSince(log + [m], n) <==> DecisionSince(log, n) || IsPlay(m) || IsStop(m)
    ensures PauseSaidSince(log + [m], n) <==> PauseSaidSince(log, n) || IsPauseOrResume(m)
    ensures LastStarts(log + [m]) == if IsPlay(m) then true else if IsStop(m) then false else LastStarts(log)
    ensures LastPauses(log + [m]) == if IsPauseOrResume(m) then m.kind == EventPause else LastPauses(log)
  {
    var all := log + [m];
    assert all[|log|] == m && all[..|log|] == log;
    assert forall k :: 0 <= k < |log| ==> all[k] == log[k];
  }

  /** Main result on the state bits. From any point of a run on, until the emitter copies an
      answer, its playing bit is what the last Play or Stop since then said, its paused bit
      what the last Pause or Resume since then said, and if there was none, what it was. */
  lemma {:induction false} BitsOfCalls(w: World, actions: seq<Action>, i: int)
    requires WorldOk(w) && Steps(w, actions).Some? && i in w.emitters && Uninterrupted(w, actions, i)
    ensures i in Steps(w, actions).value.emitters && BitsFollow(w.emitters[i], Steps(w, actions).value.emitters[i])
    decreases |actions|
  {
    hide WorldOk, Step, Enabled, BitsFollow, Interrupts, Follows;
    if actions == [] {
      NothingFollows(w.emitters[i]);
    } else {
      var before := actions[..|actions| - 1];
      BitsOfCalls(w, before, i);
      var u := Steps(w, before).value;
      StepFollows(u, actions[|actions| - 1], i);
      FollowsOn(w.emitters[i], u.emitters[i], Steps(w, actions).value.emitters[i]);
    }
  }

  lemma NothingFollows(e: Emitter)
    ensures BitsFollow(e, e)
  {
  }

  /** An emitter that has been set up knows nothing and has issued nothing. */
  lemma SetupIsBlank(w: World, i: int)
    requires WorldOk(w) && Enabled(w, SetupEmitter(i))
    ensures var v := Step(w, SetupEmitter(i));
            i in v.emitters && v.emitters[i].bits == UNKNOWN && v.emitters[i].issuedLog == []
  {
    hide IoOk, Apart, ClosedOk, QuestionsOk;
    assert EmitterOk(w.emitters[i], w.io);
  }

  /** From there until it copies the first answer, it is playing if the last decision issued
      started it, and paused if the last such call was Pause. */
  lemma BitsSinceSetup(w: World, actions: seq<Action>, i: int)
    requires WorldOk(w) && i in w.emitters && w.emitters[i].bits == UNKNOWN && w.emitters[i].issuedLog == []
    requires Steps(w, actions).Some? && Uninterrupted(w, actions, i)
    ensures var u := Steps(w, actions).value;
            && i in u.emitters
            && u.emitters[i].bits.playing == LastStarts(u.emitters[i].issuedLog)
            && u.emitters[i].bits.paused == LastPauses(u.emitters[i].issuedLog)
  {
    hide WorldOk, Steps, Uninterrupted;
    BitsOfCalls(w, actions, i);
    NothingSaid(Steps(w, actions).value.emitters[i].issuedLog);
  }

  lemma NothingSaid(log: seq<Message>)
    ensures !DecisionSince(log, 0) ==> !LastStarts(log)
    ensures !PauseSaidSince(log, 0) ==> !LastPauses(log)
  {
    LastStartsIs(log);
    LastPausesIs(log);
    assert forall i :: StartsAt(log, i) ==> DecisionSince(log, 0);
    assert forall i :: PausesAt(log, i) ==> PauseSaidSince(log, 0);
  }

  // ----- what the audio thread does to an event

  /** Whether the message is ignored: the voices of the event were stolen, and it is not a
      Play for which FMOD gives them back. */
  predicate Ignored(e: Event, m: Message, provided: bool) {
    e.bits.stolen && !(IsPlay(m) && provided)
  }

  /** A message that is not ignored sets its bit, and a question is answered with the bits
      the event has then; the other events stay as they are. */
  lemma HandledEvent(io: Io, provided: bool)
    requires IoOk(io) && io.work != [] && io.work[0].Control?
    ensures io.work[0].msg.handle in io.events
    ensures var m := io.work[0].msg;
            var e, u := io.events[m.handle], HandleNext(io, provided);
            var d := u.events[m.handle];
            && d.handledLog == e.handledLog + [m]
            && d.bits == (if Ignored(e, m, provided) then e.bits
                          else if IsPlay(m) then e.bits.(playing := true, stolen := false)
                          else if IsStop(m) then e.bits.(playing := false)
                          else if IsPauseOrResume(m) then e.bits.(paused := m.kind == EventPause)
                          else e.bits)
            && (m.kind == EventUpdateState ==> u.replies[m.id].State? && u.replies[m.id].bits == d.bits)
            && (forall h :: h in io.events && h != m.handle ==> u.events[h] == io.events[h])
  {
    hide Ids, For, Queue, IdsOk, KindsOk, InOrder, HandlesOk;
    CanHandleNext(io);
    assert EventOk(io, io.events[io.work[0].msg.handle]);
  }

  /** What an event remembers about interference: whether its last decision was ignored, or
      its sound has ended or been stolen since; and the same for pausing. */
  lemma Remembered(io: Io, provided: bool)
    requires IoOk(io) && io.work != [] && io.work[0].Control?
    ensures io.work[0].msg.handle in io.events
    ensures var m := io.work[0].msg;
            var e, d := io.events[m.handle], HandleNext(io, provided).events[m.handle];
            && d.silencedLog == (if IsPlay(m) then Ignored(e, m, provided) else !IsStop(m) && e.silencedLog)
            && d.unpausedLog == (if m.kind == EventPause then Ignored(e, m, provided) else e.unpausedLog)
  {
    hide Ids, For, Queue, IdsOk, KindsOk, InOrder, HandlesOk, EventsOk;
    CanHandleNext(io);
  }

  /** An event whose voices were stolen is silent, and stays so whatever it is told, until a
      Play gets the voices back. */
  lemma StolenStaysSilent(io: Io, h: int, provided: bool)
    requires IoOk(io) && h in io.events && io.work != [] && io.work[0].Control? && io.work[0].msg.handle == h
    ensures var stolen := VoicesStolen(io, h);
            && IoOk(stolen)
            && HandleNext(stolen, provided).events[h].bits
               == if IsPlay(io.work[0].msg) && provided then Bits(true, false, false) else Bits(false, false, true)
  {
    hide IoOk, HandleNext;
    VoicesStolenKeeps(io, h);
    HandledEvent(VoicesStolen(io, h), provided);
  }
}
