/** Runs in which no sound ends by itself and no voices are stolen: the bits that an
    emitter reads back follow from its calls alone. */
module Audio2Undisturbed {
  import opened Wrappers
  import opened Audio2Model
  import opened Audio2Order
  import opened Audio2Runs

  /** FMOD does not interfere. Voices that are not given back are no interference by
      themselves, because only stolen voices are asked for. */
  predicate Calm(a: Action) {
    !a.SoundEnded? && !a.VoicesWereStolen?
  }

  predicate AllCalm(actions: seq<Action>) {
    forall i :: 0 <= i < |actions| ==> Calm(actions[i])
  }

  /** No event has lost its sound or its voices, and no answer says that one had. */
  predicate Undisturbed(io: Io) {
    && (forall h :: h in io.events ==> Obeyed(io.events[h]))
    && (forall id :: id in io.replies && io.replies[id].State? ==>
         !io.replies[id].silencedLog && !io.replies[id].unpausedLog)
  }

  predicate Obeyed(ev: Event) {
    !ev.bits.stolen && !ev.silencedLog && !ev.unpausedLog
  }

  lemma HandlingStaysUndisturbed(io: Io, provided: bool)
    requires Undisturbed(io) && io.work != [] && (io.work[0].Control? ==> io.work[0].msg.handle in io.events)
    ensures Undisturbed(HandleNext(io, provided))
  {
    if io.work[0].Control? {
      var m := io.work[0].msg;
      assert Obeyed(io.events[m.handle]);
      assert Obeyed(HandleNext(io, provided).events[m.handle]);
    }
  }

  lemma SameAnswers(a: Io, b: Io)
    requires Undisturbed(a) && b.events == a.events && b.replies == a.replies
    ensures Undisturbed(b)
  {
  }

  /** Every other step keeps it that way. */
  lemma StepStaysUndisturbed(w: World, a: Action)
    requires WorldOk(w) && Enabled(w, a) && Calm(a) && Undisturbed(w.io)
    ensures Undisturbed(Step(w, a).io)
  {
    hide IoOk, EmitterOk, Undisturbed, Apart, ClosedOk, QuestionsOk, Acts, HandleNext, Setup, Decide, Adjust, OnFrame,
         Discard;
    match a {
      case SetupEmitter(i) =>
        ClientIsOk(w, i);
        SetupKeeps(ClientAt(w, i));
        ActsAnswersNothing(ClientAt(w, i), Setup(ClientAt(w, i)));
      case DecideEmitter(i, k) =>
        ClientIsOk(w, i);
        DecideKeeps(ClientAt(w, i), k);
        ActsAnswersNothing(ClientAt(w, i), Decide(ClientAt(w, i), k));
      case AdjustEmitter(i, k) =>
        ClientIsOk(w, i);
        AdjustKeeps(ClientAt(w, i), k);
        ActsAnswersNothing(ClientAt(w, i), Adjust(ClientAt(w, i), k));
      case EmitterOnFrame(i) =>
        ClientIsOk(w, i);
        OnFrameKeeps(ClientAt(w, i));
        ActsAnswersNothing(ClientAt(w, i), OnFrame(ClientAt(w, i)));
      case DiscardEmitter(i) =>
        ClientIsOk(w, i);
        DiscardSendsAll(ClientAt(w, i));
        ActsAnswersNothing(ClientAt(w, i), Discard(ClientAt(w, i)));
      case ThreadHandles(provided) =>
        WorldGives(w);
        CanHandleNext(w.io);
        HandlingStaysUndisturbed(w.io, provided);
      case Flush =>
      case ThreadDequeues =>
    }
    if !a.ThreadHandles? {
      SameAnswers(w.io, Step(w, a).io);
    }
  }

  lemma {:induction false} StepsStayUndisturbed(w: World, actions: seq<Action>)
    requires WorldOk(w) && Undisturbed(w.io) && Steps(w, actions).Some? && AllCalm(actions)
    ensures Undisturbed(Steps(w, actions).value.io)
    decreases |actions|
  {
    hide WorldOk, Undisturbed, Step, Calm;
    if actions != [] {
      var before := actions[..|actions| - 1];
      assert forall i :: 0 <= i < |before| ==> before[i] == actions[i];
      StepsStayUndisturbed(w, before);
      StepStaysUndisturbed(Steps(w, before).value, actions[|actions| - 1]);
    }
  }

  lemma RunIsUndisturbed(emitters: set<int>, actions: seq<Action>)
    requires Run(emitters, actions).Some? && AllCalm(actions)
    ensures Undisturbed(Run(emitters, actions).value.io)
  {
    hide WorldOk, Steps;
    StartIsOk(emitters);
    StepsStayUndisturbed(Begin(emitters), actions);
  }

  /** Without interference both bits are those of the calls, with no exception: playing is
      what the last decision issued says, paused is what the last Pause or Resume before the
      question says, and that is the last one issued as long as none came after the
      question. */
  lemma ReadBackAgrees(emitters: set<int>, actions: seq<Action>, i: int)
    requires Run(emitters, actions).Some? && AllCalm(actions)
    requires i in Run(emitters, actions).value.emitters && Run(emitters, actions).value.emitters[i].registered
    requires UpdateAnswered(ClientAt(Run(emitters, actions).value, i))
    ensures var c := ClientAt(Run(emitters, actions).value, i);
            && CanValidate(c) && CanRead(c)
            && (OnFrame(c).e.bits.playing <==> LastStarts(c.e.issuedLog))
            && (OnFrame(c).e.bits.paused <==> LastPauses(BeforeQuestion(c.e.issuedLog, c.e.pendingUpdate.value)))
            && (PauseKnown(c.e) ==> (OnFrame(c).e.bits.paused <==> LastPauses(c.e.issuedLog)))
  {
    hide Run, OnFrame, LastStarts, LastPauses, BeforeQuestion, PausedSince;
    RunIsUndisturbed(emitters, actions);
    NoStaleReadBack(emitters, actions, i);
    PausedReadBack(emitters, actions, i);
  }
}
