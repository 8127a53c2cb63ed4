/** Two short runs of one emitter that show what the protocol does not promise: the answer to
    an old question takes the paused bit back, and two questions are on their way at once. */
module Audio2Examples {
  import opened Wrappers
  import opened Audio2Model
  import opened Audio2Order
  import opened Audio2Runs

  // ----- up to the first question

  const QUESTION := Message(1, EventUpdateState, 0)
  const SENT_QUESTION := Message(1, EventUpdateState, 1)

  const SETTING_UP := Emitter(true, UNKNOWN, 0, Some(0), [], None, [])
  const ASKING := Emitter(true, UNKNOWN, 1, None, [], Some(1), [QUESTION])

  const SET_UP := World(map[0 := SETTING_UP],
                        Io([], [Single(EventCreate(0))], [], map[], map[], 1, 1, map[], {0}), map[])

  const FETCHED := SET_UP.(io := SET_UP.io.(inbox := [], work := [EventCreate(0)]))

  const CREATED := World(map[0 := SETTING_UP],
                         Io([], [], [], map[0 := Handle(1)], map[1 := NEW_EVENT], 1, 2, map[1 := []], {0}), map[])

  const ASKED := World(map[0 := ASKING],
                       Io([SENT_QUESTION], [], [], map[0 := Handle(1)], map[1 := NEW_EVENT], 2, 2,
                          map[1 := [SENT_QUESTION]], {0}), map[])

  const UNTIL_CREATED := [SetupEmitter(0), ThreadDequeues, ThreadHandles(true)]
  const UNTIL_ASKED := UNTIL_CREATED + [EmitterOnFrame(0)]

  /** One more action of a run, with its outcome spelled out. */
  lemma Next(actions: seq<Action>, w: World, a: Action, u: World)
    requires Run({0}, actions) == Some(w) && Enabled(w, a) && Step(w, a) == u
    ensures Run({0}, actions + [a]) == Some(u)
  {
    hide WorldOk, Step, Steps;
    StartIsOk({0});
    StepsMore(Begin({0}), actions, a);
  }

  lemma SetUpIs()
    ensures Run({0}, [SetupEmitter(0)]) == Some(SET_UP)
  {
    hide WorldOk, IoOk, EmitterOk, QuestionsOk;
    StartIsOk({0});
    var w := Begin({0});
    assert Run({0}, []) == Some(w);
    assert Step(w, SetupEmitter(0)) == SET_UP;
    Next([], w, SetupEmitter(0), SET_UP);
    assert [] + [SetupEmitter(0)] == [SetupEmitter(0)];
  }

  lemma CreatedIs()
    ensures Run({0}, UNTIL_CREATED) == Some(CREATED)
  {
    hide WorldOk, Run;
    SetUpIs();
    assert Flatten([Single(EventCreate(0))]) == [EventCreate(0)] by {
      FlattenMore([], Single(EventCreate(0)));
      assert [] + [Single(EventCreate(0))] == [Single(EventCreate(0))];
    }
    Next([SetupEmitter(0)], SET_UP, ThreadDequeues, FETCHED);
    assert [SetupEmitter(0)] + [ThreadDequeues] == [SetupEmitter(0), ThreadDequeues];
    HandlesCreate();
    Next([SetupEmitter(0), ThreadDequeues], FETCHED, ThreadHandles(true), CREATED);
    assert [SetupEmitter(0), ThreadDequeues] + [ThreadHandles(true)] == UNTIL_CREATED;
  }

  lemma HandlesCreate()
    ensures HandleNext(FETCHED.io, true) == CREATED.io
  {
    assert FETCHED.io.work[1..] == [];
  }

  lemma AskedIs()
    ensures Run({0}, UNTIL_ASKED) == Some(ASKED)
  {
    hide WorldOk, Run;
    CreatedIs();
    var c := ClientAt(CREATED, 0);
    assert CanValidate(c) && CanRead(c) && OnFrame(c) == ClientAt(ASKED, 0) by {
      FirstQuestion();
    }
    RunIsOk(UNTIL_CREATED);
    Next(UNTIL_CREATED, CREATED, EmitterOnFrame(0), ASKED);
  }

  lemma RunIsOk(actions: seq<Action>)
    requires Run({0}, actions).Some?
    ensures WorldOk(Run({0}, actions).value)
  {
  }

  lemma FirstQuestion()
    ensures var c := ClientAt(CREATED, 0);
            CanValidate(c) && CanRead(c) && OnFrame(c) == ClientAt(ASKED, 0)
  {
    var c := ClientAt(CREATED, 0);
    assert [] + [SENT_QUESTION] == [SENT_QUESTION] && [] + [QUESTION] == [QUESTION];
    assert CREATED.io.sentLog[1 := [SENT_QUESTION]] == map[1 := [SENT_QUESTION]];
    var v := Validate(c);
    assert v == Client(SETTING_UP.(handle := 1, pendingCreate := None), CREATED.io);
    SendIs(Client(v.e.(pendingUpdate := Some(1)), v.io), EventUpdateState);
  }

  // ----- two questions at once

  const PLAY := Message(2, EventPlay, 0)
  const SECOND_QUESTION := Message(3, EventUpdateState, 0)

  const PLAYED := World(map[0 := ASKING.(bits := Bits(true, false, false), pendingUpdate := None,
                                              issuedLog := [QUESTION, PLAY])],
                        ASKED.io.(batch := [SENT_QUESTION, Addressed(PLAY, 1)], nextId := 3,
                                  sentLog := map[1 := [SENT_QUESTION, Addressed(PLAY, 1)]]),
                        map[])

  const ASKED_AGAIN := World(map[0 := PLAYED.emitters[0].(pendingUpdate := Some(3),
                                                            issuedLog := [QUESTION, PLAY, SECOND_QUESTION])],
                             PLAYED.io.(batch := [SENT_QUESTION, Addressed(PLAY, 1), Addressed(SECOND_QUESTION, 1)],
                                        nextId := 4,
                                        sentLog := map[1 := [SENT_QUESTION, Addressed(PLAY, 1),
                                                           Addressed(SECOND_QUESTION, 1)]]),
                             map[])

  const UNTIL_PLAYED := UNTIL_ASKED + [DecideEmitter(0, EventPlay)]
  const TWO_QUESTIONS := UNTIL_PLAYED + [EmitterOnFrame(0)]

  /** Play between two frames: the first question is cancelled and yet on its way, and the
      second one joins it. */
  lemma TwoQuestionsAtOnce()
    ensures Run({0}, TWO_QUESTIONS).Some? && 0 in Run({0}, TWO_QUESTIONS).value.emitters
    ensures var w := Run({0}, TWO_QUESTIONS).value;
            var issued := w.emitters[0].issuedLog;
            Unanswered(issued, w.io.replies, 0) && Unanswered(issued, w.io.replies, 2)
  {
    hide WorldOk, Run;
    AskedIs();
    PlaysNow();
    RunIsOk(UNTIL_ASKED);
    Next(UNTIL_ASKED, ASKED, DecideEmitter(0, EventPlay), PLAYED);
    QuestionAgain();
    RunIsOk(UNTIL_PLAYED);
    Next(UNTIL_PLAYED, PLAYED, EmitterOnFrame(0), ASKED_AGAIN);
  }

  lemma PlaysNow()
    ensures var c := ClientAt(ASKED, 0);
            CanValidate(c) && Decide(c, EventPlay) == ClientAt(PLAYED, 0)
  {
    var c := ClientAt(ASKED, 0);
    SendIs(c, EventPlay);
    var sent := [SENT_QUESTION, Addressed(PLAY, 1)];
    assert [SENT_QUESTION] + [Addressed(PLAY, 1)] == sent && [QUESTION] + [PLAY] == [QUESTION, PLAY];
    assert ASKED.io.sentLog[1 := sent] == map[1 := sent];
    assert ASKED.io.inbox == [] && EraseMatching([], 1) == [];
  }

  lemma QuestionAgain()
    ensures var c := ClientAt(PLAYED, 0);
            CanValidate(c) && CanRead(c) && OnFrame(c) == ClientAt(ASKED_AGAIN, 0)
  {
    var c := ClientAt(PLAYED, 0);
    var sent := [SENT_QUESTION, Addressed(PLAY, 1), Addressed(SECOND_QUESTION, 1)];
    assert PLAYED.io.batch + [Addressed(SECOND_QUESTION, 1)] == sent;
    assert PLAYED.io.sentLog[1 := sent] == map[1 := sent];
    assert [QUESTION, PLAY] + [SECOND_QUESTION] == [QUESTION, PLAY, SECOND_QUESTION];
    SendIs(Client(c.e.(pendingUpdate := Some(3)), c.io), EventUpdateState);
  }

  // ----- a pause that is taken back

  const PAUSE := Message(2, EventPause, 0)

  const FLUSHED := ASKED.(io := ASKED.io.(batch := [], inbox := [BatchMessage([SENT_QUESTION])]))
  const TAKEN := ASKED.(io := ASKED.io.(batch := [], work := [Control(SENT_QUESTION)]))
  const ANSWERED := ASKED.(io := ASKED.io.(batch := [],
                                           replies := map[0 := Handle(1), 1 := State(UNKNOWN, false, false)],
                                           events := map[1 := Event(UNKNOWN, [SENT_QUESTION], false, false)]))
  const PAUSED := World(map[0 := ASKING.(bits := Bits(false, true, false), issuedLog := [QUESTION, PAUSE])],
                        ANSWERED.io.(batch := [Addressed(PAUSE, 1)], nextId := 3,
                                     sentLog := map[1 := [SENT_QUESTION, Addressed(PAUSE, 1)]]),
                        map[])

  const UNTIL_ANSWERED := UNTIL_ASKED + [Flush] + [ThreadDequeues] + [ThreadHandles(true)]
  const UNTIL_PAUSED := UNTIL_ANSWERED + [AdjustEmitter(0, EventPause)]

  /** Pause between the answer and the next frame: the emitter counts as paused, nothing takes
      that back, and yet the next OnFrame clears the bit. */
  lemma PauseTakenBack()
    ensures Run({0}, UNTIL_PAUSED).Some? && 0 in Run({0}, UNTIL_PAUSED).value.emitters
    ensures var c := ClientAt(Run({0}, UNTIL_PAUSED).value, 0);
            && c.e.registered && c.e.bits.paused && LastPauses(c.e.issuedLog)
            && CanValidate(c) && CanRead(c) && !OnFrame(c).e.bits.paused
  {
    hide WorldOk, Run;
    AnsweredIs();
    PausesNow();
    RunIsOk(UNTIL_ANSWERED);
    Next(UNTIL_ANSWERED, ANSWERED, AdjustEmitter(0, EventPause), PAUSED);
    ReadsOldAnswer();
    assert PAUSED.emitters[0].issuedLog[1] == PAUSE;
  }

  lemma AnsweredIs()
    ensures Run({0}, UNTIL_ANSWERED) == Some(ANSWERED)
  {
    hide WorldOk, Run;
    AskedIs();
    RunIsOk(UNTIL_ASKED);
    Next(UNTIL_ASKED, ASKED, Flush, FLUSHED);
    TakesBatch();
    RunIsOk(UNTIL_ASKED + [Flush]);
    Next(UNTIL_ASKED + [Flush], FLUSHED, ThreadDequeues, TAKEN);
    AnswersQuestion();
    RunIsOk(UNTIL_ASKED + [Flush] + [ThreadDequeues]);
    Next(UNTIL_ASKED + [Flush] + [ThreadDequeues], TAKEN, ThreadHandles(true), ANSWERED);
  }

  lemma TakesBatch()
    ensures DequeueAll(FLUSHED.io) == TAKEN.io
  {
    FlattenMore([], BatchMessage([SENT_QUESTION]));
    assert [] + [BatchMessage([SENT_QUESTION])] == [BatchMessage([SENT_QUESTION])];
    assert Controls([SENT_QUESTION]) == [Control(SENT_QUESTION)];
  }

  lemma AnswersQuestion()
    ensures HandleNext(TAKEN.io, true) == ANSWERED.io
  {
    assert TAKEN.io.work[1..] == [] && [] + [SENT_QUESTION] == [SENT_QUESTION];
    assert TAKEN.io.events[1 := ANSWERED.io.events[1]] == ANSWERED.io.events;
    assert TAKEN.io.replies[1 := State(UNKNOWN, false, false)] == ANSWERED.io.replies;
  }

  lemma PausesNow()
    ensures var c := ClientAt(ANSWERED, 0);
            CanValidate(c) && Adjust(c, EventPause) == ClientAt(PAUSED, 0)
  {
    var sent := [SENT_QUESTION, Addressed(PAUSE, 1)];
    assert [SENT_QUESTION] + [Addressed(PAUSE, 1)] == sent && [QUESTION] + [PAUSE] == [QUESTION, PAUSE];
    assert ANSWERED.io.sentLog[1 := sent] == map[1 := sent];
    SendIs(ClientAt(ANSWERED, 0), EventPause);
  }

  lemma ReadsOldAnswer()
    ensures var c := ClientAt(PAUSED, 0);
            CanValidate(c) && CanRead(c) && !OnFrame(c).e.bits.paused
  {
    var c := ClientAt(PAUSED, 0);
    var r := ReadBack(c);
    SendIs(Client(r.e.(pendingUpdate := Some(3)), r.io), EventUpdateState);
  }
}
