/**
 * The story engine of App: how an answer moves the game state through the story graph, and
 * which panel a state shows. The story graph is two maps, from id to epilogue and from id to
 * question; an id the map does not hold reads as `undefined`, which is falsy.
 */
module App {
  import opened Wrappers
  import opened GameTypes
  import opened GameStateHook
  import JsonCodec

  /** The state after choosing `answer`, as the three branches of handleAnswer leave it. */
  function Transition(s: GameState, epilogues: map<string, Epilogue>, questions: map<string, Question>,
                      answer: Answer): GameState
  {
    var next := answer.nextQuestionId;
    if next in epilogues then GameState(None, s.history + [answer.id], true, Some(next))
    else if next in questions then s.(currentQuestionId := Some(next), history := s.history + [answer.id])
    else s
  }

  /**
   * handleAnswer: the epilogue map is asked first, then the question map; the chosen update goes
   * through updateState (and so is persisted). A dangling id changes nothing; its log line is not
   * modelled. Nothing refuses an answer once the story has finished.
   */
  method HandleAnswer(session: Session, epilogues: map<string, Epilogue>, questions: map<string, Question>,
                      answer: Answer)
    modifies session
    ensures session.state == Transition(old(session.state), epilogues, questions, answer)
    ensures answer.nextQuestionId in epilogues || answer.nextQuestionId in questions ==>
      session.storage == old(session.storage)[StorageKey := JsonCodec.Encode(session.state)]
    ensures answer.nextQuestionId !in epilogues && answer.nextQuestionId !in questions ==>
      session.storage == old(session.storage)
  {
    var newHistory := session.state.history + [answer.id];
    if answer.nextQuestionId in epilogues {
      session.Update(Partial(Some(None), Some(newHistory), Some(true), Some(Some(answer.nextQuestionId))));
    } else if answer.nextQuestionId in questions {
      session.Update(Partial(Some(Some(answer.nextQuestionId)), Some(newHistory), None, None));
    }
  }

  // ---------------------------------------------------------------------------------------------
  // Properties of one answer

  /** The story is under way: at a question, not finished, with no epilogue. */
  predicate InProgress(s: GameState) {
    s.currentQuestionId.Some? && !s.isFinished && s.finalEpilogueId.None?
  }

  /** The story has ended: no current question, finished, at an epilogue. */
  predicate Finished(s: GameState) {
    s.currentQuestionId.None? && s.isFinished && s.finalEpilogueId.Some?
  }

  /** A new game is under way. */
  lemma InitialInProgress()
    ensures InProgress(InitialState)
    ensures !Finished(InitialState)
  {
  }

  /**
   * An answer given while the story is under way leaves it under way or ended, and it ends
   * exactly when the answer leads to an epilogue.
   */
  lemma TransitionShape(s: GameState, epilogues: map<string, Epilogue>, questions: map<string, Question>,
                        answer: Answer)
    requires InProgress(s)
    ensures var t := Transition(s, epilogues, questions, answer);
      && (InProgress(t) || Finished(t))
      && (Finished(t) <==> answer.nextQuestionId in epilogues)
      && (Finished(t) ==> t.finalEpilogueId == Some(answer.nextQuestionId))
  {
  }

  /** An id that names an epilogue always finishes the story, whether or not it also names a question. */
  lemma EpilogueWins(s: GameState, epilogues: map<string, Epilogue>, questions: map<string, Question>,
                     answer: Answer)
    requires answer.nextQuestionId in epilogues && answer.nextQuestionId in questions
    ensures Transition(s, epilogues, questions, answer).isFinished
    ensures Transition(s, epilogues, questions, answer).currentQuestionId == None
    ensures Transition(s, epilogues, questions, answer).finalEpilogueId == Some(answer.nextQuestionId)
  {
  }

  /** Once finished, the state stays finished whatever is answered: no answer leads back. */
  lemma FinishedIsSticky(s: GameState, epilogues: map<string, Epilogue>, questions: map<string, Question>,
                         answer: Answer)
    requires s.isFinished
    ensures Transition(s, epilogues, questions, answer).isFinished
  {
  }

  /**
   * Nothing stops an answer after the end: a question id then moves `currentQuestionId` and grows
   * the history while the state stays finished with its epilogue.
   */
  lemma AnswerAfterFinish(s: GameState, epilogues: map<string, Epilogue>, questions: map<string, Question>,
                          answer: Answer)
    requires s.isFinished
    requires answer.nextQuestionId !in epilogues && answer.nextQuestionId in questions
    ensures var t := Transition(s, epilogues, questions, answer);
      && t.isFinished && t.finalEpilogueId == s.finalEpilogueId
      && t.currentQuestionId == Some(answer.nextQuestionId)
      && t.history == s.history + [answer.id]
  {
  }

  /**
   * From the initial state, an answer to question "q2" and then one to epilogue "end_good" leave
   * the story finished at "end_good" with both answer ids in the history.
   */
  lemma StartToEnding(epilogues: map<string, Epilogue>, questions: map<string, Question>, a1: Answer, a2: Answer)
    requires a1.nextQuestionId == "q2" && "q2" in questions && "q2" !in epilogues
    requires a2.nextQuestionId == "end_good" && "end_good" in epilogues
    ensures Transition(InitialState, epilogues, questions, a1)
         == GameState(Some("q2"), [a1.id], false, None)
    ensures Play(InitialState, epilogues, questions, [a1, a2])
         == GameState(None, [a1.id, a2.id], true, Some("end_good"))
  {
    var t1 := Transition(InitialState, epilogues, questions, a1);
    var t2 := Transition(t1, epilogues, questions, a2);
    assert [a1, a2][1..] == [a2];
    assert Play(t1, epilogues, questions, [a2]) == Play(t2, epilogues, questions, []) == t2;
  }

  // ---------------------------------------------------------------------------------------------
  // A run of answers

  /** The state after answering `answers` in order. */
  function Play(s: GameState, epilogues: map<string, Epilogue>, questions: map<string, Question>,
                answers: seq<Answer>): GameState
    decreases |answers|
  {
    if answers == [] then s
    else Play(Transition(s, epilogues, questions, answers[0]), epilogues, questions, answers[1..])
  }

  /** Whether an answer's target is in either map, so that handleAnswer acts on it. */
  predicate Resolves(epilogues: map<string, Epilogue>, questions: map<string, Question>, answer: Answer) {
    answer.nextQuestionId in epilogues || answer.nextQuestionId in questions
  }

  /** The ids of the answers that were acted on, in order. */
  function ActedOn(epilogues: map<string, Epilogue>, questions: map<string, Question>,
                   answers: seq<Answer>): seq<string>
    decreases |answers|
  {
    if answers == [] then []
    else (if Resolves(epilogues, questions, answers[0]) then [answers[0].id] else [])
         + ActedOn(epilogues, questions, answers[1..])
  }

  /** The history is only appended to: after a run it is the old history and the ids acted on, in order. */
  lemma {:induction false} PlayHistory(s: GameState, epilogues: map<string, Epilogue>,
                                       questions: map<string, Question>, answers: seq<Answer>)
    ensures Play(s, epilogues, questions, answers).history == s.history + ActedOn(epilogues, questions, answers)
    decreases |answers|
  {
    if answers != [] {
      var t := Transition(s, epilogues, questions, answers[0]);
      PlayHistory(t, epilogues, questions, answers[1..]);
      var head := if Resolves(epilogues, questions, answers[0]) then [answers[0].id] else [];
      assert t.history == s.history + head;
      assert s.history + head + ActedOn(epilogues, questions, answers[1..])
          == s.history + (head + ActedOn(epilogues, questions, answers[1..]));
    }
  }

  /** When every answer resolves, the ids acted on are all the chosen ids. */
  lemma {:induction false} ActedOnAll(epilogues: map<string, Epilogue>, questions: map<string, Question>,
                                      answers: seq<Answer>)
    requires forall k :: 0 <= k < |answers| ==> Resolves(epilogues, questions, answers[k])
    ensures |ActedOn(epilogues, questions, answers)| == |answers|
    ensures forall k :: 0 <= k < |answers| ==> ActedOn(epilogues, questions, answers)[k] == answers[k].id
    decreases |answers|
  {
    if answers != [] {
      ActedOnAll(epilogues, questions, answers[1..]);
      var rest := ActedOn(epilogues, questions, answers[1..]);
      assert ActedOn(epilogues, questions, answers) == [answers[0].id] + rest;
    }
  }

  /**
   * After N answers that all resolve, the history has grown by N and its new entries are the
   * chosen ids in order; the entries before are unchanged.
   */
  lemma PlayResolvedHistory(s: GameState, epilogues: map<string, Epilogue>, questions: map<string, Question>,
                            answers: seq<Answer>)
    requires forall k :: 0 <= k < |answers| ==> Resolves(epilogues, questions, answers[k])
    ensures var h := Play(s, epilogues, questions, answers).history;
      && |h| == |s.history| + |answers|
      && h[..|s.history|] == s.history
      && forall k :: 0 <= k < |answers| ==> h[|s.history| + k] == answers[k].id
  {
    PlayHistory(s, epilogues, questions, answers);
    ActedOnAll(epilogues, questions, answers);
  }

  // ---------------------------------------------------------------------------------------------
  // Panel selection

  datatype Panel = QuestionPanel(question: Question) | EndPanel(epilogue: Epilogue) | ErrorPanel

  /** `id ? map[id] : null`: a null or empty id is falsy and looks nothing up. */
  function Lookup<T>(id: Option<string>, m: map<string, T>): Option<T> {
    if id.Some? && id.value != [] && id.value in m then Some(m[id.value]) else None
  }

  /** The panels App renders: three independent conditions, in the order of the markup. */
  function Panels(s: GameState, epilogues: map<string, Epilogue>, questions: map<string, Question>)
    : (r: seq<Panel>)
    ensures |r| <= 1
    ensures (r != [] && r[0].QuestionPanel?) <==> !s.isFinished && Lookup(s.currentQuestionId, questions).Some?
    ensures r != [] && r[0].QuestionPanel? ==> r[0].question == questions[s.currentQuestionId.value]
    ensures (r != [] && r[0].EndPanel?) <==> s.isFinished && Lookup(s.finalEpilogueId, epilogues).Some?
    ensures r != [] && r[0].EndPanel? ==> r[0].epilogue == epilogues[s.finalEpilogueId.value]
    ensures (r != [] && r[0].ErrorPanel?) <==> !s.isFinished && Lookup(s.currentQuestionId, questions).None?
    ensures r == [] <==> s.isFinished && Lookup(s.finalEpilogueId, epilogues).None?
  {
    var currentQuestion := Lookup(s.currentQuestionId, questions);
    var currentEpilogue := Lookup(s.finalEpilogueId, epilogues);
    (if !s.isFinished && currentQuestion.Some? then [QuestionPanel(currentQuestion.value)] else [])
    + (if s.isFinished && currentEpilogue.Some? then [EndPanel(currentEpilogue.value)] else [])
    + (if !s.isFinished && currentQuestion.None? then [ErrorPanel] else [])
  }

  /** A finished state whose epilogue id resolves: the states in which the end screen can show. */
  predicate EndResolves(s: GameState, epilogues: map<string, Epilogue>) {
    s.isFinished ==> Lookup(s.finalEpilogueId, epilogues).Some?
  }

  /** Starting from a state that shows a panel, answering keeps a panel on screen, unless "" is an epilogue id. */
  lemma {:induction false} PlayShowsPanel(s: GameState, epilogues: map<string, Epilogue>,
                                          questions: map<string, Question>, answers: seq<Answer>)
    requires [] !in epilogues
    requires EndResolves(s, epilogues)
    ensures EndResolves(Play(s, epilogues, questions, answers), epilogues)
    ensures |Panels(Play(s, epilogues, questions, answers), epilogues, questions)| == 1
    decreases |answers|
  {
    if answers != [] {
      PlayShowsPanel(Transition(s, epilogues, questions, answers[0]), epilogues, questions, answers[1..]);
    }
  }

  /** The initial state shows a panel. */
  lemma InitialShowsPanel(epilogues: map<string, Epilogue>, questions: map<string, Question>)
    ensures |Panels(InitialState, epilogues, questions)| == 1
  {
  }

  /**
   * An epilogue stored under the empty id finishes the story with a falsy epilogue id, and the
   * screen is then left with no panel at all.
   */
  lemma EmptyEpilogueIdBlank(s: GameState, epilogues: map<string, Epilogue>, questions: map<string, Question>,
                             answer: Answer)
    requires answer.nextQuestionId == [] && [] in epilogues
    ensures Transition(s, epilogues, questions, answer).isFinished
    ensures Panels(Transition(s, epilogues, questions, answer), epilogues, questions) == []
  {
  }
}
