/** What a returning player and a (re)joining presenter display receive. Both are
    pure reads of the round state and the roster. */
module Recovery {
  import opened Types
  import opened Roster

  datatype PlayerView = PlayerView(name: string, studentId: string, isAlive: bool, currentAnswer: Option<int>)

  datatype QuestionView = QuestionView(text: string, options: seq<string>)

  datatype ReconnectResult =
    | ReconnectFailed
    | Reconnected(
        player: PlayerView,
        phase: Phase,
        currentQuestionIndex: int,
        currentQuestion: Option<QuestionView>,
        correctIndex: Option<int>)

  /** The payload of `reconnect_attempt_user`. The question is attached once one has
      been started; its correct option only while the round is in REVIEW. */
  function Reconnect(gs: GameState, ps: Players, questions: seq<QuestionRecord>, studentId: string): (r: ReconnectResult)
    requires gs.currentQuestionIndex < |questions|
    ensures r.ReconnectFailed? <==> studentId !in ps
    ensures r.Reconnected? ==>
      var p := ps[studentId];
      && r.player == PlayerView(p.name, p.studentId, p.isAlive, p.currentAnswer)
      && r.phase == gs.phase
      && r.currentQuestionIndex == gs.currentQuestionIndex
      && (r.currentQuestion.Some? <==> gs.currentQuestionIndex > -1)
      && (r.correctIndex.Some? <==> gs.currentQuestionIndex > -1 && gs.phase == Review)
    ensures r.Reconnected? && r.currentQuestion.Some? ==>
      var q := questions[gs.currentQuestionIndex];
      r.currentQuestion.value == QuestionView(q.text, q.options)
    ensures r.Reconnected? && r.correctIndex.Some? ==>
      r.correctIndex.value == questions[gs.currentQuestionIndex].correctIndex
  {
    if studentId !in ps then ReconnectFailed
    else
      var p := ps[studentId];
      var view := PlayerView(p.name, p.studentId, p.isAlive, p.currentAnswer);
      if gs.currentQuestionIndex > -1 then
        var q := questions[gs.currentQuestionIndex];
        Reconnected(view, gs.phase, gs.currentQuestionIndex, Some(QuestionView(q.text, q.options)),
                    if gs.phase == Review then Some(q.correctIndex) else None)
      else
        Reconnected(view, gs.phase, gs.currentQuestionIndex, None, None)
  }

  datatype PresenterQuestion = PresenterQuestion(text: string, options: seq<string>, index: int)

  datatype PresenterPacket = PresenterPacket(
    gameState: GameState,
    totalPlayers: nat,
    alivePlayers: seq<string>,
    currentQuestion: Option<PresenterQuestion>,
    correctIndex: Option<int>,
    stats: Option<seq<nat>>)

  /** The payload of `presenter_join`: the whole round state, the roster size, the
      living players' names, and the correct option and option counts in REVIEW only. */
  function PresenterJoin(gs: GameState, ps: Players, order: seq<string>, questions: seq<QuestionRecord>): (r: PresenterPacket)
    requires gs.currentQuestionIndex < |questions|
    ensures r.gameState == gs && r.totalPlayers == |ps|
    ensures OrderOf(order, ps) ==> |r.alivePlayers| == AliveCount(ps)
    ensures OrderOf(order, ps) ==> forall id :: id in ps && ps[id].isAlive ==> ps[id].name in r.alivePlayers
    ensures r.alivePlayers == Names(Gather(order, ps, Alive))
    ensures r.currentQuestion.Some? <==> gs.currentQuestionIndex > -1
    ensures r.correctIndex.Some? <==> gs.currentQuestionIndex > -1 && gs.phase == Review
    ensures r.stats.Some? <==> r.correctIndex.Some?
    ensures r.currentQuestion.Some? ==>
      var q := questions[gs.currentQuestionIndex];
      r.currentQuestion.value == PresenterQuestion(q.text, q.options, gs.currentQuestionIndex)
    ensures r.correctIndex.Some? ==> r.correctIndex.value == questions[gs.currentQuestionIndex].correctIndex
    ensures r.stats.Some? && gs.currentQuestionIndex in gs.questionStats ==>
      r.stats.value == gs.questionStats[gs.currentQuestionIndex]
    ensures r.stats.Some? && gs.currentQuestionIndex !in gs.questionStats ==> r.stats.value == []
  {
    var alive := Gather(order, ps, Alive);
    assert OrderOf(order, ps) ==> |alive| == AliveCount(ps) by {
      if OrderOf(order, ps) { GatherSelect(order, ps, Alive); }
    }
    GatherHasAll(order, ps, Alive);
    NamesListAll(alive);
    var base := PresenterPacket(gs, |ps|, Names(alive), None, None, None);
    if gs.currentQuestionIndex > -1 then
      var q := questions[gs.currentQuestionIndex];
      var withQuestion := base.(currentQuestion := Some(PresenterQuestion(q.text, q.options, gs.currentQuestionIndex)));
      if gs.phase == Review then
        var stats := if gs.currentQuestionIndex in gs.questionStats then gs.questionStats[gs.currentQuestionIndex] else [];
        withQuestion.(correctIndex := Some(q.correctIndex), stats := Some(stats))
      else withQuestion
    else base
  }
}
