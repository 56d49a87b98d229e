/** The round engine: the server's two globals, `gameState` and `players`, kept in
    one object, and every handler and admin command as a method on it. */
module Engine {
  import opened Types
  import opened Roster
  import Passes
  import Clock

  datatype RegisterResult = Registered(player: Player) | GameStarted | AlreadyRegistered

  /** The `reveal_answer` payload. */
  datatype RevealPacket = RevealPacket(
    correctIndex: int,
    eliminatedThisRound: nat,
    aliveCount: nat,
    stats: seq<nat>,
    recentDeadNames: seq<string>)

  /** The `sync_pulse` payload; `time` is in tenths of a second. */
  datatype Pulse = Pulse(phase: Phase, time: int, aliveCount: nat, presenterMode: string)

  /** The actions of `admin_command`. */
  datatype Command =
    | StartSpecific(index: int, duration: Option<int>)
    | EndQuestionNow
    | ResetAll
    | TogglePresenterView(mode: string)
    | KickPlayer(studentId: string)
    | RevivePlayer(studentId: string)
    | ReviveAll
    | ReviveRound
    | Unrecognized

  /** The round state after a reveal that started from `gs` with roster `ps`. */
  function RevealedState(gs: GameState, ps: Players, correctIndex: int): GameState
  {
    var round := gs.currentQuestionIndex;
    gs.(phase := Review,
        questionStats := gs.questionStats[round := Stats(ps)],
        aliveCount := AliveCount(EliminateAll(ps, correctIndex, round)))
  }

  /** The packet a reveal broadcasts, computed from the roster before the reveal. */
  function RevealOf(gs: GameState, ps: Players, order: seq<string>, correctIndex: int): RevealPacket
  {
    var dead := Gather(order, ps, Failing(correctIndex));
    RevealPacket(
      correctIndex,
      |dead|,
      AliveCount(EliminateAll(ps, correctIndex, gs.currentQuestionIndex)),
      Stats(ps),
      Names(dead))
  }

  /** What a reveal reports: as many eliminated as names listed and as the drop in
      the alive count, the name of every player eliminated, option counts no larger
      than the living roster, and, when the correct option is one of the four, as
      many survivors as answered it. */
  lemma RevealPacketFacts(gs: GameState, ps: Players, order: seq<string>, correctIndex: int)
    requires OrderOf(order, ps)
    ensures var p := RevealOf(gs, ps, order, correctIndex);
      && p.eliminatedThisRound == |p.recentDeadNames| == AliveCount(ps) - p.aliveCount
      && |p.stats| == OPTION_COUNT
      && p.stats[0] + p.stats[1] + p.stats[2] + p.stats[3] <= AliveCount(ps)
      && (0 <= correctIndex < OPTION_COUNT ==> p.stats[correctIndex] == p.aliveCount)
      && (forall id :: id in Select(ps, Failing(correctIndex)) ==> ps[id].name in p.recentDeadNames)
  {
    GatherHasAll(order, ps, Failing(correctIndex));
    NamesListAll(Gather(order, ps, Failing(correctIndex)));
    GatherSelect(order, ps, Failing(correctIndex));
    EliminatedIsAliveDrop(ps, correctIndex, gs.currentQuestionIndex);
    SurvivorsAnsweredCorrectly(ps, correctIndex, gs.currentQuestionIndex);
    TalliesWithinAlive(ps);
  }

  /** A reveal writes the option counts of the question it closes and keeps every
      other question's counts. */
  lemma RevealKeepsOtherStats(gs: GameState, ps: Players, correctIndex: int, k: int)
    requires k != gs.currentQuestionIndex
    ensures var after := RevealedState(gs, ps, correctIndex);
      && after.phase == Review
      && after.questionStats.Keys == gs.questionStats.Keys + {gs.currentQuestionIndex}
      && after.questionStats[gs.currentQuestionIndex] == Stats(ps)
      && (k in gs.questionStats ==> after.questionStats[k] == gs.questionStats[k])
  {
  }

  /** A round at question 2: two living players answer the correct option 1, one
      living player never answers, and one player who died at question 1 keeps the
      stale answer of that round. */
  function ScenarioRoster(): Players
  {
    map[
      "1" := Player("A", "1", true, Some(1), -1),
      "2" := Player("B", "2", true, Some(1), -1),
      "3" := Player("C", "3", true, None, -1),
      "4" := Player("D", "4", false, Some(0), 1)]
  }

  lemma ScenarioTallies()
    ensures Stats(ScenarioRoster()) == [0, 2, 0, 0]
  {
    var ps := ScenarioRoster();
    assert Select(ps, Answered(0)) == {};
    assert Select(ps, Answered(1)) == {"1", "2"};
    assert Select(ps, Answered(2)) == {};
    assert Select(ps, Answered(3)) == {};
  }

  lemma ScenarioDead()
    ensures Gather(["1", "2", "3", "4"], ScenarioRoster(), Failing(1)) == [ScenarioRoster()["3"]]
  {
    var ps, order := ScenarioRoster(), ["1", "2", "3", "4"];
    assert order[..1][..0] == [];
    assert Gather(order[..1], ps, Failing(1)) == [];
    assert order[..2][..1] == order[..1];
    assert Gather(order[..2], ps, Failing(1)) == [];
    assert order[..3][..2] == order[..2];
    assert Gather(order[..3], ps, Failing(1)) == [ps["3"]];
    assert order[..4][..3] == order[..3];
    assert order[..4] == order;
  }

  /** The reveal of that round eliminates exactly the silent player, counts two
      answers for option 1, and leaves the dead record alone. */
  lemma LaterRoundScenario()
    ensures
      var ps := ScenarioRoster();
      var packet := RevealOf(GameState(Question, 2, 0, 3, GAME_VIEW, map[]), ps, ["1", "2", "3", "4"], 1);
      var after := EliminateAll(ps, 1, 2);
      && packet.eliminatedThisRound == 1
      && packet.recentDeadNames == ["C"]
      && packet.stats == [0, 2, 0, 0]
      && packet.aliveCount == 2
      && after["3"] == ps["3"].(isAlive := false, deathRound := 2)
      && after["4"] == ps["4"]
  {
    var ps := ScenarioRoster();
    ScenarioDead();
    ScenarioTallies();
    assert [ps["3"]][..0] == [];
    assert Names([ps["3"]]) == ["C"];
    assert Stats(ps)[1] == Tally(ps, 1) == 2;
    SurvivorsAnsweredCorrectly(ps, 1, 2);
  }

  class Game {
    const questions: seq<QuestionRecord>
    var gameState: GameState
    var players: Players
    /** The order in which `Object.values(players)` visits the records. */
    var order: seq<string>

    ghost predicate Valid()
      reads this
    {
      && OrderOf(order, players)
      && IndexKeysFirst(order)
      && (forall id :: id in players ==> players[id].studentId == id)
      && (gameState.currentQuestionIndex == -1 || 0 <= gameState.currentQuestionIndex < |questions|)
      && (gameState.phase != Registration ==> 0 <= gameState.currentQuestionIndex < |questions|)
      && (gameState.phase == Review ==> gameState.currentQuestionIndex in gameState.questionStats)
    }

    constructor (questions: seq<QuestionRecord>)
      ensures Valid() && this.questions == questions
      ensures gameState == InitialGameState() && players == map[] && order == []
    {
      this.questions := questions;
      gameState := InitialGameState();
      players := map[];
      order := [];
    }

    /** `getAliveCount()`: the filter over the records, in enumeration order. */
    function GetAliveCount(): (n: nat)
      reads this
      requires Valid()
      ensures n == AliveCount(players)
    {
      GatherSelect(order, players, Alive);
      |Gather(order, players, Alive)|
    }

    /** The `register` handler. */
    method Register(studentId: string, name: string) returns (r: RegisterResult)
      requires Valid()
      modifies this
      ensures Valid()
      ensures old(gameState.phase) != Registration ==> r == GameStarted && unchanged(this)
      ensures old(gameState.phase) == Registration && studentId in old(players) ==>
        r == AlreadyRegistered && unchanged(this)
      ensures old(gameState.phase) == Registration && studentId !in old(players) ==>
        var p := Player(name, studentId, true, None, -1);
        && r == Registered(p)
        && players == old(players)[studentId := p]
        && order == InsertKey(old(order), studentId)
        && gameState == old(gameState)
    {
      if gameState.phase != Registration {
        return GameStarted;
      }
      if studentId in players {
        return AlreadyRegistered;
      }
      var p := Player(name, studentId, true, None, -1);
      players := players[studentId := p];
      order := InsertKey(order, studentId);
      r := Registered(p);
    }

    /** The `submit_answer` handler; `sender` is the id bound to the socket, if any. */
    method SubmitAnswer(sender: Option<string>, answerIndex: int)
      requires Valid()
      modifies this
      ensures Valid()
      ensures gameState == old(gameState) && order == old(order)
      ensures var accepted :=
          old(gameState.phase) == Question && sender.Some? && sender.value != ""
          && sender.value in old(players) && old(players)[sender.value].isAlive;
        && (accepted ==>
              players == old(players)[sender.value := old(players)[sender.value].(currentAnswer := Some(answerIndex))])
        && (!accepted ==> players == old(players))
    {
      if gameState.phase != Question {
        return;
      }
      if sender.None? || sender.value == "" || sender.value !in players {
        return;
      }
      var p := players[sender.value];
      if !p.isAlive {
        return;
      }
      players := players[sender.value := p.(currentAnswer := Some(answerIndex))];
    }

    /** The effect of `startQuestion(index, duration)`. */
    twostate predicate QuestionStarted(index: int, duration: Option<int>)
      reads this
    {
      && order == old(order)
      && (if 0 <= index < |questions| then
            && gameState == old(gameState).(phase := Question, currentQuestionIndex := index,
                                             timeRemaining := Clock.StartingTime(duration),
                                             presenterMode := GAME_VIEW)
            && players == ClearAnswers(old(players))
          else
            gameState == old(gameState) && players == old(players))
    }

    method StartQuestion(index: int, duration: Option<int>)
      requires Valid()
      modifies this
      ensures Valid()
      ensures QuestionStarted(index, duration)
    {
      if index < 0 || index >= |questions| {
        return;
      }
      gameState := gameState.(phase := Question, currentQuestionIndex := index,
                              timeRemaining := Clock.StartingTime(duration),
                              presenterMode := GAME_VIEW);
      players := Passes.ClearAnswersPass(order, players);
    }

    /** The effect of `endQuestion()` started from round state `before`. */
    twostate predicate QuestionEnded(before: GameState, packet: RevealPacket)
      reads this
    {
      var round := before.currentQuestionIndex;
      0 <= round < |questions| &&
      var c := questions[round].correctIndex;
      && order == old(order)
      && players == EliminateAll(old(players), c, round)
      && gameState == RevealedState(before, old(players), c)
      && packet == RevealOf(before, old(players), old(order), c)
    }

    /** `endQuestion()`: tally the answers, eliminate, and enter REVIEW. Both callers
        run it only in phase QUESTION. */
    method EndQuestion() returns (packet: RevealPacket)
      requires Valid() && gameState.phase == Question
      modifies this
      ensures Valid()
      ensures QuestionEnded(old(gameState), packet)
    {
      gameState := gameState.(phase := Review);
      var round := gameState.currentQuestionIndex;
      var correctIndex := questions[round].correctIndex;
      var answerCounts := Passes.TallyPass(order, players);
      gameState := gameState.(questionStats := gameState.questionStats[round := answerCounts]);
      var eliminatedCount, recentDeadNames;
      players, eliminatedCount, recentDeadNames := Passes.EliminationPass(order, players, correctIndex, round);
      var alive := GetAliveCount();
      gameState := gameState.(aliveCount := alive);
      packet := RevealPacket(correctIndex, eliminatedCount, alive, answerCounts, recentDeadNames);
      GatherSelect(order, old(players), Failing(correctIndex));
    }

    /** The effect of `resetGame()`. */
    predicate GameReset()
      reads this
    {
      && gameState == GameState(Registration, -1, 0, 0, GAME_VIEW, map[])
      && players == map[] && order == []
    }

    method ResetGame()
      requires Valid()
      modifies this
      ensures Valid()
      ensures GameReset()
      ensures AliveCount(players) == 0 && |players| == 0
    {
      gameState := InitialGameState();
      players := map[];
      order := [];
    }

    /** One pass of `gameLoop`: in QUESTION the timer drops a tenth and reveals on
        reaching zero; in any other phase nothing changes. Returns the pulse it sends
        and the reveal, if one happened. */
    method GameLoopTick() returns (pulse: Pulse, revealed: Option<RevealPacket>)
      requires Valid()
      modifies this
      ensures Valid()
      ensures old(gameState.phase) != Question ==> unchanged(this) && revealed == None
      ensures old(gameState.phase) == Question && Clock.TickTime(old(gameState.timeRemaining)) > 0 ==>
        && gameState == old(gameState.(timeRemaining := Clock.TickTime(gameState.timeRemaining)))
        && players == old(players) && order == old(order)
        && revealed == None
      ensures old(gameState.phase) == Question && Clock.TickTime(old(gameState.timeRemaining)) == 0 ==>
        revealed.Some? && QuestionEnded(old(gameState.(timeRemaining := 0)), revealed.value)
      ensures pulse == Pulse(gameState.phase, gameState.timeRemaining, AliveCount(players), gameState.presenterMode)
    {
      revealed := None;
      if gameState.phase == Question {
        gameState := gameState.(timeRemaining := Clock.TickTime(gameState.timeRemaining));
        if gameState.timeRemaining <= 0 {
          var packet := EndQuestion();
          revealed := Some(packet);
        }
      }
      pulse := Pulse(gameState.phase, gameState.timeRemaining, GetAliveCount(), gameState.presenterMode);
    }

    /** `KICK_PLAYER`: delete the record, if there is one. */
    method Kick(studentId: string)
      requires Valid()
      modifies this
      ensures Valid()
      ensures gameState == old(gameState)
      ensures studentId in old(players) ==>
        players == old(players) - {studentId} && order == Without(old(order), studentId)
      ensures studentId !in old(players) ==> players == old(players) && order == old(order)
    {
      if studentId in players {
        players := players - {studentId};
        order := Without(order, studentId);
      }
    }

    /** `REVIVE_PLAYER`: set the flag only; the death stamp stays. */
    method RevivePlayerById(studentId: string)
      requires Valid()
      modifies this
      ensures Valid()
      ensures gameState == old(gameState) && order == old(order)
      ensures studentId in old(players) ==>
        players == old(players)[studentId := old(players)[studentId].(isAlive := true)]
      ensures studentId !in old(players) ==> players == old(players)
    {
      if studentId in players {
        players := players[studentId := players[studentId].(isAlive := true)];
      }
    }

    /** `REVIVE_ALL` */
    method ReviveEveryPlayer()
      requires Valid()
      modifies this
      ensures Valid()
      ensures gameState == old(gameState) && order == old(order)
      ensures players == ReviveEveryone(old(players))
    {
      players := Passes.ReviveAllPass(order, players);
    }

    /** `REVIVE_ROUND`: bring back the players who died on the current question;
        returns their ids in enumeration order. */
    method ReviveLastRound() returns (revivedIds: seq<string>)
      requires Valid()
      modifies this
      ensures Valid()
      ensures gameState == old(gameState) && order == old(order)
      ensures players == ReviveRoundOf(old(players), old(gameState.currentQuestionIndex))
      ensures revivedIds == StudentIds(Gather(order, old(players), DiedIn(old(gameState.currentQuestionIndex))))
      ensures forall id :: id in revivedIds <==> id in Select(old(players), DiedIn(old(gameState.currentQuestionIndex)))
      ensures Distinct(revivedIds) && SubSeq(revivedIds, order)
    {
      GatheredIds(order, players, DiedIn(gameState.currentQuestionIndex));
      players, revivedIds := Passes.ReviveRoundPass(order, players, gameState.currentQuestionIndex);
    }

    /** The `admin_command` handler; `isAdmin` stands for the socket having joined the
        admin room. Returns the reveal END_QUESTION_NOW broadcasts, if any, and the
        ids REVIVE_ROUND broadcasts. */
    method AdminCommand(isAdmin: bool, cmd: Command) returns (revealed: Option<RevealPacket>, revivedIds: seq<string>)
      requires Valid()
      modifies this
      ensures Valid()
      ensures !isAdmin || cmd.Unrecognized? ==> unchanged(this) && revealed == None
      ensures isAdmin && cmd.StartSpecific? ==> QuestionStarted(cmd.index, cmd.duration) && revealed == None
      ensures isAdmin && cmd.EndQuestionNow? && old(gameState.phase) == Question ==>
        revealed.Some? && QuestionEnded(old(gameState), revealed.value)
      ensures isAdmin && cmd.EndQuestionNow? && old(gameState.phase) != Question ==>
        unchanged(this) && revealed == None
      ensures isAdmin && cmd.ResetAll? ==> GameReset() && revealed == None
      ensures isAdmin && cmd.TogglePresenterView? ==>
        && gameState == old(gameState.(presenterMode := cmd.mode))
        && players == old(players) && order == old(order) && revealed == None
      ensures isAdmin && (cmd.KickPlayer? || cmd.RevivePlayer? || cmd.ReviveAll? || cmd.ReviveRound?) ==>
        gameState == old(gameState) && revealed == None
      ensures isAdmin && cmd.KickPlayer? ==>
        players == old(players) - {cmd.studentId}
        && order == (if cmd.studentId in old(players) then Without(old(order), cmd.studentId) else old(order))
      ensures isAdmin && cmd.RevivePlayer? ==>
        && order == old(order)
        && players == (if cmd.studentId in old(players)
                       then old(players)[cmd.studentId := old(players)[cmd.studentId].(isAlive := true)]
                       else old(players))
      ensures isAdmin && cmd.ReviveAll? ==> players == ReviveEveryone(old(players)) && order == old(order)
      ensures isAdmin && cmd.ReviveRound? ==>
        && players == ReviveRoundOf(old(players), old(gameState.currentQuestionIndex)) && order == old(order)
        && revivedIds == StudentIds(Gather(old(order), old(players), DiedIn(old(gameState.currentQuestionIndex))))
      ensures !(isAdmin && cmd.ReviveRound?) ==> revivedIds == []
    {
      revealed, revivedIds := None, [];
      if !isAdmin {
        return;
      }
      match cmd {
        case StartSpecific(index, duration) =>
          StartQuestion(index, duration);
        case EndQuestionNow =>
          if gameState.phase == Question {
            var packet := EndQuestion();
            revealed := Some(packet);
          }
        case ResetAll =>
          ResetGame();
        case TogglePresenterView(mode) =>
          gameState := gameState.(presenterMode := mode);
        case KickPlayer(studentId) =>
          Kick(studentId);
        case RevivePlayer(studentId) =>
          RevivePlayerById(studentId);
        case ReviveAll =>
          ReviveEveryPlayer();
        case ReviveRound =>
          revivedIds := ReviveLastRound();
        case Unrecognized =>
      }
    }
  }
}
