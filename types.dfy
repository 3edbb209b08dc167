/** The records of the quiz server: questions, players and their answers, room
    settings, and the leaderboard and results views built from them. */
module Types {

  datatype Option<+T> = None | Some(value: T)

  /** The two scoring curves a room can be configured with. */
  datatype Decay = Linear | Exponential

  /** The lifecycle of a room: 'lobby', 'countdown', 'question', 'results',
      'leaderboard' and 'finished'. */
  datatype Status = Lobby | Countdown | QuestionOpen | Results | Leaderboard | Finished

  type PositiveInt = n: int | n > 0 witness 1

  /** A multiple-choice question; `timeLimit` is in seconds. */
  datatype Question = Question(
    id: string,
    text: string,
    options: seq<string>,
    correctIndex: int,
    timeLimit: PositiveInt,
    points: nat,
    imageUrl: Option<string>)

  /** What players see of a question while it is open: everything but the correct index. */
  datatype QuestionView = QuestionView(
    id: string,
    text: string,
    options: seq<string>,
    timeLimit: PositiveInt,
    points: nat,
    imageUrl: Option<string>)

  /** One submitted answer; `submittedAt` is a millisecond timestamp. */
  datatype Answer = Answer(
    questionIndex: int,
    selectedOption: Option<int>,
    submittedAt: int,
    isCorrect: bool,
    pointsEarned: int)

  datatype Player = Player(
    id: string,
    username: string,
    score: int,
    lastQuestionScore: int,
    isConnected: bool,
    joinedAt: int,
    answers: seq<Answer>,
    hasAnswered: bool)

  datatype Settings = Settings(
    timeDecay: Decay,
    questionTimeLimit: int,
    maxPlayers: int,
    allowLateJoin: bool,
    showCorrectAnswer: bool)

  /** The settings every room is created with. */
  const DefaultSettings := Settings(Linear, 20, 50, false, true)

  datatype LeaderboardEntry = LeaderboardEntry(
    rank: int,
    playerId: string,
    username: string,
    score: int,
    lastQuestionScore: int)

  /** One player's line in the results of a question; `selectedOption` is `None`
      for a player who did not answer it. */
  datatype PlayerResult = PlayerResult(
    playerId: string,
    selectedOption: Option<int>,
    isCorrect: bool,
    pointsEarned: int)

  datatype QuestionResults = QuestionResults(
    correctIndex: int,
    playerAnswers: seq<PlayerResult>,
    optionCounts: seq<int>)
}
