/** The room engine of server/src/game.ts: one room's players, the question
    progression, answer submission and scoring, and the views derived from them
    (current question, leaderboard, question results). */
module Game {
  import opened Types
  import opened Collections
  import opened Text
  import opened Scoring
  import opened Ranking

  const MaxUsernameLength := 20
  const FallbackUsername := "Oyuncu"

  // ---------------------------------------------------------------------------
  // Usernames

  /** `username.trim().substring(0, 20)`. */
  function Normalize(username: string): (t: string)
    ensures |t| <= MaxUsernameLength
    ensures t == [] <==> forall i :: 0 <= i < |username| ==> IsSpace(username[i])
  {
    Take(Trim(username), MaxUsernameLength)
  }

  /** The normalized name is the trimmed name cut to its first 20 characters, and
      the trimmed name is what is left of the name once the white space at both
      ends is cut off. */
  lemma NormalizeIsTrimmedPrefix(username: string)
    ensures var trimmed := Trim(username);
      var t := Normalize(username);
      && |t| == (if |trimmed| <= MaxUsernameLength then |trimmed| else MaxUsernameLength)
      && t == trimmed[..|t|]
      && exists a :: IsSliceBetweenSpaces(username, a, trimmed)
  {
    TrimIsSlice(username);
  }

  /** `k` is the smallest number from 2 upwards for which `base` followed by `k`
      is not among the `taken` names. */
  ghost predicate IsSmallestFreeSuffix(base: string, taken: set<string>, k: nat) {
    && k >= 2
    && base + DecimalString(k) !in taken
    && forall j: nat :: 2 <= j < k ==> base + DecimalString(j) in taken
  }

  /** The names `base` followed by 2, 3, ..., n - 1. */
  ghost function Suffixed(base: string, n: nat): set<string> {
    set j: nat | 2 <= j < n :: base + DecimalString(j)
  }

  lemma SuffixedStep(base: string, n: nat)
    requires n >= 2
    ensures Suffixed(base, n + 1) == Suffixed(base, n) + {base + DecimalString(n)}
    ensures base + DecimalString(n) !in Suffixed(base, n)
  {
    if base + DecimalString(n) in Suffixed(base, n) {
      var j: nat :| 2 <= j < n && base + DecimalString(j) == base + DecimalString(n);
      AppendCancel(base, DecimalString(j), DecimalString(n));
      DecimalStringInjective(j, n);
      assert false;
    }
  }

  /** What `validateUsername` returns for `username` when the room's players have
      the lower-cased names `taken`: the fallback for a blank name, the normalized
      name when it is free, and otherwise the normalized name followed by the
      smallest free suffix. */
  ghost predicate IsValidatedName(username: string, taken: set<string>, name: string) {
    var t := Normalize(username);
    if t == [] then name == FallbackUsername
    else if Lower(t) !in taken then name == t
    else exists k: nat :: IsSmallestFreeSuffix(Lower(t), taken, k) && name == t + DecimalString(k)
  }

  /** The three outcomes leave no choice: at most one name is the validated one. */
  lemma ValidatedNameIsUnique(username: string, taken: set<string>, n1: string, n2: string)
    requires IsValidatedName(username, taken, n1) && IsValidatedName(username, taken, n2)
    ensures n1 == n2
  {
    var t := Normalize(username);
    if t != [] && Lower(t) in taken {
      var k1: nat :| IsSmallestFreeSuffix(Lower(t), taken, k1) && n1 == t + DecimalString(k1);
      var k2: nat :| IsSmallestFreeSuffix(Lower(t), taken, k2) && n2 == t + DecimalString(k2);
      if k1 < k2 {
        assert false;
      } else if k2 < k1 {
        assert false;
      }
    }
  }

  /** Except for the fallback, the validated name never clashes case-insensitively
      with a name already in the room. */
  lemma ValidatedNameIsFresh(username: string, taken: set<string>, name: string)
    requires IsValidatedName(username, taken, name)
    requires Normalize(username) != []
    ensures Lower(name) !in taken
  {
    var t := Normalize(username);
    if Lower(t) in taken {
      var k: nat :| IsSmallestFreeSuffix(Lower(t), taken, k) && name == t + DecimalString(k);
      LowerAppendDigits(t, k);
    }
  }

  /** The fallback is not de-duplicated: a blank name joining a room that already
      has an "Oyuncu" is given "Oyuncu" again. */
  lemma FallbackIsNotDeduplicated()
    ensures IsValidatedName(" ", {Lower(FallbackUsername)}, FallbackUsername)
  {
    assert IsSpace(" "[0]);
  }

  // ---------------------------------------------------------------------------
  // Players and answers

  /** The sum of the points of `answers`. */
  function TotalPoints(answers: seq<Answer>): int {
    if answers == [] then 0
    else TotalPoints(answers[..|answers| - 1]) + answers[|answers| - 1].pointsEarned
  }

  /** The answers are for questions 0 to `bound`, listed in strictly increasing
      order of question index, and none earned negative points. */
  ghost predicate AnswersBelow(answers: seq<Answer>, bound: int) {
    answers == [] ||
    var last := answers[|answers| - 1];
    && 0 <= last.questionIndex <= bound
    && last.pointsEarned >= 0
    && AnswersBelow(answers[..|answers| - 1], last.questionIndex - 1)
  }

  /** `AnswersBelow` spelled out: every answer is for a question in [0, bound]
      with non-negative points, and the question indexes strictly increase, so a
      player holds at most one answer per question. */
  lemma {:induction false} AnswersBelowOrdered(answers: seq<Answer>, bound: int)
    requires AnswersBelow(answers, bound)
    ensures forall i :: 0 <= i < |answers| ==>
      0 <= answers[i].questionIndex <= bound && answers[i].pointsEarned >= 0
    ensures forall i, j :: 0 <= i < j < |answers| ==> answers[i].questionIndex < answers[j].questionIndex
  {
    if answers != [] {
      var n := |answers| - 1;
      var prefix := answers[..n];
      AnswersBelowOrdered(prefix, answers[n].questionIndex - 1);
      assert forall i :: 0 <= i < n ==> answers[i] == prefix[i];
    }
  }

  /** A larger bound admits every list a smaller one does. */
  lemma AnswersBelowWeaken(answers: seq<Answer>, b1: int, b2: int)
    requires AnswersBelow(answers, b1) && b1 <= b2
    ensures AnswersBelow(answers, b2)
  {
  }

  /** What a player record keeps true while it is in a room whose current question
      index is `current`: its score is the sum of its answers' points, its answers
      satisfy `AnswersBelow(_, current)`, and an answer to the current question
      means the player is marked as having answered. */
  ghost predicate PlayerValid(p: Player, current: int) {
    && p.score == TotalPoints(p.answers)
    && AnswersBelow(p.answers, current)
    && (p.answers != [] && p.answers[|p.answers| - 1].questionIndex == current ==> p.hasAnswered)
  }

  /** Every record of a player table is keyed by its own id and valid. */
  ghost predicate TableValid(players: map<string, Player>, current: int) {
    forall k :: k in players ==> players[k].id == k && PlayerValid(players[k], current)
  }

  lemma TableUpdate(players: map<string, Player>, current: int, k: string, p: Player)
    requires TableValid(players, current) && p.id == k && PlayerValid(p, current)
    ensures TableValid(players[k := p], current)
  {
  }

  lemma TableRemove(players: map<string, Player>, current: int, k: string)
    requires TableValid(players, current)
    ensures TableValid(players - {k}, current)
  {
  }

  /** Moving to the next question index keeps every record valid. */
  lemma TableAdvance(players: map<string, Player>, current: int)
    requires TableValid(players, current)
    ensures TableValid(players, current + 1)
  {
    forall k | k in players ensures PlayerValid(players[k], current + 1) {
      assert PlayerValid(players[k], current);
      AnswersBelowWeaken(players[k].answers, current, current + 1);
    }
  }

  /** `reset` holds the records of `players`, each with its per-question fields
      reset. */
  ghost predicate IsResetOf(reset: map<string, Player>, players: map<string, Player>) {
    && reset.Keys == players.Keys
    && forall k :: k in reset ==> reset[k] == ResetForQuestion(players[k])
  }

  /** Opening question `current` and resetting the per-question fields of every
      record keeps the table valid. */
  lemma TableReset(players: map<string, Player>, reset: map<string, Player>, current: int)
    requires TableValid(players, current - 1) && IsResetOf(reset, players)
    ensures TableValid(reset, current)
  {
    forall k | k in reset ensures reset[k].id == k && PlayerValid(reset[k], current) {
      assert PlayerValid(players[k], current - 1);
      AnswersBelowWeaken(players[k].answers, current - 1, current);
    }
  }

  /** What a room keeps true of its players: the iteration order lists every key
      once, the index is at least -1, and the table is valid for that index. */
  ghost predicate RoomInvariant(order: seq<string>, players: map<string, Player>, current: int) {
    && NoDuplicates(order)
    && (forall k :: k in order <==> k in players)
    && current >= -1
    && TableValid(players, current)
  }

  /** Finishing the game moves the index past the last question and keeps the
      invariant. */
  lemma FinishKeepsInvariant(order: seq<string>, players: map<string, Player>, current: int)
    requires RoomInvariant(order, players, current)
    ensures RoomInvariant(order, players, current + 1)
  {
    TableAdvance(players, current);
  }

  /** Opening the next question with every record reset keeps the invariant, and
      then nobody has answered yet. */
  lemma OpenKeepsInvariant(order: seq<string>, players: map<string, Player>, reset: map<string, Player>, current: int)
    requires RoomInvariant(order, players, current) && IsResetOf(reset, players)
    ensures RoomInvariant(order, reset, current + 1)
    ensures forall k :: k in reset ==> !reset[k].hasAnswered
    ensures (forall k :: k in reset ==> reset[k].hasAnswered) <==> reset == map[]
  {
    TableReset(players, reset, current + 1);
    assert reset != map[] ==> exists k :: k in reset && !reset[k].hasAnswered;
  }

  /** The `forEach` of `nextQuestion`: every record of `players`, visited in
      iteration order, has its per-question fields reset. */
  method ResetAll(players: map<string, Player>, order: seq<string>) returns (reset: map<string, Player>)
    requires forall k :: k in order <==> k in players
    ensures IsResetOf(reset, players)
  {
    reset := players;
    var i := 0;
    while i < |order|
      invariant 0 <= i <= |order|
      invariant reset.Keys == players.Keys
      invariant forall j :: 0 <= j < i ==> reset[order[j]] == ResetForQuestion(players[order[j]])
      invariant forall k :: k in players && k !in order[..i] ==> reset[k] == players[k]
    {
      var k := order[i];
      assert forall k' :: k' in order[..i + 1] <==> k' in order[..i] || k' == k;
      reset := reset[k := ResetForQuestion(reset[k])];
      i := i + 1;
    }
    forall k | k in reset ensures reset[k] == ResetForQuestion(players[k]) {
      assert order[..i] == order;
      var j :| 0 <= j < |order| && order[j] == k;
    }
  }

  /** Cumulative scores are never negative. */
  lemma {:induction false} TotalPointsNonNegative(answers: seq<Answer>, bound: int)
    requires AnswersBelow(answers, bound)
    ensures TotalPoints(answers) >= 0
  {
    if answers != [] {
      var n := |answers| - 1;
      TotalPointsNonNegative(answers[..n], answers[n].questionIndex - 1);
    }
  }

  /** What a valid table guarantees of each player: the score is the sum of the
      points recorded in its answers and is never negative, every answer is for a
      question up to `current`, and no question is answered twice. */
  lemma TableFacts(players: map<string, Player>, current: int, k: string)
    requires TableValid(players, current) && k in players
    ensures players[k].score == TotalPoints(players[k].answers) && players[k].score >= 0
    ensures forall i :: 0 <= i < |players[k].answers| ==> players[k].answers[i].questionIndex <= current
    ensures forall i, j :: 0 <= i < j < |players[k].answers| ==>
      players[k].answers[i].questionIndex != players[k].answers[j].questionIndex
  {
    var p := players[k];
    assert PlayerValid(p, current);
    AnswersBelowOrdered(p.answers, current);
    TotalPointsNonNegative(p.answers, current);
  }

  /** The record `addPlayer` stores for a new connection. */
  function NewPlayer(socketId: string, username: string, now: int): (p: Player)
    ensures p.id == socketId && p.username == username && p.isConnected && !p.hasAnswered
    ensures forall current :: PlayerValid(p, current)
  {
    Player(socketId, username, 0, 0, true, now, [], false)
  }

  /** The player after `submitAnswer` recorded `a` for it. */
  function Answered(p: Player, a: Answer): (q: Player)
    ensures q.id == p.id && q.username == p.username
    ensures |q.answers| == |p.answers| + 1 && q.answers[..|p.answers|] == p.answers && q.answers[|p.answers|] == a
    ensures q.score - TotalPoints(q.answers) == p.score - TotalPoints(p.answers)
    ensures q.hasAnswered && q.lastQuestionScore == a.pointsEarned
  {
    assert (p.answers + [a])[..|p.answers|] == p.answers;
    p.(answers := p.answers + [a], score := p.score + a.pointsEarned,
       lastQuestionScore := a.pointsEarned, hasAnswered := true)
  }

  /** The player after `nextQuestion` opened a new question. */
  function ResetForQuestion(p: Player): (q: Player)
    ensures q.id == p.id && q.answers == p.answers && q.score == p.score
    ensures !q.hasAnswered && q.lastQuestionScore == 0
    ensures forall current :: PlayerValid(p, current - 1) ==> PlayerValid(q, current)
  {
    var q := p.(hasAnswered := false, lastQuestionScore := 0);
    assert forall current :: PlayerValid(p, current - 1) ==> PlayerValid(q, current) by {
      forall current | PlayerValid(p, current - 1) ensures PlayerValid(q, current) {
        AnswersBelowWeaken(p.answers, current - 1, current);
      }
    }
    q
  }

  /** A valid record not marked as answered holds no answer to the current
      question: all its answers are for earlier ones. */
  lemma NotAnsweredIsUnanswered(p: Player, current: int)
    ensures PlayerValid(p, current) && !p.hasAnswered ==>
      forall i :: 0 <= i < |p.answers| ==> p.answers[i].questionIndex < current
  {
    if PlayerValid(p, current) && !p.hasAnswered && p.answers != [] {
      AnswersBelowOrdered(p.answers, current);
    }
  }

  /** Recording an answer to the current question, which the player has not
      answered yet, keeps the player record valid. */
  lemma AnsweredValid(p: Player, current: int, a: Answer)
    requires PlayerValid(p, current) && !p.hasAnswered
    requires a.questionIndex == current >= 0 && a.pointsEarned >= 0
    ensures PlayerValid(Answered(p, a), current)
  {
    var q := Answered(p, a);
    assert q.answers[..|q.answers| - 1] == p.answers;
    assert AnswersBelow(p.answers, current - 1);
  }

  /** `answers.find(a => a.questionIndex === index)`. */
  function FindAnswer(answers: seq<Answer>, index: int): (r: Option<Answer>)
    ensures r.None? <==> forall i :: 0 <= i < |answers| ==> answers[i].questionIndex != index
    ensures r.Some? ==> r.value in answers && r.value.questionIndex == index
  {
    if answers == [] then None
    else if answers[0].questionIndex == index then Some(answers[0])
    else FindAnswer(answers[1..], index)
  }

  /** The option a player selected for question `index`, if any. */
  function SelectionOf(p: Player, index: int): Option<int> {
    match FindAnswer(p.answers, index)
    case Some(a) => a.selectedOption
    case None => None
  }

  /** The line of `getQuestionResults` for one player: a player without an answer
      to the question appears with no selection, not correct and no points; one
      with an answer appears with the first answer `find` meets. */
  function ResultOf(p: Player, index: int): (r: PlayerResult)
    ensures r.playerId == p.id
    ensures (forall i :: 0 <= i < |p.answers| ==> p.answers[i].questionIndex != index) ==>
      r.selectedOption.None? && !r.isCorrect && r.pointsEarned == 0
    ensures forall i ::
      (0 <= i < |p.answers| && p.answers[i].questionIndex == index
       && (forall j :: 0 <= j < i ==> p.answers[j].questionIndex != index)) ==>
      (r.selectedOption == p.answers[i].selectedOption && r.isCorrect == p.answers[i].isCorrect
       && r.pointsEarned == p.answers[i].pointsEarned)
  {
    FindFirst(p.answers, index);
    match FindAnswer(p.answers, index)
    case Some(a) => PlayerResult(p.id, a.selectedOption, a.isCorrect, a.pointsEarned)
    case None => PlayerResult(p.id, None, false, 0)
  }

  /** `find` returns the first matching answer. */
  lemma {:induction false} FindFirst(answers: seq<Answer>, index: int)
    ensures forall i ::
      (0 <= i < |answers| && answers[i].questionIndex == index
       && (forall j :: 0 <= j < i ==> answers[j].questionIndex != index)) ==>
      FindAnswer(answers, index) == Some(answers[i])
  {
    if answers != [] && answers[0].questionIndex != index {
      FindFirst(answers[1..], index);
      forall i | 0 < i < |answers| && answers[i].questionIndex == index
        && (forall j :: 0 <= j < i ==> answers[j].questionIndex != index)
        ensures FindAnswer(answers, index) == Some(answers[i])
      {
        assert answers[1..][i - 1] == answers[i];
      }
    }
  }

  /** How many of `ps` selected option `k` for question `index`. */
  function CountSelecting(ps: seq<Player>, index: int, k: int): (n: nat)
    ensures n <= |ps|
  {
    if ps == [] then 0
    else CountSelecting(ps[..|ps| - 1], index, k) + (if SelectionOf(ps[|ps| - 1], index) == Some(k) then 1 else 0)
  }

  lemma CountSelectingStep(ps: seq<Player>, i: nat, index: int, k: int)
    requires i < |ps|
    ensures CountSelecting(ps[..i + 1], index, k)
      == CountSelecting(ps[..i], index, k) + (if SelectionOf(ps[i], index) == Some(k) then 1 else 0)
  {
    assert ps[..i + 1][..i] == ps[..i];
  }

  /** The loop of `getQuestionResults` over the players `ps`: one result line per
      player, and a counter per option, bumped for every player whose answer to
      question `index` selected it. */
  method TallyAnswers(ps: seq<Player>, index: int, optionCount: nat)
    returns (playerAnswers: seq<PlayerResult>, counts: seq<int>)
    ensures |playerAnswers| == |ps|
    ensures forall j :: 0 <= j < |ps| ==> playerAnswers[j] == ResultOf(ps[j], index)
    ensures |counts| == optionCount
    ensures forall k :: 0 <= k < optionCount ==> counts[k] == CountSelecting(ps, index, k)
  {
    var optionCounts := new int[optionCount](_ => 0);
    playerAnswers := [];
    var i := 0;
    while i < |ps|
      invariant 0 <= i <= |ps|
      invariant |playerAnswers| == i
      invariant forall j :: 0 <= j < i ==> playerAnswers[j] == ResultOf(ps[j], index)
      invariant forall k :: 0 <= k < optionCounts.Length ==>
        optionCounts[k] == CountSelecting(ps[..i], index, k)
    {
      var player := ps[i];
      var answer := FindAnswer(player.answers, index);
      ghost var before := optionCounts[..];
      if answer.Some? && answer.value.selectedOption.Some? {
        var selected := answer.value.selectedOption.value;
        if 0 <= selected < optionCounts.Length {
          optionCounts[selected] := optionCounts[selected] + 1;
        }
      }
      forall k | 0 <= k < optionCounts.Length
        ensures optionCounts[k] == CountSelecting(ps[..i + 1], index, k)
      {
        assert optionCounts[k] == before[k] + (if SelectionOf(player, index) == Some(k) then 1 else 0);
        CountSelectingStep(ps, i, index, k);
      }
      playerAnswers := playerAnswers + [ResultOf(player, index)];
      i := i + 1;
    }
    assert ps[..|ps|] == ps;
    counts := optionCounts[..];
  }

  /** The view of a question: every field but `correctIndex`. */
  function ViewOf(q: Question): (v: QuestionView)
    ensures v.id == q.id && v.text == q.text && v.options == q.options
    ensures v.timeLimit == q.timeLimit && v.points == q.points && v.imageUrl == q.imageUrl
  {
    QuestionView(q.id, q.text, q.options, q.timeLimit, q.points, q.imageUrl)
  }

  /** The view determines every field of the question except the correct index,
      and reveals nothing about that one. */
  lemma ViewHidesCorrectIndex(q1: Question, q2: Question)
    ensures ViewOf(q1) == ViewOf(q2) <==> q1.(correctIndex := 0) == q2.(correctIndex := 0)
  {
  }

  /** `(Date.now() - questionStartTime) / 1000`. */
  function ElapsedSeconds(now: int, start: int): (seconds: real)
    ensures seconds * 1000.0 == (now - start) as real
    ensures now >= start ==> seconds >= 0.0
  {
    (now - start) as real / 1000.0
  }

  // ---------------------------------------------------------------------------
  // The room

  class Room {
    const id: string
    const hostId: string
    var status: Status
    /** The player map, and its keys in the order the `Map` iterates them
        (insertion order). */
    var players: map<string, Player>
    var order: seq<string>
    const questions: seq<Question>
    var currentQuestionIndex: int
    const settings: Settings
    const createdAt: int
    var questionStartTime: Option<int>

    ghost predicate Valid()
      reads this
    {
      RoomInvariant(order, players, currentQuestionIndex) && settings == DefaultSettings
    }

    /** The room `createRoom` builds around a fresh code. */
    constructor (code: string, hostId: string, questions: seq<Question>, now: int)
      ensures Valid()
      ensures id == code && this.hostId == hostId && this.questions == questions && createdAt == now
      ensures status == Lobby && players == map[] && order == []
      ensures currentQuestionIndex == -1 && questionStartTime == None
      ensures settings == DefaultSettings
    {
      id := code;
      this.hostId := hostId;
      status := Lobby;
      players := map[];
      order := [];
      this.questions := questions;
      currentQuestionIndex := -1;
      settings := DefaultSettings;
      createdAt := now;
      questionStartTime := None;
    }

    /** `[...room.players.values()]`. */
    function PlayerList(): (ps: seq<Player>)
      reads this
      requires Valid()
      ensures |ps| == |order|
      ensures forall i :: 0 <= i < |order| ==> ps[i] == players[order[i]]
    {
      ValuesAt(players, order)
    }

    /** `getPlayerCount`: the number of players, as many as keys in iteration order. */
    function PlayerCount(): (n: nat)
      reads this
      requires Valid()
      ensures n == |order|
    {
      assert players.Keys == set k | k in order;
      DistinctCardinality(order);
      |players|
    }

    /** The lower-cased usernames already in the room. */
    function ExistingNames(): (names: set<string>)
      reads this
      ensures forall k :: k in players ==> Lower(players[k].username) in names
      ensures forall n :: n in names ==> exists k :: k in players && n == Lower(players[k].username)
    {
      set k | k in players :: Lower(players[k].username)
    }

    /** `getPlayer`. */
    function GetPlayer(playerId: string): (r: Option<Player>)
      reads this
      requires Valid()
      ensures r.Some? <==> playerId in players
      ensures r.Some? ==> r.value == players[playerId] && r.value.id == playerId
    {
      if playerId in players then Some(players[playerId]) else None
    }

    /** `validateUsername`, with the suffix search loop. */
    method ValidateUsername(username: string) returns (name: string)
      ensures IsValidatedName(username, ExistingNames(), name)
    {
      var trimmed := Normalize(username);
      if trimmed == [] {
        return FallbackUsername;
      }
      var normalized := Lower(trimmed);
      var existing := ExistingNames();
      if normalized !in existing {
        return trimmed;
      }
      var suffix: nat := 2;
      ghost var tried: set<string> := {};
      while normalized + DecimalString(suffix) in existing
        invariant suffix >= 2
        invariant forall j: nat :: 2 <= j < suffix ==> normalized + DecimalString(j) in existing
        invariant tried == Suffixed(normalized, suffix)
        invariant tried <= existing
        decreases existing - tried
      {
        SuffixedStep(normalized, suffix);
        tried := tried + {normalized + DecimalString(suffix)};
        suffix := suffix + 1;
      }
      assert IsSmallestFreeSuffix(normalized, existing, suffix);
      name := trimmed + DecimalString(suffix);
    }

    /** `addPlayer`: refused when the room is full or has left the lobby without late
        joins; otherwise stores a fresh record under `socketId` with the validated
        name. */
    method AddPlayer(socketId: string, username: string, now: int) returns (player: Option<Player>)
      requires Valid()
      modifies this
      ensures Valid()
      ensures status == old(status) && currentQuestionIndex == old(currentQuestionIndex)
      ensures questionStartTime == old(questionStartTime)
      ensures player.None? <==>
        |old(players)| >= settings.maxPlayers || (old(status) != Lobby && !settings.allowLateJoin)
      ensures player.None? ==> players == old(players) && order == old(order)
      ensures player.Some? ==>
        && IsValidatedName(username, old(ExistingNames()), player.value.username)
        && player.value == NewPlayer(socketId, player.value.username, now)
        && players == old(players)[socketId := player.value]
        && order == (if socketId in old(players) then old(order) else old(order) + [socketId])
    {
      if |players| >= settings.maxPlayers {
        return None;
      }
      if status != Lobby && !settings.allowLateJoin {
        return None;
      }
      var name := ValidateUsername(username);
      var p := NewPlayer(socketId, name, now);
      TableUpdate(players, currentQuestionIndex, socketId, p);
      assert socketId !in players ==> NoDuplicates(order + [socketId]);
      if socketId !in players {
        order := order + [socketId];
      }
      players := players[socketId := p];
      player := Some(p);
    }

    /** `removePlayer`: deletes the key, a no-op when it is absent. */
    method RemovePlayer(playerId: string)
      requires Valid()
      modifies this
      ensures Valid()
      ensures players == old(players) - {playerId} && order == Without(old(order), playerId)
      ensures playerId !in old(players) ==> players == old(players) && order == old(order)
      ensures status == old(status) && currentQuestionIndex == old(currentQuestionIndex)
      ensures questionStartTime == old(questionStartTime)
    {
      TableRemove(players, currentQuestionIndex, playerId);
      players := players - {playerId};
      order := Without(order, playerId);
    }

    /** `setPlayerConnected`. */
    method SetPlayerConnected(playerId: string, connected: bool)
      requires Valid()
      modifies this
      ensures Valid()
      ensures players == if playerId in old(players)
        then old(players)[playerId := old(players)[playerId].(isConnected := connected)]
        else old(players)
      ensures order == old(order) && status == old(status)
      ensures currentQuestionIndex == old(currentQuestionIndex) && questionStartTime == old(questionStartTime)
    {
      if playerId in players {
        var p := players[playerId].(isConnected := connected);
        TableUpdate(players, currentQuestionIndex, playerId, p);
        players := players[playerId := p];
      }
    }

    /** `reconnectPlayer`: moves the record of `oldId` to the key `newId` (deleting
        then setting, so a new key goes last in iteration order), marks it
        connected and keeps its score and answers. */
    method ReconnectPlayer(oldId: string, newId: string) returns (player: Option<Player>)
      requires Valid()
      modifies this
      ensures Valid()
      ensures player.None? <==> oldId !in old(players)
      ensures player.None? ==> players == old(players) && order == old(order)
      ensures player.Some? ==>
        && player.value == old(players)[oldId].(id := newId, isConnected := true)
        && player.value.score == old(players)[oldId].score
        && player.value.answers == old(players)[oldId].answers
        && players == (old(players) - {oldId})[newId := player.value]
        && order == (if newId in old(players) - {oldId} then Without(old(order), oldId)
                     else Without(old(order), oldId) + [newId])
      ensures status == old(status) && currentQuestionIndex == old(currentQuestionIndex)
      ensures questionStartTime == old(questionStartTime)
    {
      if oldId !in players {
        return None;
      }
      var moved := players[oldId].(id := newId, isConnected := true);
      var rest := players - {oldId};
      var restOrder := Without(order, oldId);
      TableRemove(players, currentQuestionIndex, oldId);
      TableUpdate(rest, currentQuestionIndex, newId, moved);
      assert newId !in rest ==> NoDuplicates(restOrder + [newId]);
      order := if newId in rest then restOrder else restOrder + [newId];
      players := rest[newId := moved];
      player := Some(moved);
    }

    /** The checks `submitAnswer` makes before recording an answer: the player
        exists, has not answered yet, the current index names a question and a
        (truthy) start time is recorded. */
    predicate CanAnswer(playerId: string)
      reads this
      ensures CanAnswer(playerId) ==> playerId in players && 0 <= currentQuestionIndex < |questions|
      ensures CanAnswer(playerId) && Valid() ==>
        FindAnswer(players[playerId].answers, currentQuestionIndex).None?
    {
      if playerId !in players then false
      else
        NotAnsweredIsUnanswered(players[playerId], currentQuestionIndex);
        && !players[playerId].hasAnswered
        && 0 <= currentQuestionIndex < |questions|
        && questionStartTime.Some? && questionStartTime.value != 0
    }

    /** `submitAnswer`: records exactly one answer for the current question and adds
        its points to the player's score; fails and changes nothing otherwise. */
    method SubmitAnswer(playerId: string, optionIndex: int, now: int) returns (success: bool, pointsEarned: int)
      requires Valid()
      modifies this
      ensures Valid()
      ensures order == old(order) && status == old(status)
      ensures currentQuestionIndex == old(currentQuestionIndex) && questionStartTime == old(questionStartTime)
      ensures success == old(CanAnswer(playerId))
      ensures !success ==> pointsEarned == 0 && players == old(players)
      ensures success ==>
        var q := questions[currentQuestionIndex];
        var isCorrect := optionIndex == q.correctIndex;
        && pointsEarned == LinearScore(isCorrect, ElapsedSeconds(now, questionStartTime.value), q.timeLimit as real, q.points)
        && players == old(players)[playerId := Answered(old(players)[playerId],
             Answer(currentQuestionIndex, Some(optionIndex), now, isCorrect, pointsEarned))]
      ensures success ==> !CanAnswer(playerId)
    {
      if playerId !in players {
        return false, 0;
      }
      var player := players[playerId];
      if player.hasAnswered {
        return false, 0;
      }
      if !(0 <= currentQuestionIndex < |questions|) || questionStartTime.None? || questionStartTime.value == 0 {
        return false, 0;
      }
      var question := questions[currentQuestionIndex];
      var elapsed := ElapsedSeconds(now, questionStartTime.value);
      var isCorrect := optionIndex == question.correctIndex;
      pointsEarned := LinearScore(isCorrect, elapsed, question.timeLimit as real, question.points);
      var answer := Answer(currentQuestionIndex, Some(optionIndex), now, isCorrect, pointsEarned);
      AnsweredValid(player, currentQuestionIndex, answer);
      TableUpdate(players, currentQuestionIndex, playerId, Answered(player, answer));
      players := players[playerId := Answered(player, answer)];
      success := true;
    }

    /** `allPlayersAnswered`: every player in iteration order has answered. */
    function AllPlayersAnswered(): (r: bool)
      reads this
      requires Valid()
      ensures r <==> forall k :: k in players ==> players[k].hasAnswered
    {
      forall i :: 0 <= i < |order| ==> players[order[i]].hasAnswered
    }

    /** `nextQuestion`: advances the index by one; past the last question the room
        is finished, otherwise every player is reset for the new question, which
        opens at `now`. */
    method NextQuestion(now: int) returns (more: bool)
      requires Valid()
      modifies this
      ensures Valid()
      ensures order == old(order)
      ensures currentQuestionIndex == old(currentQuestionIndex) + 1
      ensures more <==> currentQuestionIndex < |questions|
      ensures !more ==> (status == Finished && players == old(players)
        && questionStartTime == old(questionStartTime))
      ensures more ==> status == QuestionOpen && questionStartTime == Some(now)
      ensures more ==> IsResetOf(players, old(players))
      ensures more ==> forall k :: k in players ==> !players[k].hasAnswered
    {
      var current := currentQuestionIndex;
      if current + 1 >= |questions| {
        FinishKeepsInvariant(order, players, current);
        currentQuestionIndex, status := current + 1, Finished;
        return false;
      }
      var reset := ResetAll(players, order);
      OpenKeepsInvariant(order, players, reset, current);
      currentQuestionIndex, players, status, questionStartTime := current + 1, reset, QuestionOpen, Some(now);
      more := true;
    }

    /** `getCurrentQuestionView`: the open question without its correct index. */
    function GetCurrentQuestionView(): (v: Option<QuestionView>)
      reads this
      ensures v.Some? <==> 0 <= currentQuestionIndex < |questions|
      ensures v.Some? ==> v.value == ViewOf(questions[currentQuestionIndex])
    {
      if 0 <= currentQuestionIndex < |questions| then Some(ViewOf(questions[currentQuestionIndex])) else None
    }

    /** `getLeaderboard`: the players ranked by descending score, equal scores in
        iteration order, each row ranked by its position. */
    function GetLeaderboard(): (r: seq<LeaderboardEntry>)
      reads this
      requires Valid()
      ensures |r| == |order|
      ensures forall i :: 0 <= i < |r| ==> r[i].rank == i + 1
      ensures forall i, j :: 0 <= i < j < |r| ==> r[i].score >= r[j].score
      ensures exists ranked: seq<Player> ::
        && multiset(ranked) == multiset(PlayerList())
        && SortedByScore(ranked)
        && (forall s :: WithScore(ranked, s) == WithScore(PlayerList(), s))
        && r == Entries(ranked)
    {
      var ranked := SortByScore(PlayerList());
      assert |ranked| == |PlayerList()| by {
        assert |multiset(ranked)| == |multiset(PlayerList())|;
      }
      Entries(ranked)
    }

    /** `getQuestionResults` for the current question: one line per player in
        iteration order and, per option, how many players selected it. */
    method GetQuestionResults() returns (r: QuestionResults)
      requires Valid()
      requires 0 <= currentQuestionIndex < |questions|
      ensures r.correctIndex == questions[currentQuestionIndex].correctIndex
      ensures |r.playerAnswers| == |order|
      ensures forall i :: 0 <= i < |order| ==>
        r.playerAnswers[i] == ResultOf(players[order[i]], currentQuestionIndex)
      ensures |r.optionCounts| == |questions[currentQuestionIndex].options|
      ensures forall k :: 0 <= k < |r.optionCounts| ==>
        r.optionCounts[k] == CountSelecting(PlayerList(), currentQuestionIndex, k)
    {
      var question := questions[currentQuestionIndex];
      var playerAnswers, optionCounts := TallyAnswers(PlayerList(), currentQuestionIndex, |question.options|);
      r := QuestionResults(question.correctIndex, playerAnswers, optionCounts);
    }

    // -------------------------------------------------------------------------
    // Status writes of the socket handlers in server/src/index.ts

    /** 'host:start-game': only the host may start, and only with a player present;
        the room then counts down. */
    method StartGame(callerId: string) returns (started: bool)
      requires Valid()
      modifies this`status
      ensures Valid()
      ensures started <==> callerId == hostId && players != map[]
      ensures status == if started then Countdown else old(status)
    {
      if callerId != hostId || players == map[] {
        return false;
      }
      status := Countdown;
      started := true;
    }

    /** `endQuestion`: the question closes and its results are computed. */
    method EndQuestion() returns (results: QuestionResults)
      requires Valid()
      requires 0 <= currentQuestionIndex < |questions|
      modifies this`status
      ensures Valid()
      ensures status == Results
      ensures results.correctIndex == questions[currentQuestionIndex].correctIndex
      ensures |results.playerAnswers| == |order|
      ensures forall i :: 0 <= i < |order| ==>
        results.playerAnswers[i] == ResultOf(players[order[i]], currentQuestionIndex)
      ensures |results.optionCounts| == |questions[currentQuestionIndex].options|
      ensures forall k :: 0 <= k < |results.optionCounts| ==>
        results.optionCounts[k] == CountSelecting(PlayerList(), currentQuestionIndex, k)
    {
      status := Results;
      results := GetQuestionResults();
    }

    /** The delayed step after the results: the room shows the leaderboard. */
    method ShowLeaderboard() returns (leaderboard: seq<LeaderboardEntry>)
      requires Valid()
      modifies this`status
      ensures Valid()
      ensures status == Leaderboard
      ensures leaderboard == GetLeaderboard()
    {
      status := Leaderboard;
      leaderboard := GetLeaderboard();
    }

    /** 'host:end-game': only the host may end the game, from any status. */
    method EndGame(callerId: string) returns (ended: bool, finalLeaderboard: seq<LeaderboardEntry>)
      requires Valid()
      modifies this`status
      ensures Valid()
      ensures ended <==> callerId == hostId
      ensures status == if ended then Finished else old(status)
      ensures ended ==> finalLeaderboard == GetLeaderboard()
    {
      if callerId != hostId {
        return false, [];
      }
      status := Finished;
      ended := true;
      finalLeaderboard := GetLeaderboard();
    }
  }
}
