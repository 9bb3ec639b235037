/**
 * The second iteration of the program (TicTacToe2/main.py): a game that
 * keeps its status, and Q-learning computers that learn from their
 * previous move one ply later, trained by self-play.
 */
module TicTacToe2 {
  import opened Wrappers
  import opened Board
  import opened QLearning

  // Rewards and penalties.
  const WIN_REWARD: int := 10
  const LOSE_REWARD: int := -10
  const DRAW_REWARD: int := 0
  const ACTION_REWARD: int := -1
  const INVALID_REWARD: int := -20

  /** Game states GOING, WIN and DRAW. */
  datatype Status = Going | Win | Draw

  /** What `step` returns: INVALID, WIN, DRAW, or None while the game goes on. */
  datatype StepResult = Invalid | Won | Drawn | Continue

  /** The board and status after a step, and what the step returned. */
  datatype Outcome = Outcome(board: Grid, status: Status, result: StepResult)

  /** `step(action, number)` as a function of the board and status before it. */
  function AfterStep(g: Grid, status: Status, action: int, number: int): Outcome
    requires IsGrid(g) && IsAction(action)
  {
    if !IsValid(g, action) then Outcome(g, status, Invalid)
    else
      var g' := Place(g, action, number);
      if IsWinner(g', number) then Outcome(g', Win, Won)
      else if IsDraw(g') then Outcome(g', Draw, Drawn)
      else Outcome(g', status, Continue)
  }

  /** An occupied cell is refused: INVALID, and neither board nor status changes. */
  lemma StepInvalid(g: Grid, status: Status, action: int, number: int)
    requires IsGrid(g) && IsAction(action)
    ensures AfterStep(g, status, action, number).result == Invalid <==> !IsValid(g, action)
    ensures !IsValid(g, action) ==>
      AfterStep(g, status, action, number).board == g &&
      AfterStep(g, status, action, number).status == status
  {
  }

  /** A legal step writes `number` into the chosen cell and leaves every other cell alone. */
  lemma StepChangesOneCell(g: Grid, status: Status, action: int, number: int)
    requires IsGrid(g) && IsAction(action) && IsValid(g, action)
    ensures IsGrid(AfterStep(g, status, action, number).board)
    ensures forall r, c :: 0 <= r < N && 0 <= c < N ==>
      AfterStep(g, status, action, number).board[r][c] ==
        if (r, c) == ActionCell(action) then number else g[r][c]
  {
    forall r, c | 0 <= r < N && 0 <= c < N
      ensures AfterStep(g, status, action, number).board[r][c] ==
        if (r, c) == ActionCell(action) then number else g[r][c]
    {
      PlaceAt(g, action, number, r, c);
    }
  }

  /**
   * After a legal step the outcome is decided in order: a line of the
   * mover's mark wins; otherwise a board with no legal move left is a
   * draw; otherwise the status is left as it was.
   */
  lemma StepDecides(g: Grid, status: Status, action: int, number: int)
    requires IsGrid(g) && IsAction(action) && IsValid(g, action)
    ensures var o := AfterStep(g, status, action, number);
      IsGrid(o.board) &&
      (o.result == Won <==> HasLine(o.board, number)) &&
      (o.result == Drawn <==> !HasLine(o.board, number) && LegalActions(o.board) == {}) &&
      (o.result == Continue <==> !HasLine(o.board, number) && LegalActions(o.board) != {}) &&
      o.status == (match o.result case Won => Win case Drawn => Draw case _ => status)
  {
    var g' := Place(g, action, number);
    IsWinnerIff(g', number);
    IsDrawIff(g');
  }

  /** A legal step of a player's mark keeps the board well formed and uses up that action. */
  lemma StepUsesAction(g: Grid, status: Status, action: int, number: int)
    requires IsGrid(g) && ValidMarks(g) && IsAction(action) && IsValid(g, action) && IsMark(number)
    ensures var g' := AfterStep(g, status, action, number).board;
      IsGrid(g') && ValidMarks(g') && LegalActions(g') == LegalActions(g) - {action} &&
      |LegalActions(g')| == |LegalActions(g)| - 1
  {
    PlaceKeepsMarks(g, action, number);
    PlaceUsesAction(g, action, number);
  }

  /** Player 1 in the centre of an empty board: only cell (1, 1) is marked and the game goes on. */
  lemma CentreOpening()
    ensures AfterStep(EmptyGrid(), Going, 4, X) ==
      Outcome([[EMPTY, EMPTY, EMPTY], [EMPTY, X, EMPTY], [EMPTY, EMPTY, EMPTY]], Going, Continue)
  {
    var g := EmptyGrid();
    assert ActionCell(4) == (1, 1);
    assert Place(g, 4, X) == g[1 := g[1][1 := X]];
    assert g[1][1 := X] == [EMPTY, X, EMPTY];
    FirstMoveNotTerminal(4, X);
  }

  /** Completing the top row wins for the mover. */
  lemma TopRowWins()
    ensures AfterStep([[X, X, EMPTY], [O, O, EMPTY], [EMPTY, EMPTY, EMPTY]], Going, 2, X) ==
      Outcome([[X, X, X], [O, O, EMPTY], [EMPTY, EMPTY, EMPTY]], Win, Won)
  {
    var g' := [[X, X, X], [O, O, EMPTY], [EMPTY, EMPTY, EMPTY]];
    var g := [[X, X, EMPTY], [O, O, EMPTY], [EMPTY, EMPTY, EMPTY]];
    assert ActionCell(2) == (0, 2);
    assert Place(g, 2, X) == g[0 := g[0][2 := X]];
    assert g[0][2 := X] == [X, X, X];
    IsWinnerIff(g', X);
    assert Three(g', X, 0, 0, 0, 1, 0, 2);
  }

  /** Filling the last cell without making a line is a draw. */
  lemma LastCellDraws()
    ensures AfterStep([[X, O, X], [X, O, O], [O, X, EMPTY]], Going, 8, X) ==
      Outcome([[X, O, X], [X, O, O], [O, X, X]], Draw, Drawn)
  {
    var g' := [[X, O, X], [X, O, O], [O, X, X]];
    var g := [[X, O, X], [X, O, O], [O, X, EMPTY]];
    assert ActionCell(8) == (2, 2);
    assert Place(g, 8, X) == g[2 := g[2][2 := X]];
    assert g[2][2 := X] == [O, X, X];
    IsWinnerIff(g', X);
    forall k | 0 <= k < N
      ensures !Three(g', X, k, 0, k, 1, k, 2) && !Three(g', X, 0, k, 1, k, 2, k)
    {
    }
  }

  /**
   * The reward `next_move` feeds back for its previous move: a step
   * penalty while the game goes on, and the outcome seen from this
   * computer's side once it is over. The invalid-move penalty is below
   * every one of them.
   */
  function TurnReward(status: Status, selfWon: bool): (r: int)
    ensures INVALID_REWARD < r <= WIN_REWARD
    ensures r == WIN_REWARD <==> status == Win && selfWon
    ensures r == LOSE_REWARD <==> status == Win && !selfWon
    ensures r == DRAW_REWARD <==> status == Draw
    ensures r == ACTION_REWARD <==> status == Going
  {
    match status
    case Going => ACTION_REWARD
    case Win => if selfWon then WIN_REWARD else LOSE_REWARD
    case Draw => DRAW_REWARD
  }

  /** The board, with its status. */
  class Game {
    var board: Grid
    var status: Status

    ghost predicate Valid()
      reads this
    {
      IsGrid(board) && ValidMarks(board)
    }

    /** `Game()`: an all-EMPTY board with status GOING. */
    constructor ()
      ensures Valid() && board == EmptyGrid() && status == Going
    {
      board := EmptyGrid();
      status := Going;
    }

    /** `game.__init__()` at the start of each episode. */
    method Reset()
      modifies this
      ensures Valid() && board == EmptyGrid() && status == Going
    {
      board := EmptyGrid();
      status := Going;
    }

    /** `step(action, number)`: place a mark if the cell is free, then decide the outcome. */
    method Step(action: int, number: int) returns (result: StepResult)
      requires Valid() && IsAction(action) && IsCellValue(number)
      modifies this
      ensures Valid()
      ensures Outcome(board, status, result) == AfterStep(old(board), old(status), action, number)
    {
      if !IsValid(board, action) {
        return Invalid;
      }
      PlaceKeepsMarks(board, action, number);
      ActionsBijection(action, 0, 0);
      var (r, c) := ActionCell(action);
      board := board[r := board[r][c := number]];
      if IsWinner(board, number) {
        status := Win;
        return Won;
      } else if IsDraw(board) {
        status := Draw;
        return Drawn;
      }
      return Continue;
    }
  }

  /** A Q-learning player with its own value table. */
  class Computer {
    var alpha: real
    var gamma: real
    var epsilon: real
    var q: array2<real>
    var lastAction: Option<int>
    var lastState: Option<int>
    var going: bool
    var number: int

    ghost predicate Valid()
      reads this
    {
      q.Length0 == OBSERVATION_SPACE && q.Length1 == ACTION_SPACE && IsMark(number) &&
      (lastState.Some? ==>
        0 <= lastState.value < OBSERVATION_SPACE && lastAction.Some? && IsAction(lastAction.value))
    }

    /**
     * `Computer(number, q_table_path, alpha, gamma, epsilon)`. `stored` is the
     * table found at the path, if any; without one the table starts at zero.
     */
    constructor (number: int, stored: Option<array2<real>>, alpha: real, gamma: real, epsilon: real)
      requires IsMark(number)
      requires stored.Some? ==>
        stored.value.Length0 == OBSERVATION_SPACE && stored.value.Length1 == ACTION_SPACE
      ensures Valid() && going && lastState == None && lastAction == None
      ensures this.number == number && this.alpha == alpha && this.gamma == gamma && this.epsilon == epsilon
      ensures stored.Some? ==> q == stored.value
      ensures stored.None? ==>
        fresh(q) && (forall i, j :: 0 <= i < q.Length0 && 0 <= j < q.Length1 ==> q[i, j] == 0.0)
    {
      this.alpha := alpha;
      this.gamma := gamma;
      this.epsilon := epsilon;
      match stored {
        case Some(t) =>
          q := t;
        case None =>
          q := new real[OBSERVATION_SPACE, ACTION_SPACE]((i, j) => 0.0);
      }
      lastAction := None;
      lastState := None;
      going := true;
      this.number := number;
    }

    /** `reward`: the temporal-difference update of entry (oldState, action), and of no other. */
    method Reward(oldState: int, action: int, reward: int, newState: int)
      requires Valid()
      requires 0 <= oldState < OBSERVATION_SPACE && IsAction(action) && 0 <= newState < OBSERVATION_SPACE
      modifies q
      ensures q[oldState, action] ==
        TdValue(alpha, gamma, old(q[oldState, action]), reward as real, RowMax(old(Row(q, newState))))
      ensures forall i, j :: 0 <= i < q.Length0 && 0 <= j < q.Length1 && (i, j) != (oldState, action) ==>
        q[i, j] == old(q[i, j])
    {
      var oldValue := q[oldState, action];
      var nextMax := RowMax(Row(q, newState));
      q[oldState, action] := TdValue(alpha, gamma, oldValue, reward as real, nextMax);
    }

    /**
     * `get_action(game, is_random)`: draw an action (any action when
     * exploring, the first best entry of the current row otherwise); if its
     * cell is taken, write INVALID_REWARD into that entry and draw again.
     * The retries are bounded by `attempts`; None means they ran out.
     * `rejected` lists the refused draws in order.
     */
    method GetAction(game: Game, isRandom: bool, attempts: nat) returns (action: Option<int>, ghost rejected: seq<int>)
      requires Valid() && game.Valid()
      modifies q
      ensures 0 <= GetState(game.board) < OBSERVATION_SPACE
      ensures action.Some? ==>
        IsAction(action.value) && IsValid(game.board, action.value) && action.value !in rejected
      ensures action.Some? && !isRandom ==> action.value == ArgMax(Row(q, GetState(game.board)))
      ensures action.None? ==> |rejected| == attempts
      // Every refused action is taken and has INVALID_REWARD in its entry at the current state ...
      ensures forall k :: 0 <= k < |rejected| ==>
        IsAction(rejected[k]) && !IsValid(game.board, rejected[k]) &&
        q[GetState(game.board), rejected[k]] == INVALID_REWARD as real
      // ... and no other entry changes.
      ensures forall i, j :: 0 <= i < q.Length0 && 0 <= j < q.Length1 ==>
        q[i, j] == old(q[i, j]) || (i == GetState(game.board) && j in rejected)
      ensures forall i, j :: 0 <= i < q.Length0 && 0 <= j < q.Length1 ==>
        q[i, j] == old(q[i, j]) ||
        (i == GetState(game.board) && !IsValid(game.board, j) && q[i, j] == INVALID_REWARD as real)
    {
      GetStateBound(game.board);
      var state := GetState(game.board);
      rejected := [];
      var tries := 0;
      while tries < attempts
        invariant tries <= attempts && |rejected| == tries
        invariant forall k :: 0 <= k < |rejected| ==>
          IsAction(rejected[k]) && !IsValid(game.board, rejected[k]) &&
          q[state, rejected[k]] == INVALID_REWARD as real
        invariant forall i, j :: 0 <= i < q.Length0 && 0 <= j < q.Length1 ==>
          q[i, j] == old(q[i, j]) || (i == state && j in rejected)
      {
        var a: int;
        if isRandom {
          a :| 0 <= a < ACTION_SPACE;
        } else {
          a := ArgMax(Row(q, state));
        }
        if IsValid(game.board, a) {
          return Some(a), rejected;
        }
        q[state, a] := INVALID_REWARD as real;
        rejected := rejected + [a];
        tries := tries + 1;
      }
      return None, rejected;
    }

    /**
     * `next_move(game)`. Once it has moved before, the computer first learns
     * from its previous move: from the outcome if the game is over (then it
     * stops and makes no move), else with the step penalty. Then it moves and
     * remembers the state it moved from and its action. `draw` is the
     * uniform draw that decides exploration; false means the retries ran out.
     */
    method NextMove(game: Game, draw: real, attempts: nat) returns (ok: bool)
      requires Valid() && game.Valid() && 0.0 <= draw <= 1.0
      modifies this, q, game
      ensures Valid() && game.Valid()
      ensures q == old(q) && number == old(number) && alpha == old(alpha) && gamma == old(gamma) &&
        epsilon == old(epsilon)
      ensures 0 <= old(GetState(game.board)) < OBSERVATION_SPACE
      // The game is over: learn from the outcome, stop, and do not move.
      ensures old(lastState).Some? && old(game.status) != Going ==>
        ok && !going && game.board == old(game.board) && game.status == old(game.status) &&
        lastState == old(lastState) && lastAction == old(lastAction)
      ensures old(lastState).Some? && old(game.status) != Going ==>
        forall i, j :: 0 <= i < q.Length0 && 0 <= j < q.Length1 ==>
          q[i, j] == if (i, j) == (old(lastState).value, old(lastAction).value)
            then TdValue(alpha, gamma, old(q[i, j]),
              TurnReward(old(game.status), IsWinner(old(game.board), number)) as real,
              RowMax(old(Row(q, GetState(game.board)))))
            else old(q[i, j])
      // The game goes on: learn with the step penalty, then make a legal move.
      ensures !(old(lastState).Some? && old(game.status) != Going) ==>
        going == old(going)
      ensures !(old(lastState).Some? && old(game.status) != Going) ==>
        forall i, j :: 0 <= i < q.Length0 && 0 <= j < q.Length1 ==>
          q[i, j] == (if old(lastState).Some? && (i, j) == (old(lastState).value, old(lastAction).value)
            then TdValue(alpha, gamma, old(q[i, j]), ACTION_REWARD as real,
              RowMax(old(Row(q, GetState(game.board)))))
            else old(q[i, j])) ||
          (i == old(GetState(game.board)) && !IsValid(old(game.board), j) &&
            q[i, j] == INVALID_REWARD as real)
      ensures !(old(lastState).Some? && old(game.status) != Going) && ok ==>
        lastState == Some(old(GetState(game.board))) && lastAction.Some? &&
        IsValid(old(game.board), lastAction.value) &&
        game.board == AfterStep(old(game.board), old(game.status), lastAction.value, number).board &&
        game.status == AfterStep(old(game.board), old(game.status), lastAction.value, number).status
      // Exploiting, the move played is the first best entry of the current row.
      ensures !(old(lastState).Some? && old(game.status) != Going) && ok && draw >= epsilon ==>
        lastAction.value == ArgMax(Row(q, old(GetState(game.board))))
      ensures !ok ==> game.board == old(game.board) && game.status == old(game.status)
      // Each call on an active computer moves the game on: a cell is used or the computer stops.
      ensures ok && old(going) ==>
        |LegalActions(game.board)| + (if going then 1 else 0) < |LegalActions(old(game.board))| + 1
    {
      GetStateBound(game.board);
      var state := GetState(game.board);
      if lastState.Some? {
        if game.status != Going {
          Reward(lastState.value, lastAction.value, TurnReward(game.status, IsWinner(game.board, number)), state);
          going := false;
          return true;
        }
        Reward(lastState.value, lastAction.value, ACTION_REWARD, state);
      }
      ok := Move(game, draw, attempts);
    }

    /**
     * The second half of `next_move`: choose a legal action, step with this
     * computer's number, and remember the state moved from and the action.
     */
    method Move(game: Game, draw: real, attempts: nat) returns (ok: bool)
      requires Valid() && game.Valid()
      modifies this, q, game
      ensures Valid() && game.Valid()
      ensures q == old(q) && number == old(number) && alpha == old(alpha) && gamma == old(gamma) &&
        epsilon == old(epsilon) && going == old(going)
      ensures 0 <= old(GetState(game.board)) < OBSERVATION_SPACE
      ensures forall i, j :: 0 <= i < q.Length0 && 0 <= j < q.Length1 ==>
        q[i, j] == old(q[i, j]) ||
        (i == old(GetState(game.board)) && !IsValid(old(game.board), j) && q[i, j] == INVALID_REWARD as real)
      ensures ok ==>
        lastState == Some(old(GetState(game.board))) && lastAction.Some? &&
        IsValid(old(game.board), lastAction.value) &&
        game.board == AfterStep(old(game.board), old(game.status), lastAction.value, number).board &&
        game.status == AfterStep(old(game.board), old(game.status), lastAction.value, number).status &&
        |LegalActions(game.board)| < |LegalActions(old(game.board))|
      // Exploiting, the move played is the first best entry of the current row.
      ensures ok && draw >= epsilon ==> lastAction.value == ArgMax(Row(q, old(GetState(game.board))))
      ensures !ok ==>
        game.board == old(game.board) && game.status == old(game.status) &&
        lastState == old(lastState) && lastAction == old(lastAction)
    {
      GetStateBound(game.board);
      var state := GetState(game.board);
      var action;
      ghost var rejected;
      action, rejected := GetAction(game, draw < epsilon, attempts);
      if action.None? {
        return false;
      }
      ghost var before := game.board;
      StepUsesAction(before, game.status, action.value, number);
      var _ := game.Step(action.value, number);
      assert |LegalActions(game.board)| < |LegalActions(before)|;
      lastState := Some(state);
      lastAction := action;
      return true;
    }
  }

  /**
   * `train(p1, p2, loops)`: `loops` self-play episodes. Each starts from an
   * empty board with both computers active and runs until both have stopped.
   * The progress bar and the final save are not modelled; false means a
   * computer ran out of retries.
   */
  method Train(p1: Computer, p2: Computer, loops: nat, attempts: nat) returns (ok: bool)
    requires p1 != p2 && p1.q != p2.q && p1.Valid() && p2.Valid()
    modifies p1, p2, p1.q, p2.q
    ensures p1.Valid() && p2.Valid() && p1.q == old(p1.q) && p2.q == old(p2.q)
    ensures ok && loops > 0 ==> !p1.going && !p2.going
  {
    var game := new Game();
    ok := true;
    for i := 0 to loops
      invariant p1.Valid() && p2.Valid() && game.Valid()
      invariant p1.q == old(p1.q) && p2.q == old(p2.q)
      invariant i > 0 ==> !p1.going && !p2.going
    {
      ok := Episode(game, p1, p2, attempts);
      if !ok {
        return;
      }
    }
  }

  /**
   * One episode of the training loop: a fresh board, both players going,
   * and turns alternating until both have seen the end of the game.
   */
  method Episode(game: Game, p1: Computer, p2: Computer, attempts: nat) returns (ok: bool)
    requires p1 != p2 && p1.q != p2.q && p1.Valid() && p2.Valid() && game.Valid()
    modifies game, p1, p2, p1.q, p2.q
    ensures p1.Valid() && p2.Valid() && game.Valid()
    ensures p1.q == old(p1.q) && p2.q == old(p2.q)
    ensures ok ==> !p1.going && !p2.going && game.status != Going
  {
    game.Reset();
    p1.going := true;
    p2.going := true;
    ok := true;
    while p1.going || p2.going
      invariant p1.Valid() && p2.Valid() && game.Valid()
      invariant p1.q == old(p1.q) && p2.q == old(p2.q)
      invariant !p1.going || !p2.going ==> game.status != Going
      decreases |LegalActions(game.board)| + (if p1.going then 1 else 0) + (if p2.going then 1 else 0)
    {
      ok := Turn(game, p1, attempts);
      if !ok {
        return;
      }
      ok := Turn(game, p2, attempts);
      if !ok {
        return;
      }
    }
  }

  /**
   * `if ai.going: ai.next_move(game)`, one turn of the episode loop. A
   * finished game stays finished, and a computer stops only once the game
   * is finished.
   */
  method Turn(game: Game, ai: Computer, attempts: nat) returns (ok: bool)
    requires ai.Valid() && game.Valid()
    modifies game, ai, ai.q
    ensures ai.Valid() && game.Valid() && ai.q == old(ai.q)
    ensures !old(ai.going) ==>
      ok && !ai.going && game.board == old(game.board) && game.status == old(game.status)
    ensures !old(ai.going) ==> ai.lastState == old(ai.lastState) && ai.lastAction == old(ai.lastAction)
    ensures !old(ai.going) ==>
      forall i, j :: 0 <= i < ai.q.Length0 && 0 <= j < ai.q.Length1 ==> ai.q[i, j] == old(ai.q[i, j])
    ensures old(game.status) != Going ==> game.status != Going
    ensures ok && old(ai.going) && !ai.going ==> game.status != Going
    ensures ok && old(ai.going) ==>
      |LegalActions(game.board)| + (if ai.going then 1 else 0) < |LegalActions(old(game.board))| + 1
  {
    ok := true;
    if ai.going {
      var draw := Uniform();
      ok := ai.NextMove(game, draw, attempts);
    }
  }
}
