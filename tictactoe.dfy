/**
 * The first iteration of the program (TicTacToe/main.py): a game whose
 * `step` returns a reward and a done flag, and one Q-learning computer
 * that plays both sides in training, learning from four-item buffers
 * (state, action, reward, next state) kept for each side.
 */
module TicTacToe {
  import opened Wrappers
  import opened Board
  import opened QLearning
  import TicTacToe2

  // The `rewards` table of the game, and the reward of an ordinary move.
  const WIN_REWARD: int := 10
  const LOSE_REWARD: int := -10
  const DRAW_REWARD: int := 0
  const INVALID_REWARD: int := -10
  const MOVE_REWARD: int := -1

  /** The discount factor, fixed by the computer's constructor. */
  const GAMMA: real := 0.8
  /** The value `get_action` writes over an action whose cell is taken. */
  const PENALTY: real := -10.0

  /** The board after `step(action, player_num)`, and the (reward, done) pair it returns. */
  datatype StepOutcome = StepOutcome(board: Grid, reward: int, done: bool)

  /** `step(action, player_num)` as a function of the board before it. */
  function AfterStep(g: Grid, action: int, player: int): StepOutcome
    requires IsGrid(g) && IsAction(action)
  {
    if !IsValid(g, action) then StepOutcome(g, INVALID_REWARD, false)
    else
      var g' := Place(g, action, player);
      if IsWinner(g', player) then StepOutcome(g', WIN_REWARD, true)
      else if IsDraw(g') then StepOutcome(g', DRAW_REWARD, true)
      else StepOutcome(g', MOVE_REWARD, false)
  }

  /** A taken cell is refused with the invalid reward: not done, and the board is untouched. */
  lemma StepInvalid(g: Grid, action: int, player: int)
    requires IsGrid(g) && IsAction(action)
    ensures !IsValid(g, action) <==> AfterStep(g, action, player) == StepOutcome(g, INVALID_REWARD, false)
  {
  }

  /**
   * A legal step writes the mover's number into the chosen cell only, and
   * returns (10, True) for a line of the mover's number, else (0, True)
   * when no empty cell is left, else (-1, False).
   */
  lemma StepDecides(g: Grid, action: int, player: int)
    requires IsGrid(g) && IsAction(action) && IsValid(g, action)
    ensures var o := AfterStep(g, action, player);
      IsGrid(o.board) &&
      (forall r, c :: 0 <= r < N && 0 <= c < N ==>
        o.board[r][c] == if (r, c) == ActionCell(action) then player else g[r][c]) &&
      (o.reward == WIN_REWARD <==> HasLine(o.board, player)) &&
      (o.reward == DRAW_REWARD <==> !HasLine(o.board, player) && LegalActions(o.board) == {}) &&
      (o.reward == MOVE_REWARD <==> !HasLine(o.board, player) && LegalActions(o.board) != {}) &&
      (o.done <==> o.reward != MOVE_REWARD)
  {
    var g' := Place(g, action, player);
    forall r, c | 0 <= r < N && 0 <= c < N
      ensures g'[r][c] == if (r, c) == ActionCell(action) then player else g[r][c]
    {
      PlaceAt(g, action, player, r, c);
    }
    IsWinnerIff(g', player);
    IsDrawIff(g');
  }

  /**
   * Both iterations play the same game: a step leaves the same board, and
   * the first one's reward and done flag say what the second one's result
   * and status say.
   */
  lemma AgreesWithSecondIteration(g: Grid, action: int, player: int)
    requires IsGrid(g) && IsAction(action)
    ensures var o := AfterStep(g, action, player);
      var o2 := TicTacToe2.AfterStep(g, TicTacToe2.Going, action, player);
      o.board == o2.board &&
      (o.done <==> o2.status != TicTacToe2.Going) &&
      (o.reward == WIN_REWARD <==> o2.result == TicTacToe2.Won) &&
      (o.done && o.reward == DRAW_REWARD <==> o2.result == TicTacToe2.Drawn) &&
      (!o.done <==> o2.result in {TicTacToe2.Invalid, TicTacToe2.Continue})
  {
  }

  /**
   * The scan of `step` for an empty cell: true exactly when some cell is
   * still 0, that is, when some action is still legal.
   */
  method HasEmptyCell(g: Grid) returns (found: bool)
    requires IsGrid(g)
    ensures found <==> exists r, c :: 0 <= r < N && 0 <= c < N && g[r][c] == EMPTY
    ensures found <==> LegalActions(g) != {}
  {
    found := false;
    for i := 0 to N
      invariant found <==> exists r, c :: 0 <= r < i && 0 <= c < N && g[r][c] == EMPTY
    {
      for j := 0 to N
        invariant found <==>
          (exists r, c :: 0 <= r < i && 0 <= c < N && g[r][c] == EMPTY) ||
          (exists c :: 0 <= c < j && g[i][c] == EMPTY)
      {
        if g[i][j] == EMPTY {
          found := true;
        }
      }
    }
    IsDrawIff(g);
    assert !IsDraw(g) <==> exists r, c :: 0 <= r < N && 0 <= c < N && g[r][c] == EMPTY by {
      forall r | 0 <= r < N
        ensures EMPTY in g[r] <==> exists c :: 0 <= c < N && g[r][c] == EMPTY
      {
      }
    }
  }

  /** The board, and the `actions` and `rewards` tables (held as constants above). */
  class Game {
    var board: Grid

    ghost predicate Valid()
      reads this
    {
      IsGrid(board) && ValidMarks(board)
    }

    /** `Game()`, and `game.__init__()` at the start of each episode: an all-zero board. */
    constructor ()
      ensures Valid() && board == EmptyGrid()
    {
      board := EmptyGrid();
    }

    method Reset()
      modifies this
      ensures Valid() && board == EmptyGrid()
    {
      board := EmptyGrid();
    }

    /** `step(action, player_num)`. */
    method Step(action: int, player: int) returns (reward: int, done: bool)
      requires Valid() && IsAction(action) && IsCellValue(player)
      modifies this
      ensures Valid()
      ensures StepOutcome(board, reward, done) == AfterStep(old(board), action, player)
    {
      if !IsValid(board, action) {
        return INVALID_REWARD, false;
      }
      PlaceKeepsMarks(board, action, player);
      ActionsBijection(action, 0, 0);
      var (r, c) := ActionCell(action);
      board := board[r := board[r][c := player]];
      if IsWinner(board, player) {
        return WIN_REWARD, true;
      }
      var found := HasEmptyCell(board);
      IsDrawIff(board);
      if !found {
        return DRAW_REWARD, true;
      }
      return MOVE_REWARD, false;
    }
  }

  /** The Q-learning computer, with one value table for both sides. */
  class Computer {
    var alpha: real
    var gamma: real
    var epsilon: real
    var q: array2<real>

    ghost predicate Valid()
      reads this
    {
      q.Length0 == OBSERVATION_SPACE && q.Length1 == ACTION_SPACE && gamma == GAMMA
    }

    /**
     * `Computer(game, learn_rate, explore_rate)`. `stored` is the table found
     * in the pickle file, if any; without one the table starts at zero.
     */
    constructor (stored: Option<array2<real>>, learnRate: real, exploreRate: real)
      requires stored.Some? ==>
        stored.value.Length0 == OBSERVATION_SPACE && stored.value.Length1 == ACTION_SPACE
      ensures Valid() && alpha == learnRate && epsilon == exploreRate
      ensures stored.Some? ==> q == stored.value
      ensures stored.None? ==>
        fresh(q) && (forall i, j :: 0 <= i < q.Length0 && 0 <= j < q.Length1 ==> q[i, j] == 0.0)
    {
      match stored {
        case Some(t) =>
          q := t;
        case None =>
          q := new real[OBSERVATION_SPACE, ACTION_SPACE]((i, j) => 0.0);
      }
      alpha := learnRate;
      gamma := GAMMA;
      epsilon := exploreRate;
    }

    /** `reward`: the temporal-difference update of entry (oldState, action), and of no other. */
    method Reward(oldState: int, action: int, reward: int, newState: int)
      requires Valid()
      requires 0 <= oldState < OBSERVATION_SPACE && IsAction(action) && 0 <= newState < OBSERVATION_SPACE
      modifies q
      ensures q[oldState, action] ==
        TdValue(alpha, GAMMA, old(q[oldState, action]), reward as real, RowMax(old(Row(q, newState))))
      ensures forall i, j :: 0 <= i < q.Length0 && 0 <= j < q.Length1 && (i, j) != (oldState, action) ==>
        q[i, j] == old(q[i, j])
    {
      var oldValue := q[oldState, action];
      var nextMax := RowMax(Row(q, newState));
      q[oldState, action] := TdValue(alpha, gamma, oldValue, reward as real, nextMax);
    }

    /**
     * `get_action(game)`: each attempt draws `random.uniform(0, 1)` afresh and
     * explores (any action) below `epsilon`, else takes the first best entry
     * of the current row; a taken cell gets the penalty written into its
     * entry and the computer tries again. `draws` holds the successive draws,
     * one per attempt; None means they ran out. `rejected` lists the
     * refused actions in order.
     */
    method GetAction(game: Game, draws: seq<real>) returns (action: Option<int>, ghost rejected: seq<int>)
      requires Valid() && game.Valid()
      modifies q
      ensures 0 <= GetState(game.board) < OBSERVATION_SPACE
      ensures action.Some? ==>
        IsAction(action.value) && IsValid(game.board, action.value) && action.value !in rejected
      // The returned action comes from attempt |rejected|; if that draw exploited,
      // it is the first best entry of the current row.
      ensures action.Some? ==> |rejected| < |draws|
      ensures action.Some? && draws[|rejected|] >= epsilon ==>
        action.value == ArgMax(Row(q, GetState(game.board)))
      ensures action.None? ==> |rejected| == |draws|
      // Every refused action is taken and has the penalty in its entry at the current state ...
      ensures forall k :: 0 <= k < |rejected| ==>
        IsAction(rejected[k]) && !IsValid(game.board, rejected[k]) &&
        q[GetState(game.board), rejected[k]] == PENALTY
      // ... and no other entry changes.
      ensures forall i, j :: 0 <= i < q.Length0 && 0 <= j < q.Length1 ==>
        q[i, j] == old(q[i, j]) || (i == GetState(game.board) && j in rejected)
      ensures forall i, j :: 0 <= i < q.Length0 && 0 <= j < q.Length1 ==>
        q[i, j] == old(q[i, j]) ||
        (i == GetState(game.board) && !IsValid(game.board, j) && q[i, j] == PENALTY)
    {
      GetStateBound(game.board);
      var state := GetState(game.board);
      rejected := [];
      for k := 0 to |draws|
        invariant state == GetState(game.board)
        invariant |rejected| == k
        invariant forall m :: 0 <= m < |rejected| ==>
          IsAction(rejected[m]) && !IsValid(game.board, rejected[m]) && q[state, rejected[m]] == PENALTY
        invariant forall i, j :: 0 <= i < q.Length0 && 0 <= j < q.Length1 ==>
          q[i, j] == old(q[i, j]) || (i == state && j in rejected)
      {
        var a: int;
        if draws[k] < epsilon {
          a :| 0 <= a < ACTION_SPACE;  // random.choice(self.actions)
        } else {
          a := ArgMax(Row(q, state));
        }
        if IsValid(game.board, a) {
          return Some(a), rejected;
        }
        q[state, a] := PENALTY;
        rejected := rejected + [a];
      }
      return None, rejected;
    }
  }

  /** The buffer entries `reward` reads: a state first, then an action. */
  predicate Entries(c: seq<int>) {
    (|c| >= 1 ==> 0 <= c[0] < OBSERVATION_SPACE) && (|c| >= 2 ==> IsAction(c[1]))
  }

  /** The end of a game: a line of either mark, or no empty cell. */
  predicate Over(g: Grid)
    requires IsGrid(g)
  {
    IsWinner(g, X) || IsWinner(g, O) || IsDraw(g)
  }

  /**
   * `train()`: `loops` self-play games (100000 in the program) of the one
   * computer against itself, as player 1 and player 2. The final save is
   * not modelled; false means the computer ran out of attempts.
   */
  method Train(computer: Computer, loops: nat, attempts: nat) returns (ok: bool)
    requires computer.Valid()
    modifies computer.q
    ensures computer.Valid()
  {
    var game := new Game();
    ok := true;
    for i := 0 to loops
      invariant computer.Valid() && game.Valid()
    {
      ok := Episode(game, computer, attempts);
      if !ok {
        return;
      }
    }
  }

  /**
   * One game of `train`: the two sides take turns, each first recording
   * the current state in its buffer and then, while the game runs, moving.
   * The game is over when the loop ends.
   */
  method Episode(game: Game, computer: Computer, attempts: nat) returns (ok: bool)
    requires computer.Valid() && game.Valid()
    modifies game, computer.q
    ensures computer.Valid() && game.Valid()
    ensures ok ==> Over(game.board)
  {
    var c1: seq<int> := [];
    var c2: seq<int> := [];
    var running := true;
    game.Reset();
    ok := true;
    while true
      invariant computer.Valid() && game.Valid()
      invariant Entries(c1) && Entries(c2)
      invariant running ==>
        (c1 == [] && c2 == [] && game.board == EmptyGrid()) || (|c1| == 3 && |c2| == 3)
      invariant !running ==> |c1| == 3 && Over(game.board)
      decreases |LegalActions(game.board)| + (if running then 1 else 0)
    {
      GetStateBound(game.board);
      c1 := Push(computer, c1, GetState(game.board));
      if !running {
        break;
      }
      ok, c1, c2, running := Play(game, computer, c1, c2, X, attempts);
      if !ok {
        return;
      }
      GetStateBound(game.board);
      c2 := Push(computer, c2, GetState(game.board));
      if !running {
        break;
      }
      ok, c2, c1, running := Play(game, computer, c2, c1, O, attempts);
      if !ok {
        return;
      }
    }
  }

  /**
   * Append the current state to a side's buffer. A buffer that then holds
   * four items (state, action, reward, next state) is fed to `reward` and
   * restarts with the current state alone.
   */
  method Push(computer: Computer, c: seq<int>, state: int) returns (c': seq<int>)
    requires computer.Valid() && Entries(c) && (|c| == 0 || |c| == 3) && 0 <= state < OBSERVATION_SPACE
    modifies computer.q
    ensures computer.Valid() && Entries(c') && c' == [state]
    ensures |c| == 3 ==>
      computer.q[c[0], c[1]] == TdValue(computer.alpha, GAMMA, old(computer.q[c[0], c[1]]), c[2] as real,
        RowMax(old(Row(computer.q, state))))
    ensures forall i, j :: 0 <= i < computer.q.Length0 && 0 <= j < computer.q.Length1 ==>
      computer.q[i, j] == old(computer.q[i, j]) || (|c| == 3 && (i, j) == (c[0], c[1]))
  {
    c' := c + [state];
    if |c'| == 4 {
      computer.Reward(c'[0], c'[1], c'[2], c'[3]);
      c' := [state];
    }
  }

  /**
   * One move of `train` for the side playing `player`, whose buffer `mine`
   * holds just the current state: choose an action, record it and the
   * reward `step` returns. If the move ends the game, the other side's
   * buffered reward becomes the negated terminal reward and the game stops
   * running. The other side's buffer is still empty only on the first move
   * of a game, which never ends it.
   */
  method Play(game: Game, computer: Computer, mine: seq<int>, other: seq<int>, player: int, attempts: nat)
    returns (ok: bool, mine': seq<int>, other': seq<int>, running: bool)
    requires computer.Valid() && game.Valid() && IsMark(player)
    requires |mine| == 1 && Entries(mine) && Entries(other)
    requires |other| == 3 || (other == [] && game.board == EmptyGrid())
    modifies game, computer.q
    ensures computer.Valid() && game.Valid() && Entries(mine') && Entries(other')
    ensures !ok ==> game.board == old(game.board) && mine' == mine && other' == other
    ensures ok ==>
      |mine'| == 3 && mine'[0] == mine[0] && IsValid(old(game.board), mine'[1]) &&
      AfterStep(old(game.board), mine'[1], player) == StepOutcome(game.board, mine'[2], !running) &&
      |LegalActions(game.board)| == |LegalActions(old(game.board))| - 1
    ensures ok && running ==> other' == other
    ensures forall i, j :: 0 <= i < computer.q.Length0 && 0 <= j < computer.q.Length1 ==>
      computer.q[i, j] == old(computer.q[i, j]) ||
      (i == GetState(old(game.board)) && !IsValid(old(game.board), j) && computer.q[i, j] == PENALTY)
    ensures ok && !running ==>
      Over(game.board) && |other| == 3 && other' == other[2 := -mine'[2]]
  {
    var move := ChooseMove(game, computer, attempts);
    if move.None? {
      return false, mine, other, true;
    }
    ghost var before := game.board;
    PlaceUsesAction(before, move.value, player);
    if before == EmptyGrid() {
      FirstMoveNotTerminal(move.value, player);
    }
    var reward, done := game.Step(move.value, player);
    mine' := mine + [move.value, reward];
    assert mine'[1] == move.value && mine'[2] == reward;
    other' := other;
    if done {
      assert Over(game.board);
      other' := other'[2 := -reward];
    }
    return true, mine', other', !done;
  }

  /**
   * `computer.get_action(game)` as the training loop sees it: one fresh
   * draw per attempt, and a legal action or None when the attempts run out.
   */
  method ChooseMove(game: Game, computer: Computer, attempts: nat) returns (move: Option<int>)
    requires computer.Valid() && game.Valid()
    modifies computer.q
    ensures computer.Valid()
    ensures move.Some? ==> IsAction(move.value) && IsValid(game.board, move.value)
    ensures forall i, j :: 0 <= i < computer.q.Length0 && 0 <= j < computer.q.Length1 ==>
      computer.q[i, j] == old(computer.q[i, j]) ||
      (i == GetState(game.board) && !IsValid(game.board, j) && computer.q[i, j] == PENALTY)
  {
    var draws := UniformDraws(attempts);
    ghost var rejected;
    move, rejected := computer.GetAction(game, draws);
  }
}
