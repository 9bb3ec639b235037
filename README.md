# Tabular Q-learning tic-tac-toe, modelled in Dafny

This project models the two iterations of a tic-tac-toe program that learns by
tabular Q-learning and self-play, and proves properties of the model:

- the board: a 3x3 grid of cells holding 0 (empty), 1 (X) or 2 (O); the table
  mapping the nine actions to cells; move legality; the eight winning lines;
  the full-board test; the base-3 state index of a board (`board.dfy`,
  module `Board`, shared by both iterations, which implement the same logic
  for it: the second as separate functions on a numpy float array, the first
  on a list of int lists with the full-board test written inline in `step`);
- the value-table arithmetic: a row's maximum, the first index of its maximum
  and the temporal-difference update (`qlearning.dfy`, module `QLearning`);
- the second iteration, `TicTacToe2/main.py` (`tictactoe2.dfy`, module
  `TicTacToe2`): a `Game` with a board and a status, `Computer` players that
  learn from their previous move one ply later, and the self-play `train` loop;
- the first iteration, `TicTacToe/main.py` (`tictactoe.dfy`, module
  `TicTacToe`): a `Game` whose `step` returns a reward and a done flag, one
  `Computer` that plays both sides, and the `train` loop that buffers
  (state, action, reward, next state) for each side.

The objects the source updates in place are classes: `Game` (its board, and in
the second iteration its status) and `Computer` (its value table, an
`array2<real>` of 19683 x 9 entries, and in the second iteration its last
state, last action and `going` flag). The boards are `seq<seq<int>>` values the
methods reassign. The pure board functions are Dafny functions. `get_action`'s
retry, `step`'s scan for an empty cell and both `train` loops are methods with
loops.

Three behaviours of the code that the model follows as written:

- Second iteration: `last_state` is set to None only when a computer is
  constructed (TicTacToe2/main.py:164-165). `train` resets only the `going`
  flags between episodes (TicTacToe2/main.py:283-285). So the first
  `next_move` of each later episode applies the step penalty to the last
  state and action of the previous episode. It does not skip the update.
  `TicTacToe2.Episode` keeps `lastState` across episodes in the same way.
- First iteration: the invalid-move penalty written by `get_action` is -10
  (TicTacToe/main.py:56). That equals the loss reward (TicTacToe/main.py:95).
  It is not strictly below it.
- First iteration: the side whose move ends the game never feeds its own
  last buffer to `reward`. The episode loop breaks right after the other side
  records the final state (TicTacToe/main.py:174-175, 197-198). Only the other
  side learns from the end of the game, through its negated reward slot.
  `TicTacToe.Episode` and `TicTacToe.Play` model exactly this.

## Model

| member | source | states |
|---|---|---|
| Board.EmptyGrid | TicTacToe2/main.py:92-94 | a new board is 3x3 and every cell is EMPTY |
| Board.ActionCell | TicTacToe2/main.py:18-28 | ACTIONS maps each action to an on-board cell whose row-major index 3r + c is the action |
| Board.IsValid | TicTacToe2/main.py:116-119 | `is_valid(a)` holds iff the cell ACTIONS[a] is EMPTY; PlaceUsesAction and IsDrawIff state its consequences |
| Board.CellAction | TicTacToe2/main.py:18-28 | the cell -> action inverse of ACTIONS always yields one of the nine actions |
| Board.ActionsRowMajor | TicTacToe2/main.py:18-28 | ACTIONS maps action a to cell (a / 3, a % 3) |
| Board.ActionsBijection | TicTacToe2/main.py:18-28 | ACTIONS is a bijection between the nine actions and the nine cells, in both directions |
| Board.Place | TicTacToe2/main.py:100 | writing a mark into the cell of an action keeps a 3x3 board |
| Board.PlaceAt | TicTacToe2/main.py:100 | the write changes the action's cell to the mark and leaves every other cell as it was |
| Board.PlaceKeepsMarks | TicTacToe/main.py:104 | writing a cell value keeps every cell in {0, 1, 2} |
| Board.PlaceUsesAction | TicTacToe2/main.py:100-119 | a legal move of X or O removes exactly its own action from the legal actions, so their number drops by one |
| Board.WinIndexes | TicTacToe2/main.py:121-127 | `win_indexes(n)` yields 2n + 2 lines: n rows, n columns, two diagonals |
| Board.WinIndexesInBounds | TicTacToe/main.py:137-147 | every cell of every line of `win_indexes(3)` is on the board |
| Board.WinLine | TicTacToe2/main.py:121-127 | line k is row k for k < 3, column k - 3 for k < 6, then the main and the anti-diagonal |
| Board.IsWinner | TicTacToe2/main.py:129-134 | `is_winner(d)`: some line yielded by `win_indexes(3)` has every cell equal to d; IsWinnerIff characterises it |
| Board.IsDraw | TicTacToe2/main.py:136-140 | `is_draw`: no row contains EMPTY; IsDrawIff characterises it |
| Board.IsWinnerIff | TicTacToe2/main.py:129-134 | `is_winner(d)` holds iff some row, column or diagonal has all three cells equal to d |
| Board.IsDrawIff | TicTacToe2/main.py:136-140 | `is_draw` holds iff no action is legal |
| Board.FirstMoveNotTerminal | TicTacToe/main.py:100-114 | one mark on an empty board neither wins nor fills the board |
| Board.FlattenGrid | TicTacToe2/main.py:111 | the flattened board has nine entries and cell (r, c) is entry 3r + c |
| Board.FlattenDigits | TicTacToe/main.py:118 | the flattened board holds only base-3 digits |
| Board.DotPowers | TicTacToe2/main.py:112-113 | the product with consecutive powers 3^k.. is 3^k times the base-3 reading of the cells |
| Board.GetState | TicTacToe2/main.py:109-114 | `get_state`: the flattened cells dotted with 3^0 .. 3^8; GetStateIsEncode, GetStateBound and GetStateInjective state its properties |
| Board.GetStateIsEncode | TicTacToe2/main.py:109-114 | `get_state` is the sum of cell_i * 3^i over the row-major cells |
| Board.EncodeBound | TicTacToe/main.py:116-121 | a base-3 reading of n digits lies in [0, 3^n) |
| Board.DecodeEncode | TicTacToe/main.py:116-121 | reading the base-3 digits of an index back gives the digits |
| Board.Pow3Nine | TicTacToe2/main.py:17 | 3^9 is OBSERVATION_SPACE = 19683 |
| Board.GetStateBound | TicTacToe/main.py:116-121 | every board of cell values has a state index in [0, 19683) |
| Board.GetStateDecodes | TicTacToe2/main.py:109-114 | the nine base-3 digits of the state index are the cells, row-major |
| Board.GetStateInjective | TicTacToe2/main.py:109-114 | two boards with the same state index are the same board |
| QLearning.Row | TicTacToe2/main.py:185 | a row of the value table has one entry per action |
| QLearning.RowMax | TicTacToe2/main.py:185 | `np.max` of a row; RowMaxIsMax states that it is the maximum |
| QLearning.RowMaxIsMax | TicTacToe2/main.py:185 | `np.max` of a row bounds every entry and is one of them |
| QLearning.ArgMax | TicTacToe2/main.py:201 | `np.argmax` of a non-empty row is an index of the row |
| QLearning.ArgMaxIsFirstMax | TicTacToe/main.py:53 | `np.argmax` picks an entry equal to the maximum, and every earlier entry is strictly smaller |
| QLearning.Uniform | TicTacToe2/main.py:194 | `random.uniform(0, 1)` returns a value in [0, 1] |
| QLearning.UniformDraws | TicTacToe/main.py:50 | n successive draws, each in [0, 1] |
| QLearning.TdValue | TicTacToe2/main.py:187-189 | the update (1 - alpha) * old + alpha * (reward + gamma * next_max); TdValueBetween and TdValueFixedPoint state its properties |
| QLearning.TdValueBetween | TicTacToe2/main.py:187-189 | with a learning rate in [0, 1], the new value lies between the old value and the target; rate 0 keeps the old value, rate 1 takes the target |
| QLearning.TdValueFixedPoint | TicTacToe/main.py:65 | a value equal to its target is unchanged by the update |
| TicTacToe2.AfterStep | TicTacToe2/main.py:96-107 | `step` on a board and status: INVALID on a taken cell, else place the mark and decide WIN, DRAW or go on; StepInvalid, StepChangesOneCell and StepDecides state its properties |
| TicTacToe2.StepInvalid | TicTacToe2/main.py:96-98 | `step` returns INVALID iff the cell is taken, and then changes neither board nor status |
| TicTacToe2.StepChangesOneCell | TicTacToe2/main.py:100 | a legal `step` writes the player's number into the action's cell only |
| TicTacToe2.StepDecides | TicTacToe2/main.py:100-107 | after a legal move: WIN iff the mover holds a line; else DRAW iff no legal move is left; else the status is unchanged |
| TicTacToe2.StepUsesAction | TicTacToe2/main.py:96-107 | a legal move keeps the board well formed and removes exactly its action from the legal actions |
| TicTacToe2.CentreOpening | TicTacToe2/main.py:96-107 | X in the centre of an empty board marks only (1, 1) and the game goes on |
| TicTacToe2.TopRowWins | TicTacToe2/main.py:96-107 | completing the top row wins and sets status WIN |
| TicTacToe2.LastCellDraws | TicTacToe2/main.py:96-107 | filling the last cell without a line sets status DRAW |
| TicTacToe2.TurnReward | TicTacToe2/main.py:210-236 | the reward fed back is WIN_REWARD iff the status is WIN and this computer won, LOSE_REWARD iff WIN and it did not, DRAW_REWARD iff DRAW, ACTION_REWARD iff GOING; all are above INVALID_REWARD |
| TicTacToe2.Game.constructor | TicTacToe2/main.py:92-94 | a new game has an all-EMPTY board and status GOING |
| TicTacToe2.Game.Reset | TicTacToe2/main.py:283 | `game.__init__()` restores the all-EMPTY board and status GOING |
| TicTacToe2.Game.Step | TicTacToe2/main.py:96-107 | the new board, status and result are those of `AfterStep` on the old board and status |
| TicTacToe2.Computer.constructor | TicTacToe2/main.py:156-175 | the parameters are stored, no last state or action, `going` is set, and the table is the stored one or all zeros |
| TicTacToe2.Computer.Reward | TicTacToe2/main.py:183-190 | entry (old_state, action) becomes the TD value with the old entry and the old maximum of row new_state; no other entry changes |
| TicTacToe2.Computer.GetAction | TicTacToe2/main.py:192-206 | a returned action is legal; on the greedy path it is the first best entry of the current row; every refused action is taken and its entry at the current state is INVALID_REWARD; no other entry changes; None only after `attempts` refusals |
| TicTacToe2.Computer.NextMove | TicTacToe2/main.py:208-242 | with a last move and the game over: learn from the outcome, stop, do not move; otherwise learn with the step penalty (if there is a last move), make a legal move, record the state moved from and the action; exploiting (draw >= epsilon), the move is the first best entry of the current row |
| TicTacToe2.Computer.Move | TicTacToe2/main.py:238-242 | a legal action is stepped with the computer's number, the pre-move state and the action are recorded, and one legal action is used up; exploiting, the action is the first best entry of the current row |
| TicTacToe2.Train | TicTacToe2/main.py:275-292 | every episode runs until both computers have stopped; the tables stay the same objects |
| TicTacToe2.Episode | TicTacToe2/main.py:283-289 | an episode ends with both computers stopped and the game at WIN or DRAW; it terminates because each turn uses a cell or stops a computer |
| TicTacToe2.Turn | TicTacToe2/main.py:287-289 | an active computer's turn uses a cell or stops it, and it stops only on a finished game; a stopped computer changes neither game, table nor last move; a finished game stays finished |
| TicTacToe.AfterStep | TicTacToe/main.py:100-114 | `step` on a board: (-10, False) on a taken cell, else place the mark and return (10, True), (0, True) or (-1, False); StepInvalid and StepDecides state its properties |
| TicTacToe.StepInvalid | TicTacToe/main.py:101-102 | `step` returns (-10, False) with the board unchanged iff the cell is taken |
| TicTacToe.StepDecides | TicTacToe/main.py:103-114 | a legal `step` writes only the action's cell; (10, True) iff the mover holds a line, else (0, True) iff no move is left, else (-1, False) |
| TicTacToe.AgreesWithSecondIteration | TicTacToe/main.py:100-114 | the two iterations' `step` leave the same board; done iff the second's status leaves GOING; reward 10 iff WIN |
| TicTacToe.HasEmptyCell | TicTacToe/main.py:107-113 | the scan finds a 0 cell iff some cell is 0, iff some action is legal |
| TicTacToe.Game.constructor | TicTacToe/main.py:74-81 | a new game has an all-zero board |
| TicTacToe.Game.Reset | TicTacToe/main.py:165 | `game.__init__()` restores the all-zero board |
| TicTacToe.Game.Step | TicTacToe/main.py:100-114 | the new board and the returned (reward, done) are those of `AfterStep` on the old board |
| TicTacToe.Computer.constructor | TicTacToe/main.py:34-47 | learning and exploration rates are stored, gamma is 0.8, the table is the stored one or all zeros |
| TicTacToe.Computer.Reward | TicTacToe/main.py:61-66 | entry (old_state, action) becomes the TD value with gamma 0.8; no other entry changes |
| TicTacToe.Computer.GetAction | TicTacToe/main.py:49-59 | a returned action is legal and comes from the attempt after the last refusal; if that attempt's draw exploits, it is the first best entry of the row; every refused action is taken and its entry at the current state is -10; no other entry changes; None only after one refusal per draw |
| TicTacToe.Train | TicTacToe/main.py:157-214 | runs the episodes with the one computer; the table keeps its shape |
| TicTacToe.Episode | TicTacToe/main.py:161-212 | the loop ends, and then the board has a line of X or O or no empty cell |
| TicTacToe.Push | TicTacToe/main.py:167-173 | recording a state leaves the buffer holding just that state; a buffer that was (s, a, r) is first fed to `reward` with that state as the next state |
| TicTacToe.ChooseMove | TicTacToe/main.py:177 | `get_action` with one fresh draw per attempt returns a legal action or None; the only table entries it changes are taken actions at the current state, set to -10 |
| TicTacToe.Play | TicTacToe/main.py:177-183 | one legal move is recorded with its `step` reward; if it ends the game the board is over and the other side's reward slot becomes the negated reward; the other buffer has three items whenever that happens; the only table entries changed are taken actions at the state before the move, set to -10 |

## Left out

- Console play is not modelled: `Player`, `print_board`, `game`/`play`, the menus, `color`, `safe_input` and the `__main__` block. They are blocking `input()` calls, `os.system("clear")` and `sleep`.
- Pickle persistence is not modelled: `load_q_table`, `save_q_table`, `save_data`. The constructors take the stored table as an optional parameter instead, and the final saves of both `train` functions are omitted.
- The progress bar of the second `train` is display only and is not modelled.
- Randomness is a parameter or a nondeterministic choice. `random.uniform(0, 1)` is `QLearning.Uniform`, any value in [0, 1]. `randrange` and `choice` are any action in [0, 9).
- Floating point is modelled as `real`: no IEEE rounding. The board cells are integers where the second iteration keeps numpy floats.
- TicTacToe2.Computer.GetAction: the retry recursion of `get_action` has no bound in the source, which ends in a `RecursionError` if no legal action is ever drawn. The model bounds the retries by `attempts` and returns None when they run out.
- TicTacToe.Computer.GetAction: the same bound applies, with one draw per attempt.
- TicTacToe2.Turn: for an active computer the contract keeps only what the episode loop needs (termination, and a computer stops only on a finished game). The table and last-move effects of the turn are those of TicTacToe2.Computer.NextMove and are not restated.
- TicTacToe2.Train: the count of episodes is the `loops` argument. The contract does not state the final table contents, only what each episode guarantees.
- TicTacToe.Train: the source plays a fixed 100000 episodes (TicTacToe/main.py:161). The model takes the count as `loops`. The contract does not state the final table contents; the per-update effect is stated by `TicTacToe.Push`.
- QLearning.Row: the contract states only the length of a row. Its entries are the table's, by definition.
- The other scripts of the repository, a one-step reinforcement-learning stub and a question-answering wrapper around a third-party library, are not part of this model.
