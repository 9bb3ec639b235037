/**
 * The board logic shared by both iterations of the tic-tac-toe program:
 * the 3x3 grid of marks, the action -> cell table, legality of a move,
 * the eight winning lines, the full-board test and the base-3 state index.
 */
module Board {

  /** Side of the board (`len(self.board)`). */
  const N: nat := 3
  /** Board square states. */
  const EMPTY: int := 0
  const X: int := 1
  const O: int := 2
  /** Number of actions, one per cell. */
  const ACTION_SPACE: nat := 9
  /** Number of state indices, 3 ** 9. */
  const OBSERVATION_SPACE: nat := 19683

  /** A board: a list of rows, each a list of cell values. */
  type Grid = seq<seq<int>>

  predicate IsGrid(g: Grid) {
    |g| == N && forall r :: 0 <= r < N ==> |g[r]| == N
  }

  /** A value a cell may hold: EMPTY, X or O. */
  predicate IsCellValue(v: int) {
    EMPTY <= v <= O
  }

  /** A mark a player places: X or O. */
  predicate IsMark(v: int) {
    v == X || v == O
  }

  predicate ValidMarks(g: Grid)
    requires IsGrid(g)
  {
    forall r, c :: 0 <= r < N && 0 <= c < N ==> IsCellValue(g[r][c])
  }

  /** The board a new game starts from: all cells EMPTY. */
  function EmptyGrid(): (g: Grid)
    ensures IsGrid(g) && ValidMarks(g)
    ensures forall r, c :: 0 <= r < N && 0 <= c < N ==> g[r][c] == EMPTY
  {
    [[EMPTY, EMPTY, EMPTY], [EMPTY, EMPTY, EMPTY], [EMPTY, EMPTY, EMPTY]]
  }

  // ---------------------------------------------------------------------
  // Actions
  // ---------------------------------------------------------------------

  predicate IsAction(a: int) {
    0 <= a < ACTION_SPACE
  }

  /** The ACTIONS table: action number -> (row, col), a cell whose row-major index is the action. */
  function ActionCell(a: int): (rc: (int, int))
    requires IsAction(a)
    ensures 0 <= rc.0 < N && 0 <= rc.1 < N && N * rc.0 + rc.1 == a
  {
    match a
    case 0 => (0, 0)
    case 1 => (0, 1)
    case 2 => (0, 2)
    case 3 => (1, 0)
    case 4 => (1, 1)
    case 5 => (1, 2)
    case 6 => (2, 0)
    case 7 => (2, 1)
    case _ => (2, 2)
  }

  /** The action that names cell (r, c): the inverse of the table. */
  function CellAction(r: int, c: int): (a: int)
    requires 0 <= r < N && 0 <= c < N
    ensures IsAction(a)
  {
    N * r + c
  }

  /** The table is row-major: action a is cell (a / 3, a % 3). */
  lemma ActionsRowMajor(a: int)
    requires IsAction(a)
    ensures ActionCell(a) == (a / N, a % N)
  {
  }

  /** The table is a bijection between the nine actions and the nine cells. */
  lemma ActionsBijection(a: int, r: int, c: int)
    requires IsAction(a) && 0 <= r < N && 0 <= c < N
    ensures 0 <= ActionCell(a).0 < N && 0 <= ActionCell(a).1 < N
    ensures CellAction(ActionCell(a).0, ActionCell(a).1) == a
    ensures ActionCell(CellAction(r, c)) == (r, c)
    ensures ActionCell(a) == (r, c) <==> a == CellAction(r, c)
  {
    ActionsRowMajor(a);
    ActionsRowMajor(CellAction(r, c));
  }

  /** The value of the cell an action names. */
  function CellOf(g: Grid, a: int): int
    requires IsGrid(g) && IsAction(a)
  {
    ActionsBijection(a, 0, 0);
    g[ActionCell(a).0][ActionCell(a).1]
  }

  /** `is_valid`: a move is legal when its cell is EMPTY. */
  predicate IsValid(g: Grid, a: int)
    requires IsGrid(g) && IsAction(a)
  {
    CellOf(g, a) == EMPTY
  }

  /** The legal actions on a board. */
  function LegalActions(g: Grid): set<int>
    requires IsGrid(g)
  {
    set a | 0 <= a < ACTION_SPACE && IsValid(g, a)
  }

  /** Writes `mark` into the cell action `a` names. */
  function Place(g: Grid, a: int, mark: int): (g': Grid)
    requires IsGrid(g) && IsAction(a)
    ensures IsGrid(g')
  {
    ActionsBijection(a, 0, 0);
    var (r, c) := ActionCell(a);
    g[r := g[r][c := mark]]
  }

  /** Placing changes the named cell to `mark` and no other cell. */
  lemma PlaceAt(g: Grid, a: int, mark: int, r: int, c: int)
    requires IsGrid(g) && IsAction(a) && 0 <= r < N && 0 <= c < N
    ensures Place(g, a, mark)[r][c] == if ActionCell(a) == (r, c) then mark else g[r][c]
  {
    ActionsBijection(a, r, c);
  }

  /** Placing a cell value keeps every cell a cell value. */
  lemma PlaceKeepsMarks(g: Grid, a: int, mark: int)
    requires IsGrid(g) && ValidMarks(g) && IsAction(a) && IsCellValue(mark)
    ensures ValidMarks(Place(g, a, mark))
  {
    forall r, c | 0 <= r < N && 0 <= c < N
      ensures IsCellValue(Place(g, a, mark)[r][c])
    {
      PlaceAt(g, a, mark, r, c);
    }
  }

  /** A legal placement of a player's mark uses up exactly that one legal action. */
  lemma PlaceUsesAction(g: Grid, a: int, mark: int)
    requires IsGrid(g) && IsAction(a) && IsValid(g, a) && IsMark(mark)
    ensures LegalActions(Place(g, a, mark)) == LegalActions(g) - {a}
    ensures |LegalActions(Place(g, a, mark))| == |LegalActions(g)| - 1
  {
    var g' := Place(g, a, mark);
    forall b | IsAction(b)
      ensures IsValid(g', b) <==> IsValid(g, b) && b != a
    {
      ActionsBijection(b, ActionCell(a).0, ActionCell(a).1);
      ActionsBijection(a, ActionCell(b).0, ActionCell(b).1);
      PlaceAt(g, a, mark, ActionCell(b).0, ActionCell(b).1);
    }
    assert LegalActions(g') == LegalActions(g) - {a};
  }

  // ---------------------------------------------------------------------
  // Terminal conditions
  // ---------------------------------------------------------------------

  predicate InBounds(rc: (int, int)) {
    0 <= rc.0 < N && 0 <= rc.1 < N
  }

  /** `win_indexes(n)`: the n rows, the n columns and the two diagonals. */
  function WinIndexes(n: int): (lines: seq<seq<(int, int)>>)
    requires 0 <= n
    ensures |lines| == 2 * n + 2
  {
    seq(n, r => seq(n, c => (r, c)))
    + seq(n, c => seq(n, r => (r, c)))
    + [seq(n, i => (i, i))]
    + [seq(n, i => (i, n - 1 - i))]
  }

  predicate LinesInBounds(lines: seq<seq<(int, int)>>) {
    forall k, j :: 0 <= k < |lines| && 0 <= j < |lines[k]| ==> InBounds(lines[k][j])
  }

  lemma WinIndexesInBounds()
    ensures LinesInBounds(WinIndexes(N))
  {
  }

  function CellAt(g: Grid, rc: (int, int)): int
    requires IsGrid(g) && InBounds(rc)
  {
    g[rc.0][rc.1]
  }

  /** Every cell of `line` holds `d`. */
  predicate LineHeld(g: Grid, line: seq<(int, int)>, d: int)
    requires IsGrid(g) && forall j :: 0 <= j < |line| ==> InBounds(line[j])
  {
    forall j :: 0 <= j < |line| ==> CellAt(g, line[j]) == d
  }

  /** `is_winner(d)`: the search over `win_indexes` finds a line that is all `d`. */
  predicate IsWinner(g: Grid, d: int)
    requires IsGrid(g)
  {
    WinIndexesInBounds();
    exists k :: 0 <= k < |WinIndexes(N)| && LineHeld(g, WinIndexes(N)[k], d)
  }

  /** `is_draw`: no row contains an EMPTY cell. */
  predicate IsDraw(g: Grid)
    requires IsGrid(g)
  {
    forall r :: 0 <= r < N ==> EMPTY !in g[r]
  }

  /** Three cells in a row, column or diagonal. */
  predicate Three(g: Grid, d: int, r0: int, c0: int, r1: int, c1: int, r2: int, c2: int)
    requires IsGrid(g) && InBounds((r0, c0)) && InBounds((r1, c1)) && InBounds((r2, c2))
  {
    g[r0][c0] == d && g[r1][c1] == d && g[r2][c2] == d
  }

  lemma LineOfThree(g: Grid, d: int, r0: int, c0: int, r1: int, c1: int, r2: int, c2: int)
    requires IsGrid(g) && InBounds((r0, c0)) && InBounds((r1, c1)) && InBounds((r2, c2))
    ensures LineHeld(g, [(r0, c0), (r1, c1), (r2, c2)], d) <==> Three(g, d, r0, c0, r1, c1, r2, c2)
  {
    var line := [(r0, c0), (r1, c1), (r2, c2)];
    assert CellAt(g, line[0]) == g[r0][c0];
    assert CellAt(g, line[1]) == g[r1][c1];
    assert CellAt(g, line[2]) == g[r2][c2];
  }

  /** Reference reading of a win: a full row, column or diagonal of `d`. */
  predicate HasLine(g: Grid, d: int)
    requires IsGrid(g)
  {
    (exists r :: 0 <= r < N && Three(g, d, r, 0, r, 1, r, 2)) ||
    (exists c :: 0 <= c < N && Three(g, d, 0, c, 1, c, 2, c)) ||
    Three(g, d, 0, 0, 1, 1, 2, 2) ||
    Three(g, d, 0, 2, 1, 1, 2, 0)
  }

  /** Line k of `win_indexes(3)`: rows first, then columns, then the two diagonals. */
  lemma WinLine(g: Grid, d: int, k: int)
    requires IsGrid(g) && 0 <= k < 2 * N + 2
    ensures LinesInBounds(WinIndexes(N))
    ensures LineHeld(g, WinIndexes(N)[k], d) <==>
      if k < N then Three(g, d, k, 0, k, 1, k, 2)
      else if k < 2 * N then Three(g, d, 0, k - N, 1, k - N, 2, k - N)
      else if k == 2 * N then Three(g, d, 0, 0, 1, 1, 2, 2)
      else Three(g, d, 0, 2, 1, 1, 2, 0)
  {
    WinIndexesInBounds();
    var line := WinIndexes(N)[k];
    if k < N {
      assert line == [(k, 0), (k, 1), (k, 2)];
      LineOfThree(g, d, k, 0, k, 1, k, 2);
    } else if k < 2 * N {
      assert line == [(0, k - N), (1, k - N), (2, k - N)];
      LineOfThree(g, d, 0, k - N, 1, k - N, 2, k - N);
    } else if k == 2 * N {
      assert line == [(0, 0), (1, 1), (2, 2)];
      LineOfThree(g, d, 0, 0, 1, 1, 2, 2);
    } else {
      assert line == [(0, 2), (1, 1), (2, 0)];
      LineOfThree(g, d, 0, 2, 1, 1, 2, 0);
    }
  }

  /**
   * `is_winner(d)` holds exactly when one of the 3 rows, 3 columns or
   * 2 diagonals has all three cells equal to `d`.
   */
  lemma IsWinnerIff(g: Grid, d: int)
    requires IsGrid(g)
    ensures IsWinner(g, d) <==> HasLine(g, d)
  {
    var lines := WinIndexes(N);
    WinIndexesInBounds();
    if IsWinner(g, d) {
      var k :| 0 <= k < |lines| && LineHeld(g, lines[k], d);
      WinLine(g, d, k);
      if N <= k < 2 * N {
        assert Three(g, d, 0, k - N, 1, k - N, 2, k - N);
      }
    }
    if HasLine(g, d) {
      if r :| 0 <= r < N && Three(g, d, r, 0, r, 1, r, 2) {
        WinLine(g, d, r);
      } else if c :| 0 <= c < N && Three(g, d, 0, c, 1, c, 2, c) {
        WinLine(g, d, N + c);
      } else if Three(g, d, 0, 0, 1, 1, 2, 2) {
        WinLine(g, d, 2 * N);
      } else {
        WinLine(g, d, 2 * N + 1);
      }
    }
  }

  /** `is_draw` holds exactly when no legal action remains. */
  lemma IsDrawIff(g: Grid)
    requires IsGrid(g)
    ensures IsDraw(g) <==> LegalActions(g) == {}
  {
    if IsDraw(g) {
      forall a | IsAction(a) ensures !IsValid(g, a) {
        ActionsBijection(a, 0, 0);
        assert g[ActionCell(a).0][ActionCell(a).1] in g[ActionCell(a).0];
      }
    } else {
      var r :| 0 <= r < N && EMPTY in g[r];
      var c :| 0 <= c < N && g[r][c] == EMPTY;
      ActionsBijection(CellAction(r, c), r, c);
      assert CellAction(r, c) in LegalActions(g);
    }
  }

  /** A single mark on an otherwise empty board neither wins nor fills it. */
  lemma FirstMoveNotTerminal(a: int, mark: int)
    requires IsAction(a) && IsMark(mark)
    ensures !IsWinner(Place(EmptyGrid(), a, mark), mark)
    ensures !IsDraw(Place(EmptyGrid(), a, mark))
  {
    var g := Place(EmptyGrid(), a, mark);
    forall r, c | 0 <= r < N && 0 <= c < N
      ensures g[r][c] == if ActionCell(a) == (r, c) then mark else EMPTY
    {
      PlaceAt(EmptyGrid(), a, mark, r, c);
    }
    IsWinnerIff(g, mark);
    ActionsBijection(a, 0, 0);
    var (r, c) := ActionCell(a);
    var other := if r == 0 then 1 else 0;
    assert g[other][c] == EMPTY;
    assert EMPTY in g[other];
  }

  // ---------------------------------------------------------------------
  // State index
  // ---------------------------------------------------------------------

  function Pow3(n: nat): (p: nat)
    ensures p >= 1
  {
    if n == 0 then 1 else 3 * Pow3(n - 1)
  }

  /** `sum(self.board, [])` / `reshape(-1)`: the cells in row-major order. */
  function Flatten(g: Grid): seq<int> {
    if g == [] then [] else g[0] + Flatten(g[1..])
  }

  /** `max_num ** np.arange(n)`: the powers 3^0 .. 3^(n-1). */
  function Degrees(n: nat): seq<int> {
    PowersFrom(0, n)
  }

  /** The powers 3^k .. 3^(k+n-1). */
  function PowersFrom(k: nat, n: nat): (p: seq<int>)
    ensures |p| == n
  {
    seq(n, i requires 0 <= i < n => Pow3(k + i))
  }

  /** The `@` product of two vectors of equal length. */
  function Dot(xs: seq<int>, ys: seq<int>): int
    requires |xs| == |ys|
  {
    if xs == [] then 0 else xs[0] * ys[0] + Dot(xs[1..], ys[1..])
  }

  /** `get_state`: the cells, row-major, weighted by 3^0, 3^1, ... */
  function GetState(g: Grid): int {
    var cells := Flatten(g);
    Dot(cells, Degrees(|cells|))
  }

  /** Reference reading of a digit string in base 3, least significant first. */
  function Encode(d: seq<int>): int {
    if d == [] then 0 else d[0] + 3 * Encode(d[1..])
  }

  /** The n base-3 digits of s, least significant first. */
  function Decode(s: int, n: nat): (d: seq<int>)
    ensures |d| == n
    decreases n
  {
    if n == 0 then [] else [s % 3] + Decode(s / 3, n - 1)
  }

  predicate IsDigits(d: seq<int>) {
    forall i :: 0 <= i < |d| ==> IsCellValue(d[i])
  }

  lemma {:induction false} FlattenIndex(g: Grid, r: int, c: int)
    requires forall i :: 0 <= i < |g| ==> |g[i]| == N
    requires 0 <= r < |g| && 0 <= c < N
    ensures |Flatten(g)| == N * |g|
    ensures Flatten(g)[N * r + c] == g[r][c]
  {
    if r == 0 {
      FlattenLength(g);
    } else {
      FlattenIndex(g[1..], r - 1, c);
    }
  }

  lemma {:induction false} FlattenLength(g: Grid)
    requires forall i :: 0 <= i < |g| ==> |g[i]| == N
    ensures |Flatten(g)| == N * |g|
  {
    if g != [] {
      FlattenLength(g[1..]);
    }
  }

  /** The flattened board is the nine cells, each at index 3r + c. */
  lemma FlattenGrid(g: Grid)
    requires IsGrid(g)
    ensures |Flatten(g)| == ACTION_SPACE
    ensures forall r, c :: 0 <= r < N && 0 <= c < N ==> Flatten(g)[N * r + c] == g[r][c]
  {
    FlattenLength(g);
    forall r, c | 0 <= r < N && 0 <= c < N
      ensures Flatten(g)[N * r + c] == g[r][c]
    {
      FlattenIndex(g, r, c);
    }
  }

  lemma FlattenDigits(g: Grid)
    requires IsGrid(g) && ValidMarks(g)
    ensures IsDigits(Flatten(g))
  {
    FlattenGrid(g);
    forall i | 0 <= i < |Flatten(g)|
      ensures IsCellValue(Flatten(g)[i])
    {
      assert Flatten(g)[N * (i / N) + i % N] == g[i / N][i % N];
    }
  }

  /** The dot product with consecutive powers of 3 is the base-3 reading, scaled. */
  lemma {:induction false} DotPowers(d: seq<int>, k: nat)
    ensures Dot(d, PowersFrom(k, |d|)) == Pow3(k) * Encode(d)
  {
    if d != [] {
      var p := PowersFrom(k, |d|);
      assert p[1..] == PowersFrom(k + 1, |d| - 1);
      DotPowers(d[1..], k + 1);
      calc {
        Dot(d, p);
        d[0] * Pow3(k) + Pow3(k + 1) * Encode(d[1..]);
        d[0] * Pow3(k) + Pow3(k) * (3 * Encode(d[1..]));
        { assert Pow3(k) * (d[0] + 3 * Encode(d[1..])) == d[0] * Pow3(k) + Pow3(k) * (3 * Encode(d[1..])); }
        Pow3(k) * Encode(d);
      }
    }
  }

  /** The state index is Σ cell_i · 3^i over the row-major cells. */
  lemma GetStateIsEncode(g: Grid)
    ensures GetState(g) == Encode(Flatten(g))
  {
    DotPowers(Flatten(g), 0);
  }

  lemma {:induction false} EncodeBound(d: seq<int>)
    requires IsDigits(d)
    ensures 0 <= Encode(d) < Pow3(|d|)
  {
    if d != [] {
      EncodeBound(d[1..]);
    }
  }

  /** Decoding the base-3 reading of a digit string gives the digits back. */
  lemma {:induction false} DecodeEncode(d: seq<int>)
    requires IsDigits(d)
    ensures Decode(Encode(d), |d|) == d
  {
    if d != [] {
      EncodeBound(d[1..]);
      DecodeEncode(d[1..]);
      var e := Encode(d);
      assert e % 3 == d[0] && e / 3 == Encode(d[1..]);
    }
  }

  lemma Pow3Nine()
    ensures Pow3(ACTION_SPACE) == OBSERVATION_SPACE
  {
  }

  /** Every board of cell values has an index in [0, 3^9). */
  lemma GetStateBound(g: Grid)
    requires IsGrid(g) && ValidMarks(g)
    ensures 0 <= GetState(g) < OBSERVATION_SPACE
  {
    FlattenGrid(g);
    FlattenDigits(g);
    GetStateIsEncode(g);
    EncodeBound(Flatten(g));
    Pow3Nine();
  }

  /** The index determines every cell: its nine base-3 digits are the cells. */
  lemma GetStateDecodes(g: Grid)
    requires IsGrid(g) && ValidMarks(g)
    ensures forall r, c :: 0 <= r < N && 0 <= c < N ==>
      Decode(GetState(g), ACTION_SPACE)[N * r + c] == g[r][c]
  {
    FlattenGrid(g);
    FlattenDigits(g);
    GetStateIsEncode(g);
    DecodeEncode(Flatten(g));
  }

  /** Distinct boards get distinct indices. */
  lemma GetStateInjective(g: Grid, h: Grid)
    requires IsGrid(g) && ValidMarks(g) && IsGrid(h) && ValidMarks(h)
    requires GetState(g) == GetState(h)
    ensures g == h
  {
    GetStateDecodes(g);
    GetStateDecodes(h);
    forall r | 0 <= r < N ensures g[r] == h[r] {
      assert forall c :: 0 <= c < N ==> g[r][c] == h[r][c];
    }
  }
}
