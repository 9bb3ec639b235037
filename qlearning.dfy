/**
 * The value-table arithmetic shared by both iterations: one row of the
 * table, its maximum (`np.max`), the first index of its maximum
 * (`np.argmax`) and the temporal-difference update formula.
 */
module QLearning {

  /** Row `s` of the table, one value per action. */
  function Row(q: array2<real>, s: int): (row: seq<real>)
    requires 0 <= s < q.Length0
    reads q
    ensures |row| == q.Length1
  {
    seq(q.Length1, j requires 0 <= j < q.Length1 reads q => q[s, j])
  }

  /** `np.max(row)`. */
  function RowMax(row: seq<real>): real
    requires |row| > 0
  {
    if |row| == 1 then row[0]
    else
      var m := RowMax(row[1..]);
      if row[0] >= m then row[0] else m
  }

  /** The maximum bounds every entry and is one of them. */
  lemma {:induction false} RowMaxIsMax(row: seq<real>)
    requires |row| > 0
    ensures forall j :: 0 <= j < |row| ==> row[j] <= RowMax(row)
    ensures exists j :: 0 <= j < |row| && row[j] == RowMax(row)
  {
    if |row| > 1 {
      RowMaxIsMax(row[1..]);
      var j :| 0 <= j < |row[1..]| && row[1..][j] == RowMax(row[1..]);
      assert row[j + 1] == RowMax(row[1..]);
      if row[0] < RowMax(row[1..]) {
        assert row[j + 1] == RowMax(row);
      } else {
        assert row[0] == RowMax(row);
      }
      forall i | 0 < i < |row| ensures row[i] <= RowMax(row) {
        assert row[i] == row[1..][i - 1];
      }
    }
  }

  /** `np.argmax(row)`: scanning left to right, a later entry wins only if strictly larger. */
  function ArgMax(row: seq<real>): (k: nat)
    requires |row| > 0
    ensures k < |row|
  {
    if |row| == 1 then 0
    else
      var k := ArgMax(row[..|row| - 1]);
      if row[|row| - 1] > row[k] then |row| - 1 else k
  }

  /**
   * `np.argmax` returns the first index of the maximum: its entry is the
   * row maximum and every earlier entry is strictly smaller.
   */
  lemma {:induction false} ArgMaxIsFirstMax(row: seq<real>)
    requires |row| > 0
    ensures row[ArgMax(row)] == RowMax(row)
    ensures forall j :: 0 <= j < |row| ==> row[j] <= row[ArgMax(row)]
    ensures forall j :: 0 <= j < ArgMax(row) ==> row[j] < row[ArgMax(row)]
  {
    RowMaxIsMax(row);
    if |row| > 1 {
      var init := row[..|row| - 1];
      ArgMaxIsFirstMax(init);
      var k := ArgMax(init);
      assert row[k] == init[k];
      forall j | 0 <= j < |row| - 1 ensures row[j] == init[j] { }
      var m :| 0 <= m < |row| && row[m] == RowMax(row);
      assert row[ArgMax(row)] >= row[m];
    }
  }

  /** `random.uniform(0, 1)`: some value in [0, 1], chosen nondeterministically. */
  method Uniform() returns (x: real)
    ensures 0.0 <= x <= 1.0
  {
    x :| 0.0 <= x <= 1.0;
  }

  /** `n` successive calls of `random.uniform(0, 1)`. */
  method UniformDraws(n: nat) returns (draws: seq<real>)
    ensures |draws| == n
    ensures forall k :: 0 <= k < n ==> 0.0 <= draws[k] <= 1.0
  {
    draws := [];
    while |draws| < n
      invariant |draws| <= n
      invariant forall k :: 0 <= k < |draws| ==> 0.0 <= draws[k] <= 1.0
    {
      var x := Uniform();
      draws := draws + [x];
    }
  }

  /** The temporal-difference target blended into the old value with rate `alpha`. */
  function TdValue(alpha: real, gamma: real, current: real, reward: real, nextMax: real): real {
    (1.0 - alpha) * current + alpha * (reward + gamma * nextMax)
  }

  /**
   * With a learning rate in [0, 1] the new value lies between the old value
   * and the target `reward + gamma * nextMax`; a rate of 0 keeps the current
   * value and a rate of 1 replaces it by the target.
   */
  lemma TdValueBetween(alpha: real, gamma: real, current: real, reward: real, nextMax: real)
    requires 0.0 <= alpha <= 1.0
    ensures var target := reward + gamma * nextMax;
      var v := TdValue(alpha, gamma, current, reward, nextMax);
      (current <= target ==> current <= v <= target) &&
      (target <= current ==> target <= v <= current) &&
      (alpha == 0.0 ==> v == current) &&
      (alpha == 1.0 ==> v == target)
  {
    var target := reward + gamma * nextMax;
    var gap := target - current;
    assert TdValue(alpha, gamma, current, reward, nextMax) == current + alpha * gap;
    if gap >= 0.0 {
      NonNegProduct(alpha, gap);
      NonNegProduct(1.0 - alpha, gap);
    } else {
      NonNegProduct(alpha, -gap);
      NonNegProduct(1.0 - alpha, -gap);
    }
  }

  lemma NonNegProduct(a: real, b: real)
    requires a >= 0.0 && b >= 0.0
    ensures a * b >= 0.0
  {
  }

  /** A value that already equals its target is left unchanged. */
  lemma TdValueFixedPoint(alpha: real, gamma: real, current: real, reward: real, nextMax: real)
    requires current == reward + gamma * nextMax
    ensures TdValue(alpha, gamma, current, reward, nextMax) == current
  {
    assert TdValue(alpha, gamma, current, reward, nextMax) == current + alpha * (reward + gamma * nextMax - current);
  }
}
