/**
 The `MovesTable` class: the ordered list of move labels and the N x N
 outcome matrix built from it.  Row `i` is read from the point of view of
 the move at position `i`: it beats only its cyclic successor, draws against
 itself and is recorded as losing against every other move.  For five or
 more moves this rule makes two non-adjacent moves each lose against the
 other; the model keeps that behaviour.
 */
module Tables {

  datatype Outcome = Win | Lose | Draw

  /** The position after `i` on a cycle of `n` moves, `($i + 1) % $count`. */
  function Next(i: nat, n: nat): (r: nat)
    requires i < n
    ensures r < n
    ensures i + 1 < n ==> r == i + 1
    ensures i + 1 == n ==> r == 0
  {
    (i + 1) % n
  }

  /** The position before `j` on a cycle of `n` moves. */
  function Prev(j: nat, n: nat): (r: nat)
    requires j < n
    ensures r < n
    ensures Next(r, n) == j
  {
    if j == 0 then n - 1 else j - 1
  }

  /** The cell `[i][j]` that `generateTable` writes. */
  function Rule(i: nat, j: nat, n: nat): Outcome
    requires i < n && j < n
  {
    if i == j then Draw
    else if j == Next(i, n) then Win
    else Lose
  }

  /** `t` is the `n` x `n` matrix of `generateTable`. */
  predicate IsRuleTable(t: seq<seq<Outcome>>, n: nat) {
    && |t| == n
    && (forall i | 0 <= i < n :: |t[i]| == n)
    && (forall i, j | 0 <= i < n && 0 <= j < n :: t[i][j] == Rule(i, j, n))
  }

  datatype MovesTable = MovesTable(moves: seq<string>, table: seq<seq<Outcome>>) {
    /** The table was generated from this very move list. */
    predicate Valid() {
      IsRuleTable(table, |moves|)
    }
  }

  /** `generateTable`: two nested loops over rows and columns. */
  method GenerateTable(n: nat) returns (t: seq<seq<Outcome>>)
    ensures |t| == n
    ensures forall i | 0 <= i < n :: |t[i]| == n
    ensures forall i | 0 <= i < n :: t[i][i] == Draw
    ensures forall i | 0 <= i < n && Next(i, n) != i :: t[i][Next(i, n)] == Win
    ensures forall i, j | 0 <= i < n && 0 <= j < n && j != i && j != Next(i, n) :: t[i][j] == Lose
  {
    t := [];
    var i := 0;
    while i < n
      invariant i <= n
      invariant |t| == i
      invariant forall a | 0 <= a < i :: |t[a]| == n
      invariant forall a, b | 0 <= a < i && 0 <= b < n :: t[a][b] == Rule(a, b, n)
    {
      var row := [];
      var j := 0;
      while j < n
        invariant j <= n
        invariant |row| == j
        invariant forall b | 0 <= b < j :: row[b] == Rule(i, b, n)
      {
        var cell := if i == j then Draw else if (i + 1) % n == j then Win else Lose;
        row := row + [cell];
        j := j + 1;
      }
      t := t + [row];
      i := i + 1;
    }
  }

  /** The constructor: keep the moves and generate their table. */
  method NewMovesTable(moves: seq<string>) returns (mt: MovesTable)
    ensures mt.moves == moves
    ensures mt.Valid()
  {
    var t := GenerateTable(|moves|);
    mt := MovesTable(moves, t);
  }

  /** Each cell of a row, read as a statement about the pair of positions. */
  lemma CellMeaning(t: seq<seq<Outcome>>, n: nat, i: nat, j: nat)
    requires IsRuleTable(t, n)
    requires n >= 2
    requires i < n && j < n
    ensures t[i][j] == Draw <==> i == j
    ensures t[i][j] == Win <==> j == Next(i, n)
    ensures t[i][j] == Lose <==> j != i && j != Next(i, n)
  {
  }

  /** Read down a column: the move at `j` is beaten by its predecessor and
      by no other move. */
  lemma BeatenOnlyByPrev(t: seq<seq<Outcome>>, n: nat, i: nat, j: nat)
    requires IsRuleTable(t, n)
    requires n >= 2
    requires i < n && j < n
    ensures t[i][j] == Win <==> i == Prev(j, n)
  {
  }

  /** Looked up from the successor's row, the predecessor is a loss.  This
      needs three moves: with two, both off-diagonal cells are `Win`. */
  lemma SuccessorLosesBack(t: seq<seq<Outcome>>, n: nat, i: nat)
    requires IsRuleTable(t, n)
    requires n >= 3
    requires i < n
    ensures t[i][Next(i, n)] == Win
    ensures t[Next(i, n)][i] == Lose
  {
  }

  /** Counts of each outcome in the first `k` cells of row `i`. */
  lemma {:induction false} PrefixCounts(row: seq<Outcome>, n: nat, i: nat, k: nat)
    requires |row| == n && i < n && k <= n
    requires forall j | 0 <= j < n :: row[j] == Rule(i, j, n)
    ensures multiset(row[..k])[Draw] == if i < k then 1 else 0
    ensures multiset(row[..k])[Win] == if Next(i, n) < k && Next(i, n) != i then 1 else 0
    ensures multiset(row[..k])[Lose] == k - multiset(row[..k])[Draw] - multiset(row[..k])[Win]
  {
    if k > 0 {
      PrefixCounts(row, n, i, k - 1);
      assert row[..k] == row[..k - 1] + [row[k - 1]];
    }
  }

  /** Every row holds exactly one `Draw`, exactly one `Win` and `n - 2`
      `Lose` cells. */
  lemma RowCounts(t: seq<seq<Outcome>>, n: nat, i: nat)
    requires IsRuleTable(t, n)
    requires n >= 2
    requires i < n
    ensures multiset(t[i])[Draw] == 1
    ensures multiset(t[i])[Win] == 1
    ensures multiset(t[i])[Lose] == n - 2
  {
    PrefixCounts(t[i], n, i, n);
    assert t[i][..n] == t[i];
  }

  /** No pair of distinct moves reads the same result from both sides. */
  predicate Antisymmetric(t: seq<seq<Outcome>>, n: nat)
    requires IsRuleTable(t, n)
  {
    forall i, j | 0 <= i < n && 0 <= j < n && i != j :: t[i][j] != t[j][i]
  }

  /** With three moves the table is classic rock-paper-scissors: every pair
      of different moves has one winner and one loser. */
  lemma ThreeMovesAreClassic(t: seq<seq<Outcome>>)
    requires IsRuleTable(t, 3)
    ensures forall i, j | 0 <= i < 3 && 0 <= j < 3 && i != j :: t[i][j] != Draw
    ensures Antisymmetric(t, 3)
  {
  }

  /** From four moves on, positions 0 and 2 are not neighbours and each
      loses against the other. */
  lemma NonNeighboursBothLose(t: seq<seq<Outcome>>, n: nat)
    requires IsRuleTable(t, n)
    requires n >= 4
    ensures t[0][2] == Lose && t[2][0] == Lose
    ensures !Antisymmetric(t, n)
  {
  }

  /** The table is antisymmetric exactly for zero, one or three moves. */
  lemma AntisymmetricIff(t: seq<seq<Outcome>>, n: nat)
    requires IsRuleTable(t, n)
    ensures Antisymmetric(t, n) <==> n <= 1 || n == 3
  {
    if n == 2 {
      assert Next(0, 2) == 1 && Next(1, 2) == 0;
      assert t[0][1] == Win && t[1][0] == Win;
    } else if n == 3 {
      ThreeMovesAreClassic(t);
    } else if n >= 4 {
      NonNeighboursBothLose(t, n);
    }
  }
}
