/**
 The `Game` class: a moves table, a secret key and the computer's move,
 fixed when the game is created, and `play`, which looks up the result of
 the user's move against it.  The key and the computer's pick are
 parameters: they stand for `random_bytes` and `array_rand`.
 */
module Games {
  import opened Php
  import opened Tables
  import Input

  datatype Game = Game(movesTable: MovesTable, key: string, computerMove: string) {
    /** The table fits the moves and the computer's move is one of them. */
    predicate Valid() {
      movesTable.Valid() && computerMove in movesTable.moves
    }
  }

  /** The constructor: `pick` is the key `array_rand` returned. */
  function NewGame(mt: MovesTable, key: string, pick: nat): (g: Game)
    requires mt.Valid()
    requires pick < |mt.moves|
    ensures g.Valid()
    ensures g.movesTable == mt && g.key == key
    ensures g.computerMove == mt.moves[pick]
  {
    Game(mt, key, mt.moves[pick])
  }

  /** `play`: the cell in the user's row and the computer's column, both
      positions found by `array_search`.  A user move that is not in the
      list is looked up in row 0, because `false` reads key 0. */
  function Play(g: Game, userMove: string): (r: Outcome)
    requires g.Valid()
    ensures userMove in g.movesTable.moves ==> (r == Draw <==> userMove == g.computerMove)
  {
    var moves := g.movesTable.moves;
    var u := ArrayKey(Search(moves, userMove));
    var c := ArrayKey(Search(moves, g.computerMove));
    g.movesTable.table[u][c]
  }

  /** With distinct moves, `play` resolves the move at position `i` against
      the computer's move at position `j` exactly as the cell `[i][j]`: a
      win when `j` follows `i` on the cycle, a draw when they coincide, a
      loss otherwise. */
  lemma PlayByPosition(g: Game, i: nat, j: nat)
    requires g.Valid()
    requires Distinct(g.movesTable.moves)
    requires i < |g.movesTable.moves| && j < |g.movesTable.moves|
    requires g.movesTable.moves[j] == g.computerMove
    ensures Play(g, g.movesTable.moves[i]) == g.movesTable.table[i][j]
    ensures Play(g, g.movesTable.moves[i]) == Win <==> i != j && j == Next(i, |g.movesTable.moves|)
    ensures Play(g, g.movesTable.moves[i]) == Draw <==> i == j
    ensures Play(g, g.movesTable.moves[i]) == Lose <==> i != j && j != Next(i, |g.movesTable.moves|)
  {
  }

  /** A move outside the list plays as the first move of the list. */
  lemma UnknownMovePlaysAsFirst(g: Game, userMove: string)
    requires g.Valid()
    requires userMove !in g.movesTable.moves
    ensures Play(g, userMove) == Play(g, g.movesTable.moves[0])
  {
  }

  /** One round of `runGame` after a number was typed: `getUserMove`, then
      `play`; `None` is the "Invalid move" branch. */
  function PlayChoice(g: Game, input: int): (r: Option<Outcome>)
    requires g.Valid()
    ensures r.Some? <==> 1 <= input <= |g.movesTable.moves|
    ensures r.Some? ==> (r.value == Draw <==> g.movesTable.moves[input - 1] == g.computerMove)
  {
    match Input.GetUserMove(g.movesTable.moves, input)
    case None => None
    case Some(m) => Some(Play(g, m))
  }

  /** With distinct moves, the number typed selects the row of the table. */
  lemma PlayChoiceReadsRow(g: Game, input: int, j: nat)
    requires g.Valid()
    requires Distinct(g.movesTable.moves)
    requires 1 <= input <= |g.movesTable.moves|
    requires j < |g.movesTable.moves| && g.movesTable.moves[j] == g.computerMove
    ensures PlayChoice(g, input) == Some(g.movesTable.table[input - 1][j])
  {
  }
}
