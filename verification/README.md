# N-move rock-paper-scissors: outcome table and move handling

This project models the core of `task3.php`, a command-line game that
generalises rock-paper-scissors to any odd number of user-supplied moves.

- `MovesTable` keeps the ordered move list and builds an N x N outcome
  matrix: the diagonal is `Draw`, the cell `[i][(i + 1) % N]` is `Win`, and
  every other cell is `Lose`. From four moves on, two moves that are not
  neighbours on the cycle each read `Lose` against the other. The model
  keeps this rule exactly as written and proves where it stops being a
  proper tournament (`Tables.AntisymmetricIff`).
- `Game::play` resolves a round as `table[index(user)][index(computer)]`.
  Both indices come from `array_search`, which returns the first match. The
  computer's move is fixed when the game is created.
- `validateMoves` accepts a list whose length is odd and at least 3 and
  which has no duplicates.
- `getUserMove` maps the menu number `k` to the move at position `k - 1`.
- The input part of `runGame` accepts a move count only if it is odd and at
  least 3. It cleans each typed line by removing spaces and cutting it to 10
  characters, and it re-asks for a line that is empty or already entered.

Modules:

- `Php` (`php.dfy`) states the PHP built-ins the code relies on: the
  first-match `array_search`, the first-occurrence `array_unique`, the
  `false` array key read as key 0, the truncating `%`, `str_replace` of
  spaces, `substr` from 0, and `empty` on strings.
- `Tables` (`tables.dfy`) holds the outcome datatype, the table rule, the
  `generateTable` loops and the lemmas about the table.
- `Input` (`input.dfy`) holds `validateMoves`, `getUserMove`, the move-count
  check and the label-cleaning loop of `runGame`.
- `Games` (`games.dfy`) holds the `Game` class, `play` and one menu round.

Randomness and terminal input are parameters. The secret key and the key
returned by `array_rand` are arguments of `Games.NewGame`. Typed lines are a
sequence of strings, and a menu choice is an already parsed integer.

## Model

| member | source | states |
|---|---|---|
| Tables.Next | task3.php:22 | `($i + 1) % $count` is the next position on the cycle, wrapping from the last position to 0 |
| Tables.GenerateTable | task3.php:14-29 | the generated table has N rows of N cells; the diagonal is `Draw`, the successor cell is `Win`, every other cell is `Lose` |
| Tables.NewMovesTable | task3.php:8-12 | the constructor keeps the move list and leaves a table that fits it |
| Tables.CellMeaning | task3.php:18-28 | for N >= 2 a cell is `Draw` iff on the diagonal, `Win` iff in the successor column, `Lose` iff neither |
| Tables.BeatenOnlyByPrev | task3.php:22-25 | read down column j, the only `Win` is in the row of j's cyclic predecessor |
| Tables.SuccessorLosesBack | task3.php:22-25 | for N >= 3, row i beats i+1 and row i+1 reads `Lose` against i |
| Tables.RowCounts | task3.php:18-28 | every row holds exactly one `Draw`, one `Win` and N - 2 `Lose` cells |
| Tables.ThreeMovesAreClassic | task3.php:20-25 | with three moves every pair of different moves has one winner and one loser |
| Tables.NonNeighboursBothLose | task3.php:22-26 | from four moves on, positions 0 and 2 both read `Lose` against each other, so the table is not antisymmetric |
| Tables.AntisymmetricIff | task3.php:18-28 | the table is antisymmetric exactly when N is 0, 1 or 3 (two moves give two `Win` cells, four or more give `Lose`/`Lose` pairs) |
| Php.Search | task3.php:80-81 | `array_search` finds the first position holding the value, or `false` exactly when the value is absent |
| Php.SearchDistinct | task3.php:80-81 | in a list without duplicates `array_search` returns the element's own position |
| Php.DistinctAppend | task3.php:173-179 | appending a value not yet in a duplicate-free list keeps it free of duplicates |
| Php.SearchAppend | task3.php:80-81 | appending to a list leaves the first match of a value already present where it was, and a first-time value is found at the end |
| Php.Unique | task3.php:136 | `array_unique` keeps every value of the list, drops duplicates and never grows the list |
| Php.UniqueKeepsLengthIffDistinct | task3.php:136 | `count(array_unique($m)) === count($m)` holds exactly when the list has no duplicates |
| Php.Rem | task3.php:154-156 | PHP `%` agrees with Euclidean `%` on non-negative numbers and is never positive on negative ones |
| Php.StripSpaces | task3.php:164 | removing spaces leaves no space, keeps every other character with its multiplicity, and leaves space-free text unchanged |
| Php.StripSpacesAppend | task3.php:164 | removing spaces distributes over concatenation |
| Php.Prefix | task3.php:165 | `substr($s, 0, 10)` is the prefix of length min(length, 10) |
| Input.ValidateMoves | task3.php:129-140 | a list is accepted iff its length is odd and at least 3 and it has no duplicates; a bad length is reported before duplicates |
| Input.GetUserMove | task3.php:142-149 | number k yields the move at position k - 1 when 1 <= k <= N, and `false` otherwise, in particular for 0 and negatives |
| Input.MenuRoundTrip | task3.php:142-149 | with distinct moves, the menu number of a move selects that move and no other number does |
| Input.MovesCountAccepted | task3.php:154-158 | the move-count loop accepts exactly the odd numbers that are at least 3 |
| Input.Sanitise | task3.php:164-165 | a cleaned line is the first min(10, length) characters of the line with its spaces removed: no spaces, exactly 10 characters when the space-free line is longer, the whole space-free line otherwise |
| Input.SanitiseIdempotent | task3.php:164-165 | cleaning a cleaned line changes nothing |
| Input.Admit | task3.php:163-179 | a line is refused as empty exactly when its cleaned form is empty in PHP's sense (`Php.Empty`: "" and also "0", line 167), refused as a duplicate when already entered, and otherwise kept as a well-formed label |
| Input.SelectStep | task3.php:167-179 | reading one more cleaned label keeps the list as it was when the label is empty or already entered, and appends it at the end otherwise |
| Input.AdmitSelects | task3.php:163-179 | `Admit` accepts a line exactly when its cleaned form is neither empty nor already in the list, and then keeps that cleaned form |
| Input.SelectFacts | task3.php:167-179 | the kept labels are never more than the labels read, are distinct and non-empty, and each is one of the labels read |
| Input.SelectCovers | task3.php:167-179 | every non-empty label read ends up among the kept labels |
| Input.SelectInOrder | task3.php:179 | the kept labels stand in the order in which they were first read, since `$moves[] = $move` appends |
| Input.CollectStep | task3.php:162-180 | one pass of the loop turns the labels kept from the first i lines into the labels kept from the first i + 1 lines |
| Input.CollectMoves | task3.php:161-180 | the loop keeps at most the requested number of labels, all distinct and well formed, each the cleaned form of a line read, in the order first read; every line read whose cleaned form is not empty ends up in the list; the list is not yet full before each line read, so reading stops as soon as it is full, and it stops short only when the lines run out; a full list of an accepted count passes `validateMoves` |
| Games.NewGame | task3.php:48-59 | the computer's move is the element at the picked key, so it belongs to the move list |
| Games.Play | task3.php:77-85 | for a listed user move the result is `Draw` exactly when it equals the computer's move; the body reads `$table[false]` as key 0 (`Php.ArrayKey`, line 83), which `Games.UnknownMovePlaysAsFirst` states |
| Games.PlayByPosition | task3.php:77-85 | with distinct moves, move i against the computer's move j gives cell `[i][j]`: `Win` iff j follows i, `Draw` iff i = j, `Lose` otherwise |
| Games.UnknownMovePlaysAsFirst | task3.php:80-83 | an unlisted user move makes `array_search` return `false`, which reads key 0, so it plays exactly like the first move |
| Games.PlayChoice | task3.php:201-210 | a menu number gives a result exactly when it is in range, and the result is `Draw` iff the chosen move is the computer's |
| Games.PlayChoiceReadsRow | task3.php:201-210 | with distinct moves, menu number k reads row k - 1 of the table in the computer's column |

## Left out

- `Php.Search`: compares by exact string equality. PHP's `array_search` and `in_array` compare loosely, so numeric strings such as "1" and "01" count as equal there.
- `Input.Admit`: the duplicate check uses the same exact equality, for the same reason.
- `Php.Prefix`: counts characters. PHP's `substr` counts bytes, so a multi-byte label can be cut inside a character.
- `Input.CollectMoves`: stops when the typed lines run out. In PHP, `readline` then returns `false`, which cleans to an empty label, so the loop asks again forever.
- `Php.Rem`: for a negative dividend the contract states only the sign and the bound of the remainder, not its value; the game evaluates `%` only on move counts of at least 2.
- `Input.MovesCountAccepted`: models one test of the loop condition. The loop that repeats the question, and `intval`'s parsing of the typed text, are terminal input.
- The secret key (`bin2hex(random_bytes(32))`), `array_rand` and `hash_hmac('sha256', ...)` are foreign randomness and cryptography. The key and the picked index are parameters, and the HMAC is not modelled.
- The printed key and HMAC suggest a commit-then-reveal protocol, but the code does not implement one: it prints the key before the user moves (task3.php:187) and computes the HMAC over the user's move, not the computer's (task3.php:206). The model therefore proves no binding or verification property.
- `GameHelper::displayHelp`, `displayMenu`, `echo`, `readline`, `exit` and the `?`/`0` menu commands are terminal I/O. `validateMoves` exits on failure; the model returns an error value instead. `runGame` never calls `validateMoves`; its own loops impose the same conditions, which `Input.CollectMoves` proves.
- Table cells hold the strings `'Win'`, `'Lose'` and `'Draw'` in PHP. The model uses the `Outcome` datatype instead.
