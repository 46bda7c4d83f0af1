# Dice game roster and scores, modelled in Dafny

This project models the bookkeeping core of a browser dice game (`script.js`).
Players join a roster of at most six. Each round every player rolls one
six-sided die and the value is added to that player's running total. After
the round, a ranking lists the roster from the highest total down.

The model follows the source's own objects:

- `DiceGame.Player` is a class with `name`, `totalScore`, `lastRoll` and `dice`.
  `AddScore` updates it in place, and `Info` is its `getInfo` text.
- `DiceGame.Game` is a class with the ordered `players` sequence and the id
  `counter`. It adds, removes and renames players, rolls for everyone, resets
  the totals and ranks the roster. Its invariant `Valid` says:
  - the roster never holds more than six players;
  - no player is listed twice;
  - every player has a die of its own;
  - `counter` is one more than the number of players ever added (a ghost
    field `additions` counts the additions), and the roster is no longer
    than that number;
  - every total is at least 0, every last roll is 0 (no roll yet) or a face
    1..6, and every die shows a face 1..6.
- `Dice.Dice3D` is the die. Its logical state is the face it was last rolled
  to. `GetRotation` is the fixed table of cube rotations, one per face.
- `Faces` holds the pip table `GetPips` and the face markup. `CreateDiceHTML`
  builds the six faces with the source's loops. The lemmas read the markup
  back: nine cells per face, exactly v pips on the face for value v.
- `Ranking` is the sort used by `showResult`. `Array.prototype.sort` has been
  stable since ECMAScript 2019 (ECMA-262, section 23.1.3.30). So the model
  specifies a stable sort by descending total and implements it as a stable
  insertion sort. `SortedTiesUnique` proves that being sorted and stable fixes
  the result. Any stable sort with the source's comparator therefore gives
  exactly `Rank`'s output, so the choice of algorithm does not matter.
- `Text` renders an integer the way a template literal `${n}` does.
  `ParseInt` reads it back; it is used for default names and info strings.
- `Scenarios` plays short rounds through the contracts alone.

Two inputs come from outside the program and are parameters here. The random
draws (`Math.random`) are the `draws` argument of `RollAll`: one draw per
player, each in 1..6. The answer to the reset confirmation (`confirm`) is the
`confirmed` argument of `ResetGame`. Where the source shows an `alert` and
returns, the model returns `false` and changes nothing.

Notes on the source:

- A new player's `lastRoll` starts at 0 (`script.js:111`).
- `addScore` does not check its argument, so `AddScore` accepts any value. Its
  only caller, `rollAll`, passes a draw in 1..6 (`script.js:220-221`), so in
  the program totals never go below 0; `Valid` records this.
- `resetGame` writes `totalScore` directly instead of going through `addScore`,
  and leaves `lastRoll` as it was (`script.js:151-153`).

## Model

| member | source | states |
|---|---|---|
| DiceGame.Player.constructor | script.js:108-114 | a new player is named "Player " followed by its id, has total 0, last roll 0 and no die yet |
| DiceGame.Player.AddScore | script.js:118-121 | the last roll becomes the value and the total grows by exactly the value; name and die unchanged |
| DiceGame.InfoNamesScore | script.js:124-126 | a player's info text is its name, the separator and its total; reading it back gives the total |
| DiceGame.DefaultNamesDistinct | script.js:109 | players created with different ids start with different names |
| DiceGame.Game.constructor | script.js:135-138 | a new game has an empty roster, counter 1, no additions yet, and satisfies the roster invariant |
| DiceGame.Game.AddPlayer | script.js:179-205 | on a full roster (6) nothing changes; otherwise a fresh player with id counter, default name, total 0, last roll 0 and a fresh die showing 1 is appended, the earlier players keep their order, counter and the number of additions grow by 1, and the roster stays within 6 |
| DiceGame.Game.RemovePlayer | script.js:193-197 | the roster becomes the old roster filtered to everyone but that player; counter unchanged; invariant kept |
| DiceGame.WithoutAt | script.js:195 | on a roster without repeats, filtering out the player at position i removes exactly that position and keeps everyone else in order |
| DiceGame.WithoutAbsent | script.js:195 | filtering out a player who is not on the roster leaves it unchanged |
| DiceGame.WithoutMembers | script.js:195 | the filtered roster holds exactly the players other than the removed one, and is no longer than before |
| DiceGame.WithoutDistinct | script.js:195 | filtering keeps the roster free of repeats |
| DiceGame.Game.RenamePlayer | script.js:192 | the player's name becomes the new text; total, last roll and die unchanged; nothing else may change |
| DiceGame.Game.RollAll | script.js:216-226 | on an empty roster nothing changes and the result is false; otherwise player k's total grows by draws[k], its last roll and its die show draws[k], names and roster order unchanged |
| DiceGame.Game.ResetGame | script.js:147-157 | with a non-empty roster and confirmation every total becomes 0; otherwise totals are unchanged; last rolls, names, dice and roster order never change |
| DiceGame.Game.ShowResult | script.js:228-234 | the ranking is a permutation of the roster, totals are non-increasing along it, players with equal totals appear in roster order; the roster itself is not modified |
| DiceGame.RankingOfRoster | script.js:231 | ranking the roster's (player, total) pairs and keeping the players gives a permutation, sorted by total, with ties in roster order |
| DiceGame.RankedScoresCurrent | script.js:231 | every entry of the ranking carries its player's current total, as the comparator reads it |
| DiceGame.ItemsOfScoredWithScore | script.js:231 | the players of total k in the pairs handed to the sort are the roster's players of total k, in order |
| DiceGame.Scored | script.js:231 | the pairs handed to the sort are the roster's players with their current totals, position by position |
| Ranking.RankSorted | script.js:231 | the sorted copy has non-increasing scores (comparator b.totalScore - a.totalScore) |
| Ranking.RankPermutation | script.js:231 | the sorted copy is a permutation of the copied roster |
| Ranking.RankStable | script.js:231 | entries with equal scores keep their relative order (stable sort) |
| Ranking.RankItemsPermutation | script.js:231 | the ranked players are a permutation of the roster's players |
| Ranking.SortedTiesUnique | script.js:231 | two sequences that are both sorted by descending score and agree on the order within every score are equal |
| Ranking.RankIsTheStableSort | script.js:231 | every stable descending sort of the roster yields Rank's result |
| Ranking.AllTiedKeepOrder | script.js:231 | when every score is equal the ranking is the insertion order |
| Ranking.InsertSorted | script.js:231 | inserting into a sorted sequence keeps it sorted |
| Ranking.InsertTies | script.js:231 | inserting an entry of score k puts it first among the entries of score k and leaves other scores unchanged |
| Ranking.WithScore | script.js:231 | the group of score k is no longer than its source and holds only source entries of score k |
| Ranking.Items | script.js:231 | the players read off the ranked entries, position by position |
| Faces.GetPips | script.js:159-165 | exactly the values 1..6 have pips; value v has v pip positions, strictly increasing, within 1..9 |
| Faces.CellsAt | script.js:172-173 | cell j of a face (counting from 1) holds a pip exactly when j is one of the pip positions |
| Faces.CellsHTML | script.js:171-174 | the inner loop over grid positions 1..9 emits the markup of exactly the nine cells of the face, first cell first |
| Faces.FaceMarkup | script.js:169-176 | the map callback for index i emits the face of value i + 1, wrapped in a div whose class names the i-th face (front, bottom, right, left, top, back) |
| Faces.CreateDiceHTML | script.js:167-177 | the result is the faces for values 1 to 6, in that order, joined without a separator |
| Faces.ParseRenderCells | script.js:173 | the cell markup reads back to the cells it was built from (pip and empty cells cannot be confused) |
| Faces.ParseFaceHTML | script.js:175 | a face's markup reads back to its cells given its class name |
| Faces.CountCells | script.js:170-174 | a strictly increasing pip list within 1..n marks exactly as many of the first n cells as it has entries |
| Faces.FaceHasValuePips | script.js:167-176 | the face for value v reads back to 9 cells, exactly v of them pips, at the positions GetPips(v) lists |
| Dice.GetRotation | script.js:84-93 | exactly the values 1..6 have a rotation |
| Dice.RotationsDistinct | script.js:84-93 | different faces are shown by different rotations |
| Dice.Dice3D.constructor | script.js:46-55 | a new die shows 1 |
| Dice.Dice3D.Roll | script.js:59-60 | a roll leaves the die showing the final value |
| DiceGame.RosterDiceHaveRotations | script.js:76 | every die on the roster of a valid game shows a face 1..6, so the rotation lookup at the end of its roll finds a rotation |
| Dice.InfoNamesValue | script.js:97-99 | a die's info text names the value it shows, and reading it back gives the value |
| Text.NatToString | script.js:109 | the decimal text of a number is non-empty, all digits and without a leading zero |
| Text.ParseNatToString | script.js:109 | reading the decimal text of a natural number gives the number back |
| Text.ParseIntToString | script.js:125 | reading the text of an integer (with a minus sign when negative) gives it back |
| Text.IntToStringInjective | script.js:109 | different integers have different texts |
| Scenarios.NewGame | script.js:179-205 | n additions to a fresh game (n at most 6) give a roster of n fresh players named "Player 1" to "Player n", each with total 0 and a die of its own |
| Scenarios.TwoPlayerRound | script.js:216-234 | two players drawing 6 and 3 end with totals 6 and 3, and the ranking is [first, second] |
| Scenarios.TiedRound | script.js:216-234 | n new players (1 to 6) who all draw the same value v end with total v each and are ranked exactly in the order they were added |
| Scenarios.TwoRanked | script.js:231 | a ranking of two players with different totals puts the higher total first |
| Scenarios.TiedRanked | script.js:231 | a ranking of players with all-equal totals is the roster order |
| Scenarios.AllWithScore | script.js:231 | when every player has total k, the group of total k is the whole roster |
| Scenarios.SeventhPlayerRefused | script.js:180 | after six additions a seventh is refused and the roster stays at six |
| Scenarios.RemovedPlayerNotRanked | script.js:193-197 | in any valid game, a removed player is off the roster and does not appear in the ranking shown afterwards |
| Scenarios.EmptyRollRefused | script.js:217 | rolling on an empty roster is refused |

## Left out

- DOM work is not modelled: building the player boxes, the add button, score labels, the ranking list markup and the panel and modal classes. This is display glue with no bookkeeping in it.
- Audio playback (`diceSound`) is not modelled: it is a browser media API.
- The spin animation in `Dice3D.roll` is not modelled: the `performance.now` and `requestAnimationFrame` callbacks and the `rx`/`ry`/`rz` accumulation are only visual and depend on timing. Only the final `value` is modelled.
- The 3.2-second `setTimeout` before `showResult` is not modelled. `RollAll` and `ShowResult` are two separate calls. So the model does not capture a removal, reset or second roll that lands between a roll and its pending result. In the source, such a race can make `showResult` run on an emptied roster and fail at `sorted[0]`.
- `Math.random` and `confirm` are not modelled; they become the `draws` and `confirmed` parameters.
- The `console.log` diagnostics in `showResult` are not modelled. The `getInfo` strings they print are modelled as `Player.Info` and `Dice3D.Info`.
- The `GameEntity` base class is not modelled: it only supplies `name` and a generic `getInfo`.
- DiceGame.Game.RollAll: requires one draw per player, each in 1..6. This stands for `Math.floor(Math.random() * 6) + 1`, which the model does not compute.
- Numbers are unbounded integers. JavaScript numbers are doubles, exact up to 2^53, and ids and totals never get that large.
