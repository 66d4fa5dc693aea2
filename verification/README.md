# Word-search level generator, modelled in Dafny

This project models `generate_new_levels.py`, the script that regenerates a
word-search game's levels. For every question whose answer fits, it builds a
6x6 letter grid with the answer written along one of eight straight
directions, and it records the path of cells that spells the answer.

The model has five modules:

- `Letters` (`letters.dfy`): the weighted filler alphabet `LETTERS` and the
  draw of one filler letter (`get_random_char`). The weighted string is
  spelled out from a table of (letter, repetitions) pairs with the same counts
  as the source, so `LETTERS` is the same 924-character string.
- `Text` (`text.dfy`): `str.strip()` and `str.lower()` on ASCII text.
- `Geometry` (`geometry.dfy`): cells, the direction table, the valid-start
  filter and straight paths on the 6x6 board.
- `GridGen` (`grid.dfy`): `generate_grid_for_word`, imperative as in the
  source.
  - The board is a 6x6 `array2<string>`, with `""` for an unwritten cell.
  - The `while` loop runs the placement search: up to 200 attempts, the
    nested loops that collect `valid_starts`, and the loop that writes the
    word and appends to `path`.
  - The nested fill loops then give every `""` cell a filler letter.
- `Levels` (`levels.dfy`): the transform loop of `main`, as two loops that
  append to `new_qs` and `new_levels`. Each loop is proved against a filter
  function, `Survivors` or `Emitted`, and the filter properties (membership
  iff, order, idempotence, emptiness) are lemmas about those functions.

The three random choices are Dafny `:|` choices, so every contract holds for
whatever the random source picks:
- the direction of each attempt;
- the start among `valid_starts`;
- the index into `LETTERS` for a filler letter.

`IsPuzzleFor(word, grid, placement)` (`grid.dfy`) states everything the
generator promises:
- a 6x6 grid of one-character cells;
- a placement exactly when the word has at most six characters;
- when placed, a straight in-board path whose k-th cell holds the k-th letter
  of the lower-cased word;
- a letter of the alphabet in every other cell.

The answer is stored stripped but not lower-cased
(`generate_new_levels.py:105`, `:117`); only the grid letters are lower-cased,
inside the generator (`:39`). `Levels.CatIsKept` and `Levels.CatIsSpelledLower`
show this on the answer `" Cat "`.

A word of at most six letters is placed on the first attempt, whatever the
random choices (`GridGen.PlaceWord`). An answer that is empty after stripping
passes the length filter and is placed with an empty path.

## Model

| member | source | states |
|---|---|---|
| Letters.ExpandDrawsFromTable | generate_new_levels.py:6-31 | every character of the weighted string comes from a table row with a positive count |
| Letters.ExpandCoversTable | generate_new_levels.py:6-31 | every letter with a positive count occurs in the weighted string |
| Letters.LettersAreTheAlphabet | generate_new_levels.py:6-31 | a character occurs in LETTERS exactly when it has a positive weight in the table |
| Letters.AlphabetIsLowercase | generate_new_levels.py:6-31 | the letters with a positive weight are exactly the 26 lower-case ASCII letters |
| Letters.DrawnFromLetters | generate_new_levels.py:6-31 | a filler letter is a character of LETTERS and a lower-case letter |
| Letters.GetRandomChar | generate_new_levels.py:33-34 | whatever index is drawn, the result is a character of the alphabet and lower-case |
| Text.TrimStart | generate_new_levels.py:105 | the result is a suffix of the input, everything removed is whitespace, and the result does not start with whitespace |
| Text.TrimEnd | generate_new_levels.py:105 | the result is a prefix of the input, everything removed is whitespace, and the result does not end with whitespace |
| Text.Strip | generate_new_levels.py:105 | the stripped answer has no whitespace at either end and is no longer than the input |
| Text.StripIsInfix | generate_new_levels.py:105 | strip returns a contiguous piece of the input; everything before it and after it is whitespace |
| Text.StripIdempotent | generate_new_levels.py:105 | stripping an already stripped answer changes nothing |
| Text.LowerChar | generate_new_levels.py:39 | upper-case ASCII letters move down by 32 and every other character is kept; no upper-case letter remains |
| Text.Lower | generate_new_levels.py:39 | lower-casing keeps the length and maps each character on its own |
| Text.LowerIdempotent | generate_new_levels.py:39 | lower-casing twice equals lower-casing once |
| Geometry.DirectionsAreTheUnitSteps | generate_new_levels.py:46-55 | the direction table lists the eight unit steps, each once and nothing else |
| Geometry.PathFrom | generate_new_levels.py:75-80 | a path for a word has one cell per letter and begins at the start cell |
| Geometry.PathFromAt | generate_new_levels.py:76-78 | entry k of the path is (row + k*dr, col + k*dc) |
| Geometry.PathAdvancesByOffset | generate_new_levels.py:76-80 | consecutive path entries differ by exactly the chosen direction's offset |
| Geometry.ValidStartKeepsPathInGrid | generate_new_levels.py:61-78 | a start whose last cell is on the board keeps every cell of the word on the board |
| Geometry.ShortWordFits | generate_new_levels.py:46-66 | for a word of at most six letters, every direction has a valid start |
| Geometry.LongWordNeverFits | generate_new_levels.py:57-70 | for a word of seven letters or more, no direction has any valid start |
| Geometry.StepsAreDistinct | generate_new_levels.py:76-78 | different step counts along a unit direction reach different cells |
| Geometry.PathGrowsByNewCell | generate_new_levels.py:76-80 | writing the next letter extends the path by one cell that no earlier letter occupies |
| Geometry.StraightPathIsSimple | generate_new_levels.py:46-80 | a placement path has one cell per letter, pairwise distinct, and follows a single unit direction |
| GridGen.CollectValidStarts | generate_new_levels.py:60-66 | the collected starts are exactly the cells whose last letter stays on the board, listed in row-major order without repeats |
| GridGen.WritePath | generate_new_levels.py:75-85 | the recorded path is the straight line from the start; each of its cells holds the matching letter; every other cell is unchanged |
| GridGen.PlaceWord | generate_new_levels.py:42-86 | a word of at most six letters is placed on the first attempt along a straight in-board path that spells it; a longer word is never placed and uses all 200 attempts; cells off the path stay empty |
| GridGen.FillRest | generate_new_levels.py:89-92 | every empty cell receives one letter of the alphabet and no written cell is overwritten |
| GridGen.Rows | generate_new_levels.py:94 | the returned grid is 6 rows of 6 cells holding the board's contents |
| GridGen.GenerateGridForWord | generate_new_levels.py:36-94 | the grid and placement satisfy IsPuzzleFor for the word, for every random choice |
| GridGen.ShortWordIsPlaced | generate_new_levels.py:57-86 | a generated puzzle for a word of at most six letters has a placement with one distinct cell per letter |
| GridGen.OffPathCellIsFromLetters | generate_new_levels.py:89-92 | every cell off the path holds one character of LETTERS, and it is a lower-case letter |
| GridGen.PuzzleHasNoEmptyCell | generate_new_levels.py:89-94 | no cell of a generated grid is empty |
| Levels.Survivors | generate_new_levels.py:104-107 | the kept questions are no more than the input and each has a stripped answer of at most six characters |
| Levels.Emitted | generate_new_levels.py:121-130 | the emitted levels are no more than the input and each has at least one question |
| Levels.EnrichQuestions | generate_new_levels.py:103-119 | one output question per kept question, in order: input fields and the stripped answer carried over, and a grid and placement the generator promises for that answer |
| Levels.TransformLevels | generate_new_levels.py:101-130 | one output level per emitted level, in order: id, title and time limit carried over, orientation "6x6", grid size 36, and its questions realised one for one |
| Levels.SurvivorsAppend | generate_new_levels.py:103-119 | the question filter distributes over concatenation, so input order is kept |
| Levels.SurvivorSource | generate_new_levels.py:104-107 | each kept question sits at a position of the input whose question survives, and it is that question with its answer stripped |
| Levels.SurvivorsAreTrimmedSurvivors | generate_new_levels.py:104-107 | every kept question is the stripped form of a surviving input question |
| Levels.SurvivorIsKept | generate_new_levels.py:104-107 | every input question whose stripped answer has at most six characters is kept in stripped form |
| Levels.SurvivorsAround | generate_new_levels.py:103-119 | the kept questions split around any input position |
| Levels.SurvivorsSnoc | generate_new_levels.py:104-119 | one more input question adds its stripped form exactly when it survives |
| Levels.SurvivorsMembership | generate_new_levels.py:104-119 | a question is kept if and only if it is the stripped form of an input question whose stripped answer has at most six characters |
| Levels.SurvivorsEmptyIff | generate_new_levels.py:104-121 | a level keeps no question exactly when every answer is too long |
| Levels.SurvivorsIdempotent | generate_new_levels.py:104-119 | filtering the kept questions again keeps them all, unchanged |
| Levels.EmittedAppend | generate_new_levels.py:101-130 | the level filter distributes over concatenation, so input order is kept |
| Levels.EmittedSource | generate_new_levels.py:121-130 | each emitted level sits at a position of the input whose level keeps a question, reduced to its kept questions |
| Levels.LevelIsEmitted | generate_new_levels.py:121-130 | every input level that keeps a question is emitted |
| Levels.EmittedMembership | generate_new_levels.py:101-130 | a level is emitted if and only if it is an input level that keeps at least one question, carrying its kept questions |
| Levels.LevelEmittedIff | generate_new_levels.py:104-121 | a single level produces output exactly when at least one of its answers is short enough |
| Levels.EmittedIdempotent | generate_new_levels.py:101-130 | transforming already transformed levels keeps the same levels and questions |
| Levels.CatIsKept | generate_new_levels.py:105-117 | the answer " Cat " survives and is stored as "Cat", stripped and not lower-cased |
| Levels.CatIsSpelledLower | generate_new_levels.py:39 | the grid spells the answer "Cat" as "cat" |
| Levels.ElephantIsDropped | generate_new_levels.py:105-107 | a question with the eight-letter answer "elephant" is dropped |

## Left out

- Reading and writing `assets/levels.json` are not modelled (`generate_new_levels.py:97-99`, `:132-133`). The transform takes and returns sequences of records.
- The `print` calls and the catch-all `try/except` are not modelled (`:135-138`). They are console output and error reporting around the file handling.
- JSON field order and serialisation are not modelled. Records are Dafny datatypes; `q_id`, `coins`, `id` and `timeLimit` are integers and `title` is a string.
- The probability distribution of `random.choice` is not modelled. The letter weights are kept in `Letters.Weights`, but every statement is about membership in `LETTERS` for every possible draw, not about frequencies.
- Text.Strip and Text.Lower cover ASCII only. Python's Unicode whitespace set and Unicode lower-casing are left out. Full Unicode lower-casing can change a string's length, which the model does not capture.
- Letters.GetRandomChar states that the result is in the alphabet (`InAlphabet`), not `c in LETTERS` directly. `Letters.LettersAreTheAlphabet` proves the two are the same. Grid proofs use the first form so that they do not spell out the 924-character string.
