# Hyperskill core models in Dafny

This project models four pieces of the Hyperskill exercise repository and
proves properties of them.

- **The pattern matcher** (`regex.dfy`, module `Regex`). It handles literals, the wildcard `.`, the escape marker `\`, the
  postfix quantifiers `?`, `*` and `+`, and the anchors `^` and `$`.
  - The comparator and the three quantifier handlers are mutually recursive functions over pattern and text suffixes.
  - The locator `match_pattern` is a method whose window loop is proved against the predicate `Search`.
  - The handlers are related to a reference meaning: "some number of leading symbols repeat the quantified symbol and the
    rest of the pattern matches what follows".
- **Tetris** (`tetris.dfy`, module `Tetris`). A piece (`Tetromino`) is a class. Its rotation states and current rotation
  are fields that `rotate` and `move_*` overwrite. The grid (`Grid`) is a class whose rows of cells are a field.
  - `update_cell`, `place`, `action`, `break_line` and the four moves update the grid.
  - Each update is stated as a function of the old grid: `Painted` sets exactly the listed cells; `Broken` drops the
    full bottom rows.
- **Domino set-up** (`domino.dfy`, module `Domino`). The four module-level lists (stock, the computer's hand, the
  player's hand and the snake) are the fields of a `Table`. The following update them:
  - `initialize` (the set-up loops and the shuffle);
  - `distribute`;
  - the opening move of `start_game`.
- **File-manager helpers** (`file_manager.dfy`, module `FileManager`):
  - the parent of the current path, through `str.split` and `str.join`;
  - the extension and absolute-path tests;
  - the listing order of `__sort_dir`, with `sorted` as insertion sorts over Python's string order;
  - the table walk of `__format_size`, with its `f"{amount}{unit}"` text.

Three consequences of the code that a reader may not expect:
- An escaped symbol is compared through `compare_one` (regex_engine/regex.py:99-103), so `\.` is a wildcard:
  `Compare("\\.", "x")` holds (`Regex.EscapedDotIsWildcard`, `Regex.Examples`).
- Text added around the subject can turn a fully anchored (`^...$`) search from false to true: `^...$` fails on `a`
  and succeeds on `xay` (`Regex.AnchoredSearchCanFlipWithMoreText`).
- The sort key of `__sort_dir` is `item.split(".")[1]` (FileManager/FileManager.py:73), the text between the first
  dot and the next one, or the end (`FileManager.KeyIsBetweenDots`).

The fallback calls at regex_engine/regex.py:41 and :68 never change the result, for two different reasons. The model
keeps both branches as written.
- Line 41 is redundant because the recursive call at line 37 first tries the rest of the pattern against the same
  shorter text (`Regex.ZeroOrManyTriesRestFirst`, `Regex.ZeroOrManyFallbackIsRedundant`).
- Line 68 repeats the test of line 57, `compare(regex, text[1:])`, which has already failed when line 68 is reached
  (`Regex.OneOrManyFallbackIsRedundant`).

## Model

| member | source | states |
|---|---|---|
| Regex.Compare | regex_engine/regex.py:87-115 | `compare`: the comparator, mutually recursive with the three handlers; its meaning is stated by the lemmas below |
| Regex.ZeroOrOne | regex_engine/regex.py:3-20 | `check_zero_or_one`, branch by branch; its meaning is `Regex.ZeroOrOneMeaning` |
| Regex.ZeroOrMany | regex_engine/regex.py:25-44 | `check_zero_or_many`, branch by branch; its meaning is `Regex.ZeroOrManyMeaning` |
| Regex.OneOrMany | regex_engine/regex.py:49-70 | `check_one_or_many`, branch by branch; its meaning is `Regex.OneOrManyMeaning` |
| Regex.WindowLength | regex_engine/regex.py:117-134 | the length of the text window each branch of `match_pattern` hands to the comparator |
| Regex.Search | regex_engine/regex.py:117-134 | the value `match_pattern` computes, as a predicate: the four anchor cases and "some window matches" for the unanchored one; `Regex.MatchPattern` is proved equal to it |
| Regex.CompareOne | regex_engine/regex.py:74-85 | an empty pattern symbol matches anything; otherwise an empty text symbol fails; `.` matches any symbol; otherwise the symbols must be equal |
| Regex.CompareOneOnSymbols | regex_engine/regex.py:78-85 | on single characters `compare_one` is the reference test "wildcard or equal" |
| Regex.CompareOnEmpty | regex_engine/regex.py:91-97 | the empty pattern and `$` match exactly the empty text; any other pattern fails on the empty text |
| Regex.QuantifiedNeverMatchesEmpty | regex_engine/regex.py:96-97 | a quantified symbol never matches the empty text, not even `a*` |
| Regex.LiteralWellFormed | regex_engine/regex.py:99-115 | a pattern without metacharacters never stops on a lone escape marker |
| Regex.LiteralMatchesItselfOnly | regex_engine/regex.py:91-115 | a pattern without metacharacters that does not end in `$` matches a text iff it equals it (full consumption, not a prefix test) |
| Regex.LiteralDollarMatchesLiteral | regex_engine/regex.py:91-115 | such a pattern followed by `$` matches exactly that pattern's text |
| Regex.EscapeConsumesPair | regex_engine/regex.py:99-103 | a leading `\c` consumes two pattern symbols and one text symbol, matched by `compare_one(c, text[0])` |
| Regex.EscapedDotIsWildcard | regex_engine/regex.py:82-83 | `\.` matches every one-symbol text |
| Regex.QuantifierDispatch | regex_engine/regex.py:105-110 | a quantifier is recognised only as the second symbol of a pattern not starting with `\`, and hands over to its handler |
| Regex.ZeroOrManyMeaning | regex_engine/regex.py:25-44 | `prev*rest` matches iff some k with 0 <= k <= len(text) has the first k symbols matching `prev` and `rest` matching the remainder |
| Regex.ZeroOrManyTriesRestFirst | regex_engine/regex.py:25-41 | whenever `rest` matches the text, the handler succeeds, so the fallback at line 41 is never needed |
| Regex.OneOrManyMeaning | regex_engine/regex.py:49-70 | `prev+rest` fails on an empty text or a mismatching first symbol; otherwise it matches iff some k >= 1 works as for `*` |
| Regex.OneOrManyIsOneThenZeroOrMany | regex_engine/regex.py:49-70 | `prev+rest` holds iff the first symbol matches `prev` and `prev*rest` holds on the remaining text |
| Regex.ZeroOrManyFallbackIsRedundant | regex_engine/regex.py:29-41 | with a non-empty text, `prev*rest` holds iff `rest` matches the text or the first symbol matches `prev` and `prev*rest` holds on the rest: the fallback at line 41 adds nothing |
| Regex.OneOrManyFallbackIsRedundant | regex_engine/regex.py:54-68 | with a non-empty text, `prev+rest` holds iff the first symbol matches `prev` and either `rest` matches the remaining text or `prev+rest` does: the fallback at line 68 adds nothing |
| Regex.ZeroOrOneMeaning | regex_engine/regex.py:3-20 | with a non-empty rest, `prev?rest` matches iff zero or one leading symbol matches `prev` and the rest matches what follows |
| Regex.ZeroOrOneWithEmptyRest | regex_engine/regex.py:15-18 | with nothing after `prev?`, one matching first symbol is enough even when more text follows |
| Regex.SearchedPattern | regex_engine/regex.py:121-125 | the pattern handed to the comparator is never longer than the pattern searched for |
| Regex.Prefix | regex_engine/regex.py:125 | `text[:n]` is a prefix of the text, clamped to its length |
| Regex.Suffix | regex_engine/regex.py:127-128 | `text[-n:]` is a suffix of the text, the whole text when n is 0 or too large |
| Regex.Window | regex_engine/regex.py:130-132 | `text[i:i+n]` is a slice of at most n symbols starting at i |
| Regex.LastStart | regex_engine/regex.py:130-131 | the last start offset of the window loop: the one whose window ends at the end of the text when the window fits, otherwise 0 |
| Regex.MatchPattern | regex_engine/regex.py:117-134 | the locator's result, including the early exit of the window loop, is exactly `Search` |
| Regex.FullyAnchoredIsCompare | regex_engine/regex.py:121-123 | `^p$` is `compare(p, text)` on the whole text |
| Regex.LiteralSearchIsSubstring | regex_engine/regex.py:129-134 | an unanchored pattern without metacharacters is found iff it occurs in the text |
| Regex.LiteralStartAnchoredIsPrefix | regex_engine/regex.py:124-125 | `^p` with a literal `p` is found iff `p` is a prefix of the text |
| Regex.LiteralEndAnchoredIsSuffix | regex_engine/regex.py:126-128 | `p$` with a non-empty literal `p` is found iff `p` is a suffix of the text |
| Regex.LoneDollarMatchesOnlyEmpty | regex_engine/regex.py:126-128 | `$` alone is found only in the empty text, since `text[-0:]` is the whole text |
| Regex.WildcardFindsAnySymbol | regex_engine/regex.py:129-134 | `.` alone is found in every non-empty text |
| Regex.AnchoredSearchCanFlipWithMoreText | regex_engine/regex.py:121-123 | `^...$` fails on `a` but succeeds on `xay` |
| Regex.Examples | regex_engine/regex.py:3-115 | worked cases of `?`, `*`, `+`, `\.` and `^a.c$` |
| Tetris.DivModUnique | Tetris/tetris_game.py:255-256 | floor division and remainder by a positive width are unique, which the index arithmetic below rests on |
| Tetris.LeftCell | Tetris/tetris_game.py:48-50 | one cell to the left keeps its row and moves its column by -1 modulo the width |
| Tetris.RightCell | Tetris/tetris_game.py:58-60 | one cell to the right keeps its row and moves its column by +1 modulo the width |
| Tetris.DownCell | Tetris/tetris_game.py:68-69 | one cell down moves to the next row and keeps its column |
| Tetris.StateToLeft | Tetris/tetris_game.py:48-50 | every cell stays in its row and its column moves by -1 modulo `new_line` |
| Tetris.StateToRight | Tetris/tetris_game.py:58-60 | every cell stays in its row and its column moves by +1 modulo `new_line` |
| Tetris.StateToDown | Tetris/tetris_game.py:68-69 | every cell moves one row down in the same column |
| Tetris.Shapes | Tetris/tetris_game.py:89-185 | the rotation states each `construct` lists, kind by kind; their shape is stated by `Tetris.ShapesWellFormed` |
| Tetris.ShapesWellFormed | Tetris/tetris_game.py:89-185 | every state has four cells, distinct on rows at least three wide; O has 1 state, I, S and Z have 2, L, J and T have 4 |
| Tetris.Tetromino.constructor | Tetris/tetris_game.py:197-216 | `build` makes a piece of the named kind with the states of its `construct` and rotation 0 |
| Tetris.Tetromino.State | Tetris/tetris_game.py:38-39 | `state`: the rotation state at the current rotation |
| Tetris.Tetromino.NextRotate | Tetris/tetris_game.py:41-43 | `next_rotate`: the state one rotation further, wrapping to the first |
| Tetris.Tetromino.Rotate | Tetris/tetris_game.py:41-46 | the rotation stays in range and the new current state is the one `next_rotate` announced |
| Tetris.Tetromino.MoveLeft | Tetris/tetris_game.py:52-56 | every rotation state becomes its `state_to_left`, with the number of states and the rotation kept |
| Tetris.Tetromino.MoveRight | Tetris/tetris_game.py:62-66 | every rotation state becomes its `state_to_right`, with the number of states and the rotation kept |
| Tetris.Tetromino.MoveDown | Tetris/tetris_game.py:71-75 | every rotation state becomes its `state_to_down`, with the number of states and the rotation kept |
| Tetris.MovedStates | Tetris/tetris_game.py:45-75 | the rotation states after a move: kept by a rotation, each shifted by `state_to_left`, `state_to_right` or `state_to_down` |
| Tetris.MovedRotation | Tetris/tetris_game.py:45-46 | only a rotation advances the rotation, wrapping to 0 after the last state; a shift keeps it |
| Tetris.Tetromino.Apply | Tetris/tetris_game.py:45-75 | the bound method handed to `action` makes current the state its caller computed, and leaves the whole piece as `rotate` or the `move_*` leave it: every rotation state per `MovedStates`, the rotation per `MovedRotation` |
| Tetris.Tetromino.After | Tetris/tetris_game.py:305-321 | the state that `Grid.rotate`, `left`, `right` and `down` compute before calling `action`: it is the current state of the piece after the move, per `MovedStates` and `MovedRotation` |
| Tetris.Shifted | Tetris/tetris_game.py:48-60 | every cell index moved by the same amount |
| Tetris.FreeRow | Tetris/tetris_game.py:277 | a row of `width` free cells |
| Tetris.Broken | Tetris/tetris_game.py:273-278 | the grid after `break_line`: the full bottom rows dropped and as many free rows on top; `Tetris.Grid.BreakLine` is proved equal to it |
| Tetris.BrokenStep | Tetris/tetris_game.py:274-278 | one step of `break_line` (drop a full bottom row, insert a free row on top) leaves the final result of breaking the lines unchanged, which is why the recursion computes `Broken` |
| Tetris.TrailingFull | Tetris/tetris_game.py:274-278 | the number of full bottom rows is at most the number of rows |
| Tetris.FreeRows | Tetris/tetris_game.py:242 | `k` free rows, as the constructor and `break_line` make them |
| Tetris.TrailingFullBelowFreeRow | Tetris/tetris_game.py:276-278 | a free row inserted on top does not change how many bottom rows are full, so the recursion of `break_line` ends |
| Tetris.BrokenKeepsShape | Tetris/tetris_game.py:273-278 | after `break_line` the grid keeps `height` rows of `width` cells and its bottom row is not full |
| Tetris.TrailingFullStops | Tetris/tetris_game.py:274-275 | the row just above the full bottom rows is not full |
| Tetris.Grid.constructor | Tetris/tetris_game.py:238-242 | a grid of `height` free rows of `width` cells and no piece |
| Tetris.Grid.GetValue | Tetris/tetris_game.py:252-253 | `get_value`: the linear index `line * width + column` |
| Tetris.Grid.GetIndex | Tetris/tetris_game.py:255-256 | `get_index`: the row and column of a linear index; `Tetris.Grid.IndexOfValue` shows it inverts `get_value` |
| Tetris.Grid.IndexOfValue | Tetris/tetris_game.py:252-256 | `get_index(get_value(l, c)) == (l, c)` whenever 0 <= c < width |
| Tetris.Grid.Painted | Tetris/tetris_game.py:287-290 | painting keeps the grid's size |
| Tetris.Grid.UpdateCell | Tetris/tetris_game.py:287-290 | exactly the listed cells are set to the value and every other cell is unchanged |
| Tetris.Grid.PaintOneMore | Tetris/tetris_game.py:288-290 | one more step of the loop of `update_cell` sets one more cell |
| Tetris.Grid.StateValid | Tetris/tetris_game.py:280-285 | the result is true iff no listed cell holds a token |
| Tetris.Grid.IsOnLeftFrontier | Tetris/tetris_game.py:258-260 | some cell of the current state is in column 0 |
| Tetris.Grid.IsOnRightFrontier | Tetris/tetris_game.py:262-264 | some cell of the current state is in the last column |
| Tetris.Grid.IsOnFloor | Tetris/tetris_game.py:266-268 | some cell of the current state is in the bottom row |
| Tetris.Grid.IsGameOver | Tetris/tetris_game.py:270-271 | some cell of the top row holds a token |
| Tetris.Grid.GameOverIffTopRowTaken | Tetris/tetris_game.py:270-271 | the game is over exactly when the top row is not a free row |
| Tetris.Grid.BreakLine | Tetris/tetris_game.py:273-278 | the full bottom rows are dropped and as many free rows are inserted on top |
| Tetris.Grid.Place | Tetris/tetris_game.py:292-294 | the piece becomes current and exactly its cells become tokens |
| Tetris.Grid.Action | Tetris/tetris_game.py:296-303 | on the floor neither the grid nor the piece changes; otherwise the old cells are freed, and if the new state collides with nothing the piece moves (all its states and its rotation as `Apply` states), else the piece is unchanged; its cells are marked; a placed piece that cannot move leaves the grid as it was |
| Tetris.Grid.FreeThenMarkRestores | Tetris/tetris_game.py:297-303 | freeing the cells of a placed piece and marking them again gives back the grid |
| Tetris.Grid.Rotate | Tetris/tetris_game.py:305-307 | the piece turns to its next state, with its states kept and its rotation advanced, unless it is on the floor or that state collides, in which case neither grid nor piece changes |
| Tetris.Grid.Left | Tetris/tetris_game.py:309-312 | nothing changes, grid or piece, when the piece touches the left border or the floor; otherwise the piece, every rotation state of it, moves one column left unless the current state collides, in which case the piece is unchanged |
| Tetris.Grid.LeftAwayFromBorder | Tetris/tetris_game.py:48-50 | away from the left border, `state_to_left` subtracts one from every cell and stays on the grid |
| Tetris.Grid.Right | Tetris/tetris_game.py:314-317 | nothing changes, grid or piece, when the piece touches the right border or the floor; otherwise the piece, every rotation state of it, moves one column right unless the current state collides, in which case the piece is unchanged |
| Tetris.Grid.RightAwayFromBorder | Tetris/tetris_game.py:58-60 | away from the right border, `state_to_right` adds one to every cell and stays on the grid |
| Tetris.Grid.Down | Tetris/tetris_game.py:319-321 | on the floor neither grid nor piece changes; otherwise the old cells are freed, the piece, every rotation state of it, drops one row unless the state below collides (then the piece is unchanged), and its cells are marked |
| Tetris.Grid.AboveFloorCanDrop | Tetris/tetris_game.py:266-268 | cells above the bottom row stay on the grid when they drop one row |
| Domino.PiecesFrom | Domino/Domino.py:17 | the pieces `[i, i]` to `[i, 6]` in the order the inner loop visits them |
| Domino.PiecesBelow | Domino/Domino.py:16-17 | the candidates of the first i outer rounds, in visiting order: every one has a smaller half below i and a larger half up to 6 (`Domino.PiecesBelowContents` gives the converse and the count) |
| Domino.DoubleSix | Domino/Domino.py:16-17 | the candidates of all seven outer rounds; `Domino.DoubleSixContents` states they are the 28 distinct double-six pieces |
| Domino.PiecesBelowContents | Domino/Domino.py:16-17 | the pieces visited by the first i outer rounds are those with left half below i, each once |
| Domino.DoubleSixContents | Domino/Domino.py:16-17 | the double-six set holds the 28 pieces `[i, j]` with 0 <= i <= j <= 6, each once |
| Domino.AppendMissing | Domino/Domino.py:16-19 | the stock after the set-up loops: each candidate in turn appended when not yet present; its meaning is `Domino.AppendMissingMeaning` |
| Domino.AppendMissingMeaning | Domino/Domino.py:16-19 | the set-up keeps the stock as a prefix, adds exactly the missing candidates, never adds a piece the stock already held, and never adds a piece twice |
| Domino.AppendMissingAll | Domino/Domino.py:18-19 | when nothing repeats, every candidate is appended |
| Domino.ReplenishEmpty | Domino/Domino.py:16-19 | from an empty stock the set-up yields exactly the double-six set |
| Domino.SameElementsSameMultiset | Domino/Domino.py:20 | two repetition-free arrangements of the same pieces are rearrangements of each other, as a shuffle's outcome is |
| Domino.FullSetIsShuffle | Domino/Domino.py:11-20 | any order of the complete set is a possible outcome of shuffling the stock that set-up builds from an empty stock |
| Domino.AppendMissingSnoc | Domino/Domino.py:18-19 | one more candidate is one more step of the set-up loop |
| Domino.ReplenishStep | Domino/Domino.py:17-19 | one pass of the inner loop appends `[i, j]` exactly when it is missing |
| Domino.PlayerDeal | Domino/Domino.py:29-31 | the player receives the first, third, fifth, ... piece popped |
| Domino.ComputerDeal | Domino/Domino.py:29-33 | the computer receives the second, fourth, ... piece popped |
| Domino.DealStep | Domino/Domino.py:30-33 | an even step deals to the player, an odd step to the computer |
| Domino.DealSplitsTop | Domino/Domino.py:29-33 | the two hands together receive exactly the pieces popped from the stock |
| Domino.RemoveFirst | Domino/Domino.py:66 | `list.remove` takes one occurrence out of the hand |
| Domino.Opens | Domino/Domino.py:42-46 | the opening of `start_game`: the highest double `[i, i]`, 1 <= i <= 6, in either hand, the computer's looked at first, leaves its owner's hand only and is appended to the snake, and the other side plays next |
| Domino.OpensFacts | Domino/Domino.py:64-71 | an opening moves one double from a hand to the end of the snake, loses or makes no piece, and the side that gave it up does not play next |
| Domino.Table.constructor | Domino/Domino.py:5-8 | the four lists start empty |
| Domino.Table.Replenish | Domino/Domino.py:16-19 | the loops append the missing double-six pieces in order and touch nothing else |
| Domino.Table.ReplenishRow | Domino/Domino.py:17-19 | one round of the outer loop appends the missing pieces `[i, i]` to `[i, 6]` |
| Domino.Table.Initialize | Domino/Domino.py:11-20 | the stock becomes the shuffled arrangement of the replenished stock; the hands and the snake are unchanged |
| Domino.Table.Distribute | Domino/Domino.py:23-33 | the last 14 stock pieces are moved out, alternately to the player and the computer, and no piece is lost or made |
| Domino.Table.FirstPlayer | Domino/Domino.py:36-47 | the owner of the highest double from `[6, 6]` down to `[1, 1]`, the computer checked first; `None` iff neither hand holds such a double |
| Domino.Table.PlaceFirst | Domino/Domino.py:64-71 | the double leaves its owner's hand, becomes the snake, and the other side plays next |
| Domino.Table.SetUp | Domino/Domino.py:55-56 | on an empty table, the stock keeps the first 14 pieces of the shuffled set and the hands receive the last 14, alternately from the end, the player first |
| Domino.Table.Begin | Domino/Domino.py:57-71 | `None` iff neither hand holds a double from `[1, 1]` to `[6, 6]`, and then nothing changes; otherwise the game `Opens` from the hands and snake it found; the stock is kept |
| Domino.Table.StartGame | Domino/Domino.py:50-71 | on an empty table: the stock is the first 14 shuffled pieces, and the game `Opens` from the dealt hands, or `None` iff they hold no double from 1 to 6, with the dealt hands kept; every piece of the set is still present |
| FileManager.FirstIndex | FileManager/FileManager.py:61 | the first separator of a text, with none before it |
| FileManager.Split | FileManager/FileManager.py:61 | `str.split` gives at least one piece and no piece holds the separator |
| FileManager.Join | FileManager/FileManager.py:62 | `sep.join(parts)` starts with the first part, followed by the separator when more parts follow; `FileManager.JoinSplit` and `FileManager.SplitJoin` make it the inverse of `Split` |
| FileManager.JoinSplit | FileManager/FileManager.py:61-62 | joining the pieces of a split gives back the text |
| FileManager.SplitJoin | FileManager/FileManager.py:61-62 | splitting a join of separator-free pieces gives back the pieces |
| FileManager.SplitAtFirst | FileManager/FileManager.py:61 | a separator-free head followed by the separator splits off as the first piece |
| FileManager.GetParent | FileManager/FileManager.py:60-62 | `"/".join(current.split("/")[:-1])`; its meaning is `FileManager.GetParentIsBeforeLastSlash` |
| FileManager.GetParentCons | FileManager/FileManager.py:60-62 | dropping a leading component before the last one commutes with taking the parent |
| FileManager.GetParentIsBeforeLastSlash | FileManager/FileManager.py:60-62 | the parent is the text before the last `/`, or `""` when there is no `/` |
| FileManager.IsExtension | FileManager/FileManager.py:88-89 | `value.startswith(".")` |
| FileManager.ExtensionHasEmptyStem | FileManager/FileManager.py:88-89 | an argument starts with `.` iff it has a dot and its first dot-separated piece is empty |
| FileManager.IsAbsolute | FileManager/FileManager.py:65-67 | the anchored search for a letter, `:` and `\` at the start of the path |
| FileManager.AbsoluteIsAPrefixTest | FileManager/FileManager.py:65-67 | only the first three characters decide, anything may follow a drive, and an extension is never absolute |
| FileManager.LessEqTotal | FileManager/FileManager.py:72-74 | Python's string order compares any two strings |
| FileManager.LessEq | FileManager/FileManager.py:72-74 | Python's `<=` on strings, by code point with a proper prefix first: a prefix is always at most the longer string |
| FileManager.LessEqAntisymmetric | FileManager/FileManager.py:72-74 | two strings each below the other are equal |
| FileManager.LessEqTransitive | FileManager/FileManager.py:72-74 | the string order is transitive |
| FileManager.LessEqReflexive | FileManager/FileManager.py:72-74 | every string is below itself |
| FileManager.InsertAscendingSorts | FileManager/FileManager.py:72 | inserting into an ascending list keeps it ascending and adds exactly the element |
| FileManager.InsertAscending | FileManager/FileManager.py:72 | one insertion step of the sort: the result holds the list's elements plus exactly x |
| FileManager.SortAscending | FileManager/FileManager.py:72 | `sorted(directories)` is a permutation of its input (`FileManager.SortAscendingSorts` adds that it is ascending) |
| FileManager.SortAscendingSorts | FileManager/FileManager.py:72 | `sorted` returns an ascending rearrangement of the directories |
| FileManager.Key | FileManager/FileManager.py:73 | the sort key `item.split(".")[1]`; its meaning is `FileManager.KeyIsBetweenDots` |
| FileManager.KeyIsBetweenDots | FileManager/FileManager.py:73 | the key `item.split(".")[1]` is the text between the first dot and the next dot or the end |
| FileManager.InsertByKey | FileManager/FileManager.py:73-74 | inserting by key adds exactly the element |
| FileManager.SortByKey | FileManager/FileManager.py:73-74 | the keyed sort is a rearrangement of the other entries |
| FileManager.InsertByKeySorts | FileManager/FileManager.py:73-74 | inserting into a list in descending key order keeps that order |
| FileManager.SortByKeySorts | FileManager/FileManager.py:73-74 | `sorted(..., reverse=True)` puts the keys in descending order |
| FileManager.InsertByKeyStable | FileManager/FileManager.py:73-74 | the inserted entry goes ahead of the entries with the same key |
| FileManager.SortByKeyStable | FileManager/FileManager.py:73-74 | entries with equal keys keep their listing order |
| FileManager.Directories | FileManager/FileManager.py:72 | the comprehension keeps exactly the listed directories |
| FileManager.NotIn | FileManager/FileManager.py:73 | `[item for item in files if item not in directory]` holds exactly the listed entries that are not in `directory` |
| FileManager.NotInDirectoriesIsOthers | FileManager/FileManager.py:73 | leaving out the names found in the directory list leaves exactly the entries that are not directories |
| FileManager.PartitionByIsDir | FileManager/FileManager.py:72-73 | directories and other entries together are the listing |
| FileManager.SortedDirectoriesAreDirectories | FileManager/FileManager.py:72-73 | the test `item not in directory` against the sorted directory list selects the non-directories |
| FileManager.SortDir | FileManager/FileManager.py:71-75 | `__sort_dir`: directories by `sorted`, then the rest by descending key, or `None` where the key does not exist; its meaning is `FileManager.SortDirFails` and `FileManager.SortDirOrders` |
| FileManager.SortDirFails | FileManager/FileManager.py:73 | the listing fails iff an entry that is not a directory has no dot |
| FileManager.SortDirOrders | FileManager/FileManager.py:71-75 | a listing is a rearrangement of the entries: directories first, ascending, then the others by descending key, equal keys in listing order |
| FileManager.SizeOf | FileManager/FileManager.py:77-85 | the amount and unit `__format_size` picks, as a value; its meaning is stated by the three lemmas below |
| FileManager.Render | FileManager/FileManager.py:84-85 | the text `f"{amount}{unit}"`; `FileManager.ParseSizeOfRender` shows it loses nothing |
| FileManager.Decimal | FileManager/FileManager.py:84-85 | `str(i)` inside the f-string: a minus sign exactly for a negative number, then decimal digits |
| FileManager.SizeOfSmall | FileManager/FileManager.py:79-84 | below 1024 the size is the value in bytes |
| FileManager.SizeOfRoundsDown | FileManager/FileManager.py:84-85 | the amount is the number of whole units in the value, rounded down |
| FileManager.SizeOfPicksLargestUnit | FileManager/FileManager.py:79-85 | from 1024 on, the unit is the largest one not above the value: the amount is 1 to 1023 below 1024^4 and at least 1024 from there on, in gigabytes |
| FileManager.Digits | FileManager/FileManager.py:84 | the decimal text of a number is non-empty and made of digits |
| FileManager.FormatSize | FileManager/FileManager.py:77-85 | the table walk with its early return gives the text of `SizeOf` |
| FileManager.ParseDigitsOfDigits | FileManager/FileManager.py:84 | reading the digits of a number gives back the number |
| FileManager.ParseDecimalOfDecimal | FileManager/FileManager.py:84 | reading the decimal text of an integer, sign included, gives back the integer |
| FileManager.ParseSizeOfRender | FileManager/FileManager.py:84-85 | the shown text determines the size: reading it back gives the amount and the unit |

## Left out

- The stdin `pattern|text` reader at regex_engine/regex.py:137-139: input and printing.
- `Game` at Tetris/tetris_game.py:330-406 and `Grid.__str__` at Tetris/tetris_game.py:323-327: input loops and display.
- The prints at Domino/Domino.py:73-77 and the `__main__` block.
- `random.shuffle` at Domino/Domino.py:20 is modelled by the parameter `shuffled`, which may be any rearrangement of the replenished stock; `SetUp` and `StartGame` start from an empty table and take any order of the complete set (`FullSet`).
- Domino.Table.StartGame: the retry loop at Domino/Domino.py:59-62 is left out. Line 57 already unpacks `None` and fails before the loop can run. That case is the `None` result of the model.
- Every file-system operation of the file manager: `__path_file`, `__pwd`, `__cd`, `__ls`, `__rm`, `__mv`, `__mkdir`, `__cp`, `execute`, `__get_files_by_extension` and the input loop. They act through `os` and `shutil`.
- The class field holding the current path, and the `os.path.isdir` test. They are the parameters `current` and `isDir`.
- Regex.Compare: the precondition `WellFormed` excludes patterns whose token walk stops on a lone trailing `\`. It is stronger than the exact crash condition: the source fails there only if the comparator reaches that point with text left.
- Tetris.Grid.UpdateCell: cell indices must lie on the grid. Indices outside the grid raise `IndexError` in the source, and a negative row would wrap around to the bottom.
- Tetris.Grid.Valid: a placed piece must have been built for rows of the grid's width (`new_line == width`), as `Game` builds it. A width of 0, on which the source divides by zero, is excluded.
- Tetris.Grid.Action: the operation `func` is one of the four moves (`Move`), not an arbitrary callable.
- FileManager.SortDir: the listing's `None` result stands for the `IndexError` of `split(".")[1]`.
- FileManager.FormatSize: the size value is an unbounded integer. The model does not restrict it to the non-negative sizes the file system reports.
