# goban rules engine and GTP text handling, in Dafny

This project models the referee of the `goban` Go tournament runner. The referee has two parts.

The first is the rules engine of `goban/board.py`:
- parsing colour and point arguments;
- the board state machine, where a stone move resolves captures and is checked against every earlier board (positional superko);
- passes, resignation and the end of the game;
- Tromp-Taylor area scoring.

The second is the text side of the Go Text Protocol (version 2) client in `goban/gtp.py`:
- cleaning the lines an engine writes;
- serialising commands;
- framing responses at the blank line and classifying them by their `=` or `?` status;
- the checks made on one-line replies;
- the commands that set up a game.

A board of side `n` is a `seq<int>` of `n * n` points, indexed `column * n + row`. Each point is 0 (empty), 1 (black) or 2 (white). The history is a `set<seq<int>>` of earlier boards.

Groups, liberties and "reaches" are defined declaratively, as walks over the neighbour relation (module `Reach`). The engine's work-list loops are methods proved equal to those definitions:
- `Capture.TryToClear` for `_try_to_clear`;
- `Capture.PlaceStone` for the capture order of `play`;
- `Scoring.FloodRegion` and `Scoring.Territory` for `final_score`.

A refused move returns `Err` and no new state, so the caller's state is left exactly as it was.

Modules:
- `Wrappers`: `Option` and `Result`.
- `Text`: Python's `str.isspace`, `strip` and `lower`, decimal digits, join and split.
- `Grid`: `_neighbors`, coordinate adjacency and the connectedness of the board.
- `Reach`: walks, groups, borders, liberties and reaching.
- `Tokens`: `parse_color` and `parse_point`.
- `Capture`: capture attempts, and the capture order around a placed stone.
- `Rules`: the `Board` state and `play`.
- `Scoring`: `final_score`.
- `Gtp`: the GTP client's text handling.

Where the code and its documentation disagree, the model follows the code:
- `final_score` returns nothing after a resignation, although its docstring promises plus or minus one.
- A stone move on a finished game is accepted. It resets the pass counter and the resignation marker, so the game is open again (`Rules.StoneMoveReopens`).
- The whitespace conversion replaces each whitespace character with one space and does not collapse runs.
- The end of the engine's output ends a response just as a blank line does, because a read at the end yields an empty line.

## Model

| member | source | states |
|---|---|---|
| Tokens.ParseColor | goban/board.py:9-18 | the integers 1 and 2 are accepted unchanged and every other integer is refused; a text is 1 exactly when its lower-case form is `b` or `black` and 2 exactly when it is `w` or `white`; every refusal is an invalid colour |
| Tokens.ParseColorIgnoresCase | goban/board.py:14-17 | a colour name and its lower-case form parse to the same result |
| Tokens.ParsePoint | goban/board.py:21-44 | an integer point is accepted exactly when it lies in [0, size²) and is returned unchanged; any accepted point lies in [0, size²); a text point whose letter is `i` or `I` is always refused; every refusal is an invalid point |
| Tokens.ParsePointShape | goban/board.py:27-44 | an accepted text point value v has the column letter of column v / size (letters from `a`, skipping `i`, so letters after `i` shift down by one) and decimal digits naming row v % size + 1 |
| Tokens.ParseVertex | goban/board.py:27-44 | for every column below 25 and below the size, and every row below the size, the column letter (`a` to `h`, then `j` to `z`, in either case) followed by the 1-based row in decimal parses back to column * size + row |
| Grid.Neighbors | goban/board.py:188-195 | at most four neighbours, all on the board and different from the point; a neighbour one index away stays in the same column, so nothing wraps across a column edge |
| Grid.NeighborsExact | goban/board.py:188-195 | q is yielded as a neighbour of p exactly when q is one step away in column or row |
| Grid.NeighborsSymmetric | goban/board.py:188-195 | q is a neighbour of p exactly when p is a neighbour of q |
| Grid.ClosedSetIsWholeBoard | goban/board.py:188-195 | the neighbour relation connects the board: a set holding one point and closed under neighbours holds every point |
| Reach.GroupLeast | goban/board.py:197-213 | a group is the least set holding its point and closed under same-coloured neighbours |
| Reach.SameGroup | goban/board.py:197-213 | any member of a group has the same group |
| Capture.ClearIfDead | goban/board.py:197-213 | a capture attempt changes only stones of the attempted colour, and only to empty |
| Capture.TryToClear | goban/board.py:197-213 | the work-list search removes the whole connected group of the point exactly when the point holds the colour and no empty point touches the group; otherwise the board is unchanged |
| Capture.PlaceStone | goban/board.py:124-130 | placing the stone, trying each neighbour for the opponent in the yielded order and then the placed stone for the mover gives the declaratively resolved board |
| Capture.ResolveChanges | goban/board.py:124-130 | placing a stone only empties points other than the placed one; the mover's own stones are removed only together with the placed stone (suicide); the placed point ends up the mover's or empty |
| Capture.ResolveLeavesLiberties | goban/board.py:124-130 | after captures, every opposing group next to the placed point has a liberty, and so does the mover's group if the placed stone survived |
| Capture.CaptureAllDead | goban/board.py:128-129 | the sweep over the neighbours for the opponent removes a libertyless opposing group whole or not at all, and removes it whenever one of its stones is among the points tried |
| Capture.CaptureBeforeSuicide | goban/board.py:124-130 | a move that leaves a neighbouring opposing group without a liberty captures that whole group and keeps the placed stone, because the opponent's groups are tried before the mover's own: a capturing move is never suicide |
| Capture.CaptureAllSurvivors | goban/board.py:128-129 | an opposing stone next to the move that survives the opponent captures belongs to a group with a liberty |
| Rules.Fresh | goban/board.py:72-78 | a new game has an empty board of size² points, no passes, no resignation, black to move and no earlier boards |
| Rules.Initial | goban/board.py:67-70 | a new referee has 19 lines, komi 7.5 and 361 points |
| Rules.Boardsize | goban/board.py:98-100 | a new size restarts the game on an empty board of that size, keeping komi, with no bounds check |
| Rules.ClearBoard | goban/board.py:102-103 | clearing restarts the game at the same size and komi |
| Rules.SetKomi | goban/board.py:105-106 | setting komi changes only komi: size, board, history, counters and side to move stay as they were |
| Rules.Finished | goban/board.py:145-146 | the game is over exactly when someone resigned or at least two passes were counted |
| Rules.PassOrResignEnds | goban/board.py:111-116 | a pass or a resignation with a valid colour is always accepted; a resignation ends the game, and a pass ends it exactly when a pass was already counted or someone had resigned |
| Rules.ColorToMove | goban/board.py:145-152 | the side to move is 0 exactly when the game is finished (someone resigned or two passes were played); otherwise it is the stored colour |
| Rules.Play | goban/board.py:108-140 | the executable play agrees with the reference step on every move it can process; a move string is only needed to be readable when the colour parses, since a bad colour is refused first |
| Rules.PlayStone | goban/board.py:122-140 | the executable stone move agrees with the reference stone step |
| Rules.PassAndResignTouchOnlyCounters | goban/board.py:111-116 | a pass with a valid colour is accepted and only adds one to the pass counter; a resignation is accepted and only records the colour; the board, history, side to move, size and komi stay as they were, so a pass does not hand over the move |
| Rules.OccupiedRefused | goban/board.py:122-123 | a stone on an occupied point is refused |
| Rules.RepeatRefused | goban/board.py:132-134 | a stone move whose resolved board is in the history is refused as a repeated position |
| Rules.StoneMoveCommits | goban/board.py:122-140 | a stone move with a valid colour on a parsed point is accepted exactly when the point is empty and the resolved board is not in the history; an accepted move stores the resolved board, adds the replaced board to the history, clears passes and resignation, hands the move to the other colour, and keeps size and komi |
| Rules.StepKeepsValid | goban/board.py:108-140 | every accepted move keeps the board of size² points with values 0..2, the markers well formed, and every earlier board of the same length |
| Rules.FinishedStaysFinished | goban/board.py:111-116 | passes and resignations never un-finish a finished game |
| Rules.StoneMoveReopens | goban/board.py:137-140 | an accepted stone move leaves the game unfinished with the other colour to move |
| Rules.StepRemembers | goban/board.py:136-137 | an accepted move keeps every earlier board in the history and keeps the size; the board it started from is still current or in the history |
| Rules.RunRemembers | goban/board.py:133-137 | over a whole sequence of accepted moves, the history only grows, the size is fixed, and the starting board is current or remembered |
| Rules.RecreatedBoardRefused | goban/board.py:132-134 | after any sequence of moves, a stone move that would bring back a board the game started from (and has since left) is refused |
| Rules.SuicideKeepingBoard | goban/board.py:130-137 | on a one-point board a stone is captured by its own move, leaving the board unchanged; the move is refused only if the empty board is already in the history, and otherwise it puts the empty board there |
| Scoring.FloodRegion | goban/board.py:166-178 | flooding from an empty point visits exactly its empty region and records exactly whether that region reaches black and whether it reaches white; from a stone it visits nothing and records the stone's colour |
| Scoring.Territory | goban/board.py:159-185 | the accumulated territories are exactly each colour's stones plus the empty points that reach that colour and not the other |
| Scoring.FinalScore | goban/board.py:154-186 | the score is black's area minus white's area minus komi; there is no score exactly when someone resigned |
| Scoring.AreaEmptyIffNoStones | goban/board.py:159-186 | a colour is credited with nothing exactly when it has no stone on the board |
| Scoring.EmptyBoardScore | test_board.py:51-55 | a board without stones, and a freshly cleared board, scores minus komi |
| Scoring.EmptyReachesLoneStone | goban/board.py:166-178 | on a board with a single stone, every empty point reaches it |
| Scoring.LoneStoneScore | test_board.py:57-60 | a single stone of colour c gives plus or minus the number of points (size²) minus komi |
| Gtp.StripGtpLine | goban/gtp.py:17-22 | the cleaned line has no `#`, no whitespace but plain spaces and no trailing space; it is no longer than the text before the first `#`, agrees with it character by character up to whitespace conversion, and is followed there only by whitespace; it is empty exactly when that text is all whitespace |
| Gtp.StripGtpLineUnique | goban/gtp.py:17-22 | the cleaning is the only clean line with those properties |
| Gtp.StripGtpLineIdempotent | goban/gtp.py:17-22 | cleaning a cleaned line changes nothing |
| Gtp.Serialize | goban/gtp.py:50-54 | a serialised command ends with a line feed |
| Gtp.SerializeParses | goban/gtp.py:50-54 | for a verb and arguments without spaces or line feeds, the serialised command has exactly one line feed, at the end, and splitting the rest at single spaces gives back the verb and the arguments |
| Gtp.Frame | goban/gtp.py:57-62 | the collected lines are the cleaned input lines up to, not including, the first line that cleans to nothing (or the end of the input); none of them is empty |
| Gtp.FrameUnique | goban/gtp.py:57-62 | any line list with the framing properties is the framing |
| Gtp.Classify | goban/gtp.py:63-72 | no line is a failed assertion; a first line starting with `=` is success, with the same number of lines, the first two characters of line 0 removed and the rest unchanged; a first line starting with `?` is an engine error whose message is the lines, with the first two characters of line 0 removed, joined by line feeds; the response is malformed exactly when the first line starts with anything else, and then carries the lines joined by line feeds |
| Gtp.Receive | goban/gtp.py:57-72 | an exchange yields no reply exactly when the first line the engine writes cleans to nothing (or there is none); it succeeds exactly when that cleaned line starts with `=`, is an engine error exactly when it starts with `?`, and is malformed exactly when it starts with any other character |
| Gtp.SuccessRoundTrip | goban/gtp.py:57-67 | a success reply written by a conforming engine, whatever follows it, is received as its payload |
| Gtp.FailureRoundTrip | goban/gtp.py:57-70 | an error reply is received as an engine error whose message is the payload joined by line feeds, and that message splits back into the payload |
| Gtp.OneLineReply | goban/gtp.py:103-111 | a name, version, genmove or final_score query succeeds exactly when the exchange succeeds with a single payload line, which is returned; a failed exchange passes its failure on |
| Gtp.LongReplyRefused | goban/gtp.py:140-148 | a success reply of any other number of lines than one is refused with that count |
| Gtp.ProtocolVersion | goban/gtp.py:86-89 | the start-up check passes exactly when the reply is one line of decimal digits with the value 2 |
| Gtp.ProtocolVersionAccepts | goban/gtp.py:86-89 | an engine announcing version k in decimal passes exactly when k is 2 |
| Gtp.BoardsizeCommand | goban/gtp.py:113-115 | the client sends `boardsize` only for sizes 5 to 25, with one argument in canonical decimal (no leading zero) that reads back as the size |
| Gtp.InitGame | goban/gtp.py:77-84 | a bad size sends nothing; otherwise `boardsize`, `clear_board`, `komi`, `time_settings` go out in that order, where `komi` carries the given komi text and `time_settings` the main time, byo-yomi time and byo-yomi stones; then `fixed_handicap` with the handicap, exactly when the handicap is 1 to 9; the set-up fails exactly when the size is out of range or the handicap is outside 0..9 |
| Gtp.InitGameArguments | goban/gtp.py:77-84 | the size, the handicap and non-negative times are sent in canonical decimal (no leading zero) and read back to the given values |
| Text.CanonicalUnique | goban/gtp.py:115 | a digit string without a leading zero is exactly the decimal form `str` writes for its value, so the decimal arguments above are determined by their values |
| Gtp.InitGameSerializes | goban/gtp.py:77-84 | with a one-word komi, every set-up command goes out as one line that splits back into its verb and arguments |
| Gtp.DefaultInitGame | goban/gtp.py:77 | the default set-up sends `boardsize 19`, `clear_board`, `komi 7.5` and `time_settings 0 1 1`, and nothing fails |

## Left out

- Process handling in the GTP client is not modelled: starting the engine, writing to it, reading from it, waiting for it, terminating it, `run`, `quit` and `__del__`. The engine's output is a parameter, the sequence of raw lines it will write.
- Gtp.InitGame: every command is assumed to be answered with success. In the source, a failing reply raises and stops the set-up at that command.
- UTF-8 decoding and byte-level regular expressions are not modelled; lines are character sequences. Only ASCII whitespace is converted, as the byte-level `\s` does. Invalid UTF-8, which makes the source raise, is not modelled.
- Tokens.ParsePoint: the row is read as non-empty ASCII decimal digits. Python's `int()` also accepts a sign, underscores, surrounding whitespace and non-ASCII decimal digits (such as Arabic-Indic digits); those points are refused here. An empty stripped point text, which makes the source fail on indexing, is a precondition.
- Gtp.ProtocolVersion: the version is read as non-empty ASCII decimal digits. Python's `int()` also accepts surrounding whitespace, a sign, underscores and non-ASCII decimal digits.
- Lower-casing covers ASCII capitals and the Kelvin sign, which Python lower-cases to `k`. No other non-ASCII case mapping is modelled, and a character that lower-cases to more than one character is not modelled.
- Integer move arguments to `play` are not modelled: the source fails on them at `move.lower()`. Moves are strings.
- Komi is a `real` subtracted at the end. IEEE floating point is not modelled. On the GTP side, komi is sent as its already formatted text.
- Scoring.FinalScore: requires a non-negative board size. The source's neighbour arithmetic for negative sizes has no meaning as a board.
- `unpack_point` and `print_point` are not modelled. `unpack_point` calls the undefined name `divmov`. `print_point` compares the column number with `ord('i')`, which is 105, where the column of `i` is 8, and it prints the 0-based row. `Tokens.ColumnLetter` is the intended column lettering, and `Tokens.ParseVertex` states the intended round trip directly.
- The rules engine's constant metadata methods (`protocol_version`, `name`, `version`, `known_command`, `list_commands`, `quit`) and the engine's `genmove`, which always passes, are not modelled.
- The GTP wrappers that send a command and ignore the reply (`clear_board`, `komi`, `fixed_handicap`, `play`, `undo`) are not modelled separately. Their text is `Gtp.Serialize` of the verb and arguments.
- `list_commands` and `showboard` are not modelled separately. They return the reply of `Gtp.Receive`, `showboard` with its lines joined by line feeds.
- Scoring: the test with two opposing stones (score minus komi) is not proved. It needs the fact that the board minus any one point stays connected under the neighbour relation, which holds for every size of at least 2. Only the connectedness of the whole board (`Grid.ClosedSetIsWholeBoard`) is proved.
- `goban/tournament.py`, `game.py` and `goban/__main__.py` are not modelled: they are an I/O-driven loop and entry points.
