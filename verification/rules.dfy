/** The referee's board state machine: moves, passes, resignation, captures and the
    positional-superko check against earlier boards. */
module Rules {
  import opened Wrappers
  import opened Text
  import opened Tokens
  import opened Grid
  import opened Reach
  import opened Capture

  /** The referee's state. `board` holds `size * size` points, each 0 (empty), 1 (black) or
      2 (white); `resign` is 0 or the colour that resigned; `history` holds the boards that
      were current before each committed stone move. */
  datatype State = State(
    size: int,
    komi: real,
    board: seq<int>,
    passes: nat,
    resign: int,
    toMove: int,
    history: set<seq<int>>)

  predicate IsColor(c: int)
  {
    c == 1 || c == 2
  }

  predicate ValidBoard(b: seq<int>)
  {
    forall i :: 0 <= i < |b| ==> 0 <= b[i] <= 2
  }

  predicate Valid(st: State)
  {
    && |st.board| == st.size * st.size
    && ValidBoard(st.board)
    && (st.resign == 0 || IsColor(st.resign))
    && IsColor(st.toMove)
    && (forall h :: h in st.history ==> |h| == |st.board|)
  }

  /** The state of a freshly initialised board of side `size`: empty, no passes, nobody
      resigned, black to move and no earlier boards. The size is not range-checked. */
  function Fresh(size: int, komi: real): (st: State)
    ensures Valid(st) && st.size == size && st.komi == komi
    ensures forall i :: 0 <= i < |st.board| ==> st.board[i] == 0
    ensures st.passes == 0 && st.resign == 0 && st.toMove == 1 && st.history == {}
  {
    State(size, komi, seq(size * size, _ => 0), 0, 0, 1, {})
  }

  /** A new referee: 19 lines, komi 7.5. */
  function Initial(): (st: State)
    ensures Valid(st) && st.size == 19 && st.komi == 7.5 && |st.board| == 361
  {
    Fresh(19, 7.5)
  }

  /** Changing the board size starts a new game on an empty board of that size; komi is kept. */
  function Boardsize(st: State, size: int): (r: State)
    ensures r == Fresh(size, st.komi)
  {
    Fresh(size, st.komi)
  }

  /** Clearing the board starts a new game of the same size and komi. */
  function ClearBoard(st: State): (r: State)
    ensures r == Fresh(st.size, st.komi)
  {
    Fresh(st.size, st.komi)
  }

  /** Setting komi changes nothing else: the game in progress goes on. */
  function SetKomi(st: State, komi: real): (r: State)
    ensures r.komi == komi
    ensures r.size == st.size && r.board == st.board && r.history == st.history
    ensures r.passes == st.passes && r.resign == st.resign && r.toMove == st.toMove
  {
    st.(komi := komi)
  }

  /** The game is over once someone resigned or two passes were played in a row. */
  predicate Finished(st: State)
  {
    st.resign != 0 || st.passes >= 2
  }

  /** The side to move, or 0 once the game is over. */
  function ColorToMove(st: State): (r: int)
    requires Valid(st)
    ensures r == 0 <==> Finished(st)
    ensures !Finished(st) ==> r == st.toMove && IsColor(r)
  {
    if Finished(st) then 0 else st.toMove
  }

  predicate IsPass(move: string)
  {
    Lower(move) == "pass"
  }

  predicate IsResign(move: string)
  {
    Lower(move) == "resign"
  }

  /** A move string the source can process: a pass, a resignation, or a point whose stripped
      text is not empty (indexing its first character would fail otherwise). */
  predicate MoveReadable(move: string)
  {
    IsPass(move) || IsResign(move) || |Strip(move)| > 0
  }

  /** Reference definition of one `play` call, with the capture rule stated declaratively. */
  ghost function Step(st: State, color: ColorToken, move: string): (r: Result<State, BoardError>)
    requires Valid(st) && (ParseColor(color).Ok? ==> MoveReadable(move))
  {
    match ParseColor(color)
    case Err(e) => Err(e)
    case Ok(c) =>
      if IsPass(move) then Ok(st.(passes := st.passes + 1))
      else if IsResign(move) then Ok(st.(resign := c))
      else
        match ParsePoint(PointText(move), st.size)
        case Err(e) => Err(e)
        case Ok(p) => StoneStep(st, c, p)
  }

  /** Reference definition of a stone of colour `c` played at `p`. */
  ghost function StoneStep(st: State, c: int, p: int): (r: Result<State, BoardError>)
    requires Valid(st) && st.size > 0 && IsColor(c) && 0 <= p < |st.board|
  {
    if st.board[p] != 0 then Err(OccupiedPoint)
    else
      var next := Resolve(st.size, st.board, p, c);
      if next in st.history then Err(RepeatedPosition)
      else Ok(Commit(st, next, c))
  }

  /** Plays `move` for `color`. A refused move returns the error and no new state, so the
      caller's state is left exactly as it was. */
  method Play(st: State, color: ColorToken, move: string) returns (r: Result<State, BoardError>)
    requires Valid(st) && (ParseColor(color).Ok? ==> MoveReadable(move))
    ensures r == Step(st, color, move)
  {
    var parsed := ParseColor(color);
    if parsed.Err? {
      return Err(parsed.error);
    }
    var c := parsed.value;
    if IsPass(move) {
      return Ok(st.(passes := st.passes + 1));
    }
    if IsResign(move) {
      return Ok(st.(resign := c));
    }
    var point := ParsePoint(PointText(move), st.size);
    if point.Err? {
      return Err(point.error);
    }
    r := PlayStone(st, c, point.value);
  }

  /** The state after a stone move of colour `c` that produced the board `next`: the old
      board joins the history, the counters are cleared and the other colour moves. */
  function Commit(st: State, next: seq<int>, c: int): (r: State)
  {
    st.(history := st.history + {st.board}, board := next, passes := 0, resign := 0, toMove := 3 - c)
  }

  /** Places a stone of colour `c` at `p`, resolves captures, and commits the new board
      unless the point is taken or the board repeats an earlier one. */
  method PlayStone(st: State, c: int, p: int) returns (r: Result<State, BoardError>)
    requires Valid(st) && st.size > 0 && IsColor(c) && 0 <= p < |st.board|
    ensures r == StoneStep(st, c, p)
  {
    if st.board[p] != 0 {
      return Err(OccupiedPoint);
    }
    var next := PlaceStone(st.size, st.board, p, c);
    if next in st.history {
      return Err(RepeatedPosition);
    }
    r := Ok(Commit(st, next, c));
  }


  // ---------------------------------------------------------------------------
  // Properties of a single play

  /** A pass only counts the pass, and a resignation only records who resigned: the board,
      the history and the side to move are untouched (a pass does not hand the move over). */
  lemma PassAndResignTouchOnlyCounters(st: State, color: ColorToken, move: string)
    requires Valid(st) && MoveReadable(move) && ParseColor(color).Ok?
    requires IsPass(move) || IsResign(move)
    ensures var r := Step(st, color, move);
      && r.Ok?
      && r.value.board == st.board && r.value.history == st.history && r.value.toMove == st.toMove
      && r.value.size == st.size && r.value.komi == st.komi
      && (IsPass(move) ==> r.value.passes == st.passes + 1 && r.value.resign == st.resign)
      && (!IsPass(move) ==> r.value.passes == st.passes && r.value.resign == ParseColor(color).value)
  {
  }

  /** A stone on an occupied point is refused. */
  lemma OccupiedRefused(st: State, color: ColorToken, move: string)
    requires Valid(st) && MoveReadable(move) && ParseColor(color).Ok?
    requires !IsPass(move) && !IsResign(move)
    requires ParsePoint(PointText(move), st.size).Ok?
    requires st.board[ParsePoint(PointText(move), st.size).value] != 0
    ensures Step(st, color, move) == Err(OccupiedPoint)
  {
  }

  /** A stone move on a parsed point is accepted exactly when the point is empty and the
      declaratively resolved board is not an earlier one. An accepted move stores that
      board; the board it replaces joins the history; the counters are reset and the other
      colour moves next. */
  lemma StoneMoveCommits(st: State, color: ColorToken, move: string)
    requires Valid(st) && MoveReadable(move) && ParseColor(color).Ok?
    requires !IsPass(move) && !IsResign(move)
    requires ParsePoint(PointText(move), st.size).Ok?
    ensures var c, p := ParseColor(color).value, ParsePoint(PointText(move), st.size).value;
      Step(st, color, move).Ok? <==> st.board[p] == 0 && Resolve(st.size, st.board, p, c) !in st.history
    ensures Step(st, color, move).Ok? ==>
      var c, p, r := ParseColor(color).value, ParsePoint(PointText(move), st.size).value, Step(st, color, move).value;
      && r.board == Resolve(st.size, st.board, p, c)
      && r.board !in st.history
      && r.history == st.history + {st.board}
      && r.passes == 0 && r.resign == 0 && r.toMove == 3 - c
      && r.size == st.size && r.komi == st.komi
  {
  }

  /** A stone move whose resolved board was seen before is refused as a repeated position. */
  lemma RepeatRefused(st: State, color: ColorToken, move: string)
    requires Valid(st) && MoveReadable(move) && ParseColor(color).Ok?
    requires !IsPass(move) && !IsResign(move)
    requires ParsePoint(PointText(move), st.size).Ok?
    requires var p := ParsePoint(PointText(move), st.size).value;
      st.board[p] == 0 && Resolve(st.size, st.board, p, ParseColor(color).value) in st.history
    ensures Step(st, color, move) == Err(RepeatedPosition)
  {
  }

  /** Every accepted move keeps the state well formed. */
  lemma StepKeepsValid(st: State, color: ColorToken, move: string)
    requires Valid(st) && (ParseColor(color).Ok? ==> MoveReadable(move))
    requires Step(st, color, move).Ok?
    ensures Valid(Step(st, color, move).value)
  {
    var c := ParseColor(color).value;
    if IsPass(move) || IsResign(move) {
      PassAndResignTouchOnlyCounters(st, color, move);
    } else {
      var p := ParsePoint(PointText(move), st.size).value;
      assert Step(st, color, move) == StoneStep(st, c, p);
      StoneStepKeepsValid(st, c, p);
    }
  }

  lemma StoneStepKeepsValid(st: State, c: int, p: int)
    requires Valid(st) && st.size > 0 && IsColor(c) && 0 <= p < |st.board|
    requires StoneStep(st, c, p).Ok?
    ensures Valid(StoneStep(st, c, p).value)
  {
    ResolveKeepsValid(st.size, st.board, p, c);
  }

  lemma ResolveKeepsValid(n: int, b: seq<int>, p: int, c: int)
    requires Sized(n, b) && 0 <= p < |b| && IsColor(c) && ValidBoard(b)
    ensures ValidBoard(Resolve(n, b, p, c))
  {
    ResolveChanges(n, b, p, c);
  }

  /** A finished game stays finished under passes and resignations. */
  lemma FinishedStaysFinished(st: State, color: ColorToken, move: string)
    requires Valid(st) && MoveReadable(move) && Finished(st)
    requires IsPass(move) || IsResign(move)
    requires Step(st, color, move).Ok?
    ensures Finished(Step(st, color, move).value)
  {
    PassAndResignTouchOnlyCounters(st, color, move);
  }

  /** How a game ends: a resignation ends it at once, and a pass ends it exactly when a
      pass was already counted or someone had resigned. */
  lemma PassOrResignEnds(st: State, color: ColorToken, move: string)
    requires Valid(st) && ParseColor(color).Ok?
    requires IsPass(move) || IsResign(move)
    ensures Step(st, color, move).Ok?
    ensures Finished(Step(st, color, move).value) <==> !IsPass(move) || st.resign != 0 || st.passes >= 1
  {
    PassAndResignTouchOnlyCounters(st, color, move);
  }

  /** A committed stone move re-opens a finished game and hands the move to the other colour. */
  lemma StoneMoveReopens(st: State, color: ColorToken, move: string)
    requires Valid(st) && MoveReadable(move) && !IsPass(move) && !IsResign(move)
    requires Step(st, color, move).Ok?
    ensures var r := Step(st, color, move).value;
      Valid(r) && !Finished(r) && ColorToMove(r) == 3 - ParseColor(color).value
  {
    StoneMoveCommits(st, color, move);
    StepKeepsValid(st, color, move);
    var r := Step(st, color, move).value;
    assert r.passes == 0 && r.resign == 0;
  }

  // ---------------------------------------------------------------------------
  // Games: sequences of plays

  datatype Move = Move(color: ColorToken, text: string)

  predicate AllReadable(moves: seq<Move>)
  {
    forall k :: 0 <= k < |moves| ==> MoveReadable(moves[k].text)
  }

  /** Plays `moves` in order, stopping at the first refused one. */
  ghost function Run(st: State, moves: seq<Move>): (r: Result<State, BoardError>)
    requires Valid(st) && AllReadable(moves)
    ensures r.Ok? ==> Valid(r.value)
    decreases |moves|
  {
    if |moves| == 0 then Ok(st)
    else
      match Step(st, moves[0].color, moves[0].text)
      case Err(e) => Err(e)
      case Ok(next) =>
        StepKeepsValid(st, moves[0].color, moves[0].text);
        Run(next, moves[1..])
  }

  /** Over a game, the history only grows, the size never changes, and the board the game
      started from is either still current or remembered in the history. */
  lemma {:induction false} RunRemembers(st: State, moves: seq<Move>)
    requires Valid(st) && AllReadable(moves) && Run(st, moves).Ok?
    ensures var r := Run(st, moves).value;
      && st.history <= r.history && r.size == st.size
      && (st.board == r.board || st.board in r.history)
    decreases |moves|
  {
    if |moves| > 0 {
      var next := Step(st, moves[0].color, moves[0].text).value;
      StepKeepsValid(st, moves[0].color, moves[0].text);
      StepRemembers(st, moves[0].color, moves[0].text);
      RunRemembers(next, moves[1..]);
      assert Run(st, moves) == Run(next, moves[1..]);
    }
  }

  /** One accepted move keeps the history, grows it by at most the board it replaces, and
      keeps the size. */
  lemma StepRemembers(st: State, color: ColorToken, move: string)
    requires Valid(st) && MoveReadable(move) && Step(st, color, move).Ok?
    ensures var r := Step(st, color, move).value;
      && st.history <= r.history && r.size == st.size
      && (st.board == r.board || st.board in r.history)
  {
    if IsPass(move) || IsResign(move) {
      PassAndResignTouchOnlyCounters(st, color, move);
    } else {
      StoneMoveCommits(st, color, move);
    }
  }

  /** Positional superko over a whole game: once the board has changed, no stone move may
      bring back a board the game has already had. */
  lemma RecreatedBoardRefused(st: State, moves: seq<Move>, color: ColorToken, move: string)
    requires Valid(st) && AllReadable(moves) && Run(st, moves).Ok?
    requires MoveReadable(move) && ParseColor(color).Ok? && !IsPass(move) && !IsResign(move)
    requires var r := Run(st, moves).value;
      && ParsePoint(PointText(move), r.size).Ok?
      && var p := ParsePoint(PointText(move), r.size).value;
      && r.board[p] == 0
      && Resolve(r.size, r.board, p, ParseColor(color).value) == st.board
      && st.board != r.board
    ensures Step(Run(st, moves).value, color, move) == Err(RepeatedPosition)
  {
    RunRemembers(st, moves);
  }

  /** The repetition check compares with earlier boards only, not with the current one. On
      a one-point board a stone has no liberty and is removed at once, so the move leaves the
      board as it was; it is accepted unless the empty board is already in the history, and
      accepting it puts the empty board there, so the same move by the other side is refused. */
  lemma SuicideKeepingBoard(st: State, color: ColorToken, c: int, move: string)
    requires Valid(st) && st.size == 1 && st.board == [0] && IsColor(c) && ParseColor(color) == Ok(c)
    requires MoveReadable(move) && !IsPass(move) && !IsResign(move)
    requires ParsePoint(PointText(move), 1).Ok?
    ensures Step(st, color, move) ==
      if [0] in st.history then Err(RepeatedPosition)
      else Ok(st.(history := st.history + {[0]}, passes := 0, resign := 0, toMove := 3 - c))
  {
    var p := ParsePoint(PointText(move), 1).value;
    assert p == 0;
    assert Step(st, color, move) == StoneStep(st, c, 0);
    OnePointCapture(c);
    assert Commit(st, [0], c) == st.(history := st.history + {[0]}, passes := 0, resign := 0, toMove := 3 - c);
  }

  /** On a one-point board a placed stone has no liberty and is captured by its own move. */
  lemma OnePointCapture(c: int)
    requires IsColor(c)
    ensures Resolve(1, [0], 0, c) == [0]
  {
    assert Neighbors(1, 0) == [];
    assert CaptureAll(1, [c], [], 3 - c) == [c];
    InOwnGroup(1, [c], 0);
    assert !HasLiberty(1, [c], Group(1, [c], c, 0));
  }
}
