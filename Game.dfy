/** The tic-tac-toe mini-game of `src/game.rs`: the wire form of game
    actions, the session score, and the game itself, a 3x3 board whose cells,
    turn, result and score change in place. */
module Game {
  import opened Wrappers
  import opened Bytes
  import opened Primitives

  datatype Cell = Empty | X | O

  /** `Cell::symbol`. */
  function Symbol(c: Cell): (s: string)
    ensures |s| == 1
    ensures s == " " <==> c == Empty
    ensures s == "X" <==> c == X
    ensures s == "O" <==> c == O
  {
    match c
    case Empty => " "
    case X => "X"
    case O => "O"
  }

  datatype GameResult = Win(winner: Cell) | Draw | InProgress

  /** The errors of `make_move`, each with the source's message. */
  datatype MoveError =
    | GameOver                       // "Game is already over!"
    | NotAPlayer                     // "You are not a player in this game"
    | NotYourTurn(waitingFor: string) // "Not your turn! Waiting for {nick}"
    | PositionOutOfRange             // "Position must be 1-9"
    | CellTaken                      // "That cell is already taken!"

  // ---------------------------------------------------------------------------
  // Game actions on the wire
  // ---------------------------------------------------------------------------

  /** `GameAction`; `position` is 1-9 by convention but any `u8` travels. */
  datatype GameAction =
    | Challenge(challenger: string, challengerNick: string, roomId: string)
    | Accept(accepter: string, accepterNick: string, roomId: string)
    | Decline(roomId: string)
    | Move(position: byte, roomId: string, player: string)
    | Resign(roomId: string, player: string)

  /** "GAME:" in ASCII. */
  const GAME_PREFIX: bytes := [71, 65, 77, 69, 58]

  /** `GameAction::is_game_message`: the bytes start with "GAME:". */
  predicate IsGameMessage(data: bytes) {
    |data| >= |GAME_PREFIX| && data[..|GAME_PREFIX|] == GAME_PREFIX
  }

  /** A game message is exactly "GAME:" followed by anything. */
  lemma IsGameMessagePrefixed(data: bytes)
    ensures IsGameMessage(data) <==> exists rest :: data == GAME_PREFIX + rest
  {
    if IsGameMessage(data) {
      assert data == GAME_PREFIX + data[|GAME_PREFIX|..];
    }
    if exists rest :: data == GAME_PREFIX + rest {
      var rest :| data == GAME_PREFIX + rest;
      assert data[..|GAME_PREFIX|] == GAME_PREFIX;
    }
  }

  /** `GameAction::to_bytes`: "GAME:" followed by the JSON of the action. */
  function ToBytes(json: Codec<GameAction>, action: GameAction): (r: bytes)
    ensures IsGameMessage(r)
    ensures r[|GAME_PREFIX|..] == json.encode(action)
  {
    GAME_PREFIX + json.encode(action)
  }

  /** `GameAction::from_bytes`: refuse data without the prefix, then decode
      the rest (the decoder also stands for the UTF-8 check). */
  function FromBytes(json: Codec<GameAction>, data: bytes): (r: Option<GameAction>)
    ensures !IsGameMessage(data) ==> r == None
    ensures r.Some? ==> json.decode(data[|GAME_PREFIX|..]) == r
  {
    if !IsGameMessage(data) then None
    else json.decode(data[|GAME_PREFIX|..])
  }

  lemma ActionRoundTrip(json: Codec<GameAction>, action: GameAction)
    requires RoundTrips(json)
    ensures FromBytes(json, ToBytes(json, action)) == Some(action)
  {
    assert IsGameMessage(ToBytes(json, action));
  }

  // ---------------------------------------------------------------------------
  // The board, as a value
  // ---------------------------------------------------------------------------

  type Line = (nat, nat, nat)

  /** `check_result`'s WINS table: rows, columns, diagonals, in that order. */
  const WINS: seq<Line> := [(0, 1, 2), (3, 4, 5), (6, 7, 8),
                            (0, 3, 6), (1, 4, 7), (2, 5, 8),
                            (0, 4, 8), (2, 4, 6)]

  predicate IsBoard(b: seq<Cell>) {
    |b| == 9
  }

  /** Line `k` of WINS holds three equal, non-empty cells. */
  predicate Complete(b: seq<Cell>, k: nat)
    requires IsBoard(b) && k < |WINS|
  {
    var (i, j, l) := WINS[k];
    b[i] != Empty && b[i] == b[j] && b[j] == b[l]
  }

  predicate Full(b: seq<Cell>)
    requires IsBoard(b)
  {
    forall i :: 0 <= i < 9 ==> b[i] != Empty
  }

  /** The scan of `check_result` from line `k` on: the first complete line
      wins; past the last line, a full board is a draw. */
  function ScanFrom(b: seq<Cell>, k: nat): (r: GameResult)
    requires IsBoard(b) && k <= |WINS|
    decreases |WINS| - k
    ensures r.Win? <==> exists j :: k <= j < |WINS| && Complete(b, j)
    ensures r.Win? ==> r.winner != Empty
    ensures r.Win? ==> exists j :: k <= j < |WINS| && Complete(b, j) && r.winner == b[WINS[j].0]
                                   && forall i :: k <= i < j ==> !Complete(b, i)
    ensures r == Draw <==> (forall j :: k <= j < |WINS| ==> !Complete(b, j)) && Full(b)
    ensures r == InProgress <==> (forall j :: k <= j < |WINS| ==> !Complete(b, j)) && !Full(b)
  {
    if k == |WINS| then (if Full(b) then Draw else InProgress)
    else if Complete(b, k) then Win(b[WINS[k].0])
    else ScanFrom(b, k + 1)
  }

  /** `TicTacToe::check_result` on a board. */
  function BoardResult(b: seq<Cell>): GameResult
    requires IsBoard(b)
  {
    ScanFrom(b, 0)
  }

  /** Number of cells holding `c`. */
  function Count(b: seq<Cell>, c: Cell): nat {
    if b == [] then 0 else (if b[0] == c then 1 else 0) + Count(b[1..], c)
  }

  /** Writing `v` into cell `i` moves one cell's worth of count from the old
      value to `v`. */
  lemma {:induction false} CountUpdate(b: seq<Cell>, i: nat, v: Cell, d: Cell)
    requires i < |b|
    ensures Count(b[i := v], d) + (if b[i] == d then 1 else 0) == Count(b, d) + (if v == d then 1 else 0)
  {
    if i == 0 {
      assert b[i := v][1..] == b[1..];
    } else {
      assert b[i := v][1..] == b[1..][i - 1 := v];
      CountUpdate(b[1..], i - 1, v, d);
    }
  }

  lemma {:induction false} CountAllEmpty(n: nat, d: Cell)
    requires d != Empty
    ensures Count(seq(n, _ => Empty), d) == 0
  {
    if n > 0 {
      assert seq(n, _ => Empty)[1..] == seq(n - 1, _ => Empty);
      CountAllEmpty(n - 1, d);
    }
  }

  /** The empty board is in progress. */
  lemma EmptyBoardInProgress()
    ensures BoardResult(seq(9, _ => Empty)) == InProgress
  {
    var b: seq<Cell> := seq(9, _ => Empty);
    assert !Full(b) by { assert b[0] == Empty; }
  }

  /** A move into an empty cell of a board with no complete line can only
      complete lines through that cell, so a win it produces is the mover's. */
  lemma OnlyMoverCanWin(b: seq<Cell>, i: nat, v: Cell)
    requires IsBoard(b) && i < 9 && b[i] == Empty && v != Empty
    requires forall k :: 0 <= k < |WINS| ==> !Complete(b, k)
    ensures BoardResult(b[i := v]).Win? ==> BoardResult(b[i := v]).winner == v
  {
    var b' := b[i := v];
    forall k | 0 <= k < |WINS|
      ensures Complete(b', k) ==> b'[WINS[k].0] == v
    {
      var (p, q, l) := WINS[k];
      if p != i && q != i && l != i {
        assert Complete(b', k) == Complete(b, k);
      }
    }
  }

  // ---------------------------------------------------------------------------
  // Rendering
  // ---------------------------------------------------------------------------

  const BOARD_TOP: string := "┌───┬───┬───┐"
  const BOARD_RULE: string := "├───┼───┼───┤"
  const BOARD_BOTTOM: string := "└───┴───┴───┘"

  /** The label of cell `i`: its 1-based position when empty, else X or O. */
  function CellLabel(c: Cell, i: nat): (r: char)
    requires i < 9
  {
    match c
    case Empty => ('1' as int + i) as char
    case X => 'X'
    case O => 'O'
  }

  function Row(b: seq<Cell>, r: nat): (line: string)
    requires IsBoard(b) && r < 3
  {
    "│ " + [CellLabel(b[3 * r], 3 * r)] + " │ " + [CellLabel(b[3 * r + 1], 3 * r + 1)] + " │ "
      + [CellLabel(b[3 * r + 2], 3 * r + 2)] + " │"
  }

  /** `TicTacToe::render_board` on a board: seven lines, framed by box
      drawing characters, one row of labels on each odd line. */
  function RenderCells(b: seq<Cell>): (lines: seq<string>)
    requires IsBoard(b)
    ensures |lines| == 7
    ensures lines[0] == BOARD_TOP && lines[2] == BOARD_RULE && lines[4] == BOARD_RULE
    ensures lines[6] == BOARD_BOTTOM
    ensures lines[0][0] == '┌' && lines[6][|lines[6]| - 1] == '┘'
    ensures forall i :: 0 <= i < 9 ==>
      (|lines[1 + 2 * (i / 3)]| == 13 && lines[1 + 2 * (i / 3)][2 + 4 * (i % 3)] == CellLabel(b[i], i))
  {
    [BOARD_TOP, Row(b, 0), BOARD_RULE, Row(b, 1), BOARD_RULE, Row(b, 2), BOARD_BOTTOM]
  }

  /** The rendering loses nothing: two boards that render alike are equal. */
  lemma RenderInjective(b1: seq<Cell>, b2: seq<Cell>)
    requires IsBoard(b1) && IsBoard(b2)
    requires RenderCells(b1) == RenderCells(b2)
    ensures b1 == b2
  {
    forall i | 0 <= i < 9
      ensures b1[i] == b2[i]
    {
      assert CellLabel(b1[i], i) == CellLabel(b2[i], i);
    }
  }

  // ---------------------------------------------------------------------------
  // The session score
  // ---------------------------------------------------------------------------

  /** `GameScore`, with unbounded counters. */
  class GameScore {
    var playerXWins: nat
    var playerOWins: nat
    var draws: nat

    /** `GameScore::default()`. */
    constructor ()
      ensures playerXWins == 0 && playerOWins == 0 && draws == 0
    {
      playerXWins := 0;
      playerOWins := 0;
      draws := 0;
    }

    /** `GameScore::record`: the counter for the outcome rises by one; an
        unfinished game (or a win for an empty cell) changes nothing. */
    method Record(result: GameResult)
      modifies this
      ensures playerXWins == old(playerXWins) + (if result == Win(X) then 1 else 0)
      ensures playerOWins == old(playerOWins) + (if result == Win(O) then 1 else 0)
      ensures draws == old(draws) + (if result == Draw then 1 else 0)
      ensures TotalGames() == old(TotalGames()) + (if Finished(result) then 1 else 0)
    {
      match result
      case Win(X) => playerXWins := playerXWins + 1;
      case Win(O) => playerOWins := playerOWins + 1;
      case Draw => draws := draws + 1;
      case _ =>
    }

    /** `GameScore::total_games`. */
    function TotalGames(): (n: nat)
      reads this
      ensures n == playerXWins + playerOWins + draws
    {
      playerXWins + playerOWins + draws
    }
  }

  /** A result that `record` counts. */
  predicate Finished(r: GameResult) {
    r == Win(X) || r == Win(O) || r == Draw
  }

  // ---------------------------------------------------------------------------
  // The game
  // ---------------------------------------------------------------------------

  function Other(c: Cell): Cell {
    match c
    case X => O
    case O => X
    case Empty => X
  }

  /** `TicTacToe`.  A player is a (peer id, nickname) pair. */
  class TicTacToe {
    const board: array<Cell>
    var currentTurn: Cell
    const playerX: (string, string)
    const playerO: (string, string)
    const roomId: string
    const score: GameScore
    var result: GameResult

    /** The state every operation keeps: a 9-cell board whose recorded result
        is its `check_result`, X having moved as often as O or once more, and,
        while the game runs, the turn belonging to whoever has moved less. */
    ghost predicate Valid()
      reads this, board
    {
      && board.Length == 9
      && result == BoardResult(board[..])
      && (Count(board[..], X) == Count(board[..], O) || Count(board[..], X) == Count(board[..], O) + 1)
      && currentTurn != Empty
      && (result == InProgress ==>
            currentTurn == (if Count(board[..], X) == Count(board[..], O) then X else O))
    }

    /** `TicTacToe::new`: nine empty cells, X to move, in progress, a zero
        score. */
    constructor (playerX: (string, string), playerO: (string, string), roomId: string)
      ensures Valid() && fresh(board) && fresh(score)
      ensures board[..] == seq(9, _ => Empty) && currentTurn == X && result == InProgress
      ensures this.playerX == playerX && this.playerO == playerO && this.roomId == roomId
      ensures score.playerXWins == 0 && score.playerOWins == 0 && score.draws == 0
    {
      board := new Cell[9](_ => Empty);
      currentTurn := X;
      this.playerX := playerX;
      this.playerO := playerO;
      this.roomId := roomId;
      score := new GameScore();
      result := InProgress;
      new;
      assert board[..] == seq(9, _ => Empty);
      EmptyBoardInProgress();
      CountAllEmpty(9, X);
      CountAllEmpty(9, O);
    }

    /** `TicTacToe::new_round`: a fresh board, X to move, in progress; the
        score, the players and the room stay. */
    method NewRound()
      requires board.Length == 9
      modifies this, board
      ensures Valid()
      ensures board[..] == seq(9, _ => Empty) && currentTurn == X && result == InProgress
      ensures unchanged(score)
    {
      forall i | 0 <= i < board.Length {
        board[i] := Empty;
      }
      currentTurn := X;
      result := InProgress;
      assert board[..] == seq(9, _ => Empty);
      EmptyBoardInProgress();
      CountAllEmpty(9, X);
      CountAllEmpty(9, O);
    }

    /** `TicTacToe::player_cell`: X's peer id is compared first, so a peer
        listed as both players plays X. */
    function PlayerCell(peerId: string): (r: Option<Cell>)
      ensures r == Some(X) <==> playerX.0 == peerId
      ensures r == Some(O) <==> playerX.0 != peerId && playerO.0 == peerId
      ensures r.None? <==> playerX.0 != peerId && playerO.0 != peerId
    {
      if playerX.0 == peerId then Some(X)
      else if playerO.0 == peerId then Some(O)
      else None
    }

    /** `TicTacToe::nick_for`: the player's nickname, "???" for an empty
        cell. */
    function NickFor(cell: Cell): (nick: string)
      ensures cell == X ==> nick == playerX.1
      ensures cell == O ==> nick == playerO.1
      ensures cell == Empty ==> nick == "???"
    {
      match cell
      case X => playerX.1
      case O => playerO.1
      case Empty => "???"
    }

    /** `TicTacToe::is_my_turn`. */
    function IsMyTurn(peerId: string): (r: bool)
      reads this
      ensures r <==> PlayerCell(peerId) == Some(currentTurn)
    {
      PlayerCell(peerId) == Some(currentTurn)
    }

    /** `TicTacToe::check_result` on the current board. */
    function CheckResult(): (r: GameResult)
      requires board.Length == 9
      reads this, board
      ensures r == BoardResult(board[..])
    {
      BoardResult(board[..])
    }

    function RenderBoard(): (lines: seq<string>)
      requires board.Length == 9
      reads this, board
      ensures lines == RenderCells(board[..])
    {
      RenderCells(board[..])
    }

    /** `TicTacToe::make_move`, position 1-9.  The checks run in the order
        game over, not a player, not your turn, position out of range, cell
        taken; any failure leaves the whole game as it was.  A successful
        move writes the mover's mark into that one cell and re-evaluates the
        board: a finished game is recorded in the score and keeps the turn,
        an unfinished one passes the turn to the other player. */
    method MakeMove(position: byte, peerId: string) returns (r: Result<GameResult, MoveError>)
      requires Valid()
      modifies this, board, score
      ensures Valid()
      ensures old(result) != InProgress ==> r == Err(GameOver)
      ensures old(result) == InProgress && PlayerCell(peerId).None? ==> r == Err(NotAPlayer)
      ensures (old(result) == InProgress && PlayerCell(peerId).Some?
               && PlayerCell(peerId) != Some(old(currentTurn)))
              ==> r == Err(NotYourTurn(NickFor(old(currentTurn))))
      ensures (old(result) == InProgress && PlayerCell(peerId) == Some(old(currentTurn))
               && !(1 <= position <= 9))
              ==> r == Err(PositionOutOfRange)
      ensures (old(result) == InProgress && PlayerCell(peerId) == Some(old(currentTurn))
               && 1 <= position <= 9 && old(board[position - 1]) != Empty)
              ==> r == Err(CellTaken)
      ensures r.Ok? <==> old(result) == InProgress && PlayerCell(peerId) == Some(old(currentTurn))
                         && 1 <= position <= 9 && old(board[position - 1]) == Empty
      ensures r.Err? ==> board[..] == old(board[..]) && currentTurn == old(currentTurn)
                         && result == old(result) && unchanged(score)
      ensures r.Ok? ==> && board[..] == old(board[..])[position - 1 := old(currentTurn)]
                        && r.value == result && result == BoardResult(board[..])
      ensures r.Ok? && result != InProgress ==>
                && currentTurn == old(currentTurn)
                && (result == Win(old(currentTurn)) || result == Draw)
      ensures r.Ok? && result != InProgress ==>
                && score.playerXWins == old(score.playerXWins) + (if result == Win(X) then 1 else 0)
                && score.playerOWins == old(score.playerOWins) + (if result == Win(O) then 1 else 0)
                && score.draws == old(score.draws) + (if result == Draw then 1 else 0)
                && score.TotalGames() == old(score.TotalGames()) + 1
      ensures r.Ok? && result == InProgress ==>
                currentTurn == Other(old(currentTurn)) && unchanged(score)
    {
      if result != InProgress {
        return Err(GameOver);
      }
      var cell := PlayerCell(peerId);
      if cell.None? {
        return Err(NotAPlayer);
      }
      if cell.value != currentTurn {
        return Err(NotYourTurn(NickFor(currentTurn)));
      }
      if position < 1 || position > 9 {
        return Err(PositionOutOfRange);
      }
      var idx := position - 1;
      if board[idx] != Empty {
        return Err(CellTaken);
      }
      ghost var before := board[..];
      board[idx] := cell.value;
      assert board[..] == before[idx := cell.value];
      CountUpdate(before, idx, cell.value, X);
      CountUpdate(before, idx, cell.value, O);
      OnlyMoverCanWin(before, idx, cell.value);
      result := BoardResult(board[..]);
      if result != InProgress {
        score.Record(result);
      } else {
        currentTurn := Other(currentTurn);
      }
      return Ok(result);
    }
  }
}
