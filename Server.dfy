/** The authoritative game server: the registry of games, the id counter,
    the game each connection last joined, and the handlers for the four
    client intents and for a closed connection.  Outbound messages are
    appended to `outbox` in the order the server sends them. */
module Server {
  import opened Board
  import opened Search
  import opened GameIds

  /** A client connection (one WebSocket). */
  type Conn = nat

  datatype Status = Waiting | Playing | Finished

  /** The mode of a game, with the symbol fields that mode has.  A
      two-player game keeps its `symbols` object keyed by the socket; the
      key is turned into one and the same string for every socket, so the
      object has a single slot that every connection reads and writes. */
  datatype Mode =
    | Multiplayer(symbolSlot: Cell)
    | Ai(playerSymbol: Cell, aiSymbol: Cell)

  datatype Game = Game(
    id: GameId,
    mode: Mode,
    players: seq<Conn>,
    board: Board,
    currentTurn: Cell,
    status: Status,
    winner: Option<Cell>)

  /** The payload of each outbound message type (the human-readable
      `message` and constant `status` strings are not kept). */
  datatype Body =
    | GameCreated(gameId: GameId, yourSymbol: Cell, board: Board)
    | OpponentJoined(gameId: GameId, yourSymbol: Cell, opponentSymbol: Cell, board: Board, currentTurn: Cell)
    | GameJoined(gameId: GameId, yourSymbol: Cell, opponentSymbol: Cell, board: Board, currentTurn: Cell)
    | AiGameStarted(gameId: GameId, yourSymbol: Cell, aiSymbol: Cell, board: Board, currentTurn: Cell)
    | MoveMade(board: Board, currentTurn: Cell, position: Option<int>, aiMove: Option<Index>)
    | GameEnd(board: Board, winner: Option<Cell>)
    | RematchStarted(board: Board, currentTurn: Cell)
    | OpponentDisconnected

  datatype Message = Message(to: Conn, body: Body)

  /** `broadcast`: the same message to every player of the game, in order. */
  function Broadcast(to: seq<Conn>, body: Body): (ms: seq<Message>)
    ensures |ms| == |to|
    ensures forall i :: 0 <= i < |ms| ==> ms[i] == Message(to[i], body)
  {
    if to == [] then [] else [Message(to[0], body)] + Broadcast(to[1..], body)
  }

  /** `players.find(p => p !== ws)`: the first player other than ws. */
  function FindOther(players: seq<Conn>, ws: Conn): (r: Option<Conn>)
    ensures r.None? <==> forall i :: 0 <= i < |players| ==> players[i] == ws
    ensures r.Some? ==>
      exists i :: 0 <= i < |players| && players[i] == r.value
                  && forall j :: 0 <= j < i ==> players[j] == ws
    ensures r.Some? ==> r.value != ws
  {
    if players == [] then None
    else if players[0] != ws then Some(players[0])
    else FindOther(players[1..], ws)
  }

  /** `currentTurn === 'O' ? 'X' : 'O'`: the turn always moves on to a
      different symbol of the pair "O"/"X". */
  function Flip(t: Cell): (r: Cell)
    ensures r != t
    ensures r == O || r == X
  {
    if t == O then X else O
  }

  /** On the pair "O"/"X", two flips give the turn back. */
  lemma FlipTwice(t: Cell)
    requires t == O || t == X
    ensures Flip(Flip(t)) == t
  {
  }

  predicate NoDup(s: seq<GameId>)
  {
    forall i, j :: 0 <= i < j < |s| ==> s[i] != s[j]
  }

  /** The sequence with x taken out, the rest in the same order. */
  function Without(s: seq<GameId>, x: GameId): (r: seq<GameId>)
    ensures forall y :: y in r <==> y in s && y != x
    ensures NoDup(s) ==> NoDup(r)
    ensures |r| <= |s|
  {
    if s == [] then []
    else
      var rest := Without(s[1..], x);
      if s[0] == x then rest
      else
        assert NoDup(s) ==> s[0] !in s[1..];
        assert forall k :: 0 <= k < |rest| ==> ([s[0]] + rest)[k + 1] == rest[k];
        [s[0]] + rest
  }

  /** Deleting an absent id leaves the order as it is. */
  lemma {:induction false} WithoutAbsent(s: seq<GameId>, x: GameId)
    requires x !in s
    ensures Without(s, x) == s
  {
    if s != [] {
      WithoutAbsent(s[1..], x);
    }
  }

  /** Deleting an id found only at position k cuts it out there. */
  lemma {:induction false} WithoutCutsOutAt(s: seq<GameId>, x: GameId, k: nat)
    requires k < |s| && s[k] == x
    requires x !in s[..k] && x !in s[k + 1..]
    ensures Without(s, x) == s[..k] + s[k + 1..]
  {
    if k == 0 {
      WithoutAbsent(s[1..], x);
    } else {
      var t := s[1..];
      assert t[..k - 1] == s[1..k] && t[k..] == s[k + 1..];
      assert x !in t[..k - 1] by {
        forall y | y in t[..k - 1] ensures y in s[..k] {
        }
      }
      WithoutCutsOutAt(t, x, k - 1);
      assert s[0] != x by {
        assert s[0] in s[..k];
      }
      assert s[..k] == [s[0]] + t[..k - 1];
    }
  }

  /** Deleting a key from a JavaScript Map keeps the other keys in their
      insertion order: an absent id leaves the order as it is, and a
      present id (listed once) is cut out at its position. */
  lemma WithoutKeepsOrder(s: seq<GameId>, x: GameId)
    ensures x !in s ==> Without(s, x) == s
    ensures NoDup(s) && x in s ==>
      exists k :: 0 <= k < |s| && s[k] == x && Without(s, x) == s[..k] + s[k + 1..]
  {
    if x !in s {
      WithoutAbsent(s, x);
    } else if NoDup(s) {
      var k :| 0 <= k < |s| && s[k] == x;
      assert x !in s[..k] by {
        forall i | 0 <= i < k ensures s[..k][i] != x {
          assert s[..k][i] == s[i];
        }
      }
      var after := s[k + 1..];
      assert x !in after by {
        forall i | 0 <= i < |after| ensures after[i] != x {
          assert after[i] == s[k + 1 + i];
        }
      }
      WithoutCutsOutAt(s, x, k);
    }
  }

  /** A game a two-player join can attach to. */
  predicate IsOpen(g: Game)
  {
    g.mode.Multiplayer? && |g.players| == 1 && g.status == Waiting
  }

  predicate HasOpen(games: map<GameId, Game>)
  {
    exists id :: id in games && IsOpen(games[id])
  }

  /** What holds of every stored game.  `winner` is set only on a finished
      game and agrees with its board; a finished game without a winner has
      a full board; only a fresh two-player game waits. */
  /** A two-player game takes a move only when the turn equals the single
      symbol slot, and the move flips the turn away from it; only the
      second player's arrival rewrites the slot.  So at most one move is
      made before the second player arrives and at most one after. */
  predicate FewMoves(g: Game)
    requires g.mode.Multiplayer?
  {
    var free := CountEmpty(g.board);
    var turnIsSlot := g.currentTurn == g.mode.symbolSlot;
    && free >= 7
    && (turnIsSlot ==> free >= 8)
    && (|g.players| == 1 ==> free >= 8)
    && (|g.players| == 1 && turnIsSlot ==> free == 9)
  }

  predicate GameOk(id: GameId, g: Game, counter: nat)
  {
    && g.id == id
    && id.n < counter
    && (id.MultiId? <==> g.mode.Multiplayer?)
    && 1 <= |g.players| <= 2
    && (g.mode.Ai? ==> |g.players| == 1)
    && (g.currentTurn == O || g.currentTurn == X)
    && (g.status == Waiting ==> IsOpen(g))
    && (g.winner.Some? ==> g.status == Finished && CheckWinner(g.board) == g.winner)
    && (g.status == Finished && g.winner.None? ==> IsBoardFull(g.board))
    && (g.mode.Multiplayer? ==> FewMoves(g))
  }

  /** `handlePlayMove` returns without doing anything: unknown game, a
      winner already set, not the shared symbol's turn (two-player games),
      or the target is not an empty cell (which covers positions outside
      0..8, where `board[position]` is undefined). */
  predicate MoveIgnored(games: map<GameId, Game>, gameId: GameId, position: int)
  {
    || gameId !in games
    || games[gameId].winner.Some?
    || (games[gameId].mode.Multiplayer? && games[gameId].currentTurn != games[gameId].mode.symbolSlot)
    || !(0 <= position < 9 && games[gameId].board[position] == Empty)
  }

  /** A finished game takes no more moves: either its winner is set, or its
      board is full. */
  lemma FinishedGameIgnoresMoves(games: map<GameId, Game>, gameId: GameId, position: int, counter: nat)
    requires gameId in games && GameOk(gameId, games[gameId], counter)
    requires games[gameId].status == Finished
    ensures MoveIgnored(games, gameId, position)
  {
    var g := games[gameId];
    if g.winner.None? && 0 <= position < 9 {
      assert g.board[position] != Empty;
    }
  }

  /** A two-player game holds at most two symbols, so it is never won,
      never drawn and never finished: the win and draw branches of
      `handlePlayMove` are unreachable for it. */
  lemma TwoPlayerGameNeverEnds(id: GameId, g: Game, counter: nat)
    requires GameOk(id, g, counter) && g.mode.Multiplayer?
    ensures CountEmpty(g.board) >= 7
    ensures CheckWinner(g.board).None? && !IsBoardFull(g.board)
    ensures g.winner.None? && g.status != Finished
  {
    FewTakenUndecided(g.board);
  }

  /** The registry invariant, on the registry's values: the insertion
      order lists every key once; every game is well formed and keyed by
      its own id, drawn from below the counter; at most one game is open. */
  ghost predicate Inv(games: map<GameId, Game>, order: seq<GameId>, counter: nat)
  {
    && counter >= 1
    && NoDup(order)
    && (forall id :: id in order <==> id in games)
    && (forall id :: id in games ==> GameOk(id, games[id], counter))
    && (forall id1, id2 :: id1 in games && id2 in games && IsOpen(games[id1]) && IsOpen(games[id2]) ==> id1 == id2)
  }

  /** Replacing a stored game by a well-formed one keeps the invariant, as
      long as it does not open a second waiting game. */
  lemma ReplaceKeepsInv(games: map<GameId, Game>, order: seq<GameId>, counter: nat, id: GameId, g: Game)
    requires Inv(games, order, counter) && id in games
    requires GameOk(id, g, counter)
    requires IsOpen(g) ==> IsOpen(games[id])
    ensures Inv(games[id := g], order, counter)
  {
  }

  /** A game under the counter's current value is new to the registry, and
      storing it, appending its id and advancing the counter keeps the
      invariant, as long as it does not open a second waiting game. */
  lemma AddKeepsInv(games: map<GameId, Game>, order: seq<GameId>, counter: nat, g: Game)
    requires Inv(games, order, counter)
    requires g.id.n == counter && GameOk(g.id, g, counter + 1)
    requires IsOpen(g) ==> !HasOpen(games)
    ensures g.id !in games
    ensures Inv(games[g.id := g], order + [g.id], counter + 1)
  {
    var order' := order + [g.id];
    forall i, j | 0 <= i < j < |order'|
      ensures order'[i] != order'[j]
    {
      if j == |order| {
        assert order'[i] == order[i] && order[i] in games;
      }
    }
  }

  /** Deleting a game and its id keeps the invariant. */
  lemma RemoveKeepsInv(games: map<GameId, Game>, order: seq<GameId>, counter: nat, id: GameId)
    requires Inv(games, order, counter)
    ensures Inv(games - {id}, Without(order, id), counter)
  {
  }

  /** The effect of an accepted two-player move on the registry: only that
      game changes; cell `position` takes the shared symbol; then the game
      is won (everyone is told the winner), drawn (everyone is told there
      is none) or goes on with the other symbol to move (everyone is sent
      the move). */
  predicate TwoPlayerStep(games0: map<GameId, Game>, outbox0: seq<Message>, gameId: GameId, position: int,
                          games1: map<GameId, Game>, outbox1: seq<Message>)
    requires gameId in games0 && 0 <= position < 9 && games0[gameId].mode.Multiplayer?
  {
    var g0 := games0[gameId];
    var b := g0.board[position := g0.mode.symbolSlot];
    var w := CheckWinner(b);
    && gameId in games1
    && var g := games1[gameId];
    && games1 == games0[gameId := g]
    && g.id == g0.id && g.mode == g0.mode && g.players == g0.players && g.board == b
    && (w.Some? ==>
          && g.winner == w && g.status == Finished && g.currentTurn == g0.currentTurn
          && outbox1 == outbox0 + Broadcast(g0.players, GameEnd(b, w)))
    && (w.None? && IsBoardFull(b) ==>
          && g.winner == None && g.status == Finished && g.currentTurn == g0.currentTurn
          && outbox1 == outbox0 + Broadcast(g0.players, GameEnd(b, None)))
    && (w.None? && !IsBoardFull(b) ==>
          && g.winner == None && g.status == g0.status && g.currentTurn == Flip(g0.currentTurn)
          && outbox1 == outbox0 + Broadcast(g0.players, MoveMade(b, g.currentTurn, Some(position), None)))
  }

  /** How a board reached in a game against the computer settles it: a
      completed line ends the game with that line's symbol, a full board
      ends it with no winner, otherwise the game goes on unchanged.  The
      player is told the end, or is sent the board, its own symbol as the
      turn and `aiMove`, the computer's cell. */
  function SettleAgainstComputer(g0: Game, b: Board, aiMove: Option<Index>, ws: Conn): (r: (Game, Message))
    requires g0.mode.Ai? && g0.winner.None?
    ensures r.0 == g0.(board := b, winner := r.0.winner, status := r.0.status)
    ensures r.1.to == ws
    ensures CheckWinner(b).Some? || IsBoardFull(b) ==>
      && r.0.status == Finished && r.0.winner == CheckWinner(b)
      && r.1.body == GameEnd(b, CheckWinner(b))
    ensures CheckWinner(b).None? && !IsBoardFull(b) ==>
      && r.0.status == g0.status && r.0.winner == g0.winner
      && r.1.body == MoveMade(b, g0.mode.playerSymbol, None, aiMove)
  {
    var winner := CheckWinner(b);
    if winner.Some? then
      (g0.(board := b, winner := winner, status := Finished), Message(ws, GameEnd(b, winner)))
    else if IsBoardFull(b) then
      (g0.(board := b, status := Finished), Message(ws, GameEnd(b, None)))
    else
      (g0.(board := b), Message(ws, MoveMade(b, g0.mode.playerSymbol, None, aiMove)))
  }

  /** The game and message that follow the player's move b1 in a game
      against the computer: if b1 decides the game it is settled at once;
      otherwise the computer answers in the cell the search picks and the
      game is settled on the board that results. */
  ghost predicate ComputerAnswers(g0: Game, b1: Board, ws: Conn, g: Game, sent: Message)
    requires g0.mode.Ai? && g0.winner.None?
  {
    && (CheckWinner(b1).Some? || IsBoardFull(b1) ==> (g, sent) == SettleAgainstComputer(g0, b1, None, ws))
    && (CheckWinner(b1).None? && !IsBoardFull(b1) ==>
          exists m: Index {:trigger IsFirstBest(b1, m)} ::
            && IsFirstBest(b1, m)
            && (g, sent) == SettleAgainstComputer(g0, b1[m := g0.mode.aiSymbol], Some(m), ws))
  }

  /** The effect of an accepted move against the computer: only that game
      changes and its turn never does; the player's symbol goes into
      `position`; unless that decides the game, the computer's symbol goes
      into the free cell the search picks, and the player is sent the
      result. */
  ghost predicate ComputerStep(games0: map<GameId, Game>, outbox0: seq<Message>, ws: Conn, gameId: GameId, position: int,
                               games1: map<GameId, Game>, outbox1: seq<Message>)
    requires gameId in games0 && 0 <= position < 9
    requires games0[gameId].mode.Ai? && games0[gameId].winner.None?
  {
    var g0 := games0[gameId];
    && gameId in games1
    && var g := games1[gameId];
    && games1 == games0[gameId := g]
    && g.id == g0.id && g.mode == g0.mode && g.players == g0.players
    && g.currentTurn == g0.currentTurn
    && |outbox1| == |outbox0| + 1 && outbox1[..|outbox0|] == outbox0
    && ComputerAnswers(g0, g0.board[position := g0.mode.playerSymbol], ws, g, outbox1[|outbox0|])
  }

  /** Storing the answered game and sending its message is a step of the
      game against the computer. */
  lemma ComputerAnswerIsStep(games0: map<GameId, Game>, outbox0: seq<Message>, ws: Conn, gameId: GameId, position: int,
                             g: Game, sent: Message)
    requires gameId in games0 && 0 <= position < 9
    requires games0[gameId].mode.Ai? && games0[gameId].winner.None?
    requires g.id == games0[gameId].id && g.mode == games0[gameId].mode
    requires g.players == games0[gameId].players && g.currentTurn == games0[gameId].currentTurn
    requires ComputerAnswers(games0[gameId], games0[gameId].board[position := games0[gameId].mode.playerSymbol], ws, g, sent)
    ensures ComputerStep(games0, outbox0, ws, gameId, position, games0[gameId := g], outbox0 + [sent])
  {
    var outbox1 := outbox0 + [sent];
    assert outbox1[..|outbox0|] == outbox0 && outbox1[|outbox0|] == sent;
  }

  /** An accepted two-player move writes the shared symbol into the free
      cell `position` and leaves every other cell as it was. */
  lemma TwoPlayerMoveWritesOneCell(games0: map<GameId, Game>, outbox0: seq<Message>, gameId: GameId, position: int,
                                   games1: map<GameId, Game>, outbox1: seq<Message>)
    requires gameId in games0 && 0 <= position < 9 && games0[gameId].mode.Multiplayer?
    requires !MoveIgnored(games0, gameId, position)
    requires TwoPlayerStep(games0, outbox0, gameId, position, games1, outbox1)
    ensures games0[gameId].board[position] == Empty
    ensures games1[gameId].board[position] == games0[gameId].mode.symbolSlot
    ensures forall i :: 0 <= i < 9 && i != position ==> games1[gameId].board[i] == games0[gameId].board[i]
    ensures games1.Keys == games0.Keys
  {
  }

  /** Against the computer, the board after the answer is the player's
      board b1, or b1 with the computer's symbol in one of its free cells;
      the computer plays only when b1 neither is won nor full. */
  lemma ComputerWritesAtMostOneCell(g0: Game, b1: Board, ws: Conn, g: Game, sent: Message)
    requires g0.mode.Ai? && g0.winner.None?
    requires ComputerAnswers(g0, b1, ws, g, sent)
    ensures g.board == b1 || exists m: Index :: b1[m] == Empty && g.board == b1[m := g0.mode.aiSymbol]
    ensures g.board != b1 ==> CheckWinner(b1).None? && !IsBoardFull(b1)
  {
    if CheckWinner(b1).None? && !IsBoardFull(b1) {
      var m: Index :| IsFirstBest(b1, m) && (g, sent) == SettleAgainstComputer(g0, b1[m := g0.mode.aiSymbol], Some(m), ws);
      assert b1[m] == Empty && g.board == b1[m := g0.mode.aiSymbol];
    }
  }

  /** The rest of a move against the computer, on the game's values: the
      board b1 holds the player's move; unless it decides the game, the
      computer answers in the cell the search picks; the game is then
      settled and the player told. */
  method ComputerTurn(g0: Game, b1: Board, ws: Conn) returns (g: Game, sent: Message)
    requires g0.mode.Ai? && g0.winner.None? && g0.status != Finished
    ensures g.id == g0.id && g.mode == g0.mode && g.players == g0.players && g.currentTurn == g0.currentTurn
    ensures g.status == Finished || g.status == g0.status
    ensures g.winner.Some? ==> g.status == Finished && CheckWinner(g.board) == g.winner
    ensures g.status == Finished && g.winner.None? ==> IsBoardFull(g.board)
    ensures ComputerAnswers(g0, b1, ws, g, sent)
  {
    if CheckWinner(b1).Some? || IsBoardFull(b1) {
      var r := SettleAgainstComputer(g0, b1, None, ws);
      g, sent := r.0, r.1;
    } else {
      var m := GetAIMove(b1);
      var r := SettleAgainstComputer(g0, b1[m := g0.mode.aiSymbol], Some(m), ws);
      g, sent := r.0, r.1;
      assert IsFirstBest(b1, m) && (g, sent) == r;
    }
  }

  class Registry {
    var games: map<GameId, Game>
    /** The keys of `games` in insertion order, the order in which the
        server's Map iterates them. */
    var order: seq<GameId>
    var gameIdCounter: nat
    /** `ws.gameId`: the game each connection last created or joined. */
    var gameOf: map<Conn, GameId>
    var outbox: seq<Message>

    ghost predicate Valid()
      reads this
    {
      Inv(games, order, gameIdCounter)
    }

    /** The empty registry; the counter starts at 1. */
    constructor ()
      ensures Valid()
      ensures games == map[] && order == [] && gameIdCounter == 1 && gameOf == map[] && outbox == []
    {
      games := map[];
      order := [];
      gameIdCounter := 1;
      gameOf := map[];
      outbox := [];
    }

    /** The scan of `handleJoinGame` over the games in insertion order: the
        first game that is open, if any. */
    method FindOpenGame() returns (found: Option<GameId>)
      requires forall id :: id in order <==> id in games
      ensures found.None? <==> !HasOpen(games)
      ensures found.Some? ==> found.value in games && IsOpen(games[found.value])
      ensures found.Some? ==>
        exists k :: 0 <= k < |order| && order[k] == found.value
                    && forall j :: 0 <= j < k ==> !IsOpen(games[order[j]])
    {
      var i := 0;
      while i < |order|
        invariant 0 <= i <= |order|
        invariant forall j :: 0 <= j < i ==> !IsOpen(games[order[j]])
      {
        var g := games[order[i]];
        if g.mode.Multiplayer? && |g.players| == 1 && g.status == Waiting {
          return Some(order[i]);
        }
        i := i + 1;
      }
      forall id | id in games
        ensures !IsOpen(games[id])
      {
        var k :| 0 <= k < |order| && order[k] == id;
      }
      return None;
    }

    /** `handleJoinGame`: for mode "multiplayer", attach to the open game
        if there is one (the joiner keeps the symbol it asked for and
        overwrites the shared slot), otherwise create `game_N` from the
        counter and wait.  Any other mode does nothing. */
    method JoinGame(ws: Conn, symbol: Cell, mode: string)
      requires Valid()
      modifies this
      ensures Valid()
      ensures mode != "multiplayer" ==>
        games == old(games) && order == old(order) && gameIdCounter == old(gameIdCounter)
        && gameOf == old(gameOf) && outbox == old(outbox)
      ensures mode == "multiplayer" && !HasOpen(old(games)) ==>
        var id := MultiId(old(gameIdCounter));
        && id !in old(games)
        && games == old(games)[id := Game(id, Multiplayer(symbol), [ws], NewBoard(), O, Waiting, None)]
        && order == old(order) + [id]
        && gameIdCounter == old(gameIdCounter) + 1
        && gameOf == old(gameOf)[ws := id]
        && outbox == old(outbox) + [Message(ws, GameCreated(id, symbol, NewBoard()))]
      ensures mode == "multiplayer" ==>
        forall id :: id in old(games) && IsOpen(old(games)[id]) ==>
          var g := old(games)[id];
          && games == old(games)[id := g.(players := g.players + [ws], mode := Multiplayer(symbol), status := Playing)]
          && order == old(order)
          && gameIdCounter == old(gameIdCounter)
          && gameOf == old(gameOf)[ws := id]
          && outbox == old(outbox) + [
               Message(g.players[0], OpponentJoined(id, g.mode.symbolSlot, symbol, g.board, O)),
               Message(ws, GameJoined(id, symbol, g.mode.symbolSlot, g.board, O))]
    {
      if mode != "multiplayer" {
        return;
      }
      var found := FindOpenGame();
      if found.None? {
        CreateWaitingGame(ws, symbol);
      } else {
        AttachToOpenGame(ws, symbol, found.value);
      }
    }

    /** The creating branch of `handleJoinGame`: store `game_N` with the
        joiner as its only player, advance the counter and tell the joiner
        to wait. */
    method CreateWaitingGame(ws: Conn, symbol: Cell)
      requires Valid() && !HasOpen(games)
      modifies this
      ensures Valid()
      ensures
        var id := MultiId(old(gameIdCounter));
        && id !in old(games)
        && games == old(games)[id := Game(id, Multiplayer(symbol), [ws], NewBoard(), O, Waiting, None)]
        && order == old(order) + [id]
        && gameIdCounter == old(gameIdCounter) + 1
        && gameOf == old(gameOf)[ws := id]
        && outbox == old(outbox) + [Message(ws, GameCreated(id, symbol, NewBoard()))]
    {
      var id := MultiId(gameIdCounter);
      var g := Game(id, Multiplayer(symbol), [ws], NewBoard(), O, Waiting, None);
      NewBoardCount();
      AddKeepsInv(games, order, gameIdCounter, g);
      gameIdCounter := gameIdCounter + 1;
      games := games[id := g];
      order := order + [id];
      gameOf := gameOf[ws := id];
      outbox := outbox + [Message(ws, GameCreated(id, symbol, NewBoard()))];
    }

    /** The joining branch of `handleJoinGame`: the joiner becomes the
        second player of the open game, writes its symbol into the shared
        slot and starts the game; the waiting player is told first, then
        the joiner. */
    method AttachToOpenGame(ws: Conn, symbol: Cell, id: GameId)
      requires Valid() && id in games && IsOpen(games[id])
      modifies this
      ensures Valid()
      ensures
        var g := old(games)[id];
        && games == old(games)[id := g.(players := g.players + [ws], mode := Multiplayer(symbol), status := Playing)]
        && order == old(order)
        && gameIdCounter == old(gameIdCounter)
        && gameOf == old(gameOf)[ws := id]
        && outbox == old(outbox) + [
             Message(g.players[0], OpponentJoined(id, g.mode.symbolSlot, symbol, g.board, O)),
             Message(ws, GameJoined(id, symbol, g.mode.symbolSlot, g.board, O))]
    {
      var g := games[id];
      var opponent := g.players[0];
      var opponentSymbol := g.mode.symbolSlot;
      g := g.(players := g.players + [ws], mode := Multiplayer(symbol), status := Playing);
      ReplaceKeepsInv(games, order, gameIdCounter, id, g);
      games := games[id := g];
      outbox := outbox + [Message(opponent, OpponentJoined(id, opponentSymbol, symbol, g.board, O))];
      gameOf := gameOf[ws := id];
      outbox := outbox + [Message(ws, GameJoined(id, symbol, opponentSymbol, g.board, O))];
    }

    /** `handleJoinAI`: always create `game_ai_N` from the counter; the
        computer takes "X" unless the player asked for anything but "O". */
    method JoinAI(ws: Conn, symbol: Cell)
      requires Valid()
      modifies this
      ensures Valid()
      ensures
        var id := AiId(old(gameIdCounter));
        var aiSymbol := if symbol == O then X else O;
        && id !in old(games)
        && games == old(games)[id := Game(id, Ai(symbol, aiSymbol), [ws], NewBoard(), O, Playing, None)]
        && order == old(order) + [id]
        && gameIdCounter == old(gameIdCounter) + 1
        && gameOf == old(gameOf)[ws := id]
        && outbox == old(outbox) + [Message(ws, AiGameStarted(id, symbol, aiSymbol, NewBoard(), O))]
    {
      var id := AiId(gameIdCounter);
      var aiSymbol := if symbol == O then X else O;
      var g := Game(id, Ai(symbol, aiSymbol), [ws], NewBoard(), O, Playing, None);
      AddKeepsInv(games, order, gameIdCounter, g);
      gameIdCounter := gameIdCounter + 1;
      games := games[id := g];
      order := order + [id];
      gameOf := gameOf[ws := id];
      outbox := outbox + [Message(ws, AiGameStarted(id, symbol, aiSymbol, NewBoard(), O))];
    }

    /** `handlePlayMove`: an ignored move changes nothing, and in particular
        a finished game never changes; an accepted move takes a step of its
        game's mode.  The registry's ids, order and counter never change. */
    method PlayMove(ws: Conn, gameId: GameId, position: int)
      requires Valid()
      modifies this
      ensures Valid()
      ensures order == old(order) && gameIdCounter == old(gameIdCounter) && gameOf == old(gameOf)
      ensures MoveIgnored(old(games), gameId, position) ==> games == old(games) && outbox == old(outbox)
      ensures gameId in old(games) && old(games)[gameId].status == Finished ==>
        games == old(games) && outbox == old(outbox)
      ensures !MoveIgnored(old(games), gameId, position) && old(games)[gameId].mode.Multiplayer? ==>
        TwoPlayerStep(old(games), old(outbox), gameId, position, games, outbox)
      ensures !MoveIgnored(old(games), gameId, position) && old(games)[gameId].mode.Ai? ==>
        ComputerStep(old(games), old(outbox), ws, gameId, position, games, outbox)
    {
      if gameId in games && games[gameId].status == Finished {
        FinishedGameIgnoresMoves(games, gameId, position, gameIdCounter);
      }
      if MoveIgnored(games, gameId, position) {
        return;
      }
      if games[gameId].mode.Multiplayer? {
        PlayTwoPlayer(gameId, position);
      } else {
        PlayAgainstComputer(ws, gameId, position);
      }
    }

    /** The two-player branch of `handlePlayMove`, once the move is
        accepted. */
    method PlayTwoPlayer(gameId: GameId, position: int)
      requires Valid()
      requires !MoveIgnored(games, gameId, position) && games[gameId].mode.Multiplayer?
      modifies this
      ensures Valid()
      ensures order == old(order) && gameIdCounter == old(gameIdCounter) && gameOf == old(gameOf)
      ensures TwoPlayerStep(old(games), old(outbox), gameId, position, games, outbox)
    {
      var g := games[gameId];
      var playerSymbol := g.mode.symbolSlot;
      FillOne(g.board, position, playerSymbol);
      g := g.(board := g.board[position := playerSymbol]);
      FewTakenUndecided(g.board);
      var winner := CheckWinner(g.board);
      var sent;
      if winner.Some? {
        g := g.(winner := winner, status := Finished);
        sent := Broadcast(g.players, GameEnd(g.board, winner));
      } else if IsBoardFull(g.board) {
        g := g.(status := Finished);
        sent := Broadcast(g.players, GameEnd(g.board, None));
      } else {
        g := g.(currentTurn := Flip(g.currentTurn));
        sent := Broadcast(g.players, MoveMade(g.board, g.currentTurn, Some(position), None));
      }
      outbox := outbox + sent;
      assert GameOk(gameId, g, gameIdCounter);
      ReplaceKeepsInv(games, order, gameIdCounter, gameId, g);
      games := games[gameId := g];
    }

    /** The branch of `handlePlayMove` for a game against the computer, once
        the move is accepted. */
    method PlayAgainstComputer(ws: Conn, gameId: GameId, position: int)
      requires Valid()
      requires !MoveIgnored(games, gameId, position) && games[gameId].mode.Ai?
      modifies this
      ensures Valid()
      ensures order == old(order) && gameIdCounter == old(gameIdCounter) && gameOf == old(gameOf)
      ensures ComputerStep(old(games), old(outbox), ws, gameId, position, games, outbox)
    {
      var g0 := games[gameId];
      if g0.status == Finished {
        FinishedGameIgnoresMoves(games, gameId, position, gameIdCounter);
      }
      var b1 := g0.board[position := g0.mode.playerSymbol];
      var g, sent := ComputerTurn(g0, b1, ws);
      assert GameOk(gameId, g0, gameIdCounter);
      assert GameOk(gameId, g, gameIdCounter);
      ReplaceKeepsInv(games, order, gameIdCounter, gameId, g);
      ComputerAnswerIsStep(games, outbox, ws, gameId, position, g, sent);
      games := games[gameId := g];
      outbox := outbox + [sent];
    }

    /** `handleRematch`: reset the board, the turn ("O"), the winner and the
        status ("playing", whatever it was) of a known game; the id, mode,
        players and symbols stay.  Two-player games tell every player, games
        against the computer answer the requesting connection. */
    method Rematch(ws: Conn, gameId: GameId)
      requires Valid()
      modifies this
      ensures Valid()
      ensures order == old(order) && gameIdCounter == old(gameIdCounter) && gameOf == old(gameOf)
      ensures gameId !in old(games) ==> games == old(games) && outbox == old(outbox)
      ensures gameId in old(games) ==>
        var g0 := old(games)[gameId];
        && games == old(games)[gameId := g0.(board := NewBoard(), currentTurn := O, winner := None, status := Playing)]
        && outbox == old(outbox) +
             (if g0.mode.Multiplayer? then Broadcast(g0.players, RematchStarted(NewBoard(), O))
              else [Message(ws, RematchStarted(NewBoard(), O))])
    {
      if gameId !in games {
        return;
      }
      var g := games[gameId];
      g := g.(board := NewBoard(), currentTurn := O, winner := None, status := Playing);
      NewBoardCount();
      ReplaceKeepsInv(games, order, gameIdCounter, gameId, g);
      games := games[gameId := g];
      if g.mode.Multiplayer? {
        outbox := outbox + Broadcast(g.players, RematchStarted(g.board, g.currentTurn));
      } else {
        outbox := outbox + [Message(ws, RematchStarted(g.board, g.currentTurn))];
      }
    }

    /** `handleClientDisconnect`: if the connection's last game is a known
        two-player game, tell the first other player and delete the game,
        finished or not.  Games against the computer are never deleted. */
    method Disconnect(ws: Conn)
      requires Valid()
      modifies this
      ensures Valid()
      ensures gameIdCounter == old(gameIdCounter) && gameOf == old(gameOf)
      ensures !(ws in old(gameOf) && old(gameOf)[ws] in old(games) && old(games)[old(gameOf)[ws]].mode.Multiplayer?) ==>
        games == old(games) && order == old(order) && outbox == old(outbox)
      ensures ws in old(gameOf) && old(gameOf)[ws] in old(games) && old(games)[old(gameOf)[ws]].mode.Multiplayer? ==>
        var id := old(gameOf)[ws];
        && games == old(games) - {id}
        && order == Without(old(order), id)
        && outbox == old(outbox) +
             (match FindOther(old(games)[id].players, ws)
              case Some(p) => [Message(p, OpponentDisconnected)]
              case None => [])
    {
      if ws in gameOf {
        var id := gameOf[ws];
        if id in games && games[id].mode.Multiplayer? {
          var opponent := FindOther(games[id].players, ws);
          if opponent.Some? {
            outbox := outbox + [Message(opponent.value, OpponentDisconnected)];
          }
          RemoveKeepsInv(games, order, gameIdCounter, id);
          games := games - {id};
          order := Without(order, id);
        }
      }
    }
  }
}
