/** `game.py`: the game state, the end-of-game check and the successor transition. */
module Game {
  import opened Wrappers
  import opened Layouts
  import opened Rules
  import opened Agents

  /** `GameStateData`: the layout and the agents, Mr X at index 0 and the cops after him. */
  datatype GameState = GameState(layout: Layout, agents: seq<Agent>)

  /** What `GameStateData.__init__` asserts. */
  predicate Valid(g: GameState) {
    |g.agents| >= 2
  }

  /** `GameStateData.__init__`: fewer than two agents is refused. */
  function NewGameState(layout: Layout, agents: seq<Agent>): (r: Result<GameState>)
    ensures r.Ok? <==> |agents| >= 2
    ensures r.Ok? ==> Valid(r.value) && r.value.layout == layout && r.value.agents == agents
    ensures r.Err? ==> r.error == AssertionError
  {
    if |agents| < 2 then Err(AssertionError) else Ok(GameState(layout, agents))
  }

  /** `getNumMoves`: the number of moves Mr X has made. */
  function NumMoves(g: GameState): nat
    requires Valid(g)
  {
    |g.agents[0].state.history|
  }

  /** `numberOfCops`: every agent but Mr X. */
  function NumberOfCops(g: GameState): (r: nat)
    requires Valid(g)
    ensures r >= 1 && r + 1 == |g.agents|
  {
    |g.agents| - 1
  }

  /** `getAgent`: the index must lie inside the agent list. */
  function GetAgent(g: GameState, index: int): (r: Result<Agent>)
    ensures r.Ok? <==> 0 <= index < |g.agents|
    ensures r.Ok? ==> r.value == g.agents[index]
    ensures r.Err? ==> r.error == AssertionError
  {
    if 0 <= index < |g.agents| then Ok(g.agents[index]) else Err(AssertionError)
  }

  /** `getCopPosition()`: the nodes of cops 1..numberOfCops, in index order. */
  function CopPositions(g: GameState): (r: seq<int>)
    requires Valid(g)
    ensures |r| == NumberOfCops(g)
    ensures forall i :: 0 <= i < |r| ==> r[i] == g.agents[i + 1].state.position
  {
    seq(|g.agents| - 1, i requires 0 <= i < |g.agents| - 1 => g.agents[i + 1].state.position)
  }

  /** `Rules.getLegalActions` for the agent at `index` in this state. */
  function LegalActionsOf(g: GameState, index: int): seq<Action>
    requires Valid(g) && 0 <= index < |g.agents|
  {
    var s := g.agents[index].state;
    LegalActions(s.position, s.tickets, g.layout.edges, CopPositions(g))
  }

  /** `getLegalCopActions`. */
  function LegalCopActions(g: GameState, cop: int): (r: seq<Action>)
    requires Valid(g) && 1 <= cop <= NumberOfCops(g)
    ensures forall a :: a in r <==> LegalMove(a, g.agents[cop].state.position, g.agents[cop].state.tickets,
                                              g.layout.edges, CopPositions(g))
  {
    var s := g.agents[cop].state;
    assert forall a :: a in LegalActionsOf(g, cop) <==> IsLegalAction(a, s.position, s.tickets, g.layout.edges, CopPositions(g));
    LegalActionsOf(g, cop)
  }

  /** `list.index`: the first position of `x` in `s`. */
  function FirstIndex(s: seq<int>, x: int): (r: nat)
    requires x in s
    ensures r < |s| && s[r] == x && x !in s[..r]
    decreases |s|
  {
    if s[0] == x then 0 else assert s[1..][..FirstIndex(s[1..], x)] == s[1..FirstIndex(s[1..], x) + 1]; 1 + FirstIndex(s[1..], x)
  }

  /** Why a game ended; `Caught` names the cop (1-based) standing on Mr X. */
  datatype Reason = Caught(cop: nat) | MoveLimit | MrXCannotMove | CopsCannotMove

  /** The triple returned by `isEndState`: `Ongoing` is `(False, None, "")`. */
  datatype Outcome = Ongoing | Over(winner: Role, reason: Reason)

  /** Mr X stands on a cop's node. */
  predicate MrXCaught(g: GameState)
    requires Valid(g)
  {
    g.agents[0].state.position in CopPositions(g)
  }

  /** Some cop has a legal move. */
  predicate CopsCanMove(g: GameState)
    requires Valid(g)
  {
    exists i :: 1 <= i < |g.agents| && LegalActionsOf(g, i) != []
  }

  /** `GameState.isEndState(turn)` with the move limit as a parameter. The checks
      come in a fixed order: capture (whatever the turn), the move limit on Mr X's
      turn, Mr X without a move on his turn, then on a cop turn whether any cop
      can move. */
  function IsEndState(g: GameState, turn: Role, maxMoves: int): (r: Outcome)
    requires Valid(g)
    ensures (r.Over? && r.reason.Caught?) <==> MrXCaught(g)
    ensures r.Over? && r.reason.Caught? ==> r.winner == Cop && 1 <= r.reason.cop <= NumberOfCops(g)
    ensures r.Over? && r.reason.Caught? ==> g.agents[r.reason.cop].state.position == g.agents[0].state.position
    ensures r.Over? && r.reason.Caught? ==>
              forall j :: 1 <= j < r.reason.cop ==> g.agents[j].state.position != g.agents[0].state.position
    ensures r == Over(MrX, MoveLimit) <==> !MrXCaught(g) && turn == MrX && NumMoves(g) == maxMoves
    ensures r == Over(Cop, MrXCannotMove) <==>
              !MrXCaught(g) && turn == MrX && NumMoves(g) != maxMoves && LegalActionsOf(g, 0) == []
    ensures r == Over(MrX, CopsCannotMove) <==> !MrXCaught(g) && turn == Cop && !CopsCanMove(g)
    ensures r == Ongoing <==>
              !MrXCaught(g) &&
              (turn == MrX ==> NumMoves(g) != maxMoves && LegalActionsOf(g, 0) != []) &&
              (turn == Cop ==> CopsCanMove(g))
  {
    var mrX := g.agents[0].state.position;
    var cops := CopPositions(g);
    if mrX in cops then
      var c := FirstIndex(cops, mrX);
      assert forall j :: 1 <= j < c + 1 ==> cops[..c][j - 1] == g.agents[j].state.position;
      Over(Cop, Caught(c + 1))
    else if NumMoves(g) == maxMoves && turn == MrX then
      Over(MrX, MoveLimit)
    else if |LegalActionsOf(g, 0)| == 0 && turn == MrX then
      Over(Cop, MrXCannotMove)
    else if turn == Cop then
      if CopsCanMove(g) then Ongoing else Over(MrX, CopsCannotMove)
    else
      Ongoing
  }

  /** A capture is reported the same way whoever's turn it is. */
  lemma CaptureIgnoresTurn(g: GameState, maxMoves: int)
    requires Valid(g)
    requires MrXCaught(g)
    ensures IsEndState(g, MrX, maxMoves) == IsEndState(g, Cop, maxMoves)
  {
    var a, b := IsEndState(g, MrX, maxMoves), IsEndState(g, Cop, maxMoves);
    assert a.reason.cop == b.reason.cop by {
      FirstCaptorUnique(g, a.reason.cop, b.reason.cop);
    }
  }

  lemma FirstCaptorUnique(g: GameState, c: int, d: int)
    requires Valid(g)
    requires 1 <= c < |g.agents| && g.agents[c].state.position == g.agents[0].state.position
    requires forall j :: 1 <= j < c ==> g.agents[j].state.position != g.agents[0].state.position
    requires 1 <= d < |g.agents| && g.agents[d].state.position == g.agents[0].state.position
    requires forall j :: 1 <= j < d ==> g.agents[j].state.position != g.agents[0].state.position
    ensures c == d
  {
  }

  /** Who wins: the cops exactly when Mr X is caught or, on his turn and before the
      limit, has no move; Mr X on the limit or when no cop can move. */
  lemma Winners(g: GameState, turn: Role, maxMoves: int)
    requires Valid(g)
    ensures var r := IsEndState(g, turn, maxMoves); r.Over? && r.winner == Cop <==>
              MrXCaught(g) || (turn == MrX && NumMoves(g) != maxMoves && LegalActionsOf(g, 0) == [])
    ensures var r := IsEndState(g, turn, maxMoves); r.Over? && r.winner == MrX <==>
              !MrXCaught(g) && ((turn == MrX && NumMoves(g) == maxMoves) || (turn == Cop && !CopsCanMove(g)))
  {
  }

  /** The role whose turn it is when the agent at `index` moves. */
  function TurnOf(index: int): Role {
    if index == 0 then MrX else Cop
  }

  /** `GameState.generateSuccessor`: refused on a finished game (for the mover's
      role) and for an index outside the agent list; an illegal action raises;
      otherwise the mover performs the action and nobody else changes. */
  function GenerateSuccessor(g: GameState, index: int, a: Action, maxMoves: int, notHidden: seq<int>): (r: Result<GameState>)
    requires Valid(g)
    ensures r.Ok? <==> IsEndState(g, TurnOf(index), maxMoves) == Ongoing && 0 <= index < |g.agents| &&
                       LegalMove(a, g.agents[index].state.position, g.agents[index].state.tickets,
                                 g.layout.edges, CopPositions(g))
    ensures r.Err? && (IsEndState(g, TurnOf(index), maxMoves).Over? || !(0 <= index < |g.agents|)) ==>
              r.error == AssertionError
    ensures r.Err? && IsEndState(g, TurnOf(index), maxMoves) == Ongoing && 0 <= index < |g.agents| ==>
              r.error == IllegalAction
    ensures r.Ok? ==> Valid(r.value) && r.value.layout == g.layout && |r.value.agents| == |g.agents|
    ensures r.Ok? ==> forall j :: 0 <= j < |g.agents| && j != index ==> r.value.agents[j] == g.agents[j]
    ensures r.Ok? ==> PerformAction(g.agents[index], a, notHidden) == Ok(r.value.agents[index])
  {
    if IsEndState(g, TurnOf(index), maxMoves).Over? then
      Err(AssertionError)
    else if !(0 <= index < |g.agents|) then
      Err(AssertionError)
    else
      var mover := g.agents[index];
      if !IsLegalAction(a, mover.state.position, mover.state.tickets, g.layout.edges, CopPositions(g)) then
        Err(IllegalAction)
      else
        var moved := PerformAction(mover, a, notHidden);
        Ok(GameState(g.layout, g.agents[index := moved.value]))
  }

  /** `getNumMoves` counts Mr X's moves only. */
  lemma SuccessorCountsMrXMoves(g: GameState, index: int, a: Action, maxMoves: int, notHidden: seq<int>)
    requires Valid(g)
    requires GenerateSuccessor(g, index, a, maxMoves, notHidden).Ok?
    ensures NumMoves(GenerateSuccessor(g, index, a, maxMoves, notHidden).value) ==
              NumMoves(g) + (if index == 0 then 1 else 0)
  {
  }

  /** Mr X never moves onto a cop. */
  lemma MrXMoveNotCaught(g: GameState, a: Action, maxMoves: int, notHidden: seq<int>)
    requires Valid(g)
    requires GenerateSuccessor(g, 0, a, maxMoves, notHidden).Ok?
    ensures !MrXCaught(GenerateSuccessor(g, 0, a, maxMoves, notHidden).value)
  {
    var g' := GenerateSuccessor(g, 0, a, maxMoves, notHidden).value;
    assert CopPositions(g') == CopPositions(g);
  }

  /** No two cops share a node. */
  predicate CopsApart(g: GameState)
    requires Valid(g)
  {
    forall i, j :: 1 <= i < j < |g.agents| ==> g.agents[i].state.position != g.agents[j].state.position
  }

  /** A cop never moves onto another cop, so cops that start apart stay apart. */
  lemma SuccessorKeepsCopsApart(g: GameState, index: int, a: Action, maxMoves: int, notHidden: seq<int>)
    requires Valid(g) && CopsApart(g)
    requires GenerateSuccessor(g, index, a, maxMoves, notHidden).Ok?
    ensures CopsApart(GenerateSuccessor(g, index, a, maxMoves, notHidden).value)
  {
    var g' := GenerateSuccessor(g, index, a, maxMoves, notHidden).value;
    var cops := CopPositions(g);
    forall i, j | 1 <= i < j < |g.agents|
      ensures g'.agents[i].state.position != g'.agents[j].state.position
    {
      if i == index {
        assert cops[j - 1] == g.agents[j].state.position;
      } else if j == index {
        assert cops[i - 1] == g.agents[i].state.position;
      }
    }
  }

  /** The game-wide invariant: every agent sits at its own index with the right
      role and a consistent reveal map, and ticket counts are never negative. */
  ghost predicate WellFormed(g: GameState, notHidden: seq<int>) {
    Valid(g) && Consistent(g.layout) &&
    forall i :: 0 <= i < |g.agents| ==>
      g.agents[i].index == i && ValidAgent(g.agents[i], notHidden) && NonNegativeTickets(g.agents[i].state.tickets)
  }

  lemma SuccessorWellFormed(g: GameState, index: int, a: Action, maxMoves: int, notHidden: seq<int>)
    requires WellFormed(g, notHidden)
    requires GenerateSuccessor(g, index, a, maxMoves, notHidden).Ok?
    ensures WellFormed(GenerateSuccessor(g, index, a, maxMoves, notHidden).value, notHidden)
  {
    PerformKeepsValid(g.agents[index], a, notHidden);
    PerformKeepsTicketsNonNegative(g.agents[index], a, notHidden);
  }

  /** `GameStateData.deepCopy`: every agent copied by its own class's `deepCopy`. */
  function DeepCopyState(g: GameState, notHidden: seq<int>): (r: GameState)
    ensures r.layout == g.layout && |r.agents| == |g.agents|
  {
    GameState(g.layout, seq(|g.agents|, i requires 0 <= i < |g.agents| => DeepCopy(g.agents[i], notHidden)))
  }

  /** Copying a well-formed state gives an equal state. */
  lemma DeepCopyStateEqual(g: GameState, notHidden: seq<int>)
    requires WellFormed(g, notHidden)
    ensures DeepCopyState(g, notHidden) == g
  {
    var r := DeepCopyState(g, notHidden);
    forall i | 0 <= i < |g.agents|
      ensures r.agents[i] == g.agents[i]
    {
      DeepCopyEqual(g.agents[i], notHidden);
    }
  }

  /** `generateSuccessor` moves a deep copy of the state. On a well-formed state
      moving the state itself gives the same successor, so the model skips the copy. */
  lemma SuccessorOfCopy(g: GameState, index: int, a: Action, maxMoves: int, notHidden: seq<int>)
    requires WellFormed(g, notHidden)
    ensures Valid(DeepCopyState(g, notHidden))
    ensures GenerateSuccessor(DeepCopyState(g, notHidden), index, a, maxMoves, notHidden) ==
            GenerateSuccessor(g, index, a, maxMoves, notHidden)
  {
    DeepCopyStateEqual(g, notHidden);
  }

  /** `getMrXEvidences`: the tickets Mr X has used, in order, and his revealed nodes. */
  function MrXEvidences(g: GameState): (r: (seq<string>, map<int, int>))
    requires Valid(g)
    ensures |r.0| == NumMoves(g)
    ensures forall i :: 0 <= i < |r.0| ==> r.0[i] == g.agents[0].state.history[i].ticket
    ensures r.1 == g.agents[0].revealed
  {
    var h := g.agents[0].state.history;
    (seq(|h|, i requires 0 <= i < |h| => h[i].ticket), g.agents[0].revealed)
  }

  /** Each move of Mr X adds exactly its ticket to the evidence. */
  lemma EvidenceGrows(g: GameState, a: Action, maxMoves: int, notHidden: seq<int>)
    requires Valid(g)
    requires GenerateSuccessor(g, 0, a, maxMoves, notHidden).Ok?
    ensures MrXEvidences(GenerateSuccessor(g, 0, a, maxMoves, notHidden).value).0 == MrXEvidences(g).0 + [a.ticket]
  {
  }
}
