/** `agents.py`: the state every agent carries and how performing an action changes it. */
module Agents {
  import opened Wrappers
  import opened Rules

  /** `AgentRole`. */
  datatype Role = MrX | Cop

  /** `AgentState`: current node, ticket counts and the actions taken so far. */
  datatype AgentState = AgentState(position: int, tickets: TicketBook, history: seq<Action>)

  /** `AgentState(ticketDict, initialPosition)` with the default empty history. */
  function NewAgentState(tickets: TicketBook, position: int): (r: AgentState)
    ensures r.position == position && r.tickets == tickets && |r.history| == 0
  {
    AgentState(position, tickets, [])
  }

  /** `AgentState.addMoveToHistory`: the action must leave from the current node;
      it is appended and the agent moves to its end. */
  function AddMoveToHistory(s: AgentState, a: Action): (r: Result<AgentState>)
    ensures r.Ok? <==> a.start == s.position
    ensures r.Err? ==> r.error == AssertionError
    ensures r.Ok? ==> r.value.position == a.end && r.value.tickets == s.tickets
    ensures r.Ok? ==> |r.value.history| == |s.history| + 1 && r.value.history[..|s.history|] == s.history
                      && r.value.history[|s.history|] == a
  {
    if a.start != s.position then Err(AssertionError) else Ok(AgentState(a.end, s.tickets, s.history + [a]))
  }

  /** The history is a walk from `origin` that ends where the agent stands. */
  predicate Walk(origin: int, history: seq<Action>, position: int)
    decreases |history|
  {
    if |history| == 0 then origin == position
    else history[0].start == origin && Walk(history[0].end, history[1..], position)
  }

  lemma {:induction false} WalkExtend(origin: int, history: seq<Action>, position: int, a: Action)
    requires Walk(origin, history, position) && a.start == position
    ensures Walk(origin, history + [a], a.end)
    decreases |history|
  {
    if |history| > 0 {
      WalkExtend(history[0].end, history[1..], position, a);
      assert (history + [a])[1..] == history[1..] + [a];
    }
  }

  /** Recording moves keeps the history a connected walk from the start node. */
  lemma AddMoveKeepsWalk(s: AgentState, a: Action, origin: int)
    requires Walk(origin, s.history, s.position)
    ensures AddMoveToHistory(s, a).Ok? ==> Walk(origin, AddMoveToHistory(s, a).value.history, AddMoveToHistory(s, a).value.position)
  {
    if a.start == s.position {
      WalkExtend(origin, s.history, s.position, a);
    }
  }

  /** An agent: its index in the game, role, state and (for Mr X) the map from
      revealed move numbers to the node he was seen on. */
  datatype Agent = Agent(index: int, role: Role, state: AgentState, revealed: map<int, int>)

  /** The index/role rule of `Agent.__init__`. */
  predicate RoleFits(index: int, role: Role) {
    (index == 0 && role == MrX) || (index > 0 && role == Cop)
  }

  /** `Agent.__init__`: a negative index, Mr X off index 0 or a cop on index 0 is refused. */
  function NewAgent(index: int, role: Role, state: AgentState): (r: Result<Agent>)
    ensures r.Ok? <==> RoleFits(index, role)
    ensures r.Err? ==> r.error == AssertionError
    ensures r.Ok? ==> r.value.index == index && r.value.role == role && r.value.state == state
    ensures r.Ok? ==> r.value.revealed == map[]
  {
    if index < 0 then Err(AssertionError)
    else if index == 0 && role != MrX then Err(AssertionError)
    else if index > 0 && role != Cop then Err(AssertionError)
    else Ok(Agent(index, role, state, map[]))
  }

  /** The loop in `MrX.__init__` over the history: move `i + 1` is revealed
      (at the end of its action) when it is one of the not-hidden move numbers. */
  function Reveals(history: seq<Action>, notHidden: seq<int>): (r: map<int, int>)
    ensures forall k :: k in r <==> 1 <= k <= |history| && k in notHidden
    ensures forall k :: k in r ==> r[k] == history[k - 1].end
    decreases |history|
  {
    if |history| == 0 then
      map[]
    else
      var n := |history|;
      var earlier := Reveals(history[..n - 1], notHidden);
      if n in notHidden then earlier[n := history[n - 1].end] else earlier
  }

  /** `MrX(agentState)`: index 0 with the reveal map rebuilt from the history. */
  function NewMrX(state: AgentState, notHidden: seq<int>): (r: Agent)
    ensures r.index == 0 && r.role == MrX && r.state == state
    ensures forall k :: k in r.revealed <==> 1 <= k <= |state.history| && k in notHidden
    ensures forall k :: k in r.revealed ==> r.revealed[k] == state.history[k - 1].end
  {
    Agent(0, MrX, state, Reveals(state.history, notHidden))
  }

  /** `Cop(index, agentState)`: accepted only for a positive index. */
  function NewCop(index: int, state: AgentState): (r: Result<Agent>)
    ensures r.Ok? <==> index > 0
    ensures r.Ok? ==> r.value.index == index && r.value.role == Cop && r.value.state == state
    ensures r.Err? ==> r.error == AssertionError
  {
    NewAgent(index, Cop, state)
  }

  /** `Agent.performAction`, followed for Mr X by `MrX.performAction`: the ticket
      must be held, one of it is spent, the move is recorded, and Mr X's new node
      is revealed when the new move number is a not-hidden one. */
  function PerformAction(agent: Agent, a: Action, notHidden: seq<int>): (r: Result<Agent>)
    ensures r.Ok? <==> CanPay(agent.state.tickets, a.ticket) && a.start == agent.state.position
    ensures r.Err? ==> r.error == AssertionError
    ensures r.Ok? ==> r.value.index == agent.index && r.value.role == agent.role
    ensures r.Ok? ==> r.value.state.position == a.end && r.value.state.history == agent.state.history + [a]
    ensures r.Ok? ==> r.value.state.tickets.Keys == agent.state.tickets.Keys
    ensures r.Ok? ==> r.value.state.tickets[a.ticket] == agent.state.tickets[a.ticket] - 1
    ensures r.Ok? ==> forall t :: t in agent.state.tickets && t != a.ticket ==>
                        r.value.state.tickets[t] == agent.state.tickets[t]
    ensures r.Ok? ==> var k := |agent.state.history| + 1;
                      if agent.role == MrX && k in notHidden then r.value.revealed == agent.revealed[k := a.end]
                      else r.value.revealed == agent.revealed
  {
    var tickets := agent.state.tickets;
    if !CanPay(tickets, a.ticket) then
      Err(AssertionError)
    else
      var paid := agent.state.(tickets := tickets[a.ticket := tickets[a.ticket] - 1]);
      var moved :- AddMoveToHistory(paid, a);
      assert moved.history == agent.state.history + [a];
      var current := |moved.history|;
      var revealed := if agent.role == MrX && current in notHidden then agent.revealed[current := moved.position]
                      else agent.revealed;
      Ok(agent.(state := moved, revealed := revealed))
  }

  /** How many actions of the history were paid with ticket `t`. */
  function Uses(history: seq<Action>, t: string): (r: nat)
    ensures r <= |history|
    decreases |history|
  {
    if |history| == 0 then 0
    else Uses(history[..|history| - 1], t) + (if history[|history| - 1].ticket == t then 1 else 0)
  }

  /** Conservation: for every ticket, the count held plus the count used so far
      is the same before and after an action. */
  lemma PerformConserves(agent: Agent, a: Action, notHidden: seq<int>, t: string)
    requires PerformAction(agent, a, notHidden).Ok?
    requires t in agent.state.tickets
    ensures var after := PerformAction(agent, a, notHidden).value.state;
            after.tickets[t] + Uses(after.history, t) == agent.state.tickets[t] + Uses(agent.state.history, t)
  {
    var after := PerformAction(agent, a, notHidden).value.state;
    assert after.history[..|after.history| - 1] == agent.state.history;
  }

  predicate NonNegativeTickets(tickets: TicketBook) {
    forall t :: t in tickets ==> tickets[t] >= 0
  }

  /** Ticket counts never go below zero. */
  lemma PerformKeepsTicketsNonNegative(agent: Agent, a: Action, notHidden: seq<int>)
    requires NonNegativeTickets(agent.state.tickets)
    ensures PerformAction(agent, a, notHidden).Ok? ==>
              NonNegativeTickets(PerformAction(agent, a, notHidden).value.state.tickets)
  {
  }

  /** What holds of every agent the game builds: the index/role rule, and a reveal
      map that is exactly the one rebuilt from the history (empty for a cop). */
  ghost predicate ValidAgent(agent: Agent, notHidden: seq<int>) {
    RoleFits(agent.index, agent.role) &&
    agent.revealed == (if agent.role == MrX then Reveals(agent.state.history, notHidden) else map[])
  }

  /** Performing an action keeps an agent valid: the incremental reveal of
      `MrX.performAction` agrees with the rebuild in `MrX.__init__`. */
  lemma PerformKeepsValid(agent: Agent, a: Action, notHidden: seq<int>)
    requires ValidAgent(agent, notHidden)
    ensures PerformAction(agent, a, notHidden).Ok? ==> ValidAgent(PerformAction(agent, a, notHidden).value, notHidden)
  {
    var r := PerformAction(agent, a, notHidden);
    if r.Ok? && agent.role == MrX {
      var h := r.value.state.history;
      assert h[..|h| - 1] == agent.state.history;
    }
  }

  /** `deepCopy` of each agent class: Mr X is rebuilt through its constructor
      (which recomputes the reveal map), a cop is rebuilt unchanged. */
  function DeepCopy(agent: Agent, notHidden: seq<int>): Agent {
    if agent.role == MrX then NewMrX(agent.state, notHidden) else agent
  }

  /** Copying a valid agent gives an equal agent. */
  lemma DeepCopyEqual(agent: Agent, notHidden: seq<int>)
    requires ValidAgent(agent, notHidden)
    ensures DeepCopy(agent, notHidden) == agent
  {
  }
}
