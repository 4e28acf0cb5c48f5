/** `rules.py`: tickets, actions and which moves an agent may make. */
module Rules {
  import opened Wrappers
  import opened Layouts

  /** `TicketType.BLACK`: the hidden ticket, good on an edge of any type. */
  const Black: string := "BLACK"

  /** An agent's ticket counts, keyed by ticket name as read from the settings. */
  type TicketBook = map<string, int>

  /** The ticket is a key of the book and has a positive count. */
  predicate CanPay(tickets: TicketBook, t: string) {
    t in tickets && tickets[t] > 0
  }

  /** `TicketType.asList()`: the three typed tickets and BLACK; there is no FERRY ticket. */
  function TicketTypes(): (r: seq<string>)
    ensures Black in r && TypeName(Ferry) !in r
    ensures forall t: EdgeType :: t != Ferry ==> TypeName(t) in r
    ensures |r| == 4
  {
    [TypeName(Taxi), TypeName(Bus), TypeName(Underground), Black]
  }

  /** `Action`: a move from `start` to `end` paid with `ticket`; equality is componentwise. */
  datatype Action = Action(start: int, end: int, ticket: string)

  /** `Action.__init__`, which refuses a move that stays in place. */
  function NewAction(start: int, end: int, ticket: string): (r: Result<Action>)
    ensures r.Ok? <==> start != end
    ensures r.Ok? ==> r.value.start == start && r.value.end == end && r.value.ticket == ticket
    ensures r.Err? ==> r.error == AssertionError
  {
    if start == end then Err(AssertionError) else Ok(Action(start, end, ticket))
  }

  /** The actions one oriented edge contributes: BLACK first, then the typed ticket. */
  function EdgeCandidates(e: Edge, tickets: TicketBook): (r: seq<Action>)
    ensures forall a :: a in r <==>
      a.start == e.start && a.end == e.end &&
      ((a.ticket == Black && CanPay(tickets, Black)) || (a.ticket == TypeName(e.kind) && CanPay(tickets, a.ticket)))
  {
    (if CanPay(tickets, Black) then [Action(e.start, e.end, Black)] else []) +
    (if CanPay(tickets, TypeName(e.kind)) then [Action(e.start, e.end, TypeName(e.kind))] else [])
  }

  /** The loop of `getLegalActions` over the oriented incident edges, duplicates kept. */
  function Candidates(edges: seq<Edge>, tickets: TicketBook): (r: seq<Action>)
    ensures forall a :: a in r <==> exists i :: 0 <= i < |edges| && a in EdgeCandidates(edges[i], tickets)
    ensures |r| <= 2 * |edges|
    decreases |edges|
  {
    if |edges| == 0 then
      []
    else
      var rest := Candidates(edges[1..], tickets);
      assert forall i :: 1 <= i < |edges| ==> edges[i] == edges[1..][i - 1];
      EdgeCandidates(edges[0], tickets) + rest
  }

  /** The final `filter` of `getLegalActions`: drop moves onto a cop, keep the order. */
  function WithoutCops(actions: seq<Action>, cops: seq<int>): (r: seq<Action>)
    ensures forall a :: a in r <==> a in actions && a.end !in cops
    ensures |r| <= |actions|
    decreases |actions|
  {
    if |actions| == 0 then
      []
    else
      var rest := WithoutCops(actions[1..], cops);
      assert forall a :: a in actions <==> a == actions[0] || a in actions[1..];
      if actions[0].end in cops then rest else [actions[0]] + rest
  }

  /** `Rules.getLegalActions` for an agent at `position` holding `tickets`, on a
      layout with `edges`, with the cops at `cops` (whichever agent is moving). */
  function LegalActions(position: int, tickets: TicketBook, edges: seq<Edge>, cops: seq<int>): seq<Action> {
    WithoutCops(Candidates(EdgesFrom(edges, position), tickets), cops)
  }

  /** A legal move, stated directly on the undirected edge list: it leaves the
      agent's node along an incident edge, is paid with BLACK or with that edge's
      type, the ticket is held, and no cop stands on the destination. */
  ghost predicate LegalMove(a: Action, position: int, tickets: TicketBook, edges: seq<Edge>, cops: seq<int>) {
    a.start == position && a.end !in cops &&
    exists e :: e in edges && Incident(e, position) && Oriented(e, position).end == a.end &&
      ((a.ticket == Black && CanPay(tickets, Black)) || (a.ticket == TypeName(e.kind) && CanPay(tickets, a.ticket)))
  }

  lemma LegalActionsExact(a: Action, position: int, tickets: TicketBook, edges: seq<Edge>, cops: seq<int>)
    ensures a in LegalActions(position, tickets, edges, cops) <==> LegalMove(a, position, tickets, edges, cops)
  {
    if a in LegalActions(position, tickets, edges, cops) {
      LegalActionsSound(a, position, tickets, edges, cops);
    }
    if LegalMove(a, position, tickets, edges, cops) {
      LegalActionsComplete(a, position, tickets, edges, cops);
    }
  }

  lemma LegalActionsSound(a: Action, position: int, tickets: TicketBook, edges: seq<Edge>, cops: seq<int>)
    requires a in LegalActions(position, tickets, edges, cops)
    ensures LegalMove(a, position, tickets, edges, cops)
  {
    var from := EdgesFrom(edges, position);
    assert a in Candidates(from, tickets) && a.end !in cops;
    var d := CandidateSource(a, from, tickets);
    var e := OrientedSource(edges, position, d);
    assert a.start == position && a.end == d.end && d.kind == e.kind;
  }

  lemma CandidateSource(a: Action, from: seq<Edge>, tickets: TicketBook) returns (d: Edge)
    requires a in Candidates(from, tickets)
    ensures d in from && a in EdgeCandidates(d, tickets)
  {
    var i :| 0 <= i < |from| && a in EdgeCandidates(from[i], tickets);
    d := from[i];
  }

  lemma OrientedSource(edges: seq<Edge>, position: int, d: Edge) returns (e: Edge)
    requires d in EdgesFrom(edges, position)
    ensures e in edges && Incident(e, position) && d == Oriented(e, position)
  {
    e :| e in edges && Incident(e, position) && d == Oriented(e, position);
  }

  lemma LegalActionsComplete(a: Action, position: int, tickets: TicketBook, edges: seq<Edge>, cops: seq<int>)
    requires LegalMove(a, position, tickets, edges, cops)
    ensures a in LegalActions(position, tickets, edges, cops)
  {
    var from := EdgesFrom(edges, position);
    var e :| e in edges && Incident(e, position) && Oriented(e, position).end == a.end &&
      ((a.ticket == Black && CanPay(tickets, Black)) || (a.ticket == TypeName(e.kind) && CanPay(tickets, a.ticket)));
    var d := Oriented(e, position);
    assert d in from;
    var i :| 0 <= i < |from| && from[i] == d;
    assert a in EdgeCandidates(from[i], tickets);
    assert a in Candidates(from, tickets);
  }

  /** On a layout whose edges are well formed every legal action is a proper `Action`. */
  lemma LegalActionsMove(a: Action, position: int, tickets: TicketBook, edges: seq<Edge>, cops: seq<int>)
    requires forall i :: 0 <= i < |edges| ==> WellFormedEdge(edges[i])
    requires a in LegalActions(position, tickets, edges, cops)
    ensures a.start == position && a.start != a.end
    ensures NewAction(a.start, a.end, a.ticket) == Ok(a)
  {
    LegalActionsExact(a, position, tickets, edges, cops);
    var e :| e in edges && Incident(e, position) && Oriented(e, position).end == a.end;
  }

  /** Without a usable BLACK ticket and without a FERRY entry in the book, ferry
      edges contribute no move: every legal move follows a non-ferry edge and is
      paid with that edge's own ticket. */
  lemma NoFerryWithoutBlack(a: Action, position: int, tickets: TicketBook, edges: seq<Edge>, cops: seq<int>)
    requires !CanPay(tickets, Black) && TypeName(Ferry) !in tickets
    requires a in LegalActions(position, tickets, edges, cops)
    ensures exists e :: e in edges && Incident(e, position) && e.kind != Ferry &&
                        Oriented(e, position).end == a.end && a.ticket == TypeName(e.kind)
  {
    LegalActionsExact(a, position, tickets, edges, cops);
  }

  /** `Rules.isLegalAction`: membership in the legal-action list. */
  function IsLegalAction(a: Action, position: int, tickets: TicketBook, edges: seq<Edge>, cops: seq<int>): (r: bool)
    ensures r <==> LegalMove(a, position, tickets, edges, cops)
  {
    LegalActionsExact(a, position, tickets, edges, cops);
    a in LegalActions(position, tickets, edges, cops)
  }

  /** `Rules.getRandomNode`: a node in 1..numNodes that no cop occupies, chosen
      freely. `random.choice` on an empty range raises IndexError, and when every
      node is occupied the retry loop never ends. */
  method RandomNode(numNodes: int, cops: seq<int>) returns (r: Result<int>)
    ensures numNodes <= 0 ==> r == Err(IndexError)
    ensures r.Ok? <==> exists n :: 1 <= n <= numNodes && n !in cops
    ensures r.Ok? ==> 1 <= r.value <= numNodes && r.value !in cops
    ensures numNodes > 0 && r.Err? ==> r.error == Diverges
  {
    if numNodes <= 0 {
      return Err(IndexError);
    }
    if exists n :: 1 <= n <= numNodes && n !in cops {
      var n :| 1 <= n <= numNodes && n !in cops;
      return Ok(n);
    }
    return Err(Diverges);
  }
}
