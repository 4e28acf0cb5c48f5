/** The inference part of `SmartKeyboardCop.getAction`: the cop updates its belief
    over Mr X's node from the evidence in the game state and reads off the most
    likely nodes. */
module SmartCops {
  import opened Wrappers
  import opened Counters
  import opened Game
  import opened Inference

  /** Updates the belief with `getMrXEvidences` and the cops' nodes of `g`, then
      takes `argMax` of the new belief. */
  function Guess(g: GameState, inf: ExactInference): (r: Result<(ExactInference, Option<seq<int>>)>)
    requires Valid(g)
    ensures r.Ok? <==> NumMoves(g) == inf.nextMove + 1
    ensures r.Ok? ==> r.value.0.nextMove == inf.nextMove + 1
    ensures r.Ok? && NumMoves(g) in g.agents[0].revealed ==>
              r.value.1 == Some([g.agents[0].revealed[NumMoves(g)]])
  {
    var (tickets, revealed) := MrXEvidences(g);
    var updated :- UpdateBeliefs(inf, tickets, revealed, g.layout.edges, CopPositions(g));
    assert NumMoves(g) in revealed ==> ArgMax(updated.beliefs) == Some([revealed[NumMoves(g)]]) by {
      if NumMoves(g) in revealed {
        RevealedArgMax(updated.beliefs, revealed[NumMoves(g)]);
      }
    }
    Ok((updated, ArgMax(updated.beliefs)))
  }

  /** A point mass has its own node as the only most likely node. */
  lemma RevealedArgMax(c: Counter, seen: int)
    requires forall p :: HasKey(c, p) <==> p == seen
    ensures ArgMax(c) == Some([seen])
  {
    assert HasKey(c, seen);
    var ks := ArgMax(c).value;
    assert c == [(seen, c[0].1)] by {
      if |c| > 1 {
        HasKeyAt(c, 0);
        HasKeyAt(c, 1);
        assert false;
      }
    }
    assert forall k :: k in ks <==> k == seen;
    assert KeysWithValue(c, MaxValue(c)) == [seen];
  }

  /** While Mr X is hidden and some belief moved, the cops never guess a node a
      cop stands on: those nodes weigh 0 and the best node weighs more. */
  lemma GuessAvoidsCops(g: GameState, inf: ExactInference)
    requires Valid(g)
    requires Guess(g, inf).Ok? && NumMoves(g) !in g.agents[0].revealed
    requires TotalCount(Guess(g, inf).value.0.beliefs) == 1.0
    ensures forall k :: k in Guess(g, inf).value.1.value ==> k !in CopPositions(g)
  {
    var (tickets, revealed) := MrXEvidences(g);
    var b := Guess(g, inf).value.0.beliefs;
    assert b == UpdateBeliefs(inf, tickets, revealed, g.layout.edges, CopPositions(g)).value.beliefs;
    PositiveKey(b);
    var best :| HasKey(b, best) && Lookup(b, best) > 0.0;
    forall k | k in Guess(g, inf).value.1.value
      ensures k !in CopPositions(g)
    {
      assert Lookup(b, best) <= Lookup(b, k);
    }
  }
}
