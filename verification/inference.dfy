/** `inference.py`: exact forward inference of Mr X's node from the tickets he used
    and the moves on which he was seen. Weights are exact reals. */
module Inference {
  import opened Wrappers
  import opened Counters
  import opened Layouts
  import opened Rules
  import opened Settings

  /** `getWeight`: a node a cop stands on cannot be Mr X's. */
  function Weight(end: int, cops: seq<int>): real {
    if end in cops then 0.0 else 1.0
  }

  /** The edge can have been travelled with `ticket`: BLACK goes everywhere, any
      other ticket only along edges of its own type. */
  predicate Follows(e: Edge, ticket: string) {
    ticket == Black || TypeName(e.kind) == ticket
  }

  /** Every stored weight is the weight of its node. */
  ghost predicate Weighted(c: Counter, cops: seq<int>) {
    forall p :: HasKey(c, p) ==> Lookup(c, p) == Weight(p, cops)
  }

  /** The loops of `distributionFrom` before normalising: `result[end] = getWeight(end)`
      for every oriented edge the ticket can have been used on. */
  function Destinations(from: seq<Edge>, ticket: string, cops: seq<int>, acc: Counter): (r: Counter)
    requires Weighted(acc, cops)
    ensures Weighted(r, cops)
    ensures forall p :: HasKey(r, p) <==>
              HasKey(acc, p) || exists i :: 0 <= i < |from| && Follows(from[i], ticket) && from[i].end == p
    decreases |from|
  {
    if |from| == 0 then
      acc
    else
      var e := from[0];
      var next := if Follows(e, ticket) then Set(acc, e.end, Weight(e.end, cops)) else acc;
      var r := Destinations(from[1..], ticket, cops, next);
      assert forall i :: 1 <= i < |from| ==> from[i] == from[1..][i - 1];
      r
  }

  lemma WeightedNonNegative(c: Counter, cops: seq<int>)
    requires Weighted(c, cops)
    ensures NonNegative(c)
  {
    forall i | 0 <= i < |c|
      ensures c[i].1 >= 0.0
    {
      LookupAt(c, i);
      HasKeyAt(c, i);
    }
  }

  /** With no free destination every stored weight is zero. */
  lemma AllOccupied(c: Counter, cops: seq<int>)
    requires Weighted(c, cops)
    requires forall p :: HasKey(c, p) ==> p in cops
    ensures TotalCount(c) == 0.0
  {
    forall i | 0 <= i < |c|
      ensures c[i].1 == 0.0
    {
      LookupAt(c, i);
      HasKeyAt(c, i);
    }
    ZeroTotal(c);
  }

  /** A node Mr X can have reached from `oldPos` with `ticket`. */
  ghost predicate Reached(edges: seq<Edge>, oldPos: int, ticket: string, p: int) {
    exists e :: e in edges && Incident(e, oldPos) && Follows(e, ticket) && Oriented(e, oldPos).end == p
  }

  /** `distributionFrom(old_pos, ticket_used, gameState)` on the layout's edges
      with the cops at `cops`. Its keys are the nodes reachable with the ticket;
      cop nodes weigh 0 and all other keys share the weight equally, adding up to 1;
      when every key is a cop node nothing is normalised and all weights are 0. */
  function DistributionFrom(edges: seq<Edge>, oldPos: int, ticket: string, cops: seq<int>): (r: Counter)
    ensures forall p :: HasKey(r, p) <==> Reached(edges, oldPos, ticket, p)
    ensures forall p :: p in cops ==> Lookup(r, p) == 0.0
    ensures forall p, q :: HasKey(r, p) && HasKey(r, q) && p !in cops && q !in cops ==> Lookup(r, p) == Lookup(r, q)
    ensures NonNegative(r)
    ensures (exists p :: HasKey(r, p) && p !in cops) ==> TotalCount(r) == 1.0
    ensures (forall p :: HasKey(r, p) ==> p in cops) ==> forall p :: Lookup(r, p) == 0.0
  {
    var raw := Destinations(EdgesFrom(edges, oldPos), ticket, cops, []);
    DestinationsReached(edges, oldPos, ticket, cops);
    NormalizeWeighted(raw, cops);
    Normalize(raw)
  }

  /** Normalising a weighted counter: cop keys stay 0, free keys share one value,
      and the total is 1 unless every key is a cop node. */
  lemma NormalizeWeighted(raw: Counter, cops: seq<int>)
    requires Weighted(raw, cops)
    ensures var r := Normalize(raw);
            (forall p :: HasKey(r, p) <==> HasKey(raw, p)) &&
            (forall p :: p in cops ==> Lookup(r, p) == 0.0) &&
            (forall p, q :: HasKey(r, p) && HasKey(r, q) && p !in cops && q !in cops ==> Lookup(r, p) == Lookup(r, q)) &&
            NonNegative(r) &&
            ((exists p :: HasKey(r, p) && p !in cops) ==> TotalCount(r) == 1.0) &&
            ((forall p :: HasKey(r, p) ==> p in cops) ==> forall p :: Lookup(r, p) == 0.0)
  {
    var r := Normalize(raw);
    WeightedNonNegative(raw, cops);
    forall q | !HasKey(raw, q)
      ensures Lookup(raw, q) == 0.0
    {
      LookupMissing(raw, q);
    }
    if exists p :: HasKey(raw, p) && p !in cops {
      var p :| HasKey(raw, p) && p !in cops;
      NonNegativeTotal(raw, p);
      forall i | 0 <= i < |r|
        ensures r[i].1 >= 0.0
      {
        assert r[i].1 == raw[i].1 / TotalCount(raw);
      }
    } else {
      AllOccupied(raw, cops);
    }
  }

  lemma DestinationsReached(edges: seq<Edge>, oldPos: int, ticket: string, cops: seq<int>)
    ensures forall p :: HasKey(Destinations(EdgesFrom(edges, oldPos), ticket, cops, []), p) <==>
                        Reached(edges, oldPos, ticket, p)
  {
    var from := EdgesFrom(edges, oldPos);
    forall p
      ensures (exists i :: 0 <= i < |from| && Follows(from[i], ticket) && from[i].end == p) <==>
              Reached(edges, oldPos, ticket, p)
    {
      if exists i :: 0 <= i < |from| && Follows(from[i], ticket) && from[i].end == p {
        var i :| 0 <= i < |from| && Follows(from[i], ticket) && from[i].end == p;
        assert from[i] in from;
        var e :| e in edges && Incident(e, oldPos) && from[i] == Oriented(e, oldPos);
      }
      if Reached(edges, oldPos, ticket, p) {
        var e :| e in edges && Incident(e, oldPos) && Follows(e, ticket) && Oriented(e, oldPos).end == p;
        assert Oriented(e, oldPos) in from;
        var i :| 0 <= i < |from| && from[i] == Oriented(e, oldPos);
      }
    }
  }

  /** Every weight of `dist` multiplied by `w`: the products `self.beliefs[old_pos] * prob`. */
  function Weigh(dist: Counter, w: real): (r: Counter)
    ensures |r| == |dist|
    ensures forall p :: HasKey(r, p) <==> HasKey(dist, p)
    decreases |dist|
  {
    if |dist| == 0 then [] else [(dist[0].0, w * dist[0].1)] + Weigh(dist[1..], w)
  }

  lemma {:induction false} WeighLookup(dist: Counter, w: real, p: int)
    ensures Lookup(Weigh(dist, w), p) == w * Lookup(dist, p)
    decreases |dist|
  {
    if |dist| > 0 {
      var r := Weigh(dist, w);
      assert r[1..] == Weigh(dist[1..], w);
      if dist[0].0 != p {
        WeighLookup(dist[1..], w, p);
      }
    }
  }

  lemma {:induction false} WeighTotal(dist: Counter, w: real)
    ensures TotalCount(Weigh(dist, w)) == w * TotalCount(dist)
    decreases |dist|
  {
    if |dist| > 0 {
      var r := Weigh(dist, w);
      assert r[1..] == Weigh(dist[1..], w);
      WeighTotal(dist[1..], w);
    }
  }

  /** `new_beliefs[new_pos] += v` for every entry of an already weighed distribution. */
  function Accumulate(acc: Counter, d: Counter): (r: Counter)
    ensures forall p :: HasKey(r, p) <==> HasKey(acc, p) || HasKey(d, p)
    ensures forall p :: Lookup(r, p) == Lookup(acc, p) + Lookup(d, p)
    ensures TotalCount(r) == TotalCount(acc) + TotalCount(d)
    decreases |d|
  {
    if |d| == 0 then
      acc
    else
      var rest: Counter := d[1..];
      LookupMissing(rest, d[0].0);
      Accumulate(Add(acc, d[0].0, d[0].1), rest)
  }

  /** Sum of the values stored under `p` across several counters. */
  function SumLookup(ds: seq<Counter>, p: int): real
    decreases |ds|
  {
    if |ds| == 0 then 0.0 else Lookup(ds[0], p) + SumLookup(ds[1..], p)
  }

  /** Sum of the totals of several counters. */
  function SumTotal(ds: seq<Counter>): real
    decreases |ds|
  {
    if |ds| == 0 then 0.0 else TotalCount(ds[0]) + SumTotal(ds[1..])
  }

  /** Adds several weighed distributions into the accumulator, one after the other. */
  function AccumulateAll(acc: Counter, ds: seq<Counter>): (r: Counter)
    ensures forall p :: Lookup(r, p) == Lookup(acc, p) + SumLookup(ds, p)
    ensures TotalCount(r) == TotalCount(acc) + SumTotal(ds)
    decreases |ds|
  {
    if |ds| == 0 then acc else AccumulateAll(Accumulate(acc, ds[0]), ds[1..])
  }

  /** The distribution of Mr X's next node given his previous one. */
  type Step = int -> Counter

  /** For each old position in turn, its distribution weighed by the belief in it. */
  function Weighed(beliefs: seq<(int, real)>, step: Step): (r: seq<Counter>)
    ensures |r| == |beliefs|
    decreases |beliefs|
  {
    if |beliefs| == 0 then [] else [Weigh(step(beliefs[0].0), beliefs[0].1)] + Weighed(beliefs[1..], step)
  }

  /** The reference sum of the forward step: the weight that flows into `p` from
      every old position, each weighed by its belief. */
  function Inflow(beliefs: seq<(int, real)>, p: int, step: Step): real
    decreases |beliefs|
  {
    if |beliefs| == 0 then 0.0
    else beliefs[0].1 * Lookup(step(beliefs[0].0), p) + Inflow(beliefs[1..], p, step)
  }

  /** The total weight the forward step moves, given each distribution's total. */
  function Outflow(beliefs: seq<(int, real)>, mass: int -> real): real
    decreases |beliefs|
  {
    if |beliefs| == 0 then 0.0
    else beliefs[0].1 * mass(beliefs[0].0) + Outflow(beliefs[1..], mass)
  }

  /** The total weight of each step's distribution. */
  function Mass(step: Step): int -> real {
    q => TotalCount(step(q))
  }

  lemma {:induction false} WeighedInflow(beliefs: seq<(int, real)>, step: Step, p: int)
    ensures SumLookup(Weighed(beliefs, step), p) == Inflow(beliefs, p, step)
    decreases |beliefs|
  {
    if |beliefs| > 0 {
      var ds := Weighed(beliefs, step);
      assert ds[1..] == Weighed(beliefs[1..], step);
      WeighLookup(step(beliefs[0].0), beliefs[0].1, p);
      WeighedInflow(beliefs[1..], step, p);
    }
  }

  lemma {:induction false} WeighedOutflow(beliefs: seq<(int, real)>, step: Step, mass: int -> real)
    requires forall q :: mass(q) == TotalCount(step(q))
    ensures SumTotal(Weighed(beliefs, step)) == Outflow(beliefs, mass)
    decreases |beliefs|
  {
    if |beliefs| > 0 {
      var ds := Weighed(beliefs, step);
      assert ds[1..] == Weighed(beliefs[1..], step);
      WeighTotal(step(beliefs[0].0), beliefs[0].1);
      WeighedOutflow(beliefs[1..], step, mass);
    }
  }

  /** The loops of `updateBeliefs` before normalising: every old position spreads
      its belief over the distribution from it. */
  function Propagate(beliefs: seq<(int, real)>, step: Step): (r: Counter)
    ensures forall p :: Lookup(r, p) == Inflow(beliefs, p, step)
    ensures TotalCount(r) == Outflow(beliefs, Mass(step))
  {
    PropagateFacts(beliefs, step);
    AccumulateAll([], Weighed(beliefs, step))
  }

  lemma PropagateFacts(beliefs: seq<(int, real)>, step: Step)
    ensures forall p :: Lookup(AccumulateAll([], Weighed(beliefs, step)), p) == Inflow(beliefs, p, step)
    ensures TotalCount(AccumulateAll([], Weighed(beliefs, step))) == Outflow(beliefs, Mass(step))
  {
    forall p
      ensures SumLookup(Weighed(beliefs, step), p) == Inflow(beliefs, p, step)
    {
      WeighedInflow(beliefs, step, p);
    }
    WeighedOutflow(beliefs, step, Mass(step));
  }

  /** Nothing flows into a node that every step gives weight 0. */
  lemma {:induction false} InflowZero(beliefs: seq<(int, real)>, p: int, step: Step)
    requires forall q :: Lookup(step(q), p) == 0.0
    ensures Inflow(beliefs, p, step) == 0.0
    decreases |beliefs|
  {
    if |beliefs| > 0 {
      InflowZero(beliefs[1..], p, step);
    }
  }

  /** The forward step of `updateBeliefs` for one ticket: `distributionFrom` from every old position. */
  function Forward(edges: seq<Edge>, ticket: string, cops: seq<int>): Step {
    q => DistributionFrom(edges, q, ticket, cops)
  }

  /** `ExactInference`: the belief over Mr X's node and the number of the next move to observe. */
  datatype ExactInference = ExactInference(beliefs: Counter, nextMove: nat)

  /** `beliefs[pos] = 1` for every position, in order. */
  function Ones(positions: seq<int>, acc: Counter): (r: Counter)
    ensures forall p :: HasKey(r, p) <==> HasKey(acc, p) || p in positions
    ensures forall p :: p in positions ==> Lookup(r, p) == 1.0
    ensures forall p :: p !in positions ==> Lookup(r, p) == Lookup(acc, p)
    decreases |positions|
  {
    if |positions| == 0 then
      acc
    else
      var r := Ones(positions[1..], Set(acc, positions[0], 1.0));
      assert forall p :: p in positions <==> p == positions[0] || p in positions[1..];
      r
  }

  /** The initial belief of a game: Mr X may stand on any station no cop starts on,
      and each such station gets the same weight, one over their number. */
  lemma InitialBelief(l: Layout, cops: seq<int>)
    requires Consistent(l)
    ensures var legal := LegalPositions(StationNodes(l.edges), cops);
            var inf := NewInference(legal);
            (forall p :: HasKey(inf.beliefs, p) <==> p in l.stations && p !in cops) &&
            (forall p :: p in l.stations && p !in cops ==> Lookup(inf.beliefs, p) == 1.0 / |legal| as real)
  {
    LegalPositionsOfLayout(l, cops);
  }

  lemma {:induction false} OnesTotal(positions: seq<int>, acc: Counter)
    requires Distinct(positions)
    requires forall p :: p in positions ==> !HasKey(acc, p)
    ensures TotalCount(Ones(positions, acc)) == TotalCount(acc) + |positions| as real
    decreases |positions|
  {
    if |positions| > 0 {
      var next := Set(acc, positions[0], 1.0);
      LookupMissing(acc, positions[0]);
      assert forall p :: p in positions[1..] ==> p != positions[0] && !HasKey(next, p) by {
        forall p | p in positions[1..]
          ensures p != positions[0] && !HasKey(next, p)
        {
          var k :| 0 <= k < |positions[1..]| && positions[1..][k] == p;
          assert positions[k + 1] == p;
        }
      }
      OnesTotal(positions[1..], next);
    }
  }

  /** `ExactInference()` without a belief: every legal position gets weight 1, then
      the weights are normalised, and the first move to observe is move 1. */
  function NewInference(legal: seq<int>): (r: ExactInference)
    ensures r.nextMove == 0
    ensures forall p :: HasKey(r.beliefs, p) <==> p in legal
    ensures |legal| > 0 ==> TotalCount(r.beliefs) == 1.0
    ensures forall p, q :: p in legal && q in legal ==> Lookup(r.beliefs, p) == Lookup(r.beliefs, q)
    ensures Distinct(legal) ==> forall p :: p in legal ==> Lookup(r.beliefs, p) == 1.0 / |legal| as real
  {
    OnesFacts(legal);
    ExactInference(Normalize(Ones(legal, [])), 0)
  }

  lemma OnesFacts(legal: seq<int>)
    ensures |legal| > 0 ==> TotalCount(Ones(legal, [])) >= 1.0
    ensures Distinct(legal) ==> TotalCount(Ones(legal, [])) == |legal| as real
  {
    var raw := Ones(legal, []);
    if |legal| > 0 {
      assert Lookup(raw, legal[0]) == 1.0;
      assert NonNegative(raw) by {
        forall i | 0 <= i < |raw|
          ensures raw[i].1 >= 0.0
        {
          LookupAt(raw, i);
          HasKeyAt(raw, i);
        }
      }
      NonNegativeTotal(raw, legal[0]);
    }
    if Distinct(legal) {
      OnesTotal(legal, []);
    }
  }

  /** `updateBeliefs(ticketList, notHiddenMoves, gameState)`: the ticket list must
      have one entry per observed move plus the new one. A revealed move collapses
      the belief onto the revealed node; otherwise the belief is pushed one step
      along the edges the ticket allows and normalised. Either way the cursor
      advances by one. */
  function UpdateBeliefs(inf: ExactInference, ticketList: seq<string>, revealed: map<int, int>,
                         edges: seq<Edge>, cops: seq<int>): (r: Result<ExactInference>)
    ensures r.Ok? <==> |ticketList| == inf.nextMove + 1
    ensures r.Err? ==> r.error == AssertionError
    ensures r.Ok? ==> r.value.nextMove == inf.nextMove + 1
    ensures r.Ok? && inf.nextMove + 1 in revealed ==>
              var seen := revealed[inf.nextMove + 1];
              (forall p :: HasKey(r.value.beliefs, p) <==> p == seen) &&
              Lookup(r.value.beliefs, seen) == 1.0 && TotalCount(r.value.beliefs) == 1.0
    ensures r.Ok? && inf.nextMove + 1 !in revealed ==>
              forall p :: p in cops ==> Lookup(r.value.beliefs, p) == 0.0
    ensures r.Ok? && inf.nextMove + 1 !in revealed ==>
              var step := Forward(edges, ticketList[inf.nextMove], cops);
              var total := Outflow(inf.beliefs, Mass(step));
              total != 0.0 ==>
                TotalCount(r.value.beliefs) == 1.0 &&
                forall p :: Lookup(r.value.beliefs, p) == Inflow(inf.beliefs, p, step) / total
    ensures r.Ok? && inf.nextMove + 1 !in revealed ==>
              var step := Forward(edges, ticketList[inf.nextMove], cops);
              Outflow(inf.beliefs, Mass(step)) == 0.0 ==>
                forall p :: Lookup(r.value.beliefs, p) == Inflow(inf.beliefs, p, step)
  {
    if |ticketList| != inf.nextMove + 1 then
      Err(AssertionError)
    else if inf.nextMove + 1 in revealed then
      var seen := revealed[inf.nextMove + 1];
      var point: Counter := Set([], seen, 1.0);
      Ok(ExactInference(point, inf.nextMove + 1))
    else
      var step := Forward(edges, ticketList[inf.nextMove], cops);
      ForwardAvoidsCops(edges, ticketList[inf.nextMove], cops);
      BeliefsAfterStep(inf.beliefs, step, cops);
      Ok(ExactInference(Normalize(Propagate(inf.beliefs, step)), inf.nextMove + 1))
  }

  /** `distributionFrom` gives every cop node weight 0, from any old position. */
  lemma ForwardAvoidsCops(edges: seq<Edge>, ticket: string, cops: seq<int>)
    ensures forall q, p :: p in cops ==> Lookup(Forward(edges, ticket, cops)(q), p) == 0.0
  {
  }

  /** One forward step followed by normalisation: cop nodes keep weight 0 and,
      unless no weight moved at all, the result is the inflow scaled to total 1. */
  lemma BeliefsAfterStep(beliefs: seq<(int, real)>, step: Step, cops: seq<int>)
    requires forall q, p :: p in cops ==> Lookup(step(q), p) == 0.0
    ensures var r := Normalize(Propagate(beliefs, step));
            forall p :: p in cops ==> Lookup(r, p) == 0.0
    ensures var r := Normalize(Propagate(beliefs, step));
            var total := Outflow(beliefs, Mass(step));
            total != 0.0 ==> TotalCount(r) == 1.0 && forall p :: Lookup(r, p) == Inflow(beliefs, p, step) / total
    ensures var r := Normalize(Propagate(beliefs, step));
            Outflow(beliefs, Mass(step)) == 0.0 ==> forall p :: Lookup(r, p) == Inflow(beliefs, p, step)
  {
    var raw := Propagate(beliefs, step);
    forall p | p in cops
      ensures Lookup(raw, p) == 0.0
    {
      InflowZero(beliefs, p, step);
    }
    NormalizeZeros(raw, cops);
  }

  lemma NormalizeZeros(raw: Counter, zeros: seq<int>)
    requires forall p :: p in zeros ==> Lookup(raw, p) == 0.0
    ensures forall p :: p in zeros ==> Lookup(Normalize(raw), p) == 0.0
  {
  }
}
