/** `util.Counter`: a dictionary whose missing keys read as 0. It is modelled as an
    association list from graph nodes to weights with distinct keys; the list order
    stands for the dictionary's iteration order, which no property below depends on. */
module Counters {
  import opened Wrappers

  predicate HasKey(c: seq<(int, real)>, k: int)
    decreases |c|
  {
    |c| > 0 && (c[0].0 == k || HasKey(c[1..], k))
  }

  predicate DistinctKeys(c: seq<(int, real)>)
    decreases |c|
  {
    |c| == 0 || (!HasKey(c[1..], c[0].0) && DistinctKeys(c[1..]))
  }

  type Counter = c: seq<(int, real)> | DistinctKeys(c) witness []

  /** The value stored under `k`, or 0 when `k` is absent. */
  function Lookup(c: seq<(int, real)>, k: int): real
    decreases |c|
  {
    if |c| == 0 then 0.0 else if c[0].0 == k then c[0].1 else Lookup(c[1..], k)
  }

  /** The sum of all stored values (`totalCount`). */
  function TotalCount(c: seq<(int, real)>): real
    decreases |c|
  {
    if |c| == 0 then 0.0 else c[0].1 + TotalCount(c[1..])
  }

  lemma {:induction false} HasKeyAt(c: seq<(int, real)>, i: nat)
    requires i < |c|
    ensures HasKey(c, c[i].0)
    decreases i
  {
    if i > 0 {
      HasKeyAt(c[1..], i - 1);
    }
  }

  lemma {:induction false} LookupAt(c: Counter, i: nat)
    requires i < |c|
    ensures Lookup(c, c[i].0) == c[i].1
    decreases i
  {
    if i > 0 {
      HasKeyAt(c[1..], i - 1);
      LookupAt(c[1..], i - 1);
    }
  }

  lemma {:induction false} LookupMissing(c: seq<(int, real)>, k: int)
    requires !HasKey(c, k)
    ensures Lookup(c, k) == 0.0
    decreases |c|
  {
    if |c| > 0 {
      LookupMissing(c[1..], k);
    }
  }

  lemma {:induction false} AppendFacts(c: seq<(int, real)>, k: int, v: real, j: int)
    ensures HasKey(c + [(k, v)], j) <==> HasKey(c, j) || j == k
    ensures !HasKey(c, k) ==> Lookup(c + [(k, v)], j) == if j == k then v else Lookup(c, j)
    ensures TotalCount(c + [(k, v)]) == TotalCount(c) + v
    ensures DistinctKeys(c) && !HasKey(c, k) ==> DistinctKeys(c + [(k, v)])
    decreases |c|
  {
    if |c| > 0 {
      assert (c + [(k, v)])[1..] == c[1..] + [(k, v)];
      AppendFacts(c[1..], k, v, j);
      AppendFacts(c[1..], k, v, c[0].0);
    }
  }

  /** `c[k] = v`: overwrites in place when `k` is stored, appends otherwise. */
  function Set(c: Counter, k: int, v: real): (r: Counter)
    ensures Lookup(r, k) == v
    ensures forall j :: j != k ==> Lookup(r, j) == Lookup(c, j)
    ensures forall j :: HasKey(r, j) <==> HasKey(c, j) || j == k
    ensures TotalCount(r) == TotalCount(c) - Lookup(c, k) + v
    decreases |c|
  {
    if |c| == 0 then
      assert [(k, v)][1..] == [];
      [(k, v)]
    else if c[0].0 == k then
      var r := [(k, v)] + c[1..];
      assert r[1..] == c[1..];
      r
    else
      var tail := Set(c[1..], k, v);
      var r := [c[0]] + tail;
      assert r[1..] == tail;
      r
  }

  /** `c[k]` (`__getitem__`): returns the stored value, or 0 after inserting `k` with 0. */
  function Get(c: Counter, k: int): (r: (Counter, real))
    ensures r.1 == Lookup(c, k)
    ensures HasKey(r.0, k) && Lookup(r.0, k) == r.1
    ensures !HasKey(c, k) ==> r.1 == 0.0
    ensures HasKey(c, k) ==> r.0 == c
    ensures forall j :: j != k ==> (HasKey(r.0, j) <==> HasKey(c, j)) && Lookup(r.0, j) == Lookup(c, j)
    ensures TotalCount(r.0) == TotalCount(c)
  {
    if HasKey(c, k) then
      (c, Lookup(c, k))
    else
      LookupMissing(c, k);
      AppendFacts(c, k, 0.0, k);
      var r := c + [(k, 0.0)];
      assert forall j :: (HasKey(r, j) <==> HasKey(c, j) || j == k) &&
                         Lookup(r, j) == (if j == k then 0.0 else Lookup(c, j)) by {
        forall j ensures (HasKey(r, j) <==> HasKey(c, j) || j == k) &&
                         Lookup(r, j) == (if j == k then 0.0 else Lookup(c, j)) {
          AppendFacts(c, k, 0.0, j);
        }
      }
      (r, 0.0)
  }

  /** `c[k] += v`: a read that inserts a missing key with 0, then a write. */
  function Add(c: Counter, k: int, v: real): (r: Counter)
    ensures Lookup(r, k) == Lookup(c, k) + v
    ensures forall j :: j != k ==> Lookup(r, j) == Lookup(c, j)
    ensures forall j :: HasKey(r, j) <==> HasKey(c, j) || j == k
    ensures TotalCount(r) == TotalCount(c) + v
  {
    var (c', prior) := Get(c, k);
    Set(c', k, prior + v)
  }

  /** The largest stored value (Python's `max` over the values). */
  function MaxValue(c: Counter): (m: real)
    requires |c| > 0
    ensures forall j :: HasKey(c, j) ==> Lookup(c, j) <= m
    ensures exists k :: HasKey(c, k) && Lookup(c, k) == m
    decreases |c|
  {
    if |c| == 1 then
      assert HasKey(c, c[0].0);
      c[0].1
    else
      var rest := MaxValue(c[1..]);
      if c[0].1 >= rest then
        assert HasKey(c, c[0].0);
        c[0].1
      else
        var k :| HasKey(c[1..], k) && Lookup(c[1..], k) == rest;
        assert k != c[0].0 && HasKey(c, k);
        rest
  }

  /** The keys stored with value `m`, in stored order. */
  function KeysWithValue(c: Counter, m: real): (ks: seq<int>)
    ensures forall k :: k in ks <==> HasKey(c, k) && Lookup(c, k) == m
    decreases |c|
  {
    if |c| == 0 then []
    else if c[0].1 == m then [c[0].0] + KeysWithValue(c[1..], m)
    else KeysWithValue(c[1..], m)
  }

  /** `argMax`: `None` for an empty counter, otherwise every key holding the maximum. */
  function ArgMax(c: Counter): (r: Option<seq<int>>)
    ensures r.None? <==> |c| == 0
    ensures r.Some? ==> forall k :: k in r.value <==> HasKey(c, k) && Lookup(c, k) == MaxValue(c)
    ensures r.Some? ==> forall k, j :: k in r.value && HasKey(c, j) ==> Lookup(c, j) <= Lookup(c, k)
    ensures r.Some? ==> |r.value| > 0
  {
    if |c| == 0 then
      None
    else
      var m := MaxValue(c);
      var ks := KeysWithValue(c, m);
      var k :| HasKey(c, k) && Lookup(c, k) == m;
      assert k in ks;
      Some(ks)
  }

  lemma DivideSum(a: real, b: real, t: real)
    requires t != 0.0
    ensures a / t + b / t == (a + b) / t
  {
  }

  /** Every value divided by `t`, keys and order kept. */
  function Scale(c: Counter, t: real): (r: Counter)
    requires t != 0.0
    ensures |r| == |c|
    ensures forall i :: 0 <= i < |c| ==> r[i].0 == c[i].0 && r[i].1 == c[i].1 / t
    ensures forall j :: (HasKey(r, j) <==> HasKey(c, j)) && Lookup(r, j) == Lookup(c, j) / t
    ensures TotalCount(r) == TotalCount(c) / t
    decreases |c|
  {
    if |c| == 0 then
      []
    else
      var tail := Scale(c[1..], t);
      var r := [(c[0].0, c[0].1 / t)] + tail;
      assert r[1..] == tail;
      assert TotalCount(r) == c[0].1 / t + TotalCount(c[1..]) / t;
      DivideSum(c[0].1, TotalCount(c[1..]), t);
      assert forall j :: (HasKey(r, j) <==> HasKey(c, j)) && Lookup(r, j) == Lookup(c, j) / t by {
        forall j ensures (HasKey(r, j) <==> HasKey(c, j)) && Lookup(r, j) == Lookup(c, j) / t {
          if j != c[0].0 {
            assert HasKey(r, j) == HasKey(tail, j);
            assert Lookup(r, j) == Lookup(tail, j);
          }
        }
      }
      r
  }

  /** `normalize`: a zero total leaves the counter as it is; otherwise every value is
      divided by the total, so the values then add up to 1. */
  function Normalize(c: Counter): (r: Counter)
    ensures TotalCount(c) == 0.0 ==> r == c
    ensures TotalCount(c) != 0.0 ==> TotalCount(r) == 1.0
    ensures TotalCount(c) != 0.0 ==>
              |r| == |c| &&
              (forall i :: 0 <= i < |c| ==> r[i].0 == c[i].0 && r[i].1 == c[i].1 / TotalCount(c)) &&
              (forall j :: (HasKey(r, j) <==> HasKey(c, j)) && Lookup(r, j) == Lookup(c, j) / TotalCount(c))
  {
    var total := TotalCount(c);
    if total == 0.0 then
      c
    else
      assert total / total == 1.0;
      Scale(c, total)
  }

  predicate NonNegative(c: seq<(int, real)>) {
    forall i :: 0 <= i < |c| ==> c[i].1 >= 0.0
  }

  /** With no negative weight, the total bounds every single weight and a zero
      total means every weight is zero. */
  lemma {:induction false} NonNegativeTotal(c: seq<(int, real)>, k: int)
    requires NonNegative(c)
    ensures 0.0 <= Lookup(c, k) <= TotalCount(c)
    decreases |c|
  {
    if |c| > 0 {
      assert NonNegative(c[1..]);
      NonNegativeTotal(c[1..], k);
    }
  }

  /** A counter whose stored values are all zero has a zero total. */
  lemma {:induction false} ZeroTotal(c: seq<(int, real)>)
    requires forall i :: 0 <= i < |c| ==> c[i].1 == 0.0
    ensures TotalCount(c) == 0.0
    decreases |c|
  {
    if |c| > 0 {
      ZeroTotal(c[1..]);
    }
  }

  /** A positive total has a key holding a positive value. */
  lemma {:induction false} PositiveKey(c: Counter)
    requires TotalCount(c) > 0.0
    ensures exists k :: HasKey(c, k) && Lookup(c, k) > 0.0
    decreases |c|
  {
    if c[0].1 > 0.0 {
      assert HasKey(c, c[0].0);
    } else {
      var rest: Counter := c[1..];
      PositiveKey(rest);
      var k :| HasKey(rest, k) && Lookup(rest, k) > 0.0;
      assert HasKey(c, k) && k != c[0].0;
    }
  }
}
