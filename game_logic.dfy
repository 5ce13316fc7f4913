/**
 * The game's shared logic: the optimal-time calculator for the bridge-and-torch
 * puzzle, the player-id counter and the player colour table.
 */
module GameLogic {
  import opened Sorting

  /** A player as the game receives it from the setup screen. */
  datatype Player = Player(id: nat, name: string, time: int, color: string)

  function Max(a: int, b: int): int { if a >= b then a else b }
  function Min(a: int, b: int): int { if a <= b then a else b }

  /** The crossing times of the players, in roster order. */
  function TimesOf(players: seq<Player>): (ts: seq<int>)
    ensures |ts| == |players|
  {
    seq(|players|, i requires 0 <= i < |players| => players[i].time)
  }

  predicate AllPositive(s: seq<int>) {
    forall x :: x in s ==> x > 0
  }

  // ---------------------------------------------------------------------------
  // Specification of the calculator
  // ---------------------------------------------------------------------------

  /**
   * The cost of one round that takes the two slowest of the first `r` sorted
   * times across: the cheaper of "the two fastest ferry the torch"
   * (t1 + t0 + t[r-1] + t1) and "the fastest escorts each slow one"
   * (t[r-1] + t0 + t[r-2] + t0).
   */
  function RoundCost(t: seq<int>, r: nat): (c: int)
    requires 4 <= r <= |t|
    ensures c <= t[1] + t[0] + t[r - 1] + t[1] && c <= t[r - 1] + t[0] + t[r - 2] + t[0]
    ensures c == t[1] + t[0] + t[r - 1] + t[1] || c == t[r - 1] + t[0] + t[r - 2] + t[0]
  {
    Min(t[1] + t[0] + t[r - 1] + t[1], t[r - 1] + t[0] + t[r - 2] + t[0])
  }

  /**
   * The total the calculator charges for the first `r` sorted times: one round
   * for the two slowest and then the remaining `r - 2`, until 3 (all three
   * summed) or 2 (the slower of the pair) are left.
   */
  function Greedy(t: seq<int>, r: nat): (g: int)
    requires 2 <= r <= |t|
    ensures IsSorted(t) && AllPositive(t) ==> g >= t[r - 1]
    decreases r
  {
    assert IsSorted(t) && AllPositive(t) ==> t[0] > 0 && t[1] > 0 by {
      assert t[0] in t && t[1] in t;
    }
    if r > 3 then RoundCost(t, r) + Greedy(t, r - 2)
    else if r == 3 then t[0] + t[1] + t[2]
    else t[1]
  }

  /** The calculator's answer for ascending times. */
  function OptimalSorted(t: seq<int>): (r: int)
    requires |t| >= 1
    ensures IsSorted(t) && AllPositive(t) ==> r >= t[|t| - 1]
  {
    if |t| == 1 then t[0] else Greedy(t, |t|)
  }

  /** The calculator's answer for times in any order. */
  function OptimalTime(times: seq<int>): (r: int)
    requires |times| >= 1
    ensures AllPositive(times) ==> r > 0
  {
    var t := SortAscending(times);
    assert AllPositive(times) ==> AllPositive(t) && t[|t| - 1] > 0 by {
      assert |t| == |multiset(t)| == |multiset(times)| == |times|;
      if AllPositive(times) {
        SortKeepsPositive(times);
        assert t[|t| - 1] in t;
      }
    }
    OptimalSorted(t)
  }

  // ---------------------------------------------------------------------------
  // The calculator
  // ---------------------------------------------------------------------------

  /**
   * computeOptimalTime: sorts a fresh copy of the times, answers 1, 2 and 3
   * players directly, and otherwise peels the two slowest off per round and
   * adds the tail for the 2 or 3 that remain. It has no `modifies` clause, so
   * the caller's array is neither reordered nor changed.
   */
  method ComputeOptimalTime(players: array<Player>) returns (total: int)
    requires players.Length >= 1
    ensures total == OptimalTime(TimesOf(players[..]))
  {
    var times := SortAscending(TimesOf(players[..]));
    var n := |times|;

    if n == 1 { return times[0]; }
    if n == 2 { return times[1]; }
    if n == 3 { return times[0] + times[1] + times[2]; }

    total := 0;
    var remaining := n;
    while remaining > 3
      invariant 2 <= remaining <= n
      invariant remaining % 2 == n % 2
      invariant total + Greedy(times, remaining) == Greedy(times, n)
      decreases remaining
    {
      var a := times[1] + times[0] + times[remaining - 1] + times[1];
      var b := times[remaining - 1] + times[0] + times[remaining - 2] + times[0];
      total := total + Min(a, b);
      remaining := remaining - 2;
    }
    // the loop leaves exactly 2 (even count) or 3 (odd count) people for the tail
    assert remaining == if n % 2 == 0 then 2 else 3;

    if remaining == 3 {
      total := total + times[0] + times[1] + times[2];
    } else {
      total := total + times[1];
    }
  }

  // ---------------------------------------------------------------------------
  // Properties of the calculator
  // ---------------------------------------------------------------------------

  /** One player takes exactly their own time. */
  lemma SinglePlayer(a: int)
    ensures OptimalTime([a]) == a
  {
    assert [a][1..] == [];
    assert SortAscending([a]) == Insert(a, []) == [a];
  }

  /** Two players take the slower of their two times. */
  lemma TwoPlayers(a: int, b: int)
    ensures OptimalTime([a, b]) == Max(a, b)
  {
    assert [a, b][1..] == [b];
    assert [b][1..] == [];
    var t := SortAscending([a, b]);
    assert t == Insert(a, SortAscending([b]));
    assert SortAscending([b]) == [b];
    if a > b {
      assert [b][1..] == [];
      assert t == [b] + Insert(a, []) == [b, a];
    }
  }

  /** Three players take the sum of their times. */
  lemma ThreePlayers(a: int, b: int, c: int)
    ensures OptimalTime([a, b, c]) == a + b + c
  {
    var s := [a, b, c];
    assert multiset(s) == multiset{a, b, c};
    ThreeTimes(s);
  }

  lemma ThreeTimes(s: seq<int>)
    requires |s| == 3
    ensures OptimalTime(s) == s[0] + s[1] + s[2]
  {
    var t := SortAscending(s);
    assert |t| == |multiset(t)| == |multiset(s)| == 3;
    assert OptimalTime(s) == t[0] + t[1] + t[2];
    assert t == [t[0], t[1], t[2]];
    assert s == [s[0], s[1], s[2]];
    SumOfSameThree(t[0], t[1], t[2], s[0], s[1], s[2]);
  }

  lemma SumOfSameThree(x: int, y: int, z: int, a: int, b: int, c: int)
    requires multiset{x, y, z} == multiset{a, b, c}
    ensures x + y + z == a + b + c
  {
    assert x in multiset{a, b, c};
    if x == a {
      assert multiset{y, z} == multiset{b, c};
      assert y in multiset{b, c};
    } else if x == b {
      assert multiset{y, z} == multiset{a, c};
      assert y in multiset{a, c};
    } else {
      assert multiset{y, z} == multiset{a, b};
      assert y in multiset{a, b};
    }
  }

  /** The result depends only on the multiset of times, not on their order. */
  lemma OrderIrrelevant(a: seq<int>, b: seq<int>)
    requires |a| >= 1
    requires multiset(a) == multiset(b)
    ensures |b| >= 1 && OptimalTime(a) == OptimalTime(b)
  {
    assert |b| == |multiset(b)| == |multiset(a)| == |a|;
    SortDependsOnMultisetOnly(a, b);
  }

  lemma TimesOfConcat(a: seq<Player>, b: seq<Player>)
    ensures TimesOf(a + b) == TimesOf(a) + TimesOf(b)
  {
  }

  /** Any reordering of the players has the same multiset of times. */
  lemma {:induction false} TimesOfPermutation(ps: seq<Player>, qs: seq<Player>)
    requires multiset(ps) == multiset(qs)
    ensures multiset(TimesOf(ps)) == multiset(TimesOf(qs))
  {
    if ps == [] {
      assert |qs| == |multiset(qs)| == 0;
    } else {
      var x := ps[0];
      assert x in multiset(qs);
      var k :| 0 <= k < |qs| && qs[k] == x;
      var rest := qs[..k] + qs[k + 1..];
      assert qs == qs[..k] + [x] + qs[k + 1..];
      assert ps == [x] + ps[1..];
      assert multiset(qs) == multiset(qs[..k]) + multiset{x} + multiset(qs[k + 1..]);
      assert multiset(rest) == multiset(qs[..k]) + multiset(qs[k + 1..]);
      assert multiset(ps) == multiset{x} + multiset(ps[1..]);
      assert multiset(ps[1..]) == multiset(ps) - multiset{x};
      assert multiset(rest) == multiset(qs) - multiset{x};
      TimesOfPermutation(ps[1..], rest);
      TimesOfConcat(qs[..k], qs[k + 1..]);
      TimesOfConcat(qs[..k] + [x], qs[k + 1..]);
      TimesOfConcat(qs[..k], [x]);
      TimesOfConcat([x], ps[1..]);
    }
  }

  /** Reordering the players never changes the optimal time. */
  lemma PlayerOrderIrrelevant(ps: seq<Player>, qs: seq<Player>)
    requires |ps| >= 1
    requires multiset(ps) == multiset(qs)
    ensures |qs| >= 1
    ensures OptimalTime(TimesOf(ps)) == OptimalTime(TimesOf(qs))
  {
    TimesOfPermutation(ps, qs);
    OrderIrrelevant(TimesOf(ps), TimesOf(qs));
  }

  /** With positive times, the answer is at least every single player's time. */
  lemma AtLeastEveryTime(times: seq<int>)
    requires |times| >= 1
    requires AllPositive(times)
    ensures forall i :: 0 <= i < |times| ==> OptimalTime(times) >= times[i]
  {
    var t := SortAscending(times);
    assert |t| == |multiset(t)| == |multiset(times)| == |times|;
    assert AllPositive(t) by {
      forall x | x in t ensures x > 0 {
        assert x in multiset(t);
        assert x in times;
      }
    }
    forall i | 0 <= i < |times| ensures OptimalTime(times) >= times[i] {
      assert times[i] in multiset(t);
      var j :| 0 <= j < |t| && t[j] == times[i];
      assert t[j] <= t[|t| - 1];
    }
  }

  /** Players with positive times: the optimum is at least each player's own time. */
  lemma SlowestBoundsOptimum(ps: seq<Player>)
    requires |ps| >= 1
    requires forall i :: 0 <= i < |ps| ==> ps[i].time > 0
    ensures AllPositive(TimesOf(ps))
    ensures forall i :: 0 <= i < |ps| ==> OptimalTime(TimesOf(ps)) >= ps[i].time
  {
    var ts := TimesOf(ps);
    assert AllPositive(ts) by {
      forall x | x in ts ensures x > 0 {
        var i :| 0 <= i < |ts| && ts[i] == x;
      }
    }
    AtLeastEveryTime(ts);
    forall i | 0 <= i < |ps| ensures OptimalTime(ts) >= ps[i].time {
      assert ts[i] == ps[i].time;
    }
  }

  /** Greedy(t, r) only looks at the first `r` times, so appending leaves it alone. */
  lemma {:induction false} GreedyAppend(t: seq<int>, x: int, r: nat)
    requires 2 <= r <= |t|
    ensures Greedy(t + [x], r) == Greedy(t, r)
  {
    var u := t + [x];
    assert u[0] == t[0] && u[1] == t[1] && u[r - 1] == t[r - 1];
    if r > 3 {
      assert u[2] == t[2] && u[r - 2] == t[r - 2];
      GreedyAppend(t, x, r - 2);
    } else if r == 3 {
      assert u[2] == t[2];
    }
  }

  /** For sorted non-negative times, one more (slower) person never lowers the cost. */
  lemma {:induction false} GreedyGrows(t: seq<int>, r: nat)
    requires 2 <= r < |t|
    requires IsSorted(t) && AllPositive(t)
    ensures Greedy(t, r) <= Greedy(t, r + 1)
  {
    assert t[0] in t && t[1] in t && t[2] in t;
    if r >= 4 {
      GreedyGrows(t, r - 2);
    }
  }

  lemma SortKeepsPositive(times: seq<int>)
    requires AllPositive(times)
    ensures AllPositive(SortAscending(times))
  {
    var t := SortAscending(times);
    forall y | y in t ensures y > 0 {
      assert y in multiset(t);
      assert y in times;
    }
  }

  /** Adding a player at least as slow as everyone never decreases the answer. */
  lemma AddSlowestNeverFaster(times: seq<int>, x: int)
    requires |times| >= 1
    requires AllPositive(times)
    requires forall y :: y in times ==> y <= x
    ensures OptimalTime(times + [x]) >= OptimalTime(times)
  {
    if |times| == 1 {
      var a := times[0];
      assert times == [a] && times + [x] == [a, x];
      SinglePlayer(a);
      TwoPlayers(a, x);
    } else {
      AddSlowestToGroup(times, x);
    }
  }

  lemma AddSlowestToGroup(times: seq<int>, x: int)
    requires |times| >= 2
    requires AllPositive(times)
    requires forall y :: y in times ==> y <= x
    ensures OptimalTime(times + [x]) >= OptimalTime(times)
  {
    var t := SortAscending(times);
    SortKeepsPositive(times);
    SortAppendLargest(times, x);
    GreedyOfSorted(times, t);
    GreedyOfSorted(times + [x], t + [x]);
    assert times[0] in times;
    SortedAddSlowest(t, x);
  }

  /** From two people on, the answer is the greedy total over the sorted times. */
  lemma GreedyOfSorted(times: seq<int>, t: seq<int>)
    requires |times| >= 2 && t == SortAscending(times)
    ensures |t| == |times| && OptimalTime(times) == Greedy(t, |t|)
  {
    assert |t| == |multiset(t)| == |multiset(times)| == |times|;
  }

  /** On sorted positive times, a slowest extra person never lowers the greedy total. */
  lemma SortedAddSlowest(t: seq<int>, x: int)
    requires |t| >= 2 && IsSorted(t + [x]) && AllPositive(t) && x > 0
    ensures Greedy(t + [x], |t| + 1) >= Greedy(t, |t|)
  {
    var u := t + [x];
    assert AllPositive(u) by {
      forall y | y in u ensures y > 0 {
        if y != x { assert y in t; }
      }
    }
    GreedyAppend(t, x, |t|);
    GreedyGrows(u, |t|);
  }

  /** The default roster's times 1, 2, 5, 10 give 17: one round of 15, then the pair's 2. */
  lemma DefaultTimesGive17(t: seq<int>)
    requires |t| == 4 && t[0] == 1 && t[1] == 2 && t[2] == 5 && t[3] == 10
    ensures OptimalTime(t) == 17
  {
    assert t == [1, 2, 5, 10];
    SortOfSorted(t);
    assert OptimalTime(t) == OptimalSorted(t) == Greedy(t, 4);
    assert RoundCost(t, 4) == Min(15, 17) == 15;
    assert Greedy(t, 4) == 15 + Greedy(t, 2) == 17;
  }

  /** Times 1, 2, 3, 4 give 11 (one round of min(9, 9), then 2), as the code computes. */
  lemma OneToFourGives11(t: seq<int>)
    requires t == [1, 2, 3, 4]
    ensures OptimalTime(t) == 11
  {
    SortOfSorted(t);
    assert OptimalTime(t) == OptimalSorted(t) == Greedy(t, 4);
    assert RoundCost(t, 4) == Min(9, 9) == 9;
    assert Greedy(t, 4) == 9 + Greedy(t, 2) == 11;
  }

  // ---------------------------------------------------------------------------
  // Player ids and colours
  // ---------------------------------------------------------------------------

  /** The module-level id counter behind `uid()`: each call yields the next integer. */
  class IdSource {
    var last: nat
    ghost var issued: set<nat>

    ghost predicate Valid()
      reads this
    {
      forall id :: id in issued ==> 1 <= id <= last
    }

    constructor ()
      ensures Valid() && last == 0 && issued == {}
    {
      last := 0;
      issued := {};
    }

    /** `uid()`: pre-increments the counter and returns its new value. */
    method Next() returns (id: nat)
      requires Valid()
      modifies this
      ensures Valid()
      ensures last == old(last) + 1 && id == last
      ensures id !in old(issued) && issued == old(issued) + {id}
    {
      last := last + 1;
      id := last;
      issued := issued + {id};
    }
  }

  const PlayerColors: seq<string> := [
    "#FF6B6B", "#4ECDC4", "#45B7D1", "#96CEB4",
    "#FECA57", "#FF9FF3", "#54A0FF", "#5F27CD",
    "#01A3A4", "#F368E0"
  ]

  /** The colour of the player at roster position `i`, cycling through the table. */
  function ColorFor(i: nat): (c: string)
    ensures c in PlayerColors
    ensures i < 10 ==> c == PlayerColors[i]
  {
    PlayerColors[i % |PlayerColors|]
  }
}
