/** What the bounded multi-leg search of `get_complete_routes` guarantees
    about the chains it returns, proved about the functions of module
    CombinatorSpec. The shape of the chains (where they begin, that their
    legs meet, how many legs they have) and their provenance (every leg is
    a slice of a candidate) are proved separately. */
module SearchLemmas {
  import opened Routes
  import opened Scan
  import opened CombinatorSpec
  import opened CombinatorLemmas

  // ---------------------------------------------------------------------
  // Chain and frontier shapes

  /** `c` begins at `start` and its consecutive legs meet. */
  ghost predicate StartChain(c: Chain, start: Coord) {
    |c| > 0 && |c[0].coords| > 0 && c[0].coords[0] == start && Continuous(c)
  }

  /** The last leg of `c` ends at `end`. */
  predicate EndsAt(c: Chain, end: Coord) {
    |c| > 0 && |Last(c).coords| > 0 && Last(Last(c).coords) == end
  }

  /** Every chain of `g` begins at `start` and has meeting legs. */
  ghost predicate StartFrontier(g: seq<Chain>, start: Coord) {
    forall x :: 0 <= x < |g| ==> StartChain(g[x], start)
  }

  /** Every chain of `g` has from `lo` to `hi` legs. */
  predicate LegCounts(g: seq<Chain>, lo: nat, hi: nat) {
    forall x :: 0 <= x < |g| ==> lo <= |g[x]| <= hi
  }

  /** Chains of `n` legs, for `n` from 2 to 4. */
  lemma UniformCounts(g: seq<Chain>, n: nat)
    requires 2 <= n <= 4 && Uniform(g, n)
    ensures LegCounts(g, 2, 4)
  {
  }

  /** Every chain of `g` has `n` legs. */
  predicate Uniform(g: seq<Chain>, n: nat) {
    forall x :: 0 <= x < |g| ==> |g[x]| == n
  }

  /** Every leg of every chain of `g` is a slice of a candidate of `pool`. */
  ghost predicate PoolFrontier(g: seq<Chain>, pool: seq<Route>) {
    forall y :: 0 <= y < |g| ==> LegsOf(g[y], pool)
  }

  /** Every chain of `g` is one leg that ends at `end`. */
  predicate EndFrontier(g: seq<Chain>, end: Coord) {
    forall y :: 0 <= y < |g| ==> |g[y]| == 1 && EndsAt(g[y], end)
  }

  // ---------------------------------------------------------------------
  // Joining keeps the shapes

  /** Joining a chain that begins at `start` gives a chain one leg longer
      that begins at `start` and whose legs still meet. */
  lemma JoinKeepsStart(a: Chain, b: Chain, start: Coord)
    requires |b| > 0 && StartChain(a, start)
    requires Join(a, b).Some?
    ensures StartChain(Join(a, b).value, start) && |Join(a, b).value| == |a| + 1
  {
    var c := Join(a, b).value;
    var n := |a|;
    assert c[n - 1].coords[0] == a[n - 1].coords[0];
    if n > 1 {
      assert c[0] == c[..n - 1][0] == a[0];
    }
    forall k, l | 0 <= k < l < |c| && l == k + 1
      ensures Meets(c[k], c[l])
    {
      if l < n - 1 {
        assert c[k] == c[..n - 1][k] == a[k];
        assert c[l] == c[..n - 1][l] == a[l];
        assert Meets(a[k], a[l]);
      } else if l == n - 1 {
        assert c[k] == c[..n - 1][k] == a[k];
        assert Meets(a[k], a[l]);
      }
    }
  }

  /** Joining keeps every leg a slice of a candidate. */
  lemma JoinLegsOf(a: Chain, b: Chain, pool: seq<Route>)
    requires |a| > 0 && |b| > 0 && LegsOf(a, pool) && LegsOf(b, pool)
    requires Join(a, b).Some?
    ensures LegsOf(Join(a, b).value, pool)
  {
    var c := Join(a, b).value;
    var n := |a|;
    SharedPrefixLegs(c, a, n - 1, pool);
    PrefixLeg(c[n - 1], a[n - 1], pool);
    InfixLeg(c[n], b[0], pool);
    assert |c| == n + 1;
    forall k | 0 <= k < |c| ensures LegOf(c[k], pool) {
      if k == n - 1 {
        assert LegOf(c[n - 1], pool);
      } else if k == n {
        assert LegOf(c[n], pool);
      }
    }
  }

  /** Legs shared with a chain whose legs are slices of `pool` are too. */
  lemma SharedPrefixLegs(c: Chain, a: Chain, m: nat, pool: seq<Route>)
    requires m <= |a| && m <= |c| && c[..m] == a[..m] && LegsOf(a, pool)
    ensures forall k :: 0 <= k < m ==> LegOf(c[k], pool)
  {
    forall k | 0 <= k < m ensures LegOf(c[k], pool) {
      assert c[k] == c[..m][k];
    }
  }

  /** A leg cut short at the end is still a slice of a route of `pool`. */
  lemma PrefixLeg(piece: Route, leg: Route, pool: seq<Route>)
    requires LegOf(leg, pool) && SameMeta(piece, leg) && piece.coords <= leg.coords
    ensures LegOf(piece, pool)
  {
    assert piece.coords == leg.coords[0..|piece.coords|];
    InfixLeg(piece, leg, pool);
  }

  /** Joining with a one-leg chain that ends at `end` gives a chain that
      ends at `end`: the kept part of that leg is a suffix of it. */
  lemma JoinEndsAt(a: Chain, b: Chain, end: Coord)
    requires |a| > 0 && |b| == 1 && EndsAt(b, end)
    requires Join(a, b).Some?
    ensures EndsAt(Join(a, b).value, end)
  {
    var c := Join(a, b).value;
    assert Last(c) == c[|a|];
  }

  /** Connecting a start frontier gives chains that begin at `start` and
      whose legs meet. */
  lemma ConnectKeepsStart(groupA: seq<Chain>, groupB: seq<Chain>, start: Coord)
    requires NonEmptyChains(groupA) && NonEmptyChains(groupB)
    requires StartFrontier(groupA, start)
    ensures StartFrontier(Connect(groupA, groupB), start)
  {
    forall k | 0 <= k < |Connect(groupA, groupB)|
      ensures StartChain(Connect(groupA, groupB)[k], start)
    {
      var x, y := ConnectPair(groupA, groupB, k);
      JoinKeepsStart(groupA[x], groupB[y], start);
    }
  }

  /** Connecting `n`-leg chains gives `n + 1`-leg chains. */
  lemma ConnectLengths(groupA: seq<Chain>, groupB: seq<Chain>, n: nat)
    requires NonEmptyChains(groupA) && NonEmptyChains(groupB)
    requires Uniform(groupA, n)
    ensures Uniform(Connect(groupA, groupB), n + 1)
  {
    forall k | 0 <= k < |Connect(groupA, groupB)|
      ensures |Connect(groupA, groupB)[k]| == n + 1
    {
      var x, y := ConnectPair(groupA, groupB, k);
    }
  }

  /** Connecting keeps every leg a slice of a candidate. */
  lemma ConnectKeepsLegs(groupA: seq<Chain>, groupB: seq<Chain>, pool: seq<Route>)
    requires NonEmptyChains(groupA) && NonEmptyChains(groupB)
    requires PoolFrontier(groupA, pool) && PoolFrontier(groupB, pool)
    ensures PoolFrontier(Connect(groupA, groupB), pool)
  {
    forall k | 0 <= k < |Connect(groupA, groupB)|
      ensures LegsOf(Connect(groupA, groupB)[k], pool)
    {
      var x, y := ConnectPair(groupA, groupB, k);
      JoinLegsOf(groupA[x], groupB[y], pool);
    }
  }

  /** Connecting against one-leg chains that end at `end` gives chains that
      end at `end`. */
  lemma ConnectEndsAt(groupA: seq<Chain>, groupB: seq<Chain>, end: Coord)
    requires NonEmptyChains(groupA) && NonEmptyChains(groupB) && EndFrontier(groupB, end)
    ensures forall k :: 0 <= k < |Connect(groupA, groupB)| ==> EndsAt(Connect(groupA, groupB)[k], end)
  {
    forall k | 0 <= k < |Connect(groupA, groupB)|
      ensures EndsAt(Connect(groupA, groupB)[k], end)
    {
      var x, y := ConnectPair(groupA, groupB, k);
      JoinEndsAt(groupA[x], groupB[y], end);
    }
  }

  // ---------------------------------------------------------------------
  // One round of the search

  /** An even round without a result either stops with the empty result or
      goes on with the extended start frontier. */
  lemma SearchEvenRound(startNet: seq<Chain>, endNet: seq<Chain>, full: seq<Chain>, round: nat)
    requires round < Rounds && round % 2 == 0
    requires NonEmptyChains(startNet) && NonEmptyChains(endNet) && NonEmptyChains(full)
    requires |Connect(startNet, endNet)| == 0
    ensures var startNet' := Connect(startNet, full);
      Search(startNet, endNet, full, round)
        == if |startNet'| == 0 || |endNet| == 0 then Some([]) else Search(startNet', endNet, full, round + 1)
  {
  }

  /** An odd round without a result either stops with the empty result or
      goes on with the extended end frontier. */
  lemma SearchOddRound(startNet: seq<Chain>, endNet: seq<Chain>, full: seq<Chain>, round: nat)
    requires round < Rounds && round % 2 == 1
    requires NonEmptyChains(startNet) && NonEmptyChains(endNet) && NonEmptyChains(full)
    requires |Connect(startNet, endNet)| == 0
    ensures var endNet' := Connect(full, endNet);
      Search(startNet, endNet, full, round)
        == if |startNet| == 0 || |endNet'| == 0 then Some([]) else Search(startNet, endNet', full, round + 1)
  {
  }

  /** The number of legs of the start frontier's chains at the beginning
      of round `i`, from one-leg chains: one more after each even round. */
  function StartLegs(i: nat): nat {
    if i == 0 then 1 else if i <= 2 then 2 else if i <= 4 then 3 else 4
  }

  /** An even round adds a leg to the start chains, an odd one does not;
      before the last round is over they have at most three. */
  lemma NextStartLegs(i: nat)
    requires i < Rounds
    ensures 1 <= StartLegs(i) <= 3
    ensures StartLegs(i + 1) == if i % 2 == 0 then StartLegs(i) + 1 else StartLegs(i)
  {
  }

  // ---------------------------------------------------------------------
  // The bounded search, round by round

  /** Every chain the search returns begins at `start` and has meeting legs,
      when every chain of the start frontier does. */
  lemma SearchStarts(startNet: seq<Chain>, endNet: seq<Chain>, full: seq<Chain>, start: Coord)
    requires NonEmptyChains(startNet) && NonEmptyChains(endNet) && NonEmptyChains(full)
    requires StartFrontier(startNet, start)
    ensures var r := Search(startNet, endNet, full, 0);
      r.Some? ==> StartFrontier(r.value, start)
  {
    var s, e := startNet, endNet;
    for i := 0 to Rounds
      invariant NonEmptyChains(s) && NonEmptyChains(e)
      invariant Search(s, e, full, i) == Search(startNet, endNet, full, 0)
      invariant StartFrontier(s, start)
    {
      var found := Connect(s, e);
      if |found| > 0 {
        ConnectKeepsStart(s, e, start);
        return;
      }
      if i % 2 == 0 {
        SearchEvenRound(s, e, full, i);
        var s' := Connect(s, full);
        if |s'| == 0 || |e| == 0 {
          return;
        }
        ConnectKeepsStart(s, full, start);
        s := s';
      } else {
        SearchOddRound(s, e, full, i);
        var e' := Connect(full, e);
        if |s| == 0 || |e'| == 0 {
          return;
        }
        e := e';
      }
    }
  }

  /** One round for the leg counts: either the search ends in round `i`
      with chains of two to four legs (or none), or it goes on from round
      `i + 1` with a start frontier of `StartLegs(i + 1)`-leg chains. */
  lemma LengthsRound(s: seq<Chain>, e: seq<Chain>, full: seq<Chain>, i: nat)
    returns (s2: seq<Chain>, e2: seq<Chain>, stop: bool)
    requires i < Rounds
    requires NonEmptyChains(s) && NonEmptyChains(e) && NonEmptyChains(full)
    requires Uniform(s, StartLegs(i))
    ensures stop ==> var r := Search(s, e, full, i);
      r.Some? ==> LegCounts(r.value, 2, 4)
    ensures !stop ==>
      && NonEmptyChains(s2) && NonEmptyChains(e2) && Uniform(s2, StartLegs(i + 1))
      && Search(s, e, full, i) == Search(s2, e2, full, i + 1)
  {
    NextStartLegs(i);
    s2, e2, stop := s, e, true;
    var found := Connect(s, e);
    if |found| > 0 {
      ConnectLengths(s, e, StartLegs(i));
      UniformCounts(found, StartLegs(i) + 1);
      return;
    }
    if i % 2 == 0 {
      SearchEvenRound(s, e, full, i);
      var s' := Connect(s, full);
      if |s'| > 0 && |e| > 0 {
        ConnectLengths(s, full, StartLegs(i));
        s2, stop := s', false;
      }
    } else {
      SearchOddRound(s, e, full, i);
      var e' := Connect(full, e);
      if |s| > 0 && |e'| > 0 {
        e2, stop := e', false;
      }
    }
  }

  /** From one-leg start chains, every chain the search returns has two to
      four legs: the start frontier gains a leg in rounds 0, 2 and 4 only
      (after the last of which the loop ends), and a join adds one. */
  lemma SearchLengths(startNet: seq<Chain>, endNet: seq<Chain>, full: seq<Chain>)
    requires NonEmptyChains(startNet) && NonEmptyChains(endNet) && NonEmptyChains(full)
    requires Uniform(startNet, 1)
    ensures var r := Search(startNet, endNet, full, 0);
      r.Some? ==> LegCounts(r.value, 2, 4)
  {
    var s, e := startNet, endNet;
    for i := 0 to Rounds
      invariant NonEmptyChains(s) && NonEmptyChains(e)
      invariant Search(s, e, full, i) == Search(startNet, endNet, full, 0)
      invariant Uniform(s, StartLegs(i))
    {
      var s2, e2, stop := LengthsRound(s, e, full, i);
      if stop {
        return;
      }
      s, e := s2, e2;
    }
  }

  /** Every leg of every chain the search returns is a slice of a candidate
      of `pool`, when this holds for the frontiers and the full network. */
  lemma SearchLegs(startNet: seq<Chain>, endNet: seq<Chain>, full: seq<Chain>, pool: seq<Route>)
    requires NonEmptyChains(startNet) && NonEmptyChains(endNet) && NonEmptyChains(full)
    requires PoolFrontier(startNet, pool) && PoolFrontier(endNet, pool) && PoolFrontier(full, pool)
    ensures var r := Search(startNet, endNet, full, 0);
      r.Some? ==> PoolFrontier(r.value, pool)
  {
    var s, e := startNet, endNet;
    for i := 0 to Rounds
      invariant NonEmptyChains(s) && NonEmptyChains(e)
      invariant Search(s, e, full, i) == Search(startNet, endNet, full, 0)
      invariant PoolFrontier(s, pool) && PoolFrontier(e, pool)
    {
      var found := Connect(s, e);
      if |found| > 0 {
        ConnectKeepsLegs(s, e, pool);
        return;
      }
      if i % 2 == 0 {
        SearchEvenRound(s, e, full, i);
        var s' := Connect(s, full);
        if |s'| == 0 || |e| == 0 {
          return;
        }
        ConnectKeepsLegs(s, full, pool);
        s := s';
      } else {
        SearchOddRound(s, e, full, i);
        var e' := Connect(full, e);
        if |s| == 0 || |e'| == 0 {
          return;
        }
        ConnectKeepsLegs(full, e, pool);
        e := e';
      }
    }
  }

  /** From one-leg frontiers whose end chains end at `end`, every two-leg
      chain the search returns ends at `end`: such chains are found in
      round 0 only, before the end frontier is extended (later rounds keep
      only the first leg of an end chain, so their chains need not end at
      `end`). */
  lemma SearchEnds(startNet: seq<Chain>, endNet: seq<Chain>, full: seq<Chain>, end: Coord)
    requires NonEmptyChains(startNet) && NonEmptyChains(endNet) && NonEmptyChains(full)
    requires Uniform(startNet, 1) && EndFrontier(endNet, end)
    ensures var r := Search(startNet, endNet, full, 0);
      r.Some? ==> forall k :: 0 <= k < |r.value| && |r.value[k]| <= 2 ==> EndsAt(r.value[k], end)
  {
    var n := 1;
    var s, e := startNet, endNet;
    for i := 0 to Rounds
      invariant NonEmptyChains(s) && NonEmptyChains(e)
      invariant Search(s, e, full, i) == Search(startNet, endNet, full, 0)
      invariant 1 <= n && Uniform(s, n)
      invariant n == 1 ==> i == 0 && e == endNet
    {
      var found := Connect(s, e);
      if |found| > 0 {
        ConnectLengths(s, e, n);
        if n == 1 {
          ConnectEndsAt(s, e, end);
        }
        return;
      }
      if i % 2 == 0 {
        SearchEvenRound(s, e, full, i);
        var s' := Connect(s, full);
        if |s'| == 0 || |e| == 0 {
          return;
        }
        ConnectLengths(s, full, n);
        n := n + 1;
        s := s';
      } else {
        SearchOddRound(s, e, full, i);
        var e' := Connect(full, e);
        if |s| == 0 || |e'| == 0 {
          return;
        }
        e := e';
      }
    }
  }

  // ---------------------------------------------------------------------
  // get_complete_routes

  /** Every chain `get_complete_routes` returns begins at the boarding point
      `start`, has one to four legs that meet and are slices of candidates,
      and ends at the alighting point `end` when it has one or two legs. */
  lemma CompleteRoutesShape(cands: seq<Route>, start: Coord, end: Coord)
    ensures var r := CompleteRoutes(cands, start, end);
      r.Some? ==> forall k :: 0 <= k < |r.value| ==>
        && StartChain(r.value[k], start) && LegsOf(r.value[k], cands)
        && 1 <= |r.value[k]| <= 4
        && (|r.value[k]| <= 2 ==> EndsAt(r.value[k], end))
  {
    var srs := StartRoutes(cands, start);
    StartRoutesAreSlices(cands, start);
    var direct := Directs(srs, end);
    if |direct| > 0 {
      DirectsShape(srs, start, end, cands);
      forall k | 0 <= k < |direct|
        ensures StartChain(direct[k], start) && LegsOf(direct[k], cands) && |direct[k]| == 1
        ensures EndsAt(direct[k], end)
      {
        assert direct[k] in direct;
        assert DirectShape(direct[k], start, end, cands);
      }
    } else {
      var ers := EndRoutes(cands, end);
      EndRoutesAreSlices(cands, end);
      var startNet, endNet, full := Singletons(srs), Singletons(ers), Singletons(cands);
      forall x | 0 <= x < |startNet| ensures StartChain(startNet[x], start) && LegsOf(startNet[x], cands) {
        assert srs[x] in srs;
      }
      forall y | 0 <= y < |endNet| ensures LegsOf(endNet[y], cands) && EndsAt(endNet[y], end) {
        assert ers[y] in ers;
      }
      forall y | 0 <= y < |full| ensures LegsOf(full[y], cands) {
        assert cands[y].coords == cands[y].coords[0..|cands[y].coords|];
        assert SliceOf(cands[y], cands[y]);
      }
      SearchStarts(startNet, endNet, full, start);
      SearchLengths(startNet, endNet, full);
      SearchLegs(startNet, endNet, full, cands);
      SearchEnds(startNet, endNet, full, end);
    }
  }
}
